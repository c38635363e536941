# Persistent HAMT map

This project models the persistent hash map of the `foundation` library in
Dafny, and proves properties of the model. The map is a hash array mapped
trie (HAMT) with 6 bits of the hash per level. Its parts are:

- an inner node: two 64-bit bitmaps, `datamap` and `nodemap`, and two
  compacted arrays, one of inline entries and one of child pointers;
- a collision node: used at `max_shift` (66), holding every entry whose hash
  bits are used up;
- path copying: every update allocates new nodes along one path and shares
  the rest of the trie;
- reference counting: nodes are kept alive by a shared atomic counter;
- a depth-first iterator;
- the MurmurHash3-style hasher that produces the 64-bit hashes.

The modules follow the source files:

| module | file | what it holds |
|---|---|---|
| `Bits` | `bits.dfy` | `max_depth`, `max_shift`, `mask`, `popcount`, and the rank of a bit in a bitmap |
| `CowArray` | `array.dfy` | `make_array*` as methods on `array`, specified by sequence functions |
| `Refcount` | `refcount.dfy` | `refcounted`: a class whose count cell is shared between copies |
| `HamtNode` | `node.dfy` | node values and the path-copy helpers on a node's bitmaps and arrays |
| `HamtTrie` | `trie.dfy` | `merge`, `get`, `set` and `erase` on node values, and the structural invariant `Shaped` |
| `HamtLaws` | `trielaws.dfy` | lookup laws of `merge` and `set` |
| `HamtRouting` | `routing.dfy` | the routing invariant `Routed`, which says every key sits on the path its hash selects, and its preservation by `set` |
| `HamtEraseLaws` | `eraselaws.dfy` | what each `erase` result means for lookups (`Erased`) |
| `HamtSizes` | `sizes.dfy` | entry counts of `set` and `erase` |
| `HamtHeap` | `heap.dfy` | the node as a heap object: path copying with reference counts, the destructor, `operator==` |
| `HamtIterator` | `iterator.dfy` | the iterator as a class over a slot array, proved against a depth-first successor function |
| `HamtMap` | `map.dfy` | `map` / `immutable_map`: the size counter, `get`/`set`/`erase`, and the root's reference count |
| `Murmur` | `murmur.dfy` | `MurmurHash`: the block loop, the tail, finalisation |

The trie algorithms build new nodes and do not change their receiver, with one
exception: `set` moves a stored value out of the receiver when it pushes two
entries into a new child (see Findings; `HamtTrie.ReceiverAfterSet` models what
that leaves behind). The model copies the value there, so nodes never change
once built, and the trie algorithms (`set`, `get`,
`erase`, `merge`) are modelled as functions on node values. The object-level
view is modelled imperatively in `HamtHeap`:

- allocation;
- the arrays a node owns;
- the reference counts its helpers take and drop;
- the destructor.

The hash function is a parameter `h: K -> bv64`. Entries are compared by key.

The main results are these:

- `set` keeps the structural and routing invariants. After `set`, the key maps
  to the new entry and every other key is unchanged.
- `erase` keeps both invariants. It reports `Unchanged` exactly when the key is
  absent. A replacement node lacks the key and keeps every other key. A
  hoisted entry is the only other entry of the dissolved subtree.
- `set` adds one entry exactly when the key was absent. `erase` removes exactly
  one entry.
- The iterator moves forward strictly in depth-first order and always stops at
  an entry.
- Each path-copy helper gives every shared child exactly one more reference.

## Model

| member | source | states |
|---|---|---|
| Bits.MaxDepthOf | src/foundation/immutable/detail/bits.h:21-22 | max_depth<b> is the least number of b-bit levels covering the 64 hash bits |
| Bits.MaxShiftOf | src/foundation/immutable/detail/bits.h:24-25 | max_shift<b> is at least 64 and below 64 + b, so the collision level lies past every hash bit |
| Bits.DepthForSix | src/foundation/immutable/detail/bits.h:21-25 | for 6 branches: 11 levels and shift 66 |
| Bits.Mask | src/foundation/immutable/detail/bits.h:27-28 | mask<b> has exactly the bits below b set |
| Bits.Popcount | src/foundation/immutable/detail/bits.h:30-37 | popcount is at most 64 |
| Bits.PopcountZero | src/foundation/immutable/detail/bits.h:30-37 | popcount is 0 exactly for the empty bitmap |
| Bits.CompactIndexIsRank | src/foundation/immutable/detail/hamtnode.h:587-592 | popcount(map & (bit - 1)) counts the set bits below the sparse index |
| Bits.CompactIndexInRange | src/foundation/immutable/detail/hamtnode.h:587-592 | for a set bit, that compact index is a valid position in the compacted array |
| Bits.PopcountInsert | src/foundation/immutable/detail/hamtnode.h:276-295 | setting a clear bit adds one to popcount |
| Bits.PopcountErase | src/foundation/immutable/detail/hamtnode.h:297-313 | clearing a set bit takes one from popcount |
| Bits.PopcountSingle | src/foundation/immutable/detail/hamtnode.h:509-564 | a one-bit bitmap has popcount 1 |
| Bits.DisjointIff | src/foundation/immutable/detail/hamtnode.h:35-41 | datamap & nodemap == 0 exactly when no sparse index is in both bitmaps |
| Bits.SetBitEach | src/foundation/immutable/detail/hamtnode.h:276-295 | map \| bit has bit i set and keeps every other bit |
| Bits.ClearBitEach | src/foundation/immutable/detail/hamtnode.h:297-313 | map & ~bit has bit i clear and keeps every other bit |
| Bits.ClearBitInverse | src/foundation/immutable/detail/hamtnode.h:276-313 | clearing a set bit leaves it clear, and that bit together with the rest gives back every bit of the original |
| Bits.CountInjective | src/foundation/immutable/detail/hamtnode.h:587-592 | distinct set bits have distinct compact indices |
| CowArray.InsertAt | src/foundation/immutable/detail/array.h:33-55 | the element goes at the position; the prefix is kept; the suffix shifts up by one |
| CowArray.ReplaceAt | src/foundation/immutable/detail/array.h:57-79 | the element at the position is the new one; every other element is kept |
| CowArray.EraseAt | src/foundation/immutable/detail/array.h:81-102 | the prefix is kept; the suffix shifts down by one |
| CowArray.EraseAfterInsert | src/foundation/immutable/detail/array.h:33-102 | erasing at the insertion position undoes the insertion |
| CowArray.InsertAfterErase | src/foundation/immutable/detail/array.h:33-102 | inserting the erased element at its position undoes the erasure |
| CowArray.ReplaceLaws | src/foundation/immutable/detail/array.h:57-79 | replacing an element by itself changes nothing; of two replacements, the last one wins |
| CowArray.InsertMultiset | src/foundation/immutable/detail/array.h:33-55 | insertion adds exactly one occurrence of the element |
| CowArray.EraseMultiset | src/foundation/immutable/detail/array.h:81-102 | erasure removes exactly the occurrence at the position |
| CowArray.ReplaceMultiset | src/foundation/immutable/detail/array.h:57-79 | replacement swaps one occurrence of the old element for one of the new |
| CowArray.MakeArray | src/foundation/immutable/detail/array.h:15-20 | a fresh array of the asserted non-zero size |
| CowArray.CopyRange | src/foundation/immutable/detail/array.h:28 | uninitialized_copy copies the range and leaves the rest of the destination as it was |
| CowArray.CopyArray | src/foundation/immutable/detail/array.h:22-31 | a fresh array equal to the source |
| CowArray.ArrayInsert | src/foundation/immutable/detail/array.h:33-55 | a fresh array holding InsertAt of the source |
| CowArray.ArrayReplace | src/foundation/immutable/detail/array.h:57-79 | a fresh array holding ReplaceAt of the source |
| CowArray.ArrayErase | src/foundation/immutable/detail/array.h:81-102 | null exactly for a one-element source; otherwise a fresh array holding EraseAt of the source |
| Refcount.Refcounted.constructor | src/foundation/immutable/detail/refcounted.h:17-19 | a fresh count cell holding 1 |
| Refcount.Refcounted.Copy | src/foundation/immutable/detail/refcounted.h:21-23 | a copy shares the cell and changes no count |
| Refcount.Refcounted.Inc | src/foundation/immutable/detail/refcounted.h:33-36 | the shared count grows by one, wrapping at 2^64 |
| Refcount.Refcounted.Dec | src/foundation/immutable/detail/refcounted.h:38-41 | the count drops by one; the result is true exactly when the count was 1 before |
| Refcount.Refcounted.IsUnique | src/foundation/immutable/detail/refcounted.h:43-46 | is_unique(): the shared count is 1; no contract of its own, used by Refcounted.Destroy |
| Refcount.Refcounted.Destroy | src/foundation/immutable/detail/refcounted.h:25-31 | the cell is deleted exactly when the count is 1 |
| Refcount.Refcounted.Release | src/foundation/immutable/detail/refcounted.h:25-31 | the intended destructor: the cell is deleted exactly when no owner is left (count 0) |
| Refcount.PredSucc | src/foundation/immutable/detail/refcounted.h:33-41 | dec undoes inc under wrap-around, and the two commute |
| Refcount.DroppedBumped | src/foundation/immutable/detail/refcounted.h:33-41 | n decrements undo n increments |
| Refcount.IncThroughCopy | src/foundation/immutable/detail/refcounted.h:21-36 | an increment through a copy is seen through the original |
| Refcount.IncThenDec | src/foundation/immutable/detail/refcounted.h:33-41 | inc then dec restores the count, and reports "last" only for a count that was 0 |
| HamtNode.MaxShiftForBranches | src/foundation/immutable/detail/bits.h:21-25 | the model's MaxShift is max_shift<6> and max_depth<6> is 11 |
| HamtNode.MaskForBranches | src/foundation/immutable/detail/bits.h:27-28 | mask<6> is 63 |
| HamtNode.LevelShiftIsMultiple | src/foundation/immutable/detail/hamtnode.h:567-637 | the shifts a node can sit at are the multiples of 6 up to max_shift |
| HamtNode.LevelShiftInRange | src/foundation/immutable/detail/hamtnode.h:587-588 | below max_shift, a level's shift is less than 64, so `hash >> shift` is defined |
| HamtNode.SparseIndex | src/foundation/immutable/detail/hamtnode.h:587 | (hash >> shift) & mask<6>, the slot of the hash at a level; no contract of its own, its range at every level is LevelShiftInRange |
| HamtNode.CompactIndex | src/foundation/immutable/detail/hamtnode.h:592 | the compact index is the number of set bits below the sparse index |
| HamtNode.SlotOf | src/foundation/immutable/detail/hamtnode.h:587-596 | a sparse index has an element exactly when its bit is set, and that element is in the array |
| HamtNode.SlotIs | src/foundation/immutable/detail/hamtnode.h:592-596 | a set bit's element is the array element at its compact index |
| HamtNode.SlotOnto | src/foundation/immutable/detail/hamtnode.h:35-41 | every array element belongs to some set bit |
| HamtNode.SlotInsert | src/foundation/immutable/detail/hamtnode.h:276-295 | setting bit i and inserting at its compact index fills slot i; every other slot is kept |
| HamtNode.SlotErase | src/foundation/immutable/detail/hamtnode.h:297-313 | clearing bit i and erasing at its compact index empties slot i; every other slot is kept |
| HamtNode.SlotReplace | src/foundation/immutable/detail/hamtnode.h:257-274 | replacing at bit i's compact index changes slot i only |
| HamtNode.SlotsDisjoint | src/foundation/immutable/detail/hamtnode.h:35-41 | no sparse index holds both an inline entry and a child |
| HamtNode.ReplaceValueSlots | src/foundation/immutable/detail/hamtnode.h:257-274 | replace_value keeps the node compacted, changes inline slot i only and keeps every child slot |
| HamtNode.InsertValueSlots | src/foundation/immutable/detail/hamtnode.h:276-295 | insert_value keeps the node compacted, fills inline slot i and keeps every other slot |
| HamtNode.EraseValueSlots | src/foundation/immutable/detail/hamtnode.h:297-313 | erase_value keeps the node compacted, empties inline slot i and keeps every other slot |
| HamtNode.ReplaceChildSlots | src/foundation/immutable/detail/hamtnode.h:315-335 | replace_child keeps the node compacted, changes child slot i only and keeps every inline slot |
| HamtNode.InsertChildEraseValueSlots | src/foundation/immutable/detail/hamtnode.h:337-364 | insert_child_erase_value moves slot i from an inline entry to the child; every other slot is kept |
| HamtNode.InsertValueEraseChildSlots | src/foundation/immutable/detail/hamtnode.h:366-394 | insert_value_erase_child moves slot i from a child to the inline entry; every other slot is kept |
| HamtNode.ReplaceValue | src/foundation/immutable/detail/hamtnode.h:257-274 | replace_value on values: bitmaps and children kept, the entry at ci replaced; its law is ReplaceValueSlots |
| HamtNode.InsertValue | src/foundation/immutable/detail/hamtnode.h:276-295 | insert_value on values: bit i set, the entry inserted at its compact index; its law is InsertValueSlots |
| HamtNode.EraseValue | src/foundation/immutable/detail/hamtnode.h:297-313 | erase_value on values: bit i cleared, the entry at ci erased; its law is EraseValueSlots |
| HamtNode.ReplaceChild | src/foundation/immutable/detail/hamtnode.h:315-335 | replace_child on values: the child at ci replaced; its law is ReplaceChildSlots |
| HamtNode.InsertChildEraseValue | src/foundation/immutable/detail/hamtnode.h:337-364 | insert_child_erase_value on values; its law is InsertChildEraseValueSlots |
| HamtNode.InsertValueEraseChild | src/foundation/immutable/detail/hamtnode.h:366-394 | insert_value_erase_child on values; its law is InsertValueEraseChildSlots |
| HamtNode.ReplaceCollision | src/foundation/immutable/detail/hamtnode.h:396-408 | replace_collision on values: the entry at idx replaced, the size kept |
| HamtNode.InsertCollision | src/foundation/immutable/detail/hamtnode.h:410-422 | insert_collision inserts at position collision_size(): the entry is appended |
| HamtNode.EraseCollision | src/foundation/immutable/detail/hamtnode.h:424-437 | erase_collision on values: the entry at idx erased; its law is HamtEraseLaws.FindErase |
| HamtTrie.ShapedInner | src/foundation/immutable/detail/hamtnode.h:567-637 | a well-formed node below max_shift is a compacted inner node |
| HamtTrie.IndexOf | src/foundation/immutable/detail/hamtnode.h:572-585 | the collision scan finds the first entry with the key, or proves there is none |
| HamtTrie.Find | src/foundation/immutable/detail/hamtnode.h:644-660 | the collision lookup returns an entry with the key, and None only when no entry has it |
| HamtTrie.Get | src/foundation/immutable/detail/hamtnode.h:639-682 | get returns only an entry whose key is the one asked for |
| HamtTrie.Merge | src/foundation/immutable/detail/hamtnode.h:509-564 | merge builds a well-formed node at its shift |
| HamtTrie.MergeSpread | src/foundation/immutable/detail/hamtnode.h:509-564 | with different sparse indices, merge builds one inner node holding both entries ordered by bit |
| HamtTrie.MergeChain | src/foundation/immutable/detail/hamtnode.h:509-564 | with equal sparse indices, merge builds a one-child node whose child is the merge one level down |
| HamtTrie.MergeChild | src/foundation/immutable/detail/hamtnode.h:600-618 | the child built for two entries one level down is well formed there: a collision pair at the last level, otherwise a merge |
| HamtTrie.SetInCollision | src/foundation/immutable/detail/hamtnode.h:572-585 | the new entry is stored; with no entry of its key it is appended, otherwise the size is kept |
| HamtTrie.SetInline | src/foundation/immutable/detail/hamtnode.h:590-620 | corrected (the source moves the stored value out of the receiver; see Findings): set on an occupied inline slot replaces on an equal key, otherwise pushes both entries into a new child; its laws are SetShaped, GetSet and SetRouted |
| HamtTrie.ReceiverAfterSet | src/foundation/immutable/detail/hamtnode.h:590-620 | as written: the receiver after set, with the stored value of another key replaced by what the move leaves (`moved`); only inline slots change and the node kind is kept |
| HamtLaws.SetMovesPrevious | src/foundation/immutable/detail/hamtnode.h:590-620 | as written: when the slot of the new key holds another key's entry, the receiver answered that key with the stored entry before set and answers it with the moved-from value after |
| HamtLaws.CopyKeepsReceiver | src/foundation/immutable/detail/hamtnode.h:590-620 | corrected: when the stored value is copied instead of moved, the receiver's trie is exactly what it was before set |
| HamtTrie.Set | src/foundation/immutable/detail/hamtnode.h:567-637 | set keeps the node's kind: inner below max_shift, collision at it; its other laws are SetShaped, GetSet, SetRouted and SizeSet |
| HamtTrie.EraseFromCollision | src/foundation/immutable/detail/hamtnode.h:686-706 | Unchanged exactly when no entry has the key; a hoist only from two entries, handing up one of them; otherwise a collision node one entry smaller |
| HamtTrie.EraseInline | src/foundation/immutable/detail/hamtnode.h:711-731 | a hoist only below the root, handing up an entry of the node; otherwise a replacement inner node with one inline entry fewer |
| HamtTrie.AfterChildErase | src/foundation/immutable/detail/hamtnode.h:733-759 | Unchanged exactly when the child was unchanged; an entry is passed further up only below the root, and it is the child's hoisted entry |
| HamtTrie.Erase | src/foundation/immutable/detail/hamtnode.h:684-762 | the root never hoists; its other laws are EraseShaped, EraseLaw and SizeErase |
| HamtTrie.SetShaped | src/foundation/immutable/detail/hamtnode.h:567-637 | set keeps the structural invariant |
| HamtTrie.EraseShaped | src/foundation/immutable/detail/hamtnode.h:684-762 | erase keeps the structural invariant; only a non-root node hoists |
| HamtLaws.GetMerge | src/foundation/immutable/detail/hamtnode.h:509-564 | the merged node answers each of the two keys with its entry and every other key with None |
| HamtLaws.FindSet | src/foundation/immutable/detail/hamtnode.h:572-585 | set at the collision level: the key finds the new entry and every other key is unchanged |
| HamtLaws.GetSet | src/foundation/immutable/detail/hamtnode.h:567-637 | after set, the key maps to the new entry and every other key's lookup is unchanged |
| HamtRouting.SetRouted | src/foundation/immutable/detail/hamtnode.h:567-637 | set keeps every key on the path its hash selects, and keeps collision keys distinct |
| HamtRouting.MergeRouted | src/foundation/immutable/detail/hamtnode.h:509-564 | merge places both entries on the paths their hashes select |
| HamtEraseLaws.FindErase | src/foundation/immutable/detail/hamtnode.h:424-437 | erasing one entry of a distinct-key collision array removes exactly its key |
| HamtEraseLaws.CollisionErased | src/foundation/immutable/detail/hamtnode.h:686-706 | erase at the collision level: Unchanged when absent, a node without the key, or the other entry hoisted |
| HamtEraseLaws.InlineErased | src/foundation/immutable/detail/hamtnode.h:711-731 | erasing an inline entry: Unchanged on a key mismatch; a node without the key; or the other entry of a two-entry leaf hoisted |
| HamtEraseLaws.ChildErased | src/foundation/immutable/detail/hamtnode.h:733-759 | erasing through a child: a replaced child is replaced in place; a hoisted entry is inlined or passed further up |
| HamtEraseLaws.EraseLaw | src/foundation/immutable/detail/hamtnode.h:684-762 | on a routed trie, erase answers Unchanged exactly when the key is absent; a replacement lacks the key, keeps every other key and stays routed; a hoisted entry is the only other entry of the subtree |
| HamtSizes.MergeSize | src/foundation/immutable/detail/hamtnode.h:509-564 | a merged node holds two entries |
| HamtSizes.SizeSet | src/foundation/immutable/detail/hamtnode.h:567-637 | set adds one entry exactly when the key was absent and otherwise keeps the count |
| HamtSizes.SizeErase | src/foundation/immutable/detail/hamtnode.h:684-762 | Unchanged exactly when the key is absent; a replacement holds one entry fewer; a hoist happens only from a two-entry subtree |
| HamtHeap.HeapNode.InnerNode | src/foundation/immutable/detail/hamtnode.h:54-56 | an empty inner node with no arrays and its own count of 1 |
| HamtHeap.HeapNode.Inner | src/foundation/immutable/detail/hamtnode.h:187-193 | make_inner_n then the field stores: a fresh node with count 1 holding the given bitmaps and arrays |
| HamtHeap.HeapNode.Collision | src/foundation/immutable/detail/hamtnode.h:195-201 | make_collision_n then the field stores: a fresh collision node with count 1 |
| HamtHeap.HeapNode.ShallowCopy | src/foundation/immutable/detail/hamtnode.h:216-255 | a fresh node with equal contents in fresh arrays; each child gains one reference |
| HamtHeap.HeapNode.ReplaceValueAsWritten | src/foundation/immutable/detail/hamtnode.h:257-274 | the new node holds ReplaceValue of the receiver but shares the receiver's children array |
| HamtHeap.HeapNode.ReplaceValue | src/foundation/immutable/detail/hamtnode.h:257-274 | corrected (the source shares `children` at line 269; see Findings): the new node holds ReplaceValue of the receiver in arrays of its own; each child gains one reference |
| HamtHeap.HeapNode.InsertValue | src/foundation/immutable/detail/hamtnode.h:276-295 | corrected (the source shares `children` at line 290; see Findings): the new node holds InsertValue of the receiver in its own arrays; each child gains one reference |
| HamtHeap.HeapNode.InsertValueAsWritten | src/foundation/immutable/detail/hamtnode.h:276-295 | insert_value as written: the new node holds InsertValue of the receiver in a fresh data array but shares the receiver's children array; each child gains one reference |
| HamtHeap.HeapNode.EraseValue | src/foundation/immutable/detail/hamtnode.h:297-313 | corrected (the source shares `children` at line 308; see Findings): the new node holds EraseValue of the receiver in its own arrays; each child gains one reference |
| HamtHeap.HeapNode.EraseValueAsWritten | src/foundation/immutable/detail/hamtnode.h:297-313 | erase_value as written: the new node holds EraseValue of the receiver but shares the receiver's children array; each child gains one reference |
| HamtHeap.HeapNode.ReplaceChild | src/foundation/immutable/detail/hamtnode.h:315-335 | corrected (the source shares `data` at line 323; see Findings): the new node holds ReplaceChild of the receiver in its own arrays; every child but the replaced one gains one reference |
| HamtHeap.HeapNode.ReplaceChildAsWritten | src/foundation/immutable/detail/hamtnode.h:315-335 | replace_child as written: the new node holds ReplaceChild of the receiver in a fresh children array but shares the receiver's data array; every child but the replaced one gains one reference |
| HamtHeap.HeapNode.InsertChildEraseValue | src/foundation/immutable/detail/hamtnode.h:337-364 | the new node holds InsertChildEraseValue of the receiver; each old child gains one reference |
| HamtHeap.HeapNode.InsertValueEraseChild | src/foundation/immutable/detail/hamtnode.h:366-394 | the new node holds InsertValueEraseChild of the receiver; every child but the removed one gains one reference |
| HamtHeap.HeapNode.ReplaceCollision | src/foundation/immutable/detail/hamtnode.h:396-408 | a fresh collision node with the entry at idx replaced and the same size |
| HamtHeap.HeapNode.InsertCollision | src/foundation/immutable/detail/hamtnode.h:410-422 | a fresh collision node with the entry appended and the size grown by one |
| HamtHeap.HeapNode.EraseCollision | src/foundation/immutable/detail/hamtnode.h:424-437 | a fresh collision node without the entry at idx |
| HamtHeap.HeapNode.Destroy | src/foundation/immutable/detail/hamtnode.h:66-100 | the destructor frees exactly the node's own arrays and drops one reference per child, reporting which reached 0 |
| HamtHeap.IncChildren | src/foundation/immutable/detail/hamtnode.h:167-173 | every child in the range gains one reference per occurrence; no other count changes |
| HamtHeap.DecChildren | src/foundation/immutable/detail/hamtnode.h:175-185 | every child in the range loses one reference per occurrence; each "last" result is exactly a count that was 1 |
| HamtHeap.SharedChildrenFreedTwice | src/foundation/immutable/detail/hamtnode.h:66-100 | after replace_value as written, destroying the source frees the new node's children array |
| HamtHeap.CopiedChildrenOutliveSource | src/foundation/immutable/detail/hamtnode.h:66-100 | with the children copied, destroying the source frees none of the new node's storage |
| HamtHeap.InsertedChildrenFreedTwice | src/foundation/immutable/detail/hamtnode.h:66-100 | after insert_value as written, destroying the source frees the new node's children array |
| HamtHeap.InsertedChildrenOutliveSource | src/foundation/immutable/detail/hamtnode.h:66-100 | after the corrected insert_value, destroying the source frees none of the new node's storage |
| HamtHeap.ErasedChildrenFreedTwice | src/foundation/immutable/detail/hamtnode.h:66-100 | after erase_value as written, destroying the source frees the new node's children array |
| HamtHeap.ErasedChildrenOutliveSource | src/foundation/immutable/detail/hamtnode.h:66-100 | after the corrected erase_value, destroying the source frees none of the new node's storage |
| HamtHeap.SharedDataFreedTwice | src/foundation/immutable/detail/hamtnode.h:66-100 | after replace_child as written, destroying the source frees the new node's data array |
| HamtHeap.CopiedDataOutliveSource | src/foundation/immutable/detail/hamtnode.h:66-100 | after the corrected replace_child, destroying the source frees none of the new node's storage |
| HamtHeap.ElementsEqual | src/foundation/immutable/detail/hamtnode.h:439-507 | the element loops of operator== return true exactly when the first n elements agree |
| HamtHeap.NodeEquals | src/foundation/immutable/detail/hamtnode.h:439-507 | the intended operator==: true exactly when both nodes are the same kind with equal bitmaps and arrays, or equal collision contents |
| HamtHeap.NodeEqualsAsWritten | src/foundation/immutable/detail/hamtnode.h:439-507 | operator== as written: comparing two collision nodes throws |
| HamtIterator.TidyAt | src/foundation/immutable/detail/iterator.h:150-152 | a path in a walkable trie stays within max_depth slots and reaches an inner node that holds something |
| HamtIterator.LeftmostFrom | src/foundation/immutable/detail/iterator.h:121-129 | descending by first children from a non-root node ends at a childless node with an entry |
| HamtIterator.ShiftTarget | src/foundation/immutable/detail/iterator.h:93-100 | with a next sibling, the successor is that sibling's leftmost leaf, and it holds an entry |
| HamtIterator.AdvanceForward | src/foundation/immutable/detail/iterator.h:82-119 | the successor position comes strictly after the current one in depth-first order and is at an entry |
| HamtIterator.Iterator.End | src/foundation/immutable/detail/iterator.h:37 | the default iterator is the end iterator |
| HamtIterator.Iterator.constructor | src/foundation/immutable/detail/iterator.h:38-45 | an empty root gives the end iterator; otherwise the iterator stands on the first entry of the leftmost leaf |
| HamtIterator.Iterator.Copy | src/foundation/immutable/detail/iterator.h:69 | a copy at the same position, in a new slot array |
| HamtIterator.Iterator.Equals | src/foundation/immutable/detail/iterator.h:47-54 | equal exactly when both are at the end, or when depth, the slot at that depth and the entry index agree |
| HamtIterator.Iterator.Current | src/foundation/immutable/detail/iterator.h:76-79 | the entry under the cursor is an entry of the current node |
| HamtIterator.Iterator.CanShift | src/foundation/immutable/detail/iterator.h:131-138 | the parent of the current node is an inner node, and the result is true exactly when the trie has a node at the next sibling's path |
| HamtIterator.Iterator.Descend | src/foundation/immutable/detail/iterator.h:121-129 | the path grows by the leftmost path of the current node and ends at a childless node |
| HamtIterator.Iterator.Shift | src/foundation/immutable/detail/iterator.h:95-99 | moving to the next sibling and descending reaches the depth-first successor, at an entry |
| HamtIterator.Iterator.Pop | src/foundation/immutable/detail/iterator.h:101-109 | going up a level keeps the successor; reaching the end means there is no successor |
| HamtIterator.Iterator.Walk | src/foundation/immutable/detail/iterator.h:93-110 | the loop ends at the depth-first successor's leaf, or at the end when there is none |
| HamtIterator.Iterator.Next | src/foundation/immutable/detail/iterator.h:61-119 | the next entry of the same node, else the first entry of the successor leaf, else the end; the end stays the end |
| HamtIterator.Iterator.PostIncrement | src/foundation/immutable/detail/iterator.h:67-74 | returns a copy of the position before the step, then steps |
| HamtIterator.SingleEntry | src/foundation/immutable/detail/iterator.h:38-119 | on a one-entry map, begin differs from end, yields that entry, and one step reaches the end |
| HamtMap.SetAtRoot | src/foundation/immutable/map.h:113-128 | set at the root keeps the map well formed, maps the key to the new value, keeps other keys, and adds one entry exactly for a new key |
| HamtMap.EraseAtRoot | src/foundation/immutable/map.h:130-146 | erase at the root never hoists; Unchanged exactly for an absent key; a replacement lacks the key and holds one entry fewer |
| HamtMap.MapValue.Get | src/foundation/immutable/map.h:95-106 | get returns the value of the entry the trie stores for the key, and nothing when there is none |
| HamtMap.MapValue.SetAsWritten | src/foundation/immutable/map.h:113-128 | set as written: the right lookups, but the counter always grows by one |
| HamtMap.MapValue.Set | src/foundation/immutable/map.h:113-128 | the key maps to the value, other keys keep theirs, the counter counts a new key only and stays exact |
| HamtMap.MapValue.Erase | src/foundation/immutable/map.h:130-146 | the key maps to nothing, other keys keep theirs, the counter drops exactly when the key was present |
| HamtMap.Empty | src/foundation/immutable/map.h:66-71 | the empty map is well formed for every hash, has no keys and size 0 |
| HamtMap.SetTwiceAsWritten | src/foundation/immutable/map.h:113-128 | setting one key twice on an empty map leaves one entry but a size of 2 |
| HamtMap.Map.constructor | src/foundation/immutable/map.h:66-71 | a fresh empty inner root with count 1 and size 0 |
| HamtMap.Map.FromRoot | src/foundation/immutable/map.h:183-186 | adopts a root and a size without touching the count |
| HamtMap.Map.Copy | src/foundation/immutable/map.h:73-78 | shares the root, whose count grows by one |
| HamtMap.Map.Move | src/foundation/immutable/map.h:80-86 | takes the root and size; the source is left with neither |
| HamtMap.Map.Assign | src/foundation/immutable/map.h:88-93 | swaps root and size with the by-value argument |
| HamtMap.Map.Set | src/foundation/immutable/map.h:113-128 | corrected (the source's size is always `m_size + 1`, line 124; see Findings): a new map on a fresh root with count 1, holding MapValue.Set |
| HamtMap.Map.Erase | src/foundation/immutable/map.h:130-146 | a new map holding MapValue.Erase: a fresh root for a present key, else a copy sharing the root |
| HamtMap.Map.Equals | src/foundation/immutable/map.h:163-171 | true for a shared root; false when the roots differ in kind, bitmaps or inline entries; exact for roots without children; true only for equal roots, and then every lookup agrees |
| HamtMap.Map.Begin | src/foundation/immutable/map.h:153-156 | the iterator at the first entry, or the end for an empty map |
| HamtMap.Map.End | src/foundation/immutable/map.h:158-161 | the end iterator |
| HamtMap.Map.DestroyAsWritten | src/foundation/immutable/map.h:173-180 | the destructor as written: the last owner frees the node but the count cell stays live |
| HamtMap.Map.Destroy | src/foundation/immutable/map.h:173-180 | the intended destructor: the last owner frees the node and deletes the count cell; other owners only drop the count |
| Murmur.RotlIsRotation | src/foundation/murmurhash.cpp:11-14 | rotl64 is the 64-bit left rotation for the amounts used |
| Murmur.Rotl64 | src/foundation/murmurhash.cpp:11-14 | the shift pair of rotl64, with amounts outside 1..63 taken as no rotation; its meaning is RotlIsRotation |
| Murmur.XorShift33Involution | src/foundation/murmurhash.cpp:16-25 | the xor-shift step of fmix64 is its own inverse |
| Murmur.FmixConstantsInvertible | src/foundation/murmurhash.cpp:16-25 | each fmix64 multiplier has the stated inverse modulo 2^64 |
| Murmur.Fmix64 | src/foundation/murmurhash.cpp:16-25 | fmix64: xor-shift, multiply, xor-shift, multiply, xor-shift; its steps are covered by XorShift33Involution and FmixConstantsInvertible |
| Murmur.BodyNext | src/foundation/murmurhash.cpp:45-67 | the state after n + 1 blocks mixes block n into the state after n blocks |
| Murmur.MixBlock | src/foundation/murmurhash.cpp:45-67 | one 16-byte block mixed into both halves; BodyNext places it in the block loop |
| Murmur.Finalize | src/foundation/murmurhash.cpp:103-114 | the length into both halves, cross-add, fmix64 each, cross-add again; used by MurmurHash.Append |
| Murmur.Fold | src/foundation/murmurhash.cpp:117-120 | h2 folded into h1 with the golden-ratio constant |
| Murmur.MurmurHash.AsU64 | src/foundation/murmurhash.cpp:117-120 | as_64bit: Fold of the current state |
| Murmur.MurmurHash.constructor | src/foundation/murmurhash.cpp:29-32 | a new hasher starts from two zero halves |
| Murmur.MurmurHash.Append | src/foundation/murmurhash.cpp:34-115 | the state after append is the body, tail and finalisation of the bytes applied to the old state |
| Murmur.MurmurHash.TailStep | src/foundation/murmurhash.cpp:69-101 | the tail switch mixes the low word into h1 when there is a byte, and the high word into h2 when there are more than eight |
| Murmur.TailHighWord | src/foundation/murmurhash.cpp:77-83 | the fall-through cases 15..9 assemble bytes 8.. as a little-endian word, 0 for short tails |
| Murmur.TailLowWord | src/foundation/murmurhash.cpp:89-96 | the fall-through cases 8..1 assemble bytes ..8 as a little-endian word |

## Left out

- Memory orderings of the atomic count operations are not modelled. Each operation is one sequential step.
- `MemoryPolicy` is not modelled. Allocation is Dafny allocation (`fresh`). Deallocation adds the freed storage to an `Allocator`'s set. `memorypolicy.h` is not part of this model.
- The trie algorithms `set`, `get`, `erase` and `merge` are modelled on node values (`HamtTrie`), not on `HamtHeap` objects. The heap model covers the path-copy helpers, the destructor and `operator==`. Recursing through heap pointers would add aliasing proofs but no behaviour.
- Root-node destruction in the map's destructor is recorded as freeing the root object. It is not connected to `HamtHeap.HeapNode.Destroy`, so a recursive release of the subtree is not modelled.
- Moves of entries (`std::move` of keys and values) are modelled as copies of values. The one move that changes what another map sees, `set` moving the receiver's stored value into a new child (hamtnode.h:593-613), is modelled by `HamtTrie.ReceiverAfterSet` and listed under Findings; the rest of the model uses the copy.
- `HamtHeap.HeapNode.Destroy`: it reports which children reached 0 but does not recurse into them.
- `data_size()` and `children_size()` are modelled as the lengths of the arrays. The invariant `Sized` ties each length to the popcount of its bitmap.
- The hash is a parameter `h: K -> bv64`, and equality is key equality. The `Hash` and `Equals` functors are not modelled.
- HamtNode.SparseIndex: at shift 64 and above the source's shift is undefined behaviour. There the model yields 0; only collision nodes are reached at those shifts.
- HamtIterator.Iterator: modelled only on tries where:
  - every node is an inner node;
  - entries are only in nodes without children;
  - there are at most 11 levels.

  On collision nodes the source's `discent` and `operator*` throw. Entries of a node that has children are never visited. Those behaviours are outside the model.
- HamtIterator.Iterator.Equals: the model follows the source's comparison. The source then reads `m_way_to_root[-1]` when only one iterator is at the end; the model answers false there.
- HamtIterator.Iterator: a slot pointer is modelled as the root plus a path of child indices, so slot identity is path identity.
- HamtIterator.Iterator.Next: the prefix `operator++` also returns a copy of the iterator. The model returns nothing; `PostIncrement` models the copy.
- HamtMap.Map.Equals: a root value holds no child pointers, so the pointer comparison of children (src/foundation/immutable/detail/hamtnode.h:469-475) cannot be made. For two distinct roots that have children the model answers false. The source answers true there when bitmaps and inline entries agree and every child pointer is shared, for example between a map and the result of setting one of its inline keys to an equal value. The contract therefore promises only: true for a shared root, false when kind, bitmaps or inline entries differ, the exact answer for roots without children, and equal root values whenever the answer is true. `HamtHeap.NodeEquals` models the pointer comparison on heap nodes.
- `immutable_map` (src/foundation/immutable/immutablemap.h:57-167) is `map` without `begin`/`end`. Its members repeat `map.h` line for line and are modelled by the same `HamtMap` members.
- HamtMap.MapValue: `m_size` is a `std::size_t` and is modelled as `nat`. Wrap-around at 2^64 is not modelled.
- Murmur.Fmix64: it is not proved to be a bijection. Each xor-shift step is proved to be its own inverse, and each multiplier is shown to have an inverse modulo 2^64. Composing those facts needs the solver to reason about 64-bit products of unknown words, which it cannot do within the resource limit.
- Murmur.MurmurHash.AsU64: as_64bit (src/foundation/murmurhash.cpp:117-120) is modelled but carries no contract. No property of the fold of h2 into h1 was proved.
- Murmur: the state update at src/foundation/murmurhash.cpp:66 multiplies h2 by 5 + 0x38495ab5. The published MurmurHash3 multiplies by 5 and then adds the constant. The model follows the code as written. With no reference value for this hasher, it is not listed as a finding.
- Murmur.MurmurHash.Append: the byte length is bounded below 2^64, as `std::size_t` bounds it. Reading the payload through a `uint64_t*` is modelled as a little-endian load.

## Findings

| source | as written | input that shows it | evidently intended | confidence | as-written member | corrected member |
|---|---|---|---|---|---|---|
| src/foundation/immutable/detail/hamtnode.h:257-274 | `replace_value` stores the receiver's `children` pointer in the new node (line 269). Each node's destructor (66-100) deallocates both arrays. | any `set` that replaces an inline value in a node with children, followed by destruction of the old map | the new node owns a fresh copy of the children array, as `shallow_copy` does | not executed | HamtHeap.SharedChildrenFreedTwice | HamtHeap.CopiedChildrenOutliveSource |
| src/foundation/immutable/detail/hamtnode.h:276-295 | `insert_value` stores the receiver's `children` pointer in the new node (line 290) | any `set` that adds an inline entry to a node with children, followed by destruction of the old map | the new node owns a fresh copy of the children array | not executed | HamtHeap.InsertedChildrenFreedTwice | HamtHeap.InsertedChildrenOutliveSource |
| src/foundation/immutable/detail/hamtnode.h:297-313 | `erase_value` stores the receiver's `children` pointer in the new node (line 308) | any `erase` of an inline entry from a node with children, followed by destruction of the old map | the new node owns a fresh copy of the children array | not executed | HamtHeap.ErasedChildrenFreedTwice | HamtHeap.ErasedChildrenOutliveSource |
| src/foundation/immutable/detail/hamtnode.h:315-335 | `replace_child` stores the receiver's `data` pointer in the new node (line 323) | any `set` or `erase` that goes through a child of a node holding inline entries, followed by destruction of the old map | the new node owns a fresh copy of the data array | not executed | HamtHeap.SharedDataFreedTwice | HamtHeap.CopiedDataOutliveSource |
| src/foundation/immutable/detail/hamtnode.h:590-620 | `prev_value` (593) is a reference into the receiver's own data array, and `make_collision_n` (604-605) or `merge` (611-613) move-constructs the new child's entry from it. The key is `const` and is copied; the value is moved out of the receiver | `m1 = map<int, std::string>().set(a, "x"); m2 = m1.set(b, "y");` with h(a) and h(b) equal in bits 0-5 and a != b: `m1.get(a)` then reads a moved-from string | copy the stored entry, as `set` is `const` and the old map must keep its contents | not executed | HamtLaws.SetMovesPrevious | HamtLaws.CopyKeepsReceiver |
| src/foundation/immutable/detail/hamtnode.h:489 | the collision branch of `operator==` compares `other.children_size()`, which calls `std::get<inner_t>` on a collision node | latent: only a direct call of `hamt_node::operator==` on two collision nodes reaches it. The map's `operator==` (map.h:170, immutablemap.h:151) compares only roots, which are inner nodes, and the inner branch compares child pointers without recursing (469-475) | compare `other.collision_size()` | not executed | HamtHeap.NodeEqualsAsWritten | HamtHeap.NodeEquals |
| src/foundation/immutable/map.h:113-128 (immutablemap.h:104-119) | `set` returns `m_size + 1` whenever the node-level `set` returns a node, which it always does | `map().set(k, v).set(k, w).size()` gives 2 | the size grows only when the key was absent; `HamtMap.Map.Set` is built on this corrected value | not executed | HamtMap.SetTwiceAsWritten | HamtMap.MapValue.Set |
| src/foundation/immutable/detail/refcounted.h:25-31 with map.h:173-180 | the map's destructor calls `dec()` first, so the count is 0 when `~refcounted` checks `is_unique()`, and the count cell is never deleted | destroy a map whose root has count 1 | delete the count cell when the last owner releases it | not executed | HamtMap.Map.DestroyAsWritten | HamtMap.Map.Destroy |
