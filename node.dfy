/**
 * The trie node of the persistent map (src/foundation/immutable/detail/hamtnode.h):
 * its data model and the path-copy helpers that build a new node from an
 * existing one with one slot changed.
 *
 * An inner node holds two 64-bit bitmaps. Bit `i` of `datamap` says that the
 * entry whose hash slice at this level is `i` is stored inline; bit `i` of
 * `nodemap` says that the keys with that slice live in a child. The stored
 * entries and children are compacted: the one for bit `i` sits at position
 * popcount(map & (bit - 1)). A collision node, used once every hash bit has
 * been consumed, is a flat list of entries.
 *
 * The one-level record `Bitmapped<E, C>` is generic in the child type, so
 * that the helpers below describe both the value model (children are nodes)
 * and the heap model (children are node objects).
 */
module HamtNode {
  import opened Bits
  import opened CowArray

  /** Bits of the hash consumed per level (map::branches). */
  const B: nat := 6

  /** max_shift<6>: a node at this shift or deeper is a collision node. */
  const MaxShift: nat := 66

  datatype Option<T> = None | Some(value: T)

  /** A stored entry: std::pair<const K, V>. */
  datatype Entry<K, V> = Entry(key: K, value: V)

  /** inner_t: the two bitmaps and the two compacted arrays. */
  datatype Bitmapped<E, C> = Bitmapped(datamap: bv64, nodemap: bv64, data: seq<E>, children: seq<C>)

  /** hamt_node: an inner node or a collision node. */
  datatype Node<K, V> =
    | Inner(body: Bitmapped<Entry<K, V>, Node<K, V>>)
    | Collision(entries: seq<Entry<K, V>>)

  /** erase_res_t: std::monostate, a new node, or the one entry left, hoisted to the parent. */
  datatype EraseResult<K, V> =
    | Unchanged
    | Replaced(node: Node<K, V>)
    | Hoisted(entry: Entry<K, V>)

  /** An inner node with nothing in it (inner_tag constructor). */
  function EmptyInner<K, V>(): Node<K, V> {
    Inner(Bitmapped(0, 0, [], []))
  }

  /** The source's constant agrees with max_shift for the branching factor. */
  lemma MaxShiftForBranches()
    ensures MaxShift == MaxShiftOf(B)
    ensures MaxDepthOf(B) == 11
  {
    DepthForSix();
  }

  // ---------------------------------------------------------------------
  // Indexing.

  /** mask<6> is 63: the low six bits. */
  lemma MaskForBranches()
    ensures Mask(B as bv7) == 63
  {}

  /** A shift at which a node can sit: a multiple of the branching factor, at most max_shift. */
  predicate LevelShift(shift: nat) {
    shift in {0, 6, 12, 18, 24, 30, 36, 42, 48, 54, 60, 66}
  }

  /** The levels listed in LevelShift are exactly the multiples of B up to max_shift. */
  lemma LevelShiftIsMultiple(shift: nat)
    ensures LevelShift(shift) <==> shift <= MaxShift && shift % B == 0
  {}

  /** Every level an inner node sits at shifts the hash by less than its width. */
  lemma LevelShiftInRange(shift: nat)
    requires LevelShift(shift) && shift < MaxShift
    ensures shift < 64
  {}

  /**
   * (hash >> shift) & mask<B>: the slice of the hash that picks a slot at
   * level `shift`. Inner nodes sit only at the levels of LevelShift below
   * max_shift, all below 64 (LevelShiftInRange); a larger shift, which C++
   * leaves undefined, is given index 0.
   */
  function SparseIndex(hash: bv64, shift: nat): Index {
    if shift < 64 then ((hash >> (shift as bv7)) & 63) as bv7 else 0
  }

  /** popcount(map & (bit - 1)): the position of sparse index `i` in the compacted array. */
  function CompactIndex(m: bv64, i: Index): (r: nat)
    ensures r == CountBelow(m, i)
  {
    CompactIndexIsRank(m, i);
    Popcount(m & ((1 << i) - 1))
  }

  // ---------------------------------------------------------------------
  // Slots: a bitmap with its compacted array, read by sparse index.

  /** The element of the compacted array `s` that bitmap `m` assigns to sparse index `i`, if any. */
  function SlotOf<T>(m: bv64, s: seq<T>, i: Index): (r: Option<T>)
    requires |s| == Popcount(m)
    ensures r.Some? <==> Bit(m, i)
    ensures r.Some? ==> r.value in s
  {
    if Bit(m, i) then
      CountStrict(m, i, 64);
      Some(s[CountBelow(m, i)])
    else None
  }

  /** The slot of a set bit is the element at its compacted position. */
  lemma SlotIs<T>(m: bv64, s: seq<T>, j: Index)
    requires |s| == Popcount(m) && Bit(m, j)
    ensures CountBelow(m, j) < |s| && SlotOf(m, s, j) == Some(s[CountBelow(m, j)])
  {
    RankBelow(m, j);
  }

  /** The compacted position of any sparse index is at most the length of the array. */
  lemma RankAtMost(m: bv64, i: Index)
    ensures CountBelow(m, i) <= Popcount(m)
  {
    CountMonotone(m, i, 64);
  }

  /** The compacted position of a set bit is a position of the array. */
  lemma RankBelow(m: bv64, i: Index)
    requires Bit(m, i)
    ensures CountBelow(m, i) < Popcount(m)
  {
    CountStrict(m, i, 64);
  }

  /** Every element of the array is the slot of some set bit. */
  lemma SlotOnto<T>(m: bv64, s: seq<T>, p: nat)
    requires |s| == Popcount(m) && p < |s|
    ensures exists i: Index :: Bit(m, i) && CountBelow(m, i) == p && SlotOf(m, s, i) == Some(s[p])
  {
    CountOnto(m, 64, p);
    var i: Index :| i < 64 && Bit(m, i) && CountBelow(m, i) == p;
    assert SlotOf(m, s, i) == Some(s[p]);
  }

  /** The inserted slot itself. */
  lemma SlotInsertHere<T>(m: bv64, m2: bv64, s: seq<T>, i: Index, v: T)
    requires |s| + 1 == Popcount(m2) && CountBelow(m, i) <= |s|
    requires Bit(m2, i) && CountBelow(m2, i) == CountBelow(m, i)
    ensures SlotOf(m2, InsertAt(s, CountBelow(m, i), v), i) == Some(v)
  {}

  /** A slot that holds nothing before the insertion and is not the inserted one. */
  lemma SlotInsertEmpty<T>(m: bv64, m2: bv64, s: seq<T>, i: Index, v: T, j: Index)
    requires |s| == Popcount(m) && |s| + 1 == Popcount(m2) && CountBelow(m, i) <= |s|
    requires !Bit(m2, j) && !Bit(m, j)
    ensures SlotOf(m2, InsertAt(s, CountBelow(m, i), v), j) == SlotOf(m, s, j)
  {}

  /** An occupied slot whose element shifts by `d` (0 or 1) positions. */
  lemma SlotInsertKept<T>(m: bv64, m2: bv64, s: seq<T>, p: nat, v: T, j: Index, q: nat, q2: nat)
    requires |s| == Popcount(m) && |s| + 1 == Popcount(m2) && p <= |s|
    requires Bit(m2, j) && Bit(m, j) && CountBelow(m, j) == q && CountBelow(m2, j) == q2
    requires q2 == q + (if p <= q then 1 else 0)
    ensures SlotOf(m2, InsertAt(s, p, v), j) == SlotOf(m, s, j)
  {
    var r := InsertAt(s, p, v);
    assert q < |s| && q2 < |r| by { RankBelow(m, j); }
    assert r[q2] == s[q] by { InsertShifts(s, p, v, q, q2 - q); }
    assert SlotOf(m2, r, j) == Some(r[q2]) by { SlotIs(m2, r, j); }
    assert SlotOf(m, s, j) == Some(s[q]) by { SlotIs(m, s, j); }
  }

  /** Position `q` of `s` sits at `q + d` after an insertion at `p`, where `d` says whether `p` is at or before `q`. */
  lemma InsertShifts<T>(s: seq<T>, p: nat, v: T, q: nat, d: nat)
    requires p <= |s| && q < |s| && d == (if p <= q then 1 else 0)
    ensures InsertAt(s, p, v)[q + d] == s[q]
  {}

  /** Position `q` of `s` sits at `q - d` after erasing position `p != q`, where `d` says whether `p` is before `q`. */
  lemma EraseShifts<T>(s: seq<T>, p: nat, q: nat, d: nat)
    requires p < |s| && q < |s| && p != q && d == (if p < q then 1 else 0)
    ensures q >= d && EraseAt(s, p)[q - d] == s[q]
  {}

  /** One slot after an insertion, given how bit `j` and its rank in `m2` relate to `m`. */
  lemma SlotInsertCase<T>(m: bv64, m2: bv64, s: seq<T>, i: Index, v: T, j: Index)
    requires |s| == Popcount(m) && |s| + 1 == Popcount(m2) && CountBelow(m, i) <= |s|
    requires Bit(m2, j) == (Bit(m, j) || j == i)
    requires CountBelow(m2, j) == CountBelow(m, j) + (if i < j then 1 else 0)
    ensures SlotOf(m2, InsertAt(s, CountBelow(m, i), v), j) == if j == i then Some(v) else SlotOf(m, s, j)
  {
    if j == i {
      SlotInsertHere(m, m2, s, i, v);
    } else if !Bit(m, j) {
      SlotInsertEmpty(m, m2, s, i, v, j);
    } else {
      CountStrict(m, j, 64);
      if j < i {
        CountStrict(m, j, i);
        SlotInsertKept(m, m2, s, CountBelow(m, i), v, j, CountBelow(m, j), CountBelow(m2, j));
      } else {
        CountMonotone(m, i, j);
        SlotInsertKept(m, m2, s, CountBelow(m, i), v, j, CountBelow(m, j), CountBelow(m2, j));
      }
    }
  }

  /** Setting bit `i` and inserting at its compacted position keeps the array compacted. */
  lemma InsertSize<T>(m: bv64, s: seq<T>, i: Index, v: T)
    requires |s| == Popcount(m) && !Bit(m, i)
    ensures CountBelow(m, i) <= |s|
    ensures |InsertAt(s, CountBelow(m, i), v)| == Popcount(SetBit(m, i))
  {
    SetBitEach(m, i);
    RankAtMost(m, i);
    CountWithBit(m, SetBit(m, i), i, 64);
  }

  /** Setting bit `i` and inserting at its compacted position fills slot `i` and keeps slot `j` for every other `j`. */
  lemma SlotInsert<T>(m: bv64, s: seq<T>, i: Index, v: T, j: Index)
    requires |s| == Popcount(m) && !Bit(m, i)
    ensures CountBelow(m, i) <= |s|
    ensures |InsertAt(s, CountBelow(m, i), v)| == Popcount(SetBit(m, i))
    ensures SlotOf(SetBit(m, i), InsertAt(s, CountBelow(m, i), v), j)
            == if j == i then Some(v) else SlotOf(m, s, j)
  {
    var m2 := SetBit(m, i);
    InsertSize(m, s, i, v);
    SetBitEach(m, i);
    CountWithBit(m, m2, i, j);
    SlotInsertCase(m, m2, s, i, v, j);
  }

  /** The erased slot itself. */
  lemma SlotEraseHere<T>(m: bv64, m2: bv64, s: seq<T>, i: Index)
    requires |s| == Popcount(m) && |s| == Popcount(m2) + 1 && CountBelow(m, i) < |s|
    requires !Bit(m2, i)
    ensures SlotOf(m2, EraseAt(s, CountBelow(m, i)), i) == None
  {}

  /** An occupied slot that is kept, its element shifted down by `d` (0 or 1) positions. */
  lemma SlotEraseKept<T>(m: bv64, m2: bv64, s: seq<T>, p: nat, j: Index, q: nat, q2: nat)
    requires |s| == Popcount(m) && |s| == Popcount(m2) + 1 && p < |s|
    requires Bit(m2, j) && Bit(m, j) && CountBelow(m, j) == q && CountBelow(m2, j) == q2
    requires p != q && q == q2 + (if p < q then 1 else 0)
    ensures SlotOf(m2, EraseAt(s, p), j) == SlotOf(m, s, j)
  {
    var r := EraseAt(s, p);
    assert q < |s| by { RankBelow(m, j); }
    assert q2 < |r| && r[q2] == s[q] by { EraseShifts(s, p, q, q - q2); }
    assert SlotOf(m2, r, j) == Some(r[q2]) by { SlotIs(m2, r, j); }
    assert SlotOf(m, s, j) == Some(s[q]) by { SlotIs(m, s, j); }
  }

  /** A slot empty before and after the erasure. */
  lemma SlotEraseEmpty<T>(m: bv64, m2: bv64, s: seq<T>, i: Index, j: Index)
    requires |s| == Popcount(m) && |s| == Popcount(m2) + 1 && CountBelow(m, i) < |s|
    requires !Bit(m2, j) && !Bit(m, j)
    ensures SlotOf(m2, EraseAt(s, CountBelow(m, i)), j) == SlotOf(m, s, j)
  {}

  /** One slot after an erasure, given how bit `j` and its rank in `m2` relate to `m`. */
  lemma SlotEraseCase<T>(m: bv64, m2: bv64, s: seq<T>, i: Index, j: Index)
    requires |s| == Popcount(m) && |s| == Popcount(m2) + 1 && CountBelow(m, i) < |s| && Bit(m, i)
    requires !Bit(m2, i) && Bit(m, j) == (Bit(m2, j) || j == i)
    requires CountBelow(m, j) == CountBelow(m2, j) + (if i < j then 1 else 0)
    ensures SlotOf(m2, EraseAt(s, CountBelow(m, i)), j) == if j == i then None else SlotOf(m, s, j)
  {
    if j == i {
      SlotEraseHere(m, m2, s, i);
    } else if !Bit(m, j) {
      SlotEraseEmpty(m, m2, s, i, j);
    } else {
      CountStrict(m, j, 64);
      if j < i {
        CountStrict(m, j, i);
        SlotEraseKept(m, m2, s, CountBelow(m, i), j, CountBelow(m, j), CountBelow(m2, j));
      } else {
        CountStrict(m, i, j);
        SlotEraseKept(m, m2, s, CountBelow(m, i), j, CountBelow(m, j), CountBelow(m2, j));
      }
    }
  }

  /** Clearing set bit `i` and erasing its compacted position keeps the array compacted. */
  lemma EraseSize<T>(m: bv64, s: seq<T>, i: Index)
    requires |s| == Popcount(m) && Bit(m, i)
    ensures CountBelow(m, i) < |s|
    ensures |EraseAt(s, CountBelow(m, i))| == Popcount(ClearBit(m, i))
  {
    ClearBitInverse(m, i);
    CountStrict(m, i, 64);
    CountWithBit(ClearBit(m, i), m, i, 64);
  }

  /** Clearing set bit `i` and erasing its compacted position empties slot `i` and keeps slot `j` for every other `j`. */
  lemma SlotErase<T>(m: bv64, s: seq<T>, i: Index, j: Index)
    requires |s| == Popcount(m) && Bit(m, i)
    ensures CountBelow(m, i) < |s|
    ensures |EraseAt(s, CountBelow(m, i))| == Popcount(ClearBit(m, i))
    ensures SlotOf(ClearBit(m, i), EraseAt(s, CountBelow(m, i)), j)
            == if j == i then None else SlotOf(m, s, j)
  {
    var m2 := ClearBit(m, i);
    EraseSize(m, s, i);
    ClearBitInverse(m, i);
    CountWithBit(m2, m, i, j);
    SlotEraseCase(m, m2, s, i, j);
  }

  /** Replacing at the compacted position of set bit `i` changes slot `i` only. */
  lemma SlotReplace<T>(m: bv64, s: seq<T>, i: Index, v: T, j: Index)
    requires |s| == Popcount(m) && Bit(m, i)
    ensures CountBelow(m, i) < |s|
    ensures SlotOf(m, ReplaceAt(s, CountBelow(m, i), v), j) == if j == i then Some(v) else SlotOf(m, s, j)
  {
    CountStrict(m, i, 64);
    if j != i && Bit(m, j) {
      CountInjective(m, i, j);
      CountStrict(m, j, 64);
    }
  }

  // ---------------------------------------------------------------------
  // The compaction invariant of an inner node.

  /** datamap & nodemap == 0, and each array has one element per set bit of its bitmap. */
  predicate Compacted<E, C>(n: Bitmapped<E, C>) {
    && n.datamap & n.nodemap == 0
    && |n.data| == Popcount(n.datamap)
    && |n.children| == Popcount(n.nodemap)
  }

  /** The entry stored inline for sparse index `i`, if any. */
  function DataSlot<E, C>(n: Bitmapped<E, C>, i: Index): Option<E>
    requires Compacted(n)
  {
    SlotOf(n.datamap, n.data, i)
  }

  /** The child for sparse index `i`, if any. */
  function ChildSlot<E, C>(n: Bitmapped<E, C>, i: Index): Option<C>
    requires Compacted(n)
  {
    SlotOf(n.nodemap, n.children, i)
  }

  /** No sparse index has both an inline entry and a child. */
  lemma SlotsDisjoint<E, C>(n: Bitmapped<E, C>, i: Index)
    requires Compacted(n)
    ensures !(DataSlot(n, i).Some? && ChildSlot(n, i).Some?)
  {
    DisjointIff(n.datamap, n.nodemap);
  }

  /** Disjointness after adding to one bitmap a bit the other lacks. */
  lemma AddBitDisjoint(a: bv64, b: bv64, i: Index)
    requires a & b == 0 && !Bit(b, i)
    ensures SetBit(a, i) & b == 0
  {
    DisjointIff(a, b);
    SetBitEach(a, i);
    DisjointIff(SetBit(a, i), b);
  }

  /** Disjointness after clearing a bit. */
  lemma ClearBitDisjoint(a: bv64, b: bv64, i: Index)
    requires a & b == 0
    ensures ClearBit(a, i) & b == 0
  {
    DisjointIff(a, b);
    ClearBitEach(a, i);
    DisjointIff(ClearBit(a, i), b);
  }

  /** Disjointness after moving bit `i` from one bitmap to the other. */
  lemma MoveBitDisjoint(a: bv64, b: bv64, i: Index)
    requires a & b == 0
    ensures ClearBit(a, i) & SetBit(b, i) == 0
    ensures SetBit(b, i) & ClearBit(a, i) == 0
  {
    DisjointIff(a, b);
    ClearBitEach(a, i);
    SetBitEach(b, i);
    DisjointIff(ClearBit(a, i), SetBit(b, i));
    DisjointIff(SetBit(b, i), ClearBit(a, i));
  }

  // ---------------------------------------------------------------------
  // Path-copy helpers (hamt_node::replace_value ... insert_value_erase_child)
  // on values. Each builds the new node's bitmaps and arrays from the
  // receiver's; the sparse index `i` stands for the `bit` the source passes.

  /** replace_value: the inline entry at compacted position `ci` replaced. */
  function ReplaceValue<E, C>(n: Bitmapped<E, C>, v: E, ci: nat): Bitmapped<E, C>
    requires ci < |n.data|
  {
    Bitmapped(n.datamap, n.nodemap, ReplaceAt(n.data, ci, v), n.children)
  }

  /** insert_value: bit `i` added to the datamap, `v` inserted at its compacted position. */
  function InsertValue<E, C>(n: Bitmapped<E, C>, v: E, i: Index): Bitmapped<E, C>
    requires |n.data| == Popcount(n.datamap)
  {
    RankAtMost(n.datamap, i);
    Bitmapped(SetBit(n.datamap, i), n.nodemap,
              InsertAt(n.data, CompactIndex(n.datamap, i), v), n.children)
  }

  /** erase_value: bit `i` cleared from the datamap, the entry at `ci` erased. */
  function EraseValue<E, C>(n: Bitmapped<E, C>, ci: nat, i: Index): Bitmapped<E, C>
    requires ci < |n.data|
  {
    Bitmapped(ClearBit(n.datamap, i), n.nodemap, EraseAt(n.data, ci), n.children)
  }

  /** replace_child: the child at compacted position `ci` replaced. */
  function ReplaceChild<E, C>(n: Bitmapped<E, C>, c: C, ci: nat): Bitmapped<E, C>
    requires ci < |n.children|
  {
    Bitmapped(n.datamap, n.nodemap, n.data, ReplaceAt(n.children, ci, c))
  }

  /** insert_child_erase_value: slot `i` turns from an inline entry (at `dci`) into the child `c`. */
  function InsertChildEraseValue<E, C>(n: Bitmapped<E, C>, c: C, dci: nat, i: Index): Bitmapped<E, C>
    requires |n.children| == Popcount(n.nodemap) && dci < |n.data|
  {
    RankAtMost(n.nodemap, i);
    Bitmapped(ClearBit(n.datamap, i), SetBit(n.nodemap, i),
              EraseAt(n.data, dci), InsertAt(n.children, CompactIndex(n.nodemap, i), c))
  }

  /** insert_value_erase_child: slot `i` turns from a child (at `nci`) into the inline entry `v`. */
  function InsertValueEraseChild<E, C>(n: Bitmapped<E, C>, v: E, nci: nat, i: Index): Bitmapped<E, C>
    requires |n.data| == Popcount(n.datamap) && nci < |n.children|
  {
    RankAtMost(n.datamap, i);
    Bitmapped(SetBit(n.datamap, i), ClearBit(n.nodemap, i),
              InsertAt(n.data, CompactIndex(n.datamap, i), v), EraseAt(n.children, nci))
  }

  /** replace_collision: the entry at `idx` replaced; the size is kept. */
  function ReplaceCollision<E>(es: seq<E>, v: E, idx: nat): seq<E>
    requires idx < |es|
  {
    ReplaceAt(es, idx, v)
  }

  /** insert_collision: `v` inserted at position collision_size(), that is, appended. */
  function InsertCollision<E>(es: seq<E>, v: E): (r: seq<E>)
    ensures r == es + [v]
  {
    InsertAt(es, |es|, v)
  }

  /** erase_collision: the entry at `idx` erased; asserted only on nodes of more than two entries. */
  function EraseCollision<E>(es: seq<E>, idx: nat): seq<E>
    requires |es| > 2 && idx < |es|
  {
    EraseAt(es, idx)
  }

  // ---------------------------------------------------------------------
  // What each inner-node helper does, as used by set and erase: the
  // compaction invariant is kept and exactly slot `i` changes.

  lemma ReplaceValueSlots<E, C>(n: Bitmapped<E, C>, v: E, i: Index, j: Index)
    requires Compacted(n) && Bit(n.datamap, i)
    ensures CountBelow(n.datamap, i) < |n.data|
    ensures Compacted(ReplaceValue(n, v, CountBelow(n.datamap, i)))
    ensures DataSlot(ReplaceValue(n, v, CountBelow(n.datamap, i)), j) == if j == i then Some(v) else DataSlot(n, j)
    ensures ChildSlot(ReplaceValue(n, v, CountBelow(n.datamap, i)), j) == ChildSlot(n, j)
  {
    SlotReplace(n.datamap, n.data, i, v, j);
  }

  lemma InsertValueDisjoint<E, C>(n: Bitmapped<E, C>, v: E, i: Index)
    requires Compacted(n) && !Bit(n.datamap, i) && !Bit(n.nodemap, i)
    ensures InsertValue(n, v, i).datamap & InsertValue(n, v, i).nodemap == 0
  {
    AddBitDisjoint(n.datamap, n.nodemap, i);
  }

  lemma InsertValueSizes<E, C>(n: Bitmapped<E, C>, v: E, i: Index)
    requires Compacted(n) && !Bit(n.datamap, i) && !Bit(n.nodemap, i)
    ensures |InsertValue(n, v, i).data| == Popcount(InsertValue(n, v, i).datamap)
    ensures |InsertValue(n, v, i).children| == Popcount(InsertValue(n, v, i).nodemap)
  {
    InsertSize(n.datamap, n.data, i, v);
  }

  lemma InsertValueCompacted<E, C>(n: Bitmapped<E, C>, v: E, i: Index)
    requires Compacted(n) && !Bit(n.datamap, i) && !Bit(n.nodemap, i)
    ensures Compacted(InsertValue(n, v, i))
  {
    InsertValueDisjoint(n, v, i);
    InsertValueSizes(n, v, i);
  }

  lemma InsertValueSlots<E, C>(n: Bitmapped<E, C>, v: E, i: Index, j: Index)
    requires Compacted(n) && !Bit(n.datamap, i) && !Bit(n.nodemap, i)
    ensures Compacted(InsertValue(n, v, i))
    ensures DataSlot(InsertValue(n, v, i), j) == if j == i then Some(v) else DataSlot(n, j)
    ensures ChildSlot(InsertValue(n, v, i), j) == ChildSlot(n, j)
  {
    InsertValueCompacted(n, v, i);
    SlotInsert(n.datamap, n.data, i, v, j);
  }

  lemma EraseValueDisjoint<E, C>(n: Bitmapped<E, C>, i: Index)
    requires Compacted(n) && Bit(n.datamap, i)
    ensures CountBelow(n.datamap, i) < |n.data|
    ensures EraseValue(n, CountBelow(n.datamap, i), i).datamap & EraseValue(n, CountBelow(n.datamap, i), i).nodemap == 0
  {
    RankBelow(n.datamap, i);
    var r := EraseValue(n, CountBelow(n.datamap, i), i);
    assert r.datamap == ClearBit(n.datamap, i) && r.nodemap == n.nodemap;
    ClearBitDisjoint(n.datamap, n.nodemap, i);
  }

  lemma EraseValueSizes<E, C>(n: Bitmapped<E, C>, i: Index)
    requires Compacted(n) && Bit(n.datamap, i)
    ensures CountBelow(n.datamap, i) < |n.data|
    ensures |EraseValue(n, CountBelow(n.datamap, i), i).data| == Popcount(EraseValue(n, CountBelow(n.datamap, i), i).datamap)
    ensures |EraseValue(n, CountBelow(n.datamap, i), i).children| == Popcount(EraseValue(n, CountBelow(n.datamap, i), i).nodemap)
  {
    EraseSize(n.datamap, n.data, i);
  }

  lemma EraseValueCompacted<E, C>(n: Bitmapped<E, C>, i: Index)
    requires Compacted(n) && Bit(n.datamap, i)
    ensures CountBelow(n.datamap, i) < |n.data|
    ensures Compacted(EraseValue(n, CountBelow(n.datamap, i), i))
  {
    EraseValueDisjoint(n, i);
    EraseValueSizes(n, i);
  }

  lemma EraseValueSlots<E, C>(n: Bitmapped<E, C>, i: Index, j: Index)
    requires Compacted(n) && Bit(n.datamap, i)
    ensures CountBelow(n.datamap, i) < |n.data|
    ensures Compacted(EraseValue(n, CountBelow(n.datamap, i), i))
    ensures DataSlot(EraseValue(n, CountBelow(n.datamap, i), i), j) == if j == i then None else DataSlot(n, j)
    ensures ChildSlot(EraseValue(n, CountBelow(n.datamap, i), i), j) == ChildSlot(n, j)
  {
    EraseValueCompacted(n, i);
    SlotErase(n.datamap, n.data, i, j);
  }

  lemma ReplaceChildSlots<E, C>(n: Bitmapped<E, C>, c: C, i: Index, j: Index)
    requires Compacted(n) && Bit(n.nodemap, i)
    ensures CountBelow(n.nodemap, i) < |n.children|
    ensures Compacted(ReplaceChild(n, c, CountBelow(n.nodemap, i)))
    ensures DataSlot(ReplaceChild(n, c, CountBelow(n.nodemap, i)), j) == DataSlot(n, j)
    ensures ChildSlot(ReplaceChild(n, c, CountBelow(n.nodemap, i)), j) == if j == i then Some(c) else ChildSlot(n, j)
  {
    SlotReplace(n.nodemap, n.children, i, c, j);
  }

  lemma InsertChildEraseValueDisjoint<E, C>(n: Bitmapped<E, C>, c: C, i: Index)
    requires Compacted(n) && Bit(n.datamap, i)
    ensures CountBelow(n.datamap, i) < |n.data|
    ensures InsertChildEraseValue(n, c, CountBelow(n.datamap, i), i).datamap
            & InsertChildEraseValue(n, c, CountBelow(n.datamap, i), i).nodemap == 0
  {
    RankBelow(n.datamap, i);
    MoveBitDisjoint(n.datamap, n.nodemap, i);
  }

  lemma InsertChildEraseValueSizes<E, C>(n: Bitmapped<E, C>, c: C, i: Index)
    requires Compacted(n) && Bit(n.datamap, i)
    ensures CountBelow(n.datamap, i) < |n.data|
    ensures |InsertChildEraseValue(n, c, CountBelow(n.datamap, i), i).data|
            == Popcount(InsertChildEraseValue(n, c, CountBelow(n.datamap, i), i).datamap)
    ensures |InsertChildEraseValue(n, c, CountBelow(n.datamap, i), i).children|
            == Popcount(InsertChildEraseValue(n, c, CountBelow(n.datamap, i), i).nodemap)
  {
    SlotsDisjoint(n, i);
    EraseSize(n.datamap, n.data, i);
    InsertSize(n.nodemap, n.children, i, c);
  }

  lemma InsertChildEraseValueCompacted<E, C>(n: Bitmapped<E, C>, c: C, i: Index)
    requires Compacted(n) && Bit(n.datamap, i)
    ensures CountBelow(n.datamap, i) < |n.data|
    ensures Compacted(InsertChildEraseValue(n, c, CountBelow(n.datamap, i), i))
  {
    InsertChildEraseValueDisjoint(n, c, i);
    InsertChildEraseValueSizes(n, c, i);
  }

  lemma InsertChildEraseValueSlots<E, C>(n: Bitmapped<E, C>, c: C, i: Index, j: Index)
    requires Compacted(n) && Bit(n.datamap, i)
    ensures CountBelow(n.datamap, i) < |n.data|
    ensures Compacted(InsertChildEraseValue(n, c, CountBelow(n.datamap, i), i))
    ensures DataSlot(InsertChildEraseValue(n, c, CountBelow(n.datamap, i), i), j) == if j == i then None else DataSlot(n, j)
    ensures ChildSlot(InsertChildEraseValue(n, c, CountBelow(n.datamap, i), i), j) == if j == i then Some(c) else ChildSlot(n, j)
  {
    InsertChildEraseValueCompacted(n, c, i);
    SlotsDisjoint(n, i);
    SlotErase(n.datamap, n.data, i, j);
    SlotInsert(n.nodemap, n.children, i, c, j);
  }

  lemma InsertValueEraseChildDisjoint<E, C>(n: Bitmapped<E, C>, v: E, i: Index)
    requires Compacted(n) && Bit(n.nodemap, i)
    ensures CountBelow(n.nodemap, i) < |n.children|
    ensures InsertValueEraseChild(n, v, CountBelow(n.nodemap, i), i).datamap
            & InsertValueEraseChild(n, v, CountBelow(n.nodemap, i), i).nodemap == 0
  {
    RankBelow(n.nodemap, i);
    MoveBitDisjoint(n.nodemap, n.datamap, i);
  }

  lemma InsertValueEraseChildSizes<E, C>(n: Bitmapped<E, C>, v: E, i: Index)
    requires Compacted(n) && Bit(n.nodemap, i)
    ensures CountBelow(n.nodemap, i) < |n.children|
    ensures |InsertValueEraseChild(n, v, CountBelow(n.nodemap, i), i).data|
            == Popcount(InsertValueEraseChild(n, v, CountBelow(n.nodemap, i), i).datamap)
    ensures |InsertValueEraseChild(n, v, CountBelow(n.nodemap, i), i).children|
            == Popcount(InsertValueEraseChild(n, v, CountBelow(n.nodemap, i), i).nodemap)
  {
    SlotsDisjoint(n, i);
    EraseSize(n.nodemap, n.children, i);
    InsertSize(n.datamap, n.data, i, v);
  }

  lemma InsertValueEraseChildCompacted<E, C>(n: Bitmapped<E, C>, v: E, i: Index)
    requires Compacted(n) && Bit(n.nodemap, i)
    ensures CountBelow(n.nodemap, i) < |n.children|
    ensures Compacted(InsertValueEraseChild(n, v, CountBelow(n.nodemap, i), i))
  {
    InsertValueEraseChildDisjoint(n, v, i);
    InsertValueEraseChildSizes(n, v, i);
  }

  lemma InsertValueEraseChildSlots<E, C>(n: Bitmapped<E, C>, v: E, i: Index, j: Index)
    requires Compacted(n) && Bit(n.nodemap, i)
    ensures CountBelow(n.nodemap, i) < |n.children|
    ensures Compacted(InsertValueEraseChild(n, v, CountBelow(n.nodemap, i), i))
    ensures DataSlot(InsertValueEraseChild(n, v, CountBelow(n.nodemap, i), i), j) == if j == i then Some(v) else DataSlot(n, j)
    ensures ChildSlot(InsertValueEraseChild(n, v, CountBelow(n.nodemap, i), i), j) == if j == i then None else ChildSlot(n, j)
  {
    InsertValueEraseChildCompacted(n, v, i);
    SlotsDisjoint(n, i);
    SlotErase(n.nodemap, n.children, i, j);
    SlotInsert(n.datamap, n.data, i, v, j);
  }
}
