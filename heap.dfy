/**
 * The trie node as the heap object of src/foundation/immutable/detail/hamtnode.h:
 * a reference-counted object whose inner variant holds two bitmaps and two
 * pointers to compacted arrays, and whose collision variant holds a size and
 * an array of entries.
 *
 * The path-copy helpers allocate a new node and fill it from the receiver,
 * which they only read; every child pointer they copy into the new node gains
 * one reference. Their effect on the bitmaps and on the contents of the
 * arrays is the value-level helper of the same name in HamtNode, applied to
 * Body(). The node's reference count is its Refcounted base; nodes are only
 * ever moved, never copied, so each node has a cell of its own.
 */
module HamtHeap {
  import opened Bits
  import opened CowArray
  import opened HamtNode
  import opened Refcount

  class HeapNode<K, V> {
    /** The refcounted base. */
    const rc: Refcounted
    /** Which alternative of the impl_t variant is held. */
    var isInner: bool
    var datamap: bv64
    var nodemap: bv64
    /** inner_t::data for an inner node, collision_t::data for a collision node. */
    var data: array?<Entry<K, V>>
    var children: array?<HeapNode<K, V>>
    /** collision_t::size. */
    var size: nat

    /** The inner node as a one-level record: bitmaps and array contents. */
    function Body(): Bitmapped<Entry<K, V>, HeapNode<K, V>>
      reads this, data, children
    {
      Bitmapped(datamap, nodemap, Elems(data), Elems(children))
    }

    /** Each array holds one element per set bit of its bitmap (data_size(), children_size()). */
    predicate Sized()
      reads this, data, children
    {
      |Elems(data)| == Popcount(datamap) && |Elems(children)| == Popcount(nodemap)
    }

    /** hamt_node(inner_tag): an empty inner node with no arrays. */
    constructor InnerNode()
      ensures isInner && Body() == Bitmapped(0, 0, [], [])
      ensures data == null && children == null
      ensures fresh(rc) && fresh(rc.cell) && rc.cell.count == 1 && rc.cell.live
    {
      rc := new Refcounted();
      isInner := true;
      datamap, nodemap := 0, 0;
      data, children := null, null;
      size := 0;
    }

    /**
     * make_inner_n() followed by the stores into the new inner_t: a fresh
     * node with the given bitmaps and arrays and the only reference to itself.
     */
    constructor Inner(datamap: bv64, nodemap: bv64, data: array?<Entry<K, V>>, children: array?<HeapNode<K, V>>)
      ensures isInner && this.datamap == datamap && this.nodemap == nodemap
      ensures this.data == data && this.children == children
      ensures fresh(rc) && fresh(rc.cell) && rc.cell.count == 1 && rc.cell.live
    {
      rc := new Refcounted();
      isInner := true;
      this.datamap, this.nodemap := datamap, nodemap;
      this.data, this.children := data, children;
      size := 0;
    }

    /** make_collision_n() followed by the stores into the new collision_t. */
    constructor Collision(size: nat, data: array?<Entry<K, V>>)
      ensures !isInner && this.size == size && this.data == data && children == null
      ensures fresh(rc) && fresh(rc.cell) && rc.cell.count == 1 && rc.cell.live
    {
      rc := new Refcounted();
      isInner := false;
      datamap, nodemap := 0, 0;
      this.data, children := data, null;
      this.size := size;
    }

    /** The collision node's entries: collision_t::data holds collision_t::size of them. */
    predicate CollisionSized()
      reads this, data
    {
      size == |Elems(data)|
    }

    /** The arrays this node owns and its destructor deallocates. */
    function Storage(): set<object>
      reads this
    {
      var d: set<object> := if data == null then {} else {data};
      var c: set<object> := if !isInner || children == null then {} else {children};
      d + c
    }

    /**
     * shallow_copy: a node of the same kind with copies of the receiver's
     * arrays (an empty bitmap or an empty collision node keeps no array);
     * every child gains one reference.
     */
    method ShallowCopy() returns (dest: HeapNode<K, V>)
      requires isInner ==> Sized()
      requires !isInner ==> CollisionSized()
      requires isInner ==> AllLive(Elems(children))
      modifies if isInner then CellsOf(Elems(children)) else {}
      ensures Made(dest) && dest.isInner == isInner
      ensures isInner ==> dest.Body() == Body() && dest.Sized()
      ensures !isInner ==> dest.size == size && Elems(dest.data) == Elems(data) && dest.CollisionSized()
      ensures Owned(dest)
      ensures isInner ==> Gained(Elems(children), Elems(children))
    {
      if isInner {
        IncHeld(children);
        var d := CopyOrNull(data);
        var c := CopyOrNull(children);
        dest := new HeapNode.Inner(datamap, nodemap, d, c);
      } else {
        var d := CopyOrNull(data);
        dest := new HeapNode.Collision(size, d);
      }
    }

    /**
     * replace_value as written: the new node gets a fresh data array with
     * the entry at `ci` replaced, but takes over the receiver's children
     * pointer instead of a copy of the array.
     */
    method ReplaceValueAsWritten(v: Entry<K, V>, ci: nat) returns (dest: HeapNode<K, V>)
      requires isInner && Sized() && ci < |Elems(data)|
      requires AllLive(Elems(children))
      modifies CellsOf(Elems(children))
      ensures Made(dest) && dest.isInner
      ensures dest.Body() == HamtNode.ReplaceValue(Body(), v, ci) && dest.Sized()
      ensures dest.data != null && fresh(dest.data)
      ensures dest.children == children
      ensures Gained(Elems(children), Elems(children))
    {
      IncHeld(children);
      var d := ArrayReplace(data, ci, v);
      dest := new HeapNode.Inner(datamap, nodemap, d, children);
    }

    /** replace_value: the entry at compacted position `ci` replaced; the children are copied and each gains a reference. */
    method ReplaceValue(v: Entry<K, V>, ci: nat) returns (dest: HeapNode<K, V>)
      requires isInner && Sized() && ci < |Elems(data)|
      requires AllLive(Elems(children))
      modifies CellsOf(Elems(children))
      ensures Made(dest) && dest.isInner
      ensures dest.Body() == HamtNode.ReplaceValue(Body(), v, ci) && dest.Sized()
      ensures Owned(dest)
      ensures Gained(Elems(children), Elems(children))
    {
      hide HamtNode.ReplaceValue, HamtNode.InsertValue, HamtNode.EraseValue, HamtNode.ReplaceChild, HamtNode.InsertChildEraseValue, HamtNode.InsertValueEraseChild, Popcount, CountBelow, SetBit, ClearBit, CompactIndex, InsertAt, ReplaceAt, EraseAt, Bumped, Occ;
      IncHeld(children);
      dest := ReplaceValueNode(v, ci);
    }

    /** The node replace_value allocates and fills, before it takes the references. */
    method ReplaceValueNode(v: Entry<K, V>, ci: nat) returns (dest: HeapNode<K, V>)
      requires isInner && Sized() && ci < |Elems(data)|
      ensures fresh(dest)
      ensures Made(dest) && dest.isInner
      ensures dest.Body() == HamtNode.ReplaceValue(Body(), v, ci) && dest.Sized()
      ensures Owned(dest)
    {
      var d := ArrayReplace(data, ci, v);
      var c := CopyOrNull(children);
      dest := new HeapNode.Inner(datamap, nodemap, d, c);
    }

    /**
     * insert_value as written: the new node gets a fresh data array with `v`
     * inserted, but takes over the receiver's children pointer.
     */
    method InsertValueAsWritten(v: Entry<K, V>, i: Index) returns (dest: HeapNode<K, V>)
      requires isInner && Sized()
      requires AllLive(Elems(children))
      modifies CellsOf(Elems(children))
      ensures Made(dest) && dest.isInner
      ensures dest.Body() == HamtNode.InsertValue(Body(), v, i)
      ensures dest.data != null && fresh(dest.data)
      ensures dest.children == children
      ensures Gained(Elems(children), Elems(children))
    {
      IncHeld(children);
      RankAtMost(datamap, i);
      var d := ArrayInsert(data, CompactIndex(datamap, i), v);
      dest := new HeapNode.Inner(SetBit(datamap, i), nodemap, d, children);
    }

    /** insert_value: bit `i` set in the datamap and `v` inserted at its compacted position. */
    method InsertValue(v: Entry<K, V>, i: Index) returns (dest: HeapNode<K, V>)
      requires isInner && Sized()
      requires AllLive(Elems(children))
      modifies CellsOf(Elems(children))
      ensures Made(dest) && dest.isInner
      ensures dest.Body() == HamtNode.InsertValue(Body(), v, i)
      ensures Owned(dest)
      ensures Gained(Elems(children), Elems(children))
    {
      hide HamtNode.ReplaceValue, HamtNode.InsertValue, HamtNode.EraseValue, HamtNode.ReplaceChild, HamtNode.InsertChildEraseValue, HamtNode.InsertValueEraseChild, Popcount, CountBelow, SetBit, ClearBit, CompactIndex, InsertAt, ReplaceAt, EraseAt, Bumped, Occ;
      IncHeld(children);
      dest := InsertValueNode(v, i);
    }

    /** The node insert_value allocates and fills, before it takes the references. */
    method InsertValueNode(v: Entry<K, V>, i: Index) returns (dest: HeapNode<K, V>)
      requires isInner && Sized()
      ensures fresh(dest)
      ensures Made(dest) && dest.isInner
      ensures dest.Body() == HamtNode.InsertValue(Body(), v, i)
      ensures Owned(dest)
    {
      RankAtMost(datamap, i);
      var d := ArrayInsert(data, CompactIndex(datamap, i), v);
      var c := CopyOrNull(children);
      dest := new HeapNode.Inner(SetBit(datamap, i), nodemap, d, c);
    }

    /**
     * erase_value as written: the new node gets a fresh data array with the
     * entry at `ci` erased, but takes over the receiver's children pointer.
     */
    method EraseValueAsWritten(ci: nat, i: Index) returns (dest: HeapNode<K, V>)
      requires isInner && Sized() && ci < |Elems(data)|
      requires AllLive(Elems(children))
      modifies CellsOf(Elems(children))
      ensures Made(dest) && dest.isInner
      ensures dest.Body() == HamtNode.EraseValue(Body(), ci, i)
      ensures dest.data == null || fresh(dest.data)
      ensures dest.children == children
      ensures Gained(Elems(children), Elems(children))
    {
      IncHeld(children);
      var d := ArrayErase(data, ci);
      dest := new HeapNode.Inner(ClearBit(datamap, i), nodemap, d, children);
    }

    /** erase_value: bit `i` cleared from the datamap and the entry at `ci` erased; an array left empty is not kept. */
    method EraseValue(ci: nat, i: Index) returns (dest: HeapNode<K, V>)
      requires isInner && Sized() && ci < |Elems(data)|
      requires AllLive(Elems(children))
      modifies CellsOf(Elems(children))
      ensures Made(dest) && dest.isInner
      ensures dest.Body() == HamtNode.EraseValue(Body(), ci, i)
      ensures Owned(dest)
      ensures Gained(Elems(children), Elems(children))
    {
      hide HamtNode.ReplaceValue, HamtNode.InsertValue, HamtNode.EraseValue, HamtNode.ReplaceChild, HamtNode.InsertChildEraseValue, HamtNode.InsertValueEraseChild, Popcount, CountBelow, SetBit, ClearBit, CompactIndex, InsertAt, ReplaceAt, EraseAt, Bumped, Occ;
      IncHeld(children);
      dest := EraseValueNode(ci, i);
    }

    /** The node erase_value allocates and fills, before it takes the references. */
    method EraseValueNode(ci: nat, i: Index) returns (dest: HeapNode<K, V>)
      requires isInner && Sized() && ci < |Elems(data)|
      ensures fresh(dest)
      ensures Made(dest) && dest.isInner
      ensures dest.Body() == HamtNode.EraseValue(Body(), ci, i)
      ensures Owned(dest)
    {
      var d := ArrayErase(data, ci);
      var c := CopyOrNull(children);
      dest := new HeapNode.Inner(ClearBit(datamap, i), nodemap, d, c);
    }

    /**
     * replace_child as written: the new node gets a fresh children array
     * with `child` at `ci`, but takes over the receiver's data pointer.
     */
    method ReplaceChildAsWritten(child: HeapNode<K, V>, ci: nat) returns (dest: HeapNode<K, V>)
      requires isInner && Sized() && ci < |Elems(children)|
      requires AllLive(Elems(children))
      modifies CellsOf(Elems(children))
      ensures Made(dest) && dest.isInner
      ensures dest.Body() == HamtNode.ReplaceChild(Body(), child, ci) && dest.Sized()
      ensures dest.children != null && fresh(dest.children)
      ensures dest.data == data
      ensures Gained(Elems(children), EraseAt(Elems(children), ci))
    {
      IncExcept(children, ci);
      var c := ArrayReplace(children, ci, child);
      dest := new HeapNode.Inner(datamap, nodemap, data, c);
    }

    /**
     * replace_child: the child at compacted position `ci` replaced by
     * `child`, whose reference passes to the new node; every other child
     * gains a reference, the replaced one does not.
     */
    method ReplaceChild(child: HeapNode<K, V>, ci: nat) returns (dest: HeapNode<K, V>)
      requires isInner && Sized() && ci < |Elems(children)|
      requires AllLive(Elems(children))
      modifies CellsOf(Elems(children))
      ensures Made(dest) && dest.isInner
      ensures dest.Body() == HamtNode.ReplaceChild(Body(), child, ci) && dest.Sized()
      ensures Owned(dest)
      ensures Gained(Elems(children), EraseAt(Elems(children), ci))
    {
      hide HamtNode.ReplaceValue, HamtNode.InsertValue, HamtNode.EraseValue, HamtNode.ReplaceChild, HamtNode.InsertChildEraseValue, HamtNode.InsertValueEraseChild, Popcount, CountBelow, SetBit, ClearBit, CompactIndex, InsertAt, ReplaceAt, EraseAt, Bumped, Occ;
      IncExcept(children, ci);
      dest := ReplaceChildNode(child, ci);
    }

    /** The node replace_child allocates and fills, before it takes the references. */
    method ReplaceChildNode(child: HeapNode<K, V>, ci: nat) returns (dest: HeapNode<K, V>)
      requires isInner && Sized() && ci < |Elems(children)|
      ensures fresh(dest)
      ensures Made(dest) && dest.isInner
      ensures dest.Body() == HamtNode.ReplaceChild(Body(), child, ci) && dest.Sized()
      ensures Owned(dest)
    {
      var d := CopyOrNull(data);
      var c := ArrayReplace(children, ci, child);
      dest := new HeapNode.Inner(datamap, nodemap, d, c);
    }

    /**
     * insert_child_erase_value: slot `i` turns from the inline entry at
     * `dci` into `child`, whose reference passes to the new node; every
     * existing child gains a reference.
     */
    method InsertChildEraseValue(child: HeapNode<K, V>, dci: nat, i: Index) returns (dest: HeapNode<K, V>)
      requires isInner && Sized() && dci < |Elems(data)|
      requires AllLive(Elems(children))
      modifies CellsOf(Elems(children))
      ensures Made(dest) && dest.isInner
      ensures dest.Body() == HamtNode.InsertChildEraseValue(Body(), child, dci, i)
      ensures Owned(dest)
      ensures Gained(Elems(children), Elems(children))
    {
      hide HamtNode.ReplaceValue, HamtNode.InsertValue, HamtNode.EraseValue, HamtNode.ReplaceChild, HamtNode.InsertChildEraseValue, HamtNode.InsertValueEraseChild, Popcount, CountBelow, SetBit, ClearBit, CompactIndex, InsertAt, ReplaceAt, EraseAt, Bumped, Occ;
      IncHeld(children);
      dest := InsertChildEraseValueNode(child, dci, i);
    }

    /** The node insert_child_erase_value allocates and fills, before it takes the references. */
    method InsertChildEraseValueNode(child: HeapNode<K, V>, dci: nat, i: Index) returns (dest: HeapNode<K, V>)
      requires isInner && Sized() && dci < |Elems(data)|
      ensures fresh(dest)
      ensures Made(dest) && dest.isInner
      ensures dest.Body() == HamtNode.InsertChildEraseValue(Body(), child, dci, i)
      ensures Owned(dest)
    {
      RankAtMost(nodemap, i);
      var d := ArrayErase(data, dci);
      var c := ArrayInsert(children, CompactIndex(nodemap, i), child);
      dest := new HeapNode.Inner(ClearBit(datamap, i), SetBit(nodemap, i), d, c);
    }

    /**
     * insert_value_erase_child: slot `i` turns from the child at `nci` into
     * the inline entry `v`; every other child gains a reference.
     */
    method InsertValueEraseChild(v: Entry<K, V>, nci: nat, i: Index) returns (dest: HeapNode<K, V>)
      requires isInner && Sized() && nci < |Elems(children)|
      requires AllLive(Elems(children))
      modifies CellsOf(Elems(children))
      ensures Made(dest) && dest.isInner
      ensures dest.Body() == HamtNode.InsertValueEraseChild(Body(), v, nci, i)
      ensures Owned(dest)
      ensures Gained(Elems(children), EraseAt(Elems(children), nci))
    {
      hide HamtNode.ReplaceValue, HamtNode.InsertValue, HamtNode.EraseValue, HamtNode.ReplaceChild, HamtNode.InsertChildEraseValue, HamtNode.InsertValueEraseChild, Popcount, CountBelow, SetBit, ClearBit, CompactIndex, InsertAt, ReplaceAt, EraseAt, Bumped, Occ;
      IncExcept(children, nci);
      dest := InsertValueEraseChildNode(v, nci, i);
    }

    /** The node insert_value_erase_child allocates and fills, before it takes the references. */
    method InsertValueEraseChildNode(v: Entry<K, V>, nci: nat, i: Index) returns (dest: HeapNode<K, V>)
      requires isInner && Sized() && nci < |Elems(children)|
      ensures fresh(dest)
      ensures Made(dest) && dest.isInner
      ensures dest.Body() == HamtNode.InsertValueEraseChild(Body(), v, nci, i)
      ensures Owned(dest)
    {
      RankAtMost(datamap, i);
      var c := ArrayErase(children, nci);
      var d := ArrayInsert(data, CompactIndex(datamap, i), v);
      dest := new HeapNode.Inner(SetBit(datamap, i), ClearBit(nodemap, i), d, c);
    }

    /** replace_collision: the entry at `idx` replaced; the size is kept. */
    method ReplaceCollision(v: Entry<K, V>, idx: nat) returns (dest: HeapNode<K, V>)
      requires !isInner && CollisionSized() && idx < size
      ensures fresh(dest)
      ensures Made(dest) && !dest.isInner && dest.CollisionSized()
      ensures Elems(dest.data) == HamtNode.ReplaceCollision(Elems(data), v, idx)
      ensures Owned(dest)
    {
      var d := ArrayReplace(data, idx, v);
      dest := new HeapNode.Collision(size, d);
    }

    /** insert_collision: `v` appended; the size grows by one. */
    method InsertCollision(v: Entry<K, V>) returns (dest: HeapNode<K, V>)
      requires !isInner && CollisionSized()
      ensures fresh(dest)
      ensures Made(dest) && !dest.isInner && dest.CollisionSized()
      ensures Elems(dest.data) == HamtNode.InsertCollision(Elems(data), v)
      ensures Owned(dest)
    {
      var d := ArrayInsert(data, size, v);
      dest := new HeapNode.Collision(size + 1, d);
    }

    /** erase_collision: the entry at `idx` erased, on a node of more than two entries. */
    method EraseCollision(idx: nat) returns (dest: HeapNode<K, V>)
      requires !isInner && CollisionSized() && size > 2 && idx < size
      ensures fresh(dest)
      ensures Made(dest) && !dest.isInner && dest.CollisionSized()
      ensures Elems(dest.data) == HamtNode.EraseCollision(Elems(data), idx)
      ensures Owned(dest)
    {
      var d := ArrayErase(data, idx);
      dest := new HeapNode.Collision(size - 1, d);
    }

    /**
     * ~hamt_node: an inner node drops one reference from each child and
     * deallocates both arrays; a collision node deallocates its entries.
     * released[k] tells whether child k lost its last reference, upon which
     * the source destroys that child in turn.
     */
    method Destroy(heap: Allocator) returns (released: seq<bool>)
      requires isInner ==> Sized() && AllLive(Elems(children))
      requires Storage() !! heap.freed
      modifies heap, if isInner then CellsOf(Elems(children)) else {}
      ensures heap.freed == old(heap.freed) + Storage()
      ensures isInner ==> Lost(Elems(children))
      ensures |released| == if isInner then |Elems(children)| else 0
      ensures forall k :: 0 <= k < |released| ==>
        (released[k] <==> Dropped(old(children[k].rc.cell.count), Occ(children[..k], children[k].rc.cell)) == 1)
    {
      hide Dropped, Occ, Popcount, CountBelow;
      released := [];
      if isInner {
        if children != null {
          released := DecChildren(children, 0, children.Length);
          assert children[0..children.Length] == children[..];
          heap.freed := heap.freed + {children};
        }
      }
      if data != null {
        heap.freed := heap.freed + {data};
      }
    }
  }

  /** The heap allocator: the storage deallocated so far. */
  class Allocator {
    var freed: set<object>

    constructor()
      ensures freed == {}
    {
      freed := {};
    }
  }

  /** make_inner_n / make_collision_n: a freshly allocated node holding the only reference to itself. */
  twostate predicate Made<K, V>(new dest: HeapNode<K, V>)
    reads dest, dest.rc.cell
  {
    fresh(dest) && fresh(dest.rc.cell) && dest.rc.cell.count == 1 && dest.rc.cell.live
  }

  /** The new node's arrays are its own: each is freshly allocated or absent. */
  twostate predicate Owned<K, V>(new dest: HeapNode<K, V>)
    reads dest
  {
    (dest.data == null || fresh(dest.data)) && (dest.children == null || fresh(dest.children))
  }

  /** Each node of `s` gained one reference per occurrence in `held`, and stays live. */
  twostate predicate Gained<K, V>(s: seq<HeapNode<K, V>>, held: seq<HeapNode<K, V>>)
    reads CellsOf(s)
  {
    forall j :: 0 <= j < |s| ==>
      s[j].rc.cell.count == Bumped(old(s[j].rc.cell.count), Occ(held, s[j].rc.cell)) &&
      s[j].rc.cell.live == old(s[j].rc.cell.live)
  }

  /** Each node of `s` lost one reference per occurrence in `s`, and stays live. */
  twostate predicate Lost<K, V>(s: seq<HeapNode<K, V>>)
    reads CellsOf(s)
  {
    forall j :: 0 <= j < |s| ==>
      s[j].rc.cell.count == Dropped(old(s[j].rc.cell.count), Occ(s, s[j].rc.cell)) &&
      s[j].rc.cell.live == old(s[j].rc.cell.live)
  }

  /** make_array(first, size) where size may be 0: a fresh copy, or no array for no elements. */
  method CopyOrNull<T>(src: array?<T>) returns (a: array?<T>)
    ensures Elems(a) == Elems(src)
    ensures a == null || fresh(a)
  {
    a := null;
    if src != null && src.Length > 0 {
      a := CopyArray(src);
    }
  }

  /** inc_children over a whole children array, which may be absent. */
  method IncHeld<K, V>(a: array?<HeapNode<K, V>>)
    requires AllLive(Elems(a))
    modifies CellsOf(Elems(a))
    ensures Gained(Elems(a), Elems(a))
  {
    if a != null {
      assert a[0..a.Length] == a[..];
      IncChildren(a, 0, a.Length);
    }
  }

  /** inc_children before and after position `p`: every child but the one at `p` is copied. */
  method IncExcept<K, V>(a: array<HeapNode<K, V>>, p: nat)
    requires p < a.Length
    requires AllLive(a[..])
    modifies CellsOf(a[..])
    ensures Gained(a[..], EraseAt(a[..], p))
  {
    ghost var s := a[..];
    RangeCells(s, 0, p);
    RangeCells(s, p + 1, a.Length);
    assert a[0..p] == s[0..p] && a[p + 1..a.Length] == s[p + 1..a.Length];
    hide Bumped, Occ, EraseAt, CellsOf;
    IncChildren(a, 0, p);
    label middle:
    IncChildren(a, p + 1, a.Length);
    forall j | 0 <= j < a.Length
      ensures a[j].rc.cell.count == Bumped(old(a[j].rc.cell.count), Occ(EraseAt(s, p), a[j].rc.cell))
    {
      TwoRanges(old(a[j].rc.cell.count), old@middle(a[j].rc.cell.count), a[j].rc.cell.count, s, p, a[j].rc.cell);
    }
  }

  /** The counts through the two ranges of IncExcept add up to the references of the array without position `p`. */
  lemma TwoRanges<K, V>(c0: bv64, c1: bv64, c2: bv64, s: seq<HeapNode<K, V>>, p: nat, c: Cell)
    requires p < |s|
    requires c1 == Bumped(c0, Occ(s[0..p], c))
    requires c2 == Bumped(c1, Occ(s[p + 1..|s|], c))
    ensures c2 == Bumped(c0, Occ(EraseAt(s, p), c))
  {
    BumpedTwice(c0, Occ(s[0..p], c), Occ(s[p + 1..|s|], c));
    OccAppend(s[0..p], s[p + 1..|s|], c);
    assert EraseAt(s, p) == s[0..p] + s[p + 1..|s|];
  }

  /** A sub-range uses no cells the whole does not, and is live when the whole is. */
  lemma RangeCells<K, V>(s: seq<HeapNode<K, V>>, lo: nat, hi: nat)
    requires lo <= hi <= |s|
    ensures CellsOf(s[lo..hi]) <= CellsOf(s)
    ensures AllLive(s) ==> AllLive(s[lo..hi])
  {
    forall x | x in CellsOf(s[lo..hi]) ensures x in CellsOf(s) {
      var k :| 0 <= k < hi - lo && s[lo..hi][k].rc.cell == x;
      assert s[lo + k].rc.cell == x;
    }
  }

  // ---------------------------------------------------------------------
  // Counting the references a range of child pointers holds.

  /** How many of the nodes in `s` have `c` as their count cell. */
  function Occ<K, V>(s: seq<HeapNode<K, V>>, c: Cell): nat {
    if |s| == 0 then 0
    else Occ(s[..|s| - 1], c) + (if s[|s| - 1].rc.cell == c then 1 else 0)
  }

  /** The count cells of the nodes in `s`. */
  function CellsOf<K, V>(s: seq<HeapNode<K, V>>): set<Cell> {
    set i | 0 <= i < |s| :: s[i].rc.cell
  }

  /** Every node in `s` still has its count cell. */
  predicate AllLive<K, V>(s: seq<HeapNode<K, V>>)
    reads CellsOf(s)
  {
    forall i :: 0 <= i < |s| ==> s[i].rc.cell.live
  }

  /** A cell that no node of `s` uses occurs there zero times. */
  lemma OccAbsent<K, V>(s: seq<HeapNode<K, V>>, c: Cell)
    requires c !in CellsOf(s)
    ensures Occ(s, c) == 0
  {
    if |s| > 0 {
      assert CellsOf(s[..|s| - 1]) <= CellsOf(s) by {
        forall x | x in CellsOf(s[..|s| - 1]) ensures x in CellsOf(s) {
          var i :| 0 <= i < |s| - 1 && s[..|s| - 1][i].rc.cell == x;
          assert s[i].rc.cell == x;
        }
      }
      OccAbsent(s[..|s| - 1], c);
    }
  }

  /** Occurrences in a concatenation add up. */
  lemma {:induction false} OccAppend<K, V>(s: seq<HeapNode<K, V>>, t: seq<HeapNode<K, V>>, c: Cell)
    ensures Occ(s + t, c) == Occ(s, c) + Occ(t, c)
    decreases |t|
  {
    if |t| > 0 {
      assert (s + t)[..|s + t| - 1] == s + t[..|t| - 1];
      OccAppend(s, t[..|t| - 1], c);
    } else {
      assert s + t == s;
    }
  }

  /** Increments through two ranges add up. */
  lemma {:induction false} BumpedTwice(x: bv64, m: nat, n: nat)
    ensures Bumped(Bumped(x, m), n) == Bumped(x, m + n)
  {
    if n > 0 {
      BumpedTwice(x, m, n - 1);
    }
  }

  /** One more node at the end of the range: its cell occurs once more, every other cell as often as before. */
  lemma OccSnoc<K, V>(s: seq<HeapNode<K, V>>, n: HeapNode<K, V>, c: Cell)
    ensures Occ(s + [n], c) == Occ(s, c) + (if n.rc.cell == c then 1 else 0)
  {
    assert (s + [n])[..|s|] == s;
  }

  /** Before the first step no cell has been counted. */
  lemma NoneYet<K, V>(x: bv64, s: seq<HeapNode<K, V>>, c: Cell)
    requires |s| == 0
    ensures Bumped(x, Occ(s, c)) == x && Dropped(x, Occ(s, c)) == x
  {}

  /** One increment step of inc_children, seen from one cell `c`. */
  lemma BumpStep<K, V>(start: bv64, s: seq<HeapNode<K, V>>, n: HeapNode<K, V>, c: Cell, before: bv64, after: bv64)
    requires before == Bumped(start, Occ(s, c))
    requires after == if n.rc.cell == c then before + 1 else before
    ensures after == Bumped(start, Occ(s + [n], c))
  {
    OccSnoc(s, n, c);
  }

  /** One decrement step of dec_children, seen from one cell `c`. */
  lemma DropStep<K, V>(start: bv64, s: seq<HeapNode<K, V>>, n: HeapNode<K, V>, c: Cell, before: bv64, after: bv64)
    requires before == Dropped(start, Occ(s, c))
    requires after == if n.rc.cell == c then before - 1 else before
    ensures after == Dropped(start, Occ(s + [n], c))
  {
    OccSnoc(s, n, c);
  }

  /**
   * inc_children(first, last): every node in a[lo..hi] gains one reference;
   * a node that occurs more than once gains one per occurrence. Cells that
   * no node of the range uses keep their count.
   */
  method IncChildren<K, V>(a: array<HeapNode<K, V>>, lo: nat, hi: nat)
    requires lo <= hi <= a.Length
    requires AllLive(a[lo..hi])
    modifies CellsOf(a[lo..hi])
    ensures forall j :: 0 <= j < a.Length ==>
      a[j].rc.cell.count == Bumped(old(a[j].rc.cell.count), Occ(a[lo..hi], a[j].rc.cell)) &&
      a[j].rc.cell.live == old(a[j].rc.cell.live)
  {
    hide Bumped, Occ;
    forall j | 0 <= j < a.Length
      ensures a[j].rc.cell.count == Bumped(a[j].rc.cell.count, Occ(a[lo..lo], a[j].rc.cell))
    {
      NoneYet(a[j].rc.cell.count, a[lo..lo], a[j].rc.cell);
    }
    var i := lo;
    while i < hi
      invariant lo <= i <= hi
      invariant forall j :: 0 <= j < a.Length ==>
        a[j].rc.cell.count == Bumped(old(a[j].rc.cell.count), Occ(a[lo..i], a[j].rc.cell)) &&
        a[j].rc.cell.live == old(a[j].rc.cell.live)
    {
      assert a[lo..i + 1] == a[lo..i] + [a[i]];
      assert a[i] == a[lo..hi][i - lo];
      label before:
      a[i].rc.Inc();
      forall j | 0 <= j < a.Length
        ensures a[j].rc.cell.count == Bumped(old(a[j].rc.cell.count), Occ(a[lo..i + 1], a[j].rc.cell))
      {
        BumpStep(old(a[j].rc.cell.count), a[lo..i], a[i], a[j].rc.cell, old@before(a[j].rc.cell.count), a[j].rc.cell.count);
      }
      i := i + 1;
    }
  }

  /**
   * dec_children(first, last): every node in a[lo..hi] loses one reference.
   * released[k] says whether the decrement at position lo + k was the last
   * one, after which the source destroys and frees that node.
   */
  method DecChildren<K, V>(a: array<HeapNode<K, V>>, lo: nat, hi: nat) returns (released: seq<bool>)
    requires lo <= hi <= a.Length
    requires AllLive(a[lo..hi])
    modifies CellsOf(a[lo..hi])
    ensures forall j :: 0 <= j < a.Length ==>
      a[j].rc.cell.count == Dropped(old(a[j].rc.cell.count), Occ(a[lo..hi], a[j].rc.cell)) &&
      a[j].rc.cell.live == old(a[j].rc.cell.live)
    ensures |released| == hi - lo
    ensures forall k :: 0 <= k < hi - lo ==>
      (released[k] <==> Dropped(old(a[lo + k].rc.cell.count), Occ(a[lo..lo + k], a[lo + k].rc.cell)) == 1)
  {
    hide Dropped, Occ;
    forall j | 0 <= j < a.Length
      ensures a[j].rc.cell.count == Dropped(a[j].rc.cell.count, Occ(a[lo..lo], a[j].rc.cell))
    {
      NoneYet(a[j].rc.cell.count, a[lo..lo], a[j].rc.cell);
    }
    released := [];
    var i := lo;
    while i < hi
      invariant lo <= i <= hi
      invariant |released| == i - lo
      invariant forall j :: 0 <= j < a.Length ==>
        a[j].rc.cell.count == Dropped(old(a[j].rc.cell.count), Occ(a[lo..i], a[j].rc.cell)) &&
        a[j].rc.cell.live == old(a[j].rc.cell.live)
      invariant forall k :: 0 <= k < i - lo ==>
        (released[k] <==> Dropped(old(a[lo + k].rc.cell.count), Occ(a[lo..lo + k], a[lo + k].rc.cell)) == 1)
    {
      assert a[lo..i + 1] == a[lo..i] + [a[i]];
      assert a[i] == a[lo..hi][i - lo];
      label before:
      var last := a[i].rc.Dec();
      forall j | 0 <= j < a.Length
        ensures a[j].rc.cell.count == Dropped(old(a[j].rc.cell.count), Occ(a[lo..i + 1], a[j].rc.cell))
      {
        DropStep(old(a[j].rc.cell.count), a[lo..i], a[i], a[j].rc.cell, old@before(a[j].rc.cell.count), a[j].rc.cell.count);
      }
      released := released + [last];
      i := i + 1;
    }
  }

  // ---------------------------------------------------------------------
  // Storage shared between versions.

  /**
   * replace_value as written leaves the old and the new node pointing to one
   * children array. Destroying the old node deallocates that array, so the
   * new node's children are freed storage, which its own destructor would
   * deallocate a second time.
   */
  method SharedChildrenFreedTwice<K, V>(n: HeapNode<K, V>, v: Entry<K, V>, ci: nat, heap: Allocator) returns (dest: HeapNode<K, V>)
    requires n.isInner && n.Sized() && ci < |Elems(n.data)| && n.children != null
    requires AllLive(Elems(n.children))
    requires n.Storage() !! heap.freed
    modifies heap, CellsOf(Elems(n.children))
    ensures dest.children != null && dest.children in heap.freed
  {
    hide HamtNode.ReplaceValue, HamtNode.InsertValue, HamtNode.EraseValue, HamtNode.ReplaceChild, HamtNode.InsertChildEraseValue, HamtNode.InsertValueEraseChild, Popcount, CountBelow, SetBit, ClearBit, CompactIndex, InsertAt, ReplaceAt, EraseAt, Bumped, Occ;
    dest := n.ReplaceValueAsWritten(v, ci);
    var released := n.Destroy(heap);
  }

  /** With the children copied, the new node's storage survives the destruction of the node it was built from. */
  method CopiedChildrenOutliveSource<K, V>(n: HeapNode<K, V>, v: Entry<K, V>, ci: nat, heap: Allocator) returns (dest: HeapNode<K, V>)
    requires n.isInner && n.Sized() && ci < |Elems(n.data)|
    requires AllLive(Elems(n.children))
    requires n.Storage() !! heap.freed
    modifies heap, CellsOf(Elems(n.children))
    ensures dest.Storage() !! heap.freed
  {
    hide HamtNode.ReplaceValue, HamtNode.InsertValue, HamtNode.EraseValue, HamtNode.ReplaceChild, HamtNode.InsertChildEraseValue, HamtNode.InsertValueEraseChild, Popcount, CountBelow, SetBit, ClearBit, CompactIndex, InsertAt, ReplaceAt, EraseAt, Bumped, Occ;
    dest := n.ReplaceValue(v, ci);
    var released := n.Destroy(heap);
  }

  /** insert_value as written shares the children array in the same way: destroying the old node frees the new node's children. */
  method InsertedChildrenFreedTwice<K, V>(n: HeapNode<K, V>, v: Entry<K, V>, i: Index, heap: Allocator) returns (dest: HeapNode<K, V>)
    requires n.isInner && n.Sized() && n.children != null
    requires AllLive(Elems(n.children))
    requires n.Storage() !! heap.freed
    modifies heap, CellsOf(Elems(n.children))
    ensures dest.children != null && dest.children in heap.freed
  {
    hide HamtNode.ReplaceValue, HamtNode.InsertValue, HamtNode.EraseValue, HamtNode.ReplaceChild, HamtNode.InsertChildEraseValue, HamtNode.InsertValueEraseChild, Popcount, CountBelow, SetBit, ClearBit, CompactIndex, InsertAt, ReplaceAt, EraseAt, Bumped, Occ;
    dest := n.InsertValueAsWritten(v, i);
    var released := n.Destroy(heap);
  }

  /** With the children copied, the node insert_value builds survives the destruction of its source. */
  method InsertedChildrenOutliveSource<K, V>(n: HeapNode<K, V>, v: Entry<K, V>, i: Index, heap: Allocator) returns (dest: HeapNode<K, V>)
    requires n.isInner && n.Sized()
    requires AllLive(Elems(n.children))
    requires n.Storage() !! heap.freed
    modifies heap, CellsOf(Elems(n.children))
    ensures dest.Storage() !! heap.freed
  {
    hide HamtNode.ReplaceValue, HamtNode.InsertValue, HamtNode.EraseValue, HamtNode.ReplaceChild, HamtNode.InsertChildEraseValue, HamtNode.InsertValueEraseChild, Popcount, CountBelow, SetBit, ClearBit, CompactIndex, InsertAt, ReplaceAt, EraseAt, Bumped, Occ;
    dest := n.InsertValue(v, i);
    var released := n.Destroy(heap);
  }

  /** erase_value as written shares the children array too: destroying the old node frees the new node's children. */
  method ErasedChildrenFreedTwice<K, V>(n: HeapNode<K, V>, ci: nat, i: Index, heap: Allocator) returns (dest: HeapNode<K, V>)
    requires n.isInner && n.Sized() && ci < |Elems(n.data)| && n.children != null
    requires AllLive(Elems(n.children))
    requires n.Storage() !! heap.freed
    modifies heap, CellsOf(Elems(n.children))
    ensures dest.children != null && dest.children in heap.freed
  {
    hide HamtNode.ReplaceValue, HamtNode.InsertValue, HamtNode.EraseValue, HamtNode.ReplaceChild, HamtNode.InsertChildEraseValue, HamtNode.InsertValueEraseChild, Popcount, CountBelow, SetBit, ClearBit, CompactIndex, InsertAt, ReplaceAt, EraseAt, Bumped, Occ;
    dest := n.EraseValueAsWritten(ci, i);
    var released := n.Destroy(heap);
  }

  /** With the children copied, the node erase_value builds survives the destruction of its source. */
  method ErasedChildrenOutliveSource<K, V>(n: HeapNode<K, V>, ci: nat, i: Index, heap: Allocator) returns (dest: HeapNode<K, V>)
    requires n.isInner && n.Sized() && ci < |Elems(n.data)|
    requires AllLive(Elems(n.children))
    requires n.Storage() !! heap.freed
    modifies heap, CellsOf(Elems(n.children))
    ensures dest.Storage() !! heap.freed
  {
    hide HamtNode.ReplaceValue, HamtNode.InsertValue, HamtNode.EraseValue, HamtNode.ReplaceChild, HamtNode.InsertChildEraseValue, HamtNode.InsertValueEraseChild, Popcount, CountBelow, SetBit, ClearBit, CompactIndex, InsertAt, ReplaceAt, EraseAt, Bumped, Occ;
    dest := n.EraseValue(ci, i);
    var released := n.Destroy(heap);
  }

  /** replace_child as written shares the data array: destroying the old node frees the new node's entries. */
  method SharedDataFreedTwice<K, V>(n: HeapNode<K, V>, child: HeapNode<K, V>, ci: nat, heap: Allocator) returns (dest: HeapNode<K, V>)
    requires n.isInner && n.Sized() && ci < |Elems(n.children)| && n.data != null
    requires AllLive(Elems(n.children))
    requires n.Storage() !! heap.freed
    modifies heap, CellsOf(Elems(n.children))
    ensures dest.data != null && dest.data in heap.freed
  {
    hide HamtNode.ReplaceValue, HamtNode.InsertValue, HamtNode.EraseValue, HamtNode.ReplaceChild, HamtNode.InsertChildEraseValue, HamtNode.InsertValueEraseChild, Popcount, CountBelow, SetBit, ClearBit, CompactIndex, InsertAt, ReplaceAt, EraseAt, Bumped, Occ;
    dest := n.ReplaceChildAsWritten(child, ci);
    var released := n.Destroy(heap);
  }

  /** With the data copied, the node replace_child builds survives the destruction of its source. */
  method CopiedDataOutliveSource<K, V>(n: HeapNode<K, V>, child: HeapNode<K, V>, ci: nat, heap: Allocator) returns (dest: HeapNode<K, V>)
    requires n.isInner && n.Sized() && ci < |Elems(n.children)|
    requires AllLive(Elems(n.children))
    requires n.Storage() !! heap.freed
    modifies heap, CellsOf(Elems(n.children))
    ensures dest.Storage() !! heap.freed
  {
    hide HamtNode.ReplaceValue, HamtNode.InsertValue, HamtNode.EraseValue, HamtNode.ReplaceChild, HamtNode.InsertChildEraseValue, HamtNode.InsertValueEraseChild, Popcount, CountBelow, SetBit, ClearBit, CompactIndex, InsertAt, ReplaceAt, EraseAt, Bumped, Occ;
    dest := n.ReplaceChild(child, ci);
    var released := n.Destroy(heap);
  }

  // ---------------------------------------------------------------------
  // hamt_node::operator==

  /**
   * Node equality as the comparison intends it: nodes of the same kind;
   * inner nodes with equal bitmaps, equal entries and the same child
   * pointers; collision nodes with equal entries.
   */
  predicate SameNode<K(==), V(==)>(x: HeapNode<K, V>, y: HeapNode<K, V>)
    reads x, x.data, x.children, y, y.data, y.children
  {
    if x.isInner then y.isInner && x.Body() == y.Body()
    else !y.isInner && Elems(x.data) == Elems(y.data)
  }

  /** A node well formed for its kind. */
  predicate WellSized<K, V>(x: HeapNode<K, V>)
    reads x, x.data, x.children
  {
    if x.isInner then x.Sized() else x.CollisionSized()
  }

  /** Elementwise comparison of the first `n` elements of two arrays (the loops of operator==). */
  method ElementsEqual<T(==)>(a: array?<T>, b: array?<T>, n: nat) returns (r: bool)
    requires n <= |Elems(a)| && n <= |Elems(b)|
    ensures r <==> Elems(a)[..n] == Elems(b)[..n]
  {
    var k := 0;
    while k < n
      invariant k <= n
      invariant Elems(a)[..k] == Elems(b)[..k]
    {
      if a[k] != b[k] {
        assert Elems(a)[..n][k] != Elems(b)[..n][k];
        return false;
      }
      assert Elems(a)[..k + 1] == Elems(a)[..k] + [a[k]];
      assert Elems(b)[..k + 1] == Elems(b)[..k] + [b[k]];
      k := k + 1;
    }
    return true;
  }

  /** operator== with the collision branch comparing the two collision sizes. */
  method NodeEquals<K(==), V(==)>(x: HeapNode<K, V>, y: HeapNode<K, V>) returns (r: bool)
    requires WellSized(x) && WellSized(y)
    ensures r <==> SameNode(x, y)
  {
    if x.isInner {
      if !y.isInner {
        return false;
      }
      if x.datamap != y.datamap || x.nodemap != y.nodemap {
        return false;
      }
      var sameData := ElementsEqual(x.data, y.data, Popcount(x.datamap));
      if !sameData {
        return false;
      }
      var sameChildren := ElementsEqual(x.children, y.children, Popcount(x.nodemap));
      if !sameChildren {
        return false;
      }
      assert Elems(x.data) == Elems(x.data)[..Popcount(x.datamap)];
      assert Elems(y.data) == Elems(y.data)[..Popcount(x.datamap)];
      assert Elems(x.children) == Elems(x.children)[..Popcount(x.nodemap)];
      assert Elems(y.children) == Elems(y.children)[..Popcount(x.nodemap)];
      return true;
    }
    if y.isInner {
      return false;
    }
    if x.size != y.size {
      return false;
    }
    r := ElementsEqual(x.data, y.data, x.size);
    assert Elems(x.data) == Elems(x.data)[..x.size];
    assert Elems(y.data) == Elems(y.data)[..x.size];
  }

  /** What a comparison does: return a result, or throw std::bad_variant_access. */
  datatype Outcome = Returned(value: bool) | Threw

  /**
   * operator== as written: the collision branch asks the other node for
   * children_size(), which reads the inner alternative of a node that holds
   * the collision alternative and throws.
   */
  method NodeEqualsAsWritten<K(==), V(==)>(x: HeapNode<K, V>, y: HeapNode<K, V>) returns (r: Outcome)
    requires WellSized(x) && WellSized(y)
    ensures x.isInner ==> r == Returned(SameNode(x, y))
    ensures !x.isInner && y.isInner ==> r == Returned(false)
    ensures !x.isInner && !y.isInner ==> r == Threw
  {
    if x.isInner {
      var same := NodeEquals(x, y);
      return Returned(same);
    }
    if y.isInner {
      return Returned(false);
    }
    return Threw;
  }
}
