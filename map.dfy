/**
 * The map facade of src/foundation/immutable/map.h, which
 * src/foundation/immutable/immutablemap.h repeats without iterators.
 *
 * A map is a root node and a size counter (m_size). Nodes never change once
 * built (set's move out of the receiver is modelled as a copy; see
 * HamtTrie.ReceiverAfterSet), so the root is modelled by its value, a
 * HamtNode.Node, together with the identity and reference count the heap
 * gives it (class Root). Every lookup hashes the key with the map's hash
 * function `h` and starts at shift 0.
 *
 * MapValue holds what get, set, erase and size compute; class Map adds the
 * reference counting of the root done by the constructors, the assignment
 * and the destructor.
 */
module HamtMap {
  import opened Bits
  import opened HamtNode
  import opened HamtTrie
  import opened HamtLaws
  import opened HamtRouting
  import opened HamtEraseLaws
  import opened HamtSizes
  import opened Refcount
  import opened HamtHeap
  import opened HamtIterator

  /** The root of a map that lookups with hash function `h` can rely on. */
  ghost predicate Wellformed<K(!new), V>(root: Node<K, V>, h: K -> bv64) {
    Shaped(root, 0) && Routed(root, 0, h)
  }

  /** set at the root: the law of lookups and the law of the entry count. */
  lemma SetAtRoot<K(!new), V>(n: Node<K, V>, e: Entry<K, V>, h: K -> bv64)
    requires Wellformed(n, h)
    ensures Wellformed(HamtTrie.Set(n, e, h(e.key), 0, h), h)
    ensures HamtSizes.Size(HamtTrie.Set(n, e, h(e.key), 0, h))
            == HamtSizes.Size(n) + (if HamtTrie.Get(n, e.key, h(e.key), 0).None? then 1 else 0)
    ensures forall k :: HamtTrie.Get(HamtTrie.Set(n, e, h(e.key), 0, h), k, h(k), 0)
                        == if k == e.key then Some(e) else HamtTrie.Get(n, k, h(k), 0)
  {
    SetRouted(n, e, 0, h);
    SizeSet(n, e, h(e.key), 0, h);
    forall k ensures HamtTrie.Get(HamtTrie.Set(n, e, h(e.key), 0, h), k, h(k), 0)
                     == if k == e.key then Some(e) else HamtTrie.Get(n, k, h(k), 0) {
      GetSet(n, e, h(e.key), 0, h, k);
    }
  }

  /** erase at the root never hoists; a replaced root lacks the key, keeps the rest and holds one entry fewer. */
  lemma EraseAtRoot<K(!new), V>(n: Node<K, V>, key: K, h: K -> bv64)
    requires Wellformed(n, h)
    ensures !HamtTrie.Erase(n, key, h(key), 0).Hoisted?
    ensures HamtTrie.Erase(n, key, h(key), 0).Unchanged? <==> HamtTrie.Get(n, key, h(key), 0).None?
    ensures HamtTrie.Erase(n, key, h(key), 0).Replaced? ==>
              && Wellformed(HamtTrie.Erase(n, key, h(key), 0).node, h)
              && HamtSizes.Size(HamtTrie.Erase(n, key, h(key), 0).node) + 1 == HamtSizes.Size(n)
              && forall k :: HamtTrie.Get(HamtTrie.Erase(n, key, h(key), 0).node, k, h(k), 0)
                             == if k == key then None else HamtTrie.Get(n, k, h(k), 0)
  {
    EraseShaped(n, key, h(key), 0);
    EraseLaw(n, key, 0, h);
    SizeErase(n, key, h(key), 0);
  }

  /** A map as a value: the root node and m_size. */
  datatype MapValue<K(==, !new), V> = MapValue(root: Node<K, V>, size: nat)
  {
    /**
     * What every map satisfies, whichever set is used: a well-formed root
     * and a counter that never falls below the entries stored.
     */
    ghost predicate Valid(h: K -> bv64) {
      Wellformed(root, h) && HamtSizes.Size(root) <= size
    }

    /** The counter equals the number of entries stored. */
    ghost predicate Counted() {
      size == HamtSizes.Size(root)
    }

    /** get: the value stored for `key`, if any. */
    function Get(key: K, h: K -> bv64): (r: Option<V>)
      requires Shaped(root, 0)
      ensures r.Some? <==> HamtTrie.Get(root, key, h(key), 0).Some?
      ensures r.Some? ==> HamtTrie.Get(root, key, h(key), 0) == Some(Entry(key, r.value))
    {
      match HamtTrie.Get(root, key, h(key), 0)
      case Some(e) => Some(e.value)
      case None => None
    }

    /**
     * set as written: the root set returns a node in every case, so the
     * counter grows by one even when `key` was already stored.
     */
    function SetAsWritten(key: K, value: V, h: K -> bv64): (r: MapValue<K, V>)
      requires Valid(h)
      ensures r.Valid(h)
      ensures forall k :: r.Get(k, h) == if k == key then Some(value) else Get(k, h)
      ensures r.size == size + 1
    {
      var e := Entry(key, value);
      SetAtRoot(root, e, h);
      MapValue(HamtTrie.Set(root, e, h(key), 0, h), size + 1)
    }

    /** set: `key` maps to `value`, every other key keeps its value, and the counter counts a new key only. */
    function Set(key: K, value: V, h: K -> bv64): (r: MapValue<K, V>)
      requires Valid(h)
      ensures r.Valid(h)
      ensures Counted() ==> r.Counted()
      ensures forall k :: r.Get(k, h) == if k == key then Some(value) else Get(k, h)
      ensures r.size == if Get(key, h).None? then size + 1 else size
    {
      var e := Entry(key, value);
      SetAtRoot(root, e, h);
      var present := HamtTrie.Get(root, key, h(key), 0).Some?;
      MapValue(HamtTrie.Set(root, e, h(key), 0, h), if present then size else size + 1)
    }

    /**
     * erase: `key` is absent afterwards and every other key keeps its value;
     * the counter drops by one exactly when the key was stored. The root
     * never hands up a single entry, so the branch the source asserts
     * against cannot be taken.
     */
    function Erase(key: K, h: K -> bv64): (r: MapValue<K, V>)
      requires Valid(h)
      ensures r.Valid(h)
      ensures Counted() ==> r.Counted()
      ensures forall k :: r.Get(k, h) == if k == key then None else Get(k, h)
      ensures r.size == if Get(key, h).Some? then size - 1 else size
    {
      EraseAtRoot(root, key, h);
      match HamtTrie.Erase(root, key, h(key), 0)
      case Replaced(n) => MapValue(n, size - 1)
      case Hoisted(_) => assert false; this
      case Unchanged => this
    }
  }

  /** map(): an empty inner root and a zero counter. */
  function Empty<K(==, !new), V>(): (r: MapValue<K, V>)
    ensures r.size == 0 && r.Counted()
    ensures forall h: K -> bv64 :: r.Valid(h)
    ensures forall h: K -> bv64, k :: r.Get(k, h) == None
  {
    var r := MapValue(EmptyInner(), 0);
    forall h: K -> bv64 ensures r.Valid(h) {
      EmptyRouted<K, V>(h);
    }
    r
  }

  /** The empty inner node is shaped and routed, and holds no entry. */
  lemma EmptyRouted<K(!new), V>(h: K -> bv64)
    ensures Wellformed(EmptyInner<K, V>(), h)
    ensures HamtSizes.Size(EmptyInner<K, V>()) == 0
  {
    var body: Bitmapped<Entry<K, V>, Node<K, V>> := EmptyInner<K, V>().body;
    NoChildren(body.data, 0);
    assert Compacted(body);
    forall j: Index ensures DataSlot(body, j).None? && ChildSlot(body, j).None? {
      NoChildren(body.data, j);
      NoChildren(body.children, j);
    }
  }

  /**
   * set twice with one key, as written: the counter says two while a single
   * entry is stored and only that key is found.
   */
  lemma SetTwiceAsWritten<K(!new), V>(key: K, v: V, w: V, h: K -> bv64)
    ensures var m := Empty<K, V>().SetAsWritten(key, v, h).SetAsWritten(key, w, h);
            && m.size == 2 && HamtSizes.Size(m.root) == 1 && !m.Counted()
            && forall k :: m.Get(k, h) == if k == key then Some(w) else None
  {
    var m0 := Empty<K, V>();
    var m1 := m0.SetAsWritten(key, v, h);
    EmptyRouted<K, V>(h);
    SetAtRoot(m0.root, Entry(key, v), h);
    SetAtRoot(m1.root, Entry(key, w), h);
    assert m1.Get(key, h) == Some(v);
  }

  /**
   * What operator== compares by value: the kind, and then the two bitmaps
   * and the inline entries of inner nodes, or the entries of collision nodes.
   */
  predicate ShallowEqual<K(==), V(==)>(a: Node<K, V>, b: Node<K, V>) {
    match a
    case Inner(x) =>
      b.Inner? && x.datamap == b.body.datamap && x.nodemap == b.body.nodemap && x.data == b.body.data
    case Collision(es) => b.Collision? && es == b.entries
  }

  /** A node whose comparison involves no child pointer. */
  predicate Childless<K, V>(n: Node<K, V>) {
    n.Collision? || |n.body.children| == 0
  }

  /** A root node as a map holds it: the node and the reference count it carries. */
  class Root<K, V> {
    const node: Node<K, V>
    const rc: Refcounted

    /** A node just built: its count is 1. */
    constructor(node: Node<K, V>)
      ensures this.node == node
      ensures fresh(rc) && fresh(rc.cell) && rc.cell.count == 1 && rc.cell.live
    {
      this.node := node;
      rc := new Refcounted();
    }
  }

  /** map: m_root (null once moved from), m_size and the hash function. */
  class Map<K(==, !new), V(==)> {
    var root: Root?<K, V>
    var size: nat
    const h: K -> bv64

    /** The map as a value. */
    function Value(): MapValue<K, V>
      reads this, root
      requires root != null
    {
      MapValue(root.node, size)
    }

    ghost predicate Valid()
      reads this, root
    {
      root != null && Value().Valid(h)
    }

    /** map(): a new empty inner root with count 1 and size 0. */
    constructor(h: K -> bv64)
      ensures this.h == h && Valid() && Value() == Empty()
      ensures fresh(root) && fresh(root.rc.cell) && root.rc.cell.count == 1 && root.rc.cell.live
    {
      this.h := h;
      var e := Empty<K, V>();
      root := new Root(e.root);
      size := 0;
    }

    /** The private map(node_t*, size): adopts a node without touching its count. */
    constructor FromRoot(root: Root<K, V>, size: nat, h: K -> bv64)
      ensures this.root == root && this.size == size && this.h == h
    {
      this.root := root;
      this.size := size;
      this.h := h;
    }

    /** map(const map&): shares the other map's root, whose count grows by one. */
    constructor Copy(other: Map<K, V>)
      requires other.root != null && other.root.rc.cell.live
      modifies other.root.rc.cell
      ensures h == other.h && root == other.root && size == other.size
      ensures root.rc.cell.count == old(other.root.rc.cell.count) + 1 && root.rc.cell.live
    {
      h := other.h;
      root := other.root;
      size := other.size;
      new;
      root.rc.Inc();
    }

    /** map(map&&): takes the other map's root and size; the other is left with neither. */
    constructor Move(other: Map<K, V>)
      modifies other
      ensures h == other.h && root == old(other.root) && size == old(other.size)
      ensures other.root == null && other.size == 0
    {
      h := other.h;
      root := other.root;
      size := other.size;
      new;
      other.root := null;
      other.size := 0;
    }

    /**
     * operator=(map other): swaps root and size with the by-value argument,
     * whose destructor then releases what this map held. No count changes.
     */
    method Assign(other: Map<K, V>)
      requires other != this && other.h == h
      modifies this, other
      ensures root == old(other.root) && size == old(other.size)
      ensures other.root == old(root) && other.size == old(size)
    {
      root, other.root := other.root, root;
      size, other.size := other.size, size;
    }

    /** set: a new map on a new root with count 1, holding what MapValue.Set computes. */
    method Set(key: K, value: V) returns (m: Map<K, V>)
      requires Valid()
      ensures fresh(m) && fresh(m.root) && fresh(m.root.rc.cell) && m.root.rc.cell.count == 1 && m.root.rc.cell.live
      ensures m.h == h && m.Valid() && m.Value() == Value().Set(key, value, h)
    {
      var v := Value().Set(key, value, h);
      var r := new Root(v.root);
      m := new Map.FromRoot(r, v.size, h);
    }

    /**
     * erase: a new map on a new root when the key was stored; otherwise a
     * copy of this map, which shares its root and adds one to the count.
     */
    method Erase(key: K) returns (m: Map<K, V>)
      requires Valid() && root.rc.cell.live
      modifies root.rc.cell
      ensures m.h == h && m.Valid() && m.Value() == Value().Erase(key, h)
      ensures Value().Get(key, h).Some? ==>
                && fresh(m.root) && fresh(m.root.rc.cell) && m.root.rc.cell.count == 1 && m.root.rc.cell.live
                && root.rc.cell.count == old(root.rc.cell.count)
      ensures Value().Get(key, h).None? ==>
                m.root == root && root.rc.cell.count == old(root.rc.cell.count) + 1
    {
      EraseAtRoot(root.node, key, h);
      var res := HamtTrie.Erase(root.node, key, h(key), 0);
      if res.Replaced? {
        var r := new Root(res.node);
        m := new Map.FromRoot(r, size - 1, h);
      } else {
        m := new Map.Copy(this);
      }
    }

    /**
     * operator==: true when both maps share their root; otherwise the
     * roots are compared as `hamt_node::operator==` does, kind, bitmaps and
     * entries by value and children by pointer. A root value holds no child
     * pointers, so two distinct roots with children are never taken to share
     * them.
     */
    method Equals(other: Map<K, V>) returns (r: bool)
      requires root != null && other.root != null
      ensures root == other.root ==> r
      ensures !ShallowEqual(root.node, other.root.node) ==> r == (root == other.root)
      ensures Childless(root.node) && Childless(other.root.node) ==> (r <==> root == other.root || ShallowEqual(root.node, other.root.node))
      ensures r ==> root.node == other.root.node
      ensures r && Valid() && other.Valid() && other.h == h ==>
                forall k :: Value().Get(k, h) == other.Value().Get(k, h)
    {
      if root == other.root {
        return true;
      }
      r := ShallowEqual(root.node, other.root.node) && Childless(root.node) && Childless(other.root.node);
    }

    /**
     * begin(): an iterator over this map's root, at its first entry or at the
     * end when the root holds nothing.
     */
    method Begin() returns (it: Iterator<K, V>)
      requires Valid() && Tidy(root.node, MaxDepth)
      ensures fresh(it) && it.Valid() && it.root == root.node
      ensures it.depth == -1 <==> |root.node.body.children| == 0 && |root.node.body.data| == 0
      ensures it.depth >= 0 ==> it.Path() == Leftmost(root.node) && it.dataId == 0
    {
      it := new Iterator(root.node);
    }

    /** end(): the end iterator. */
    method End() returns (it: Iterator<K, V>)
      ensures fresh(it) && it.Valid() && it.depth == -1
    {
      it := new Iterator.End();
    }

    /**
     * ~map as written: the last owner's dec brings the count to 0 before the
     * node is destroyed, and the counter's own destructor then finds it not
     * unique, so the count cell is never deleted.
     */
    method DestroyAsWritten(heap: Allocator)
      requires root != null ==> root.rc.cell.live
      modifies heap, if root != null then {root.rc.cell} else {}
      ensures root != null ==> root.rc.cell.count == old(root.rc.cell.count) - 1
      ensures root != null && old(root.rc.cell.count) == 1 ==> heap.freed == old(heap.freed) + {root} && root.rc.cell.live
      ensures root != null && old(root.rc.cell.count) != 1 ==> heap.freed == old(heap.freed) && root.rc.cell.live
      ensures root == null ==> heap.freed == old(heap.freed)
    {
      if root != null {
        var last := root.rc.Dec();
        if last {
          root.rc.Destroy();
          var o: object := root;
          heap.freed := heap.freed + {o};
        }
      }
    }

    /** ~map: the last owner frees the node and deletes its count cell; any other owner only drops the count. */
    method Destroy(heap: Allocator)
      requires root != null ==> root.rc.cell.live
      modifies heap, if root != null then {root.rc.cell} else {}
      ensures root != null ==> root.rc.cell.count == old(root.rc.cell.count) - 1
      ensures root != null && old(root.rc.cell.count) == 1 ==> heap.freed == old(heap.freed) + {root} && !root.rc.cell.live
      ensures root != null && old(root.rc.cell.count) != 1 ==> heap.freed == old(heap.freed) && root.rc.cell.live
      ensures root == null ==> heap.freed == old(heap.freed)
    {
      if root != null {
        var last := root.rc.Dec();
        if last {
          root.rc.Release();
          var o: object := root;
          heap.freed := heap.freed + {o};
        }
      }
    }
  }
}
