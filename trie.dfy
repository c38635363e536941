/**
 * The trie algorithms of the persistent map (hamt_node::merge, set, get and
 * erase in src/foundation/immutable/detail/hamtnode.h), on node values.
 *
 * Every operation builds new nodes from the receiver and returns them; the
 * receiver is a value and so is never changed, which is the persistence the
 * source gets from `const` member functions and path copying.
 * The one exception in the source, set moving a stored value out of the
 * receiver into a new child, is modelled as a copy; ReceiverAfterSet gives
 * what the move leaves in the receiver.
 *
 * The hash is a parameter `h`; the source's hash_fn hashes an entry by its
 * key and equals_fn compares entries by key, so an entry's identity here is
 * its key.
 */
module HamtTrie {
  import opened Bits
  import opened CowArray
  import opened HamtNode

  /**
   * The structural invariant every node reached from a map's root satisfies:
   * collision nodes exactly at max_shift with at least two entries, compacted
   * inner nodes above it, and no node below the root that is empty or holds a
   * single inline entry and nothing else.
   */
  ghost predicate Shaped<K, V>(n: Node<K, V>, shift: nat)
    decreases n
  {
    && if shift >= MaxShift then
         n.Collision? && |n.entries| >= 2
       else
         && n.Inner?
         && Compacted(n.body)
         && (shift == 0 || |n.body.children| > 0 || |n.body.data| >= 2)
         && forall c :: c in n.body.children ==> Shaped(c, shift + B)
  }

  /** A shaped node above the collision level is a compacted inner node. */
  lemma ShapedInner<K, V>(n: Node<K, V>, shift: nat)
    requires Shaped(n, shift) && shift < MaxShift
    ensures n.Inner? && Compacted(n.body)
  {
  }

  /** The first position of an entry with key `key`, if any (the source's linear collision scan). */
  function IndexOf<K(==), V>(es: seq<Entry<K, V>>, key: K): (r: Option<nat>)
    ensures r.Some? ==> r.value < |es| && es[r.value].key == key
    ensures r.Some? ==> forall p :: 0 <= p < r.value ==> es[p].key != key
    ensures r.None? ==> forall p :: 0 <= p < |es| ==> es[p].key != key
  {
    if |es| == 0 then None
    else if es[0].key == key then Some(0)
    else match IndexOf(es[1..], key)
      case None => None
      case Some(p) => Some(p + 1)
  }

  /** The collision node's linear scan: the first entry whose key is `key`. */
  function Find<K(==), V>(es: seq<Entry<K, V>>, key: K): (r: Option<Entry<K, V>>)
    ensures r.Some? ==> r.value.key == key && r.value in es
    ensures r.None? ==> forall p :: 0 <= p < |es| ==> es[p].key != key
  {
    match IndexOf(es, key)
    case Some(p) => Some(es[p])
    case None => None
  }

  /** get: the entry stored for `key`, found along the path that `hash` selects. */
  function Get<K(==), V>(n: Node<K, V>, key: K, hash: bv64, shift: nat): (r: Option<Entry<K, V>>)
    requires Shaped(n, shift)
    ensures r.Some? ==> r.value.key == key
    decreases n
  {
    if shift >= MaxShift then
      Find(n.entries, key)
    else
      var i := SparseIndex(hash, shift);
      match DataSlot(n.body, i)
      case Some(e) => if e.key == key then Some(e) else None
      case None =>
        match ChildSlot(n.body, i)
        case Some(c) => Get(c, key, hash, shift + B)
        case None => None
  }

  // ---------------------------------------------------------------------
  // merge: the subtree holding two entries whose keys differ.

  /** data[a_bit > b_bit] = a and data[b_bit > a_bit] = b: the two entries ordered by their bits. */
  function PairData<E>(a: E, ia: Index, b: E, ib: Index): seq<E> {
    if (1 as bv64) << ia > (1 as bv64) << ib then [b, a] else [a, b]
  }

  /** The entry with the lower sparse index comes first. */
  lemma PairDataOrder<E>(a: E, ia: Index, b: E, ib: Index)
    ensures PairData(a, ia, b, ib) == if ia > ib then [b, a] else [a, b]
  {
    SingleBitOrder(ia, ib);
  }

  /** A bitmap with the single bit `i` and its one-element array. */
  lemma SingleSlots<T>(i: Index, c: T, j: Index)
    ensures Popcount(1 << i) == 1
    ensures SlotOf(1 << i, [c], j) == if j == i then Some(c) else None
  {
    var z: bv64 := 0;
    PopcountZero(z);
    RankAtMost(z, i);
    assert SetBit(z, i) == 1 << i;
    assert InsertAt([], CountBelow(z, i), c) == [c];
    SlotInsert(z, [], i, c, j);
    BitZero(j);
  }

  /** In the single-bit map 1 << ia a different bit ib is clear, and its rank says on which side of ia it lies. */
  lemma SingleRank(ia: Index, ib: Index)
    requires ia != ib
    ensures !Bit(1 << ia, ib)
    ensures CountBelow(1 << ia, ib) == if ia < ib then 1 else 0
  {
    var z: bv64 := 0;
    BitSingle(ia, ib);
    BitZero(ia);
    PopcountZero(z);
    RankAtMost(z, ib);
    assert SetBit(z, ia) == 1 << ia;
    CountInsertBit(z, ia, ib);
  }

  /** a_bit | b_bit is a_bit with b_bit set, and PairData is [a] with b inserted at b's rank. */
  lemma PairBuild<T>(a: T, ia: Index, b: T, ib: Index)
    requires ia != ib
    ensures CountBelow(1 << ia, ib) <= 1
    ensures SetBit(1 << ia, ib) == (1 << ia) | (1 << ib)
    ensures InsertAt([a], CountBelow(1 << ia, ib), b) == PairData(a, ia, b, ib)
  {
    SingleRank(ia, ib);
    SingleBitOrder(ia, ib);
  }

  /** The bitmap a_bit | b_bit with the array PairData holds `a` at `ia` and `b` at `ib`. */
  lemma PairSlots<T>(a: T, ia: Index, b: T, ib: Index, j: Index)
    requires ia != ib
    ensures Popcount((1 << ia) | (1 << ib)) == 2
    ensures SlotOf((1 << ia) | (1 << ib), PairData(a, ia, b, ib), j)
            == if j == ia then Some(a) else if j == ib then Some(b) else None
  {
    SingleSlots(ia, a, j);
    SingleRank(ia, ib);
    PairBuild(a, ia, b, ib);
    SlotInsert(1 << ia, [a], ib, b, j);
  }

  /** The inner node merge builds when the two entries' sparse indices differ. */
  lemma PairShaped<K, V>(a: Entry<K, V>, ia: Index, b: Entry<K, V>, ib: Index, shift: nat)
    requires shift < MaxShift && ia != ib
    ensures Shaped(Inner(Bitmapped((1 << ia) | (1 << ib), 0, PairData(a, ia, b, ib), [])), shift)
  {
    var body: Bitmapped<Entry<K, V>, Node<K, V>> := Bitmapped((1 << ia) | (1 << ib), 0, PairData(a, ia, b, ib), []);
    var z: bv64 := 0;
    PopcountZero(z);
    PairSlots(a, ia, b, ib, ia);
    assert Compacted(body);
  }

  /** The inner node merge builds when the sparse indices agree: one child at that index. */
  lemma ChainShaped<K, V>(c: Node<K, V>, i: Index, shift: nat)
    requires shift < MaxShift && Shaped(c, shift + B)
    ensures Shaped(Inner(Bitmapped(0, 1 << i, [], [c])), shift)
  {
    var body: Bitmapped<Entry<K, V>, Node<K, V>> := Bitmapped(0, 1 << i, [], [c]);
    var z: bv64 := 0;
    PopcountZero(z);
    SingleSlots(i, c, i);
    assert Compacted(body);
  }

  /**
   * merge: the subtree at `shift` holding `a` (with hash `ha`) and `b` (with
   * hash `hb`). Both entries become inline entries of one inner node once their
   * sparse indices differ; until then each level is a node with a single
   * child, and a collision node of the two once every hash bit is consumed.
   */
  function Merge<K, V>(a: Entry<K, V>, ha: bv64, b: Entry<K, V>, hb: bv64, shift: nat): (r: Node<K, V>)
    requires shift < MaxShift
    ensures Shaped(r, shift)
    decreases MaxShift - shift, 1
  {
    var ia := SparseIndex(ha, shift);
    var ib := SparseIndex(hb, shift);
    if ia != ib then
      PairShaped(a, ia, b, ib, shift);
      Inner(Bitmapped((1 << ia) | (1 << ib), 0, PairData(a, ia, b, ib), []))
    else
      var child := MergeChild(a, ha, b, hb, shift);
      ChainShaped(child, ia, shift);
      Inner(Bitmapped(0, 1 << ia, [], [child]))
  }

  /** The single child merge places one level down when the sparse indices at `shift` agree. */
  function MergeChild<K, V>(a: Entry<K, V>, ha: bv64, b: Entry<K, V>, hb: bv64, shift: nat): (r: Node<K, V>)
    requires shift < MaxShift
    ensures Shaped(r, shift + B)
    decreases MaxShift - shift, 0
  {
    if shift + B >= MaxShift then Collision([a, b]) else Merge(a, ha, b, hb, shift + B)
  }

  /**
   * merge with different sparse indices: one inner node holding both entries
   * inline under a_bit | b_bit, in the order PairDataOrder states.
   */
  lemma MergeSpread<K, V>(a: Entry<K, V>, ha: bv64, b: Entry<K, V>, hb: bv64, shift: nat)
    requires shift < MaxShift && SparseIndex(ha, shift) != SparseIndex(hb, shift)
    ensures Merge(a, ha, b, hb, shift)
            == Inner(Bitmapped((1 << SparseIndex(ha, shift)) | (1 << SparseIndex(hb, shift)), 0,
                               PairData(a, SparseIndex(ha, shift), b, SparseIndex(hb, shift)), []))
  {}

  /**
   * merge with equal sparse indices: a node with the single child at that
   * index, which is the two-entry collision node once shift + B reaches
   * max_shift and the merge one level down before that.
   */
  lemma MergeChain<K, V>(a: Entry<K, V>, ha: bv64, b: Entry<K, V>, hb: bv64, shift: nat)
    requires shift < MaxShift && SparseIndex(ha, shift) == SparseIndex(hb, shift)
    ensures Merge(a, ha, b, hb, shift) == Inner(Bitmapped(0, 1 << SparseIndex(ha, shift), [], [MergeChild(a, ha, b, hb, shift)]))
    ensures MergeChild(a, ha, b, hb, shift)
            == if shift + B >= MaxShift then Collision([a, b]) else Merge(a, ha, b, hb, shift + B)
  {}

  // ---------------------------------------------------------------------
  // The path-copy helpers keep a node shaped.

  /** The child in slot `i` of a shaped inner node is shaped one level down. */
  lemma ChildShaped<K, V>(n: Node<K, V>, shift: nat, i: Index)
    requires Shaped(n, shift) && shift < MaxShift && Bit(n.body.nodemap, i)
    ensures CountBelow(n.body.nodemap, i) < |n.body.children|
    ensures Shaped(n.body.children[CountBelow(n.body.nodemap, i)], shift + B)
  {
    RankBelow(n.body.nodemap, i);
    assert n.body.children[CountBelow(n.body.nodemap, i)] in n.body.children;
  }

  lemma ReplaceValueShaped<K, V>(body: Bitmapped<Entry<K, V>, Node<K, V>>, e: Entry<K, V>, i: Index, shift: nat)
    requires Shaped(Inner(body), shift) && shift < MaxShift && Bit(body.datamap, i)
    ensures CountBelow(body.datamap, i) < |body.data|
    ensures Shaped(Inner(ReplaceValue(body, e, CountBelow(body.datamap, i))), shift)
  {
    ReplaceValueSlots(body, e, i, i);
  }

  lemma InsertValueShaped<K, V>(body: Bitmapped<Entry<K, V>, Node<K, V>>, e: Entry<K, V>, i: Index, shift: nat)
    requires Shaped(Inner(body), shift) && shift < MaxShift
    requires !Bit(body.datamap, i) && !Bit(body.nodemap, i)
    ensures Shaped(Inner(InsertValue(body, e, i)), shift)
  {
    InsertValueCompacted(body, e, i);
  }

  lemma InsertChildEraseValueShaped<K, V>(body: Bitmapped<Entry<K, V>, Node<K, V>>, c: Node<K, V>, i: Index, shift: nat)
    requires Shaped(Inner(body), shift) && shift < MaxShift && Bit(body.datamap, i)
    requires Shaped(c, shift + B)
    ensures CountBelow(body.datamap, i) < |body.data|
    ensures Shaped(Inner(InsertChildEraseValue(body, c, CountBelow(body.datamap, i), i)), shift)
  {
    InsertChildEraseValueCompacted(body, c, i);
    RankAtMost(body.nodemap, i);
    InsertMembers(body.children, CountBelow(body.nodemap, i), c);
  }

  lemma ReplaceChildShaped<K, V>(body: Bitmapped<Entry<K, V>, Node<K, V>>, c: Node<K, V>, i: Index, shift: nat)
    requires Shaped(Inner(body), shift) && shift < MaxShift && Bit(body.nodemap, i)
    requires Shaped(c, shift + B)
    ensures CountBelow(body.nodemap, i) < |body.children|
    ensures Shaped(Inner(ReplaceChild(body, c, CountBelow(body.nodemap, i))), shift)
  {
    ReplaceChildSlots(body, c, i, i);
    ReplaceMembers(body.children, CountBelow(body.nodemap, i), c);
  }

  lemma EraseValueShaped<K, V>(body: Bitmapped<Entry<K, V>, Node<K, V>>, i: Index, shift: nat)
    requires Shaped(Inner(body), shift) && shift < MaxShift && Bit(body.datamap, i)
    requires shift == 0 || |body.children| > 0 || |body.data| > 2
    ensures CountBelow(body.datamap, i) < |body.data|
    ensures Shaped(Inner(EraseValue(body, CountBelow(body.datamap, i), i)), shift)
  {
    EraseValueCompacted(body, i);
  }

  lemma InsertValueEraseChildShaped<K, V>(body: Bitmapped<Entry<K, V>, Node<K, V>>, e: Entry<K, V>, i: Index, shift: nat)
    requires Shaped(Inner(body), shift) && shift < MaxShift && Bit(body.nodemap, i)
    requires shift == 0 || |body.children| > 1 || |body.data| > 0
    ensures CountBelow(body.nodemap, i) < |body.children|
    ensures Shaped(Inner(InsertValueEraseChild(body, e, CountBelow(body.nodemap, i), i)), shift)
  {
    InsertValueEraseChildCompacted(body, e, i);
    EraseMembers(body.children, CountBelow(body.nodemap, i));
  }

  // ---------------------------------------------------------------------
  // set

  /** set at the collision level: replace the first entry with an equal key, or append. */
  function SetInCollision<K(==), V>(es: seq<Entry<K, V>>, e: Entry<K, V>): (r: seq<Entry<K, V>>)
    ensures e in r
    ensures (forall p :: 0 <= p < |es| ==> es[p].key != e.key) ==> r == es + [e]
    ensures (exists p :: 0 <= p < |es| && es[p].key == e.key) ==> |r| == |es|
  {
    match IndexOf(es, e.key)
    case Some(p) => ReplaceCollision(es, e, p)
    case None => InsertCollision(es, e)
  }

  /**
   * set where slot `i` holds an inline entry: replace it when its key is
   * `e`'s, otherwise push both entries down into a new child (a collision
   * node at the last level, otherwise a merge, which is the only place the
   * stored entry's hash is computed).
   */
  function SetInline<K(==), V>(body: Bitmapped<Entry<K, V>, Node<K, V>>, e: Entry<K, V>, hash: bv64, shift: nat, h: K -> bv64, i: Index)
    : Bitmapped<Entry<K, V>, Node<K, V>>
    requires Compacted(body) && Bit(body.datamap, i) && shift < MaxShift
  {
    var ci := CompactIndex(body.datamap, i);
    RankBelow(body.datamap, i);
    var prev := body.data[ci];
    if prev.key == e.key then
      ReplaceValue(body, e, ci)
    else
      InsertChildEraseValue(body, MergeChild(prev, h(prev.key), e, hash, shift), ci, i)
  }

  /**
   * set: the node at `shift` with `e` stored under its key, where `hash` is
   * the hash of that key and `h` the hash function. A key routed to a child
   * is set in that child and the child replaced; an empty slot receives `e`
   * inline.
   */
  function Set<K(==), V>(n: Node<K, V>, e: Entry<K, V>, hash: bv64, shift: nat, h: K -> bv64): (r: Node<K, V>)
    requires Shaped(n, shift)
    ensures r.Inner? <==> shift < MaxShift
    decreases n
  {
    if shift >= MaxShift then
      Collision(SetInCollision(n.entries, e))
    else
      var i := SparseIndex(hash, shift);
      if Bit(n.body.datamap, i) then
        Inner(SetInline(n.body, e, hash, shift, h, i))
      else if Bit(n.body.nodemap, i) then
        var ci := CompactIndex(n.body.nodemap, i);
        ChildShaped(n, shift, i);
        Inner(ReplaceChild(n.body, Set(n.body.children[ci], e, hash, shift + B, h), ci))
      else
        Inner(InsertValue(n.body, e, i))
  }

  /**
   * The receiver's trie as set leaves it in the source. `prev_value`
   * (hamtnode.h:593) is a reference into the receiver's own data array, and
   * when its key differs from `e`'s, make_collision_n or merge
   * move-constructs the new child's entry from it (lines 604-605, 611-613).
   * The key is const and is copied; the stored value is left as the move
   * leaves it, which `moved` gives. Child nodes are shared, so a move inside
   * a child is seen through the receiver. Replacing a value, inserting into
   * an empty slot and the collision level move only `e`.
   */
  function ReceiverAfterSet<K(==), V>(n: Node<K, V>, e: Entry<K, V>, hash: bv64, shift: nat, h: K -> bv64, moved: V -> V): (r: Node<K, V>)
    requires Shaped(n, shift)
    ensures r.Inner? <==> n.Inner?
    decreases n
  {
    if shift >= MaxShift then
      n
    else
      var i := SparseIndex(hash, shift);
      if Bit(n.body.datamap, i) then
        var ci := CompactIndex(n.body.datamap, i);
        RankBelow(n.body.datamap, i);
        var prev := n.body.data[ci];
        if prev.key == e.key then n
        else Inner(ReplaceValue(n.body, Entry(prev.key, moved(prev.value)), ci))
      else if Bit(n.body.nodemap, i) then
        var ci := CompactIndex(n.body.nodemap, i);
        ChildShaped(n, shift, i);
        Inner(ReplaceChild(n.body, ReceiverAfterSet(n.body.children[ci], e, hash, shift + B, h, moved), ci))
      else
        n
  }

  lemma SetInlineShaped<K, V>(body: Bitmapped<Entry<K, V>, Node<K, V>>, e: Entry<K, V>, hash: bv64, shift: nat, h: K -> bv64, i: Index)
    requires Shaped(Inner(body), shift) && shift < MaxShift && Bit(body.datamap, i)
    ensures Shaped(Inner(SetInline(body, e, hash, shift, h, i)), shift)
  {
    RankBelow(body.datamap, i);
    var prev := body.data[CountBelow(body.datamap, i)];
    if prev.key == e.key {
      ReplaceValueShaped(body, e, i, shift);
    } else {
      InsertChildEraseValueShaped(body, MergeChild(prev, h(prev.key), e, hash, shift), i, shift);
    }
  }

  /** set keeps the structural invariant. */
  lemma {:induction false} SetShaped<K, V>(n: Node<K, V>, e: Entry<K, V>, hash: bv64, shift: nat, h: K -> bv64)
    requires Shaped(n, shift)
    ensures Shaped(Set(n, e, hash, shift, h), shift)
    decreases n
  {
    if shift < MaxShift {
      var i := SparseIndex(hash, shift);
      if Bit(n.body.datamap, i) {
        SetInlineShaped(n.body, e, hash, shift, h, i);
      } else if Bit(n.body.nodemap, i) {
        ChildShaped(n, shift, i);
        var c := n.body.children[CountBelow(n.body.nodemap, i)];
        SetShaped(c, e, hash, shift + B, h);
        ReplaceChildShaped(n.body, Set(c, e, hash, shift + B, h), i, shift);
      } else {
        InsertValueShaped(n.body, e, i, shift);
      }
    }
  }

  // ---------------------------------------------------------------------
  // erase

  /**
   * erase at the collision level: drop the entry for `key`, or, when only
   * two entries remain, hand the other one up (Hoisted).
   */
  function EraseFromCollision<K(==), V>(es: seq<Entry<K, V>>, key: K): (r: EraseResult<K, V>)
    requires |es| >= 2
    ensures r.Unchanged? <==> forall p :: 0 <= p < |es| ==> es[p].key != key
    ensures r.Hoisted? ==> |es| == 2 && r.entry in es
    ensures r.Replaced? ==> r.node.Collision? && |r.node.entries| == |es| - 1
  {
    match IndexOf(es, key)
    case None => Unchanged
    case Some(p) =>
      if |es| > 2 then Replaced(Collision(EraseCollision(es, p)))
      else Hoisted(es[if p == 0 then 1 else 0])
  }

  /**
   * erase where slot `i` holds an inline entry. Unchanged when its key is not
   * `key`. Otherwise the entry is erased, except in a node below the root
   * that holds no child and just two entries: that node dissolves and hands
   * the other entry up.
   */
  function EraseInline<K(==), V>(body: Bitmapped<Entry<K, V>, Node<K, V>>, key: K, i: Index, shift: nat): (r: EraseResult<K, V>)
    requires Compacted(body) && Bit(body.datamap, i)
    requires shift == 0 || |body.children| > 0 || |body.data| >= 2
    ensures r.Hoisted? ==> shift > 0 && r.entry in body.data
    ensures r.Replaced? ==> r.node.Inner? && |r.node.body.data| == |body.data| - 1
  {
    var ci := CompactIndex(body.datamap, i);
    RankBelow(body.datamap, i);
    if body.data[ci].key != key then
      Unchanged
    else if shift == 0 || Popcount(body.nodemap) > 0 || Popcount(body.datamap) > 2 then
      Replaced(Inner(EraseValue(body, ci, i)))
    else
      Hoisted(body.data[if ci == 0 then 1 else 0])
  }

  /**
   * The rest of erase once the child in slot `i` has answered `res`: a new
   * child replaces the old one; a hoisted entry is stored inline in the
   * child's place, unless this node is below the root and would then hold
   * only that entry, in which case it is passed further up.
   */
  function AfterChildErase<K, V>(body: Bitmapped<Entry<K, V>, Node<K, V>>, i: Index, shift: nat, res: EraseResult<K, V>): (r: EraseResult<K, V>)
    requires Compacted(body) && Bit(body.nodemap, i)
    ensures r.Unchanged? <==> res.Unchanged?
    ensures r.Hoisted? ==> shift > 0 && r == res
  {
    var ci := CompactIndex(body.nodemap, i);
    RankBelow(body.nodemap, i);
    match res
    case Replaced(c) => Replaced(Inner(ReplaceChild(body, c, ci)))
    case Hoisted(v) =>
      if shift == 0 || Popcount(body.nodemap) > 1 || Popcount(body.datamap) > 0 then
        Replaced(Inner(InsertValueEraseChild(body, v, ci, i)))
      else
        Hoisted(v)
    case Unchanged => Unchanged
  }

  /**
   * erase: the node at `shift` without the entry for `key`, where `hash` is
   * the hash of that key; Unchanged when the key is absent.
   */
  function Erase<K(==), V>(n: Node<K, V>, key: K, hash: bv64, shift: nat): (r: EraseResult<K, V>)
    requires Shaped(n, shift)
    ensures r.Hoisted? ==> shift > 0
    decreases n
  {
    if shift >= MaxShift then
      EraseFromCollision(n.entries, key)
    else
      var i := SparseIndex(hash, shift);
      if Bit(n.body.datamap, i) then
        EraseInline(n.body, key, i, shift)
      else if Bit(n.body.nodemap, i) then
        ChildShaped(n, shift, i);
        var c := n.body.children[CompactIndex(n.body.nodemap, i)];
        AfterChildErase(n.body, i, shift, Erase(c, key, hash, shift + B))
      else
        Unchanged
  }

  lemma EraseInlineShaped<K, V>(body: Bitmapped<Entry<K, V>, Node<K, V>>, key: K, i: Index, shift: nat)
    requires Shaped(Inner(body), shift) && shift < MaxShift && Bit(body.datamap, i)
    ensures EraseInline(body, key, i, shift).Replaced? ==> Shaped(EraseInline(body, key, i, shift).node, shift)
    ensures EraseInline(body, key, i, shift).Hoisted? ==> shift > 0
  {
    if shift == 0 || Popcount(body.nodemap) > 0 || Popcount(body.datamap) > 2 {
      EraseValueShaped(body, i, shift);
    }
  }

  lemma AfterChildEraseShaped<K, V>(body: Bitmapped<Entry<K, V>, Node<K, V>>, i: Index, shift: nat, res: EraseResult<K, V>)
    requires Shaped(Inner(body), shift) && shift < MaxShift && Bit(body.nodemap, i)
    requires res.Replaced? ==> Shaped(res.node, shift + B)
    ensures AfterChildErase(body, i, shift, res).Replaced? ==> Shaped(AfterChildErase(body, i, shift, res).node, shift)
    ensures AfterChildErase(body, i, shift, res).Hoisted? ==> shift > 0
  {
    match res
    case Replaced(c) => ReplaceChildShaped(body, c, i, shift);
    case Hoisted(v) =>
      if shift == 0 || Popcount(body.nodemap) > 1 || Popcount(body.datamap) > 0 {
        InsertValueEraseChildShaped(body, v, i, shift);
      }
    case Unchanged =>
  }

  /** erase keeps the structural invariant, and the root never hoists. */
  lemma {:induction false} EraseShaped<K, V>(n: Node<K, V>, key: K, hash: bv64, shift: nat)
    requires Shaped(n, shift)
    ensures Erase(n, key, hash, shift).Replaced? ==> Shaped(Erase(n, key, hash, shift).node, shift)
    ensures Erase(n, key, hash, shift).Hoisted? ==> shift > 0
    decreases n
  {
    if shift < MaxShift {
      var i := SparseIndex(hash, shift);
      if Bit(n.body.datamap, i) {
        EraseInlineShaped(n.body, key, i, shift);
      } else if Bit(n.body.nodemap, i) {
        ChildShaped(n, shift, i);
        var c := n.body.children[CountBelow(n.body.nodemap, i)];
        EraseShaped(c, key, hash, shift + B);
        AfterChildEraseShaped(n.body, i, shift, Erase(c, key, hash, shift + B));
      }
    }
  }
}
