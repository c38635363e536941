/**
 * Lookup laws of the trie algorithms: what get answers after merge, set and
 * erase, for the key that was written and for every other key.
 */
module HamtLaws {
  import opened Bits
  import opened CowArray
  import opened HamtNode
  import opened HamtTrie

  // ---------------------------------------------------------------------
  // merge

  /** The empty nodemap has no child anywhere. */
  lemma NoChildren<C>(s: seq<C>, j: Index)
    requires s == []
    ensures Popcount(0) == 0
    ensures SlotOf(0, s, j) == None
  {
    var z: bv64 := 0;
    PopcountZero(z);
    BitZero(j);
  }

  /** In a two-entry collision node, the scan finds each of two distinct keys and nothing else. */
  lemma FindPair<K, V>(a: Entry<K, V>, b: Entry<K, V>, k: K)
    requires a.key != b.key
    ensures Find([a, b], k) == if k == a.key then Some(a) else if k == b.key then Some(b) else None
  {
    assert [a, b][1..] == [b];
    assert [b][1..] == [];
    if k != a.key {
      if k == b.key {
        assert IndexOf([b], k) == Some(0);
        assert IndexOf([a, b], k) == Some(1);
      } else {
        assert IndexOf([b], k) == None;
        assert IndexOf([a, b], k) == None;
      }
    }
  }

  /** get on the inner node merge builds when the sparse indices differ. */
  lemma GetPairNode<K, V>(a: Entry<K, V>, ia: Index, b: Entry<K, V>, ib: Index, shift: nat, k: K, hk: bv64)
    requires shift < MaxShift && ia != ib && a.key != b.key
    requires k == a.key ==> SparseIndex(hk, shift) == ia
    requires k == b.key ==> SparseIndex(hk, shift) == ib
    ensures Shaped(Inner(Bitmapped((1 << ia) | (1 << ib), 0, PairData(a, ia, b, ib), [])), shift)
    ensures Get(Inner(Bitmapped((1 << ia) | (1 << ib), 0, PairData(a, ia, b, ib), [])), k, hk, shift)
            == if k == a.key then Some(a) else if k == b.key then Some(b) else None
  {
    var n: Node<K, V> := Inner(Bitmapped((1 << ia) | (1 << ib), 0, PairData(a, ia, b, ib), []));
    var j := SparseIndex(hk, shift);
    PairShaped(a, ia, b, ib, shift);
    PairSlots(a, ia, b, ib, j);
  }

  /** get on the single-child node merge builds when the sparse indices agree. */
  lemma GetChainNode<K, V>(c: Node<K, V>, i: Index, shift: nat, k: K, hk: bv64)
    requires shift < MaxShift && Shaped(c, shift + B)
    ensures Shaped(Inner(Bitmapped(0, 1 << i, [], [c])), shift)
    ensures Get(Inner(Bitmapped(0, 1 << i, [], [c])), k, hk, shift)
            == if SparseIndex(hk, shift) == i then Get(c, k, hk, shift + B) else None
  {
    var body: Bitmapped<Entry<K, V>, Node<K, V>> := Bitmapped(0, 1 << i, [], [c]);
    var j := SparseIndex(hk, shift);
    ChainShaped(c, i, shift);
    SingleSlots(i, c, j);
    NoChildren(body.data, j);
  }

  /** merge where the sparse indices differ: get answers from the two inline entries. */
  lemma GetMergeSpread<K, V>(a: Entry<K, V>, ha: bv64, b: Entry<K, V>, hb: bv64, shift: nat, k: K, hk: bv64)
    requires shift < MaxShift && a.key != b.key
    requires SparseIndex(ha, shift) != SparseIndex(hb, shift)
    requires k == a.key ==> hk == ha
    requires k == b.key ==> hk == hb
    ensures Get(Merge(a, ha, b, hb, shift), k, hk, shift)
            == if k == a.key then Some(a) else if k == b.key then Some(b) else None
  {
    var ia := SparseIndex(ha, shift);
    var ib := SparseIndex(hb, shift);
    MergeSpread(a, ha, b, hb, shift);
    GetPairNode(a, ia, b, ib, shift, k, hk);
  }

  /** merge where the sparse indices agree: get answers from the one child, one level down. */
  lemma GetMergeChain<K, V>(a: Entry<K, V>, ha: bv64, b: Entry<K, V>, hb: bv64, shift: nat, k: K, hk: bv64)
    requires shift < MaxShift
    requires SparseIndex(ha, shift) == SparseIndex(hb, shift)
    ensures Get(Merge(a, ha, b, hb, shift), k, hk, shift)
            == if SparseIndex(hk, shift) == SparseIndex(ha, shift) then Get(MergeChild(a, ha, b, hb, shift), k, hk, shift + B)
               else None
  {
    var ia := SparseIndex(ha, shift);
    var child := MergeChild(a, ha, b, hb, shift);
    var n: Node<K, V> := Inner(Bitmapped(0, 1 << ia, [], [child]));
    assert Merge(a, ha, b, hb, shift) == n by { MergeChain(a, ha, b, hb, shift); }
    assert Get(n, k, hk, shift) == if SparseIndex(hk, shift) == ia then Get(child, k, hk, shift + B) else None by {
      GetChainNode(child, ia, shift, k, hk);
    }
  }

  /**
   * get on a merged subtree finds each of the two entries under its key,
   * provided the key is looked up with the hash the entry was merged with,
   * and finds nothing under any other key.
   */
  lemma {:induction false} GetMerge<K, V>(a: Entry<K, V>, ha: bv64, b: Entry<K, V>, hb: bv64, shift: nat, k: K, hk: bv64)
    requires shift < MaxShift && a.key != b.key
    requires k == a.key ==> hk == ha
    requires k == b.key ==> hk == hb
    ensures Get(Merge(a, ha, b, hb, shift), k, hk, shift)
            == if k == a.key then Some(a) else if k == b.key then Some(b) else None
    decreases MaxShift - shift
  {
    if SparseIndex(ha, shift) != SparseIndex(hb, shift) {
      GetMergeSpread(a, ha, b, hb, shift, k, hk);
    } else {
      GetMergeChain(a, ha, b, hb, shift, k, hk);
      MergeChain(a, ha, b, hb, shift);
      if shift + B >= MaxShift {
        FindPair(a, b, k);
      } else {
        GetMerge(a, ha, b, hb, shift + B, k, hk);
      }
    }
  }

  // ---------------------------------------------------------------------
  // The collision node's scan.

  /** The scan finds the entry at `q` when `q` is the first position holding `k`. */
  lemma FindFirst<K, V>(es: seq<Entry<K, V>>, k: K, q: nat)
    requires q < |es| && es[q].key == k
    requires forall p :: 0 <= p < q ==> es[p].key != k
    ensures Find(es, k) == Some(es[q])
  {}

  /** The scan finds nothing when no position holds `k`. */
  lemma FindNone<K, V>(es: seq<Entry<K, V>>, k: K)
    requires forall p :: 0 <= p < |es| ==> es[p].key != k
    ensures Find(es, k) == None
  {}

  /** set at the collision level: the scan then finds `e` under its key and what it found before under every other key. */
  lemma FindSet<K, V>(es: seq<Entry<K, V>>, e: Entry<K, V>, k: K)
    ensures Find(SetInCollision(es, e), k) == if k == e.key then Some(e) else Find(es, k)
  {
    var r := SetInCollision(es, e);
    match IndexOf(es, e.key)
    case Some(p) =>
      assert r == ReplaceAt(es, p, e);
      if k == e.key {
        FindFirst(r, k, p);
      } else {
        match IndexOf(es, k)
        case Some(q) => FindFirst(r, k, q);
        case None => FindNone(r, k);
      }
    case None =>
      assert r == es + [e];
      if k == e.key {
        FindFirst(r, k, |es|);
      } else {
        match IndexOf(es, k)
        case Some(q) => FindFirst(r, k, q);
        case None => FindNone(r, k);
      }
  }

  // ---------------------------------------------------------------------
  // get after set

  /** get on the child merge builds one level down, as GetMerge states it for the whole merge. */
  lemma GetMergeChild<K, V>(a: Entry<K, V>, ha: bv64, b: Entry<K, V>, hb: bv64, shift: nat, k: K, hk: bv64)
    requires shift < MaxShift && a.key != b.key
    requires k == a.key ==> hk == ha
    requires k == b.key ==> hk == hb
    ensures Get(MergeChild(a, ha, b, hb, shift), k, hk, shift + B)
            == if k == a.key then Some(a) else if k == b.key then Some(b) else None
  {
    if shift + B >= MaxShift {
      assert MergeChild(a, ha, b, hb, shift) == Collision([a, b]);
      FindPair(a, b, k);
    } else {
      assert MergeChild(a, ha, b, hb, shift) == Merge(a, ha, b, hb, shift + B);
      GetMerge(a, ha, b, hb, shift + B, k, hk);
    }
  }

  /** get through a node whose child in slot `i` is replaced: keys routed to `i` are looked up in the new child. */
  lemma GetReplaceChild<K, V>(body: Bitmapped<Entry<K, V>, Node<K, V>>, c: Node<K, V>, i: Index, shift: nat, k: K, hk: bv64)
    requires Shaped(Inner(body), shift) && shift < MaxShift && Bit(body.nodemap, i) && Shaped(c, shift + B)
    ensures CountBelow(body.nodemap, i) < |body.children|
    ensures Shaped(Inner(ReplaceChild(body, c, CountBelow(body.nodemap, i))), shift)
    ensures Shaped(body.children[CountBelow(body.nodemap, i)], shift + B)
    ensures Get(Inner(ReplaceChild(body, c, CountBelow(body.nodemap, i))), k, hk, shift)
            == if SparseIndex(hk, shift) == i then Get(c, k, hk, shift + B) else Get(Inner(body), k, hk, shift)
    ensures SparseIndex(hk, shift) == i
            ==> Get(Inner(body), k, hk, shift) == Get(body.children[CountBelow(body.nodemap, i)], k, hk, shift + B)
  {
    ReplaceChildShaped(body, c, i, shift);
    ChildShaped(Inner(body), shift, i);
    ReplaceChildSlots(body, c, i, SparseIndex(hk, shift));
    SlotIs(body.nodemap, body.children, i);
    SlotsDisjoint(body, i);
  }

  /** set into an empty slot: get then finds `e` under its key and what it found before under every other key. */
  lemma GetSetEmpty<K, V>(body: Bitmapped<Entry<K, V>, Node<K, V>>, e: Entry<K, V>, i: Index, shift: nat, k: K, hk: bv64)
    requires Shaped(Inner(body), shift) && shift < MaxShift && !Bit(body.datamap, i) && !Bit(body.nodemap, i)
    requires k == e.key ==> SparseIndex(hk, shift) == i
    ensures Shaped(Inner(InsertValue(body, e, i)), shift)
    ensures Get(Inner(InsertValue(body, e, i)), k, hk, shift) == if k == e.key then Some(e) else Get(Inner(body), k, hk, shift)
  {
    hide Shaped, CountBelow, InsertValue;
    ShapedInner(Inner(body), shift);
    assert DataSlot(body, i).None? && ChildSlot(body, i).None?;
    InsertValueShaped(body, e, i, shift);
    InsertValueSlots(body, e, i, SparseIndex(hk, shift));
  }

  /** get through a node whose inline entry in slot `i` is replaced by one with the same key. */
  lemma GetReplaceValue<K, V>(body: Bitmapped<Entry<K, V>, Node<K, V>>, e: Entry<K, V>, i: Index, shift: nat, k: K, hk: bv64)
    requires Shaped(Inner(body), shift) && shift < MaxShift && Bit(body.datamap, i)
    requires CountBelow(body.datamap, i) < |body.data| && body.data[CountBelow(body.datamap, i)].key == e.key
    requires k == e.key ==> SparseIndex(hk, shift) == i
    ensures Shaped(Inner(ReplaceValue(body, e, CountBelow(body.datamap, i))), shift)
    ensures Get(Inner(ReplaceValue(body, e, CountBelow(body.datamap, i))), k, hk, shift)
            == if k == e.key then Some(e) else Get(Inner(body), k, hk, shift)
  {
    hide Shaped, CountBelow, Bit, ReplaceValue, ChildSlot;
    ShapedInner(Inner(body), shift);
    ReplaceValueShaped(body, e, i, shift);
    SlotIs(body.datamap, body.data, i);
    ReplaceValueSlots(body, e, i, SparseIndex(hk, shift));
  }

  /** get through a node whose inline entry in slot `i` is pushed down into the new child `c`. */
  lemma GetPushDown<K, V>(body: Bitmapped<Entry<K, V>, Node<K, V>>, c: Node<K, V>, i: Index, shift: nat, k: K, hk: bv64)
    requires Shaped(Inner(body), shift) && shift < MaxShift && Bit(body.datamap, i) && Shaped(c, shift + B)
    ensures CountBelow(body.datamap, i) < |body.data|
    ensures Shaped(Inner(InsertChildEraseValue(body, c, CountBelow(body.datamap, i), i)), shift)
    ensures Get(Inner(InsertChildEraseValue(body, c, CountBelow(body.datamap, i), i)), k, hk, shift)
            == if SparseIndex(hk, shift) == i then Get(c, k, hk, shift + B) else Get(Inner(body), k, hk, shift)
  {
    hide Shaped, CountBelow, Bit, InsertChildEraseValue, DataSlot, ChildSlot;
    ShapedInner(Inner(body), shift);
    InsertChildEraseValueShaped(body, c, i, shift);
    InsertChildEraseValueSlots(body, c, i, SparseIndex(hk, shift));
  }

  /** get of a key routed to a slot holding an inline entry: that entry if the keys match, otherwise nothing. */
  lemma GetInline<K, V>(body: Bitmapped<Entry<K, V>, Node<K, V>>, i: Index, shift: nat, k: K, hk: bv64)
    requires Shaped(Inner(body), shift) && shift < MaxShift && Bit(body.datamap, i) && SparseIndex(hk, shift) == i
    ensures CountBelow(body.datamap, i) < |body.data|
    ensures Get(Inner(body), k, hk, shift)
            == if body.data[CountBelow(body.datamap, i)].key == k then Some(body.data[CountBelow(body.datamap, i)]) else None
  {
    SlotIs(body.datamap, body.data, i);
  }

  /** set into a slot holding an inline entry: `e` is found under its key and every other key keeps its entry. */
  lemma GetSetInline<K, V>(body: Bitmapped<Entry<K, V>, Node<K, V>>, e: Entry<K, V>, hash: bv64, shift: nat, h: K -> bv64, i: Index, k: K)
    requires Shaped(Inner(body), shift) && shift < MaxShift && Bit(body.datamap, i)
    requires hash == h(e.key) && SparseIndex(hash, shift) == i
    ensures Shaped(Inner(SetInline(body, e, hash, shift, h, i)), shift)
    ensures Get(Inner(SetInline(body, e, hash, shift, h, i)), k, h(k), shift)
            == if k == e.key then Some(e) else Get(Inner(body), k, h(k), shift)
  {
    hide Get, MergeChild, Shaped;
    ShapedInner(Inner(body), shift);
    SetInlineShaped(body, e, hash, shift, h, i);
    var ci := CountBelow(body.datamap, i);
    RankBelow(body.datamap, i);
    var prev := body.data[ci];
    if prev.key == e.key {
      GetReplaceValue(body, e, i, shift, k, h(k));
    } else {
      var child := MergeChild(prev, h(prev.key), e, hash, shift);
      GetPushDown(body, child, i, shift, k, h(k));
      if SparseIndex(h(k), shift) == i {
        GetInline(body, i, shift, k, h(k));
      }
      GetMergeChild(prev, h(prev.key), e, hash, shift, k, h(k));
    }
  }

  /** get after set at a node whose slot for `e` holds a child: set recurses into that child. */
  lemma {:induction false} GetSetViaChild<K, V>(n: Node<K, V>, e: Entry<K, V>, hash: bv64, shift: nat, h: K -> bv64, k: K)
    requires Shaped(n, shift) && shift < MaxShift && hash == h(e.key)
    requires !Bit(n.body.datamap, SparseIndex(hash, shift)) && Bit(n.body.nodemap, SparseIndex(hash, shift))
    ensures Shaped(Set(n, e, hash, shift, h), shift)
    ensures Get(Set(n, e, hash, shift, h), k, h(k), shift) == if k == e.key then Some(e) else Get(n, k, h(k), shift)
    decreases n, 0
  {
    ShapedInner(n, shift);
    hide Shaped, Get;
    var i := SparseIndex(hash, shift);
    ChildShaped(n, shift, i);
    var c := n.body.children[CountBelow(n.body.nodemap, i)];
    GetSet(c, e, hash, shift + B, h, k);
    GetReplaceChild(n.body, Set(c, e, hash, shift + B, h), i, shift, k, h(k));
  }

  /**
   * get after set: the node set returns holds `e` under its key, and every
   * other key is found exactly as before. The hash passed to set is the hash
   * of `e`'s key, as the map facade computes it.
   */
  lemma {:induction false} GetSet<K, V>(n: Node<K, V>, e: Entry<K, V>, hash: bv64, shift: nat, h: K -> bv64, k: K)
    requires Shaped(n, shift) && hash == h(e.key)
    ensures Shaped(Set(n, e, hash, shift, h), shift)
    ensures Get(Set(n, e, hash, shift, h), k, h(k), shift) == if k == e.key then Some(e) else Get(n, k, h(k), shift)
    decreases n, 1
  {
    if shift >= MaxShift {
      SetShaped(n, e, hash, shift, h);
      FindSet(n.entries, e, k);
    } else {
      ShapedInner(n, shift);
      var i := SparseIndex(hash, shift);
      if Bit(n.body.datamap, i) {
        GetSetInline(n.body, e, hash, shift, h, i, k);
      } else if Bit(n.body.nodemap, i) {
        GetSetViaChild(n, e, hash, shift, h, k);
      } else {
        GetSetEmpty(n.body, e, i, shift, k, h(k));
      }
    }
  }

  // ---------------------------------------------------------------------
  // What set leaves behind in the receiver

  /**
   * set as written changes the trie it is called on: when the slot for `e`
   * holds the entry `prev` of another key, the receiver answered `prev.key`
   * with `prev` before the call and answers it with the moved-from value
   * after it. The two differ whenever the move changes the value.
   */
  lemma SetMovesPrevious<K, V>(body: Bitmapped<Entry<K, V>, Node<K, V>>, e: Entry<K, V>, shift: nat, h: K -> bv64, moved: V -> V, prev: Entry<K, V>)
    requires Shaped(Inner(body), shift) && shift < MaxShift && Compacted(body)
    requires DataSlot(body, SparseIndex(h(e.key), shift)) == Some(prev) && prev.key != e.key
    requires SparseIndex(h(prev.key), shift) == SparseIndex(h(e.key), shift)
    ensures Get(Inner(body), prev.key, h(prev.key), shift) == Some(prev)
    ensures Get(ReceiverAfterSet(Inner(body), e, h(e.key), shift, h, moved), prev.key, h(prev.key), shift)
            == Some(Entry(prev.key, moved(prev.value)))
  {
    var i := SparseIndex(h(e.key), shift);
    SlotIs(body.datamap, body.data, i);
    GetInline(body, i, shift, prev.key, h(prev.key));
    var left := Entry(prev.key, moved(prev.value));
    assert ReceiverAfterSet(Inner(body), e, h(e.key), shift, h, moved)
           == Inner(ReplaceValue(body, left, CountBelow(body.datamap, i)));
    GetReplaceValue(body, left, i, shift, prev.key, h(prev.key));
  }

  /**
   * The intended set copies `prev_value` into the new child instead of
   * moving it: with a move that leaves every value as it was, the receiver's
   * trie is exactly the trie before the call.
   */
  lemma {:induction false} CopyKeepsReceiver<K, V>(n: Node<K, V>, e: Entry<K, V>, hash: bv64, shift: nat, h: K -> bv64, moved: V -> V)
    requires Shaped(n, shift)
    requires forall v :: moved(v) == v
    ensures ReceiverAfterSet(n, e, hash, shift, h, moved) == n
    decreases n
  {
    if shift < MaxShift {
      ShapedInner(n, shift);
      var i := SparseIndex(hash, shift);
      if Bit(n.body.datamap, i) {
        var ci := CountBelow(n.body.datamap, i);
        RankBelow(n.body.datamap, i);
        var prev := n.body.data[ci];
        assert Entry(prev.key, moved(prev.value)) == prev;
        ReplaceLaws(n.body.data, ci, prev, prev);
      } else if Bit(n.body.nodemap, i) {
        ChildShaped(n, shift, i);
        var ci := CountBelow(n.body.nodemap, i);
        var c := n.body.children[ci];
        CopyKeepsReceiver(c, e, hash, shift + B, h, moved);
        ReplaceLaws(n.body.children, ci, c, c);
      }
    }
  }
}
