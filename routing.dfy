/**
 * The routing invariant of the trie: every entry sits on the path its key's
 * hash selects, and a collision node holds each key once. Set keeps it;
 * erase keeps it too (see HamtEraseLaws), and its laws depend on it.
 */
module HamtRouting {
  import opened Bits
  import opened CowArray
  import opened HamtNode
  import opened HamtTrie
  import opened HamtLaws

  /** No key occurs twice in a collision node. */
  ghost predicate DistinctKeys<K(!new), V>(es: seq<Entry<K, V>>) {
    forall p, q :: 0 <= p < q < |es| ==> es[p].key != es[q].key
  }

  /** Every key get finds in the child `c` (one level below `shift`) selects slot `j` at `shift`. */
  ghost predicate KeysRoutedTo<K(!new), V>(c: Node<K, V>, shift: nat, h: K -> bv64, j: Index)
    requires Shaped(c, shift + B)
  {
    forall k :: Get(c, k, h(k), shift + B).Some? ==> SparseIndex(h(k), shift) == j
  }

  /** The inline entry in slot `j`, if any, is one whose key's hash selects `j`. */
  ghost predicate DataRouted<K(!new), V>(body: Bitmapped<Entry<K, V>, Node<K, V>>, shift: nat, h: K -> bv64, j: Index)
    requires Compacted(body)
  {
    DataSlot(body, j).Some? ==> SparseIndex(h(DataSlot(body, j).value.key), shift) == j
  }

  /**
   * The routing invariant, for a shaped node at `shift` under the hash
   * function `h`: inline entries sit in the slot their hash selects, every
   * key found in a child selects that child's slot, children are routed one
   * level down, and collision nodes hold distinct keys.
   */
  ghost predicate Routed<K(!new), V>(n: Node<K, V>, shift: nat, h: K -> bv64)
    requires Shaped(n, shift)
    decreases n
  {
    if shift >= MaxShift then
      DistinctKeys(n.entries)
    else
      && (forall j: Index :: DataRouted(n.body, shift, h, j))
      && (forall j: Index :: ChildSlot(n.body, j).Some? ==>
            && Routed(ChildSlot(n.body, j).value, shift + B, h)
            && KeysRoutedTo(ChildSlot(n.body, j).value, shift, h, j))
  }

  // ---------------------------------------------------------------------
  // The path-copy helpers keep the routing invariant.

  /** Replacing an inline entry by one routed to the same slot keeps the node routed. */
  lemma RoutedReplaceValue<K(!new), V>(body: Bitmapped<Entry<K, V>, Node<K, V>>, e: Entry<K, V>, i: Index, shift: nat, h: K -> bv64)
    requires Shaped(Inner(body), shift) && shift < MaxShift && Bit(body.datamap, i)
    requires Routed(Inner(body), shift, h) && SparseIndex(h(e.key), shift) == i
    ensures CountBelow(body.datamap, i) < |body.data|
    ensures Shaped(Inner(ReplaceValue(body, e, CountBelow(body.datamap, i))), shift)
    ensures Routed(Inner(ReplaceValue(body, e, CountBelow(body.datamap, i))), shift, h)
  {
    ReplaceValueShaped(body, e, i, shift);
    var body2 := ReplaceValue(body, e, CountBelow(body.datamap, i));
    forall j: Index
      ensures DataRouted(body2, shift, h, j)
      ensures ChildSlot(body2, j) == ChildSlot(body, j)
    {
      ReplaceValueSlots(body, e, i, j);
      assert DataRouted(body, shift, h, j);
    }
  }

  /** Storing an entry routed to an empty slot keeps the node routed. */
  lemma RoutedInsertValue<K(!new), V>(body: Bitmapped<Entry<K, V>, Node<K, V>>, e: Entry<K, V>, i: Index, shift: nat, h: K -> bv64)
    requires Shaped(Inner(body), shift) && shift < MaxShift && !Bit(body.datamap, i) && !Bit(body.nodemap, i)
    requires Routed(Inner(body), shift, h) && SparseIndex(h(e.key), shift) == i
    ensures Shaped(Inner(InsertValue(body, e, i)), shift)
    ensures Routed(Inner(InsertValue(body, e, i)), shift, h)
  {
    InsertValueShaped(body, e, i, shift);
    var body2 := InsertValue(body, e, i);
    forall j: Index
      ensures DataRouted(body2, shift, h, j)
      ensures ChildSlot(body2, j) == ChildSlot(body, j)
    {
      InsertValueSlots(body, e, i, j);
      assert DataRouted(body, shift, h, j);
    }
  }

  /** Erasing an inline entry keeps the node routed. */
  lemma RoutedEraseValue<K(!new), V>(body: Bitmapped<Entry<K, V>, Node<K, V>>, i: Index, shift: nat, h: K -> bv64)
    requires Shaped(Inner(body), shift) && shift < MaxShift && Bit(body.datamap, i)
    requires shift == 0 || |body.children| > 0 || |body.data| > 2
    requires Routed(Inner(body), shift, h)
    ensures CountBelow(body.datamap, i) < |body.data|
    ensures Shaped(Inner(EraseValue(body, CountBelow(body.datamap, i), i)), shift)
    ensures Routed(Inner(EraseValue(body, CountBelow(body.datamap, i), i)), shift, h)
  {
    EraseValueShaped(body, i, shift);
    var body2 := EraseValue(body, CountBelow(body.datamap, i), i);
    forall j: Index
      ensures DataRouted(body2, shift, h, j)
      ensures ChildSlot(body2, j) == ChildSlot(body, j)
    {
      EraseValueSlots(body, i, j);
      assert DataRouted(body, shift, h, j);
    }
  }

  /** Replacing a child by a routed one whose keys select the same slot keeps the node routed. */
  lemma RoutedReplaceChild<K(!new), V>(body: Bitmapped<Entry<K, V>, Node<K, V>>, c: Node<K, V>, i: Index, shift: nat, h: K -> bv64)
    requires Shaped(Inner(body), shift) && shift < MaxShift && Bit(body.nodemap, i)
    requires Routed(Inner(body), shift, h)
    requires Shaped(c, shift + B) && Routed(c, shift + B, h) && KeysRoutedTo(c, shift, h, i)
    ensures CountBelow(body.nodemap, i) < |body.children|
    ensures Shaped(Inner(ReplaceChild(body, c, CountBelow(body.nodemap, i))), shift)
    ensures Routed(Inner(ReplaceChild(body, c, CountBelow(body.nodemap, i))), shift, h)
  {
    ReplaceChildShaped(body, c, i, shift);
    var body2 := ReplaceChild(body, c, CountBelow(body.nodemap, i));
    forall j: Index
      ensures DataRouted(body2, shift, h, j)
      ensures ChildSlot(body2, j) == if j == i then Some(c) else ChildSlot(body, j)
    {
      ReplaceChildSlots(body, c, i, j);
      assert DataRouted(body, shift, h, j);
    }
  }

  /** Turning an inline entry into a routed child whose keys select that slot keeps the node routed. */
  lemma RoutedPushDown<K(!new), V>(body: Bitmapped<Entry<K, V>, Node<K, V>>, c: Node<K, V>, i: Index, shift: nat, h: K -> bv64)
    requires Shaped(Inner(body), shift) && shift < MaxShift && Bit(body.datamap, i)
    requires Routed(Inner(body), shift, h)
    requires Shaped(c, shift + B) && Routed(c, shift + B, h) && KeysRoutedTo(c, shift, h, i)
    ensures CountBelow(body.datamap, i) < |body.data|
    ensures Shaped(Inner(InsertChildEraseValue(body, c, CountBelow(body.datamap, i), i)), shift)
    ensures Routed(Inner(InsertChildEraseValue(body, c, CountBelow(body.datamap, i), i)), shift, h)
  {
    InsertChildEraseValueShaped(body, c, i, shift);
    var body2 := InsertChildEraseValue(body, c, CountBelow(body.datamap, i), i);
    forall j: Index
      ensures DataRouted(body2, shift, h, j)
      ensures ChildSlot(body2, j) == if j == i then Some(c) else ChildSlot(body, j)
    {
      InsertChildEraseValueSlots(body, c, i, j);
      assert DataRouted(body, shift, h, j);
    }
  }

  /** Turning a child into an inline entry routed to that slot keeps the node routed. */
  lemma RoutedPullUp<K(!new), V>(body: Bitmapped<Entry<K, V>, Node<K, V>>, v: Entry<K, V>, i: Index, shift: nat, h: K -> bv64)
    requires Shaped(Inner(body), shift) && shift < MaxShift && Bit(body.nodemap, i)
    requires shift == 0 || |body.children| > 1 || |body.data| > 0
    requires Routed(Inner(body), shift, h) && SparseIndex(h(v.key), shift) == i
    ensures CountBelow(body.nodemap, i) < |body.children|
    ensures Shaped(Inner(InsertValueEraseChild(body, v, CountBelow(body.nodemap, i), i)), shift)
    ensures Routed(Inner(InsertValueEraseChild(body, v, CountBelow(body.nodemap, i), i)), shift, h)
  {
    InsertValueEraseChildShaped(body, v, i, shift);
    var body2 := InsertValueEraseChild(body, v, CountBelow(body.nodemap, i), i);
    forall j: Index
      ensures DataRouted(body2, shift, h, j)
      ensures ChildSlot(body2, j) == if j == i then None else ChildSlot(body, j)
    {
      InsertValueEraseChildSlots(body, v, i, j);
      assert DataRouted(body, shift, h, j);
    }
  }

  // ---------------------------------------------------------------------
  // Merge builds a routed subtree.

  /** The two keys the merged child holds both select slot `j`, so every key it finds does. */
  lemma MergeChildKeys<K(!new), V>(a: Entry<K, V>, b: Entry<K, V>, shift: nat, h: K -> bv64, j: Index)
    requires shift < MaxShift && a.key != b.key
    requires SparseIndex(h(a.key), shift) == j && SparseIndex(h(b.key), shift) == j
    ensures Shaped(MergeChild(a, h(a.key), b, h(b.key), shift), shift + B)
    ensures KeysRoutedTo(MergeChild(a, h(a.key), b, h(b.key), shift), shift, h, j)
  {
    forall k | Get(MergeChild(a, h(a.key), b, h(b.key), shift), k, h(k), shift + B).Some?
      ensures SparseIndex(h(k), shift) == j
    {
      GetMergeChild(a, h(a.key), b, h(b.key), shift, k, h(k));
    }
  }

  /** The subtree merge builds one level below `shift` is routed. */
  lemma {:induction false} MergeChildRouted<K(!new), V>(a: Entry<K, V>, b: Entry<K, V>, shift: nat, h: K -> bv64)
    requires shift < MaxShift && a.key != b.key
    ensures Shaped(MergeChild(a, h(a.key), b, h(b.key), shift), shift + B)
    ensures Routed(MergeChild(a, h(a.key), b, h(b.key), shift), shift + B, h)
    decreases MaxShift - shift, 0
  {
    if shift + B >= MaxShift {
      assert MergeChild(a, h(a.key), b, h(b.key), shift) == Collision([a, b]);
    } else {
      assert MergeChild(a, h(a.key), b, h(b.key), shift) == Merge(a, h(a.key), b, h(b.key), shift + B);
      MergeRouted(a, b, shift + B, h);
    }
  }

  /** The two-entry node merge builds when the sparse indices differ is routed. */
  lemma SpreadRouted<K(!new), V>(a: Entry<K, V>, ia: Index, b: Entry<K, V>, ib: Index, shift: nat, h: K -> bv64)
    requires shift < MaxShift && ia != ib
    requires SparseIndex(h(a.key), shift) == ia && SparseIndex(h(b.key), shift) == ib
    ensures Shaped(Inner(Bitmapped((1 << ia) | (1 << ib), 0, PairData(a, ia, b, ib), [])), shift)
    ensures Routed(Inner(Bitmapped((1 << ia) | (1 << ib), 0, PairData(a, ia, b, ib), [])), shift, h)
  {
    PairShaped(a, ia, b, ib, shift);
    var body: Bitmapped<Entry<K, V>, Node<K, V>> := Bitmapped((1 << ia) | (1 << ib), 0, PairData(a, ia, b, ib), []);
    forall j: Index ensures DataRouted(body, shift, h, j) && ChildSlot(body, j).None? {
      PairSlots(a, ia, b, ib, j);
      NoChildren(body.children, j);
    }
  }

  /** A node whose only slot `i` holds a routed child whose keys select `i` is routed. */
  lemma ChainRouted<K(!new), V>(c: Node<K, V>, i: Index, shift: nat, h: K -> bv64)
    requires shift < MaxShift
    requires Shaped(c, shift + B) && Routed(c, shift + B, h) && KeysRoutedTo(c, shift, h, i)
    ensures Shaped(Inner(Bitmapped(0, 1 << i, [], [c])), shift)
    ensures Routed(Inner(Bitmapped(0, 1 << i, [], [c])), shift, h)
  {
    ChainShaped(c, i, shift);
    var body: Bitmapped<Entry<K, V>, Node<K, V>> := Bitmapped(0, 1 << i, [], [c]);
    forall j: Index ensures DataSlot(body, j).None? && ChildSlot(body, j) == if j == i then Some(c) else None {
      SingleSlots(i, c, j);
      NoChildren(body.data, j);
    }
  }

  /** merge of two entries with distinct keys, each at its own hash, builds a routed node. */
  lemma {:induction false} MergeRouted<K(!new), V>(a: Entry<K, V>, b: Entry<K, V>, shift: nat, h: K -> bv64)
    requires shift < MaxShift && a.key != b.key
    ensures Routed(Merge(a, h(a.key), b, h(b.key), shift), shift, h)
    decreases MaxShift - shift, 1
  {
    var ha, hb := h(a.key), h(b.key);
    var ia, ib := SparseIndex(ha, shift), SparseIndex(hb, shift);
    if ia != ib {
      MergeSpread(a, ha, b, hb, shift);
      SpreadRouted(a, ia, b, ib, shift, h);
    } else {
      MergeChain(a, ha, b, hb, shift);
      MergeChildRouted(a, b, shift, h);
      MergeChildKeys(a, b, shift, h, ia);
      ChainRouted(MergeChild(a, ha, b, hb, shift), ia, shift, h);
    }
  }

  // ---------------------------------------------------------------------
  // set keeps the trie routed.

  /** set at the collision level keeps the keys distinct: it replaces the equal key or appends a new one. */
  lemma DistinctSetInCollision<K(!new), V>(es: seq<Entry<K, V>>, e: Entry<K, V>)
    requires DistinctKeys(es)
    ensures DistinctKeys(SetInCollision(es, e))
  {
    var r := SetInCollision(es, e);
    match IndexOf(es, e.key)
    case Some(p) =>
      assert forall q :: 0 <= q < |r| ==> r[q].key == es[q].key;
    case None =>
      assert r == es + [e];
  }

  /** set where slot `i` holds an inline entry keeps the node routed. */
  lemma SetInlineRouted<K(!new), V>(body: Bitmapped<Entry<K, V>, Node<K, V>>, e: Entry<K, V>, shift: nat, h: K -> bv64, i: Index)
    requires Shaped(Inner(body), shift) && shift < MaxShift && Bit(body.datamap, i)
    requires Routed(Inner(body), shift, h) && SparseIndex(h(e.key), shift) == i
    ensures Shaped(Inner(SetInline(body, e, h(e.key), shift, h, i)), shift)
    ensures Routed(Inner(SetInline(body, e, h(e.key), shift, h, i)), shift, h)
  {
    var ci := CompactIndex(body.datamap, i);
    SlotIs(body.datamap, body.data, i);
    var prev := body.data[ci];
    if prev.key == e.key {
      RoutedReplaceValue(body, e, i, shift, h);
    } else {
      assert SparseIndex(h(prev.key), shift) == i by {
        assert DataRouted(body, shift, h, i);
      }
      MergeChildRouted(prev, e, shift, h);
      MergeChildKeys(prev, e, shift, h, i);
      RoutedPushDown(body, MergeChild(prev, h(prev.key), e, h(e.key), shift), i, shift, h);
    }
  }

  /** After set in a child whose keys select slot `i`, every key of the new child selects `i` as well. */
  lemma SetChildKeys<K(!new), V>(c: Node<K, V>, e: Entry<K, V>, shift: nat, h: K -> bv64, i: Index)
    requires shift < MaxShift && Shaped(c, shift + B) && KeysRoutedTo(c, shift, h, i)
    requires SparseIndex(h(e.key), shift) == i
    ensures Shaped(Set(c, e, h(e.key), shift + B, h), shift + B)
    ensures KeysRoutedTo(Set(c, e, h(e.key), shift + B, h), shift, h, i)
  {
    SetShaped(c, e, h(e.key), shift + B, h);
    forall k | Get(Set(c, e, h(e.key), shift + B, h), k, h(k), shift + B).Some?
      ensures SparseIndex(h(k), shift) == i
    {
      GetSet(c, e, h(e.key), shift + B, h, k);
    }
  }

  /** The child in slot `i` of a routed node is routed, and its keys select `i`. */
  lemma ChildRouted<K(!new), V>(body: Bitmapped<Entry<K, V>, Node<K, V>>, shift: nat, h: K -> bv64, i: Index)
    requires Shaped(Inner(body), shift) && shift < MaxShift && Bit(body.nodemap, i)
    requires Routed(Inner(body), shift, h)
    ensures CountBelow(body.nodemap, i) < |body.children|
    ensures Shaped(body.children[CountBelow(body.nodemap, i)], shift + B)
    ensures Routed(body.children[CountBelow(body.nodemap, i)], shift + B, h)
    ensures KeysRoutedTo(body.children[CountBelow(body.nodemap, i)], shift, h, i)
  {
    ChildShaped(Inner(body), shift, i);
    SlotIs(body.nodemap, body.children, i);
    assert ChildSlot(body, i).Some?;
  }

  /** Replacing the child `c` in slot `i` by the result of a routed set in it keeps the node routed. */
  lemma SetChildRouted<K(!new), V>(body: Bitmapped<Entry<K, V>, Node<K, V>>, c: Node<K, V>, e: Entry<K, V>, shift: nat, h: K -> bv64, i: Index)
    requires Shaped(Inner(body), shift) && shift < MaxShift && Bit(body.nodemap, i)
    requires Routed(Inner(body), shift, h) && SparseIndex(h(e.key), shift) == i
    requires CountBelow(body.nodemap, i) < |body.children| && c == body.children[CountBelow(body.nodemap, i)]
    requires Shaped(c, shift + B) && KeysRoutedTo(c, shift, h, i)
    requires Shaped(Set(c, e, h(e.key), shift + B, h), shift + B) && Routed(Set(c, e, h(e.key), shift + B, h), shift + B, h)
    ensures Shaped(Inner(ReplaceChild(body, Set(c, e, h(e.key), shift + B, h), CountBelow(body.nodemap, i))), shift)
    ensures Routed(Inner(ReplaceChild(body, Set(c, e, h(e.key), shift + B, h), CountBelow(body.nodemap, i))), shift, h)
  {
    SetChildKeys(c, e, shift, h, i);
    RoutedReplaceChild(body, Set(c, e, h(e.key), shift + B, h), i, shift, h);
  }

  /** set routed to an inline entry of a routed node gives a routed node. */
  lemma SetInlineCase<K(!new), V>(n: Node<K, V>, e: Entry<K, V>, shift: nat, h: K -> bv64)
    requires Shaped(n, shift) && Routed(n, shift, h) && shift < MaxShift
    requires Bit(n.body.datamap, SparseIndex(h(e.key), shift))
    ensures Shaped(Set(n, e, h(e.key), shift, h), shift)
    ensures Routed(Set(n, e, h(e.key), shift, h), shift, h)
  {
    var i := SparseIndex(h(e.key), shift);
    assert Set(n, e, h(e.key), shift, h) == Inner(SetInline(n.body, e, h(e.key), shift, h, i));
    SetInlineRouted(n.body, e, shift, h, i);
  }

  /** set routed to an empty slot of a routed node gives a routed node. */
  lemma SetEmptyCase<K(!new), V>(n: Node<K, V>, e: Entry<K, V>, shift: nat, h: K -> bv64)
    requires Shaped(n, shift) && Routed(n, shift, h) && shift < MaxShift
    requires !Bit(n.body.datamap, SparseIndex(h(e.key), shift)) && !Bit(n.body.nodemap, SparseIndex(h(e.key), shift))
    ensures Shaped(Set(n, e, h(e.key), shift, h), shift)
    ensures Routed(Set(n, e, h(e.key), shift, h), shift, h)
  {
    var i := SparseIndex(h(e.key), shift);
    assert Set(n, e, h(e.key), shift, h) == Inner(InsertValue(n.body, e, i));
    RoutedInsertValue(n.body, e, i, shift, h);
  }

  /** set routed to a child replaces that child by the result of set one level down. */
  lemma SetAtChild<K(!new), V>(n: Node<K, V>, e: Entry<K, V>, hash: bv64, shift: nat, h: K -> bv64)
    requires Shaped(n, shift) && shift < MaxShift
    requires Bit(n.body.nodemap, SparseIndex(hash, shift)) && !Bit(n.body.datamap, SparseIndex(hash, shift))
    ensures CountBelow(n.body.nodemap, SparseIndex(hash, shift)) < |n.body.children|
    ensures Shaped(n.body.children[CountBelow(n.body.nodemap, SparseIndex(hash, shift))], shift + B)
    ensures Set(n, e, hash, shift, h)
            == Inner(ReplaceChild(n.body, Set(n.body.children[CountBelow(n.body.nodemap, SparseIndex(hash, shift))], e, hash, shift + B, h),
                                  CountBelow(n.body.nodemap, SparseIndex(hash, shift))))
  {
    ChildShaped(n, shift, SparseIndex(hash, shift));
  }

  /** set routed to the child `c` of a routed node gives a routed node once set in `c` does. */
  lemma SetChildCase<K(!new), V>(n: Node<K, V>, c: Node<K, V>, e: Entry<K, V>, shift: nat, h: K -> bv64)
    requires Shaped(n, shift) && Routed(n, shift, h) && shift < MaxShift
    requires Bit(n.body.nodemap, SparseIndex(h(e.key), shift)) && !Bit(n.body.datamap, SparseIndex(h(e.key), shift))
    requires CountBelow(n.body.nodemap, SparseIndex(h(e.key), shift)) < |n.body.children|
    requires c == n.body.children[CountBelow(n.body.nodemap, SparseIndex(h(e.key), shift))]
    requires Shaped(c, shift + B) && KeysRoutedTo(c, shift, h, SparseIndex(h(e.key), shift))
    requires Shaped(Set(c, e, h(e.key), shift + B, h), shift + B) && Routed(Set(c, e, h(e.key), shift + B, h), shift + B, h)
    ensures Shaped(Set(n, e, h(e.key), shift, h), shift)
    ensures Routed(Set(n, e, h(e.key), shift, h), shift, h)
  {
    var i := SparseIndex(h(e.key), shift);
    var ci := CountBelow(n.body.nodemap, i);
    SetAtChild(n, e, h(e.key), shift, h);
    SetChildRouted(n.body, c, e, shift, h, i);
  }

  /** set keeps a routed trie routed. */
  lemma {:induction false} SetRouted<K(!new), V>(n: Node<K, V>, e: Entry<K, V>, shift: nat, h: K -> bv64)
    requires Shaped(n, shift) && Routed(n, shift, h)
    ensures Shaped(Set(n, e, h(e.key), shift, h), shift)
    ensures Routed(Set(n, e, h(e.key), shift, h), shift, h)
    decreases n
  {
    if shift >= MaxShift {
      SetShaped(n, e, h(e.key), shift, h);
      DistinctSetInCollision(n.entries, e);
    } else {
      var i := SparseIndex(h(e.key), shift);
      if Bit(n.body.datamap, i) {
        SetInlineCase(n, e, shift, h);
      } else if Bit(n.body.nodemap, i) {
        ChildRouted(n.body, shift, h, i);
        var c := n.body.children[CountBelow(n.body.nodemap, i)];
        assert c in n.body.children;
        SetRouted(c, e, shift + B, h);
        SetChildCase(n, c, e, shift, h);
      } else {
        SetEmptyCase(n, e, shift, h);
      }
    }
  }
}
