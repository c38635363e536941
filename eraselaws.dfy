/**
 * Lookup laws of erase (src/foundation/immutable/detail/hamtnode.h, erase):
 * on a routed trie, erase answers Unchanged exactly when the key is absent;
 * a replacement node is routed, no longer holds the key and holds every
 * other key as before; a hoisted entry is the only other entry of a
 * dissolved subtree.
 */
module HamtEraseLaws {
  import opened Bits
  import opened CowArray
  import opened HamtNode
  import opened HamtTrie
  import opened HamtLaws
  import opened HamtRouting

  /**
   * What the result `r` of erasing `key` from the node `n` at `shift` means,
   * for lookups with the hash function `h`.
   */
  ghost predicate Erased<K(!new), V>(n: Node<K, V>, shift: nat, h: K -> bv64, key: K, r: EraseResult<K, V>)
    requires Shaped(n, shift)
  {
    match r
    case Unchanged =>
      Get(n, key, h(key), shift).None?
    case Replaced(m) =>
      && Get(n, key, h(key), shift).Some?
      && Shaped(m, shift) && Routed(m, shift, h)
      && forall k :: Get(m, k, h(k), shift) == if k == key then None else Get(n, k, h(k), shift)
    case Hoisted(v) =>
      && shift > 0 && v.key != key
      && Get(n, key, h(key), shift).Some?
      && Get(n, v.key, h(v.key), shift) == Some(v)
      && forall k :: k != key && k != v.key ==> Get(n, k, h(k), shift).None?
  }

  // ---------------------------------------------------------------------
  // The collision level.

  /** Erasing position `p` of a collision node with distinct keys drops exactly the key stored there. */
  lemma FindErase<K(!new), V>(es: seq<Entry<K, V>>, p: nat, k: K)
    requires DistinctKeys(es) && p < |es|
    ensures DistinctKeys(EraseAt(es, p))
    ensures Find(EraseAt(es, p), k) == if k == es[p].key then None else Find(es, k)
  {
    var r := EraseAt(es, p);
    assert forall q :: 0 <= q < |r| ==> r[q] == es[if q < p then q else q + 1];
    if k == es[p].key {
      FindNone(r, k);
    } else {
      match IndexOf(es, k)
      case Some(q) =>
        FindFirst(es, k, q);
        FindFirst(r, k, if q < p then q else q - 1);
      case None =>
        FindNone(r, k);
    }
  }

  /** erase at the collision level. */
  lemma CollisionErased<K(!new), V>(n: Node<K, V>, key: K, shift: nat, h: K -> bv64)
    requires Shaped(n, shift) && Routed(n, shift, h) && shift >= MaxShift
    ensures Erased(n, shift, h, key, Erase(n, key, h(key), shift))
  {
    var es := n.entries;
    match IndexOf(es, key)
    case None =>
      FindNone(es, key);
    case Some(p) =>
      FindFirst(es, key, p);
      if |es| > 2 {
        forall k ensures Find(EraseAt(es, p), k) == if k == key then None else Find(es, k) {
          FindErase(es, p, k);
        }
        FindErase(es, p, key);
      } else {
        assert es == [es[0], es[1]];
        forall k ensures Find(es, k) == if k == es[0].key then Some(es[0]) else if k == es[1].key then Some(es[1]) else None {
          FindPair(es[0], es[1], k);
        }
      }
  }

  // ---------------------------------------------------------------------
  // A slot holding an inline entry.

  /** The slots of a shaped node after its inline entry in slot `i` is erased: slot `i` is empty, the others unchanged. */
  lemma EraseValueSlotsShaped<K, V>(body: Bitmapped<Entry<K, V>, Node<K, V>>, i: Index, shift: nat, j: Index)
    requires Shaped(Inner(body), shift) && shift < MaxShift && Bit(body.datamap, i)
    requires shift == 0 || |body.children| > 0 || |body.data| > 2
    ensures CountBelow(body.datamap, i) < |body.data|
    ensures Shaped(Inner(EraseValue(body, CountBelow(body.datamap, i), i)), shift)
    ensures DataSlot(EraseValue(body, CountBelow(body.datamap, i), i), j) == if j == i then None else DataSlot(body, j)
    ensures ChildSlot(EraseValue(body, CountBelow(body.datamap, i), i), j) == if j == i then None else ChildSlot(body, j)
  {
    EraseValueShaped(body, i, shift);
    EraseValueSlots(body, i, j);
    SlotsDisjoint(body, i);
    assert DataSlot(body, i).Some?;
  }

  /** get through a node whose inline entry in slot `i` is erased: keys routed to `i` find nothing. */
  lemma GetEraseValue<K, V>(body: Bitmapped<Entry<K, V>, Node<K, V>>, i: Index, shift: nat, k: K, hk: bv64)
    requires Shaped(Inner(body), shift) && shift < MaxShift && Bit(body.datamap, i)
    requires shift == 0 || |body.children| > 0 || |body.data| > 2
    ensures CountBelow(body.datamap, i) < |body.data|
    ensures Shaped(Inner(EraseValue(body, CountBelow(body.datamap, i), i)), shift)
    ensures Get(Inner(EraseValue(body, CountBelow(body.datamap, i), i)), k, hk, shift)
            == if SparseIndex(hk, shift) == i then None else Get(Inner(body), k, hk, shift)
  {
    hide Shaped, Compacted, Popcount, CountBelow, Bit, EraseValue, DataSlot, ChildSlot;
    EraseValueSlotsShaped(body, i, shift, SparseIndex(hk, shift));
  }

  /** The inline entry at compacted position `p` sits in the slot its key's hash selects. */
  lemma EntryRouted<K(!new), V>(body: Bitmapped<Entry<K, V>, Node<K, V>>, p: nat, shift: nat, h: K -> bv64)
    requires Compacted(body) && p < |body.data| && forall j: Index :: DataRouted(body, shift, h, j)
    ensures Bit(body.datamap, SparseIndex(h(body.data[p].key), shift))
    ensures CountBelow(body.datamap, SparseIndex(h(body.data[p].key), shift)) == p
  {
    SlotOnto(body.datamap, body.data, p);
    var j: Index :| Bit(body.datamap, j) && CountBelow(body.datamap, j) == p && SlotOf(body.datamap, body.data, j) == Some(body.data[p]);
    assert DataRouted(body, shift, h, j);
  }

  /** In a routed node holding two inline entries, one of them in slot `i`, the other sits in another slot. */
  lemma OtherSlot<K(!new), V>(body: Bitmapped<Entry<K, V>, Node<K, V>>, i: Index, shift: nat, h: K -> bv64)
    requires Shaped(Inner(body), shift) && forall j: Index :: DataRouted(body, shift, h, j)
    requires Bit(body.datamap, i) && |body.data| == 2
    ensures CountBelow(body.datamap, i) < 2
    ensures var v := body.data[1 - CountBelow(body.datamap, i)];
            && SparseIndex(h(v.key), shift) != i
            && Bit(body.datamap, SparseIndex(h(v.key), shift))
            && CountBelow(body.datamap, SparseIndex(h(v.key), shift)) == 1 - CountBelow(body.datamap, i)
  {
    SlotIs(body.datamap, body.data, i);
    EntryRouted(body, 1 - CountBelow(body.datamap, i), shift, h);
  }

  /** Every inline entry of a routed node is found under its own key. */
  lemma InlineFound<K(!new), V>(body: Bitmapped<Entry<K, V>, Node<K, V>>, p: nat, shift: nat, h: K -> bv64)
    requires Shaped(Inner(body), shift) && shift < MaxShift && forall j: Index :: DataRouted(body, shift, h, j)
    requires p < |body.data|
    ensures Get(Inner(body), body.data[p].key, h(body.data[p].key), shift) == Some(body.data[p])
  {
    EntryRouted(body, p, shift, h);
    GetInline(body, SparseIndex(h(body.data[p].key), shift), shift, body.data[p].key, h(body.data[p].key));
  }

  /** Each slot of a node holding two inline entries holds one of them, if any. */
  lemma TwoEntrySlot<E, C>(body: Bitmapped<E, C>, j: Index)
    requires Compacted(body) && |body.data| == 2
    ensures DataSlot(body, j).Some? ==> DataSlot(body, j).value == body.data[0] || DataSlot(body, j).value == body.data[1]
  {
  }

  /** A node without children holding two inline entries finds no third key. */
  lemma InlineNoThird<K, V>(body: Bitmapped<Entry<K, V>, Node<K, V>>, k: K, hk: bv64, shift: nat)
    requires Shaped(Inner(body), shift) && shift < MaxShift
    requires |body.children| == 0 && |body.data| == 2
    requires k != body.data[0].key && k != body.data[1].key
    ensures Get(Inner(body), k, hk, shift).None?
  {
    TwoEntrySlot(body, SparseIndex(hk, shift));
    assert ChildSlot(body, SparseIndex(hk, shift)).None?;
  }

  /** erase of the inline entry for `key` from a node that keeps it: the node without that entry. */
  lemma InlineErasedReplaced<K(!new), V>(body: Bitmapped<Entry<K, V>, Node<K, V>>, key: K, shift: nat, h: K -> bv64)
    requires Shaped(Inner(body), shift) && Routed(Inner(body), shift, h) && shift < MaxShift
    requires Bit(body.datamap, SparseIndex(h(key), shift))
    requires CountBelow(body.datamap, SparseIndex(h(key), shift)) < |body.data|
    requires body.data[CountBelow(body.datamap, SparseIndex(h(key), shift))].key == key
    requires shift == 0 || |body.children| > 0 || |body.data| > 2
    ensures Erased(Inner(body), shift, h, key,
                   Replaced(Inner(EraseValue(body, CountBelow(body.datamap, SparseIndex(h(key), shift)), SparseIndex(h(key), shift)))))
  {
    hide Get, Shaped, Routed, EraseValue;
    var i := SparseIndex(h(key), shift);
    var ci := CountBelow(body.datamap, i);
    GetInline(body, i, shift, key, h(key));
    RoutedEraseValue(body, i, shift, h);
    forall k ensures Get(Inner(EraseValue(body, ci, i)), k, h(k), shift) == if k == key then None else Get(Inner(body), k, h(k), shift) {
      GetEraseValue(body, i, shift, k, h(k));
      if SparseIndex(h(k), shift) == i {
        GetInline(body, i, shift, k, h(k));
      }
    }
  }

  /** Of two positions, one is `c` and the other `1 - c`. */
  lemma OtherOfTwo<E>(s: seq<E>, c: nat)
    requires |s| == 2 && c < 2
    ensures (s[0] == s[c] && s[1] == s[1 - c]) || (s[1] == s[c] && s[0] == s[1 - c])
  {}

  /** The facts that make Replaced(m) the right answer for erasing `key` from `n`. */
  lemma ReplacedIntro<K(!new), V>(n: Node<K, V>, shift: nat, h: K -> bv64, key: K, m: Node<K, V>)
    requires Shaped(n, shift) && Shaped(m, shift) && Routed(m, shift, h)
    requires Get(n, key, h(key), shift).Some?
    requires forall k :: Get(m, k, h(k), shift) == if k == key then None else Get(n, k, h(k), shift)
    ensures Erased(n, shift, h, key, Replaced(m))
  {}

  /** The facts that make Hoisted(v) the right answer for erasing `key` from `n`. */
  lemma HoistedIntro<K(!new), V>(n: Node<K, V>, shift: nat, h: K -> bv64, key: K, v: Entry<K, V>)
    requires Shaped(n, shift) && shift > 0 && v.key != key
    requires Get(n, key, h(key), shift).Some? && Get(n, v.key, h(v.key), shift) == Some(v)
    requires forall k :: k != key && k != v.key ==> Get(n, k, h(k), shift).None?
    ensures Erased(n, shift, h, key, Hoisted(v))
  {}

  /** erase of the inline entry for `key` from a node below the root holding just two entries: the other one is hoisted. */
  lemma InlineErasedHoisted<K(!new), V>(body: Bitmapped<Entry<K, V>, Node<K, V>>, key: K, shift: nat, h: K -> bv64)
    requires Shaped(Inner(body), shift) && 0 < shift < MaxShift && forall j: Index :: DataRouted(body, shift, h, j)
    requires Bit(body.datamap, SparseIndex(h(key), shift)) && |body.children| == 0 && |body.data| == 2
    requires CountBelow(body.datamap, SparseIndex(h(key), shift)) < |body.data|
    requires body.data[CountBelow(body.datamap, SparseIndex(h(key), shift))].key == key
    ensures Erased(Inner(body), shift, h, key, Hoisted(body.data[1 - CountBelow(body.datamap, SparseIndex(h(key), shift))]))
  {
    hide *;
    var i := SparseIndex(h(key), shift);
    var ci := CountBelow(body.datamap, i);
    var v := body.data[1 - ci];
    OtherOfTwo(body.data, ci);
    assert Get(Inner(body), key, h(key), shift).Some? by {
      GetInline(body, i, shift, key, h(key));
    }
    assert v.key != key && Get(Inner(body), v.key, h(v.key), shift) == Some(v) by {
      OtherSlot(body, i, shift, h);
      InlineFound(body, 1 - ci, shift, h);
    }
    assert forall k :: k != key && k != v.key ==> Get(Inner(body), k, h(k), shift).None? by {
      forall k | k != key && k != v.key ensures Get(Inner(body), k, h(k), shift).None? {
        InlineNoThird(body, k, h(k), shift);
      }
    }
    HoistedIntro(Inner(body), shift, h, key, v);
  }

  /** EraseInline when the entry in slot `i` has another key. */
  lemma EraseInlineKeeps<K, V>(body: Bitmapped<Entry<K, V>, Node<K, V>>, key: K, i: Index, shift: nat)
    requires Compacted(body) && Bit(body.datamap, i) && (shift == 0 || |body.children| > 0 || |body.data| >= 2)
    requires CountBelow(body.datamap, i) < |body.data| && body.data[CountBelow(body.datamap, i)].key != key
    ensures EraseInline(body, key, i, shift) == Unchanged
  {}

  /** EraseInline when the entry in slot `i` has the key and the node keeps existing. */
  lemma EraseInlineRemoves<K, V>(body: Bitmapped<Entry<K, V>, Node<K, V>>, key: K, i: Index, shift: nat)
    requires Compacted(body) && Bit(body.datamap, i) && (shift == 0 || |body.children| > 0 || |body.data| > 2)
    requires CountBelow(body.datamap, i) < |body.data| && body.data[CountBelow(body.datamap, i)].key == key
    ensures EraseInline(body, key, i, shift) == Replaced(Inner(EraseValue(body, CountBelow(body.datamap, i), i)))
  {}

  /** EraseInline when the entry in slot `i` has the key and the node dissolves. */
  lemma EraseInlineHoists<K, V>(body: Bitmapped<Entry<K, V>, Node<K, V>>, key: K, i: Index, shift: nat)
    requires Compacted(body) && Bit(body.datamap, i) && shift > 0 && |body.children| == 0 && |body.data| == 2
    requires CountBelow(body.datamap, i) < 2 && body.data[CountBelow(body.datamap, i)].key == key
    ensures EraseInline(body, key, i, shift) == Hoisted(body.data[1 - CountBelow(body.datamap, i)])
  {}

  /** erase where the slot of `key` holds an inline entry. */
  lemma InlineErased<K(!new), V>(body: Bitmapped<Entry<K, V>, Node<K, V>>, key: K, shift: nat, h: K -> bv64)
    requires Shaped(Inner(body), shift) && Routed(Inner(body), shift, h) && shift < MaxShift
    requires Bit(body.datamap, SparseIndex(h(key), shift))
    ensures Erased(Inner(body), shift, h, key, EraseInline(body, key, SparseIndex(h(key), shift), shift))
  {
    var i := SparseIndex(h(key), shift);
    var ci := CountBelow(body.datamap, i);
    assert ci < |body.data| by {
      RankBelow(body.datamap, i);
    }
    if body.data[ci].key != key {
      EraseInlineKeeps(body, key, i, shift);
      assert Get(Inner(body), key, h(key), shift).None? by {
        GetInline(body, i, shift, key, h(key));
      }
    } else if shift == 0 || |body.children| > 0 || |body.data| > 2 {
      EraseInlineRemoves(body, key, i, shift);
      InlineErasedReplaced(body, key, shift, h);
    } else {
      EraseInlineHoists(body, key, i, shift);
      InlineErasedHoisted(body, key, shift, h);
    }
  }

  // ---------------------------------------------------------------------
  // A slot holding a child.

  /** A key found in a child whose keys select slot `i` selects `i`. */
  lemma KeyRoutedIn<K(!new), V>(c: Node<K, V>, k: K, i: Index, shift: nat, h: K -> bv64)
    requires shift < MaxShift && Shaped(c, shift + B) && KeysRoutedTo(c, shift, h, i)
    requires Get(c, k, h(k), shift + B).Some?
    ensures SparseIndex(h(k), shift) == i
  {}

  /** get of a key routed to a child's slot is get in that child. */
  lemma GetViaChild<K, V>(body: Bitmapped<Entry<K, V>, Node<K, V>>, i: Index, shift: nat, k: K, hk: bv64)
    requires Shaped(Inner(body), shift) && shift < MaxShift && Bit(body.nodemap, i) && SparseIndex(hk, shift) == i
    ensures CountBelow(body.nodemap, i) < |body.children|
    ensures Shaped(body.children[CountBelow(body.nodemap, i)], shift + B)
    ensures Get(Inner(body), k, hk, shift) == Get(body.children[CountBelow(body.nodemap, i)], k, hk, shift + B)
  {
    ChildShaped(Inner(body), shift, i);
    SlotIs(body.nodemap, body.children, i);
    SlotsDisjoint(body, i);
  }

  /** get through a node whose child in slot `i` is replaced by the inline entry `v`, for a key routed to `i`. */
  lemma GetPullUpHere<K, V>(body: Bitmapped<Entry<K, V>, Node<K, V>>, v: Entry<K, V>, i: Index, shift: nat, k: K, hk: bv64)
    requires Shaped(Inner(body), shift) && shift < MaxShift && Bit(body.nodemap, i) && SparseIndex(hk, shift) == i
    requires shift == 0 || |body.children| > 1 || |body.data| > 0
    ensures CountBelow(body.nodemap, i) < |body.children|
    ensures Shaped(Inner(InsertValueEraseChild(body, v, CountBelow(body.nodemap, i), i)), shift)
    ensures Get(Inner(InsertValueEraseChild(body, v, CountBelow(body.nodemap, i), i)), k, hk, shift)
            == if v.key == k then Some(v) else None
  {
    InsertValueEraseChildShaped(body, v, i, shift);
    InsertValueEraseChildSlots(body, v, i, i);
  }

  /** get through a node whose child in slot `i` is replaced by the inline entry `v`, for a key routed elsewhere. */
  lemma GetPullUpElsewhere<K, V>(body: Bitmapped<Entry<K, V>, Node<K, V>>, v: Entry<K, V>, i: Index, shift: nat, k: K, hk: bv64)
    requires Shaped(Inner(body), shift) && shift < MaxShift && Bit(body.nodemap, i) && SparseIndex(hk, shift) != i
    requires shift == 0 || |body.children| > 1 || |body.data| > 0
    ensures CountBelow(body.nodemap, i) < |body.children|
    ensures Shaped(Inner(InsertValueEraseChild(body, v, CountBelow(body.nodemap, i), i)), shift)
    ensures Get(Inner(InsertValueEraseChild(body, v, CountBelow(body.nodemap, i), i)), k, hk, shift) == Get(Inner(body), k, hk, shift)
  {
    InsertValueEraseChildShaped(body, v, i, shift);
    InsertValueEraseChildSlots(body, v, i, SparseIndex(hk, shift));
    GetSameSlot(body, InsertValueEraseChild(body, v, CountBelow(body.nodemap, i), i), shift, k, hk);
  }

  /** Two nodes whose slot for `hk` holds the same thing answer get alike for it. */
  lemma GetSameSlot<K, V>(b1: Bitmapped<Entry<K, V>, Node<K, V>>, b2: Bitmapped<Entry<K, V>, Node<K, V>>, shift: nat, k: K, hk: bv64)
    requires Shaped(Inner(b1), shift) && Shaped(Inner(b2), shift) && shift < MaxShift
    requires DataSlot(b1, SparseIndex(hk, shift)) == DataSlot(b2, SparseIndex(hk, shift))
    requires ChildSlot(b1, SparseIndex(hk, shift)) == ChildSlot(b2, SparseIndex(hk, shift))
    ensures Get(Inner(b1), k, hk, shift) == Get(Inner(b2), k, hk, shift)
  {}

  /** The one element of a singleton sequence. */
  lemma OnlyElement<E>(s: seq<E>, x: E)
    requires |s| == 1 && x in s
    ensures x == s[0]
  {}

  /** In a node whose only content is one child, whatever get finds it finds in that child. */
  lemma GetSingleChild<K, V>(body: Bitmapped<Entry<K, V>, Node<K, V>>, shift: nat, k: K, hk: bv64)
    requires Shaped(Inner(body), shift) && shift < MaxShift && |body.children| == 1 && |body.data| == 0
    ensures Shaped(body.children[0], shift + B)
    ensures Get(Inner(body), k, hk, shift).Some? ==> Get(body.children[0], k, hk, shift + B) == Get(Inner(body), k, hk, shift)
  {
    assert body.children[0] in body.children;
    var j := SparseIndex(hk, shift);
    assert DataSlot(body, j).None?;
    if ChildSlot(body, j).Some? {
      OnlyElement(body.children, ChildSlot(body, j).value);
    }
  }

  /** erase in the child `c` found nothing: neither does erase in the node. */
  lemma ChildErasedUnchanged<K(!new), V>(body: Bitmapped<Entry<K, V>, Node<K, V>>, c: Node<K, V>, key: K, shift: nat, h: K -> bv64)
    requires Shaped(Inner(body), shift) && shift < MaxShift && Bit(body.nodemap, SparseIndex(h(key), shift))
    requires CountBelow(body.nodemap, SparseIndex(h(key), shift)) < |body.children|
    requires c == body.children[CountBelow(body.nodemap, SparseIndex(h(key), shift))]
    requires Shaped(c, shift + B) && Erased(c, shift + B, h, key, Unchanged)
    ensures Erased(Inner(body), shift, h, key, Unchanged)
  {
    GetViaChild(body, SparseIndex(h(key), shift), shift, key, h(key));
  }

  /** get of one key through a node whose child `c` is replaced by `m`, which answers like `c` except for `key`. */
  lemma ReplacedChildGet<K, V>(body: Bitmapped<Entry<K, V>, Node<K, V>>, c: Node<K, V>, m: Node<K, V>, i: Index, key: K, shift: nat, k: K, hk: bv64)
    requires Shaped(Inner(body), shift) && shift < MaxShift && Bit(body.nodemap, i)
    requires CountBelow(body.nodemap, i) < |body.children| && c == body.children[CountBelow(body.nodemap, i)]
    requires Shaped(c, shift + B) && Shaped(m, shift + B)
    requires SparseIndex(hk, shift) != i ==> k != key
    requires Get(m, k, hk, shift + B) == if k == key then None else Get(c, k, hk, shift + B)
    ensures Shaped(Inner(ReplaceChild(body, m, CountBelow(body.nodemap, i))), shift)
    ensures Get(Inner(ReplaceChild(body, m, CountBelow(body.nodemap, i))), k, hk, shift)
            == if k == key then None else Get(Inner(body), k, hk, shift)
  {
    GetReplaceChild(body, m, i, shift, k, hk);
  }

  /** get of one key through a node whose child `c`, holding `key` and `v` only, is replaced by `v` inline. */
  lemma PulledChildGet<K, V>(body: Bitmapped<Entry<K, V>, Node<K, V>>, c: Node<K, V>, v: Entry<K, V>, i: Index, key: K, shift: nat, k: K, hk: bv64)
    requires Shaped(Inner(body), shift) && shift < MaxShift && Bit(body.nodemap, i)
    requires shift == 0 || |body.children| > 1 || |body.data| > 0
    requires CountBelow(body.nodemap, i) < |body.children| && c == body.children[CountBelow(body.nodemap, i)]
    requires Shaped(c, shift + B) && v.key != key
    requires SparseIndex(hk, shift) != i ==> k != key
    requires k != key ==> Get(c, k, hk, shift + B) == if k == v.key then Some(v) else None
    ensures Shaped(Inner(InsertValueEraseChild(body, v, CountBelow(body.nodemap, i), i)), shift)
    ensures Get(Inner(InsertValueEraseChild(body, v, CountBelow(body.nodemap, i), i)), k, hk, shift)
            == if k == key then None else Get(Inner(body), k, hk, shift)
  {
    if SparseIndex(hk, shift) == i {
      GetPullUpHere(body, v, i, shift, k, hk);
      GetViaChild(body, i, shift, k, hk);
    } else {
      GetPullUpElsewhere(body, v, i, shift, k, hk);
    }
  }

  /** A child `m` whose keys all were in the child `c` of slot `i` can take its place, and the node stays routed. */
  lemma ReplacedRouted<K(!new), V>(body: Bitmapped<Entry<K, V>, Node<K, V>>, c: Node<K, V>, m: Node<K, V>, i: Index, key: K, shift: nat, h: K -> bv64)
    requires Shaped(Inner(body), shift) && Routed(Inner(body), shift, h) && shift < MaxShift && Bit(body.nodemap, i)
    requires Shaped(c, shift + B) && KeysRoutedTo(c, shift, h, i) && Erased(c, shift + B, h, key, Replaced(m))
    ensures CountBelow(body.nodemap, i) < |body.children|
    ensures Shaped(Inner(ReplaceChild(body, m, CountBelow(body.nodemap, i))), shift)
    ensures Routed(Inner(ReplaceChild(body, m, CountBelow(body.nodemap, i))), shift, h)
  {
    hide Routed, Shaped, ReplaceChild;
    assert KeysRoutedTo(m, shift, h, i) by {
      forall k | Get(m, k, h(k), shift + B).Some? ensures SparseIndex(h(k), shift) == i {
        assert Get(c, k, h(k), shift + B).Some?;
      }
    }
    RoutedReplaceChild(body, m, i, shift, h);
  }

  /** Every key but `key` answers get alike after the child `c` is replaced by `m`, which lost just `key`. */
  lemma ReplacedGets<K(!new), V>(body: Bitmapped<Entry<K, V>, Node<K, V>>, c: Node<K, V>, m: Node<K, V>, i: Index, key: K, shift: nat, h: K -> bv64)
    requires Shaped(Inner(body), shift) && shift < MaxShift && Bit(body.nodemap, i) && SparseIndex(h(key), shift) == i
    requires CountBelow(body.nodemap, i) < |body.children| && c == body.children[CountBelow(body.nodemap, i)]
    requires Shaped(c, shift + B) && Erased(c, shift + B, h, key, Replaced(m))
    ensures Shaped(Inner(ReplaceChild(body, m, CountBelow(body.nodemap, i))), shift)
    ensures forall k :: Get(Inner(ReplaceChild(body, m, CountBelow(body.nodemap, i))), k, h(k), shift)
                        == if k == key then None else Get(Inner(body), k, h(k), shift)
  {
    ReplaceChildShaped(body, m, i, shift);
    forall k ensures Get(Inner(ReplaceChild(body, m, CountBelow(body.nodemap, i))), k, h(k), shift)
                     == if k == key then None else Get(Inner(body), k, h(k), shift) {
      ReplacedChildGet(body, c, m, i, key, shift, k, h(k));
    }
  }

  /** erase in the child `c` gave the node `m`: the node then holds `m` in its place. */
  lemma ChildErasedReplaced<K(!new), V>(body: Bitmapped<Entry<K, V>, Node<K, V>>, c: Node<K, V>, m: Node<K, V>, key: K, shift: nat, h: K -> bv64)
    requires Shaped(Inner(body), shift) && Routed(Inner(body), shift, h) && shift < MaxShift
    requires Bit(body.nodemap, SparseIndex(h(key), shift))
    requires CountBelow(body.nodemap, SparseIndex(h(key), shift)) < |body.children|
    requires c == body.children[CountBelow(body.nodemap, SparseIndex(h(key), shift))]
    requires Shaped(c, shift + B) && KeysRoutedTo(c, shift, h, SparseIndex(h(key), shift))
    requires Erased(c, shift + B, h, key, Replaced(m))
    ensures Erased(Inner(body), shift, h, key, Replaced(Inner(ReplaceChild(body, m, CountBelow(body.nodemap, SparseIndex(h(key), shift))))))
  {
    var i := SparseIndex(h(key), shift);
    ReplacedRouted(body, c, m, i, key, shift, h);
    ReplacedGets(body, c, m, i, key, shift, h);
    GetViaChild(body, i, shift, key, h(key));
  }

  /** Storing `v`, found in the child `c` of slot `i`, inline in that slot keeps the node routed. */
  lemma PulledRouted<K(!new), V>(body: Bitmapped<Entry<K, V>, Node<K, V>>, c: Node<K, V>, v: Entry<K, V>, i: Index, shift: nat, h: K -> bv64)
    requires Shaped(Inner(body), shift) && Routed(Inner(body), shift, h) && shift < MaxShift && Bit(body.nodemap, i)
    requires shift == 0 || |body.children| > 1 || |body.data| > 0
    requires Shaped(c, shift + B) && KeysRoutedTo(c, shift, h, i) && Get(c, v.key, h(v.key), shift + B).Some?
    ensures CountBelow(body.nodemap, i) < |body.children|
    ensures Shaped(Inner(InsertValueEraseChild(body, v, CountBelow(body.nodemap, i), i)), shift)
    ensures Routed(Inner(InsertValueEraseChild(body, v, CountBelow(body.nodemap, i), i)), shift, h)
  {
    KeyRoutedIn(c, v.key, i, shift, h);
    RoutedPullUp(body, v, i, shift, h);
  }

  /** Every key but `key` answers get alike after the child `c`, holding `key` and `v` only, is replaced by `v` inline. */
  lemma PulledGets<K(!new), V>(body: Bitmapped<Entry<K, V>, Node<K, V>>, c: Node<K, V>, v: Entry<K, V>, i: Index, key: K, shift: nat, h: K -> bv64)
    requires Shaped(Inner(body), shift) && shift < MaxShift && Bit(body.nodemap, i) && SparseIndex(h(key), shift) == i
    requires shift == 0 || |body.children| > 1 || |body.data| > 0
    requires CountBelow(body.nodemap, i) < |body.children| && c == body.children[CountBelow(body.nodemap, i)]
    requires Shaped(c, shift + B) && Erased(c, shift + B, h, key, Hoisted(v))
    ensures Shaped(Inner(InsertValueEraseChild(body, v, CountBelow(body.nodemap, i), i)), shift)
    ensures forall k :: Get(Inner(InsertValueEraseChild(body, v, CountBelow(body.nodemap, i), i)), k, h(k), shift)
                        == if k == key then None else Get(Inner(body), k, h(k), shift)
  {
    InsertValueEraseChildShaped(body, v, i, shift);
    forall k ensures Get(Inner(InsertValueEraseChild(body, v, CountBelow(body.nodemap, i), i)), k, h(k), shift)
                     == if k == key then None else Get(Inner(body), k, h(k), shift) {
      PulledChildGet(body, c, v, i, key, shift, k, h(k));
    }
  }

  /** erase in the child `c` hoisted `v`, and the node keeps existing: `v` is stored inline in the child's place. */
  lemma ChildErasedPulled<K(!new), V>(body: Bitmapped<Entry<K, V>, Node<K, V>>, c: Node<K, V>, v: Entry<K, V>, key: K, shift: nat, h: K -> bv64)
    requires Shaped(Inner(body), shift) && Routed(Inner(body), shift, h) && shift < MaxShift
    requires Bit(body.nodemap, SparseIndex(h(key), shift))
    requires shift == 0 || |body.children| > 1 || |body.data| > 0
    requires CountBelow(body.nodemap, SparseIndex(h(key), shift)) < |body.children|
    requires c == body.children[CountBelow(body.nodemap, SparseIndex(h(key), shift))]
    requires Shaped(c, shift + B) && KeysRoutedTo(c, shift, h, SparseIndex(h(key), shift))
    requires Erased(c, shift + B, h, key, Hoisted(v))
    ensures Erased(Inner(body), shift, h, key,
                   Replaced(Inner(InsertValueEraseChild(body, v, CountBelow(body.nodemap, SparseIndex(h(key), shift)), SparseIndex(h(key), shift)))))
  {
    var i := SparseIndex(h(key), shift);
    PulledRouted(body, c, v, i, shift, h);
    PulledGets(body, c, v, i, key, shift, h);
    GetViaChild(body, i, shift, key, h(key));
  }

  /** erase in the only child `c` of a node below the root hoisted `v`: the node dissolves and hoists `v` in turn. */
  lemma ChildErasedPassed<K(!new), V>(body: Bitmapped<Entry<K, V>, Node<K, V>>, c: Node<K, V>, v: Entry<K, V>, key: K, shift: nat, h: K -> bv64)
    requires Shaped(Inner(body), shift) && 0 < shift < MaxShift
    requires Bit(body.nodemap, SparseIndex(h(key), shift)) && |body.children| == 1 && |body.data| == 0
    requires CountBelow(body.nodemap, SparseIndex(h(key), shift)) < |body.children|
    requires c == body.children[CountBelow(body.nodemap, SparseIndex(h(key), shift))]
    requires Shaped(c, shift + B) && KeysRoutedTo(c, shift, h, SparseIndex(h(key), shift))
    requires Erased(c, shift + B, h, key, Hoisted(v))
    ensures Erased(Inner(body), shift, h, key, Hoisted(v))
  {
    var i := SparseIndex(h(key), shift);
    assert c == body.children[0];
    assert Get(Inner(body), key, h(key), shift).Some? by {
      GetViaChild(body, i, shift, key, h(key));
    }
    assert Get(Inner(body), v.key, h(v.key), shift) == Some(v) by {
      assert SparseIndex(h(v.key), shift) == i;
      GetViaChild(body, i, shift, v.key, h(v.key));
    }
    forall k | k != key && k != v.key ensures Get(Inner(body), k, h(k), shift).None? {
      GetSingleChild(body, shift, k, h(k));
    }
    HoistedIntro(Inner(body), shift, h, key, v);
  }

  /** What erase does at a node whose slot for the key holds a child `c`: it erases in `c` and adjusts. */
  lemma EraseAtChild<K(!new), V>(n: Node<K, V>, key: K, hash: bv64, shift: nat)
    requires Shaped(n, shift) && shift < MaxShift
    requires Bit(n.body.nodemap, SparseIndex(hash, shift)) && !Bit(n.body.datamap, SparseIndex(hash, shift))
    ensures CountBelow(n.body.nodemap, SparseIndex(hash, shift)) < |n.body.children|
    ensures Shaped(n.body.children[CountBelow(n.body.nodemap, SparseIndex(hash, shift))], shift + B)
    ensures Erase(n, key, hash, shift)
            == AfterChildErase(n.body, SparseIndex(hash, shift), shift,
                               Erase(n.body.children[CountBelow(n.body.nodemap, SparseIndex(hash, shift))], key, hash, shift + B))
  {
    ChildShaped(n, shift, SparseIndex(hash, shift));
  }

  /** What the node makes of each of the child's three answers. */
  lemma AfterChildEraseCases<K, V>(body: Bitmapped<Entry<K, V>, Node<K, V>>, i: Index, shift: nat, res: EraseResult<K, V>)
    requires Compacted(body) && Bit(body.nodemap, i)
    ensures CountBelow(body.nodemap, i) < |body.children|
    ensures res.Unchanged? ==> AfterChildErase(body, i, shift, res) == Unchanged
    ensures res.Replaced? ==> AfterChildErase(body, i, shift, res) == Replaced(Inner(ReplaceChild(body, res.node, CountBelow(body.nodemap, i))))
    ensures res.Hoisted? ==>
              AfterChildErase(body, i, shift, res)
              == if shift == 0 || |body.children| > 1 || |body.data| > 0
                 then Replaced(Inner(InsertValueEraseChild(body, res.entry, CountBelow(body.nodemap, i), i)))
                 else res
  {
    RankBelow(body.nodemap, i);
  }

  /** erase routed to the child `c` of a routed node meets Erased once erase in `c` does. */
  lemma ChildErased<K(!new), V>(n: Node<K, V>, c: Node<K, V>, key: K, shift: nat, h: K -> bv64)
    requires Shaped(n, shift) && Routed(n, shift, h) && shift < MaxShift
    requires Bit(n.body.nodemap, SparseIndex(h(key), shift)) && !Bit(n.body.datamap, SparseIndex(h(key), shift))
    requires CountBelow(n.body.nodemap, SparseIndex(h(key), shift)) < |n.body.children|
    requires c == n.body.children[CountBelow(n.body.nodemap, SparseIndex(h(key), shift))]
    requires Shaped(c, shift + B) && KeysRoutedTo(c, shift, h, SparseIndex(h(key), shift))
    requires Erased(c, shift + B, h, key, Erase(c, key, h(key), shift + B))
    ensures Erased(n, shift, h, key, Erase(n, key, h(key), shift))
  {
    ShapedInner(n, shift);
    hide Shaped, Get, Erase, Routed, KeysRoutedTo, Erased;
    var i := SparseIndex(h(key), shift);
    var body := n.body;
    EraseAtChild(n, key, h(key), shift);
    var res := Erase(c, key, h(key), shift + B);
    AfterChildEraseCases(body, i, shift, res);
    match res
    case Unchanged =>
      ChildErasedUnchanged(body, c, key, shift, h);
    case Replaced(m) =>
      ChildErasedReplaced(body, c, m, key, shift, h);
    case Hoisted(v) =>
      if shift == 0 || |body.children| > 1 || |body.data| > 0 {
        ChildErasedPulled(body, c, v, key, shift, h);
      } else {
        ChildErasedPassed(body, c, v, key, shift, h);
      }
  }

  /** erase at a node whose slot for the key is empty changes nothing, and the key is absent. */
  lemma EmptySlotErased<K(!new), V>(n: Node<K, V>, key: K, shift: nat, h: K -> bv64)
    requires Shaped(n, shift) && shift < MaxShift
    requires !Bit(n.body.datamap, SparseIndex(h(key), shift)) && !Bit(n.body.nodemap, SparseIndex(h(key), shift))
    ensures Erased(n, shift, h, key, Erase(n, key, h(key), shift))
  {
    assert Erase(n, key, h(key), shift) == Unchanged;
    assert DataSlot(n.body, SparseIndex(h(key), shift)).None?;
    assert ChildSlot(n.body, SparseIndex(h(key), shift)).None?;
  }

  /** erase at a node whose slot for the key holds an inline entry. */
  lemma InlineSlotErased<K(!new), V>(n: Node<K, V>, key: K, shift: nat, h: K -> bv64)
    requires Shaped(n, shift) && Routed(n, shift, h) && shift < MaxShift
    requires Bit(n.body.datamap, SparseIndex(h(key), shift))
    ensures Erased(n, shift, h, key, Erase(n, key, h(key), shift))
  {
    assert Erase(n, key, h(key), shift) == EraseInline(n.body, key, SparseIndex(h(key), shift), shift);
    InlineErased(n.body, key, shift, h);
  }

  /** One level of erase meets Erased, given that erase in the child it descends into (if any) does. */
  lemma EraseStep<K(!new), V>(n: Node<K, V>, key: K, shift: nat, h: K -> bv64)
    requires Shaped(n, shift) && Routed(n, shift, h)
    requires shift < MaxShift && Bit(n.body.nodemap, SparseIndex(h(key), shift)) && !Bit(n.body.datamap, SparseIndex(h(key), shift))
             ==> && CountBelow(n.body.nodemap, SparseIndex(h(key), shift)) < |n.body.children|
                 && var c := n.body.children[CountBelow(n.body.nodemap, SparseIndex(h(key), shift))];
                    Shaped(c, shift + B) && Erased(c, shift + B, h, key, Erase(c, key, h(key), shift + B))
    ensures Erased(n, shift, h, key, Erase(n, key, h(key), shift))
  {
    if shift >= MaxShift {
      CollisionErased(n, key, shift, h);
    } else {
      var i := SparseIndex(h(key), shift);
      if Bit(n.body.datamap, i) {
        InlineSlotErased(n, key, shift, h);
      } else if Bit(n.body.nodemap, i) {
        ChildRouted(n.body, shift, h, i);
        ChildErased(n, n.body.children[CountBelow(n.body.nodemap, i)], key, shift, h);
      } else {
        EmptySlotErased(n, key, shift, h);
      }
    }
  }

  /**
   * The erase law: on a well-shaped, routed node, erase reports Unchanged
   * exactly when the key is absent; otherwise it returns a routed node
   * answering get like the old one for every other key and None for `key`,
   * or, below the root, hands up the one other entry the node held.
   */
  lemma {:induction false} EraseLaw<K(!new), V>(n: Node<K, V>, key: K, shift: nat, h: K -> bv64)
    requires Shaped(n, shift) && Routed(n, shift, h)
    ensures Erased(n, shift, h, key, Erase(n, key, h(key), shift))
    decreases n
  {
    if shift < MaxShift && Bit(n.body.nodemap, SparseIndex(h(key), shift)) && !Bit(n.body.datamap, SparseIndex(h(key), shift)) {
      var i := SparseIndex(h(key), shift);
      ChildRouted(n.body, shift, h, i);
      var c := n.body.children[CountBelow(n.body.nodemap, i)];
      assert c in n.body.children;
      EraseLaw(c, key, shift + B, h);
    }
    EraseStep(n, key, shift, h);
  }
}
