/**
 * The number of entries a trie holds, and how set and erase change it.
 *
 * The maps of src/foundation/immutable/map.h and immutablemap.h keep a
 * separate m_size next to the root. Size below counts the entries actually
 * stored, so that m_size can be compared with it: set adds one entry exactly
 * when the key was absent, erase removes one exactly when it was present.
 */
module HamtSizes {
  import opened Bits
  import opened CowArray
  import opened HamtNode
  import opened HamtTrie
  import opened HamtEraseLaws

  /** The entries stored in `n`: its inline entries plus those of every child. */
  function Size<K, V>(n: Node<K, V>): nat
    decreases n, 1
  {
    match n
    case Collision(es) => |es|
    case Inner(body) => |body.data| + SizeOf(body.children)
  }

  /** The entries stored in the subtrees `cs`, summed. */
  function SizeOf<K, V>(cs: seq<Node<K, V>>): nat
    decreases cs, 0
  {
    if |cs| == 0 then 0 else SizeOf(cs[..|cs| - 1]) + Size(cs[|cs| - 1])
  }

  // ---------------------------------------------------------------------
  // SizeOf over the sequence primitives the path-copy helpers use.

  lemma {:induction false} SizeOfAppend<K, V>(a: seq<Node<K, V>>, b: seq<Node<K, V>>)
    ensures SizeOf(a + b) == SizeOf(a) + SizeOf(b)
    decreases |b|
  {
    if |b| == 0 {
      assert a + b == a;
    } else {
      var b0 := b[..|b| - 1];
      assert (a + b)[..|a + b| - 1] == a + b0;
      assert (a + b)[|a + b| - 1] == b[|b| - 1];
      SizeOfAppend(a, b0);
    }
  }

  lemma SizeOfSingle<K, V>(c: Node<K, V>)
    ensures SizeOf([c]) == Size(c)
  {
    assert [c][..0] == [];
  }

  /** The three pieces a position splits a sequence into. */
  lemma SizeOfSplit<K, V>(s: seq<Node<K, V>>, p: nat)
    requires p < |s|
    ensures SizeOf(s) == SizeOf(s[..p]) + Size(s[p]) + SizeOf(s[p + 1..])
  {
    assert s == s[..p] + [s[p]] + s[p + 1..];
    SizeOfAppend(s[..p] + [s[p]], s[p + 1..]);
    SizeOfAppend(s[..p], [s[p]]);
    SizeOfSingle(s[p]);
  }

  /** Replacing a subtree changes the sum by the difference of the two sizes. */
  lemma SizeOfReplace<K, V>(s: seq<Node<K, V>>, p: nat, c: Node<K, V>)
    requires p < |s|
    ensures SizeOf(ReplaceAt(s, p, c)) + Size(s[p]) == SizeOf(s) + Size(c)
  {
    var r := ReplaceAt(s, p, c);
    SizeOfSplit(s, p);
    SizeOfSplit(r, p);
    assert r[..p] == s[..p] && r[p + 1..] == s[p + 1..];
  }

  /** Inserting a subtree adds its size. */
  lemma SizeOfInsert<K, V>(s: seq<Node<K, V>>, p: nat, c: Node<K, V>)
    requires p <= |s|
    ensures SizeOf(InsertAt(s, p, c)) == SizeOf(s) + Size(c)
  {
    var r := InsertAt(s, p, c);
    SizeOfSplit(r, p);
    assert r[..p] == s[..p] && r[p + 1..] == s[p..];
    assert s == s[..p] + s[p..];
    SizeOfAppend(s[..p], s[p..]);
  }

  /** Erasing a subtree subtracts its size. */
  lemma SizeOfErase<K, V>(s: seq<Node<K, V>>, p: nat)
    requires p < |s|
    ensures SizeOf(EraseAt(s, p)) + Size(s[p]) == SizeOf(s)
  {
    var r := EraseAt(s, p);
    SizeOfSplit(s, p);
    assert r == s[..p] + s[p + 1..];
    SizeOfAppend(s[..p], s[p + 1..]);
  }

  // ---------------------------------------------------------------------
  // merge

  /** merge builds a subtree holding exactly its two entries. */
  lemma {:induction false} MergeSize<K, V>(a: Entry<K, V>, ha: bv64, b: Entry<K, V>, hb: bv64, shift: nat)
    requires shift < MaxShift
    ensures Size(Merge(a, ha, b, hb, shift)) == 2
    ensures Size(MergeChild(a, ha, b, hb, shift)) == 2
    decreases MaxShift - shift
  {
    var ia := SparseIndex(ha, shift);
    var ib := SparseIndex(hb, shift);
    if shift + B < MaxShift {
      MergeSize(a, ha, b, hb, shift + B);
    }
    if ia != ib {
      MergeSpread(a, ha, b, hb, shift);
      PairDataOrder(a, ia, b, ib);
    } else {
      MergeChain(a, ha, b, hb, shift);
      SizeOfSingle(MergeChild(a, ha, b, hb, shift));
    }
  }

  // ---------------------------------------------------------------------
  // set and erase

  /** set where slot `i` holds an inline entry: one entry more unless that entry has `e`'s key. */
  lemma SizeSetInline<K, V>(body: Bitmapped<Entry<K, V>, Node<K, V>>, e: Entry<K, V>, hash: bv64, shift: nat, h: K -> bv64, i: Index)
    requires Compacted(body) && Bit(body.datamap, i) && shift < MaxShift
    ensures CountBelow(body.datamap, i) < |body.data|
    ensures Size(Inner(SetInline(body, e, hash, shift, h, i)))
            == Size(Inner(body)) + (if body.data[CountBelow(body.datamap, i)].key == e.key then 0 else 1)
  {
    RankBelow(body.datamap, i);
    var prev := body.data[CountBelow(body.datamap, i)];
    if prev.key != e.key {
      MergeSize(prev, h(prev.key), e, hash, shift);
      RankAtMost(body.nodemap, i);
      SizeOfInsert(body.children, CountBelow(body.nodemap, i), MergeChild(prev, h(prev.key), e, hash, shift));
    }
  }

  /** The count law of set at one node: one entry more exactly when the key was absent. */
  ghost predicate SetCounts<K, V>(n: Node<K, V>, e: Entry<K, V>, hash: bv64, shift: nat, h: K -> bv64)
    requires Shaped(n, shift)
  {
    Size(Set(n, e, hash, shift, h)) == Size(n) + (if Get(n, e.key, hash, shift).None? then 1 else 0)
  }

  lemma SizeSetInNode<K, V>(n: Node<K, V>, e: Entry<K, V>, hash: bv64, shift: nat, h: K -> bv64)
    requires Shaped(n, shift) && shift < MaxShift
    requires !Bit(n.body.nodemap, SparseIndex(hash, shift))
    ensures SetCounts(n, e, hash, shift, h)
  {
    var body := n.body;
    var i := SparseIndex(hash, shift);
    if Bit(body.datamap, i) {
      SlotIs(body.datamap, body.data, i);
      SizeSetInline(body, e, hash, shift, h, i);
    }
  }

  lemma {:induction false} SizeSetViaChild<K, V>(n: Node<K, V>, e: Entry<K, V>, hash: bv64, shift: nat, h: K -> bv64)
    requires Shaped(n, shift) && shift < MaxShift
    requires !Bit(n.body.datamap, SparseIndex(hash, shift)) && Bit(n.body.nodemap, SparseIndex(hash, shift))
    ensures SetCounts(n, e, hash, shift, h)
    decreases n, 0
  {
    var body := n.body;
    var i := SparseIndex(hash, shift);
    GetViaChild(body, i, shift, e.key, hash);
    var ci := CountBelow(body.nodemap, i);
    var c := body.children[ci];
    SizeSet(c, e, hash, shift + B, h);
    var c' := Set(c, e, hash, shift + B, h);
    assert Set(n, e, hash, shift, h) == Inner(ReplaceChild(body, c', ci));
    SizeOfReplace(body.children, ci, c');
  }

  /** set adds one entry exactly when the key was not stored, and otherwise keeps the count. */
  lemma {:induction false} SizeSet<K, V>(n: Node<K, V>, e: Entry<K, V>, hash: bv64, shift: nat, h: K -> bv64)
    requires Shaped(n, shift)
    ensures Size(Set(n, e, hash, shift, h)) == Size(n) + (if Get(n, e.key, hash, shift).None? then 1 else 0)
    decreases n, 1
  {
    if shift < MaxShift {
      var i := SparseIndex(hash, shift);
      if !Bit(n.body.datamap, i) && Bit(n.body.nodemap, i) {
        SizeSetViaChild(n, e, hash, shift, h);
      } else {
        DisjointIff(n.body.datamap, n.body.nodemap);
        SizeSetInNode(n, e, hash, shift, h);
      }
    }
  }

  /** erase where slot `i` holds an inline entry. */
  lemma SizeEraseInline<K, V>(body: Bitmapped<Entry<K, V>, Node<K, V>>, key: K, i: Index, shift: nat)
    requires Shaped(Inner(body), shift) && shift < MaxShift && Bit(body.datamap, i)
    ensures CountBelow(body.datamap, i) < |body.data|
    ensures EraseInline(body, key, i, shift).Unchanged? <==> body.data[CountBelow(body.datamap, i)].key != key
    ensures EraseInline(body, key, i, shift).Replaced? ==> Size(EraseInline(body, key, i, shift).node) + 1 == Size(Inner(body))
    ensures EraseInline(body, key, i, shift).Hoisted? ==> Size(Inner(body)) == 2
  {
    RankBelow(body.datamap, i);
  }

  /** The rest of erase once the child in slot `i` has answered `res`. */
  lemma SizeAfterChildErase<K, V>(body: Bitmapped<Entry<K, V>, Node<K, V>>, i: Index, shift: nat, res: EraseResult<K, V>)
    requires Compacted(body) && Bit(body.nodemap, i)
    requires CountBelow(body.nodemap, i) < |body.children|
    requires res.Replaced? ==> Size(res.node) + 1 == Size(body.children[CountBelow(body.nodemap, i)])
    requires res.Hoisted? ==> Size(body.children[CountBelow(body.nodemap, i)]) == 2
    ensures AfterChildErase(body, i, shift, res).Unchanged? <==> res.Unchanged?
    ensures AfterChildErase(body, i, shift, res).Replaced? ==> Size(AfterChildErase(body, i, shift, res).node) + 1 == Size(Inner(body))
    ensures AfterChildErase(body, i, shift, res).Hoisted? ==> Size(Inner(body)) == 2
  {
    var ci := CountBelow(body.nodemap, i);
    match res
    case Replaced(m) =>
      SizeOfReplace(body.children, ci, m);
    case Hoisted(v) =>
      SizeOfErase(body.children, ci);
      if !(shift == 0 || Popcount(body.nodemap) > 1 || Popcount(body.datamap) > 0) {
        SizeOfSingle(body.children[ci]);
        assert body.children == [body.children[ci]];
      }
    case Unchanged =>
  }

  /** erase at a node whose slot for the key holds a child: the child's count law carries over. */
  lemma {:induction false} SizeEraseViaChild<K, V>(n: Node<K, V>, key: K, hash: bv64, shift: nat)
    requires Shaped(n, shift) && shift < MaxShift
    requires !Bit(n.body.datamap, SparseIndex(hash, shift)) && Bit(n.body.nodemap, SparseIndex(hash, shift))
    ensures Erase(n, key, hash, shift).Unchanged? <==> Get(n, key, hash, shift).None?
    ensures Erase(n, key, hash, shift).Replaced? ==> Size(Erase(n, key, hash, shift).node) + 1 == Size(n)
    ensures Erase(n, key, hash, shift).Hoisted? ==> Size(n) == 2
    decreases n, 0
  {
    var body := n.body;
    var i := SparseIndex(hash, shift);
    GetViaChild(body, i, shift, key, hash);
    var c := body.children[CountBelow(body.nodemap, i)];
    SizeErase(c, key, hash, shift + B);
    SizeAfterChildErase(body, i, shift, Erase(c, key, hash, shift + B));
  }

  /**
   * erase removes one entry exactly when the key was stored: a replaced node
   * holds one entry fewer, a hoisted entry leaves a subtree that held two,
   * and Unchanged means the key was absent.
   */
  lemma {:induction false} SizeErase<K, V>(n: Node<K, V>, key: K, hash: bv64, shift: nat)
    requires Shaped(n, shift)
    ensures Erase(n, key, hash, shift).Unchanged? <==> Get(n, key, hash, shift).None?
    ensures Erase(n, key, hash, shift).Replaced? ==> Size(Erase(n, key, hash, shift).node) + 1 == Size(n)
    ensures Erase(n, key, hash, shift).Hoisted? ==> Size(n) == 2
    decreases n, 1
  {
    if shift < MaxShift {
      var i := SparseIndex(hash, shift);
      ShapedInner(n, shift);
      if Bit(n.body.datamap, i) {
        SlotIs(n.body.datamap, n.body.data, i);
        SizeEraseInline(n.body, key, i, shift);
      } else if Bit(n.body.nodemap, i) {
        SizeEraseViaChild(n, key, hash, shift);
      }
    }
  }
}
