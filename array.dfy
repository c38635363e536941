/**
 * Copy-on-write array primitives (src/foundation/immutable/detail/array.h).
 *
 * Every primitive allocates a fresh destination array, fills it from the
 * source and returns it; the source array is only read. The contents of each
 * result are specified by a function on sequences (InsertAt, ReplaceAt,
 * EraseAt), and the properties of those functions are proved once, here.
 *
 * A null pointer with size 0 (the storage of an empty node) is a null array.
 */
module CowArray {

  /** The elements of an array that may be null; null stands for no elements. */
  function Elems<T>(a: array?<T>): seq<T>
    reads a
  {
    if a == null then [] else a[..]
  }

  // ---------------------------------------------------------------------
  // Specification functions.

  /** The sequence `s` with `v` inserted before position `p`. */
  function InsertAt<T>(s: seq<T>, p: nat, v: T): (r: seq<T>)
    requires p <= |s|
    ensures |r| == |s| + 1
    ensures r[p] == v
    ensures forall i :: 0 <= i < p ==> r[i] == s[i]
    ensures forall i :: p <= i < |s| ==> r[i + 1] == s[i]
  {
    s[..p] + [v] + s[p..]
  }

  /** The sequence `s` with the element at position `p` replaced by `v`. */
  function ReplaceAt<T>(s: seq<T>, p: nat, v: T): (r: seq<T>)
    requires p < |s|
    ensures |r| == |s|
    ensures r[p] == v
    ensures forall i :: 0 <= i < |s| && i != p ==> r[i] == s[i]
  {
    s[..p] + [v] + s[p + 1..]
  }

  /** The sequence `s` without the element at position `p`. */
  function EraseAt<T>(s: seq<T>, p: nat): (r: seq<T>)
    requires p < |s|
    ensures |r| == |s| - 1
    ensures forall i :: 0 <= i < p ==> r[i] == s[i]
    ensures forall i :: p <= i < |s| - 1 ==> r[i] == s[i + 1]
  {
    s[..p] + s[p + 1..]
  }

  // ---------------------------------------------------------------------
  // Relations between the primitives.

  /** Erasing what was just inserted gives back the original sequence. */
  lemma EraseAfterInsert<T>(s: seq<T>, p: nat, v: T)
    requires p <= |s|
    ensures EraseAt(InsertAt(s, p, v), p) == s
  {
    var r := EraseAt(InsertAt(s, p, v), p);
    assert |r| == |s|;
    forall i | 0 <= i < |s| ensures r[i] == s[i] {
      if i >= p {
        assert r[i] == InsertAt(s, p, v)[i + 1];
      }
    }
  }

  /** Re-inserting the erased element where it was gives back the original sequence. */
  lemma InsertAfterErase<T>(s: seq<T>, p: nat)
    requires p < |s|
    ensures InsertAt(EraseAt(s, p), p, s[p]) == s
  {
    var e := EraseAt(s, p);
    var r := InsertAt(e, p, s[p]);
    assert |r| == |s|;
    forall i | 0 <= i < |s| ensures r[i] == s[i] {
      if i > p {
        assert r[i] == e[i - 1];
      }
    }
  }

  /** Replacing an element by itself changes nothing; replacing twice keeps the last value. */
  lemma ReplaceLaws<T>(s: seq<T>, p: nat, v: T, w: T)
    requires p < |s|
    ensures ReplaceAt(s, p, s[p]) == s
    ensures ReplaceAt(ReplaceAt(s, p, v), p, w) == ReplaceAt(s, p, w)
  {
    assert ReplaceAt(s, p, s[p]) == s;
  }

  /** Insertion adds exactly one occurrence of `v` and keeps every other element. */
  lemma InsertMultiset<T>(s: seq<T>, p: nat, v: T)
    requires p <= |s|
    ensures multiset(InsertAt(s, p, v)) == multiset(s) + multiset{v}
  {
    assert s == s[..p] + s[p..];
  }

  /** Erasure removes exactly the occurrence at `p`. */
  lemma EraseMultiset<T>(s: seq<T>, p: nat)
    requires p < |s|
    ensures multiset(EraseAt(s, p)) + multiset{s[p]} == multiset(s)
  {
    assert s == s[..p] + [s[p]] + s[p + 1..];
  }

  /** Replacement swaps one occurrence of the old element for the new one. */
  lemma ReplaceMultiset<T>(s: seq<T>, p: nat, v: T)
    requires p < |s|
    ensures multiset(ReplaceAt(s, p, v)) + multiset{s[p]} == multiset(s) + multiset{v}
  {
    assert s == s[..p] + [s[p]] + s[p + 1..];
  }

  /** Every element after an insertion is the inserted one or was there before. */
  lemma InsertMembers<T>(s: seq<T>, p: nat, v: T)
    requires p <= |s|
    ensures forall x :: x in InsertAt(s, p, v) ==> x == v || x in s
  {
    assert InsertAt(s, p, v) == s[..p] + [v] + s[p..];
  }

  /** Every element after a replacement is the new one or was there before. */
  lemma ReplaceMembers<T>(s: seq<T>, p: nat, v: T)
    requires p < |s|
    ensures forall x :: x in ReplaceAt(s, p, v) ==> x == v || x in s
  {
    assert ReplaceAt(s, p, v) == s[..p] + [v] + s[p + 1..];
  }

  /** Every element after an erasure was there before. */
  lemma EraseMembers<T>(s: seq<T>, p: nat)
    requires p < |s|
    ensures forall x :: x in EraseAt(s, p) ==> x in s
  {
    assert EraseAt(s, p) == s[..p] + s[p + 1..];
  }

  // ---------------------------------------------------------------------
  // The primitives, as the source writes them: allocate, then copy.

  /**
   * make_array(size): storage for `size` elements. The source leaves the
   * storage uninitialised; here it is filled with `init`, which callers
   * overwrite.
   */
  method MakeArray<T>(size: nat, init: T) returns (a: array<T>)
    requires size > 0
    ensures fresh(a)
    ensures a.Length == size
    ensures forall i :: 0 <= i < size ==> a[i] == init
  {
    a := new T[size](_ => init);
  }

  /** Copies `src[from..to]` into `dst[at..]` (std::uninitialized_copy). */
  method CopyRange<T>(src: array<T>, from: nat, to: nat, dst: array<T>, at: nat)
    requires from <= to <= src.Length
    requires at + (to - from) <= dst.Length
    requires src != dst
    modifies dst
    ensures dst[..at] == old(dst[..at])
    ensures dst[at..at + (to - from)] == src[from..to]
    ensures dst[at + (to - from)..] == old(dst[at + (to - from)..])
  {
    var i := from;
    while i < to
      invariant from <= i <= to
      invariant dst[..at] == old(dst[..at])
      invariant dst[at..at + (i - from)] == src[from..i]
      invariant dst[at + (i - from)..] == old(dst[at + (i - from)..])
    {
      dst[at + (i - from)] := src[i];
      i := i + 1;
    }
  }

  /** make_array(first, size): a fresh copy of a non-empty array. */
  method CopyArray<T>(src: array<T>) returns (a: array<T>)
    requires src.Length > 0
    ensures fresh(a)
    ensures a[..] == src[..]
  {
    a := MakeArray(src.Length, src[0]);
    CopyRange(src, 0, src.Length, a, 0);
    assert a[..] == a[0..src.Length];
  }

  /** make_array_insert: a fresh array holding `src` with `v` inserted before `position`. */
  method ArrayInsert<T>(src: array?<T>, position: nat, v: T) returns (a: array<T>)
    requires position <= |Elems(src)|
    ensures fresh(a)
    ensures a[..] == InsertAt(Elems(src), position, v)
  {
    if src == null {
      a := MakeArray(1, v);
      assert a[..] == [v];
      return;
    }
    var size := src.Length;
    a := MakeArray(size + 1, v);
    CopyRange(src, 0, position, a, 0);
    a[position] := v;
    assert a[..position] == src[..position];
    CopyRange(src, position, size, a, position + 1);
    assert a[..position + 1][..position] == a[..position];
    assert a[..position + 1][position] == v;
    assert a[position + 1..] == a[position + 1..position + 1 + (size - position)] == src[position..];
    Assemble(a[..], src[..], position, v);
  }

  /** A sequence that agrees with `s` before `p`, holds `v` at `p` and `s[p..]` after is InsertAt(s, p, v). */
  lemma Assemble<T>(r: seq<T>, s: seq<T>, p: nat, v: T)
    requires p <= |s| && |r| == |s| + 1
    requires r[..p] == s[..p] && r[p] == v && r[p + 1..] == s[p..]
    ensures r == InsertAt(s, p, v)
  {
    assert r == r[..p] + [r[p]] + r[p + 1..];
  }

  /** make_array_replace: a fresh array holding `src` with position `position` set to `v`. */
  method ArrayReplace<T>(src: array<T>, position: nat, v: T) returns (a: array<T>)
    requires position < src.Length
    ensures fresh(a)
    ensures a[..] == ReplaceAt(src[..], position, v)
  {
    a := MakeArray(src.Length, v);
    CopyRange(src, 0, position, a, 0);
    a[position] := v;
    assert a[..position] == src[..position];
    CopyRange(src, position + 1, src.Length, a, position + 1);
    assert a[..position + 1][..position] == a[..position];
    assert a[..position + 1][position] == v;
    assert a[position + 1..] == a[position + 1..position + 1 + (src.Length - (position + 1))] == src[position + 1..];
    AssembleReplace(a[..], src[..], position, v);
  }

  /** A sequence that agrees with `s` everywhere except at `p`, where it holds `v`, is ReplaceAt(s, p, v). */
  lemma AssembleReplace<T>(r: seq<T>, s: seq<T>, p: nat, v: T)
    requires p < |s| && |r| == |s|
    requires r[..p] == s[..p] && r[p] == v && r[p + 1..] == s[p + 1..]
    ensures r == ReplaceAt(s, p, v)
  {
    assert r == r[..p] + [r[p]] + r[p + 1..];
  }

  /**
   * make_array_erase: null when the only element is erased, otherwise a
   * fresh array holding `src` without position `position`.
   */
  method ArrayErase<T>(src: array<T>, position: nat) returns (a: array?<T>)
    requires position < src.Length
    ensures src.Length == 1 <==> a == null
    ensures a != null ==> fresh(a)
    ensures Elems(a) == EraseAt(src[..], position)
  {
    if src.Length == 1 {
      return null;
    }
    a := MakeArray(src.Length - 1, src[0]);
    CopyRange(src, 0, position, a, 0);
    CopyRange(src, position + 1, src.Length, a, position);
    assert a[..] == a[..position] + a[position..src.Length - 1];
  }
}
