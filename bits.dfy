/**
 * Bit helpers of the trie: the depth and shift limits for a branching factor,
 * the per-level index mask, and the population count of a 64-bit bitmap
 * (src/foundation/immutable/detail/bits.h).
 *
 * Bitmaps and hashes are 64-bit vectors. A bit position is a 7-bit vector
 * below 64, so that shifting by it stays in bit-vector arithmetic.
 */
module Bits {

  /** Width of the hash (HashType is size_t, 64 bits). */
  const HashBits: nat := 64

  /** A position in a 64-bit bitmap. */
  type Index = i: bv7 | i < 64

  /**
   * Is bit `i` of `x` set? Stated bit by bit from the low end, so that the
   * verifier looks at one bit at a time; BitTest relates it to the shift
   * and mask the source writes.
   */
  predicate Bit(x: bv64, i: Index)
    decreases i
  {
    if i == 0 then x & 1 == 1 else Bit(x >> 1, i - 1)
  }

  /** Number of set bits of `x` among positions 0 .. n-1. */
  function CountBelow(x: bv64, n: bv7): nat
    requires n <= 64
    decreases n
  {
    if n == 0 then 0 else CountBelow(x, n - 1) + (if Bit(x, n - 1) then 1 else 0)
  }

  /** max_depth<B>: the number of B-bit slices needed to cover the hash. */
  function MaxDepthOf(b: nat): (r: nat)
    requires 0 < b
    ensures r * b >= HashBits && (r - 1) * b < HashBits
  {
    var r := (HashBits + b - 1) / b;
    assert HashBits + b - 1 == r * b + (HashBits + b - 1) % b;
    r
  }

  /** max_shift<B>: the shift at which every hash bit has been consumed. */
  function MaxShiftOf(b: nat): (r: nat)
    requires 0 < b
    ensures HashBits <= r < HashBits + b
  {
    var d := MaxDepthOf(b);
    Distribute(d, b);
    d * b
  }

  lemma Distribute(d: nat, b: nat)
    ensures (d - 1) * b == d * b - b
  {}

  /** mask<B>: the low `b` bits set, every other bit clear. */
  function Mask(b: bv7): (r: bv64)
    requires b < 64
    ensures forall i: Index :: Bit(r, i) <==> i < b
  {
    MaskBits(b, ((1 as bv64) << b) - 1);
    ((1 as bv64) << b) - 1
  }

  /** popcount: the number of set bits of a 64-bit value. */
  function Popcount(x: bv64): (r: nat)
    ensures r <= 64
  {
    CountBelowBound(x, 64);
    CountBelow(x, 64)
  }

  /** A bitmap has no set bits exactly when it is zero. */
  lemma PopcountZero(x: bv64)
    ensures Popcount(x) == 0 <==> x == 0
  {
    CountBelowZero(x, 64);
    ZeroIffNoBit(x);
  }

  // ---------------------------------------------------------------------
  // Single-bit facts (pure bit-vector reasoning).

  lemma ShiftOne(x: bv64, i: Index)
    requires i > 0
    ensures ((x >> 1) >> (i - 1)) & 1 == (x >> i) & 1
  {}

  /** Bit `i` of `x` is the low bit of `x >> i`. */
  lemma {:induction false} BitShift(x: bv64, i: Index)
    ensures Bit(x, i) == ((x >> i) & 1 == 1)
    decreases i
  {
    if i > 0 {
      BitShift(x >> 1, i - 1);
      ShiftOne(x, i);
    }
  }

  lemma BitMaskTest(x: bv64, i: Index)
    ensures (x >> i) & 1 == 1 <==> (1 << i) & x != 0
  {}

  /** The source tests a bitmap as `bit & map`; that test is Bit. */
  lemma BitTest(m: bv64, i: Index)
    ensures (1 << i) & m != 0 <==> Bit(m, i)
  {
    BitShift(m, i);
    BitMaskTest(m, i);
  }

  lemma OrLow(a: bv64, b: bv64, i: Index)
    ensures ((a | b) >> i) & 1 == 1 <==> ((a >> i) & 1 == 1 || (b >> i) & 1 == 1)
  {}

  lemma AndLow(a: bv64, b: bv64, i: Index)
    ensures ((a & b) >> i) & 1 == 1 <==> ((a >> i) & 1 == 1 && (b >> i) & 1 == 1)
  {}

  lemma SingleLow(j: Index, i: Index)
    ensures (((1 as bv64) << j) >> i) & 1 == 1 <==> i == j
  {}

  lemma BelowMaskLow(m: bv64, j: Index, i: Index)
    ensures ((m & ((1 << j) - 1)) >> i) & 1 == 1 <==> ((m >> i) & 1 == 1 && i < j)
  {}

  lemma AllOnesLow(i: Index)
    ensures ((!(0 as bv64)) >> i) & 1 == 1
  {}

  lemma AllOnesAnd(x: bv64)
    ensures !(0 as bv64) & x == x
  {}

  lemma NotSingleLow(j: Index, i: Index)
    ensures ((!((1 as bv64) << j)) >> i) & 1 == 1 <==> i != j
  {}

  lemma MaskBits(b: bv7, r: bv64)
    requires b < 64 && r == ((1 as bv64) << b) - 1
    ensures forall i: Index :: Bit(r, i) <==> i < b
  {
    forall i: Index ensures Bit(r, i) <==> i < b {
      BitBelowMask(!0, b, i);
      BitShift(!0, i);
      AllOnesLow(i);
      AllOnesAnd(r);
    }
  }

  lemma BitOr(a: bv64, b: bv64, i: Index)
    ensures Bit(a | b, i) == (Bit(a, i) || Bit(b, i))
  {
    BitShift(a | b, i);
    BitShift(a, i);
    BitShift(b, i);
    OrLow(a, b, i);
  }

  lemma BitAnd(a: bv64, b: bv64, i: Index)
    ensures Bit(a & b, i) == (Bit(a, i) && Bit(b, i))
  {
    BitShift(a & b, i);
    BitShift(a, i);
    BitShift(b, i);
    AndLow(a, b, i);
  }

  lemma BitNotSingle(j: Index, i: Index)
    ensures Bit(!(1 << j), i) == (i != j)
  {
    BitShift(!(1 << j), i);
    NotSingleLow(j, i);
  }

  lemma BitAndWith(a: bv64, c: bv64, i: Index, p: bool)
    requires Bit(c, i) == p
    ensures Bit(a & c, i) == (Bit(a, i) && p)
  {
    BitAnd(a, c, i);
  }

  lemma BitClear(a: bv64, j: Index, i: Index)
    ensures Bit(a & !(1 << j), i) == (Bit(a, i) && i != j)
  {
    BitNotSingle(j, i);
    BitAndWith(a, !(1 << j), i, i != j);
  }

  lemma BitSingle(j: Index, i: Index)
    ensures Bit(1 << j, i) == (i == j)
  {
    BitShift(1 << j, i);
    SingleLow(j, i);
  }

  lemma BitBelowMask(m: bv64, j: Index, i: Index)
    ensures Bit(m & ((1 << j) - 1), i) == (Bit(m, i) && i < j)
  {
    BitShift(m & ((1 << j) - 1), i);
    BitShift(m, i);
    BelowMaskLow(m, j, i);
  }

  lemma BitZero(i: Index)
    ensures !Bit(0, i)
  {}

  lemma ZeroSplit(y: bv64)
    ensures y == 0 <==> (y >> 1 == 0 && !(y & 1 == 1))
  {}

  lemma ShiftDecreases(y: bv64)
    requires y != 0
    ensures y >> 1 < y
  {}

  /** The top bit of a value shifted right by one is clear. */
  lemma TopOfShifted(x: bv64)
    ensures !Bit(x >> 1, 63)
  {
    BitShift(x >> 1, 63);
  }

  /** A non-zero bitmap has a set bit. */
  lemma {:induction false} SomeBitOfNonZero(x: bv64)
    requires x != 0
    ensures !NoBitBelow(x, 64)
    decreases x
  {
    if x & 1 == 1 {
      var w: Index := 0;
      assert Bit(x, w);
    } else {
      ZeroSplit(x);
      ShiftDecreases(x);
      SomeBitOfNonZero(x >> 1);
      var i: Index :| i < 64 && Bit(x >> 1, i);
      TopOfShifted(x);
      var w: Index := i + 1;
      assert Bit(x, w);
    }
  }

  /** A bitmap is zero iff none of its bits is set. */
  lemma ZeroIffNoBit(x: bv64)
    ensures x == 0 <==> NoBitBelow(x, 64)
  {
    if x == 0 {
      forall i: Index ensures !Bit(x, i) {
        BitZero(i);
      }
    } else {
      SomeBitOfNonZero(x);
    }
  }

  /** Of two single bits, the one at the higher position is the larger number. */
  lemma SingleBitOrder(a: Index, b: Index)
    ensures ((1 as bv64) << a > (1 as bv64) << b) == (a > b)
  {}

  // ---------------------------------------------------------------------
  // Counting, stated over a per-bit relation so that no bit-vector term
  // needs to be expanded inside the inductions.

  lemma {:induction false} CountBelowBound(x: bv64, n: bv7)
    requires n <= 64
    ensures CountBelow(x, n) <= n as int
    decreases n
  {
    if n > 0 {
      CountBelowBound(x, n - 1);
    }
  }

  /** No bit below `n` is set. */
  ghost predicate NoBitBelow(x: bv64, n: bv7) {
    forall i: Index :: i < n ==> !Bit(x, i)
  }

  /** The count below `n` is zero iff no bit below `n` is set. */
  lemma {:induction false} CountBelowZero(x: bv64, n: bv7)
    requires n <= 64
    ensures CountBelow(x, n) == 0 <==> NoBitBelow(x, n)
    decreases n
  {
    if n > 0 {
      CountBelowZero(x, n - 1);
      var w: Index := n - 1;
      if Bit(x, w) {
        assert !NoBitBelow(x, n);
      } else {
        assert NoBitBelow(x, n) <==> NoBitBelow(x, n - 1) by {
          if NoBitBelow(x, n - 1) {
            forall i: Index | i < n ensures !Bit(x, i) {
              if i != w {
                assert i < n - 1;
              }
            }
          }
        }
      }
    }
  }

  /** Bitmaps that agree below `n` count alike below `n`. */
  lemma {:induction false} CountAgree(x: bv64, y: bv64, n: bv7)
    requires n <= 64
    requires forall i: Index :: i < n ==> Bit(x, i) == Bit(y, i)
    ensures CountBelow(x, n) == CountBelow(y, n)
    decreases n
  {
    if n > 0 {
      CountAgree(x, y, n - 1);
    }
  }

  /** Bits at `j` and above do not add to the count. */
  lemma {:induction false} CountClearAbove(x: bv64, j: bv7, n: bv7)
    requires j <= n <= 64
    requires forall i: Index :: j <= i < n ==> !Bit(x, i)
    ensures CountBelow(x, n) == CountBelow(x, j)
    decreases n
  {
    if n > j {
      CountClearAbove(x, j, n - 1);
    }
  }

  /** Setting one more bit `j` adds one to every count that reaches past `j`. */
  lemma {:induction false} CountWithBit(x: bv64, y: bv64, j: Index, n: bv7)
    requires n <= 64 && !Bit(x, j)
    requires forall i: Index :: Bit(y, i) == (Bit(x, i) || i == j)
    ensures CountBelow(y, n) == CountBelow(x, n) + (if j < n then 1 else 0)
    decreases n
  {
    if n > 0 {
      CountWithBit(x, y, j, n - 1);
    }
  }

  /** A set bit below `n` makes the count below `n` exceed the count below it. */
  lemma {:induction false} CountStrict(x: bv64, i: Index, n: bv7)
    requires i < n <= 64 && Bit(x, i)
    ensures CountBelow(x, i) < CountBelow(x, n)
    decreases n
  {
    if n - 1 > i {
      CountStrict(x, i, n - 1);
    }
  }

  lemma {:induction false} CountMonotone(x: bv64, i: bv7, n: bv7)
    requires i <= n <= 64
    ensures CountBelow(x, i) <= CountBelow(x, n)
    decreases n
  {
    if n > i {
      CountMonotone(x, i, n - 1);
    }
  }

  /** Every position below the count is the rank of some set bit (the rank map is onto). */
  lemma {:induction false} CountOnto(x: bv64, n: bv7, p: nat)
    requires n <= 64 && p < CountBelow(x, n)
    ensures exists i: Index :: i < n && Bit(x, i) && CountBelow(x, i) == p
    decreases n
  {
    if p < CountBelow(x, n - 1) {
      CountOnto(x, n - 1, p);
    } else {
      assert Bit(x, n - 1) && CountBelow(x, n - 1) == p;
    }
  }

  /** Distinct set bits have distinct ranks. */
  lemma CountInjective(x: bv64, i: Index, j: Index)
    requires Bit(x, i) && Bit(x, j) && i != j
    ensures CountBelow(x, i) != CountBelow(x, j)
  {
    if i < j {
      CountStrict(x, i, j);
    } else {
      CountStrict(x, j, i);
    }
  }

  // ---------------------------------------------------------------------
  // Setting and clearing one bit, as the trie's path-copy helpers do.

  /** map | bit, where bit is bitmap_t{1} << i. */
  function SetBit(m: bv64, i: Index): bv64 {
    m | (1 << i)
  }

  /** map & ~bit, where bit is bitmap_t{1} << i. */
  function ClearBit(m: bv64, i: Index): bv64 {
    m & !(1 << i)
  }

  /** Setting bit `i` of `m` sets that position and keeps every other. */
  lemma SetBitEach(m: bv64, i: Index)
    ensures forall j: Index :: Bit(SetBit(m, i), j) == (Bit(m, j) || j == i)
  {
    forall j: Index ensures Bit(SetBit(m, i), j) == (Bit(m, j) || j == i) {
      BitOr(m, 1 << i, j);
      BitSingle(i, j);
    }
  }

  /** Clearing bit `i` of `m` clears that position and keeps every other. */
  lemma ClearBitEach(m: bv64, i: Index)
    ensures forall j: Index :: Bit(ClearBit(m, i), j) == (Bit(m, j) && j != i)
  {
    forall j: Index ensures Bit(ClearBit(m, i), j) == (Bit(m, j) && j != i) {
      BitClear(m, i, j);
    }
  }

  /** Clearing set bit `i`: the result lacks `i`, and adding `i` back gives the original bits. */
  lemma ClearBitInverse(m: bv64, i: Index)
    requires Bit(m, i)
    ensures !Bit(ClearBit(m, i), i)
    ensures forall k: Index :: Bit(m, k) == (Bit(ClearBit(m, i), k) || k == i)
  {
    ClearBitEach(m, i);
    forall k: Index ensures Bit(m, k) == (Bit(ClearBit(m, i), k) || k == i) {
      assert Bit(ClearBit(m, i), k) == (Bit(m, k) && k != i);
    }
  }

  /** No position is set in both bitmaps. */
  ghost predicate NoCommonBit(a: bv64, b: bv64) {
    forall i: Index :: !(Bit(a, i) && Bit(b, i))
  }

  /** Two bitmaps are disjoint iff no position is set in both. */
  lemma DisjointIff(a: bv64, b: bv64)
    ensures a & b == 0 <==> NoCommonBit(a, b)
  {
    var c := a & b;
    ZeroIffNoBit(c);
    forall i: Index ensures Bit(c, i) == (Bit(a, i) && Bit(b, i)) {
      BitAnd(a, b, i);
    }
    if c != 0 {
      var i: Index :| i < 64 && Bit(c, i);
      assert !NoCommonBit(a, b) by {
        assert Bit(a, i) && Bit(b, i);
      }
    } else {
      forall i: Index ensures !(Bit(a, i) && Bit(b, i)) {
        assert i < 64 && !Bit(c, i);
      }
      assert NoCommonBit(a, b);
    }
  }

  // ---------------------------------------------------------------------
  // The facts the trie relies on, in the source's own terms.

  /** The compacted index `popcount(m & (bit - 1))` is the number of set bits below `i`. */
  lemma CompactIndexIsRank(m: bv64, i: Index)
    ensures Popcount(m & ((1 << i) - 1)) == CountBelow(m, i)
  {
    var y := m & ((1 << i) - 1);
    forall t: Index ensures Bit(y, t) == (Bit(m, t) && t < i) {
      BitBelowMask(m, i, t);
    }
    CountClearAbove(y, i, 64);
    CountAgree(y, m, i);
  }

  /** When bit `i` is set in `m`, its compacted index is a valid position of an array of popcount(m) slots. */
  lemma CompactIndexInRange(m: bv64, i: Index)
    requires Bit(m, i)
    ensures Popcount(m & ((1 << i) - 1)) < Popcount(m)
  {
    CompactIndexIsRank(m, i);
    CountStrict(m, i, 64);
  }

  /** Setting a bit `j` not in `m` adds one to every count that reaches past `j`. */
  lemma CountInsertBit(m: bv64, j: Index, n: bv7)
    requires n <= 64 && !Bit(m, j)
    ensures CountBelow(SetBit(m, j), n) == CountBelow(m, n) + (if j < n then 1 else 0)
  {
    SetBitEach(m, j);
    CountWithBit(m, SetBit(m, j), j, n);
  }

  /** Clearing a set bit `j` takes one from every count that reaches past `j`. */
  lemma CountEraseBit(m: bv64, j: Index, n: bv7)
    requires n <= 64 && Bit(m, j)
    ensures CountBelow(ClearBit(m, j), n) + (if j < n then 1 else 0) == CountBelow(m, n)
  {
    ClearBitInverse(m, j);
    CountWithBit(ClearBit(m, j), m, j, n);
  }

  /** popcount(map | bit) == popcount(map) + 1 for a bit not in the map. */
  lemma PopcountInsert(m: bv64, j: Index)
    requires !Bit(m, j)
    ensures Popcount(SetBit(m, j)) == Popcount(m) + 1
  {
    CountInsertBit(m, j, 64);
  }

  /** popcount(map & ~bit) + 1 == popcount(map) for a bit in the map. */
  lemma PopcountErase(m: bv64, j: Index)
    requires Bit(m, j)
    ensures Popcount(ClearBit(m, j)) + 1 == Popcount(m)
  {
    CountEraseBit(m, j, 64);
  }

  /** A single bit has one set bit. */
  lemma PopcountSingle(j: Index)
    ensures Popcount(1 << j) == 1
  {
    var z: bv64 := 0;
    BitZero(j);
    CountInsertBit(z, j, 64);
    assert SetBit(z, j) == 1 << j;
    PopcountZero(z);
  }

  /** Worked constants for the branching factor 6 that the map uses. */
  lemma DepthForSix()
    ensures MaxDepthOf(6) == 11 && MaxShiftOf(6) == 66
  {}
}
