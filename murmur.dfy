/**
 * The 64-bit hasher of src/foundation/murmurhash.cpp: the body, tail and
 * finalisation of MurmurHash3_x64_128 over two 64-bit halves, followed by a
 * fold of the two halves into one 64-bit value.
 *
 * All arithmetic is on bv64, so it wraps modulo 2^64 exactly as uint64_t
 * does. Blocks are read as little-endian words (the source reinterprets the
 * byte buffer as uint64_t on a little-endian host). Line 66 of the source
 * multiplies h2 by (5 + 0x38495ab5), where the reference algorithm computes
 * h2 * 5 + 0x38495ab5; the model follows the source.
 *
 * The pure functions (Rotl64, Fmix64, MixBlock, Body, Tail, Finalize,
 * Appended, Fold) specify the hasher. The class MurmurHash keeps the two
 * halves as fields; Append walks the blocks in a loop and assembles the tail
 * words byte by byte, as the source does, and is proved to compute Appended.
 * The arithmetic of a block and of the finalisation is evaluated by MixBlock
 * and Finalize rather than statement by statement.
 */
module Murmur {

  const C1: bv64 := 0x87c37b91114253d5
  const C2: bv64 := 0x4cf5ad432745937f

  /** The two 64-bit halves of the hash state (m_h1, m_h2). */
  datatype State = State(h1: bv64, h2: bv64)

  // ---------------------------------------------------------------------
  // Primitives.

  /**
   * rotl64: rotation to the left by `r` bits. The shift pair is defined for
   * 0 < r < 64 only; every other amount is taken as no rotation.
   */
  function Rotl64(x: bv64, r: nat): bv64 {
    if 0 < r < 64 then (x << r) | (x >> (64 - r)) else x
  }

  /** For the three amounts the hasher uses, rotl64 is the bit-vector rotation. */
  lemma RotlIsRotation(x: bv64)
    ensures Rotl64(x, 27) == x.RotateLeft(27)
    ensures Rotl64(x, 31) == x.RotateLeft(31)
    ensures Rotl64(x, 33) == x.RotateLeft(33)
  {}

  /** k ^= k >> 33. */
  function XorShift33(k: bv64): bv64 {
    k ^ (k >> 33)
  }

  /** The xor-shift steps of fmix64 lose nothing: each is its own inverse, since 2 * 33 >= 64. */
  lemma XorShift33Involution(k: bv64)
    ensures XorShift33(XorShift33(k)) == k
  {
    assert XorShift33(k) == k ^ (k >> 33);
  }

  /** fmix64: xor-shift, multiply, xor-shift, multiply, xor-shift. */
  function Fmix64(k: bv64): bv64 {
    var k1 := XorShift33(k) * 0xff51afd7ed558ccd;
    var k2 := XorShift33(k1) * 0xc4ceb9fe1a85ec53;
    XorShift33(k2)
  }

  /** The multiplication steps of fmix64 lose nothing either: both constants are odd, with these inverses modulo 2^64. */
  lemma FmixConstantsInvertible()
    ensures 0xff51afd7ed558ccd * 0x4f74430c22a54005 == 1 as bv64
    ensures 0xc4ceb9fe1a85ec53 * 0x9cb4b2f8129337db == 1 as bv64
  {}

  /** The mix of the first word of a block or of the tail into h1. */
  function MixK1(k1: bv64): bv64 {
    Rotl64(k1 * C1, 31) * C2
  }

  /** The mix of the second word of a block or of the tail into h2. */
  function MixK2(k2: bv64): bv64 {
    Rotl64(k2 * C2, 33) * C1
  }

  // ---------------------------------------------------------------------
  // Reading bytes.

  /** The byte `b` placed at byte position `j` of a word: b << 8 * j. */
  function ByteAt(b: bv8, j: nat): bv64
    requires j < 8
  {
    match j
    case 0 => (b as bv64) << 0
    case 1 => (b as bv64) << 8
    case 2 => (b as bv64) << 16
    case 3 => (b as bv64) << 24
    case 4 => (b as bv64) << 32
    case 5 => (b as bv64) << 40
    case 6 => (b as bv64) << 48
    case _ => (b as bv64) << 56
  }

  /** Byte lane `i` of the little-endian word of `bytes`: bytes[i] at bit 8 * i, zero past the end. */
  function Lane(bytes: seq<bv8>, i: nat): bv64
    requires i < 8
  {
    if i < |bytes| then ByteAt(bytes[i], i) else 0
  }

  /** The little-endian word of the first eight bytes, zero-padded when there are fewer (a uint64_t read from memory, or the tail switch). */
  function LoadLE(bytes: seq<bv8>): bv64
  {
    Lane(bytes, 0) | Lane(bytes, 1) | Lane(bytes, 2) | Lane(bytes, 3) | Lane(bytes, 4) | Lane(bytes, 5) | Lane(bytes, 6) | Lane(bytes, 7)
  }

  /** The word at byte offset `p`, as a little-endian uint64_t. */
  function Word(data: seq<bv8>, p: nat): bv64
    requires p + 8 <= |data|
  {
    LoadLE(data[p..p + 8])
  }

  // ---------------------------------------------------------------------
  // The algorithm as functions.

  /**
   * One 16-byte block (k1, k2) mixed into the halves h1, h2, lines 50-66: k1
   * is mixed (MixK1) into h1, h1 is rotated, advanced by h2 and scrambled,
   * then the same for k2 into h2 with the new h1.
   */
  function MixBlock(h1: bv64, h2: bv64, k1: bv64, k2: bv64): State {
    var g1 := (Rotl64(h1 ^ MixK1(k1), 27) + h2) * 5 + 0x52dce729;
    State(g1, (Rotl64(h2 ^ MixK2(k2), 31) + g1) * (5 + 0x38495ab5))
  }

  /** The state after the first `n` blocks of `data`, in order. */
  function Body(s: State, data: seq<bv8>, n: nat): State
    requires 16 * n <= |data|
  {
    if n == 0 then s
    else
      var b := Body(s, data, n - 1);
      MixBlock(b.h1, b.h2, Word(data, 16 * (n - 1)), Word(data, 16 * (n - 1) + 8))
  }

  /** One more block: the state after n + 1 blocks mixes block n into the state after n. */
  lemma BodyNext(s: State, data: seq<bv8>, n: nat)
    requires 16 * (n + 1) <= |data|
    ensures var b := Body(s, data, n);
      Body(s, data, n + 1) == MixBlock(b.h1, b.h2, Word(data, 16 * n), Word(data, 16 * n + 8))
  {}

  /** A mixed word folded into a half of the state: h ^= m. */
  function Absorb(h: bv64, m: bv64): bv64 {
    h ^ m
  }

  /** The tail's effect on h1: bytes ..8 form k1, mixed in when there is at least one byte. */
  function TailH1(h1: bv64, tail: seq<bv8>): bv64 {
    if |tail| >= 1 then Absorb(h1, MixK1(LoadLE(tail))) else h1
  }

  /** The tail's effect on h2: bytes 8.. form k2, mixed in when there are at least nine bytes. */
  function TailH2(h2: bv64, tail: seq<bv8>): bv64 {
    if |tail| >= 9 then Absorb(h2, MixK2(LoadLE(tail[8..]))) else h2
  }

  /** The tail of fewer than 16 bytes mixed into both halves. */
  function Tail(s: State, tail: seq<bv8>): State {
    State(TailH1(s.h1, tail), TailH2(s.h2, tail))
  }

  /** Finalisation: the length into both halves, cross-add, fmix64 each, cross-add again. */
  function Finalize(h1: bv64, h2: bv64, len: bv64): State {
    var b1 := (h1 ^ len) + (h2 ^ len);
    var c1, c2 := Fmix64(b1), Fmix64((h2 ^ len) + b1);
    State(c1 + c2, c2 + (c1 + c2))
  }

  /** The state after append(data): body, tail, finalisation. */
  function Appended(s: State, data: seq<bv8>): State
    requires |data| < 0x1_0000_0000_0000_0000
  {
    var n := |data| / 16;
    var t := Tail(Body(s, data, n), data[16 * n..]);
    Finalize(t.h1, t.h2, |data| as bv64)
  }

  /** as_64bit: h2 combined into h1 (the hash_combine formula with the golden-ratio constant). */
  function Fold(s: State): bv64 {
    s.h1 ^ (s.h2 + 0x9e3779b9 + (s.h1 << 6) + (s.h1 >> 2))
  }

  // ---------------------------------------------------------------------
  // The hasher object.

  class MurmurHash {
    var h1: bv64
    var h2: bv64

    function Current(): State
      reads this
    {
      State(h1, h2)
    }

    /** A fresh hasher starts from two zero halves. */
    constructor()
      ensures Current() == State(0, 0)
    {
      h1 := 0;
      h2 := 0;
    }

    /** append(payload, len): mixes the bytes into the state, block by block, then the tail, then finalises. */
    method Append(data: seq<bv8>)
      requires |data| < 0x1_0000_0000_0000_0000
      modifies this
      ensures Current() == Appended(old(Current()), data)
    {
      // The proof follows the structure of Appended; the arithmetic of each
      // step is the functions' own and is not needed.
      hide MixBlock, Finalize, TailH1, TailH2, Word;
      var nblocks := |data| / 16;
      var i := 0;
      while i < nblocks
        invariant 0 <= i <= nblocks
        invariant Current() == Body(old(Current()), data, i)
      {
        var k1 := Word(data, 16 * i);
        var k2 := Word(data, 16 * i + 8);

        BodyNext(old(Current()), data, i);
        var mixed := MixBlock(h1, h2, k1, k2);
        h1, h2 := mixed.h1, mixed.h2;
        i := i + 1;
      }
      ghost var afterBody := Current();
      var tail := data[nblocks * 16..];
      TailStep(tail);
      assert Current() == Tail(afterBody, tail);

      var len := |data| as bv64;
      var f := Finalize(h1, h2, len);
      h1, h2 := f.h1, f.h2;
    }

    /** as_64bit: the 64-bit value of the state. */
    function AsU64(): bv64
      reads this
    {
      Fold(Current())
    }

    /**
     * The switch over len & 15: the tail bytes are mixed into h2 (bytes 8..)
     * and h1 (bytes ..8), each half only when it holds at least one byte.
     */
    method TailStep(tail: seq<bv8>)
      requires |tail| < 16
      modifies this
      ensures h1 == TailH1(old(h1), tail)
      ensures h2 == TailH2(old(h2), tail)
    {
      // Only the words matter here, not how the mixes scramble them.
      hide MixK1, MixK2, LoadLE, Absorb;
      var k2 := TailHighWord(tail);
      var k1 := TailLowWord(tail);
      var g1, g2 := h1, h2;
      if |tail| >= 9 {
        g2 := Absorb(g2, MixK2(k2));
      }
      if |tail| >= 1 {
        g1 := Absorb(g1, MixK1(k1));
      }
      h1, h2 := g1, g2;
    }
  }

  /**
   * The high word the switch assembles (cases 15 down to 9), falling through
   * from the highest tail byte: byte j lands at bit 8 * (j - 8) of k2.
   */
  method TailHighWord(tail: seq<bv8>) returns (k2: bv64)
    requires |tail| < 16
    ensures |tail| > 8 ==> k2 == LoadLE(tail[8..])
    ensures |tail| <= 8 ==> k2 == 0
  {
    var rem := |tail|;
    k2 := 0;
    if rem >= 15 { k2 := k2 ^ ((tail[14] as bv64) << 48); }
    if rem >= 14 { k2 := k2 ^ ((tail[13] as bv64) << 40); }
    if rem >= 13 { k2 := k2 ^ ((tail[12] as bv64) << 32); }
    if rem >= 12 { k2 := k2 ^ ((tail[11] as bv64) << 24); }
    if rem >= 11 { k2 := k2 ^ ((tail[10] as bv64) << 16); }
    if rem >= 10 { k2 := k2 ^ ((tail[9] as bv64) << 8); }
    if rem >= 9 {
      k2 := k2 ^ ((tail[8] as bv64) << 0);
      // One tail length at a time, the fall-through is the word's definition.
      if rem == 9 { assert k2 == LoadLE(tail[8..]); }
      else if rem == 10 { assert k2 == LoadLE(tail[8..]); }
      else if rem == 11 { assert k2 == LoadLE(tail[8..]); }
      else if rem == 12 { assert k2 == LoadLE(tail[8..]); }
      else if rem == 13 { assert k2 == LoadLE(tail[8..]); }
      else { assert k2 == LoadLE(tail[8..]); }
    }
  }

  /**
   * The low word the switch assembles (cases 8 down to 1): byte j lands at
   * bit 8 * j of k1.
   */
  method TailLowWord(tail: seq<bv8>) returns (k1: bv64)
    requires |tail| < 16
    ensures k1 == LoadLE(tail)
  {
    var rem := |tail|;
    k1 := 0;
    if rem >= 8 { k1 := k1 ^ ((tail[7] as bv64) << 56); }
    if rem >= 7 { k1 := k1 ^ ((tail[6] as bv64) << 48); }
    if rem >= 6 { k1 := k1 ^ ((tail[5] as bv64) << 40); }
    if rem >= 5 { k1 := k1 ^ ((tail[4] as bv64) << 32); }
    if rem >= 4 { k1 := k1 ^ ((tail[3] as bv64) << 24); }
    if rem >= 3 { k1 := k1 ^ ((tail[2] as bv64) << 16); }
    if rem >= 2 { k1 := k1 ^ ((tail[1] as bv64) << 8); }
    if rem >= 1 {
      k1 := k1 ^ ((tail[0] as bv64) << 0);
      if rem == 1 { assert k1 == LoadLE(tail); }
      else if rem == 2 { assert k1 == LoadLE(tail); }
      else if rem == 3 { assert k1 == LoadLE(tail); }
      else if rem == 4 { assert k1 == LoadLE(tail); }
      else if rem == 5 { assert k1 == LoadLE(tail); }
      else if rem == 6 { assert k1 == LoadLE(tail); }
      else if rem == 7 { assert k1 == LoadLE(tail); }
      else { assert k1 == LoadLE(tail); }
    }
  }
}
