/** Octet strings, their little-endian readings, and the bit operations the C readers use. */
module Bytes {

  type Byte = x: int | 0 <= x < 0x100
  type U16 = x: int | 0 <= x < 0x1_0000
  type U32 = x: int | 0 <= x < 0x1_0000_0000
  type Octets = seq<Byte>

  // ---------------------------------------------------------------------------
  // Little-endian readings and renderings
  // ---------------------------------------------------------------------------

  /** The base-256 digits `b[lo..hi]`, least significant first, folded onto `acc` from the top down. */
  function FoldDown(b: Octets, lo: nat, hi: nat, acc: nat): nat
    requires lo <= hi <= |b|
  {
    if lo == hi then acc else FoldDown(b, lo, hi - 1, 0x100 * acc + b[hi - 1])
  }

  lemma FoldTwo(b: Octets, lo: nat, acc: nat)
    requires lo + 2 <= |b|
    ensures FoldDown(b, lo, lo + 2, acc) == 0x1_0000 * acc + 0x100 * b[lo + 1] as int + b[lo] as int
  {
    var next := 0x100 * acc + b[lo + 1] as int;
    assert FoldDown(b, lo, lo + 2, acc) == FoldDown(b, lo, lo + 1, next);
    assert FoldDown(b, lo, lo + 1, next) == FoldDown(b, lo, lo, 0x100 * next + b[lo] as int);
  }

  lemma FoldFour(b: Octets, lo: nat)
    requires lo + 4 <= |b|
    ensures FoldDown(b, lo, lo + 4, 0) == FoldDown(b, lo, lo + 2, 0) + 0x1_0000 * FoldDown(b, lo + 2, lo + 4, 0)
  {
    var high := 0x100 * b[lo + 3] as int + b[lo + 2] as int;
    assert FoldDown(b, lo, lo + 4, 0) == FoldDown(b, lo, lo + 3, b[lo + 3]) == FoldDown(b, lo, lo + 2, high);
    FoldTwo(b, lo, high);
    FoldTwo(b, lo, 0);
    FoldTwo(b, lo + 2, 0);
  }

  function U16At(b: Octets, offset: nat): U16
    requires offset + 2 <= |b|
  {
    FoldTwo(b, offset, 0);
    FoldDown(b, offset, offset + 2, 0)
  }

  function U32At(b: Octets, offset: nat): U32
    requires offset + 4 <= |b|
  {
    FoldTwo(b, offset, 0);
    FoldTwo(b, offset + 2, 0);
    FoldFour(b, offset);
    FoldDown(b, offset, offset + 4, 0)
  }

  lemma U16Octets(b: Octets, offset: nat)
    requires offset + 2 <= |b|
    ensures U16At(b, offset) == b[offset] as int + 0x100 * b[offset + 1] as int
  {
    FoldTwo(b, offset, 0);
  }

  lemma U32Halves(b: Octets, offset: nat)
    requires offset + 4 <= |b|
    ensures U32At(b, offset) == U16At(b, offset) as int + 0x1_0000 * U16At(b, offset + 2) as int
  {
    FoldFour(b, offset);
  }

  /** Buffers that agree over a window read the same throughout it, the second `shift` further on. */
  lemma SameOctetsReadSame(a: Octets, b: Octets, lo: nat, hi: nat, shift: nat)
    requires lo <= hi <= |a| && hi + shift <= |b|
    requires forall k {:trigger a[k]} :: lo <= k < hi ==> a[k] == b[k + shift]
    ensures forall o: nat {:trigger U16At(a, o)} :: lo <= o && o + 2 <= hi ==> U16At(a, o) == U16At(b, o + shift)
    ensures forall o: nat {:trigger U32At(a, o)} :: lo <= o && o + 4 <= hi ==> U32At(a, o) == U32At(b, o + shift)
  {
    forall o: nat | lo <= o && o + 2 <= hi ensures U16At(a, o) == U16At(b, o + shift) {
      U16Octets(a, o);
      U16Octets(b, o + shift);
    }
    forall o: nat | lo <= o && o + 4 <= hi ensures U32At(a, o) == U32At(b, o + shift) {
      U32Halves(a, o);
      U32Halves(b, o + shift);
    }
  }

  function Le16(v: U16): (r: Octets)
    ensures |r| == 2
  {
    [v % 0x100, v / 0x100]
  }

  function Le32(v: U32): (r: Octets)
    ensures |r| == 4
  {
    Le16(v % 0x1_0000) + Le16(v / 0x1_0000)
  }

  /** A cast to 32 bits. */
  function Truncate32(n: nat): (r: U32)
    ensures n < 0x1_0000_0000 ==> r == n
  {
    n % 0x1_0000_0000
  }

  /** The cast drops multiples of 2^32. */
  lemma {:induction false} TruncateWraps(n: U32, wraps: nat)
    ensures Truncate32(n + wraps * 0x1_0000_0000) == n
  {
    if wraps > 0 {
      TruncateWraps(n, wraps - 1);
      var rest := n + (wraps - 1) * 0x1_0000_0000;
      assert (rest + 0x1_0000_0000) % 0x1_0000_0000 == rest % 0x1_0000_0000;
    }
  }

  predicate Zeroed(b: Octets, lo: nat, hi: nat)
    requires lo <= hi <= |b|
  {
    forall k :: lo <= k < hi ==> b[k] == 0
  }

  function Zeros(n: nat): (r: Octets)
    ensures |r| == n && Zeroed(r, 0, n)
  {
    seq(n, _ => 0)
  }

  /** Rendering then reading gives the value back, wherever the rendering stands in a buffer. */
  lemma Le16Reads(b: Octets, offset: nat, v: U16)
    requires offset + 2 <= |b|
    ensures b[offset..offset + 2] == Le16(v) <==> U16At(b, offset) == v
  {
    U16Octets(b, offset);
    assert b[offset..offset + 2] == [b[offset], b[offset + 1]];
  }

  lemma Le32Reads(b: Octets, offset: nat, v: U32)
    requires offset + 4 <= |b|
    ensures b[offset..offset + 4] == Le32(v) <==> U32At(b, offset) == v
  {
    var s := b[offset..offset + 4];
    assert s == b[offset..offset + 2] + b[offset + 2..offset + 4];
    U32Halves(b, offset);
    Le16Reads(b, offset, v % 0x1_0000);
    Le16Reads(b, offset + 2, v / 0x1_0000);
    if s == Le32(v) {
      assert b[offset..offset + 2] == s[..2] == Le16(v % 0x1_0000);
      assert b[offset + 2..offset + 4] == s[2..] == Le16(v / 0x1_0000);
    }
  }

  /** A slice reads as the buffer does, further on. */
  lemma SliceReads(b: Octets, lo: nat, hi: nat, offset: nat)
    requires lo <= hi <= |b|
    ensures offset + 2 <= hi - lo ==> U16At(b[lo..hi], offset) == U16At(b, lo + offset)
    ensures offset + 4 <= hi - lo ==> U32At(b[lo..hi], offset) == U32At(b, lo + offset)
  {
    SameOctetsReadSame(b[lo..hi], b, 0, hi - lo, lo);
  }

  /** A slice of a slice is a slice. */
  lemma SliceOfSlice(b: Octets, lo: nat, hi: nat, from: nat, to: nat)
    requires lo <= hi <= |b| && from <= to <= hi - lo
    ensures b[lo..hi][from..to] == b[lo + from..lo + to]
  {
    assert forall k :: 0 <= k < to - from ==> b[lo..hi][from..to][k] == b[lo + from + k];
  }

  // ---------------------------------------------------------------------------
  // Bit operations on unsigned integers
  // ---------------------------------------------------------------------------

  function Pow2(k: nat): (r: nat)
    ensures r > 0
  {
    if k == 0 then 1 else 2 * Pow2(k - 1)
  }

  /** `a << k`, before any truncation to the operand's width. */
  function ShiftLeft(a: nat, k: nat): nat {
    a * Pow2(k)
  }

  /** `a | b`, bit by bit from the low end. */
  function BitOr(a: nat, b: nat): nat
    decreases a + b
  {
    if a == 0 then b
    else if b == 0 then a
    else (if a % 2 == 1 || b % 2 == 1 then 1 else 0) + 2 * BitOr(a / 2, b / 2)
  }

  /** Bit `k` of `a`. */
  predicate TestBit(a: nat, k: nat)
    decreases k
  {
    if k == 0 then a % 2 == 1 else TestBit(a / 2, k - 1)
  }

  /** A bit of `a | b` is set exactly when it is set in one of the two. */
  lemma {:induction false} BitOrExactly(a: nat, b: nat, k: nat)
    ensures TestBit(BitOr(a, b), k) <==> TestBit(a, k) || TestBit(b, k)
    decreases k
  {
    ZeroHasNoBits(k);
    if a > 0 && b > 0 && k > 0 {
      BitOrExactly(a / 2, b / 2, k - 1);
      assert BitOr(a, b) / 2 == BitOr(a / 2, b / 2);
    }
  }

  lemma {:induction false} ZeroHasNoBits(k: nat)
    ensures !TestBit(0, k)
    decreases k
  {
    if k > 0 {
      ZeroHasNoBits(k - 1);
    }
  }

  /** Or-ing in a value shifted past every bit of `a` adds it. */
  lemma {:induction false} OrOfShifted(a: nat, b: nat, k: nat)
    requires a < Pow2(k)
    ensures BitOr(a, ShiftLeft(b, k)) == a + ShiftLeft(b, k)
  {
    if k > 0 && a > 0 && b > 0 {
      assert ShiftLeft(b, k) == 2 * ShiftLeft(b, k - 1) by {
        assert b * (2 * Pow2(k - 1)) == 2 * (b * Pow2(k - 1));
      }
      OrOfShifted(a / 2, b, k - 1);
      assert ShiftLeft(b, k) > 0;
    }
  }

  lemma PowersOfTwo()
    ensures Pow2(8) == 0x100 && Pow2(16) == 0x1_0000 && Pow2(24) == 0x100_0000
  {
    assert Pow2(4) == 16;
    assert Pow2(8) == 0x100;
    assert Pow2(12) == 0x1000;
    assert Pow2(16) == 0x1_0000;
    assert Pow2(20) == 0x10_0000;
  }

  /** The shift-and-or reading of two bytes is their little-endian value. */
  lemma ShiftOr16(b0: Byte, b1: Byte)
    ensures BitOr(b0, ShiftLeft(b1, 8)) == b0 + 0x100 * b1
  {
    PowersOfTwo();
    OrOfShifted(b0, b1, 8);
  }

  lemma ShiftOr32(b0: Byte, b1: Byte, b2: Byte, b3: Byte)
    ensures BitOr(BitOr(BitOr(b0, ShiftLeft(b1, 8)), ShiftLeft(b2, 16)), ShiftLeft(b3, 24))
            == b0 + 0x100 * b1 + 0x1_0000 * b2 + 0x100_0000 * b3
  {
    PowersOfTwo();
    OrOfShifted(b0, b1, 8);
    OrOfShifted(b0 + 0x100 * b1, b2, 16);
    OrOfShifted(b0 + 0x100 * b1 + 0x1_0000 * b2, b3, 24);
  }
}
