/** Allocation bitmaps, one bit per object, least significant bit of a byte first. */
module MinixBits {
  import opened Basics

  predicate Bit(b: nat, k: nat)
  {
    if k == 0 then b % 2 == 1 else Bit(b / 2, k - 1)
  }

  /** A number with one bit set or cleared, the others as they were. */
  function WithBit(b: nat, k: nat, on: bool): nat
  {
    if k == 0 then b / 2 * 2 + (if on then 1 else 0) else 2 * WithBit(b / 2, k - 1, on) + b % 2
  }

  lemma {:induction false} BitOf(b: nat, k: nat, on: bool, j: nat)
    ensures Bit(WithBit(b, k, on), j) <==> if j == k then on else Bit(b, j)
  {
    var r := WithBit(b, k, on);
    if k == 0 {
      assert r / 2 == b / 2;
    } else {
      assert r / 2 == WithBit(b / 2, k - 1, on) && r % 2 == b % 2;
      if j > 0 { BitOf(b / 2, k - 1, on, j - 1); }
    }
  }

  function Pow2(m: nat): nat
  {
    if m == 0 then 1 else 2 * Pow2(m - 1)
  }

  lemma {:induction false} BitBound(b: nat, k: nat, on: bool, m: nat)
    requires k < m && b < Pow2(m)
    ensures WithBit(b, k, on) < Pow2(m)
  {
    if k > 0 { BitBound(b / 2, k - 1, on, m - 1); }
  }

  lemma EightBits()
    ensures Pow2(8) == 256
  {
    assert Pow2(4) == 16;
  }

  // --- Bitmaps ---

  /** Bits past the end of the map read as zero. */
  predicate Test(bits: seq<Byte>, bit: nat)
  {
    bit / 8 < |bits| && Bit(bits[bit / 8], bit % 8)
  }

  function Put(bits: seq<Byte>, bit: nat, on: bool): (r: seq<Byte>)
    ensures |r| == |bits|
  {
    if bit / 8 >= |bits| then bits
    else
      BitBound(bits[bit / 8], bit % 8, on, 8);
      EightBits();
      bits[bit / 8 := WithBit(bits[bit / 8], bit % 8, on)]
  }

  lemma PutTest(bits: seq<Byte>, bit: nat, on: bool, other: nat)
    requires bit / 8 < |bits|
    ensures Test(Put(bits, bit, on), other) <==> if other == bit then on else Test(bits, other)
  {
    hide Bit, WithBit;
    if other / 8 == bit / 8 { BitOf(bits[bit / 8], bit % 8, on, other % 8); }
  }

  /** The first clear bit below a bound, or -1. */
  method FindZero(bits: seq<Byte>, max: nat) returns (bit: int)
    ensures -1 <= bit < max
    ensures bit >= 0 ==> !Test(bits, bit) && forall k :: 0 <= k < bit ==> Test(bits, k)
    ensures bit < 0 ==> forall k :: 0 <= k < max ==> Test(bits, k)
  {
    bit := 0;
    while bit < max
      invariant 0 <= bit <= max && forall k :: 0 <= k < bit ==> Test(bits, k)
    {
      if !Test(bits, bit) { return; }
      bit := bit + 1;
    }
    bit := -1;
  }
}
