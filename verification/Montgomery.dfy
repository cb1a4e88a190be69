/**
Modular addition, subtraction, word-by-word Montgomery multiplication and
binary exponentiation of crypto/ecc.c, for an arbitrary odd 256-bit modulus.
*/
module Montgomery {
  import opened Modular
  import opened Limbs

  /** R == 2^256, the Montgomery radix. */
  ghost const R: nat := PowW(4)

  lemma TopLimb(s: seq<u64>, m: nat)
    requires |s| == 5 && m < R
    ensures LeN(s, 5) == LeN(s, 4) + s[4] * R
    ensures LeN(s, 5) < m <==> s[4] == 0 && LeN(s, 4) < m
  {
    if s[4] >= 1 { MulMono(1, s[4], R); }
  }

  lemma NoBorrow(s: seq<u64>, n: nat, v: nat, borrow: nat)
    requires n <= |s| && borrow <= 1 && LeN(s, n) == v + borrow * PowW(n)
    ensures borrow == 0 && LeN(s, n) == v
  {
    hide LeN, PowW;
    LeNBound(s, n);
  }

  /** fe_add_m: inputs below the modulus give the canonical sum. */
  method AddM(a: Fe, b: Fe, mod: Fe) returns (r: Fe)
    requires Val(a) < Val(mod) && Val(b) < Val(mod)
    ensures Val(r) < Val(mod)
    ensures Val(r) == (Val(a) + Val(b)) % Val(mod)
  {
    ghost var m, sum := Val(mod), Val(a) + Val(b);
    LeNBound(mod, 4);
    var s := new u64[5](i => 0);
    forall i | 0 <= i < 4 { s[i] := a[i]; }
    LeNPrefix(s[..], a, 4);
    var carry := AddInPlace(s, b);
    ghost var low := s[..];
    s[4] := carry;
    LeNPrefix(low, s[..], 4);
    var k := 0;
    while k < 2
      invariant 0 <= k <= 1
      invariant LeN(s[..], 5) == sum - k * m >= 0
      invariant k == 1 ==> LeN(s[..], 5) < m
    {
      TopLimb(s[..], m);
      var ge := Ge(s[..], mod);
      if s[4] == 0 && !ge { break; }
      var borrow := SubInPlace(s, mod, 5);
      NoBorrow(s[..], 5, sum - m, borrow);
      k := k + 1;
    }
    TopLimb(s[..], m);
    DivModUnique(sum, k, LeN(s[..], 5), m);
    r := FourLimbs(s[..]);
  }

  /** fe_sub_m: inputs below the modulus give the canonical difference. */
  method SubM(a: Fe, b: Fe, mod: Fe) returns (r: Fe)
    requires Val(a) < Val(mod) && Val(b) < Val(mod)
    ensures Val(r) < Val(mod)
    ensures Val(r) == (Val(a) - Val(b)) % Val(mod)
  {
    hide LeN, PowW;
    ghost var m, diff := Val(mod), Val(a) - Val(b);
    LeNBound(mod, 4);
    var s := new u64[4](i requires 0 <= i < 4 => a[i]);
    assert s[..] == a;
    var borrow := SubInPlace(s, b, 4);
    LeNBound(s[..], 4);
    if borrow != 0 {
      var carry := AddInPlace(s, mod);
      LeNBound(s[..], 4);
      DivModUnique(diff, -1, LeN(s[..], 4), m);
    } else {
      DivModUnique(diff, 0, diff, m);
    }
    r := FourLimbs(s[..]);
  }

  /** The multiply-accumulate loop of mont_mul_m over the four low limbs. */
  method MulRow(t: array<u64>, x: u64, y: Fe) returns (carry: u64)
    requires t.Length == 8
    modifies t
    ensures forall k :: 4 <= k < 8 ==> t[k] == old(t[k])
    ensures LeN(t[..], 4) + carry * R == LeN(old(t[..]), 4) + x * Val(y)
  {
    ghost var before := t[..];
    carry := 0;
    var j := 0;
    while j < 4
      invariant 0 <= j <= 4
      invariant forall k :: j <= k < 8 ==> t[k] == before[k]
      invariant LeN(t[..], j) + carry * PowW(j) == LeN(before, j) + x * LeN(y, j)
    {
      ghost var mid := t[..];
      ghost var carryIn := carry;
      var cur := t[j] + x * y[j] + carry;
      ProductFits(t[j], x, y[j], carry);
      HighWordFits(cur);
      t[j] := cur % W;
      carry := cur / W;
      LeNPrefix(mid, t[..], j);
      CarryStep(LeN(mid, j), cur, PowW(j));
      MulTerm(before[j], x, y[j], carryIn, LeN(y, j), PowW(j));
      j := j + 1;
    }
  }

  lemma HighWordFits(cur: nat)
    requires cur < W * W
    ensures cur / W < W
  {
    hide LeN, PowW;
    var q := cur / W;
    assert q * W <= cur;
    if q >= W { MulMono(W, q, W); }
  }

  lemma CarryRow(lo: nat, x: nat, c: nat, p: nat)
    ensures lo + ((x + c) % W) * p + ((x + c) / W) * (W * p) == lo + x * p + c * p
  {
    hide LeN, PowW;
    CarryStep(lo, x + c, p);
    assert (x + c) * p == x * p + c * p;
  }

  /** The carry run-out into the high limbs, which stops at the first zero carry. */
  method RunCarry(t: array<u64>, c: u64, ghost total: nat)
    requires t.Length == 8
    requires LeN(t[..], 8) + c * PowW(4) == total < PowW(8)
    modifies t
    ensures LeN(t[..], 8) == total
  {
    ghost var before := t[..];
    var carry: u64 := c;
    var j := 4;
    while j < 8 && carry != 0
      invariant 4 <= j <= 8
      invariant forall k :: j <= k < 8 ==> t[k] == before[k]
      invariant LeN(t[..], j) + carry * PowW(j) + LeN(before, 8) - LeN(before, j) == total
    {
      ghost var mid := t[..];
      CarryRow(LeN(mid, j), t[j], carry, PowW(j));
      var cur := t[j] + carry;
      t[j] := cur % W;
      carry := cur / W;
      LeNPrefix(mid, t[..], j);
      j := j + 1;
    }
    LeNSuffix(t[..], before, j, 8);
    if carry != 0 {
      MulMono(1, carry, PowW(8));
    }
  }

  /** One row of mont_mul_m: t += x * y. The 128-bit intermediates and the top
      limb never overflow, so no carry is dropped. */
  method AddMulRow(t: array<u64>, x: u64, y: Fe)
    requires t.Length == 8
    requires Val(t[..]) + x * Val(y) < PowW(8)
    modifies t
    ensures Val(t[..]) == Val(old(t[..])) + x * Val(y)
  {
    hide LeN, PowW;
    ghost var before := t[..];
    var carry := MulRow(t, x, y);
    LeNSuffix(t[..], before, 4, 8);
    RunCarry(t, carry, Val(before) + x * Val(y));
  }

  lemma ProductFits(t: u64, x: u64, y: u64, c: u64)
    ensures t + x * y + c < W * W
  {
    hide LeN, PowW;
    MulMono(x, W - 1, y);
    MulMono(y, W - 1, W - 1);
  }

  lemma MulTerm(t: nat, x: nat, y: nat, c: nat, l: nat, p: nat)
    ensures (t + x * y + c) * p == t * p + c * p + (x * (l + y * p) - x * l)
  {
    hide LeN, PowW;
    assert (x * y) * p == x * (y * p);
  }

  /** Divides by the word size: t[j] = t[j+1], t[7] = 0. */
  method ShiftDown(t: array<u64>)
    requires t.Length == 8 && t[0] == 0
    modifies t
    ensures Val(t[..]) * W == Val(old(t[..]))
    ensures t[7] == 0
  {
    hide LeN, PowW;
    ghost var before := t[..];
    var j := 0;
    while j < 7
      invariant 0 <= j <= 7
      invariant forall k :: 0 <= k < j ==> t[k] == before[k + 1]
      invariant forall k :: j <= k < 8 ==> t[k] == before[k]
    {
      t[j] := t[j + 1];
      j := j + 1;
    }
    t[7] := 0;
    LeNShift(before, 7);
    LeNPrefix(t[..], before[1..], 7);
    LeNZeroTail(t[..], 7, 8);
  }

  /** The reduction factor clears the lowest limb. */
  lemma ReductionClears(t: nat, t0: u64, m: u64, mod: nat, mod0: u64, inv: u64, sum: nat)
    requires Cong(t, t0, W) && Cong(mod, mod0, W)
    requires m == (t0 * inv) % W && (mod0 * inv + 1) % W == 0
    requires sum == t + m * mod
    ensures Cong(sum, 0, W)
  {
    hide LeN, PowW;
    CongMod(t0 * inv, W);
    CongMul(m, t0 * inv, mod, mod0, W);
    CongAdd(t, t0, m * mod, (t0 * inv) * mod0, W);
    assert t0 + (t0 * inv) * mod0 == t0 * (mod0 * inv + 1);
    CongMul(t0, t0, mod0 * inv + 1, 0, W);
  }

  lemma LowLimbCong(s: seq<u64>)
    requires |s| > 0
    ensures Cong(Val(s), s[0], W)
  {
    hide LeN, PowW;
    LeNShift(s, |s| - 1);
    CongFromMultiple(Val(s), s[0], LeN(s[1..], |s| - 1), W);
  }

  /** The bound that keeps the accumulator below b + mod from row to row. */
  lemma RowBound(t: nat, t': nat, x: u64, b: nat, m: u64, mod: nat)
    requires t < b + mod && t' * W == t + x * b + m * mod
    ensures t' < b + mod
  {
    hide LeN, PowW;
    MulMono(x, W - 1, b);
    MulMono(m, W - 1, mod);
    assert t' * W < (b + mod) + (W - 1) * b + (W - 1) * mod;
    assert (b + mod) + (W - 1) * b + (W - 1) * mod == (b + mod) * W;
    if t' >= b + mod { MulMono(b + mod, t', W); }
  }

  /** No row ever reaches W^6, so no carry is lost in the eight-limb buffer. */
  lemma RowFits(t: nat, x: u64, b: nat, m: u64, mod: nat)
    requires b < R && mod < R && t < b + mod
    ensures t + x * b + m * mod < PowW(8)
  {
    MulMono(x, W - 1, b);
    MulMono(m, W - 1, mod);
    MulMono(b, R, W - 1);
    MulMono(mod, R, W - 1);
    assert t + x * b + m * mod < 2 * R + 2 * ((W - 1) * R);
    PowWMono(5, 7);
    assert PowW(5) == W * R;
    assert 2 * R + 2 * ((W - 1) * R) == 2 * PowW(5);
    assert PowW(8) == W * PowW(7);
    MulMono(2, W, PowW(7));
  }

  lemma RowInvariant(t: nat, t': nat, x: u64, b: nat, m: u64, mod: nat, k: nat, lo: nat, q: nat)
    requires t' * W == t + x * b + m * mod
    requires t * PowW(k) == lo * b + q * mod
    ensures t' * PowW(k + 1) == (lo + x * PowW(k)) * b + (q + m * PowW(k)) * mod
  {
    var p := PowW(k);
    assert t' * (W * p) == (t + x * b + m * mod) * p by {
      assert t' * (W * p) == (t' * W) * p;
    }
    assert (t + x * b + m * mod) * p == t * p + (x * p) * b + (m * p) * mod;
    assert (lo + x * p) * b == lo * b + (x * p) * b;
    assert (q + m * p) * mod == q * mod + (m * p) * mod;
  }

  /** One outer iteration of mont_mul_m: add x * b, add the multiple of the
      modulus that clears the lowest limb, and drop that limb. */
  method Row(t: array<u64>, x: u64, b: Fe, mod: Fe, mod0inv: u64) returns (m: u64)
    requires t.Length == 8
    requires (mod[0] * mod0inv + 1) % W == 0
    requires Val(t[..]) < Val(b) + Val(mod)
    modifies t
    ensures Val(t[..]) * W == old(Val(t[..])) + x * Val(b) + m * Val(mod)
  {
    hide LeN, PowW;
    ghost var v, vb, vm := Val(t[..]), Val(b), Val(mod);
    LeNBound(b, 4);
    LeNBound(mod, 4);
    RowFits(v, x, vb, 0, vm);
    AddMulRow(t, x, b);
    ghost var v1 := Val(t[..]);
    LowLimbCong(t[..]);
    LowLimbCong(mod);
    m := (t[0] * mod0inv) % W;
    ReductionClears(v1, t[0], m, vm, mod[0], mod0inv, v1 + m * vm);
    RowFits(v, x, vb, m, vm);
    AddMulRow(t, m, mod);
    LowLimbCong(t[..]);
    CongSmall(t[0], 0, W);
    ShiftDown(t);
  }

  /** mont_mul_m: for an odd modulus with its word inverse, b below the modulus
      and any 256-bit a, the result is canonical and r * 2^256 == a * b. */
  method MulM(a: Fe, b: Fe, mod: Fe, mod0inv: u64) returns (r: Fe)
    requires Val(b) < Val(mod)
    requires (mod[0] * mod0inv + 1) % W == 0
    ensures Val(r) < Val(mod)
    ensures Cong(Val(r) * R, Val(a) * Val(b), Val(mod))
  {
    ghost var vb, vm := Val(b), Val(mod);
    var t := new u64[8](i => 0);
    LeNZeroTail(t[..], 0, 8);
    ghost var q: nat := 0;
    var i := 0;
    while i < 4
      invariant 0 <= i <= 4
      invariant Val(t[..]) < vb + vm
      invariant Val(t[..]) * PowW(i) == LeN(a, i) * vb + q * vm
    {
      ghost var v := Val(t[..]);
      var m := Row(t, a[i], b, mod, mod0inv);
      RowBound(v, Val(t[..]), a[i], vb, m, vm);
      RowInvariant(v, Val(t[..]), a[i], vb, m, vm, i, LeN(a, i), q);
      q := q + m * PowW(i);
      i := i + 1;
    }
    ghost var v := Val(t[..]);
    r := FinalReduce(t, mod);
    ReducedProduct(v, Val(r), Val(a), vb, vm, q, R);
  }

  /** A product with w divided by, before and after a final subtraction. */
  lemma ReducedProduct(v: nat, r: nat, a: nat, b: nat, m: nat, q: nat, w: nat)
    requires m > 0 && v * w == a * b + q * m
    requires r == v || r == v - m
    ensures Cong(r * w, a * b, m)
  {
    hide LeN, PowW;
    CongFromMultiple(v * w, a * b, q, m);
    if r == v - m {
      assert (v - m) * w == v * w + (0 - w) * m;
      CongFromMultiple(r * w, v * w, 0 - w, m);
    }
  }

  /** The final conditional subtraction, on eight limbs when the top is set. */
  method FinalReduce(t: array<u64>, mod: Fe) returns (r: Fe)
    requires t.Length == 8 && Val(t[..]) < 2 * Val(mod)
    modifies t
    ensures Val(r) < Val(mod)
    ensures Val(r) == if old(Val(t[..])) >= Val(mod) then old(Val(t[..])) - Val(mod) else old(Val(t[..]))
  {
    hide LeN, PowW;
    ghost var v, m := Val(t[..]), Val(mod);
    LeNBound(mod, 4);
    if t[4] != 0 || t[5] != 0 || t[6] != 0 || t[7] != 0 {
      if v < R { HighLimbsZero(t[..], 4, 8); }
      var borrow := SubInPlace(t, mod, 8);
      NoBorrow(t[..], 8, v - m, borrow);
      HighLimbsZero(t[..], 4, 8);
      LeNZeroTail(t[..], 4, 8);
    } else {
      LeNZeroTail(t[..], 4, 8);
      var ge := Ge(t[..], mod);
      if ge {
        var borrow := SubInPlace(t, mod, 4);
        NoBorrow(t[..], 4, v - m, borrow);
      }
    }
    r := FourLimbs(t[..]);
  }
}
