/**
Bits of multi-limb scalars, conversion to and from Montgomery form, and the
right-to-left binary exponentiation mod_exp of crypto/ecc.c.
*/
module ModExp {
  import opened Modular
  import opened Limbs
  import opened Montgomery

  function P2(n: nat): nat { Pow(2, n) }

  lemma P2Double(n: nat, v: nat)
    requires P2(n) == v
    ensures P2(n + n) == v * v
  {
    hide LeN, PowW;
    PowAdd(2, n, n);
  }

  /** The word size is 2^64 (the exponent is a variable so as not to unfold it). */
  lemma P2Word(n: nat)
    requires n == 64
    ensures P2(n) == W
  {
    hide LeN, PowW;
    var h := n / 64;
    assert P2(h) == 2 * P2(h - 1);
    P2Double(h, 2);
    P2Double(2 * h, 4);
    P2Double(4 * h, 16);
    P2Double(8 * h, 256);
    P2Double(16 * h, 0x1_0000);
    P2Double(32 * h, 0x1_0000_0000);
  }

  /** The bit test (k[bit >> 6] >> (bit & 63)) & 1. */
  function BitOf(k: Fe, bit: nat): nat
    requires bit < 256
  {
    (k[bit / 64] / P2(bit % 64)) % 2
  }

  /** The number formed by the lowest bits of a scalar. */
  ghost function LowBits(k: Fe, bit: nat): nat
    requires bit <= 256
  {
    if bit == 256 then Val(k)
    else LeN(k, bit / 64) + (k[bit / 64] % P2(bit % 64)) * PowW(bit / 64)
  }

  lemma HalfStep(x: nat, p: nat)
    requires p > 0
    ensures x % (2 * p) == x % p + ((x / p) % 2) * p
  {
    hide LeN, PowW;
    var q, r := x / p, x % p;
    var h, b := q / 2, q % 2;
    HalfSplit(x, p, q, r, h, b);
    DivModUnique(x, h, b * p + r, 2 * p);
  }

  lemma HalfSplit(x: nat, p: nat, q: nat, r: nat, h: nat, b: nat)
    requires x == q * p + r && q == 2 * h + b && b <= 1
    ensures x == h * (2 * p) + (b * p + r)
  {
    hide LeN, PowW;
    assert (2 * h + b) * p == h * (2 * p) + b * p;
  }

  lemma {:induction false} P2Limbs(i: nat, j: nat)
    ensures P2(64 * i + j) == PowW(i) * P2(j)
    decreases i
  {
    if i > 0 {
      var w :| w == 64;
      P2Limbs(i - 1, j);
      P2Word(w);
      PowAdd(2, w, 64 * (i - 1) + j);
      MulAssoc(W, PowW(i - 1), P2(j));
    }
  }

  lemma LowBitsStep(k: Fe, bit: nat)
    requires bit < 256
    ensures LowBits(k, bit + 1) == LowBits(k, bit) + BitOf(k, bit) * P2(bit)
  {
    var i, j := bit / 64, bit % 64;
    var x, p, b := k[i], P2(j), BitOf(k, bit);
    assert bit == 64 * i + j;
    P2Limbs(i, j);
    HalfStep(x, p);
    assert P2(j + 1) == 2 * p;
    BitTerm(x % p, b, p, PowW(i));
    if j < 63 {
      assert (bit + 1) / 64 == i && (bit + 1) % 64 == j + 1;
    } else {
      P2Word(j + 1);
      DivModUnique(x, 0, x, W);
      assert bit + 1 == 64 * (i + 1);
      if i < 3 {
        assert (bit + 1) / 64 == i + 1 && (bit + 1) % 64 == 0;
        assert k[i + 1] % P2(0) == 0;
      }
    }
  }

  lemma BitTerm(l: nat, b: nat, p: nat, w: nat)
    ensures (l + b * p) * w == l * w + b * (w * p)
  {
  }

  lemma LowBitsZero(k: Fe)
    ensures LowBits(k, 0) == 0
  {
    assert k[0] % P2(0) == 0;
  }

  // ------------------------------------------------------- Montgomery form

  /** What mont_mul_m demands of a modulus and its word inverse. */
  ghost predicate MontModulus(mod: Fe, inv: u64) {
    Val(mod) > 1 && (mod[0] * inv + 1) % W == 0
  }

  /** a is the Montgomery form of x: a == x * 2^256 modulo the modulus. */
  ghost predicate IsMont(a: int, x: int, m: int)
    requires m > 0
  {
    Cong(a, x * R, m)
  }

  /** The word inverse of the modulus also yields an inverse of the radix. */
  lemma RadixInverse(mod: Fe, inv: u64) returns (ri: nat)
    requires MontModulus(mod, inv)
    ensures Cong(R * ri, 1, Val(mod))
  {
    var m := Val(mod);
    LowLimbCong(mod);
    CongMul(m, mod[0], inv, inv, W);
    CongAdd(m * inv, mod[0] * inv, 1, 1, W);
    var k := (m * inv + 1) / W;
    assert Cong(m * inv + 1, 0, W);
    assert k * W == m * inv + 1;
    CongFromMultiple(k * W, 1, inv, m);
    CongPow(k * W, 1, 4, m);
    PowOne(4);
    PowBase(k, W, 4);
    assert Pow(W, 4) == R by {
      assert Pow(W, 1) == W * Pow(W, 0);
      assert Pow(W, 2) == W * Pow(W, 1);
      assert Pow(W, 3) == W * Pow(W, 2);
      assert PowW(1) == W * PowW(0);
      assert PowW(2) == W * PowW(1);
      assert PowW(3) == W * PowW(2);
    }
    ri := Pow(k, 4);
  }

  lemma CancelRadix(a: int, b: int, mod: Fe, inv: u64)
    requires MontModulus(mod, inv) && Cong(a * R, b * R, Val(mod))
    ensures Cong(a, b, Val(mod))
  {
    hide LeN, PowW;
    var m := Val(mod);
    var ri := RadixInverse(mod, inv);
    CongMul(a * R, b * R, ri, ri, m);
    CongMul(a, a, R * ri, 1, m);
    CongMul(b, b, R * ri, 1, m);
    MulAssoc(a, R, ri);
    MulAssoc(b, R, ri);
  }

  /** The Montgomery product of two Montgomery forms is the form of the product. */
  lemma MontProduct(r: int, a: int, b: int, x: int, y: int, mod: Fe, inv: u64)
    requires MontModulus(mod, inv)
    requires Cong(r * R, a * b, Val(mod)) && IsMont(a, x, Val(mod)) && IsMont(b, y, Val(mod))
    ensures IsMont(r, x * y, Val(mod))
  {
    hide LeN, PowW;
    CongMul(a, x * R, b, y * R, Val(mod));
    assert (x * R) * (y * R) == ((x * y) * R) * R by { MulShuffle(x, R, y, R); }
    CancelRadix(r, (x * y) * R, mod, inv);
  }

  /** mont_mul_m seen on the numbers that its arguments are the forms of. */
  method MulMont(a: Fe, b: Fe, mod: Fe, inv: u64, ghost x: int, ghost y: int) returns (r: Fe)
    requires MontModulus(mod, inv) && Val(b) < Val(mod)
    requires IsMont(Val(a), x, Val(mod)) && IsMont(Val(b), y, Val(mod))
    ensures Val(r) < Val(mod) && IsMont(Val(r), x * y, Val(mod))
  {
    hide LeN, PowW;
    r := MulM(a, b, mod, inv);
    MontProduct(Val(r), Val(a), Val(b), x, y, mod, inv);
  }

  /** to_mont: multiplication by 2^512 modulo the modulus. */
  method ToMont(a: Fe, r2: Fe, mod: Fe, inv: u64) returns (r: Fe)
    requires MontModulus(mod, inv) && Val(r2) < Val(mod) && Cong(Val(r2), R * R, Val(mod))
    ensures Val(r) < Val(mod) && IsMont(Val(r), Val(a), Val(mod))
  {
    hide LeN, PowW;
    r := MulM(a, r2, mod, inv);
    CongMul(Val(a), Val(a), Val(r2), R * R, Val(mod));
    MulAssoc(Val(a), R, R);
    CancelRadix(Val(r), Val(a) * R, mod, inv);
  }

  const ONE: Fe := [1, 0, 0, 0]

  lemma OneVal()
    ensures Val(ONE) == 1
  {
    LeNZeroTail(ONE, 1, 4);
    assert LeN(ONE, 1) == LeN(ONE, 0) + 1 * PowW(0);
  }

  /** from_mont: multiplication by one gives back the canonical residue. */
  method FromMont(a: Fe, mod: Fe, inv: u64, ghost x: int) returns (r: Fe)
    requires MontModulus(mod, inv) && IsMont(Val(a), x, Val(mod))
    ensures Val(r) == x % Val(mod) < Val(mod)
  {
    hide LeN, PowW;
    OneVal();
    r := MulM(a, ONE, mod, inv);
    CancelRadix(Val(r), x, mod, inv);
    CongMod(x, Val(mod));
    CongSmall(Val(r), x % Val(mod), Val(mod));
  }

  /** mod_exp: r == base^exp modulo the modulus, for every 256-bit exponent. */
  method Exp(base: Fe, exp: Fe, mod: Fe, inv: u64, r2: Fe) returns (r: Fe)
    requires MontModulus(mod, inv) && Val(r2) < Val(mod) && Cong(Val(r2), R * R, Val(mod))
    ensures Val(r) == Pow(Val(base), Val(exp)) % Val(mod)
  {
    ghost var m, b := Val(mod), Val(base);
    var bm := ToMont(base, r2, mod, inv);
    OneVal();
    var acc := ToMont(ONE, r2, mod, inv);
    LowBitsZero(exp);
    var bit := 0;
    while bit < 256
      invariant 0 <= bit <= 256
      invariant Val(bm) < m && IsMont(Val(bm), Pow(b, P2(bit)), m)
      invariant Val(acc) < m && IsMont(Val(acc), Pow(b, LowBits(exp, bit)), m)
    {
      LowBitsStep(exp, bit);
      if BitOf(exp, bit) == 1 {
        acc := MulMont(acc, bm, mod, inv, Pow(b, LowBits(exp, bit)), Pow(b, P2(bit)));
        PowAdd(b, LowBits(exp, bit), P2(bit));
      }
      bm := MulMont(bm, bm, mod, inv, Pow(b, P2(bit)), Pow(b, P2(bit)));
      PowAdd(b, P2(bit), P2(bit));
      bit := bit + 1;
    }
    r := FromMont(acc, mod, inv, Pow(b, Val(exp)));
  }
}
