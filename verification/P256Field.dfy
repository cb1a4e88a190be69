/**
The P-256 constants of crypto/ecc.c and its field operations, seen on the
residues that Montgomery limbs stand for.
*/
module P256Field {
  import opened Modular
  import opened Limbs
  import opened Montgomery
  import opened ModExp

  const P: Fe := [0xffff_ffff_ffff_ffff, 0x0000_0000_ffff_ffff, 0, 0xffff_ffff_0000_0001]
  const N: Fe := [0xf3b9_cac2_fc63_2551, 0xbce6_faad_a717_9e84, 0xffff_ffff_ffff_ffff, 0xffff_ffff_0000_0000]
  const B: Fe := [0x3bce_3c3e_27d2_604b, 0x651d_06b0_cc53_b0f6, 0xb3eb_bd55_7698_86bc, 0x5ac6_35d8_aa3a_93e7]
  const GX: Fe := [0xf4a1_3945_d898_c296, 0x7703_7d81_2deb_33a0, 0xf8bc_e6e5_63a4_40f2, 0x6b17_d1f2_e12c_4247]
  const GY: Fe := [0xcbb6_4068_37bf_51f5, 0x2bce_3357_6b31_5ece, 0x8ee7_eb4a_7c0f_9e16, 0x4fe3_42e2_fe1a_7f9b]
  const P0INV: u64 := 1
  const N0INV: u64 := 0xccd1_c8aa_ee00_bc4f
  const R2P: Fe := [3, 0xffff_fffb_ffff_ffff, 0xffff_ffff_ffff_fffe, 0x0000_0004_ffff_fffd]
  const R2N: Fe := [0x8324_4c95_be79_eea2, 0x4699_799c_49bd_6fa6, 0x2845_b239_2b6b_ec59, 0x66e1_2d94_f3d9_5620]

  /** The field prime and the group order as numbers. */
  ghost const PRIME: nat := Val(P)
  ghost const ORDER: nat := Val(N)

  lemma FourLimbVal(a: Fe)
    ensures PowW(1) == W && PowW(2) == W * W && PowW(3) == W * W * W && PowW(4) == W * W * W * W
    ensures Val(a) == a[0] + a[1] * W + a[2] * (W * W) + a[3] * (W * W * W)
  {
    assert PowW(1) == W * PowW(0);
    assert LeN(a, 1) == LeN(a, 0) + a[0] * PowW(0);
    assert LeN(a, 2) == LeN(a, 1) + a[1] * PowW(1);
    assert LeN(a, 3) == LeN(a, 2) + a[2] * PowW(2);
  }

  /** The moduli, their word inverses and 2^512 modulo each are as published. */
  lemma PConstants()
    ensures PRIME == 0xffffffff00000001000000000000000000000000ffffffffffffffffffffffff
    ensures MontModulus(P, P0INV)
    ensures Val(R2P) < PRIME && Cong(Val(R2P), R * R, PRIME)
  {
    hide LeN, PowW;
    FourLimbVal(P);
    FourLimbVal(R2P);
    CongFromMultiple(R * R, Val(R2P), 0x100000000fffffffffffffffefffffffefffffffeffffffff0000000000000003, PRIME);
  }

  /** The facts the field operations use, without the literal. */
  lemma PModulus()
    ensures PRIME > 3 && MontModulus(P, P0INV)
    ensures Val(R2P) < PRIME && Cong(Val(R2P), R * R, PRIME)
  {
    hide LeN, PowW;
    PConstants();
  }

  lemma NConstants()
    ensures ORDER == 0xffffffff00000000ffffffffffffffffbce6faada7179e84f3b9cac2fc632551
    ensures MontModulus(N, N0INV)
    ensures Val(R2N) < ORDER && Cong(Val(R2N), R * R, ORDER)
  {
    hide LeN, PowW;
    FourLimbVal(N);
    FourLimbVal(R2N);
    CongFromMultiple(R * R, Val(R2N), 0x100000000fffffffffffffffeffffffff43190552df1a6c21012ffd85eedf9bfe, ORDER);
  }

  // -------------------------------------------------- field element methods

  /** x shifted left by n words. */
  ghost function Shifted(x: int, n: nat): int {
    if n == 0 then x else Shifted(x, n - 1) * W
  }

  lemma {:induction false} ShiftedBy(x: int, n: nat)
    ensures Shifted(x, n) == x * PowW(n)
  {
    hide LeN;
    if n > 0 {
      ShiftedBy(x, n - 1);
      assert (x * PowW(n - 1)) * W == x * (W * PowW(n - 1));
    }
  }

  /** a is a reduced field element whose limbs are the Montgomery form of x: x shifted by the
      length of a, modulo the prime. */
  ghost predicate Holds(a: Fe, x: int) {
    PModulus();
    Val(a) < PRIME && Cong(Val(a), Shifted(x, |a|), PRIME)
  }

  lemma HoldsIs(a: Fe, x: int)
    ensures PRIME > 0 && (Holds(a, x) <==> Val(a) < PRIME && IsMont(Val(a), x, PRIME))
  {
    hide LeN, PowW;
    PModulus();
    ShiftedBy(x, |a|);
  }

  /** fe_mul_p and fe_sqr_p. */
  method MulP(a: Fe, b: Fe, ghost x: int, ghost y: int) returns (r: Fe)
    requires Holds(a, x) && Holds(b, y)
    ensures Holds(r, x * y)
  {
    hide LeN, PowW;
    PModulus();
    HoldsIs(a, x);
    HoldsIs(b, y);
    r := MulMont(a, b, P, P0INV, x, y);
    HoldsIs(r, x * y);
  }

  /** fe_add_p. */
  method AddP(a: Fe, b: Fe, ghost x: int, ghost y: int) returns (r: Fe)
    requires Holds(a, x) && Holds(b, y)
    ensures Holds(r, x + y)
  {
    hide LeN, PowW;
    PModulus();
    HoldsIs(a, x);
    HoldsIs(b, y);
    r := AddM(a, b, P);
    HoldsIs(r, x + y);
    CongMod(Val(a) + Val(b), PRIME);
    CongAdd(Val(a), x * R, Val(b), y * R, PRIME);
    assert x * R + y * R == (x + y) * R;
  }

  /** fe_sub_p. */
  method SubP(a: Fe, b: Fe, ghost x: int, ghost y: int) returns (r: Fe)
    requires Holds(a, x) && Holds(b, y)
    ensures Holds(r, x - y)
  {
    hide LeN, PowW;
    PModulus();
    HoldsIs(a, x);
    HoldsIs(b, y);
    r := SubM(a, b, P);
    HoldsIs(r, x - y);
    CongMod(Val(a) - Val(b), PRIME);
    CongSub(Val(a), x * R, Val(b), y * R, PRIME);
    assert x * R - y * R == (x - y) * R;
  }

  /** to_mont_p, for any 256-bit number. */
  method ToMontP(a: Fe) returns (r: Fe)
    ensures Holds(r, Val(a))
  {
    hide LeN, PowW;
    PModulus();
    r := ToMont(a, R2P, P, P0INV);
    HoldsIs(r, Val(a));
  }

  /** from_mont_p. */
  method FromMontP(a: Fe, ghost x: int) returns (r: Fe)
    requires Holds(a, x)
    ensures PRIME > 0 && Val(r) == x % PRIME
  {
    hide LeN, PowW;
    PModulus();
    HoldsIs(a, x);
    r := FromMont(a, P, P0INV, x);
  }

  lemma {:induction false} ZeroLimbs(a: seq<u64>, k: nat)
    requires k <= |a|
    ensures LeN(a, k) == 0 <==> forall i :: 0 <= i < k ==> a[i] == 0
    decreases k
  {
    if k > 0 {
      ZeroLimbs(a, k - 1);
      if a[k - 1] > 0 { MulMono(1, a[k - 1], PowW(k - 1)); }
    }
  }

  /** fe_is_zero decides whether the residue is zero. */
  method IsZero(a: Fe) returns (z: bool)
    ensures z <==> Val(a) == 0
  {
    hide LeN, PowW;
    z := a[0] == 0 && a[1] == 0 && a[2] == 0 && a[3] == 0;
    ZeroLimbs(a, 4);
  }

  lemma ZeroResidue(a: Fe, x: int)
    requires Holds(a, x)
    ensures PRIME > 0 && (Val(a) == 0 <==> Cong(x, 0, PRIME))
  {
    hide LeN, PowW;
    PModulus();
    HoldsIs(a, x);
    if Cong(x, 0, PRIME) {
      CongMul(x, 0, R, R, PRIME);
      CongSmall(Val(a), 0, PRIME);
    }
    if Val(a) == 0 {
      assert 0 * R == 0;
      CancelRadix(0, x, P, P0INV);
    }
  }

  /** Two residues held by the same limbs agree. */
  lemma HoldsUnique(a: Fe, x: int, y: int)
    requires Holds(a, x) && Holds(a, y)
    ensures PRIME > 0 && Cong(x, y, PRIME)
  {
    hide LeN, PowW;
    PModulus();
    HoldsIs(a, x);
    HoldsIs(a, y);
    CancelRadix(x, y, P, P0INV);
  }

  lemma HoldsCong(a: Fe, x: int, y: int)
    requires PRIME > 0 && Holds(a, x) && Cong(x, y, PRIME)
    ensures Holds(a, y)
  {
    hide LeN, PowW;
    HoldsIs(a, x);
    HoldsIs(a, y);
    CongMul(x, y, R, R, PRIME);
  }
}
