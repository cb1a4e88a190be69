/**
Byte conversion, scalar arithmetic modulo the group order, and ECDSA signing
and verification as crypto/ecc.c performs them.
*/
module Ecdsa {
  import opened Basics
  import opened Modular
  import opened Limbs
  import opened Montgomery
  import opened ModExp
  import opened P256Field
  import opened Curve
  import opened P256Points
  import opened Signatures

  type Bytes32 = s: seq<Byte> | |s| == 32 witness seq(32, i => 0)

  // ------------------------------------------------------- byte conversion

  lemma BeAppend(s: seq<Byte>, b: Byte)
    ensures BeVal(s + [b]) == BeVal(s) * 256 + b
  {
    hide LeN, PowW;
    assert (s + [b])[..|s|] == s;
  }

  lemma WordBytes(k: nat)
    requires k == 8
    ensures Pow(256, k) == W
  {
    hide LeN, PowW;
    assert Pow(256, k - 7) == 256 * Pow(256, k - 8);
    PowAdd(256, k - 7, k - 7);
    PowAdd(256, k - 6, k - 6);
    PowAdd(256, k - 4, k - 4);
  }

  lemma ShiftIn(h: nat, w: nat, v: nat, b: nat)
    ensures (h * w + v) * 256 + b == h * (256 * w) + (v * 256 + b)
  {
    hide LeN, PowW;
  }

  /** Eight bytes make a limb: v = (v << 8) | in[at + j]. */
  method WordFromBytes(bytes: Bytes32, at: nat) returns (v: u64)
    requires at + 8 <= 32
    ensures BeVal(bytes[..at + 8]) == BeVal(bytes[..at]) * W + v
  {
    hide LeN, PowW;
    var acc: nat := 0;
    var j := 0;
    ghost var h := BeVal(bytes[..at]);
    assert h * Pow(256, 0) == h;
    while j < 8
      invariant 0 <= j <= 8
      invariant acc < Pow(256, j)
      invariant BeVal(bytes[..at + j]) == h * Pow(256, j) + acc
    {
      BeAppend(bytes[..at + j], bytes[at + j]);
      assert bytes[..at + j] + [bytes[at + j]] == bytes[..at + j + 1];
      ShiftIn(h, Pow(256, j), acc, bytes[at + j]);
      acc := acc * 256 + bytes[at + j];
      j := j + 1;
    }
    WordBytes(j);
    v := acc;
  }

  /** be_to_limbs. */
  method BeToLimbs(bytes: Bytes32) returns (out: Fe)
    ensures Val(out) == BeVal(bytes)
  {
    var acc: seq<u64> := [];
    var i := 0;
    while i < 4
      invariant 0 <= i <= 4 && |acc| == i
      invariant BeVal(bytes[..8 * i]) == Val(acc)
    {
      var v := WordFromBytes(bytes, 8 * i);
      LeNShift([v] + acc, |acc|);
      assert ([v] + acc)[1..] == acc;
      acc := [v] + acc;
      i := i + 1;
    }
    assert bytes[..32] == bytes;
    out := acc;
  }

  lemma ByteOf(v: nat, w: nat)
    requires w > 0
    ensures v / w == (v / (w * 256)) * 256 + (v / w) % 256
  {
    hide LeN, PowW;
    var q, r := v / w, v % w;
    var h, b := q / 256, q % 256;
    assert v == q * w + r;
    assert (256 * h + b) * w + r == h * (w * 256) + (b * w + r);
    MulMono(b, 255, w);
    DivModUnique(v, h, b * w + r, w * 256);
  }

  /** The eight bytes of a limb, out[j] = v >> (56 - 8 j). */
  method BytesFromWord(bytes: seq<Byte>, v: u64) returns (out: seq<Byte>)
    ensures |out| == |bytes| + 8
    ensures BeVal(out) == BeVal(bytes) * W + v
  {
    hide LeN, PowW;
    out := bytes;
    var j := 0;
    ghost var h := BeVal(bytes);
    WordBytes(8 - j);
    DivModUnique(v, 0, v, W);
    assert h * Pow(256, 0) == h;
    while j < 8
      invariant 0 <= j <= 8 && |out| == |bytes| + j
      invariant BeVal(out) == h * Pow(256, j) + v / Pow(256, 8 - j)
    {
      var w := Pow(256, 7 - j);
      ByteOf(v, w);
      BeAppend(out, (v / w) % 256);
      ShiftIn(h, Pow(256, j), v / (w * 256), (v / w) % 256);
      out := out + [(v / w) % 256];
      j := j + 1;
    }
    WordBytes(j);
    assert v / Pow(256, 0) == v;
  }

  /** limbs_to_be. */
  method LimbsToBe(limbs: Fe) returns (out: Bytes32)
    ensures BeVal(out) == Val(limbs)
  {
    var acc: seq<Byte> := [];
    var i := 0;
    assert limbs[4..] == [];
    while i < 4
      invariant 0 <= i <= 4 && |acc| == 8 * i
      invariant BeVal(acc) == Val(limbs[4 - i..])
    {
      acc := BytesFromWord(acc, limbs[3 - i]);
      LeNShift(limbs[3 - i..], i);
      assert limbs[3 - i..][1..] == limbs[4 - i..];
      i := i + 1;
    }
    assert limbs[0..] == limbs;
    out := acc;
  }

  // ---------------------------------------------------- scalars modulo ORDER

  lemma NModulus()
    ensures ORDER > 3 && MontModulus(N, N0INV) && R < 2 * ORDER
    ensures Val(R2N) < ORDER && Cong(Val(R2N), R * R, ORDER)
  {
    hide LeN, PowW;
    NConstants();
    FourLimbVal(N);
  }

  /** mod_reduce_n: one subtraction suffices because 2^256 < 2 ORDER. */
  method ReduceN(a: Fe) returns (r: Fe)
    ensures ORDER > 0 && Val(r) == Val(a) % ORDER
  {
    hide LeN, PowW;
    NModulus();
    var s := new u64[4](i requires 0 <= i < 4 => a[i]);
    assert s[..] == a;
    LeNBound(a, 4);
    var ge := Ge(s[..], N);
    if ge {
      var borrow := SubInPlace(s, N, 4);
      NoBorrow(s[..], 4, Val(a) - ORDER, borrow);
      DivModUnique(Val(a), 1, Val(a) - ORDER, ORDER);
    } else {
      DivModUnique(Val(a), 0, Val(a), ORDER);
    }
    r := FourLimbs(s[..]);
  }

  /** mod_mul_n. */
  method MulN(a: Fe, b: Fe) returns (r: Fe)
    ensures ORDER > 0 && Val(r) == (Val(a) * Val(b)) % ORDER
  {
    hide LeN, PowW;
    NModulus();
    var am := ToMont(a, R2N, N, N0INV);
    var bm := ToMont(b, R2N, N, N0INV);
    var tmp := MulMont(am, bm, N, N0INV, Val(a), Val(b));
    r := FromMont(tmp, N, N0INV, Val(a) * Val(b));
  }

  const NM2: Fe := N[0 := N[0] - 2]

  lemma NM2Val()
    ensures ORDER >= 2 && Val(NM2) == ORDER - 2
  {
    LeNSuffix(N, NM2, 1, 4);
    NModulus();
    assert LeN(N, 1) == LeN(N, 0) + N[0] * PowW(0);
    assert LeN(NM2, 1) == LeN(NM2, 0) + NM2[0] * PowW(0);
  }

  /** inv_mod_n: a^(ORDER-2) modulo ORDER. */
  method InvN(a: Fe) returns (r: Fe)
    ensures ORDER > 1 && Val(r) == Inv(Val(a), ORDER)
  {
    hide LeN, PowW;
    NModulus();
    NM2Val();
    r := Exp(a, NM2, N, N0INV, R2N);
  }

  // ------------------------------------------------------------ the curve

  ghost const COEFF: nat := Val(B)

  /** The base point as an affine point. */
  ghost const G: Point := Affine(Val(GX), Val(GY))

  lemma BaseOnCurve()
    ensures PRIME > 0 && G.Affine? && OnCurve(G, PRIME, COEFF)
  {
    hide LeN, PowW;
    PConstants();
    FourLimbVal(GX);
    FourLimbVal(GY);
    FourLimbVal(B);
    var x, y := G.x, G.y;
    CongFromMultiple(y * y, x * x * x - 3 * x + COEFF,
      -(0x12bdd1ad23dfc833dccf5f6141d6bb4a1f365dc1430b0e600b52dd851938d2d6 * R +
        0x933106a72efbf035fdaf43963b37fd5456e90c6581a8fb7a0d8a46a3629f0458), PRIME);
  }

  /** The double of the base point, spelled out. */
  ghost const TWO_G: Point := Affine(
    0x7cf27b188d034f7e8a52380304b51ac3c08969e277f21b35a60b48fc47669978,
    0x7775510db8ed040293d9ac69f7430dbba7dade63ce982299e04b79d227873d1)

  /** A concrete input on which point_add_jacobian returns the wrong ordinate:
      G and 2G, both with Z == 1, lie on the curve and fail GeneralYExact. */
  lemma OrdinateFails()
    ensures PRIME > 0 && OnCurve(G, PRIME, COEFF) && OnCurve(TWO_G, PRIME, COEFF) && G.x != TWO_G.x
    ensures !GeneralYExact(G.x, TWO_G.x - G.x, TWO_G.y - G.y, PRIME)
  {
    hide LeN, PowW;
    PConstants();
    FourLimbVal(GX);
    FourLimbVal(GY);
    FourLimbVal(B);
    BaseOnCurve();
    var x, y := TWO_G.x, TWO_G.y;
    CongFromMultiple(y * y, x * x * x - 3 * x + COEFF,
      -(0x1dc3ba9d565a54501b9dc80f301669ffaea465279ca3dfc8fd5ff05f28c8c565 * R +
        0x20d16ee1bf15062a8528c8b8a873b0fe15c12d35a727aeecc5edc6f31959bebe), PRIME);
  }

  lemma {:induction false} LimbsInjective(s: seq<u64>, t: seq<u64>, k: nat)
    requires k <= |s| && k <= |t|
    ensures LeN(s, k) == LeN(t, k) <==> forall i :: 0 <= i < k ==> s[i] == t[i]
    decreases k
  {
    if k > 0 {
      LimbsInjective(s, t, k - 1);
      LeNBound(s, k - 1);
      LeNBound(t, k - 1);
      if s[k - 1] < t[k - 1] {
        MulMono(s[k - 1] + 1, t[k - 1], PowW(k - 1));
        assert (s[k - 1] + 1) * PowW(k - 1) == s[k - 1] * PowW(k - 1) + PowW(k - 1);
      } else if s[k - 1] > t[k - 1] {
        MulMono(t[k - 1] + 1, s[k - 1], PowW(k - 1));
        assert (t[k - 1] + 1) * PowW(k - 1) == t[k - 1] * PowW(k - 1) + PowW(k - 1);
      }
    }
  }

  /** fe_equal. */
  method Equal(x: Fe, y: Fe) returns (eq: bool)
    ensures eq <==> Val(x) == Val(y)
  {
    hide LeN, PowW;
    eq := x[0] == y[0] && x[1] == y[1] && x[2] == y[2] && x[3] == y[3];
    LimbsInjective(x, y, 4);
  }

  lemma EqualResidues(x: Fe, y: Fe, u: int, v: int)
    requires Holds(x, u) && Holds(y, v)
    ensures PRIME > 0 && (Val(x) == Val(y) <==> Cong(u, v, PRIME))
  {
    hide LeN, PowW;
    PModulus();
    HoldsIs(x, u);
    HoldsIs(y, v);
    hide Holds;
    if Val(x) == Val(y) { CancelRadix(u, v, P, P0INV); }
    if Cong(u, v, PRIME) {
      HoldsCong(x, u, v);
      HoldsIs(x, v);
      CongSmall(Val(x), Val(y), PRIME);
    }
  }

  lemma CurveUnreduced(x: nat, y: nat)
    requires PRIME > 0
    ensures Cong(y * y, x * x * x + COEFF - (x + x + x), PRIME) <==> OnCurve(Affine(x % PRIME, y % PRIME), PRIME, COEFF)
  {
    hide LeN, PowW;
    var rhs := x * x * x + COEFF - (x + x + x);
    assert rhs == x * x * x - 3 * x + COEFF;
    CurveEquation(x, y, PRIME, COEFF);
  }

  /** ecc_point_on_curve, for any 256-bit coordinates. */
  method PointOnCurve(x: Fe, y: Fe) returns (on: bool)
    ensures PRIME > 0 && (on <==> OnCurve(Denoted(Val(x), Val(y), PRIME), PRIME, COEFF))
  {
    hide LeN, PowW;
    PModulus();
    ghost var u, v := Val(x), Val(y);
    var X := ToMontP(x);
    var Y := ToMontP(y);
    var lhs := MulP(Y, Y, v, v);
    var rhs := MulP(X, X, u, u);
    var x3 := MulP(rhs, X, u * u, u);
    var Bc := ToMontP(B);
    rhs := AddP(x3, Bc, u * u * u, COEFF);
    var t := AddP(X, X, u, u);
    t := AddP(t, X, u + u, u);
    rhs := SubP(rhs, t, u * u * u + COEFF, u + u + u);
    on := Equal(lhs, rhs);
    EqualResidues(lhs, rhs, v * v, u * u * u + COEFF - (u + u + u));
    CurveUnreduced(u, v);
  }

  method CopyOut(bytes: Bytes32, out: array<Byte>)
    requires out.Length == 32
    modifies out
    ensures out[..] == bytes
  {
    hide LeN, PowW;
    for i := 0 to 32
      invariant out[..i] == bytes[..i]
    {
      out[i] := bytes[i];
    }
    assert out[..32] == out[..] && bytes[..32] == bytes;
  }

  /** ecc_scalar_mult_base: k * G in affine bytes, failing exactly on infinity. */
  method ScalarMultBase(kb: Bytes32, xout: array<Byte>, yout: array<Byte>) returns (ok: bool)
    requires PrimeField() && xout.Length == 32 && yout.Length == 32 && xout != yout
    modifies xout, yout
    ensures PRIME > 1 && (ok <==> BaseMultiple(P256, BeVal(kb)).Affine?)
    ensures ok ==> Affine(BeVal(xout[..]), BeVal(yout[..])) == BaseMultiple(P256, BeVal(kb))
    ensures !ok ==> xout[..] == old(xout[..]) && yout[..] == old(yout[..])
  {
    hide LeN, PowW;
    BaseOnCurve();
    var k := BeToLimbs(kb);
    var gx := ToMontP(GX);
    var gy := ToMontP(GY);
    ghost var q := DoubleAndAdd(Val(k), G, PRIME);
    var j := ScalarMult(k, gx, gy, G);
    StandsHasAbscissa(j, q);
    var x, y;
    ok, x, y := JacobianToAffine(j, q);
    if ok {
      var xb := LimbsToBe(x);
      var yb := LimbsToBe(y);
      CopyOut(xb, xout);
      CopyOut(yb, yout);
    }
  }

  // ----------------------------------------------------------- signatures

  /** The parameters of P-256. */
  ghost const P256: Domain := Domain(G, ORDER, PRIME, COEFF)

  datatype SignResult = Failed | Retry | Signed

  /** ecdsa_sign once the nonce k is known. */
  method Sign(d: Bytes32, hash: Bytes32, k: Fe, rout: array<Byte>, sout: array<Byte>) returns (res: SignResult)
    requires PrimeField() && rout.Length == 32 && sout.Length == 32 && rout != sout
    modifies rout, sout
    ensures ORDER > 1 && PRIME > 1
    ensures res.Failed? <==> BaseMultiple(P256, Val(k)).Infinity?
    ensures !res.Failed? ==>
              (res.Retry? <==> SigR(P256, Val(k)) == 0 || SigS(P256, BeVal(d), BeVal(hash), Val(k)) == 0)
    ensures res.Signed? ==> BeVal(rout[..]) == SigR(P256, Val(k))
    ensures res.Signed? ==> BeVal(sout[..]) == SigS(P256, BeVal(d), BeVal(hash), Val(k))
    ensures !res.Signed? ==> rout[..] == old(rout[..]) && sout[..] == old(sout[..])
  {
    hide LeN, PowW;
    NModulus();
    BaseOnCurve();
    var gx := ToMontP(GX);
    var gy := ToMontP(GY);
    ghost var q := DoubleAndAdd(Val(k), G, PRIME);
    var j := ScalarMult(k, gx, gy, G);
    StandsHasAbscissa(j, q);
    var ok, ax, ay := JacobianToAffine(j, q);
    if !ok {
      return Failed;
    }
    var r := ReduceN(ax);
    var rz := IsZero(r);
    if rz {
      return Retry;
    }
    var s := SignS(d, hash, k, r);
    var sz := IsZero(s);
    if sz {
      return Retry;
    }
    var rb := LimbsToBe(r);
    var sb := LimbsToBe(s);
    CopyOut(rb, rout);
    CopyOut(sb, sout);
    res := Signed;
  }

  /** s == k^-1 (e + r d) modulo ORDER. */
  method SignS(d: Bytes32, hash: Bytes32, k: Fe, r: Fe) returns (s: Fe)
    ensures ORDER > 1
    ensures Val(s) == (Inv(Val(k), ORDER) * ((BeVal(hash) % ORDER + (Val(r) * BeVal(d)) % ORDER) % ORDER)) % ORDER
  {
    hide LeN, PowW;
    NModulus();
    var dl := BeToLimbs(d);
    var el := BeToLimbs(hash);
    el := ReduceN(el);
    var rd := MulN(r, dl);
    CongMod(BeVal(hash), ORDER);
    CongMod(Val(r) * BeVal(d), ORDER);
    var t := AddM(el, rd, N);
    var kinv := InvN(k);
    s := MulN(kinv, t);
  }

  /** ecdsa_verify accepts exactly the signatures that satisfy Accepts. */
  method Verify(xb: Bytes32, yb: Bytes32, hash: Bytes32, rb: Bytes32, sb: Bytes32) returns (ok: bool)
    requires PrimeField()
    ensures PRIME > 1 && ORDER > 1
    ensures ok <==> Accepts(P256, BeVal(xb), BeVal(yb), BeVal(hash), BeVal(rb), BeVal(sb))
  {
    hide LeN, PowW;
    NModulus();
    var r := BeToLimbs(rb);
    var s := BeToLimbs(sb);
    var e := BeToLimbs(hash);
    var rz := IsZero(r);
    var sz := IsZero(s);
    if rz || sz {
      return false;
    }
    var rge := Ge(r, N);
    var sge := Ge(s, N);
    if rge || sge {
      return false;
    }
    e := ReduceN(e);
    var qx := BeToLimbs(xb);
    var qy := BeToLimbs(yb);
    var on := PointOnCurve(qx, qy);
    if !on {
      return false;
    }
    var w := InvN(s);
    var u1 := MulN(e, w);
    var u2 := MulN(r, w);
    var ax := new u64[4];
    var found := CombinedAbscissa(u1, u2, qx, qy, ax);
    if !found {
      return false;
    }
    var x1 := ReduceN(ax[..]);
    ok := Equal(x1, r);
  }

  /** The abscissa of u1 G + u2 Q. */
  method CombinedAbscissa(u1: Fe, u2: Fe, qx: Fe, qy: Fe, ax: array<u64>) returns (found: bool)
    requires PrimeField() && ax.Length == 4
    modifies ax
    ensures PRIME > 1
    ensures var t := Add(DoubleAndAdd(Val(u1), G, PRIME),
                         DoubleAndAdd(Val(u2), Denoted(Val(qx), Val(qy), PRIME), PRIME), PRIME);
            (found <==> t.Affine?) && (found ==> Val(ax[..]) == t.x)
  {
    hide LeN, PowW;
    BaseOnCurve();
    var gx := ToMontP(GX);
    var gy := ToMontP(GY);
    ghost var Q := Denoted(Val(qx), Val(qy), PRIME);
    ghost var g1, q2 := DoubleAndAdd(Val(u1), G, PRIME), DoubleAndAdd(Val(u2), Q, PRIME);
    var j1 := ScalarMult(u1, gx, gy, G);
    var qxm := ToMontP(qx);
    var qym := ToMontP(qy);
    CongMod(Val(qx), PRIME);
    CongMod(Val(qy), PRIME);
    HoldsCong(qxm, Val(qx), Q.x);
    HoldsCong(qym, Val(qy), Q.y);
    var j2 := ScalarMult(u2, qxm, qym, Q);
    var j := SumAbscissa(j1, j2, g1, q2);
    var x, y;
    found, x, y := JacobianToAffine(j, Add(g1, q2, PRIME));
    ax[0], ax[1], ax[2], ax[3] := x[0], x[1], x[2], x[3];
    assert ax[..] == x;
  }

  method SumAbscissa(j1: Jac, j2: Jac, ghost g1: Point, ghost q2: Point) returns (j: Jac)
    requires PrimeField() && Stands(j1, g1) && Stands(j2, q2)
    ensures HasAbscissa(j, Add(g1, q2, PRIME))
  {
    hide LeN, PowW;
    ghost var X1, Y1, Z1 :| Held(j1, X1, Y1, Z1) && Jacobian(X1, Y1, Z1, g1, PRIME);
    ghost var X2, Y2, Z2 :| Held(j2, X2, Y2, Z2) && Jacobian(X2, Y2, Z2, q2, PRIME);
    ZeroResidue(j1.Z, Z1);
    ZeroResidue(j2.Z, Z2);
    var z2 := IsZero(j2.Z);
    var z1 := IsZero(j1.Z);
    if z2 {
      j := j1;
      StandsHasAbscissa(j1, g1);
    } else if z1 {
      j := j2;
      StandsHasAbscissa(j2, q2);
    } else {
      j := PointAddJacobian(j1, j2, g1, q2, X1, Y1, Z1, X2, Y2, Z2);
    }
  }
}
