/**
The Jacobian point operations of crypto/ecc.c on Montgomery limbs, and the
affine points they stand for.
*/
module P256Points {
  import opened Modular
  import opened Limbs
  import opened Montgomery
  import opened ModExp
  import opened P256Field
  import opened Curve

  /** X, Y and Z of the source, each four limbs in Montgomery form. */
  datatype Jac = Jac(X: Fe, Y: Fe, Z: Fe)

  ghost predicate Held(j: Jac, X: int, Y: int, Z: int) {
    Holds(j.X, X) && Holds(j.Y, Y) && Holds(j.Z, Z)
  }

  /** The limbs stand for the affine point q. */
  ghost predicate Stands(j: Jac, q: Point) {
    PRIME > 0 && exists X: int, Y: int, Z: int :: Held(j, X, Y, Z) && Jacobian(X, Y, Z, q, PRIME)
  }

  ghost predicate PrimeField() {
    GoodField(PRIME)
  }

  /** point_set_infinity: (0, 1, 0). */
  method SetInfinity() returns (j: Jac)
    ensures Stands(j, Infinity)
  {
    PModulus();
    var zero: Fe := [0, 0, 0, 0];
    LeNZeroTail(zero, 0, 4);
    assert 0 * R == 0;
    assert Holds(zero, 0);
    OneVal();
    var one := ToMontP(ONE);
    j := Jac(zero, one, zero);
    assert Held(j, 0, 1, 0);
    assert Jacobian(0, 1, 0, Infinity, PRIME);
  }

  lemma ZeroOrdinate(Y: int, Z: int, y: nat)
    requires PrimeField() && y < PRIME && !Cong(Z, 0, PRIME) && Cong(Y, y * (Z * Z * Z), PRIME)
    ensures Cong(Y, 0, PRIME) <==> y == 0
  {
    hide LeN, PowW;
    PrimeProduct(Z, Z, PRIME);
    PrimeProduct(Z * Z, Z, PRIME);
    PrimeProduct(y, Z * Z * Z, PRIME);
    if y != 0 { NonZeroResidue(y, PRIME); }
  }

  /** point_double stands for the tangent law, infinity and y == 0 included. */
  method PointDouble(j: Jac, ghost q: Point) returns (r: Jac)
    requires PrimeField() && Stands(j, q)
    ensures Stands(r, Double(q, PRIME))
  {
    hide LeN, PowW, Holds;
    ghost var X, Y, Z :| Held(j, X, Y, Z) && Jacobian(X, Y, Z, q, PRIME);
    var zz := IsZero(j.Z);
    var yz := IsZero(j.Y);
    ZeroResidue(j.Z, Z);
    ZeroResidue(j.Y, Y);
    if q.Affine? { ZeroOrdinate(Y, Z, q.y); }
    if zz || yz {
      r := SetInfinity();
      return;
    }
    DoubleFormula(X, Y, Z, q, PRIME);
    ghost var a, b, c, s0, e0, x3;
    r, a, b, c, s0, e0, x3 := DoubleCore(j, X, Y, Z);
  }

  /** The arithmetic of point_double, with its intermediate values. */
  method DoubleCore(j: Jac, ghost X: int, ghost Y: int, ghost Z: int)
    returns (r: Jac, ghost a: int, ghost b: int, ghost c: int, ghost s0: int, ghost e0: int, ghost x3: int)
    requires Held(j, X, Y, Z)
    ensures a == X * X && b == Y * Y && c == b * b
    ensures s0 == (X + b) * (X + b) - a - c && e0 == a - (Z * Z) * (Z * Z)
    ensures x3 == (e0 + (e0 + e0)) * (e0 + (e0 + e0)) - (s0 + s0) - (s0 + s0)
    ensures var c2 := c + c; var c4 := c2 + c2;
            Held(r, x3, (e0 + (e0 + e0)) * (s0 + s0 - x3) - (c4 + c4), Y * Z + Y * Z)
  {
    hide LeN, PowW;
    a, b := X * X, Y * Y;
    c := b * b;
    var A := MulP(j.X, j.X, X, X);
    var Bc := MulP(j.Y, j.Y, Y, Y);
    var C := MulP(Bc, Bc, b, b);
    var S := DoubleS4(j.X, Bc, A, C, X, b, a, c);
    var E := DoubleE3(j.Z, A, Z, a);
    s0 := (X + b) * (X + b) - a - c;
    e0 := a - (Z * Z) * (Z * Z);
    x3 := (e0 + (e0 + e0)) * (e0 + (e0 + e0)) - (s0 + s0) - (s0 + s0);
    var X3, Y3 := DoubleTail(E, S, C, e0 + (e0 + e0), s0 + s0, c);
    var Z3 := MulP(j.Y, j.Z, Y, Z);
    Z3 := AddP(Z3, Z3, Y * Z, Y * Z);
    r := Jac(X3, Y3, Z3);
  }

  /** S == 2 ((X1 + B)^2 - A - C). */
  method DoubleS4(x1: Fe, Bc: Fe, A: Fe, C: Fe, ghost x: int, ghost b: int, ghost a: int, ghost c: int)
    returns (S: Fe)
    requires Holds(x1, x) && Holds(Bc, b) && Holds(A, a) && Holds(C, c)
    ensures var s0 := (x + b) * (x + b) - a - c; Holds(S, s0 + s0)
  {
    hide LeN, PowW;
    var t := AddP(x1, Bc, x, b);
    S := MulP(t, t, x + b, x + b);
    S := SubP(S, A, (x + b) * (x + b), a);
    S := SubP(S, C, (x + b) * (x + b) - a, c);
    ghost var s0 := (x + b) * (x + b) - a - c;
    S := AddP(S, S, s0, s0);
  }

  /** E == 3 (A - Z1^4). */
  method DoubleE3(z1: Fe, A: Fe, ghost z: int, ghost a: int) returns (E: Fe)
    requires Holds(z1, z) && Holds(A, a)
    ensures var e0 := a - (z * z) * (z * z); Holds(E, e0 + (e0 + e0))
  {
    hide LeN, PowW;
    var t := MulP(z1, z1, z, z);
    var t2 := MulP(t, t, z * z, z * z);
    E := SubP(A, t2, a, (z * z) * (z * z));
    ghost var e0 := a - (z * z) * (z * z);
    t := AddP(E, E, e0, e0);
    E := AddP(E, t, e0, e0 + e0);
  }

  /** X3 == E^2 - 2 S and Y3 == E (S - X3) - 8 C. */
  method DoubleTail(E: Fe, S: Fe, C: Fe, ghost e: int, ghost s: int, ghost c: int) returns (X3: Fe, Y3: Fe)
    requires Holds(E, e) && Holds(S, s) && Holds(C, c)
    ensures var x3 := e * e - s - s; var c2 := c + c; var c4 := c2 + c2;
            Holds(X3, x3) && Holds(Y3, e * (s - x3) - (c4 + c4))
  {
    hide LeN, PowW;
    var F := MulP(E, E, e, e);
    X3 := SubP(F, S, e * e, s);
    X3 := SubP(X3, S, e * e - s, s);
    ghost var x3 := e * e - s - s;
    var t := SubP(S, X3, s, x3);
    Y3 := MulP(E, t, e, s - x3);
    t := AddP(C, C, c, c);
    ghost var c2 := c + c;
    t := AddP(t, t, c2, c2);
    ghost var c4 := c2 + c2;
    t := AddP(t, t, c4, c4);
    Y3 := SubP(Y3, t, e * (s - x3), c4 + c4);
  }

  // ------------------------------------------------------- mixed addition

  lemma AffineStands(j: Jac, t: Point)
    requires PrimeField() && t.Affine? && InField(t, PRIME) && Held(j, t.x, t.y, 1)
    ensures Stands(j, t)
  {
    hide LeN, PowW;
    NonZeroResidue(1, PRIME);
    assert t.x * (1 * 1) == t.x && t.y * (1 * 1 * 1) == t.y;
    assert Jacobian(t.x, t.y, 1, t, PRIME);
  }

  /** point_add_mixed stands for the chord law with an affine second operand,
      in the infinity, equal-point and opposite-point cases too. */
  method PointAddMixed(j: Jac, X2: Fe, Y2: Fe, ghost q: Point, ghost t: Point) returns (r: Jac)
    requires PrimeField() && Stands(j, q)
    requires t.Affine? && InField(t, PRIME) && Holds(X2, t.x) && Holds(Y2, t.y)
    ensures Stands(r, Add(q, t, PRIME))
  {
    hide LeN, PowW, Holds;
    ghost var X, Y, Z :| Held(j, X, Y, Z) && Jacobian(X, Y, Z, q, PRIME);
    var zz := IsZero(j.Z);
    ZeroResidue(j.Z, Z);
    if zz {
      OneVal();
      var one := ToMontP(ONE);
      r := Jac(X2, Y2, one);
      AffineStands(r, t);
      return;
    }
    ghost var zz2 := Z * Z;
    var Z1Z1, H, rr := MixedHR(j, X2, Y2, X, Y, Z, t.x, t.y);
    ghost var h := t.x * zz2 - X;
    ghost var s := (t.y * Z) * zz2 - Y;
    MixedH(X, Z, q.x, t.x, PRIME);
    MixedR(Y, Z, q.y, t.y, PRIME);
    ZeroResidue(H, h);
    ZeroResidue(rr, s + s);
    var hz := IsZero(H);
    if hz {
      var rz := IsZero(rr);
      if rz {
        r := PointDouble(j, q);
      } else {
        r := SetInfinity();
      }
      return;
    }
    MixedFormula(X, Y, Z, q, t, PRIME);
    ghost var hh, i4, jj, v, x3;
    r, hh, i4, jj, v, x3 := MixedCore(j, H, rr, Z1Z1, X, Y, Z, h, s + s);
  }

  /** H == X2 Z1^2 - X1 and r == 2 (Y2 Z1^3 - Y1). */
  method MixedHR(j: Jac, X2: Fe, Y2: Fe, ghost X: int, ghost Y: int, ghost Z: int, ghost x2: int, ghost y2: int)
    returns (Z1Z1: Fe, H: Fe, rr: Fe)
    requires Held(j, X, Y, Z) && Holds(X2, x2) && Holds(Y2, y2)
    ensures Holds(Z1Z1, Z * Z) && Holds(H, x2 * (Z * Z) - X)
    ensures var s := (y2 * Z) * (Z * Z) - Y; Holds(rr, s + s)
  {
    hide LeN, PowW;
    Z1Z1 := MulP(j.Z, j.Z, Z, Z);
    var U2 := MulP(X2, Z1Z1, x2, Z * Z);
    var t := MulP(Y2, j.Z, y2, Z);
    var S2 := MulP(t, Z1Z1, y2 * Z, Z * Z);
    H := SubP(U2, j.X, x2 * (Z * Z), X);
    rr := SubP(S2, j.Y, (y2 * Z) * (Z * Z), Y);
    ghost var s := (y2 * Z) * (Z * Z) - Y;
    rr := AddP(rr, rr, s, s);
  }

  /** The arithmetic of point_add_mixed once H is known not to vanish. */
  method MixedCore(j: Jac, H: Fe, rr: Fe, Z1Z1: Fe,
                   ghost X: int, ghost Y: int, ghost Z: int, ghost h: int, ghost r0: int)
    returns (r: Jac, ghost hh: int, ghost i4: int, ghost jj: int, ghost v: int, ghost x3: int)
    requires Held(j, X, Y, Z) && Holds(H, h) && Holds(rr, r0) && Holds(Z1Z1, Z * Z)
    ensures hh == h * h && i4 == (hh + hh) + (hh + hh) && jj == h * i4 && v == X * i4
    ensures x3 == r0 * r0 - jj - v - v
    ensures Held(r, x3, r0 * (v - x3) - (Y * jj + Y * jj), (Z + h) * (Z + h) - Z * Z - hh)
  {
    hide LeN, PowW;
    hh := h * h;
    i4 := (hh + hh) + (hh + hh);
    jj, v := h * i4, X * i4;
    x3 := r0 * r0 - jj - v - v;
    var HH := MulP(H, H, h, h);
    var I := AddP(HH, HH, hh, hh);
    I := AddP(I, I, hh + hh, hh + hh);
    var J := MulP(H, I, h, i4);
    var V := MulP(j.X, I, X, i4);
    var X3, Y3 := MixedTail(rr, J, V, j.Y, r0, jj, v, Y);
    var t := AddP(j.Z, H, Z, h);
    var t2 := MulP(t, t, Z + h, Z + h);
    t2 := SubP(t2, Z1Z1, (Z + h) * (Z + h), Z * Z);
    t2 := SubP(t2, HH, (Z + h) * (Z + h) - Z * Z, hh);
    r := Jac(X3, Y3, t2);
  }

  /** X3 == r^2 - J - 2 V and Y3 == r (V - X3) - 2 Y1 J. */
  method MixedTail(rr: Fe, J: Fe, V: Fe, Y1: Fe, ghost r0: int, ghost jj: int, ghost v: int, ghost y: int)
    returns (X3: Fe, Y3: Fe)
    requires Holds(rr, r0) && Holds(J, jj) && Holds(V, v) && Holds(Y1, y)
    ensures var x3 := r0 * r0 - jj - v - v; var yj := y * jj;
            Holds(X3, x3) && Holds(Y3, r0 * (v - x3) - (yj + yj))
  {
    hide LeN, PowW;
    var t := MulP(rr, rr, r0, r0);
    X3 := SubP(t, J, r0 * r0, jj);
    X3 := SubP(X3, V, r0 * r0 - jj, v);
    X3 := SubP(X3, V, r0 * r0 - jj - v, v);
    ghost var x3, yj := r0 * r0 - jj - v - v, y * jj;
    t := SubP(V, X3, v, x3);
    Y3 := MulP(rr, t, r0, v - x3);
    t := MulP(Y1, J, y, jj);
    t := AddP(t, t, yj, yj);
    Y3 := SubP(Y3, t, r0 * (v - x3), yj + yj);
  }

  // ------------------------------------------------- scalar multiplication

  /** Left-to-right affine double-and-add. */
  ghost function DoubleAndAdd(k: nat, t: Point, m: nat): Point
    requires m > 1
  {
    if k == 0 then Infinity
    else
      var q := Double(DoubleAndAdd(k / 2, t, m), m);
      if k % 2 == 1 then Add(q, t, m) else q
  }

  lemma DoubleAndAddStep(h: nat, b: nat, t: Point, m: nat)
    requires m > 1 && b <= 1 && t.Affine?
    ensures DoubleAndAdd(2 * h + b, t, m) ==
            (var q := Double(DoubleAndAdd(h, t, m), m); if b == 1 then Add(q, t, m) else q)
  {
    hide LeN, PowW;
    assert (2 * h + b) / 2 == h && (2 * h + b) % 2 == b;
  }

  /** scalar_mult: the bits of k from the top, over all 256 positions. */
  method ScalarMult(k: Fe, BX: Fe, BY: Fe, ghost t: Point) returns (r: Jac)
    requires PrimeField()
    requires t.Affine? && InField(t, PRIME) && Holds(BX, t.x) && Holds(BY, t.y)
    ensures Stands(r, DoubleAndAdd(Val(k), t, PRIME))
  {
    hide LeN, PowW, Holds;
    r := SetInfinity();
    ghost var h: nat := 0;
    var bit := 256;
    while bit > 0
      invariant 0 <= bit <= 256
      invariant h * P2(bit) + LowBits(k, bit) == Val(k)
      invariant Stands(r, DoubleAndAdd(h, t, PRIME))
    {
      bit := bit - 1;
      var b := BitOf(k, bit);
      LowBitsStep(k, bit);
      TopBit(h, b, P2(bit), P2(bit + 1));
      DoubleAndAddStep(h, b, t, PRIME);
      r := PointDouble(r, DoubleAndAdd(h, t, PRIME));
      if b == 1 {
        r := PointAddMixed(r, BX, BY, Double(DoubleAndAdd(h, t, PRIME), PRIME), t);
      }
      h := 2 * h + b;
    }
    LowBitsZero(k);
    assert h * P2(0) == h;
  }

  lemma TopBit(h: nat, b: nat, w: nat, w2: nat)
    requires w2 == 2 * w
    ensures (2 * h + b) * w == h * w2 + b * w
  {
    hide LeN, PowW;
    assert (2 * h + b) * w == h * (2 * w) + b * w;
  }

  // ----------------------------------------------------- general addition

  /** X and Z stand for the abscissa of q; nothing is said of Y. */
  ghost predicate Abscissa(X: int, Z: int, q: Point)
    requires PRIME > 0
  {
    InField(q, PRIME) && (Cong(Z, 0, PRIME) <==> q.Infinity?) && (q.Affine? ==> Cong(X, q.x * (Z * Z), PRIME))
  }

  ghost predicate HasAbscissa(j: Jac, q: Point) {
    PRIME > 0 && exists X: int, Y: int, Z: int :: Held(j, X, Y, Z) && Abscissa(X, Z, q)
  }

  lemma StandsHasAbscissa(j: Jac, q: Point)
    requires Stands(j, q)
    ensures HasAbscissa(j, q)
  {
    hide LeN, PowW;
    var X, Y, Z :| Held(j, X, Y, Z) && Jacobian(X, Y, Z, q, PRIME);
    assert Abscissa(X, Z, q);
  }

  /** Standing for a point does not depend on the choice of residues. */
  lemma StandsIff(j: Jac, X: int, Y: int, Z: int, q: Point)
    requires PRIME > 0 && Held(j, X, Y, Z)
    ensures Stands(j, q) <==> Jacobian(X, Y, Z, q, PRIME)
  {
    hide LeN, PowW;
    if Stands(j, q) {
      var X', Y', Z' :| Held(j, X', Y', Z') && Jacobian(X', Y', Z', q, PRIME);
      HoldsUnique(j.X, X, X');
      HoldsUnique(j.Y, Y, Y');
      HoldsUnique(j.Z, Z, Z');
      if q.Affine? {
        CongMul(Z, Z', Z, Z', PRIME);
        CongMul(Z * Z, Z' * Z', Z, Z', PRIME);
        CongMul(q.x, q.x, Z * Z, Z' * Z', PRIME);
        CongMul(q.y, q.y, Z * Z * Z, Z' * Z' * Z', PRIME);
      }
    }
  }

  /** U1, S1, U2 and S2 of point_add_jacobian. */
  method CommonUS(X: Fe, Y: Fe, W: Fe, WW: Fe, ghost x: int, ghost y: int, ghost w: int, ghost ww: int)
    returns (U: Fe, S: Fe, ghost u: int, ghost v: int)
    requires Holds(X, x) && Holds(Y, y) && Holds(W, w) && Holds(WW, ww)
    ensures u == x * ww && v == (y * w) * ww && Holds(U, u) && Holds(S, v)
  {
    hide LeN, PowW;
    U := MulP(X, WW, x, ww);
    var t := MulP(Y, W, y, w);
    S := MulP(t, WW, y * w, ww);
    u, v := x * ww, (y * w) * ww;
  }

  /** The arithmetic of point_add_jacobian, with its Y3 as the source has it. */
  method GeneralCore(U1: Fe, S1: Fe, H: Fe, rr: Fe, ghost u1: int, ghost s1: int, ghost h: int, ghost r0: int)
    returns (X3: Fe, Y3: Fe, ghost hh: int, ghost hhh: int, ghost v: int, ghost x3: int)
    requires Holds(U1, u1) && Holds(S1, s1) && Holds(H, h) && Holds(rr, r0)
    ensures hh == h * h && hhh == hh * h && v == u1 * hh && x3 == r0 * r0 - hhh - (v + v)
    ensures Holds(X3, x3) && Holds(Y3, r0 * ((u1 - x3) * hh) - s1 * hhh)
  {
    hide LeN, PowW;
    hh := h * h;
    hhh, v := hh * h, u1 * hh;
    var HH := MulP(H, H, h, h);
    var HHH := MulP(HH, H, hh, h);
    var t := MulP(rr, rr, r0, r0);
    t := SubP(t, HHH, r0 * r0, hhh);
    var t2 := MulP(U1, HH, u1, hh);
    t2 := AddP(t2, t2, v, v);
    X3 := SubP(t, t2, r0 * r0 - hhh, v + v);
    x3 := r0 * r0 - hhh - (v + v);
    t := SubP(U1, X3, u1, x3);
    t := MulP(t, HH, u1 - x3, hh);
    Y3 := MulP(rr, t, r0, (u1 - x3) * hh);
    t := MulP(S1, HHH, s1, hhh);
    Y3 := SubP(Y3, t, r0 * ((u1 - x3) * hh), s1 * hhh);
  }

  /** point_add_jacobian: the abscissa is always that of the sum. The ordinate is
      right in every degenerate case, and otherwise if and only if GeneralYExact. */
  method PointAddJacobian(a: Jac, b: Jac, ghost q: Point, ghost t: Point,
                          ghost X1: int, ghost Y1: int, ghost Z1: int,
                          ghost X2: int, ghost Y2: int, ghost Z2: int)
    returns (r: Jac)
    requires PrimeField()
    requires Held(a, X1, Y1, Z1) && Jacobian(X1, Y1, Z1, q, PRIME)
    requires Held(b, X2, Y2, Z2) && Jacobian(X2, Y2, Z2, t, PRIME)
    ensures HasAbscissa(r, Add(q, t, PRIME))
    ensures Stands(r, Add(q, t, PRIME)) <==>
            q.Infinity? || t.Infinity? || q.x == t.x ||
            GeneralYExact(X1 * (Z2 * Z2), X2 * (Z1 * Z1) - X1 * (Z2 * Z2),
                          (Y2 * Z1) * (Z1 * Z1) - (Y1 * Z2) * (Z2 * Z2), PRIME)
  {
    hide LeN, PowW, Holds;
    ZeroResidue(a.Z, Z1);
    ZeroResidue(b.Z, Z2);
    var az := IsZero(a.Z);
    if az {
      r := b;
      StandsHasAbscissa(r, t);
      return;
    }
    var bz := IsZero(b.Z);
    if bz {
      r := a;
      StandsHasAbscissa(r, q);
      return;
    }
    var Z1Z1 := MulP(a.Z, a.Z, Z1, Z1);
    var Z2Z2 := MulP(b.Z, b.Z, Z2, Z2);
    var U1, S1, U2, S2;
    ghost var u1, s1, u2, s2;
    U1, S1, u1, s1 := CommonUS(a.X, a.Y, b.Z, Z2Z2, X1, Y1, Z2, Z2 * Z2);
    U2, S2, u2, s2 := CommonUS(b.X, b.Y, a.Z, Z1Z1, X2, Y2, Z1, Z1 * Z1);
    var H := SubP(U2, U1, u2, u1);
    var rr := SubP(S2, S1, s2, s1);
    ghost var w := Z1 * Z2;
    ScaledInputs(X1, Y1, Z1, X2, Y2, Z2, q, t);
    ScaledDifference(u1, u2, q.x, t.x, w * w, PRIME);
    ScaledDifference(s1, s2, q.y, t.y, w * w * w, PRIME);
    ZeroResidue(H, u2 - u1);
    ZeroResidue(rr, s2 - s1);
    var hz := IsZero(H);
    if hz {
      var rz := IsZero(rr);
      if rz {
        r := PointDouble(a, q);
      } else {
        r := SetInfinity();
      }
      StandsHasAbscissa(r, Add(q, t, PRIME));
      return;
    }
    var X3, Y3;
    ghost var hh, hhh, v, x3;
    X3, Y3, hh, hhh, v, x3 := GeneralCore(U1, S1, H, rr, u1, s1, u2 - u1, s2 - s1);
    var Z3 := MulP(a.Z, b.Z, Z1, Z2);
    Z3 := MulP(Z3, H, w, u2 - u1);
    r := Jac(X3, Y3, Z3);
    GeneralResult(r, u1, s1, u2, s2, w, q, t);
  }

  lemma ScaledInputs(X1: int, Y1: int, Z1: int, X2: int, Y2: int, Z2: int, q: Point, t: Point)
    requires PrimeField() && q.Affine? && t.Affine?
    requires Jacobian(X1, Y1, Z1, q, PRIME) && Jacobian(X2, Y2, Z2, t, PRIME)
    ensures var w := Z1 * Z2;
            !Cong(w, 0, PRIME) && !Cong(w * w, 0, PRIME) && !Cong(w * w * w, 0, PRIME) &&
            Cong(X1 * (Z2 * Z2), q.x * (w * w), PRIME) && Cong((Y1 * Z2) * (Z2 * Z2), q.y * (w * w * w), PRIME) &&
            Cong(X2 * (Z1 * Z1), t.x * (w * w), PRIME) && Cong((Y2 * Z1) * (Z1 * Z1), t.y * (w * w * w), PRIME)
  {
    hide LeN, PowW;
    var w := Z1 * Z2;
    PrimeProduct(Z1, Z2, PRIME);
    PrimeProduct(w, w, PRIME);
    PrimeProduct(w * w, w, PRIME);
    CommonScale(X1, Y1, Z1, Z2, q.x, q.y, PRIME);
    CommonScale(X2, Y2, Z2, Z1, t.x, t.y, PRIME);
    assert Z2 * Z1 == w;
  }

  lemma GeneralResult(r: Jac, u1: int, s1: int, u2: int, s2: int, w: int, q: Point, t: Point)
    requires PrimeField() && q.Affine? && t.Affine? && InField(q, PRIME) && InField(t, PRIME) && q.x != t.x
    requires !Cong(w, 0, PRIME)
    requires Cong(u1, q.x * (w * w), PRIME) && Cong(s1, q.y * (w * w * w), PRIME)
    requires Cong(u2, t.x * (w * w), PRIME) && Cong(s2, t.y * (w * w * w), PRIME)
    requires var h, r0 := u2 - u1, s2 - s1; var hh := h * h; var hhh := hh * h; var v := u1 * hh;
             var x3 := r0 * r0 - hhh - (v + v);
             Held(r, x3, r0 * ((u1 - x3) * hh) - s1 * hhh, w * h)
    ensures HasAbscissa(r, Add(q, t, PRIME))
    ensures Stands(r, Add(q, t, PRIME)) <==> GeneralYExact(u1, u2 - u1, s2 - s1, PRIME)
  {
    hide LeN, PowW;
    var h, r0 := u2 - u1, s2 - s1;
    var hh := h * h;
    var hhh, v := hh * h, u1 * hh;
    var x3 := r0 * r0 - hhh - (v + v);
    var y3 := r0 * ((u1 - x3) * hh) - s1 * hhh;
    var s := Add(q, t, PRIME);
    GeneralFormula(u1, s1, u2, s2, w, q, t, PRIME);
    assert Abscissa(x3, w * h, s);
    GeneralYIff(u1, s1, h, r0, s.y, w * h, PRIME);
    StandsIff(r, x3, y3, w * h, s);
  }

  // --------------------------------------------------------- back to affine

  const PM2: Fe := P[0 := P[0] - 2]

  lemma PM2Val()
    ensures PRIME >= 2 && Val(PM2) == PRIME - 2
  {
    LeNSuffix(P, PM2, 1, 4);
    PModulus();
    assert LeN(P, 1) == LeN(P, 0) + P[0] * PowW(0);
    assert LeN(PM2, 1) == LeN(PM2, 0) + PM2[0] * PowW(0);
  }

  /** Z^-1 as Z^(PRIME-2), back in Montgomery form. */
  method InvertZ(zm: Fe, ghost Z: int) returns (zinv: Fe, ghost zv: int)
    requires PrimeField() && Holds(zm, Z) && !Cong(Z, 0, PRIME)
    ensures Holds(zinv, zv) && Cong(Z * zv, 1, PRIME)
  {
    hide LeN, PowW;
    PModulus();
    PM2Val();
    var zn := FromMontP(zm, Z);
    var zi := Exp(zn, PM2, P, P0INV, R2P);
    zv := Val(zi);
    InverseResidue(Z, zv);
    zinv := ToMontP(zi);
  }

  /** jacobian_to_affine: fails exactly on infinity. */
  method JacobianToAffine(j: Jac, ghost q: Point) returns (ok: bool, x: Fe, y: Fe)
    requires PrimeField() && HasAbscissa(j, q)
    ensures ok <==> q.Affine?
    ensures ok ==> Val(x) == q.x
    ensures ok && Stands(j, q) ==> Val(y) == q.y
  {
    hide LeN, PowW;
    ghost var X, Y, Z :| Held(j, X, Y, Z) && Abscissa(X, Z, q);
    ZeroResidue(j.Z, Z);
    var zz := IsZero(j.Z);
    if zz {
      return false, ONE, ONE;
    }
    ok := true;
    var zinv, zv := InvertZ(j.Z, Z);
    var z2 := MulP(zinv, zinv, zv, zv);
    var z3 := MulP(z2, zinv, zv * zv, zv);
    var Xn := MulP(j.X, z2, X, zv * zv);
    var Yn := MulP(j.Y, z3, Y, zv * zv * zv);
    x := FromMontP(Xn, X * (zv * zv));
    y := FromMontP(Yn, Y * (zv * zv * zv));
    UnscaleX(X, Z, zv, q.x, PRIME);
    StandsIff(j, X, Y, Z, q);
    if Stands(j, q) { UnscaleY(Y, Z, zv, q.y, PRIME); }
  }

  lemma InverseResidue(Z: int, zv: nat)
    requires PrimeField() && !Cong(Z, 0, PRIME) && zv == Pow(Z % PRIME, PRIME - 2) % PRIME
    ensures Cong(Z * zv, 1, PRIME)
  {
    hide LeN, PowW;
    CongMod(Z, PRIME);
    FermatInverse(Z % PRIME, PRIME);
    CongMod(Pow(Z % PRIME, PRIME - 2), PRIME);
    CongMul(Z, Z % PRIME, zv, Pow(Z % PRIME, PRIME - 2), PRIME);
  }

  lemma UnscaleX(X: int, Z: int, zv: int, x: nat, m: nat)
    requires m > 0 && x < m && Cong(Z * zv, 1, m) && Cong(X, x * (Z * Z), m)
    ensures (X * (zv * zv)) % m == x
  {
    hide LeN, PowW;
    CongMul(X, x * (Z * Z), zv * zv, zv * zv, m);
    SquareScale(x, Z, zv);
    CongMul(Z * zv, 1, Z * zv, 1, m);
    CongMul(x, x, (Z * zv) * (Z * zv), 1, m);
    DivModUnique(x, 0, x, m);
  }

  lemma UnscaleY(Y: int, Z: int, zv: int, y: nat, m: nat)
    requires m > 0 && y < m && Cong(Z * zv, 1, m) && Cong(Y, y * (Z * Z * Z), m)
    ensures (Y * (zv * zv * zv)) % m == y
  {
    hide LeN, PowW;
    CongMul(Y, y * (Z * Z * Z), zv * zv * zv, zv * zv * zv, m);
    CubeScale(y, Z, zv);
    var u := Z * zv;
    CongMul(u, 1, u, 1, m);
    CongMul(u * u, 1, u, 1, m);
    CongMul(y, y, u * u * u, 1, m);
    DivModUnique(y, 0, y, m);
  }
}
