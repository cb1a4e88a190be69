/**
ECDSA over any curve with the group law: what signing computes, what verifying accepts, and
that the second accepts the first.
*/
module Signatures {
  import opened Modular
  import opened Curve
  import opened P256Points
  import opened Group

  /** Base point, its order, field prime and curve coefficient. */
  datatype Domain = Domain(g: Point, n: nat, m: nat, b: int)

  /** k times the base point, by double-and-add. */
  ghost function BaseMultiple(c: Domain, k: nat): Point
    requires c.m > 1
  {
    DoubleAndAdd(k, c.g, c.m)
  }

  /** FIPS 186-4 section 6.4: r and s for key d, digest e and nonce k. */
  ghost function SigR(c: Domain, k: nat): nat
    requires c.m > 1 && c.n > 0
  {
    var q := BaseMultiple(c, k);
    if q.Infinity? then 0 else q.x % c.n
  }

  ghost function SigS(c: Domain, d: nat, e: nat, k: nat): nat
    requires c.m > 1 && c.n > 1
  {
    (Inv(k, c.n) * ((e % c.n + (SigR(c, k) * d) % c.n) % c.n)) % c.n
  }

  /** The point that two coordinates denote, reduced modulo m. */
  ghost function Denoted(x: nat, y: nat, m: nat): Point
    requires m > 0
  {
    Affine(x % m, y % m)
  }

  /** What verifying decides, over the affine law. */
  ghost predicate Accepts(c: Domain, x: nat, y: nat, e: nat, r: nat, s: nat)
    requires c.m > 1 && c.n > 1
  {
    0 < r < c.n && 0 < s < c.n && OnCurve(Denoted(x, y, c.m), c.m, c.b) &&
    var u1, u2 := (e % c.n * Inv(s, c.n)) % c.n, (r * Inv(s, c.n)) % c.n;
    var t := Add(DoubleAndAdd(u1, c.g, c.m), DoubleAndAdd(u2, Denoted(x, y, c.m), c.m), c.m);
    t.Affine? && t.x % c.n == r
  }

  /** The hypotheses about a curve that are not re-proved here: field and order are prime, the
      law is associative, and the base point lies on the curve and has the order. */
  ghost predicate CurveHypotheses(c: Domain) {
    GoodField(c.m) && c.n > 3 && IsPrime(c.n) && c.m > 1 && Associative(c.m, c.b) &&
    OnCurve(c.g, c.m, c.b) && Times(c.n, c.g, c.m) == Infinity
  }

  /** s == k^-1 (e + r d), so s k == e + r d. */
  lemma SignatureEquation(d: nat, e: nat, k: nat, r: nat, s: nat, m: nat)
    requires GoodField(m) && !Cong(k, 0, m)
    requires s == (Inv(k, m) * ((e % m + (r * d) % m) % m)) % m
    ensures Cong(s * k, e % m + r * d, m)
  {
    var ki, h := Inv(k, m), e % m + r * d;
    var t := (e % m + (r * d) % m) % m;
    InvCorrect(k, m);
    CongMod(r * d, m);
    CongAdd(e % m, e % m, (r * d) % m, r * d, m);
    CongMod(e % m + (r * d) % m, m);
    CongMul(ki, ki, t, h, m);
    CongMod(ki * t, m);
    CongMul(s, ki * h, k, k, m);
    CongMul(k * ki, 1, h, h, m);
    MulRotate(ki, h, k);
  }

  lemma MulRotate(a: int, b: int, c: int)
    ensures (a * b) * c == (c * a) * b
  {
  }

  /** u1 + u2 d is the nonce again: w == s^-1 undoes s. */
  lemma NonceRecovered(d: nat, e: nat, k: nat, r: nat, s: nat, m: nat)
    requires GoodField(m) && 0 < s < m && Cong(s * k, e % m + r * d, m)
    ensures var u1, u2 := (e % m * Inv(s, m)) % m, (r * Inv(s, m)) % m; Cong(u1 + u2 * d, k, m)
  {
    var w, h := Inv(s, m), e % m + r * d;
    var u1, u2 := (e % m * w) % m, (r * w) % m;
    NonZeroResidue(s, m);
    InvCorrect(s, m);
    CongMod(e % m * w, m);
    CongMod(r * w, m);
    CongMul(u2, r * w, d, d, m);
    CongAdd(u1, e % m * w, u2 * d, (r * w) * d, m);
    assert e % m * w + (r * w) * d == h * w by { MulSplit(e % m, r, d, w); }
    CongMul(s * k, h, w, w, m);
    CongMul(s * w, 1, k, k, m);
    MulRotate(s, w, k);
    MulRotate(s, k, w);
    assert (k * s) * w == (w * s) * k by { MulRotate(k, s, w); MulRotate(w, s, k); MulRotate(w, k, s); }
  }

  lemma MulSplit(e: int, r: int, d: int, w: int)
    ensures e * w + (r * w) * d == (e + r * d) * w
  {
  }

  /** Every signature that signing returns is accepted under the matching public key. */
  lemma SignThenVerify(c: Domain, d: nat, e: nat, k: nat, x: nat, y: nat)
    requires CurveHypotheses(c)
    requires 0 < k < c.n && Times(d, c.g, c.m) == Affine(x, y)
    requires SigR(c, k) != 0 && SigS(c, d, e, k) != 0
    ensures Accepts(c, x, y, e, SigR(c, k), SigS(c, d, e, k))
  {
    var r, s := SigR(c, k), SigS(c, d, e, k);
    NonZeroResidue(k, c.n);
    SignatureRange(c, d, e, k);
    SignatureEquation(d, e, k, r, s, c.n);
    NonceRecovered(d, e, k, r, s, c.n);
    TimesOnCurve(d, c.g, c.m, c.b);
    DivModUnique(x, 0, x, c.m);
    DivModUnique(y, 0, y, c.m);
    var u1, u2 := (e % c.n * Inv(s, c.n)) % c.n, (r * Inv(s, c.n)) % c.n;
    CombinedPoint(d, k, u1, u2, c.g, c.n, c.m, c.b);
  }

  /** Coordinates denote a point of the curve exactly when they satisfy its equation. */
  lemma CurveEquation(x: nat, y: nat, m: nat, b: int)
    requires m > 0
    ensures Cong(y * y, x * x * x - 3 * x + b, m) <==> OnCurve(Denoted(x, y, m), m, b)
  {
    if Cong(y * y, x * x * x - 3 * x + b, m) { CurveResidue(x, y, b, m); }
    var x', y' := x % m, y % m;
    if OnCurve(Affine(x', y'), m, b) {
      CongMod(x, m);
      CongMod(y, m);
      CongMul(y, y', y, y', m);
      CongMul(x, x', x, x', m);
      CongMul(x * x, x' * x', x, x', m);
      CongMul(3, 3, x, x', m);
      CongSub(x * x * x, x' * x' * x', 3 * x, 3 * x', m);
      CongAdd(x * x * x - 3 * x, x' * x' * x' - 3 * x', b, b, m);
    }
  }

  /** Nothing is accepted under a key off the curve. */
  lemma OffCurveRefused(c: Domain, x: nat, y: nat, e: nat, r: nat, s: nat)
    requires c.m > 1 && c.n > 1 && !Cong(y * y, x * x * x - 3 * x + c.b, c.m)
    ensures !Accepts(c, x, y, e, r, s)
  {
    CurveEquation(x, y, c.m, c.b);
  }

  /** k times the base point has an abscissa, and r is its residue. */
  ghost predicate Shows(c: Domain, k: nat, r: nat)
    requires c.m > 1 && c.n > 0
  {
    var q := Times(k, c.g, c.m);
    q.Affine? && q.x % c.n == r
  }

  /** r and s are in range and satisfy the signing equation for key d and some nonce whose
      multiple of the base point shows r. */
  ghost predicate Genuine(c: Domain, d: nat, e: nat, r: nat, s: nat)
    requires c.m > 1 && c.n > 0
  {
    0 < r < c.n && 0 < s < c.n && exists k: nat :: Shows(c, k, r) && Cong(s * k, e + r * d, c.n)
  }

  /** With w == s^-1: s (u1 + u2 d) == e + r d. */
  lemma EquationBack(d: nat, e: nat, r: nat, s: nat, m: nat)
    requires GoodField(m) && 0 < s < m
    ensures var u1, u2 := (e % m * Inv(s, m)) % m, (r * Inv(s, m)) % m; Cong(s * (u1 + u2 * d), e + r * d, m)
  {
    var w := Inv(s, m);
    var u1, u2, h := (e % m * w) % m, (r * w) % m, e % m + r * d;
    NonZeroResidue(s, m);
    InvCorrect(s, m);
    CongMod(e % m * w, m);
    CongMod(r * w, m);
    CongMul(u2, r * w, d, d, m);
    CongAdd(u1, e % m * w, u2 * d, (r * w) * d, m);
    MulSplit(e % m, r, d, w);
    CongMul(s, s, u1 + u2 * d, h * w, m);
    MulRotate(h, w, s);
    CongMul(s * w, 1, h, h, m);
    assert s * (h * w) == (s * w) * h by { MulRotate(s, h, w); MulRotate(w, s, h); MulRotate(h, w, s); }
    CongMod(e, m);
    CongAdd(e % m, e, r * d, r * d, m);
  }

  /** What is accepted under the public point of key d is exactly what is genuine for it. */
  lemma AcceptsIff(c: Domain, d: nat, e: nat, x: nat, y: nat, r: nat, s: nat)
    requires CurveHypotheses(c) && Times(d, c.g, c.m) == Affine(x, y)
    ensures Accepts(c, x, y, e, r, s) <==> Genuine(c, d, e, r, s)
  {
    if 0 < r < c.n && 0 < s < c.n {
      TimesOnCurve(d, c.g, c.m, c.b);
      DivModUnique(x, 0, x, c.m);
      DivModUnique(y, 0, y, c.m);
      var u1, u2 := (e % c.n * Inv(s, c.n)) % c.n, (r * Inv(s, c.n)) % c.n;
      var t := Add(DoubleAndAdd(u1, c.g, c.m), DoubleAndAdd(u2, Denoted(x, y, c.m), c.m), c.m);
      assert Accepts(c, x, y, e, r, s) <==> t.Affine? && t.x % c.n == r;
      hide Accepts;
      AcceptsOnly(c, d, e, x, y, r, s, u1, u2);
      forall k: nat | Shows(c, k, r) && Cong(s * k, e + r * d, c.n)
        ensures t.Affine? && t.x % c.n == r
      {
        AcceptsAll(c, d, e, x, y, r, s, u1, u2, k);
      }
    }
  }

  lemma AcceptsOnly(c: Domain, d: nat, e: nat, x: nat, y: nat, r: nat, s: nat, u1: nat, u2: nat)
    requires CurveHypotheses(c) && Times(d, c.g, c.m) == Affine(x, y) && Denoted(x, y, c.m) == Affine(x, y)
    requires 0 < r < c.n && 0 < s < c.n && u1 == (e % c.n * Inv(s, c.n)) % c.n && u2 == (r * Inv(s, c.n)) % c.n
    ensures var t := Add(DoubleAndAdd(u1, c.g, c.m), DoubleAndAdd(u2, Denoted(x, y, c.m), c.m), c.m);
            t.Affine? && t.x % c.n == r ==> Genuine(c, d, e, r, s)
  {
    var k := u1 + u2 * d;
    EquationBack(d, e, r, s, c.n);
    CombinedPoint(d, k, u1, u2, c.g, c.n, c.m, c.b);
    DoubleAndAddIsTimes(k, c.g, c.m, c.b);
    hide DoubleAndAdd, Add, Times, Inv;
    var t := Add(DoubleAndAdd(u1, c.g, c.m), DoubleAndAdd(u2, Denoted(x, y, c.m), c.m), c.m);
    if t.Affine? && t.x % c.n == r {
      assert Shows(c, k, r) && Cong(s * k, e + r * d, c.n);
    }
  }

  lemma AcceptsAll(c: Domain, d: nat, e: nat, x: nat, y: nat, r: nat, s: nat, u1: nat, u2: nat, k: nat)
    requires CurveHypotheses(c) && Times(d, c.g, c.m) == Affine(x, y) && Denoted(x, y, c.m) == Affine(x, y)
    requires 0 < r < c.n && 0 < s < c.n && u1 == (e % c.n * Inv(s, c.n)) % c.n && u2 == (r * Inv(s, c.n)) % c.n
    requires Shows(c, k, r) && Cong(s * k, e + r * d, c.n)
    ensures var t := Add(DoubleAndAdd(u1, c.g, c.m), DoubleAndAdd(u2, Denoted(x, y, c.m), c.m), c.m);
            t.Affine? && t.x % c.n == r
  {
    CongMod(e, c.n);
    CongAdd(e, e % c.n, r * d, r * d, c.n);
    NonceRecovered(d, e, k, r, s, c.n);
    CombinedPoint(d, k, u1, u2, c.g, c.n, c.m, c.b);
    DoubleAndAddIsTimes(k, c.g, c.m, c.b);
  }

  lemma SignatureRange(c: Domain, d: nat, e: nat, k: nat)
    requires c.m > 1 && c.n > 1
    ensures SigR(c, k) < c.n && SigS(c, d, e, k) < c.n
  {
    var q := BaseMultiple(c, k);
    if q.Affine? { CongMod(q.x, c.n); }
    CongMod(Inv(k, c.n) * ((e % c.n + (SigR(c, k) * d) % c.n) % c.n), c.n);
  }
}
