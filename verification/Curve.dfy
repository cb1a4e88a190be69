/**
The affine chord-and-tangent law on y^2 == x^3 - 3x + b over a prime field, and
the algebra by which the Jacobian formulas of crypto/ecc.c compute it.
*/
module Curve {
  import opened Modular

  datatype Point = Infinity | Affine(x: nat, y: nat)

  ghost predicate GoodField(p: nat) {
    p > 3 && IsPrime(p)
  }

  ghost function Inv(a: int, p: nat): nat
    requires p > 1
  {
    Pow(a, p - 2) % p
  }

  lemma InvCorrect(a: int, p: nat)
    requires GoodField(p) && !Cong(a, 0, p)
    ensures Cong(a * Inv(a, p), 1, p)
  {
    FermatInverse(a, p);
    CongMod(Pow(a, p - 2), p);
    CongMul(a, a, Inv(a, p), Pow(a, p - 2), p);
  }

  ghost predicate InField(q: Point, p: nat) {
    q.Affine? ==> q.x < p && q.y < p
  }

  ghost predicate OnCurve(q: Point, p: nat, b: int)
    requires p > 0
  {
    q.Affine? ==> q.x < p && q.y < p && Cong(q.y * q.y, q.x * q.x * q.x - 3 * q.x + b, p)
  }

  // -------------------------------------------------------- the affine law

  /** The third intersection of the line with slope l through (x1, y1), reflected;
      d is the distance to the second abscissa. */
  ghost function Chord(l: int, x1: int, y1: int, d: int, p: nat): Point
    requires p > 0
  {
    var x3 := l * l - d - 2 * x1;
    var y3 := l * (x1 - x3) - y1;
    Affine(x3 % p, y3 % p)
  }

  ghost function DoubleSlope(q: Point, p: nat): int
    requires p > 1 && q.Affine?
  {
    (3 * q.x * q.x - 3) * Inv(2 * q.y, p)
  }

  ghost function AddSlope(q: Point, r: Point, p: nat): int
    requires p > 1 && q.Affine? && r.Affine?
  {
    (r.y - q.y) * Inv(r.x - q.x, p)
  }

  ghost function Double(q: Point, p: nat): Point
    requires p > 1
  {
    if q.Infinity? || q.y == 0 then Infinity
    else Chord(DoubleSlope(q, p), q.x, q.y, 0, p)
  }

  ghost function Add(q: Point, r: Point, p: nat): Point
    requires p > 1
  {
    if q.Infinity? then r
    else if r.Infinity? then q
    else if q.x == r.x then (if q.y == r.y then Double(q, p) else Infinity)
    else Chord(AddSlope(q, r, p), q.x, q.y, r.x - q.x, p)
  }

  /** A residue that is not zero is invertible. */
  lemma NonZeroResidue(a: int, p: nat)
    requires p > 0 && 0 < a < p
    ensures !Cong(a, 0, p)
  {
    if Cong(a, 0, p) { CongSmall(a, 0, p); }
  }

  lemma DifferentResidues(a: nat, b: nat, p: nat)
    requires a < p && b < p && a != b
    ensures !Cong(b - a, 0, p)
  {
    if Cong(b - a, 0, p) {
      CongAdd(b - a, 0, a, a, p);
      CongSmall(b, a, p);
    }
  }

  lemma TwiceNonZero(a: nat, p: nat)
    requires GoodField(p) && 0 < a < p
    ensures !Cong(2 * a, 0, p)
  {
    NonZeroResidue(a, p);
    NonZeroResidue(2, p);
    PrimeProduct(2, a, p);
  }

  lemma DoubleSlopeCorrect(q: Point, p: nat)
    requires GoodField(p) && q.Affine? && 0 < q.y < p
    ensures Cong(DoubleSlope(q, p) * (2 * q.y), 3 * q.x * q.x - 3, p)
  {
    TwiceNonZero(q.y, p);
    SlopeTimes(3 * q.x * q.x - 3, 2 * q.y, p);
  }

  lemma AddSlopeCorrect(q: Point, r: Point, p: nat)
    requires GoodField(p) && q.Affine? && r.Affine? && InField(q, p) && InField(r, p) && q.x != r.x
    ensures Cong(AddSlope(q, r, p) * (r.x - q.x), r.y - q.y, p)
  {
    DifferentResidues(q.x, r.x, p);
    SlopeTimes(r.y - q.y, r.x - q.x, p);
  }

  lemma SlopeTimes(n: int, d: int, p: nat)
    requires GoodField(p) && !Cong(d, 0, p)
    ensures Cong((n * Inv(d, p)) * d, n, p)
  {
    InvCorrect(d, p);
    CongMul(n, n, d * Inv(d, p), 1, p);
    assert n * (d * Inv(d, p)) == (n * Inv(d, p)) * d;
  }

  // ------------------------------------------------------ what the law is

  /** The reflected point. */
  function Neg(q: Point, p: nat): Point
    requires p > 0 && InField(q, p)
  {
    match q case Infinity => Infinity case Affine(x, y) => Affine(x, if y == 0 then 0 else p - y)
  }

  lemma TwiceSelf(p: nat)
    requires p > 0
    ensures Cong(p, 0, p)
  {
  }

  /** A point and its reflection add up to infinity. */
  lemma AddOpposite(q: Point, p: nat)
    requires GoodField(p) && InField(q, p)
    ensures Add(q, Neg(q, p), p) == Infinity
  {
    hide Chord, DoubleSlope, AddSlope, IsPrime, Cong;
    if q.Affine? && q.y > 0 && q.y == p - q.y {
      TwiceSelf(p);
      TwiceNonZero(q.y, p);
      assert false;
    }
  }

  lemma ResidueIs(a: int, b: int, p: nat)
    requires p > 0 && Cong(a, b, p)
    ensures a % p == b % p
  {
  }

  /** Equal lines meet the curve at equal points. */
  lemma ChordFrom(l: int, l': int, x1: int, y1: int, x2: int, y2: int, p: nat)
    requires p > 0 && Cong(l, l', p) && Cong(l * (x2 - x1), y2 - y1, p)
    ensures Chord(l, x1, y1, x2 - x1, p) == Chord(l', x2, y2, x1 - x2, p)
  {
    var x3, x3' := l * l - (x2 - x1) - 2 * x1, l' * l' - (x1 - x2) - 2 * x2;
    CongMul(l, l', l, l', p);
    CongSub(l * l, l' * l', x1 + x2, x1 + x2, p);
    CongSub(x2, x2, x3, x3', p);
    CongMul(l, l', x2 - x3, x2 - x3', p);
    CongSub(l * (x2 - x3), l' * (x2 - x3'), l * (x2 - x1), y2 - y1, p);
    assert l * (x2 - x3) - l * (x2 - x1) == l * (x1 - x3);
    CongSub(l * (x1 - x3), l' * (x2 - x3') - (y2 - y1), y1, y1, p);
    ResidueIs(x3, x3', p);
    ResidueIs(l * (x1 - x3) - y1, l' * (x2 - x3') - y2, p);
  }

  lemma AddCommutes(q: Point, r: Point, p: nat)
    requires GoodField(p) && InField(q, p) && InField(r, p)
    ensures Add(q, r, p) == Add(r, q, p)
  {
    if q.Affine? && r.Affine? && q.x != r.x {
      AddSlopeCorrect(q, r, p);
      AddSlopeCorrect(r, q, p);
      DifferentResidues(q.x, r.x, p);
      hide AddSlope, Chord;
      SlopesAgree(AddSlope(q, r, p), AddSlope(r, q, p), r.x - q.x, r.y - q.y, p);
      ChordFrom(AddSlope(q, r, p), AddSlope(r, q, p), q.x, q.y, r.x, r.y, p);
    }
  }

  lemma SlopesAgree(l: int, l': int, d: int, h: int, p: nat)
    requires GoodField(p) && !Cong(d, 0, p) && Cong(l * d, h, p) && Cong(l' * -d, -h, p)
    ensures Cong(l, l', p)
  {
    CongSub(0, 0, l' * -d, -h, p);
    assert 0 - l' * -d == d * l' && l * d == d * l;
    Cancel(d, l, l', p);
  }

  /** The reflection of s lies on the line through q in direction (dx, dy). */
  ghost predicate OnLine(q: Point, dx: int, dy: int, s: Point, p: nat)
    requires p > 0 && q.Affine?
  {
    s.Affine? && Cong(dy * (s.x - q.x), (0 - s.y - q.y) * dx, p)
  }

  /** Two points and the reflection of their sum lie on one line. */
  lemma AddCollinear(q: Point, r: Point, p: nat)
    requires GoodField(p) && InField(q, p) && InField(r, p) && q.Affine? && r.Affine? && q.x != r.x
    ensures OnLine(q, r.x - q.x, r.y - q.y, Add(q, r, p), p)
  {
    AddSlopeCorrect(q, r, p);
    var l, d := AddSlope(q, r, p), r.x - q.x;
    hide AddSlope, Chord;
    ChordLine(l, q, d, d, r.y - q.y, p);
  }

  /** A point and the reflection of its double lie on the tangent. */
  lemma DoubleTangent(q: Point, p: nat)
    requires GoodField(p) && InField(q, p) && q.Affine? && q.y > 0
    ensures OnLine(q, 2 * q.y, 3 * q.x * q.x - 3, Double(q, p), p)
  {
    DoubleSlopeCorrect(q, p);
    hide DoubleSlope, Chord;
    ChordLine(DoubleSlope(q, p), q, 0, 2 * q.y, 3 * q.x * q.x - 3, p);
  }

  lemma ChordLine(l: int, q: Point, d: int, w: int, h: int, p: nat)
    requires p > 0 && q.Affine? && Cong(l * w, h, p)
    ensures OnLine(q, w, h, Chord(l, q.x, q.y, d, p), p)
  {
    var x1, y1 := q.x, q.y;
    var x3 := l * l - d - 2 * x1;
    var y3 := l * (x1 - x3) - y1;
    CongMod(x3, p);
    CongMod(y3, p);
    ChordSides(l, x1, y1, x3, y3, x3 % p, y3 % p, w, h, p);
  }

  lemma ChordSides(l: int, x1: int, y1: int, x3: int, y3: int, x: int, y: int, w: int, h: int, p: nat)
    requires p > 0 && Cong(l * w, h, p) && Cong(x, x3, p) && Cong(y, y3, p) && y3 == l * (x1 - x3) - y1
    ensures Cong(h * (x - x1), (0 - y - y1) * w, p)
  {
    CongSub(x, x3, x1, x1, p);
    CongMul(l * w, h, x3 - x1, x - x1, p);
    CongSub(0 - y1, 0 - y1, y, y3, p);
    CongMul(0 - y - y1, 0 - y3 - y1, w, w, p);
    LineSides(l, x1, x3, y1, w);
  }

  lemma LineSides(l: int, x1: int, x3: int, y1: int, w: int)
    ensures (0 - (l * (x1 - x3) - y1) - y1) * w == (l * w) * (x3 - x1)
  {
    assert 0 - (l * (x1 - x3) - y1) - y1 == l * (x3 - x1);
  }

  // ------------------------------------------- the law stays on the curve

  /** y3^2 == x3^3 - 3 x3 + b once the line meets the curve where it should:
      (x1, y1) is on the curve and the line condition at d holds. */
  lemma ChordOnCurve(l: int, x1: int, y1: int, d: int, b: int, p: nat)
    requires GoodField(p)
    requires Cong(y1 * y1, x1 * x1 * x1 - 3 * x1 + b, p)
    requires Cong(l * (2 * y1 + l * d), 3 * x1 * x1 + 3 * x1 * d + d * d - 3, p)
    ensures OnCurve(Chord(l, x1, y1, d, p), p, b)
  {
    var x3 := l * l - d - 2 * x1;
    var y3 := l * (x1 - x3) - y1;
    var e1 := y1 * y1 - (x1 * x1 * x1 - 3 * x1 + b);
    var e2 := l * (2 * y1 + l * d) - (3 * x1 * x1 + 3 * x1 * d + d * d - 3);
    CongSub(y1 * y1, x1 * x1 * x1 - 3 * x1 + b, x1 * x1 * x1 - 3 * x1 + b, x1 * x1 * x1 - 3 * x1 + b, p);
    CongSub(l * (2 * y1 + l * d), 3 * x1 * x1 + 3 * x1 * d + d * d - 3,
            3 * x1 * x1 + 3 * x1 * d + d * d - 3, 3 * x1 * x1 + 3 * x1 * d + d * d - 3, p);
    assert Cong(e1, 0, p) && Cong(e2, 0, p);
    CongMul(x3 - x1, x3 - x1, e2, 0, p);
    assert (x3 - x1) * 0 == 0;
    CongAdd(e1, 0, (x3 - x1) * e2, 0, p);
    ChordIdentity(l, x1, y1, d, b);
    CongFromZero(y3 * y3, x3 * x3 * x3 - 3 * x3 + b, e1 + (x3 - x1) * e2, p);
    CurveResidue(x3, y3, b, p);
  }

  lemma CongFromZero(a: int, b: int, z: int, p: nat)
    requires p > 0 && a - b == z && Cong(z, 0, p)
    ensures Cong(a, b, p)
  {
    CongAdd(z, 0, b, b, p);
  }

  lemma ChordIdentity(l: int, x1: int, y1: int, d: int, b: int)
    ensures var x3 := l * l - d - 2 * x1;
            var y3 := l * (x1 - x3) - y1;
            var e1 := y1 * y1 - (x1 * x1 * x1 - 3 * x1 + b);
            var e2 := l * (2 * y1 + l * d) - (3 * x1 * x1 + 3 * x1 * d + d * d - 3);
            y3 * y3 - (x3 * x3 * x3 - 3 * x3 + b) == e1 + (x3 - x1) * e2
  {
    var x3 := l * l - d - 2 * x1;
    var e2 := l * (2 * y1 + l * d) - (3 * x1 * x1 + 3 * x1 * d + d * d - 3);
    LineSquare(l, x1 - x3, y1);
    LineTerm(l, y1, d);
    CubicIdentity(x1, x3, d, l * l, l * y1, e2);
  }

  lemma LineSquare(l: int, s: int, y: int)
    ensures (l * s - y) * (l * s - y) == (l * l) * (s * s) - 2 * ((l * y) * s) + y * y
  {
  }

  lemma LineTerm(l: int, y: int, d: int)
    ensures l * (2 * y + l * d) == 2 * (l * y) + (l * l) * d
  {
  }

  lemma CubicIdentity(x1: int, x3: int, d: int, ll: int, ly: int, e2: int)
    requires ll == x3 + d + 2 * x1
    requires e2 == 2 * ly + ll * d - (3 * x1 * x1 + 3 * x1 * d + d * d - 3)
    ensures ll * ((x1 - x3) * (x1 - x3)) - 2 * (ly * (x1 - x3)) - (x3 * x3 * x3 - 3 * x3)
         == -(x1 * x1 * x1 - 3 * x1) + (x3 - x1) * e2
  {
    var lhs := (x3 + d + 2 * x1) * ((x1 - x3) * (x1 - x3)) - 2 * (ly * (x1 - x3)) - (x3 * x3 * x3 - 3 * x3);
    var rhs := -(x1 * x1 * x1 - 3 * x1)
               + (x3 - x1) * (2 * ly + (x3 + d + 2 * x1) * d - (3 * x1 * x1 + 3 * x1 * d + d * d - 3));
    assert lhs == rhs;
  }

  /** Reducing the coordinates does not leave the curve. */
  lemma CurveResidue(x: int, y: int, b: int, p: nat)
    requires p > 0 && Cong(y * y, x * x * x - 3 * x + b, p)
    ensures OnCurve(Affine(x % p, y % p), p, b)
  {
    CongMod(x, p);
    CongMod(y, p);
    var x', y' := x % p, y % p;
    CongMul(y', y, y', y, p);
    CongMul(x', x, x', x, p);
    CongMul(x' * x', x * x, x', x, p);
    CongMul(3, 3, x', x, p);
    CongSub(x' * x' * x', x * x * x, 3 * x', 3 * x, p);
    CongAdd(x' * x' * x' - 3 * x', x * x * x - 3 * x, b, b, p);
  }

  lemma DoubleOnCurve(q: Point, p: nat, b: int)
    requires GoodField(p) && OnCurve(q, p, b)
    ensures OnCurve(Double(q, p), p, b)
  {
    if q.Affine? && q.y != 0 {
      var l := DoubleSlope(q, p);
      DoubleSlopeCorrect(q, p);
      assert l * (2 * q.y + l * 0) == l * (2 * q.y);
      assert 3 * q.x * q.x + 3 * q.x * 0 + 0 * 0 - 3 == 3 * q.x * q.x - 3;
      ChordOnCurve(l, q.x, q.y, 0, b, p);
    }
  }

  lemma AddOnCurve(q: Point, r: Point, p: nat, b: int)
    requires GoodField(p) && OnCurve(q, p, b) && OnCurve(r, p, b)
    ensures OnCurve(Add(q, r, p), p, b)
  {
    if q.Affine? && r.Affine? {
      if q.x == r.x {
        DoubleOnCurve(q, p, b);
      } else {
        var l, d := AddSlope(q, r, p), r.x - q.x;
        AddSlopeCorrect(q, r, p);
        DifferentResidues(q.x, r.x, p);
        SecantCondition(l, q.x, q.y, d, r.y, b, p);
        ChordOnCurve(l, q.x, q.y, d, b, p);
      }
    }
  }

  /** Two curve points on a line with slope l, d apart, satisfy the line condition. */
  lemma SecantCondition(l: int, x1: int, y1: int, d: int, y2: int, b: int, p: nat)
    requires GoodField(p) && !Cong(d, 0, p) && Cong(l * d, y2 - y1, p)
    requires Cong(y1 * y1, x1 * x1 * x1 - 3 * x1 + b, p)
    requires Cong(y2 * y2, (x1 + d) * (x1 + d) * (x1 + d) - 3 * (x1 + d) + b, p)
    ensures Cong(l * (2 * y1 + l * d), 3 * x1 * x1 + 3 * x1 * d + d * d - 3, p)
  {
    var c1 := x1 * x1 * x1 - 3 * x1 + b;
    var c2 := (x1 + d) * (x1 + d) * (x1 + d) - 3 * (x1 + d) + b;
    var u, w := l * (2 * y1 + l * d), 3 * x1 * x1 + 3 * x1 * d + d * d - 3;
    SlopeSquares(l, y1, d, y2, p);
    CubeDifference(x1, d, b);
    SecantCancel(d, u, w, y2 * y2, y1 * y1, c2, c1, p);
  }

  lemma SlopeSquares(l: int, y1: int, d: int, y2: int, p: nat)
    requires p > 0 && Cong(l * d, y2 - y1, p)
    ensures Cong(d * (l * (2 * y1 + l * d)), y2 * y2 - y1 * y1, p)
  {
    assert Cong(2 * y1, 2 * y1, p);
    hide Cong;
    var e := l * d;
    CongAdd(e, y2 - y1, 2 * y1, 2 * y1, p);
    CongMul(e, y2 - y1, 2 * y1 + e, y2 + y1, p);
    SquareDifference(y1, y2);
    MulShift(l, d, 2 * y1 + e);
  }

  lemma SquareDifference(a: int, b: int)
    ensures (b - a) * (b + a) == b * b - a * a
  {
  }

  lemma MulShift(a: int, b: int, c: int)
    ensures (a * b) * c == b * (a * c)
  {
  }

  lemma SecantCancel(d: int, u: int, w: int, q2: int, q1: int, c2: int, c1: int, p: nat)
    requires GoodField(p) && !Cong(d, 0, p) && Cong(d * u, q2 - q1, p) && Cong(q2, c2, p) && Cong(q1, c1, p)
    requires c2 - c1 == d * w
    ensures Cong(u, w, p)
  {
    CongSub(q2, c2, q1, c1, p);
    Cancel(d, u, w, p);
  }

  lemma CubeDifference(x1: int, d: int, b: int)
    ensures ((x1 + d) * (x1 + d) * (x1 + d) - 3 * (x1 + d) + b) - (x1 * x1 * x1 - 3 * x1 + b)
         == d * (3 * x1 * x1 + 3 * x1 * d + d * d - 3)
  {
  }

  // --------------------------------------------------- Jacobian coordinates

  /** (X, Y, Z) stands for the affine point (X / Z^2, Y / Z^3), or for infinity. */
  ghost predicate Jacobian(X: int, Y: int, Z: int, q: Point, p: nat)
    requires p > 0
  {
    InField(q, p) &&
    (Cong(Z, 0, p) <==> q.Infinity?) &&
    (q.Affine? ==> Cong(X, q.x * (Z * Z), p) && Cong(Y, q.y * (Z * Z * Z), p))
  }

  /** The tail shared by all three formulas, over the scale u of the new Z. */
  lemma ChordScaled(r: int, J: int, V: int, T: int, l: int, x1: int, y1: int, d: int, u: int, p: nat)
    requires p > 0
    requires Cong(r, l * u, p) && Cong(J, d * (u * u), p)
    requires Cong(V, x1 * (u * u), p) && Cong(T, y1 * (u * u * u), p)
    ensures var q := Chord(l, x1, y1, d, p); var X3 := r * r - J - V - V;
            Cong(X3, q.x * (u * u), p) && Cong(r * (V - X3) - T, q.y * (u * u * u), p)
  {
    var x3 := l * l - d - 2 * x1;
    var y3 := l * (x1 - x3) - y1;
    var X3 := r * r - J - V - V;
    CongMul(r, l * u, r, l * u, p);
    CongSub(r * r, (l * u) * (l * u), J, d * (u * u), p);
    CongSub(r * r - J, (l * u) * (l * u) - d * (u * u), V, x1 * (u * u), p);
    CongSub(r * r - J - V, (l * u) * (l * u) - d * (u * u) - x1 * (u * u), V, x1 * (u * u), p);
    ChordX(l, x1, d, u);
    assert Cong(X3, x3 * (u * u), p);
    CongSub(V, x1 * (u * u), X3, x3 * (u * u), p);
    CongMul(r, l * u, V - X3, x1 * (u * u) - x3 * (u * u), p);
    CongSub(r * (V - X3), (l * u) * (x1 * (u * u) - x3 * (u * u)), T, y1 * (u * u * u), p);
    ChordY(l, x1, x3, y1, u);
    CongMod(x3, p);
    CongMod(y3, p);
    CongMul(x3 % p, x3, u * u, u * u, p);
    CongMul(y3 % p, y3, u * u * u, u * u * u, p);
  }

  lemma ChordX(l: int, x1: int, d: int, u: int)
    ensures (l * u) * (l * u) - d * (u * u) - x1 * (u * u) - x1 * (u * u) == (l * l - d - 2 * x1) * (u * u)
  {
    assert (l * u) * (l * u) == (l * l) * (u * u);
  }

  lemma ChordY(l: int, x1: int, x3: int, y1: int, u: int)
    ensures (l * u) * (x1 * (u * u) - x3 * (u * u)) - y1 * (u * u * u) == (l * (x1 - x3) - y1) * (u * u * u)
  {
  }

  // ------------------------------------------------------------- doubling

  /** point_double on a finite point with non-zero y. */
  lemma DoubleFormula(X: int, Y: int, Z: int, q: Point, p: nat)
    requires GoodField(p) && Jacobian(X, Y, Z, q, p) && q.Affine? && q.y != 0
    ensures var A, B := X * X, Y * Y; var C := B * B;
            var S0 := (X + B) * (X + B) - A - C; var S := S0 + S0;
            var E0 := A - (Z * Z) * (Z * Z); var E := E0 + (E0 + E0);
            var X3 := E * E - S - S;
            var C2 := C + C; var C4 := C2 + C2;
            Jacobian(X3, E * (S - X3) - (C4 + C4), Y * Z + Y * Z, Double(q, p), p)
  {
    var A, B := X * X, Y * Y;
    var C := B * B;
    var S0 := (X + B) * (X + B) - A - C;
    var S := S0 + S0;
    var E0 := A - (Z * Z) * (Z * Z);
    var E := E0 + (E0 + E0);
    var l, u := DoubleSlope(q, p), Y * Z + Y * Z;
    DoubleSlopeCorrect(q, p);
    DoubleE(X, Y, Z, q.x, q.y, l, p);
    DoubleS(X, Y, Z, q.x, p);
    DoubleT(Y, Z, q.y, p);
    assert 0 * (u * u) == 0;
    ChordScaled(E, 0, S, 8 * C, l, q.x, q.y, 0, u, p);
    DoubleZ(Y, Z, q.y, p);
  }

  /** E == 3 (X^2 - Z^4) is the tangent slope times the new Z. */
  lemma DoubleE(X: int, Y: int, Z: int, x: int, y: int, l: int, p: nat)
    requires p > 0 && Cong(X, x * (Z * Z), p) && Cong(Y, y * (Z * Z * Z), p)
    requires Cong(l * (2 * y), 3 * x * x - 3, p)
    ensures var E0 := X * X - (Z * Z) * (Z * Z);
            Cong(E0 + (E0 + E0), l * (Y * Z + Y * Z), p)
  {
    var z4 := (Z * Z) * (Z * Z);
    var xz := x * (Z * Z);
    CongMul(X, xz, X, xz, p);
    CongMul(3, 3, X * X, xz * xz, p);
    CongSub(3 * (X * X), 3 * (xz * xz), 3 * z4, 3 * z4, p);
    CongMul(l * (2 * y), 3 * x * x - 3, z4, z4, p);
    CongMul(2 * l * Z, 2 * l * Z, Y, y * (Z * Z * Z), p);
    TangentTerms(x, y, Z, l, Y);
  }

  lemma TangentTerms(x: int, y: int, Z: int, l: int, Y: int)
    ensures var z4 := (Z * Z) * (Z * Z); var xz := x * (Z * Z);
            3 * (xz * xz) - 3 * z4 == (3 * x * x - 3) * z4
    ensures (2 * l * Z) * (y * (Z * Z * Z)) == (l * (2 * y)) * ((Z * Z) * (Z * Z))
    ensures (2 * l * Z) * Y == l * (Y * Z + Y * Z)
  {
  }

  /** S == 4 X Y^2 is the abscissa times the square of the new Z. */
  lemma DoubleS(X: int, Y: int, Z: int, x: int, p: nat)
    requires p > 0 && Cong(X, x * (Z * Z), p)
    ensures var B := Y * Y; var S0 := (X + B) * (X + B) - X * X - B * B; var u := Y * Z + Y * Z;
            Cong(S0 + S0, x * (u * u), p)
  {
    var B := Y * Y;
    CongMul(4 * B, 4 * B, X, x * (Z * Z), p);
    var S0 := (X + B) * (X + B) - X * X - B * B;
    assert S0 + S0 == (4 * B) * X;
    var u := Y * Z + Y * Z;
    assert u * u == 4 * (B * (Z * Z)) by { assert u == 2 * (Y * Z); MulShuffle(Y, Z, Y, Z); }
    assert (4 * B) * (x * (Z * Z)) == x * (4 * (B * (Z * Z)));
  }

  /** 8 Y^4 is the ordinate times the cube of the new Z. */
  lemma DoubleT(Y: int, Z: int, y: int, p: nat)
    requires p > 0 && Cong(Y, y * (Z * Z * Z), p)
    ensures var u := Y * Z + Y * Z;
            Cong(8 * ((Y * Y) * (Y * Y)), y * (u * u * u), p)
  {
    var t := Y * Y * Y;
    CongMul(8 * t, 8 * t, Y, y * (Z * Z * Z), p);
    FourthPower(Y);
    CubeOfTwice(Y, Z);
    MulFront(8, t, y, Z * Z * Z);
  }

  lemma FourthPower(a: int)
    ensures (8 * (a * a * a)) * a == 8 * ((a * a) * (a * a))
  {
  }

  lemma MulFront(k: int, a: int, b: int, c: int)
    ensures (k * a) * (b * c) == b * (k * (a * c))
  {
  }

  lemma CubeOfTwice(a: int, b: int)
    ensures var u := a * b + a * b; u * u * u == 8 * ((a * a * a) * (b * b * b))
  {
    var v := a * b;
    assert (v + v) * (v + v) * (v + v) == 8 * (v * v * v);
    assert v * v * v == (a * a * a) * (b * b * b);
  }

  /** The new Z does not vanish. */
  lemma DoubleZ(Y: int, Z: int, y: nat, p: nat)
    requires GoodField(p) && 0 < y < p && !Cong(Z, 0, p) && Cong(Y, y * (Z * Z * Z), p)
    ensures !Cong(Y * Z + Y * Z, 0, p)
  {
    NonZeroResidue(y, p);
    NonZeroResidue(2, p);
    PrimeProduct(Z, Z, p);
    PrimeProduct(Z * Z, Z, p);
    PrimeProduct(y, Z * Z * Z, p);
    PrimeProduct(Y, Z, p);
    PrimeProduct(2, Y * Z, p);
    assert Y * Z + Y * Z == 2 * (Y * Z);
  }

  // ------------------------------------------------------- mixed addition

  /** H vanishes exactly when the abscissas agree. */
  lemma MixedH(X: int, Z: int, x1: nat, x2: nat, p: nat)
    requires GoodField(p) && x1 < p && x2 < p && !Cong(Z, 0, p) && Cong(X, x1 * (Z * Z), p)
    ensures Cong(x2 * (Z * Z) - X, (x2 - x1) * (Z * Z), p)
    ensures Cong(x2 * (Z * Z) - X, 0, p) <==> x1 == x2
  {
    CongSub(x2 * (Z * Z), x2 * (Z * Z), X, x1 * (Z * Z), p);
    assert x2 * (Z * Z) - x1 * (Z * Z) == (x2 - x1) * (Z * Z);
    PrimeProduct(Z, Z, p);
    PrimeProduct(x2 - x1, Z * Z, p);
    if x1 != x2 { DifferentResidues(x1, x2, p); }
  }

  /** r vanishes exactly when the ordinates agree. */
  lemma MixedR(Y: int, Z: int, y1: nat, y2: nat, p: nat)
    requires GoodField(p) && y1 < p && y2 < p && !Cong(Z, 0, p) && Cong(Y, y1 * (Z * Z * Z), p)
    ensures var s := (y2 * Z) * (Z * Z) - Y;
            Cong(s, (y2 - y1) * (Z * Z * Z), p) && (Cong(s + s, 0, p) <==> y1 == y2)
  {
    var s, c := (y2 * Z) * (Z * Z) - Y, Z * Z * Z;
    hide Cong;
    MulCube(y2, Z);
    DifferenceScaled(Y, y1, y2, c, p);
    TwiceZero(s, p);
    CubeZero(Z, p);
    ScaledZero(y1, y2, c, s, p);
  }

  lemma DifferenceScaled(Y: int, y1: int, y2: int, c: int, p: nat)
    requires p > 0 && Cong(Y, y1 * c, p)
    ensures Cong(y2 * c - Y, (y2 - y1) * c, p)
  {
    CongSub(y2 * c, y2 * c, Y, y1 * c, p);
    assert y2 * c - y1 * c == (y2 - y1) * c;
  }

  lemma MulCube(y: int, Z: int)
    ensures (y * Z) * (Z * Z) == y * (Z * Z * Z)
  {
  }

  lemma TwiceZero(s: int, p: nat)
    requires GoodField(p)
    ensures Cong(s + s, 0, p) <==> Cong(s, 0, p)
  {
    NonZeroResidue(2, p);
    PrimeProduct(2, s, p);
    assert s + s == 2 * s;
  }

  lemma CubeZero(Z: int, p: nat)
    requires GoodField(p)
    ensures Cong(Z * Z * Z, 0, p) <==> Cong(Z, 0, p)
  {
    PrimeProduct(Z, Z, p);
    PrimeProduct(Z * Z, Z, p);
  }

  lemma ScaledZero(y1: nat, y2: nat, c: int, s: int, p: nat)
    requires GoodField(p) && y1 < p && y2 < p && !Cong(c, 0, p) && Cong(s, (y2 - y1) * c, p)
    ensures Cong(s, 0, p) <==> y1 == y2
  {
    PrimeProduct(y2 - y1, c, p);
    if y1 != y2 { DifferentResidues(y1, y2, p); }
  }

  /** The scale of mixed addition: Z3 == (Z + H)^2 - Z^2 - H^2 == 2 Z H. */
  lemma MixedFormula(X: int, Y: int, Z: int, q: Point, r2: Point, p: nat)
    requires GoodField(p) && Jacobian(X, Y, Z, q, p) && q.Affine? && r2.Affine? && InField(r2, p)
    requires q.x != r2.x
    ensures var ZZ := Z * Z; var H := r2.x * ZZ - X;
            var s := (r2.y * Z) * ZZ - Y; var r := s + s;
            var HH := H * H; var I := (HH + HH) + (HH + HH); var J := H * I; var V := X * I;
            var X3 := r * r - J - V - V; var YJ := Y * J;
            Jacobian(X3, r * (V - X3) - (YJ + YJ), (Z + H) * (Z + H) - ZZ - HH, Add(q, r2, p), p)
  {
    var ZZ := Z * Z;
    var H := r2.x * ZZ - X;
    var s := (r2.y * Z) * ZZ - Y;
    var r := s + s;
    var HH := H * H;
    var I := (HH + HH) + (HH + HH);
    var J, V := H * I, X * I;
    var YJ := Y * J;
    var u := (Z + H) * (Z + H) - ZZ - HH;
    var l, d := AddSlope(q, r2, p), r2.x - q.x;
    AddSlopeCorrect(q, r2, p);
    MixedH(X, Z, q.x, r2.x, p);
    MixedR(Y, Z, q.y, r2.y, p);
    assert u == 2 * (Z * H);
    MixedSlope(s, H, Z, l, d, r2.y - q.y, p);
    MixedJ(H, Z, d, p);
    MixedV(X, H, Z, q.x, p);
    MixedT(Y, H, Z, q.y, p);
    ChordScaled(r, J, V, YJ + YJ, l, q.x, q.y, d, u, p);
    PrimeProduct(Z, H, p);
    NonZeroResidue(2, p);
    PrimeProduct(2, Z * H, p);
  }

  lemma MixedSlope(s: int, H: int, Z: int, l: int, d: int, e: int, p: nat)
    requires p > 0 && Cong(l * d, e, p) && Cong(s, e * (Z * Z * Z), p) && Cong(H, d * (Z * Z), p)
    ensures Cong(s + s, l * (2 * (Z * H)), p)
  {
    CongMul(l * d, e, Z * Z * Z, Z * Z * Z, p);
    CongMul(l * Z, l * Z, H, d * (Z * Z), p);
    assert (l * Z) * (d * (Z * Z)) == (l * d) * (Z * Z * Z);
    CongMul(2, 2, s, (l * Z) * H, p);
    assert 2 * ((l * Z) * H) == l * (2 * (Z * H));
  }

  lemma MixedJ(H: int, Z: int, d: int, p: nat)
    requires p > 0 && Cong(H, d * (Z * Z), p)
    ensures var HH := H * H; var I := (HH + HH) + (HH + HH); var u := 2 * (Z * H);
            Cong(H * I, d * (u * u), p)
  {
    var I := 4 * (H * H);
    CongMul(H, d * (Z * Z), I, I, p);
    var u := 2 * (Z * H);
    assert u * u == I * (Z * Z) by { MulShuffle(Z, H, Z, H); }
    assert (d * (Z * Z)) * I == d * (I * (Z * Z));
  }

  lemma MixedV(X: int, H: int, Z: int, x1: int, p: nat)
    requires p > 0 && Cong(X, x1 * (Z * Z), p)
    ensures var HH := H * H; var I := (HH + HH) + (HH + HH); var u := 2 * (Z * H);
            Cong(X * I, x1 * (u * u), p)
  {
    var I := 4 * (H * H);
    CongMul(X, x1 * (Z * Z), I, I, p);
    var u := 2 * (Z * H);
    assert u * u == I * (Z * Z) by { MulShuffle(Z, H, Z, H); }
    assert (x1 * (Z * Z)) * I == x1 * (I * (Z * Z));
  }

  lemma MixedT(Y: int, H: int, Z: int, y1: int, p: nat)
    requires p > 0 && Cong(Y, y1 * (Z * Z * Z), p)
    ensures var HH := H * H; var I := (HH + HH) + (HH + HH); var YJ := Y * (H * I); var u := 2 * (Z * H);
            Cong(YJ + YJ, y1 * (u * u * u), p)
  {
    var h3 := H * H * H;
    CongMul(Y, y1 * (Z * Z * Z), 8 * h3, 8 * h3, p);
    CubeOfTwice(Z, H);
    assert (y1 * (Z * Z * Z)) * (8 * h3) == y1 * (8 * ((Z * Z * Z) * h3));
    var HH := H * H;
    var I := (HH + HH) + (HH + HH);
    assert Y * (H * I) + Y * (H * I) == Y * (8 * h3) by { assert H * I == 4 * h3; }
    assert 2 * (Z * H) == Z * H + Z * H;
  }

  // ----------------------------------------------------- general addition

  /** Two finite Jacobian points brought to the common scale w == Z1 Z2. */
  lemma CommonScale(X: int, Y: int, Z: int, W: int, x: int, y: int, p: nat)
    requires p > 0 && Cong(X, x * (Z * Z), p) && Cong(Y, y * (Z * Z * Z), p)
    ensures var w := Z * W;
            Cong(X * (W * W), x * (w * w), p) && Cong((Y * W) * (W * W), y * (w * w * w), p)
  {
    CongMul(X, x * (Z * Z), W * W, W * W, p);
    CongMul(Y, y * (Z * Z * Z), W * W * W, W * W * W, p);
    SquareScale(x, Z, W);
    CubeScale(y, Z, W);
    MulAssoc(Y, W, W * W);
    MulAssoc(W, W, W);
  }

  lemma SquareScale(x: int, Z: int, W: int)
    ensures (x * (Z * Z)) * (W * W) == x * ((Z * W) * (Z * W))
  {
    MulShuffle(Z, W, Z, W);
    MulAssoc(x, Z * Z, W * W);
  }

  lemma CubeScale(y: int, Z: int, W: int)
    ensures (y * (Z * Z * Z)) * (W * W * W) == y * ((Z * W) * (Z * W) * (Z * W))
  {
    MulShuffle(Z, W, Z, W);
    MulShuffle(Z * Z, W * W, Z, W);
    MulAssoc(y, Z * Z * Z, W * W * W);
  }

  /** A common non-zero scale decides equality of the affine values. */
  lemma ScaledDifference(a: int, b: int, x1: nat, x2: nat, k: int, p: nat)
    requires GoodField(p) && x1 < p && x2 < p && !Cong(k, 0, p)
    requires Cong(a, x1 * k, p) && Cong(b, x2 * k, p)
    ensures Cong(b - a, (x2 - x1) * k, p)
    ensures Cong(b - a, 0, p) <==> x1 == x2
  {
    CongSub(b, x2 * k, a, x1 * k, p);
    assert x2 * k - x1 * k == (x2 - x1) * k;
    PrimeProduct(x2 - x1, k, p);
    if x1 != x2 { DifferentResidues(x1, x2, p); }
  }

  /** point_add_jacobian computes Y3 as r (U1 - X3) H^2 - S1 H^3, where the law
      needs r (U1 H^2 - X3) - S1 H^3. The two agree exactly here. */
  ghost predicate GeneralYExact(U1: int, H: int, r: int, p: nat)
    requires p > 0
  {
    var HH := H * H;
    var V := U1 * HH;
    Cong(r, 0, p) || Cong(HH, 1, p) || Cong(r * r, HH * H + (V + V), p)
  }

  lemma GeneralFormula(U1: int, S1: int, U2: int, S2: int, w: int, q: Point, t: Point, p: nat)
    requires GoodField(p) && q.Affine? && t.Affine? && InField(q, p) && InField(t, p) && q.x != t.x
    requires !Cong(w, 0, p)
    requires Cong(U1, q.x * (w * w), p) && Cong(S1, q.y * (w * w * w), p)
    requires Cong(U2, t.x * (w * w), p) && Cong(S2, t.y * (w * w * w), p)
    ensures var H, r := U2 - U1, S2 - S1; var HH := H * H; var HHH := HH * H; var V := U1 * HH;
            var u := w * H; var X3 := r * r - HHH - (V + V); var s := Add(q, t, p);
            s.Affine? && !Cong(u, 0, p) &&
            Cong(X3, s.x * (u * u), p) &&
            Cong(r * (V - X3) - S1 * HHH, s.y * (u * u * u), p)
  {
    var H, r := U2 - U1, S2 - S1;
    var HH := H * H;
    var HHH, V, u := HH * H, U1 * HH, w * H;
    var l, d := AddSlope(q, t, p), t.x - q.x;
    AddSlopeCorrect(q, t, p);
    PrimeProduct(w, w, p);
    PrimeProduct(w * w, w, p);
    ScaledDifference(U1, U2, q.x, t.x, w * w, p);
    ScaledDifference(S1, S2, q.y, t.y, w * w * w, p);
    PrimeProduct(w, H, p);
    GeneralSlope(r, H, w, l, d, t.y - q.y, p);
    GeneralTerms(U1, S1, H, w, q.x, q.y, d, p);
    ChordScaled(r, HHH, V, S1 * HHH, l, q.x, q.y, d, u, p);
  }

  lemma GeneralSlope(r: int, H: int, w: int, l: int, d: int, e: int, p: nat)
    requires p > 0 && Cong(l * d, e, p) && Cong(r, e * (w * w * w), p) && Cong(H, d * (w * w), p)
    ensures Cong(r, l * (w * H), p)
  {
    CongMul(l * d, e, w * w * w, w * w * w, p);
    CongMul(l * w, l * w, H, d * (w * w), p);
    assert (l * w) * (d * (w * w)) == (l * d) * (w * w * w);
    assert (l * w) * H == l * (w * H);
  }

  lemma GeneralTerms(U1: int, S1: int, H: int, w: int, x1: int, y1: int, d: int, p: nat)
    requires p > 0 && Cong(H, d * (w * w), p)
    requires Cong(U1, x1 * (w * w), p) && Cong(S1, y1 * (w * w * w), p)
    ensures var u := w * H; var HH := H * H;
            Cong(HH * H, d * (u * u), p) && Cong(U1 * HH, x1 * (u * u), p) &&
            Cong(S1 * (HH * H), y1 * (u * u * u), p)
  {
    var HH := H * H;
    CongMul(HH, HH, H, d * (w * w), p);
    CongMul(U1, x1 * (w * w), HH, HH, p);
    CongMul(S1, y1 * (w * w * w), HH * H, HH * H, p);
    GeneralMonomials(x1, y1, d, w, H);
  }

  lemma GeneralMonomials(x1: int, y1: int, d: int, w: int, H: int)
    ensures var u := w * H; var HH := H * H;
            HH * (d * (w * w)) == d * (u * u) &&
            (x1 * (w * w)) * HH == x1 * (u * u) &&
            (y1 * (w * w * w)) * (HH * H) == y1 * (u * u * u)
  {
    assert (H * H) * (d * (w * w)) == d * ((w * H) * (w * H));
    assert (x1 * (w * w)) * (H * H) == x1 * ((w * H) * (w * H));
    assert (y1 * (w * w * w)) * (H * H * H) == y1 * ((w * H) * (w * H) * (w * H));
  }

  /** The code's Y3 is right if and only if one of three conditions on the scaled
      inputs holds: equal ordinates, H == +-1, or a sum with abscissa zero. */
  lemma GeneralYIff(U1: int, S1: int, H: int, r: int, y: int, u: int, p: nat)
    requires GoodField(p)
    requires var HH := H * H; var V := U1 * HH; var X3 := r * r - HH * H - (V + V);
             Cong(r * (V - X3) - S1 * (HH * H), y * (u * u * u), p)
    ensures var HH := H * H; var V := U1 * HH; var X3 := r * r - HH * H - (V + V);
            Cong(r * ((U1 - X3) * HH) - S1 * (HH * H), y * (u * u * u), p) <==> GeneralYExact(U1, H, r, p)
  {
    var HH := H * H;
    var V := U1 * HH;
    assert r * r - (HH * H + (V + V)) == r * r - HH * H - (V + V);
    YDifference(r, U1, r * r - HH * H - (V + V), HH, S1 * (HH * H), y * (u * u * u), p);
    DifferenceZero(r * r, HH * H + (V + V), p);
  }

  lemma YDifference(r: int, U1: int, X3: int, HH: int, T: int, target: int, p: nat)
    requires GoodField(p) && Cong(r * (U1 * HH - X3) - T, target, p)
    ensures Cong(r * ((U1 - X3) * HH) - T, target, p) <==> Cong(r, 0, p) || Cong(X3, 0, p) || Cong(HH, 1, p)
  {
    var good, code := r * (U1 * HH - X3) - T, r * ((U1 - X3) * HH) - T;
    var diff := (r * X3) * (1 - HH);
    assert code == good + diff;
    if Cong(diff, 0, p) { CongAdd(good, target, diff, 0, p); }
    if Cong(code, target, p) { CongSub(code, target, good, target, p); }
    PrimeProduct(r * X3, 1 - HH, p);
    PrimeProduct(r, X3, p);
    DifferenceZero(1, HH, p);
  }

  lemma DifferenceZero(a: int, b: int, p: nat)
    requires p > 0
    ensures Cong(a - b, 0, p) <==> Cong(a, b, p)
  {
    if Cong(a - b, 0, p) { CongAdd(a - b, 0, b, b, p); }
    if Cong(a, b, p) { CongSub(a, b, b, b, p); }
  }
}
