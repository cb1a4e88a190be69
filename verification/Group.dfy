/**
Multiples of an element under an associative operation, and the curve instance:
associativity of the chord-and-tangent law is the one hypothesis, everything
about multiples of a point follows from it.
*/
module Group {
  import opened Modular
  import opened Curve
  import opened P256Points

  // ------------------------------------------------- multiples in a monoid

  /** An operation with neutral element on the elements that satisfy In. */
  ghost predicate Monoid<T(!new)>(In: T -> bool, zero: T, op: (T, T) -> T) {
    In(zero) &&
    (forall x, y :: In(x) && In(y) ==> In(op(x, y))) &&
    (forall x :: op(zero, x) == x && op(x, zero) == x) &&
    (forall x, y, z :: In(x) && In(y) && In(z) ==> op(op(x, y), z) == op(x, op(y, z)))
  }

  /** q combined with itself k times. */
  ghost function Multiple<T>(k: nat, q: T, zero: T, op: (T, T) -> T): T {
    if k == 0 then zero else op(Multiple(k - 1, q, zero, op), q)
  }

  lemma {:induction false} MultipleIn<T(!new)>(k: nat, q: T, In: T -> bool, zero: T, op: (T, T) -> T)
    requires Monoid(In, zero, op) && In(q)
    ensures In(Multiple(k, q, zero, op))
  {
    if k > 0 { MultipleIn(k - 1, q, In, zero, op); }
  }

  lemma MultipleStep<T(!new)>(k: nat, q: T, zero: T, op: (T, T) -> T)
    ensures Multiple(k, q, zero, op) == if k == 0 then zero else op(Multiple(k - 1, q, zero, op), q)
  {
  }

  lemma Reassociate<T(!new)>(x: T, y: T, z: T, In: T -> bool, zero: T, op: (T, T) -> T)
    requires Monoid(In, zero, op) && In(x) && In(y) && In(z)
    ensures op(op(x, y), z) == op(x, op(y, z)) && op(x, zero) == x
  {
  }

  lemma {:induction false} MultipleAdd<T(!new)>(j: nat, k: nat, q: T, In: T -> bool, zero: T, op: (T, T) -> T)
    requires Monoid(In, zero, op) && In(q)
    ensures op(Multiple(j, q, zero, op), Multiple(k, q, zero, op)) == Multiple(j + k, q, zero, op)
    decreases k
  {
    hide Monoid, Multiple;
    MultipleIn(j, q, In, zero, op);
    MultipleStep(k, q, zero, op);
    MultipleStep(j + k, q, zero, op);
    if k == 0 {
      Reassociate(Multiple(j, q, zero, op), q, q, In, zero, op);
    } else {
      MultipleAdd(j, k - 1, q, In, zero, op);
      MultipleIn(k - 1, q, In, zero, op);
      Reassociate(Multiple(j, q, zero, op), Multiple(k - 1, q, zero, op), q, In, zero, op);
    }
  }

  lemma {:induction false} MultipleMultiple<T(!new)>(j: nat, k: nat, q: T, In: T -> bool, zero: T, op: (T, T) -> T)
    requires Monoid(In, zero, op) && In(q)
    ensures j * k >= 0 && Multiple(j, Multiple(k, q, zero, op), zero, op) == Multiple(j * k, q, zero, op)
    decreases j
  {
    if j == 0 {
      assert j * k == 0;
    } else {
      MultipleMultiple(j - 1, k, q, In, zero, op);
      assert (j - 1) * k + k == j * k;
      MultipleAdd((j - 1) * k, k, q, In, zero, op);
    }
  }

  lemma {:induction false} ZeroMultiple<T(!new)>(k: nat, In: T -> bool, zero: T, op: (T, T) -> T)
    requires Monoid(In, zero, op)
    ensures Multiple(k, zero, zero, op) == zero
  {
    if k > 0 { ZeroMultiple(k - 1, In, zero, op); }
  }

  /** Multiples only depend on the factor modulo the order. */
  lemma MultipleCong<T(!new)>(j: nat, k: nat, n: nat, q: T, In: T -> bool, zero: T, op: (T, T) -> T)
    requires Monoid(In, zero, op) && In(q)
    requires n > 0 && Multiple(n, q, zero, op) == zero && Cong(j, k, n)
    ensures Multiple(j, q, zero, op) == Multiple(k, q, zero, op)
  {
    var a, c := Parts(j, n);
    var a', c' := Parts(k, n);
    MultipleMod(j, a, c, n, q, In, zero, op);
    MultipleMod(k, a', c', n, q, In, zero, op);
  }

  lemma Parts(j: nat, n: nat) returns (a: nat, c: nat)
    requires n > 0
    ensures j == a * n + c && c == j % n
  {
    a, c := j / n, j % n;
  }

  lemma MultipleMod<T(!new)>(j: nat, a: nat, c: nat, n: nat, q: T, In: T -> bool, zero: T, op: (T, T) -> T)
    requires Monoid(In, zero, op) && In(q)
    requires Multiple(n, q, zero, op) == zero && j == a * n + c
    ensures Multiple(j, q, zero, op) == Multiple(c, q, zero, op)
  {
    MultipleMultiple(a, n, q, In, zero, op);
    ZeroMultiple(a, In, zero, op);
    MultipleAdd(a * n, c, q, In, zero, op);
  }

  // ------------------------------------------------------------- the curve

  ghost predicate Associative(m: nat, b: int)
    requires m > 1
  {
    forall x, y, z :: OnCurve(x, m, b) && OnCurve(y, m, b) && OnCurve(z, m, b) ==>
      Add(Add(x, y, m), z, m) == Add(x, Add(y, z, m), m)
  }

  ghost function Plus(m: nat): (Point, Point) -> Point
    requires m > 1
  {
    (x: Point, y: Point) => Add(x, y, m)
  }

  ghost function OnIt(m: nat, b: int): Point -> bool
    requires m > 0
  {
    (x: Point) => OnCurve(x, m, b)
  }

  /** k * q on the curve, by repeated addition. */
  ghost function Times(k: nat, q: Point, m: nat): Point
    requires m > 1
  {
    Multiple(k, q, Infinity, Plus(m))
  }

  lemma CurveMonoid(m: nat, b: int)
    requires GoodField(m) && Associative(m, b)
    ensures Monoid(OnIt(m, b), Infinity, Plus(m))
  {
    var In, op := OnIt(m, b), Plus(m);
    forall x, y | In(x) && In(y)
      ensures In(op(x, y))
    {
      AddOnCurve(x, y, m, b);
    }
    forall x, y, z | In(x) && In(y) && In(z)
      ensures op(op(x, y), z) == op(x, op(y, z))
    {
      assert Add(Add(x, y, m), z, m) == Add(x, Add(y, z, m), m);
    }
  }

  lemma DoubleIsAdd(q: Point, m: nat)
    requires m > 1
    ensures Double(q, m) == Add(q, q, m)
  {
  }

  lemma TimesOnCurve(k: nat, q: Point, m: nat, b: int)
    requires GoodField(m) && OnCurve(q, m, b) && Associative(m, b)
    ensures OnCurve(Times(k, q, m), m, b)
  {
    CurveMonoid(m, b);
    MultipleIn(k, q, OnIt(m, b), Infinity, Plus(m));
  }

  lemma TimesAdd(j: nat, k: nat, q: Point, m: nat, b: int)
    requires GoodField(m) && OnCurve(q, m, b) && Associative(m, b)
    ensures Add(Times(j, q, m), Times(k, q, m), m) == Times(j + k, q, m)
  {
    CurveMonoid(m, b);
    MultipleAdd(j, k, q, OnIt(m, b), Infinity, Plus(m));
  }

  lemma TimesTimes(j: nat, k: nat, q: Point, m: nat, b: int)
    requires GoodField(m) && OnCurve(q, m, b) && Associative(m, b)
    ensures j * k >= 0 && Times(j, Times(k, q, m), m) == Times(j * k, q, m)
  {
    CurveMonoid(m, b);
    MultipleMultiple(j, k, q, OnIt(m, b), Infinity, Plus(m));
  }

  lemma TimesCong(j: nat, k: nat, n: nat, q: Point, m: nat, b: int)
    requires GoodField(m) && OnCurve(q, m, b) && Associative(m, b)
    requires n > 0 && Times(n, q, m) == Infinity && Cong(j, k, n)
    ensures Times(j, q, m) == Times(k, q, m)
  {
    CurveMonoid(m, b);
    MultipleCong(j, k, n, q, OnIt(m, b), Infinity, Plus(m));
  }

  /** Double-and-add computes the k-fold sum. */
  lemma {:induction false} DoubleAndAddIsTimes(k: nat, q: Point, m: nat, b: int)
    requires GoodField(m) && OnCurve(q, m, b) && Associative(m, b)
    ensures DoubleAndAdd(k, q, m) == Times(k, q, m)
    decreases k
  {
    if k > 0 {
      var h := k / 2;
      DoubleAndAddIsTimes(h, q, m, b);
      DoubleTimes(h, q, m, b);
      OneMore(h + h, q, m);
      assert k == h + h + k % 2;
    }
  }

  lemma DoubleTimes(h: nat, q: Point, m: nat, b: int)
    requires GoodField(m) && OnCurve(q, m, b) && Associative(m, b)
    ensures Double(Times(h, q, m), m) == Times(h + h, q, m)
  {
    DoubleIsAdd(Times(h, q, m), m);
    TimesAdd(h, h, q, m, b);
  }

  lemma OneMore(k: nat, q: Point, m: nat)
    requires m > 1
    ensures Times(k + 1, q, m) == Add(Times(k, q, m), q, m)
  {
  }

  /** u1 g + u2 (d g) is k g whenever u1 + u2 d and k agree modulo the order. */
  lemma Combination(d: nat, k: nat, u1: nat, u2: nat, g: Point, n: nat, m: nat, b: int)
    requires GoodField(m) && OnCurve(g, m, b) && Associative(m, b)
    requires n > 0 && Times(n, g, m) == Infinity && Cong(u1 + u2 * d, k, n)
    ensures Add(Times(u1, g, m), Times(u2, Times(d, g, m), m), m) == Times(k, g, m)
  {
    TimesTimes(u2, d, g, m, b);
    TimesAdd(u1, u2 * d, g, m, b);
    TimesCong(u1 + u2 * d, k, n, g, m, b);
  }

  /** The same for double-and-add. */
  lemma CombinedPoint(d: nat, k: nat, u1: nat, u2: nat, g: Point, n: nat, m: nat, b: int)
    requires GoodField(m) && OnCurve(g, m, b) && Associative(m, b)
    requires n > 0 && Times(n, g, m) == Infinity && Cong(u1 + u2 * d, k, n)
    ensures Add(DoubleAndAdd(u1, g, m), DoubleAndAdd(u2, Times(d, g, m), m), m) == DoubleAndAdd(k, g, m)
  {
    TimesOnCurve(d, g, m, b);
    DoubleAndAddIsTimes(u1, g, m, b);
    DoubleAndAddIsTimes(k, g, m, b);
    DoubleAndAddIsTimes(u2, Times(d, g, m), m, b);
    Combination(d, k, u1, u2, g, n, m, b);
  }
}
