/**
Congruences, powers, prime moduli and Fermat's little theorem: the number
theory on which the P-256 routines of crypto/ecc.c rest.
*/
module Modular {

  /** a and b leave the same remainder modulo m. */
  ghost predicate Cong(a: int, b: int, m: int)
    requires m > 0
  {
    a % m == b % m
  }

  /** The quotient and the remainder are the only pair with these bounds. */
  lemma DivModUnique(a: int, q: int, r: int, m: int)
    requires m > 0 && 0 <= r < m && a == q * m + r
    ensures a / m == q && a % m == r
  {
    var q' := a / m;
    var r' := a % m;
    assert a == q' * m + r';
    assert (q - q') * m == r' - r;
    if q > q' {
      MulAtLeast(q - q', m);
    } else if q < q' {
      MulAtLeast(q' - q, m);
    }
  }

  lemma MulAtLeast(k: int, m: int)
    requires k >= 1 && m > 0
    ensures k * m >= m
  {
    assert k * m == m + (k - 1) * m;
  }

  /** Congruence is the same as differing by a multiple of the modulus. */
  lemma CongFromMultiple(a: int, b: int, k: int, m: int)
    requires m > 0 && a == b + k * m
    ensures Cong(a, b, m)
  {
    var q := b / m;
    assert a == (q + k) * m + b % m;
    DivModUnique(a, q + k, b % m, m);
  }

  lemma CongQuotient(a: int, b: int, m: int) returns (k: int)
    requires m > 0 && Cong(a, b, m)
    ensures a == b + k * m
  {
    k := a / m - b / m;
    assert a == (a / m) * m + a % m;
    assert b == (b / m) * m + b % m;
  }

  lemma CongMod(a: int, m: int)
    requires m > 0
    ensures Cong(a % m, a, m) && 0 <= a % m < m
  {
    CongFromMultiple(a, a % m, a / m, m);
  }

  lemma CongAdd(a: int, a': int, b: int, b': int, m: int)
    requires m > 0 && Cong(a, a', m) && Cong(b, b', m)
    ensures Cong(a + b, a' + b', m)
  {
    var k := CongQuotient(a, a', m);
    var l := CongQuotient(b, b', m);
    assert a + b == a' + b' + (k + l) * m;
    CongFromMultiple(a + b, a' + b', k + l, m);
  }

  lemma CongSub(a: int, a': int, b: int, b': int, m: int)
    requires m > 0 && Cong(a, a', m) && Cong(b, b', m)
    ensures Cong(a - b, a' - b', m)
  {
    var k := CongQuotient(a, a', m);
    var l := CongQuotient(b, b', m);
    assert a - b == a' - b' + (k - l) * m;
    CongFromMultiple(a - b, a' - b', k - l, m);
  }

  lemma CongMul(a: int, a': int, b: int, b': int, m: int)
    requires m > 0 && Cong(a, a', m) && Cong(b, b', m)
    ensures Cong(a * b, a' * b', m)
  {
    var k := CongQuotient(a, a', m);
    var l := CongQuotient(b, b', m);
    MulExpand(a', k, b', l, m);
    CongFromMultiple(a * b, a' * b', k * b' + a' * l + k * l * m, m);
  }

  lemma MulExpand(a: int, k: int, b: int, l: int, m: int)
    ensures (a + k * m) * (b + l * m) == a * b + (k * b + a * l + k * l * m) * m
  {
  }

  lemma CongSmall(a: int, b: int, m: int)
    requires m > 0 && Cong(a, b, m) && 0 <= a < m && 0 <= b < m
    ensures a == b
  {
    DivModUnique(a, 0, a, m);
    DivModUnique(b, 0, b, m);
  }

  // ---------------------------------------------------------------- powers

  function Pow(b: int, e: nat): (r: int)
    ensures b >= 0 ==> r >= 0
    ensures b > 0 ==> r > 0
    decreases e
  {
    if e == 0 then 1 else b * Pow(b, e - 1)
  }

  lemma MulAssoc(a: int, b: int, c: int)
    ensures a * (b * c) == (a * b) * c
  {
  }

  lemma MulShuffle(a: int, b: int, c: int, d: int)
    ensures (a * b) * (c * d) == (a * c) * (b * d)
  {
  }

  lemma {:induction false} PowAdd(b: int, d: nat, e: nat)
    ensures Pow(b, d + e) == Pow(b, d) * Pow(b, e)
    decreases d
  {
    if d > 0 {
      PowAdd(b, d - 1, e);
      MulAssoc(b, Pow(b, d - 1), Pow(b, e));
    }
  }

  lemma {:induction false} PowBase(a: int, b: int, e: nat)
    ensures Pow(a * b, e) == Pow(a, e) * Pow(b, e)
    decreases e
  {
    if e > 0 {
      PowBase(a, b, e - 1);
      MulShuffle(a, b, Pow(a, e - 1), Pow(b, e - 1));
    }
  }

  lemma {:induction false} PowOne(e: nat)
    ensures Pow(1, e) == 1
    decreases e
  {
    if e > 0 { PowOne(e - 1); }
  }

  lemma {:induction false} CongPow(a: int, b: int, e: nat, m: int)
    requires m > 0 && Cong(a, b, m)
    ensures Cong(Pow(a, e), Pow(b, e), m)
    decreases e
  {
    if e > 0 {
      CongPow(a, b, e - 1, m);
      CongMul(a, b, Pow(a, e - 1), Pow(b, e - 1), m);
    }
  }

  // ---------------------------------------------------------------- primes

  ghost predicate IsPrime(p: int) {
    p > 1 && forall d :: 1 < d < p ==> p % d != 0
  }

  /** Every number not divisible by a prime has an inverse modulo that prime. */
  lemma {:induction false} Bezout(a: int, p: int) returns (x: int)
    requires IsPrime(p) && 0 < a < p
    ensures Cong(a * x, 1, p)
    decreases a
  {
    if a == 1 {
      x := 1;
    } else {
      // p == q * a + r with 0 < r < a, so r == -q * a modulo p
      var q, r := p / a, p % a;
      assert p == q * a + r;
      assert p % a != 0;
      var y := Bezout(r, p);
      x := -q * y;
      assert a * x == r * y + (-y) * p by {
        assert a * (-q * y) == (r - p) * y by {
          assert r - p == -(q * a);
          assert a * (-q * y) == -(q * a) * y;
        }
        assert (r - p) * y == r * y - p * y;
        assert (-y) * p == -(p * y);
      }
      CongFromMultiple(a * x, r * y, -y, p);
    }
  }

  /** A factor that is not divisible by the prime can be cancelled. */
  lemma Cancel(a: int, b: int, c: int, p: int)
    requires IsPrime(p) && !Cong(a, 0, p) && Cong(a * b, a * c, p)
    ensures Cong(b, c, p)
  {
    var r := a % p;
    CongMod(a, p);
    var x := Bezout(r, p);
    CongMul(a, r, x, x, p);
    // x*a == 1, so x*a*b == b and x*a*c == c
    CongMul(a * x, 1, b, b, p);
    CongMul(a * x, 1, c, c, p);
    CongMul(a * b, a * c, x, x, p);
    assert (a * x) * b == (a * b) * x;
    assert (a * x) * c == (a * c) * x;
  }

  lemma CancelToOne(u: int, f: int, p: int)
    requires IsPrime(p) && !Cong(f, 0, p) && Cong(f, u * f, p)
    ensures Cong(u, 1, p)
  {
    assert f * 1 == f && u * f == f * u;
    Cancel(f, u, 1, p);
  }

  /** Euclid's lemma. */
  lemma PrimeProduct(a: int, b: int, p: int)
    requires IsPrime(p)
    ensures Cong(a * b, 0, p) <==> Cong(a, 0, p) || Cong(b, 0, p)
  {
    if Cong(a, 0, p) { CongMul(a, 0, b, b, p); }
    if Cong(b, 0, p) { CongMul(a, a, b, 0, p); }
    if Cong(a * b, 0, p) && !Cong(a, 0, p) {
      assert a * 0 == 0;
      Cancel(a, b, 0, p);
    }
  }

  // ------------------------------------------------- Fermat's little theorem

  /** The product of the elements of a finite set of numbers. */
  ghost function Product(s: set<nat>): nat
    decreases |s|
  {
    if s == {} then 1
    else
      var x := Pick(s);
      Prod(x, Product(s - {x}))
  }

  ghost function Prod(a: nat, b: nat): nat { a * b }

  lemma ProdSwap(a: nat, b: nat, c: nat)
    ensures Prod(a, Prod(b, c)) == Prod(b, Prod(a, c))
  {
  }

  ghost function Pick(s: set<nat>): (x: nat)
    requires s != {}
    ensures x in s
  {
    var x :| x in s; x
  }

  /** The order in which a set is multiplied out does not matter. */
  lemma {:induction false} ProductRemove(s: set<nat>, x: nat)
    requires x in s
    ensures Product(s) == Prod(x, Product(s - {x}))
    decreases |s|
  {
    var y := Pick(s);
    if y != x {
      ProductRemove(s - {y}, x);
      assert s - {y} - {x} == s - {x} - {y};
      ProductRemove(s - {x}, y);
      ProdSwap(y, x, Product(s - {x} - {y}));
    }
  }

  ghost function Scaled(s: set<nat>, a: int, p: int): set<nat>
    requires p > 0
  {
    set x | x in s :: (a * x) % p
  }

  /** Scaling a set by an invertible factor adds one new element per element. */
  lemma ScaledAdd(t: set<nat>, x: nat, a: int, p: int)
    requires IsPrime(p) && !Cong(a, 0, p)
    requires x !in t && 0 < x < p && forall z :: z in t ==> 0 < z < p
    ensures (a * x) % p !in Scaled(t, a, p)
    ensures Scaled(t + {x}, a, p) == Scaled(t, a, p) + {(a * x) % p}
  {
    var y := (a * x) % p;
    if y in Scaled(t, a, p) {
      var z :| z in t && (a * z) % p == y;
      Cancel(a, x, z, p);
      CongSmall(x, z, p);
    }
  }

  lemma ScaledTerm(a: int, x: nat, y: nat, u: int, v: nat, w: nat, p: int)
    requires p > 0 && y == (a * x) % p && Cong(w, u * v, p)
    ensures Cong(Prod(y, w), (a * u) * Prod(x, v), p)
  {
    CongMod(a * x, p);
    CongMul(y, a * x, w, u * v, p);
    MulShuffle(a, x, u, v);
  }

  /** Multiplying every element of a set of non-zero residues by a. */
  lemma {:induction false} ScaledProduct(s: set<nat>, a: int, p: int)
    requires IsPrime(p) && !Cong(a, 0, p)
    requires forall x :: x in s ==> 0 < x < p
    ensures |Scaled(s, a, p)| == |s|
    ensures Cong(Product(Scaled(s, a, p)), Pow(a, |s|) * Product(s), p)
    decreases |s|
  {
    if s == {} {
      assert Scaled(s, a, p) == {};
    } else {
      var x := Pick(s);
      var t := s - {x};
      assert s == t + {x};
      var y := (a * x) % p;
      ScaledProduct(t, a, p);
      ScaledAdd(t, x, a, p);
      assert Scaled(s, a, p) - {y} == Scaled(t, a, p);
      ProductRemove(Scaled(s, a, p), y);
      ScaledTerm(a, x, y, Pow(a, |t|), Product(t), Product(Scaled(t, a, p)), p);
    }
  }

  /** The non-zero residues 1 .. p-1. */
  ghost function Residues(p: nat): set<nat> {
    if p <= 1 then {} else Residues(p - 1) + {p - 1}
  }

  lemma {:induction false} ResiduesBounds(p: nat)
    requires p > 0
    ensures |Residues(p)| == p - 1
    ensures forall x: nat :: x in Residues(p) <==> 0 < x < p
    decreases p
  {
    if p > 1 { ResiduesBounds(p - 1); }
  }

  lemma {:induction false} ProductNonZero(s: set<nat>, p: int)
    requires IsPrime(p) && forall x :: x in s ==> 0 < x < p
    ensures !Cong(Product(s), 0, p)
    decreases |s|
  {
    if s == {} {
      if Cong(1, 0, p) { CongSmall(1, 0, p); }
    } else {
      var x := Pick(s);
      ProductNonZero(s - {x}, p);
      if Cong(x, 0, p) { CongSmall(x, 0, p); }
      PrimeProduct(x, Product(s - {x}), p);
    }
  }

  lemma SubsetSameSize(s: set<nat>, t: set<nat>)
    requires s <= t && |s| == |t|
    ensures s == t
  {
    if s != t {
      var x :| x in t && x !in s;
      assert s <= t - {x};
      SubsetSize(s, t - {x});
    }
  }

  lemma {:induction false} SubsetSize(s: set<nat>, t: set<nat>)
    requires s <= t
    ensures |s| <= |t|
    decreases |s|
  {
    if s != {} {
      var x :| x in s;
      SubsetSize(s - {x}, t - {x});
    }
  }

  lemma ScaledResidues(a: int, p: nat)
    requires IsPrime(p) && !Cong(a, 0, p)
    ensures Scaled(Residues(p), a, p) <= Residues(p)
  {
    ResiduesBounds(p);
    forall y | y in Scaled(Residues(p), a, p)
      ensures y in Residues(p)
    {
      var x :| x in Residues(p) && y == (a * x) % p;
      CongMod(a * x, p);
      if y == 0 {
        PrimeProduct(a, x, p);
        CongSmall(x, 0, p);
      }
    }
  }

  /** Fermat: a^(p-1) == 1 modulo a prime p that does not divide a. */
  lemma Fermat(a: int, p: nat)
    requires IsPrime(p) && !Cong(a, 0, p)
    ensures Cong(Pow(a, p - 1), 1, p)
  {
    var s := Residues(p);
    ResiduesBounds(p);
    ScaledProduct(s, a, p);
    ScaledResidues(a, p);
    SubsetSameSize(Scaled(s, a, p), s);
    ProductNonZero(s, p);
    CancelToOne(Pow(a, p - 1), Product(s), p);
  }

  /** Inversion by exponentiation, as inv_mod_n and jacobian_to_affine do it. */
  lemma FermatInverse(a: int, p: nat)
    requires IsPrime(p) && !Cong(a, 0, p)
    ensures Cong(a * Pow(a, p - 2), 1, p)
  {
    Fermat(a, p);
    assert Pow(a, p - 1) == a * Pow(a, p - 2);
  }
}
