/**
Multi-limb arithmetic of crypto/ecc.c: 64-bit limbs, least significant first,
with 128-bit intermediates. A field element is four limbs; the scratch buffers
s and t of the source are arrays updated in place by the carry loops.
*/
module Limbs {

  type u64 = x: nat | x < 0x1_0000_0000_0000_0000

  const W: nat := 0x1_0000_0000_0000_0000

  type Fe = s: seq<u64> | |s| == 4 witness [0, 0, 0, 0]

  function PowW(n: nat): (r: nat)
    ensures r > 0
  {
    if n == 0 then 1 else W * PowW(n - 1)
  }

  /** The number held by the first n limbs. */
  function LeN(s: seq<u64>, n: nat): nat
    requires n <= |s|
  {
    if n == 0 then 0 else LeN(s, n - 1) + s[n - 1] * PowW(n - 1)
  }

  function Val(s: seq<u64>): nat { LeN(s, |s|) }

  lemma {:induction false} LeNPrefix(s: seq<u64>, t: seq<u64>, n: nat)
    requires n <= |s| && n <= |t| && forall i :: 0 <= i < n ==> s[i] == t[i]
    ensures LeN(s, n) == LeN(t, n)
    decreases n
  {
    if n > 0 { LeNPrefix(s, t, n - 1); }
  }

  lemma {:induction false} LeNSuffix(s: seq<u64>, t: seq<u64>, n: nat, m: nat)
    requires n <= m <= |s| && m <= |t| && forall i :: n <= i < m ==> s[i] == t[i]
    ensures LeN(s, m) - LeN(s, n) == LeN(t, m) - LeN(t, n)
    decreases m
  {
    if n < m { LeNSuffix(s, t, n, m - 1); }
  }

  lemma {:induction false} LeNBound(s: seq<u64>, n: nat)
    requires n <= |s|
    ensures LeN(s, n) < PowW(n)
    decreases n
  {
    if n > 0 {
      LeNBound(s, n - 1);
      MulMono(s[n - 1], W - 1, PowW(n - 1));
      assert (W - 1) * PowW(n - 1) + PowW(n - 1) == W * PowW(n - 1);
    }
  }

  lemma MulMono(a: int, b: int, c: int)
    requires a <= b && c >= 0
    ensures a * c <= b * c
  {
    assert b * c - a * c == (b - a) * c;
  }

  /** Dropping the lowest limb divides by the word size. */
  lemma {:induction false} LeNShift(s: seq<u64>, n: nat)
    requires n < |s|
    ensures LeN(s, n + 1) == s[0] + W * LeN(s[1..], n)
    decreases n
  {
    if n == 0 {
      assert LeN(s, 1) == LeN(s, 0) + s[0] * PowW(0);
      assert PowW(0) == 1;
    } else {
      LeNShift(s, n - 1);
      var x, y, z := LeN(s[1..], n - 1), s[n], PowW(n - 1);
      assert s[1..][n - 1] == s[n];
      assert W * (x + y * z) == W * x + y * (W * z);
    }
  }

  lemma {:induction false} LeNZeroTail(s: seq<u64>, n: nat, m: nat)
    requires n <= m <= |s| && forall i :: n <= i < m ==> s[i] == 0
    ensures LeN(s, m) == LeN(s, n)
    decreases m
  {
    if n < m { LeNZeroTail(s, n, m - 1); }
  }

  lemma {:induction false} LeNMono(s: seq<u64>, n: nat, m: nat)
    requires n <= m <= |s|
    ensures LeN(s, n) <= LeN(s, m)
    decreases m
  {
    if n < m {
      LeNMono(s, n, m - 1);
      MulMono(0, s[m - 1], PowW(m - 1));
    }
  }

  lemma {:induction false} PowWMono(n: nat, m: nat)
    requires n <= m
    ensures PowW(n) <= PowW(m)
    decreases m
  {
    if n < m {
      PowWMono(n, m - 1);
      MulMono(1, W, PowW(m - 1));
    }
  }

  /** A value below W^n has no limbs at or above n. */
  lemma {:induction false} HighLimbsZero(s: seq<u64>, n: nat, m: nat)
    requires n <= m <= |s| && LeN(s, m) < PowW(n)
    ensures forall i :: n <= i < m ==> s[i] == 0
    decreases m
  {
    if n < m {
      if s[m - 1] > 0 {
        MulMono(1, s[m - 1], PowW(m - 1));
        PowWMono(n, m - 1);
      }
      LeNMono(s, m - 1, m);
      HighLimbsZero(s, n, m - 1);
    }
  }

  /** fe_ge: compares from the most significant limb down. */
  method Ge(a: seq<u64>, b: Fe) returns (ge: bool)
    requires |a| >= 4
    ensures ge <==> LeN(a, 4) >= Val(b)
  {
    var i := 4;
    while i > 0
      invariant 0 <= i <= 4
      invariant LeN(a, 4) - LeN(a, i) == Val(b) - LeN(b, i)
    {
      i := i - 1;
      LeNBound(a, i);
      LeNBound(b, i);
      if a[i] > b[i] {
        MulMono(b[i] + 1, a[i], PowW(i));
        assert (b[i] + 1) * PowW(i) == b[i] * PowW(i) + PowW(i);
        return true;
      }
      if a[i] < b[i] {
        MulMono(a[i] + 1, b[i], PowW(i));
        assert (a[i] + 1) * PowW(i) == a[i] * PowW(i) + PowW(i);
        return false;
      }
    }
    return true;
  }

  lemma CarryStep(lo: nat, cur: nat, p: nat)
    ensures lo + (cur % W) * p + (cur / W) * (W * p) == lo + cur * p
  {
    var q, r := cur / W, cur % W;
    assert cur == q * W + r;
    assert (q * W + r) * p == q * (W * p) + r * p;
  }

  lemma BorrowStep(cur: int, p: nat, borrow: nat)
    requires borrow == (if cur < 0 then 1 else 0) && 0 - W <= cur < W
    ensures (if cur < 0 then cur + W else cur) * p - borrow * (W * p) == cur * p
  {
    if cur < 0 {
      assert (cur + W) * p == cur * p + W * p;
    }
  }

  /** One subtraction of a four-limb number with borrow, in place, over n limbs. */
  method SubInPlace(s: array<u64>, b: Fe, n: nat) returns (borrow: nat)
    requires 4 <= n <= s.Length
    modifies s
    ensures borrow <= 1
    ensures LeN(s[..], n) == LeN(old(s[..]), n) - Val(b) + borrow * PowW(n)
    ensures forall k :: n <= k < s.Length ==> s[k] == old(s[k])
  {
    ghost var before := s[..];
    borrow := 0;
    var i := 0;
    while i < n
      invariant 0 <= i <= n
      invariant borrow <= 1
      invariant forall k :: i <= k < s.Length ==> s[k] == before[k]
      invariant LeN(s[..], i) - borrow * PowW(i) == LeN(before, i) - Low(b, i)
    {
      ghost var mid := s[..];
      ghost var borrowIn := borrow;
      var d: nat := if i < 4 then b[i] else 0;
      var cur := s[i] - d - borrow;
      borrow := if cur < 0 then 1 else 0;
      s[i] := if cur < 0 then cur + W else cur;
      SubStep(before, mid, s[..], b, i, d, borrowIn, cur, borrow);
      i := i + 1;
    }
    assert LeN(b, 4) == Val(b);
  }

  /** The lowest i limbs of a four-limb number. */
  function Low(b: Fe, i: nat): nat { LeN(b, if i < 4 then i else 4) }

  /** One limb of it. */
  lemma SubStep(before: seq<u64>, mid: seq<u64>, now: seq<u64>, b: Fe, i: nat, d: nat, c: nat, cur: int, borrow: nat)
    requires i < |before| == |mid| == |now| && mid[i] == before[i] && c <= 1
    requires d == (if i < 4 then b[i] else 0) && cur == mid[i] - d - c && borrow == (if cur < 0 then 1 else 0)
    requires now[i] == (if cur < 0 then cur + W else cur) && forall k :: 0 <= k < i ==> now[k] == mid[k]
    requires LeN(mid, i) - c * PowW(i) == LeN(before, i) - Low(b, i)
    ensures LeN(now, i + 1) - borrow * PowW(i + 1) == LeN(before, i + 1) - Low(b, i + 1)
  {
    LeNPrefix(mid, now, i);
    BorrowStep(cur, PowW(i), borrow);
    SubTerm(before[i], d, c, PowW(i));
    assert Low(b, i + 1) == Low(b, i) + d * PowW(i);
  }

  lemma SubTerm(x: nat, d: nat, c: nat, p: nat)
    ensures (x - d - c) * p == x * p - d * p - c * p
  {
  }

  /** One addition of a four-limb number with carry, in place, over four limbs. */
  method AddInPlace(s: array<u64>, b: Fe) returns (carry: nat)
    requires s.Length >= 4
    modifies s
    ensures carry <= 1
    ensures LeN(s[..], 4) + carry * PowW(4) == LeN(old(s[..]), 4) + Val(b)
    ensures forall k :: 4 <= k < s.Length ==> s[k] == old(s[k])
  {
    ghost var before := s[..];
    carry := 0;
    var i := 0;
    while i < 4
      invariant 0 <= i <= 4
      invariant carry <= 1
      invariant forall k :: i <= k < s.Length ==> s[k] == before[k]
      invariant LeN(s[..], i) + carry * PowW(i) == LeN(before, i) + LeN(b, i)
    {
      ghost var mid := s[..];
      ghost var carryIn := carry;
      var cur := s[i] + b[i] + carry;
      s[i] := cur % W;
      carry := cur / W;
      LeNPrefix(mid, s[..], i);
      CarryStep(LeN(mid, i), cur, PowW(i));
      AddTerm(before[i], b[i], carryIn, PowW(i));
      i := i + 1;
    }
  }

  lemma AddTerm(x: nat, y: nat, c: nat, p: nat)
    ensures (x + y + c) * p == x * p + y * p + c * p
  {
  }

  function FourLimbs(s: seq<u64>): (r: Fe)
    requires |s| >= 4
    ensures Val(r) == LeN(s, 4)
  {
    LeNPrefix(s, s[..4], 4);
    s[..4]
  }
}
