/**
Signing as ecdsa_sign composes it, and its result put to ecdsa_verify.
*/
module SignVerify {
  import opened Basics
  import opened Limbs
  import opened P256Field
  import opened P256Points
  import opened Group
  import opened Signatures
  import opened Ecdsa
  import opened Nonce

  /** The first candidate in range, of those from number i on that are tried. */
  ghost function FirstGood(st: State, i: nat): Option<nat>
    decreases 128 - i
  {
    if i >= 128 then None
    else if Good(Candidate(After(st, i))) then Some(BeVal(Candidate(After(st, i))))
    else FirstGood(st, i + 1)
  }

  /** The nonce of section 3.2 of RFC 6979 for this key and digest. */
  ghost function NonceOf(d: Bytes32, hash: Bytes32): Option<nat>
    requires ORDER > 0
  {
    FirstGood(Seeded(Seed(d, hash)), 0)
  }

  lemma {:induction false} FirstGoodAt(st: State, i: nat, n: nat)
    requires i <= n <= 128 && forall j :: i <= j < n ==> !Good(Candidate(After(st, j)))
    requires n < 128 ==> Good(Candidate(After(st, n)))
    ensures FirstGood(st, i) == if n < 128 then Some(BeVal(Candidate(After(st, n)))) else None
    decreases n - i
  {
    hide LeN, PowW;
    hide Good, Candidate, After, BeVal;
    if i < n { FirstGoodAt(st, i + 1, n); }
  }

  /** What signing of digest e under key d comes to with this nonce, if there is one: r and s
      are then what is written. */
  ghost predicate Outcome(d: nat, e: nat, nonce: Option<nat>, res: SignResult, r: nat, s: nat)
    requires ORDER > 1 && PRIME > 1
  {
    match nonce
    case None => res == Failed
    case Some(k) =>
      0 < k < ORDER &&
      (res == Failed <==> BaseMultiple(P256, k).Infinity?) &&
      (res != Failed ==> (res == Retry <==> SigR(P256, k) == 0 || SigS(P256, d, e, k) == 0)) &&
      (res == Signed ==> r == SigR(P256, k) && s == SigS(P256, d, e, k))
  }

  /** ecdsa_sign up to its retries: draw the nonce from key and digest, then sign. Key and digest
      decide whether it is retried, so a retry is retried again. */
  method SignDigest(d: Bytes32, hash: Bytes32, rout: array<Byte>, sout: array<Byte>) returns (res: SignResult)
    requires PrimeField() && rout.Length == 32 && sout.Length == 32 && rout != sout
    modifies rout, sout
    ensures ORDER > 1 && PRIME > 1
    ensures Outcome(BeVal(d), BeVal(hash), NonceOf(d, hash), res, BeVal(rout[..]), BeVal(sout[..]))
    ensures !res.Signed? ==> rout[..] == old(rout[..]) && sout[..] == old(sout[..])
  {
    hide LeN, PowW;
    hide SigR, SigS, BaseMultiple, BeVal, FirstGood, Candidate, After, Seeded, Seed;
    NModulus();
    var ok, k;
    ghost var i;
    ok, k, i := Generate(d, hash);
    FirstGoodAt(Seeded(Seed(d, hash)), 0, if ok then i else 128);
    if !ok {
      return Failed;
    }
    res := Sign(d, hash, k, rout, sout);
  }

  lemma PublicKey(c: Domain, d: nat)
    requires CurveHypotheses(c)
    ensures BaseMultiple(c, d) == Times(d, c.g, c.m)
  {
    DoubleAndAddIsTimes(d, c.g, c.m, c.b);
  }

  /** P-256: whatever the code signs under a key, it accepts under the public key that it
      computes from that key. */
  method SignedIsAccepted(d: Bytes32, hash: Bytes32, x: array<Byte>, y: array<Byte>, r: array<Byte>, s: array<Byte>)
    returns (made: bool, res: SignResult, ok: bool)
    requires PrimeField() && x.Length == 32 && y.Length == 32 && r.Length == 32 && s.Length == 32
    requires x != y && x != r && x != s && y != r && y != s && r != s
    modifies x, y, r, s
    ensures PRIME > 1 && ORDER > 1
    ensures CurveHypotheses(P256) && made && res.Signed? ==> ok
  {
    hide LeN, PowW;
    hide SigR, SigS, BeVal, Accepts, CurveHypotheses, FirstGood, Candidate, After, Seeded, Seed;
    made := ScalarMultBase(d, x, y);
    res := SignDigest(d, hash, r, s);
    ok := Verify(x[..], y[..], hash, r[..], s[..]);
    if CurveHypotheses(P256) && made && res.Signed? {
      PublicKey(P256, BeVal(d));
      SignThenVerify(P256, BeVal(d), BeVal(hash), NonceOf(d, hash).value, BeVal(x[..]), BeVal(y[..]));
    }
  }
}
