/** The deterministic ECDSA nonce: RFC 6979, section 3.2. */
module Nonce {
  import opened Basics
  import opened Sha256
  import opened Hmac
  import opened Limbs
  import opened P256Field
  import Ecdsa

  datatype State = State(k: seq<Byte>, v: seq<Byte>)

  /** Steps d to g: the seed is the key and the digest reduced modulo the group order. */
  ghost function Seeded(seed: seq<Byte>): State
  {
    var k0, v0 := Zeros(32), Ones(32);
    var k1 := HmacOf(k0, v0 + [0] + seed);
    var v1 := HmacOf(k1, v0);
    var k2 := HmacOf(k1, v1 + [1] + seed);
    State(k2, HmacOf(k2, v1))
  }

  function Ones(m: nat): (s: seq<Byte>)
    ensures |s| == m
  {
    if m == 0 then [] else Ones(m - 1) + [1]
  }

  /** Step h: the candidate, and the state after one is refused. */
  ghost function Candidate(s: State): seq<Byte>
  {
    HmacOf(s.k, s.v)
  }

  ghost function Refused(s: State): State
  {
    var v := HmacOf(s.k, s.v);
    var k := HmacOf(s.k, v + [0]);
    State(k, HmacOf(k, v))
  }

  ghost function After(s: State, i: nat): State
  {
    if i == 0 then s else Refused(After(s, i - 1))
  }

  ghost predicate Good(c: seq<Byte>)
  {
    0 < BeVal(c) < ORDER
  }

  /** Key followed by the digest modulo the group order, thirty-two bytes each. */
  ghost function Seed(d: seq<Byte>, h1: seq<Byte>): seq<Byte>
    requires ORDER > 0
  {
    d + Be(BeVal(h1) % ORDER, 32)
  }

  /** A byte string of a given length is fixed by the number it spells. */
  lemma {:induction false} BeOfBytes(s: seq<Byte>)
    ensures s == Be(BeVal(s), |s|)
  {
    hide LeN, PowW;
    if s != [] {
      var m: nat, last: nat := |s| - 1, s[|s| - 1];
      BeOfBytes(s[..m]);
      var high := BeVal(s[..m]);
      assert BeVal(s) == high * 256 + last;
      assert (high * 256 + last) / 256 == high && (high * 256 + last) % 256 == last;
      assert s == s[..m] + [s[m]];
    }
  }

  /** Replace the key: it is both the HMAC key and the output buffer. */
  method Rekey(k: array<Byte>, v: array<Byte>, tail: seq<Byte>)
    requires k.Length == 32 && v.Length == 32 && k != v
    modifies k
    ensures k[..] == HmacOf(old(k[..]), v[..] + tail)
  {
    hide LeN, PowW;
    hide HmacOf;
    var buf := new Byte[32 + |tail|](i requires 0 <= i < 32 + |tail| reads v => if i < 32 then v[i] else tail[i - 32]);
    assert buf[..32 + |tail|] == v[..] + tail;
    assert k[..32] == k[..];
    HmacSha256(k, 32, buf, 32 + |tail|, k);
    assert k[..32] == k[..];
  }

  /** Replace the value: it is both the message and the output buffer. */
  method Revalue(k: array<Byte>, v: array<Byte>)
    requires k.Length == 32 && v.Length == 32 && k != v
    modifies v
    ensures v[..] == HmacOf(k[..], old(v[..]))
  {
    hide LeN, PowW;
    hide HmacOf;
    assert k[..32] == k[..] && v[..32] == v[..];
    HmacSha256(k, 32, v, 32, v);
    assert v[..32] == v[..];
  }

  method ReducedDigest(h1: Ecdsa.Bytes32) returns (b2o: Ecdsa.Bytes32)
    ensures ORDER > 0 && b2o == Be(BeVal(h1) % ORDER, 32)
  {
    hide LeN, PowW;
    var t := Ecdsa.BeToLimbs(h1);
    t := Ecdsa.ReduceN(t);
    b2o := Ecdsa.LimbsToBe(t);
    BeOfBytes(b2o);
  }

  method Start(d: Ecdsa.Bytes32, h1: Ecdsa.Bytes32) returns (k: array<Byte>, v: array<Byte>)
    ensures fresh(k) && fresh(v) && k != v && k.Length == 32 && v.Length == 32
    ensures ORDER > 0 && State(k[..], v[..]) == Seeded(Seed(d, h1))
  {
    hide LeN, PowW;
    hide HmacOf, Be;
    v := new Byte[32](_ => 1);
    k := new Byte[32](_ => 0);
    FilledOnes(v[..]);
    FilledZeros(k[..]);
    var b2o := ReducedDigest(h1);
    ghost var seed := Seed(d, h1);
    assert d + b2o == seed;
    ghost var k0, v0 := k[..], v[..];
    Rekey(k, v, [0] + (d + b2o));
    assert v0 + ([0] + seed) == v0 + [0] + seed;
    Revalue(k, v);
    ghost var v1 := v[..];
    Rekey(k, v, [1] + (d + b2o));
    assert v1 + ([1] + seed) == v1 + [1] + seed;
    Revalue(k, v);
  }

  lemma {:induction false} FilledOnes(s: seq<Byte>)
    requires forall i :: 0 <= i < |s| ==> s[i] == 1
    ensures s == Ones(|s|)
  {
    hide LeN, PowW;
    if s != [] { FilledOnes(s[..|s| - 1]); }
  }

  lemma {:induction false} FilledZeros(s: seq<Byte>)
    requires forall i :: 0 <= i < |s| ==> s[i] == 0
    ensures s == Zeros(|s|)
  {
    hide LeN, PowW;
    if s != [] { FilledZeros(s[..|s| - 1]); }
  }

  /** The first candidate in range, among the first 128. */
  method Generate(d: Ecdsa.Bytes32, h1: Ecdsa.Bytes32) returns (ok: bool, kout: Fe, ghost i: nat)
    ensures ORDER > 0
    ensures ok ==> i < 128 && Good(Candidate(After(Seeded(Seed(d, h1)), i)))
    ensures ok ==> Val(kout) == BeVal(Candidate(After(Seeded(Seed(d, h1)), i)))
    ensures forall j :: 0 <= j < (if ok then i else 128) ==> !Good(Candidate(After(Seeded(Seed(d, h1)), j)))
  {
    hide LeN, PowW;
    hide HmacOf, Seeded, BeVal;
    var k, v := Start(d, h1);
    ghost var s := Seeded(Seed(d, h1));
    kout, i := N, 0;
    for attempt := 0 to 128
      invariant fresh(k) && fresh(v) && k != v && k.Length == 32 && v.Length == 32
      invariant State(k[..], v[..]) == After(s, attempt)
      invariant forall j :: 0 <= j < attempt ==> !Good(Candidate(After(s, j)))
    {
      Revalue(k, v);
      var kk := Ecdsa.BeToLimbs(v[..]);
      var zero := IsZero(kk);
      var ge := Ge(kk, N);
      if !zero && !ge { return true, kk, attempt; }
      Rekey(k, v, [0]);
      Revalue(k, v);
    }
    ok := false;
  }
}
