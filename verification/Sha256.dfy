/** SHA-256 (FIPS 180-4): the compression loop, the streaming context and the one-shot form. */
module Sha256 {
  import opened Basics

  const U64: nat := 0x1_0000_0000_0000_0000

  datatype Regs = Regs(a: bv32, b: bv32, c: bv32, d: bv32, e: bv32, f: bv32, g: bv32, h: bv32)

  // --- FIPS 180-4, sections 4 and 6.2 ---

  function K(): (k: seq<bv32>)
    ensures |k| == 64
  {
    [ 0x428a2f98, 0x71374491, 0xb5c0fbcf, 0xe9b5dba5,
      0x3956c25b, 0x59f111f1, 0x923f82a4, 0xab1c5ed5,
      0xd807aa98, 0x12835b01, 0x243185be, 0x550c7dc3,
      0x72be5d74, 0x80deb1fe, 0x9bdc06a7, 0xc19bf174,
      0xe49b69c1, 0xefbe4786, 0x0fc19dc6, 0x240ca1cc,
      0x2de92c6f, 0x4a7484aa, 0x5cb0a9dc, 0x76f988da,
      0x983e5152, 0xa831c66d, 0xb00327c8, 0xbf597fc7,
      0xc6e00bf3, 0xd5a79147, 0x06ca6351, 0x14292967,
      0x27b70a85, 0x2e1b2138, 0x4d2c6dfc, 0x53380d13,
      0x650a7354, 0x766a0abb, 0x81c2c92e, 0x92722c85,
      0xa2bfe8a1, 0xa81a664b, 0xc24b8b70, 0xc76c51a3,
      0xd192e819, 0xd6990624, 0xf40e3585, 0x106aa070,
      0x19a4c116, 0x1e376c08, 0x2748774c, 0x34b0bcb5,
      0x391c0cb3, 0x4ed8aa4a, 0x5b9cca4f, 0x682e6ff3,
      0x748f82ee, 0x78a5636f, 0x84c87814, 0x8cc70208,
      0x90befffa, 0xa4506ceb, 0xbef9a3f7, 0xc67178f2 ]
  }

  function Initial(): Regs
  {
    Regs(0x6a09e667, 0xbb67ae85, 0x3c6ef372, 0xa54ff53a, 0x510e527f, 0x9b05688c, 0x1f83d9ab, 0x5be0cd19)
  }

  function Square(x: nat): nat { x * x }

  /** w is the first 32 bits of the fraction of the square root of p, and q its integer part. */
  predicate RootFraction(w: bv32, p: nat, q: nat)
  {
    Square(q * U32 + w as nat) <= p * U64 < Square(q * U32 + w as nat + 1)
  }

  /** Section 5.3.3: the initial words come from the square roots of the first eight primes. */
  lemma InitialRoots()
    ensures var r := Initial();
            RootFraction(r.a, 2, 1) && RootFraction(r.b, 3, 1) && RootFraction(r.c, 5, 2) && RootFraction(r.d, 7, 2) &&
            RootFraction(r.e, 11, 3) && RootFraction(r.f, 13, 3) && RootFraction(r.g, 17, 4) && RootFraction(r.h, 19, 4)
  {
  }

  function Rotr(x: bv32, n: nat): bv32
    requires n <= 32
  {
    (x >> n) | (x << (32 - n))
  }

  function Ch(x: bv32, y: bv32, z: bv32): bv32 { (x & y) ^ (!x & z) }
  function Maj(x: bv32, y: bv32, z: bv32): bv32 { (x & y) ^ (x & z) ^ (y & z) }
  function BigSigma0(x: bv32): bv32 { Rotr(x, 2) ^ Rotr(x, 13) ^ Rotr(x, 22) }
  function BigSigma1(x: bv32): bv32 { Rotr(x, 6) ^ Rotr(x, 11) ^ Rotr(x, 25) }
  function Sigma0(x: bv32): bv32 { Rotr(x, 7) ^ Rotr(x, 18) ^ (x >> 3) }
  function Sigma1(x: bv32): bv32 { Rotr(x, 17) ^ Rotr(x, 19) ^ (x >> 10) }

  function Be32(b0: Byte, b1: Byte, b2: Byte, b3: Byte): bv32
  {
    ((b0 as bv32) << 24) | ((b1 as bv32) << 16) | ((b2 as bv32) << 8) | (b3 as bv32)
  }

  function Sum(x: bv32, y: bv32): bv32 { x + y }
  function T1(e: bv32, f: bv32, g: bv32, h: bv32, k: bv32, w: bv32): bv32 { h + BigSigma1(e) + Ch(e, f, g) + k + w }
  function T2(a: bv32, b: bv32, c: bv32): bv32 { BigSigma0(a) + Maj(a, b, c) }
  function Mixed(w2: bv32, w7: bv32, w15: bv32, w16: bv32): bv32 { Sigma1(w2) + w7 + Sigma0(w15) + w16 }

  /** The message schedule of a block. */
  ghost function Word(block: seq<Byte>, t: nat): bv32
    requires |block| == 64 && t < 64
  {
    if t < 16 then Be32(block[4 * t], block[4 * t + 1], block[4 * t + 2], block[4 * t + 3])
    else Mixed(Word(block, t - 2), Word(block, t - 7), Word(block, t - 15), Word(block, t - 16))
  }

  ghost function Round(r: Regs, k: bv32, w: bv32): Regs
  {
    var t1, t2 := T1(r.e, r.f, r.g, r.h, k, w), T2(r.a, r.b, r.c);
    Regs(Sum(t1, t2), r.a, r.b, r.c, Sum(r.d, t1), r.e, r.f, r.g)
  }

  ghost function Rounds(r: Regs, block: seq<Byte>, n: nat): Regs
    requires |block| == 64 && n <= 64
  {
    if n == 0 then r else Round(Rounds(r, block, n - 1), K()[n - 1], Word(block, n - 1))
  }

  function Plus(r: Regs, s: Regs): Regs
  {
    Regs(Sum(r.a, s.a), Sum(r.b, s.b), Sum(r.c, s.c), Sum(r.d, s.d),
         Sum(r.e, s.e), Sum(r.f, s.f), Sum(r.g, s.g), Sum(r.h, s.h))
  }

  ghost function Compressed(r: Regs, block: seq<Byte>): Regs
    requires |block| == 64
  {
    Plus(r, Rounds(r, block, |K()|))
  }

  method Schedule(block: seq<Byte>, w: array<bv32>)
    requires |block| == 64 && w.Length == 64
    modifies w
    ensures forall t :: 0 <= t < 64 ==> w[t] == Word(block, t)
  {
    hide Be32, Mixed;
    for i := 0 to 16
      invariant forall t :: 0 <= t < i ==> w[t] == Word(block, t)
    {
      w[i] := Be32(block[4 * i], block[4 * i + 1], block[4 * i + 2], block[4 * i + 3]);
    }
    for i := 16 to 64
      invariant forall t :: 0 <= t < i ==> w[t] == Word(block, t)
    {
      w[i] := Mixed(w[i - 2], w[i - 7], w[i - 15], w[i - 16]);
    }
  }

  method Compress(r: Regs, block: seq<Byte>) returns (r': Regs)
    requires |block| == 64
    ensures r' == Compressed(r, block)
  {
    hide K, T1, T2, Sum, Word;
    var w := new bv32[64];
    Schedule(block, w);
    var a, b, c, d, e, f, g, h := r.a, r.b, r.c, r.d, r.e, r.f, r.g, r.h;
    for i := 0 to 64
      invariant Regs(a, b, c, d, e, f, g, h) == Rounds(r, block, i)
    {
      var t1, t2 := T1(e, f, g, h, K()[i], w[i]), T2(a, b, c);
      h, g, f, e := g, f, e, Sum(d, t1);
      d, c, b, a := c, b, a, Sum(t1, t2);
    }
    r' := Plus(r, Regs(a, b, c, d, e, f, g, h));
  }

  // --- Padding and the hash of a message, sections 5.1.1 and 6.2 ---

  /** A whole number of blocks. */
  ghost predicate Whole(s: seq<Byte>)
  {
    s == [] || (|s| >= 64 && Whole(s[64..]))
  }

  lemma ModStep(n: nat)
    requires n >= 64
    ensures (n - 64) % 64 == n % 64
  {
  }

  lemma {:induction false} WholeLength(s: seq<Byte>)
    ensures Whole(s) <==> |s| % 64 == 0
  {
    if |s| >= 64 {
      ModStep(|s|);
      WholeLength(s[64..]);
    }
  }

  ghost function Fold(r: Regs, s: seq<Byte>): Regs
    requires Whole(s)
    decreases |s|
  {
    if s == [] then r else Fold(Compressed(r, s[..64]), s[64..])
  }

  lemma {:induction false} FoldAppend(r: Regs, s: seq<Byte>, block: seq<Byte>)
    requires Whole(s) && |block| == 64
    ensures Whole(s + block) && Fold(r, s + block) == Compressed(Fold(r, s), block)
    decreases |s|
  {
    hide Compressed;
    if s == [] {
      assert s + block == block && block[..64] == block && block[64..] == [];
    } else {
      assert (s + block)[..64] == s[..64] && (s + block)[64..] == s[64..] + block;
      FoldAppend(Compressed(r, s[..64]), s[64..], block);
    }
  }

  /** The k low bytes of n, most significant first. */
  function Be(n: nat, k: nat): (s: seq<Byte>)
    ensures |s| == k
  {
    if k == 0 then [] else Be(n / 256, k - 1) + [n % 256]
  }

  lemma DivTwice(n: nat, p: nat)
    requires p > 0
    ensures n / 256 / p == n / (256 * p)
  {
    var q, r := n / 256, n % 256;
    var x, y := q / p, q % p;
    assert n == 256 * p * x + (256 * y + r);
    assert 256 * y + r < 256 * p;
    DivUnique(n, 256 * p, x, 256 * y + r);
  }

  lemma DivBounds(n: nat, d: nat)
    requires d > 0
    ensures d * (n / d) <= n < d * (n / d + 1)
  {
  }

  lemma MulOrder(d: nat, x: nat, y: nat)
    requires x <= y
    ensures d * x <= d * y
  {
  }

  lemma DivUnique(n: nat, d: nat, x: nat, r: nat)
    requires d > 0 && n == d * x + r && r < d
    ensures n / d == x
  {
    DivBounds(n, d);
    var q := n / d;
    if q < x { MulOrder(d, q + 1, x); }
    if q > x { MulOrder(d, x + 1, q); }
  }

  lemma {:induction false} BeAt(n: nat, k: nat, i: nat)
    requires i < k
    ensures Be(n, k)[i] == n / Pow256(k - 1 - i) % 256
  {
    if i < k - 1 {
      BeAt(n / 256, k - 1, i);
      DivTwice(n, Pow256(k - 2 - i));
    }
  }

  function Zeros(n: nat): (s: seq<Byte>)
    ensures |s| == n
  {
    if n == 0 then [] else Zeros(n - 1) + [0]
  }

  /** The least number of zeros that leaves room for exactly the eight length bytes. */
  function Gap(n: nat): (z: nat)
    ensures z < 64 && (n + 1 + z) % 64 == 56
  {
    (119 - n % 64) % 64
  }

  lemma GapUnique(n: nat, z: nat)
    requires z <= Gap(n)
    ensures (n + 1 + z) % 64 == 56 <==> z == Gap(n)
  {
  }

  ghost function Padded(m: seq<Byte>): seq<Byte>
  {
    m + [0x80] + Zeros(Gap(|m|)) + Be(8 * |m| % U64, 8)
  }

  lemma RoundedUp(n: nat, z: nat)
    requires (n + 1 + z) % 64 == 56
    ensures (n + 1 + z + 8) % 64 == 0
  {
  }

  lemma PaddedWhole(m: seq<Byte>)
    ensures Whole(Padded(m))
  {
    RoundedUp(|m|, Gap(|m|));
    WholeLength(Padded(m));
  }

  function Bytes4(x: bv32): (s: seq<Byte>)
    ensures |s| == 4
  {
    [ByteOf(x >> 24), ByteOf(x >> 16), ByteOf(x >> 8), ByteOf(x)]
  }

  function ByteOf(x: bv32): Byte
  {
    ((x & 0xff) as bv8) as nat
  }

  function Words(r: Regs): (s: seq<bv32>)
    ensures |s| == 8
  {
    [r.a, r.b, r.c, r.d, r.e, r.f, r.g, r.h]
  }

  function Spelled(ws: seq<bv32>): (s: seq<Byte>)
    ensures |s| == 4 * |ws|
  {
    if ws == [] then [] else Spelled(ws[..|ws| - 1]) + Bytes4(ws[|ws| - 1])
  }

  ghost function Digest(m: seq<Byte>): (s: seq<Byte>)
    ensures |s| == 32
  {
    PaddedWhole(m);
    Spelled(Words(Fold(Initial(), Padded(m))))
  }

  // --- The streaming context ---

  /** The registers hold the full blocks of m, and b is what is left of it. */
  ghost predicate Held(h: Regs, b: seq<Byte>, m: seq<Byte>)
  {
    |b| < 64 && exists s :: Whole(s) && m == s + b && h == Fold(Initial(), s)
  }

  lemma HeldNone()
    ensures Held(Initial(), [], [])
  {
    var none: seq<Byte> := [];
    assert Whole(none) && none == none + none && Initial() == Fold(Initial(), none);
  }

  lemma HeldMore(h: Regs, b: seq<Byte>, m: seq<Byte>, part: seq<Byte>)
    requires Held(h, b, m) && |b| + |part| < 64
    ensures Held(h, b + part, m + part)
  {
    hide Fold, Whole;
    var s :| Whole(s) && m == s + b && h == Fold(Initial(), s);
    assert m + part == s + (b + part);
  }

  lemma HeldFull(h: Regs, b: seq<Byte>, m: seq<Byte>, part: seq<Byte>)
    requires Held(h, b, m) && |b| + |part| == 64
    ensures Held(Compressed(h, b + part), [], m + part)
  {
    hide Fold, Compressed, Whole;
    var s :| Whole(s) && m == s + b && h == Fold(Initial(), s);
    FoldAppend(Initial(), s, b + part);
    assert m + part == s + (b + part) && m + part == m + part + [];
  }

  lemma WrappedSum(x: nat, y: nat)
    ensures (x % U64 + y) % U64 == (x + y) % U64
  {
  }

  lemma LeftOver(n: nat, k: nat)
    requires n % 64 == 0 && k < 64
    ensures (n + k) % 64 == k
  {
  }

  lemma HeldLength(h: Regs, b: seq<Byte>, m: seq<Byte>)
    requires Held(h, b, m)
    ensures |m| % 64 == |b|
    ensures b == [] ==> Whole(m) && h == Fold(Initial(), m)
  {
    hide Fold;
    var s :| Whole(s) && m == s + b && h == Fold(Initial(), s);
    assert b == [] ==> m == s;
    WholeLength(s);
    hide Whole;
    LeftOver(|s|, |b|);
  }

  class Context {
    var h: Regs
    var totalLen: nat
    const buf: array<Byte>
    var buflen: nat
    ghost var msg: seq<Byte>

    ghost predicate Holds()
      reads this, buf
    {
      buf.Length == 64 && buflen < 64 && Held(h, buf[..buflen], msg)
    }

    ghost predicate Valid()
      reads this, buf
    {
      Holds() && totalLen == |msg| % U64
    }

    constructor ()
      ensures Valid() && msg == [] && fresh(buf)
    {
      buf := new Byte[64];
      h, totalLen, buflen, msg := Initial(), 0, 0, [];
      new;
      HeldNone();
      assert buf[..0] == [];
    }

    method Reset()
      requires buf.Length == 64
      modifies this
      ensures Valid() && msg == []
    {
      h, totalLen, buflen, msg := Initial(), 0, 0, [];
      HeldNone();
      assert buf[..0] == [];
    }

    method Fill(part: seq<Byte>)
      requires buf.Length == 64 && buflen + |part| <= 64
      modifies `buflen, buf
      ensures buflen == old(buflen) + |part| && buf[..buflen] == old(buf[..buflen]) + part
    {
      ghost var had := buf[..buflen];
      for i := 0 to |part|
        invariant buflen == old(buflen) && buf[..buflen + i] == had + part[..i]
      {
        buf[buflen + i] := part[i];
      }
      buflen := buflen + |part|;
    }

    /** Put at most one block's worth of bytes in the buffer, and fold the buffer in when it is full. */
    method Absorb(part: seq<Byte>)
      requires Holds() && buflen + |part| <= 64
      modifies this, buf
      ensures msg == old(msg) + part && Holds() && totalLen == old(totalLen)
    {
      hide Held, Compressed;
      if buflen + |part| == 64 {
        HeldFull(h, buf[..buflen], msg, part);
        Fill(part);
        assert buf[..] == buf[..buflen];
        h := Compress(h, buf[..]);
        buflen := 0;
        assert buf[..0] == [];
      } else {
        HeldMore(h, buf[..buflen], msg, part);
        Fill(part);
      }
      msg := msg + part;
    }

    method Update(data: seq<Byte>)
      requires Valid()
      modifies this, buf
      ensures Valid() && msg == old(msg) + data
    {
      hide Held;
      WrappedSum(|msg|, |data|);
      totalLen := (totalLen + |data|) % U64;
      ghost var total := totalLen;
      var at := 0;
      while at < |data|
        invariant 0 <= at <= |data| && Holds() && msg == old(msg) + data[..at] && totalLen == total
      {
        var take := 64 - buflen;
        if take > |data| - at { take := |data| - at; }
        Absorb(data[at..at + take]);
        assert data[..at] + data[at..at + take] == data[..at + take];
        at := at + take;
      }
    }

    /** The marker byte and the zeros after a message. */
    method PadOut()
      requires Valid()
      modifies this, buf
      ensures Valid() && msg == old(msg) + [0x80] + Zeros(Gap(|old(msg)|))
    {
      hide Held, Gap;
      ghost var m := msg;
      Update([0x80]);
      ghost var z := 0;
      HeldLength(h, buf[..buflen], msg);
      GapUnique(|m|, 0);
      while buflen != 56
        invariant Valid() && z <= Gap(|m|) && msg == m + [0x80] + Zeros(z)
        invariant buflen == 56 <==> z == Gap(|m|)
        decreases Gap(|m|) - z
      {
        Update([0]);
        z := z + 1;
        assert msg == m + [0x80] + Zeros(z);
        HeldLength(h, buf[..buflen], msg);
        GapUnique(|m|, z);
      }
    }

    /** Pad, fold in the last blocks and write the digest. */
    method Final(out: array<Byte>)
      requires Valid() && out.Length >= 32 && out != buf
      modifies this, buf, out
      ensures out[..32] == Digest(old(msg)) && out[32..] == old(out[32..])
      ensures buf.Length == 64
    {
      hide Held, Gap, Fold, Padded, Be, Zeros, Whole, Spelled, Words;
      ghost var m := msg;
      var bitlen := totalLen * 8 % U64;
      WrappedBits(|m|);
      PadOut();
      var tail := LengthBytes(bitlen);
      Update(tail);
      assert msg == Padded(m) by { PaddedIs(m, msg); }
      PaddedWhole(m);
      WholeLength(msg);
      HeldLength(h, buf[..buflen], msg);
      WriteOut(h, out);
    }
  }

  lemma WrappedBits(n: nat)
    ensures n % U64 * 8 % U64 == 8 * n % U64
  {
    var q := n / U64;
    assert 8 * n == 8 * (n % U64) + U64 * (8 * q);
    ModShift(8 * (n % U64), 8 * q);
  }

  lemma {:induction false} ModShift(x: nat, q: nat)
    ensures (x + U64 * q) % U64 == x % U64
  {
    if q > 0 {
      ModShift(x, q - 1);
      assert x + U64 * q == x + U64 * (q - 1) + U64;
    }
  }

  lemma PaddedIs(m: seq<Byte>, s: seq<Byte>)
    requires s == m + [0x80] + Zeros(Gap(|m|)) + Be(8 * |m| % U64, 8)
    ensures s == Padded(m)
  {
  }

  /** The eight bytes of a bit length, most significant first. */
  method LengthBytes(bitlen: nat) returns (bytes: seq<Byte>)
    ensures bytes == Be(bitlen, 8)
  {
    bytes := [];
    hide Be, Pow256;
    for i := 0 to 8
      invariant bytes == Be(bitlen, 8)[..i]
    {
      BeAt(bitlen, 8, i);
      bytes := bytes + [bitlen / Pow256(7 - i) % 256];
    }
  }

  method WriteOut(r: Regs, out: array<Byte>)
    requires out.Length >= 32
    modifies out
    ensures out[..32] == Spelled(Words(r)) && out[32..] == old(out[32..])
  {
    hide Bytes4, Words;
    var ws := Words(r);
    for i := 0 to 8
      invariant out[..4 * i] == Spelled(ws[..i]) && out[32..] == old(out[32..])
    {
      ghost var had := out[..4 * i];
      var b := Bytes4(ws[i]);
      out[4 * i], out[4 * i + 1], out[4 * i + 2], out[4 * i + 3] := b[0], b[1], b[2], b[3];
      assert out[..4 * i + 4] == had + b;
      assert ws[..i + 1][..i] == ws[..i];
    }
    assert ws[..8] == ws;
  }

  /** One-shot hashing. */
  method Hash(data: seq<Byte>, out: array<Byte>)
    requires out.Length >= 32
    modifies out
    ensures out[..32] == Digest(data) && out[32..] == old(out[32..])
  {
    hide Digest;
    var c := new Context();
    c.Update(data);
    assert [] + data == data;
    c.Final(out);
  }

  ghost function Joined(parts: seq<seq<Byte>>): seq<Byte>
  {
    if parts == [] then [] else Joined(parts[..|parts| - 1]) + parts[|parts| - 1]
  }

  /** However a message is split into updates, its digest is the one of the whole. */
  method HashParts(parts: seq<seq<Byte>>, out: array<Byte>)
    requires out.Length >= 32
    modifies out
    ensures out[..32] == Digest(Joined(parts)) && out[32..] == old(out[32..])
  {
    var c := new Context();
    for i := 0 to |parts|
      invariant c.Valid() && fresh(c) && fresh(c.buf) && c.msg == Joined(parts[..i]) && out[..] == old(out[..])
    {
      c.Update(parts[i]);
      assert parts[..i + 1][..i] == parts[..i];
    }
    assert parts[..|parts|] == parts;
    c.Final(out);
  }
}
