/** DER encodings (X.690): what they are, and that they read back. */
module Der {
  import opened Basics

  // --- Numbers as bytes ---

  /** The fewest bytes that spell a number; at least one. */
  function Fewest(n: nat): (s: seq<Byte>)
    ensures |s| >= 1
  {
    if n < 256 then [n] else Fewest(n / 256) + [n % 256]
  }

  lemma {:induction false} FewestValue(n: nat)
    ensures BeVal(Fewest(n)) == n
  {
    if n >= 256 {
      FewestValue(n / 256);
      var s := Fewest(n);
      assert s[..|s| - 1] == Fewest(n / 256);
    } else {
      assert [n][..0] == [];
    }
  }

  // --- Section 8.1.3 and 10.1: definite lengths in the fewest octets ---

  function DerLen(n: nat): seq<int>
  {
    if n < 128 then [n] else [0x80 + |Fewest(n)|] + Fewest(n)
  }

  /** The length field the writer produces. */
  function LenField(n: nat): (s: seq<Byte>)
    ensures |s| >= 1
  {
    if n < 0x80 then [n]
    else if n <= 0xff then [0x81, n]
    else if n <= 0xffff then [0x82, n / 256 % 256, n % 256]
    else if n <= 0xff_ffff then [0x83, n / 256 / 256 % 256, n / 256 % 256, n % 256]
    else [0x84, n / 256 / 256 / 256 % 256, n / 256 / 256 % 256, n / 256 % 256, n % 256]
  }

  lemma FewestFour(n: nat)
    ensures n < 0x100 ==> Fewest(n) == [n]
    ensures 0x100 <= n < 0x1_0000 ==> Fewest(n) == [n / 256, n % 256]
    ensures 0x1_0000 <= n < 0x100_0000 ==> Fewest(n) == [n / 256 / 256, n / 256 % 256, n % 256]
    ensures 0x100_0000 <= n < 0x1_0000_0000 ==>
      Fewest(n) == [n / 256 / 256 / 256, n / 256 / 256 % 256, n / 256 % 256, n % 256]
    ensures n >= 0x1_0000_0000 ==> |Fewest(n)| >= 5
  {
    var a, b, c, d := n / 256, n / 256 / 256, n / 256 / 256 / 256, n / 256 / 256 / 256 / 256;
    if n >= 256 { assert Fewest(n) == Fewest(a) + [n % 256]; }
    if a >= 256 { assert Fewest(a) == Fewest(b) + [a % 256]; }
    if b >= 256 { assert Fewest(b) == Fewest(c) + [b % 256]; }
    if c >= 256 { assert Fewest(c) == Fewest(d) + [c % 256]; }
  }

  /** The writer's lengths are the DER ones exactly below four gigabytes. */
  lemma LenFieldIsDer(n: nat)
    ensures LenField(n) == DerLen(n) <==> n < 0x1_0000_0000
  {
    FewestFour(n);
    hide Fewest;
    if n >= 0x1_0000_0000 { assert |DerLen(n)| >= 6 && |LenField(n)| == 5; }
  }

  // --- Trees of tagged values ---

  datatype Node = Prim(tag: Byte, content: seq<Byte>) | Cons(tag: Byte, kids: seq<Node>)

  /** Section 8.1.2.5: bit 6 of the identifier octet marks a constructed encoding. */
  predicate Constructed(tag: Byte)
  {
    tag / 32 % 2 == 1
  }

  function Tlv(tag: Byte, body: seq<Byte>): seq<Byte>
  {
    [tag] + LenField(|body|) + body
  }

  ghost function EncodeAll(ts: seq<Node>): seq<Byte>
    decreases ts
  {
    if ts == [] then []
    else
      var body := match ts[0] case Prim(_, content) => content case Cons(_, kids) => EncodeAll(kids);
      Tlv(ts[0].tag, body) + EncodeAll(ts[1..])
  }

  /** Identifier bits match the form, and every length fits the length field. */
  ghost predicate Formed(ts: seq<Node>)
    decreases ts
  {
    ts != [] ==>
      && (match ts[0]
          case Prim(tag, content) => !Constructed(tag) && |content| < 0x1_0000_0000
          case Cons(tag, kids) => Constructed(tag) && Formed(kids) && |EncodeAll(kids)| < 0x1_0000_0000)
      && Formed(ts[1..])
  }

  // --- A reader ---

  datatype Length = NoLength | Length(n: nat, used: nat)

  function ReadLen(s: seq<Byte>): Length
  {
    if s == [] then NoLength
    else if s[0] < 128 then Length(s[0], 1)
    else
      var k: nat := s[0] - 128;
      if k == 0 || |s| < 1 + k then NoLength
      else
        var n := BeVal(s[1..1 + k]);
        if n < 128 || s[1] == 0 then NoLength else Length(n, 1 + k)
  }

  datatype Split = NoSplit | Split(tag: Byte, body: seq<Byte>, rest: seq<Byte>)

  function ReadTlv(s: seq<Byte>): Split
  {
    if s == [] then NoSplit
    else match ReadLen(s[1..])
      case NoLength => NoSplit
      case Length(n, used) =>
        if 1 + used + n > |s| then NoSplit else Split(s[0], s[1 + used..1 + used + n], s[1 + used + n..])
  }

  lemma ReadTlvShrinks(s: seq<Byte>)
    requires ReadTlv(s).Split?
    ensures |ReadTlv(s).body| < |s| && |ReadTlv(s).rest| < |s|
  {
  }

  function ReadAll(s: seq<Byte>): Option<seq<Node>>
    decreases |s|
  {
    if s == [] then Some([])
    else match ReadTlv(s)
      case NoSplit => None
      case Split(tag, body, rest) =>
        ReadTlvShrinks(s);
        var tail := ReadAll(rest);
        if tail.None? then None
        else if !Constructed(tag) then Some([Prim(tag, body)] + tail.value)
        else match ReadAll(body) case None => None case Some(kids) => Some([Cons(tag, kids)] + tail.value)
  }

  lemma FieldBytes(n: nat)
    requires 128 <= n < 0x1_0000_0000
    ensures LenField(n) == [0x80 + |Fewest(n)|] + Fewest(n) && Fewest(n)[0] != 0
  {
    FewestFour(n);
    hide Fewest;
    LenFieldIsDer(n);
  }

  lemma ReadLenOf(n: nat, rest: seq<Byte>)
    requires n < 0x1_0000_0000
    ensures ReadLen(LenField(n) + rest) == Length(n, |LenField(n)|)
  {
    if n >= 128 {
      FieldBytes(n);
      FewestValue(n);
      hide Fewest, LenField, BeVal;
      var s, k := LenField(n) + rest, |Fewest(n)|;
      assert s[1..1 + k] == Fewest(n);
      assert s[0] == 0x80 + k && s[1] == Fewest(n)[0];
    }
  }

  lemma ReadTlvOf(tag: Byte, body: seq<Byte>, rest: seq<Byte>)
    requires |body| < 0x1_0000_0000
    ensures ReadTlv(Tlv(tag, body) + rest) == Split(tag, body, rest)
  {
    hide LenField, ReadLen;
    var s, f := Tlv(tag, body) + rest, LenField(|body|);
    assert s[1..] == f + (body + rest);
    ReadLenOf(|body|, body + rest);
    assert s[1 + |f|..1 + |f| + |body|] == body && s[1 + |f| + |body|..] == rest;
  }

  /** A reader recovers every tree from its encoding. */
  lemma {:induction false} ReadBack(ts: seq<Node>)
    requires Formed(ts)
    ensures ReadAll(EncodeAll(ts)) == Some(ts)
    decreases ts
  {
    hide ReadTlv, LenField;
    if ts != [] {
      var body := match ts[0] case Prim(_, content) => content case Cons(_, kids) => EncodeAll(kids);
      ReadTlvOf(ts[0].tag, body, EncodeAll(ts[1..]));
      ReadBack(ts[1..]);
      if ts[0].Cons? { ReadBack(ts[0].kids); }
      assert [ts[0]] + ts[1..] == ts;
      assert Tlv(ts[0].tag, body) + EncodeAll(ts[1..]) != [];
    }
  }

  // --- Section 8.3: integers ---

  /** The contents octets the writer makes of an unsigned big-endian number. */
  function Stripped(v: seq<Byte>): (s: seq<Byte>)
  {
    if v != [] && v[0] == 0 then Stripped(v[1..]) else v
  }

  function IntContent(v: seq<Byte>): (s: seq<Byte>)
  {
    var m := Stripped(v);
    if m == [] then [0] else if m[0] >= 128 then [0] + m else m
  }

  /** Two's complement. */
  function Signed(s: seq<Byte>): int
    requires s != []
  {
    if s[0] < 128 then BeVal(s) else BeVal(s) - Pow256(|s|)
  }

  /** Section 8.3.2: the first nine bits are not all equal. */
  predicate Minimal(s: seq<Byte>)
  {
    s != [] && (|s| > 1 ==> !(s[0] == 0 && s[1] < 128) && !(s[0] == 255 && s[1] >= 128))
  }

  lemma {:induction false} LeadingZero(s: seq<Byte>)
    ensures BeVal([0] + s) == BeVal(s)
  {
    if s == [] {
      assert ([0] + s)[..0] == [];
    } else {
      LeadingZero(s[..|s| - 1]);
      assert ([0] + s)[..|s|] == [0] + s[..|s| - 1];
    }
  }

  lemma {:induction false} StrippedValue(v: seq<Byte>)
    ensures BeVal(Stripped(v)) == BeVal(v)
    ensures Stripped(v) != [] ==> Stripped(v)[0] != 0
  {
    if v != [] && v[0] == 0 {
      StrippedValue(v[1..]);
      LeadingZero(v[1..]);
      assert v == [0] + v[1..];
    }
  }

  /** The contents stand for the same number, in the fewest octets. */
  lemma IntContentValue(v: seq<Byte>)
    ensures Minimal(IntContent(v)) && Signed(IntContent(v)) == BeVal(v)
  {
    var m := Stripped(v);
    StrippedValue(v);
    if m == [] {
      assert [0][..0] == [];
    } else if m[0] >= 128 {
      LeadingZero(m);
    }
  }

  function Digits(n: nat): seq<Byte>
  {
    if n == 0 then [] else Digits(n / 256) + [n % 256]
  }

  lemma {:induction false} StrippedAppend(v: seq<Byte>, b: Byte)
    ensures Stripped(v + [b]) == if Stripped(v) != [] then Stripped(v) + [b] else if b == 0 then [] else [b]
  {
    if v != [] {
      assert (v + [b])[1..] == v[1..] + [b];
      if v[0] == 0 { StrippedAppend(v[1..], b); }
    } else {
      assert v + [b] == [b] && [b][1..] == [];
    }
  }

  lemma {:induction false} StrippedDigits(v: seq<Byte>)
    ensures Stripped(v) == Digits(BeVal(v))
  {
    if v != [] {
      var m := |v| - 1;
      StrippedDigits(v[..m]);
      StrippedAppend(v[..m], v[m]);
      assert v == v[..m] + [v[m]];
      var high: nat, low: nat := BeVal(v[..m]), v[m];
      assert (high * 256 + low) / 256 == high && (high * 256 + low) % 256 == low;
    }
  }

  /** No other contents of a non-negative number are as short: the encoding is the only minimal one. */
  lemma OnlyMinimal(s: seq<Byte>, v: seq<Byte>)
    requires Minimal(s) && s[0] < 128 && BeVal(s) == BeVal(v)
    ensures s == IntContent(v)
  {
    StrippedDigits(s);
    StrippedDigits(v);
    hide Digits, BeVal;
    if s[0] == 0 && |s| == 1 {
      assert s == [0] && s[1..] == [];
    } else if s[0] == 0 {
      assert Stripped(s) == s[1..] && s == [0] + s[1..];
    }
  }
}
