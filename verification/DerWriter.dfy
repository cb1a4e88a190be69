/** The DER writer: appending, framing with a length patched in later, and whole trees. */
module DerWriter {
  import opened Basics
  import opened Der

  const INTEGER: Byte := 0x02
  const BIT_STRING: Byte := 0x03

  /** A frame that has been begun: its tag and what has been written inside it so far. */
  datatype Frame = Frame(tag: Byte, body: seq<Byte>)

  /** Finished output, and the frames still open, the innermost last. */
  datatype Doc = Doc(base: seq<Byte>, open: seq<Frame>)

  /** What is in the buffer: each open frame has a one-byte placeholder for its length. */
  ghost function Flat(d: Doc): seq<Byte>
    decreases |d.open|
  {
    if d.open == [] then d.base
    else
      var k := |d.open| - 1;
      Flat(Doc(d.base, d.open[..k])) + [d.open[k].tag, 0] + d.open[k].body
  }

  /** Bytes go to the innermost open frame, or to the finished output. */
  ghost function Put(d: Doc, bytes: seq<Byte>): Doc
  {
    if d.open == [] then Doc(d.base + bytes, [])
    else
      var k := |d.open| - 1;
      Doc(d.base, d.open[..k] + [Frame(d.open[k].tag, d.open[k].body + bytes)])
  }

  ghost function Begun(d: Doc, tag: Byte): Doc
  {
    Doc(d.base, d.open + [Frame(tag, [])])
  }

  /** Closing the innermost frame puts its whole encoding where the frame began. */
  ghost function Ended(d: Doc): Doc
    requires d.open != []
  {
    var k := |d.open| - 1;
    Put(Doc(d.base, d.open[..k]), Tlv(d.open[k].tag, d.open[k].body))
  }

  lemma FlatPut(d: Doc, bytes: seq<Byte>)
    ensures Flat(Put(d, bytes)) == Flat(d) + bytes
  {
    if d.open != [] {
      var k := |d.open| - 1;
      assert Put(d, bytes).open[..k] == d.open[..k];
    }
  }

  lemma PutPut(d: Doc, a: seq<Byte>, b: seq<Byte>)
    ensures Put(Put(d, a), b) == Put(d, a + b)
  {
    if d.open == [] {
      assert d.base + a + b == d.base + (a + b);
    } else {
      var k := |d.open| - 1;
      assert Put(d, a).open[..k] == d.open[..k];
      assert d.open[k].body + a + b == d.open[k].body + (a + b);
    }
  }

  lemma FlatBegun(d: Doc, tag: Byte)
    ensures Flat(Begun(d, tag)) == Flat(d) + [tag, 0]
  {
    assert Begun(d, tag).open[..|d.open|] == d.open;
  }

  /** Whatever is written between the two is the body. */
  lemma BeginPutEnd(d: Doc, tag: Byte, body: seq<Byte>)
    ensures Put(Begun(d, tag), body).open != [] && Ended(Put(Begun(d, tag), body)) == Put(d, Tlv(tag, body))
  {
    assert Put(Begun(d, tag), body).open[..|d.open|] == d.open;
    assert [] + body == body;
  }

  class Writer {
    const buf: array<Byte>
    var len: nat
    var err: bool
    ghost var doc: Doc

    ghost predicate Valid()
      reads this, buf
    {
      len <= buf.Length && (!err ==> buf[..len] == Flat(doc))
    }

    constructor (cap: nat)
      ensures Valid() && !err && doc == Doc([], []) && len == 0 && fresh(buf) && buf.Length == cap
    {
      buf := new Byte[cap];
      len, err, doc := 0, false, Doc([], []);
    }

    /** The state after a run of bytes: appended if they fit, and an error that lasts if not. */
    twostate predicate Wrote(bytes: seq<Byte>)
      reads this, buf
    {
      && Valid() && err == (old(err) || old(len) + |bytes| > buf.Length)
      && (!err ==> doc == Put(old(doc), bytes) && len == old(len) + |bytes|)
    }

    method U8(b: Byte)
      requires Valid()
      modifies this, buf
      ensures Wrote([b])
    {
      if err { return; }
      if len >= buf.Length { err := true; return; }
      FlatPut(doc, [b]);
      buf[len] := b;
      len := len + 1;
      doc := Put(doc, [b]);
    }

    method Bytes(data: seq<Byte>)
      requires Valid()
      modifies this, buf
      ensures Wrote(data)
    {
      hide Flat, Put;
      if err { return; }
      if |data| > buf.Length - len { err := true; return; }
      FlatPut(doc, data);
      ghost var had := buf[..len];
      for i := 0 to |data|
        invariant len == old(len) && doc == old(doc) && err == old(err)
        invariant buf[..len + i] == had + data[..i]
      {
        buf[len + i] := data[i];
      }
      len := len + |data|;
      doc := Put(doc, data);
    }

    /** Several bytes in a row are one run, whether or not they all fit. */
    method Run(data: seq<Byte>)
      requires Valid()
      modifies this, buf
      ensures Wrote(data)
    {
      hide Flat, Put;
      PutNone(doc);
      for i := 0 to |data|
        invariant Wrote(data[..i])
      {
        PutPut(old(doc), data[..i], [data[i]]);
        U8(data[i]);
        assert data[..i + 1] == data[..i] + [data[i]];
      }
      assert data[..|data|] == data;
    }

    method Len(n: nat)
      requires Valid()
      modifies this, buf
      ensures Wrote(LenField(n))
    {
      hide Flat, Put;
      if n < 128 {
        U8(n);
      } else if n <= 0xff {
        Run([0x81, n]);
      } else if n <= 0xffff {
        Run([0x82, n / 256 % 256, n % 256]);
      } else if n <= 0xff_ffff {
        Run([0x83, n / 256 / 256 % 256, n / 256 % 256, n % 256]);
      } else {
        Run([0x84, n / 256 / 256 / 256 % 256, n / 256 / 256 % 256, n / 256 % 256, n % 256]);
      }
    }

    method WriteTlv(tag: Byte, content: seq<Byte>)
      requires Valid()
      modifies this, buf
      ensures Wrote(Tlv(tag, content))
    {
      hide Flat, Put, LenField;
      PutPut(doc, [tag], LenField(|content|));
      PutPut(doc, [tag] + LenField(|content|), content);
      U8(tag);
      Len(|content|);
      Bytes(content);
    }

    /** Open a frame; the position of its length comes back. */
    method Begin(tag: Byte) returns (lenpos: nat)
      requires Valid()
      modifies this, buf
      ensures Valid() && err == (old(err) || old(len) + 2 > buf.Length)
      ensures !err ==> doc == Begun(old(doc), tag) && len == old(len) + 2 && lenpos == old(len) + 1
    {
      hide Flat, Put;
      FlatBegun(doc, tag);
      PutPut(doc, [tag], [0]);
      FlatPut(doc, [tag] + [0]);
      U8(tag);
      lenpos := len;
      U8(0);
      if !err { doc := Begun(old(doc), tag); }
    }

    /** Make room inside the buffer: move n bytes up by some places, the last first. */
    method ShiftUp(from: nat, n: nat, places: nat)
      requires from + n + places <= buf.Length
      modifies buf
      ensures buf[from + places..from + places + n] == old(buf[from..from + n]) && buf[..from] == old(buf[..from])
    {
      ghost var was := buf[..];
      for i := n downto 0
        invariant buf[..from + i] == was[..from + i]
        invariant buf[from + places + i..from + places + n] == was[from + i..from + n]
      {
        assert buf[from + i] == was[from + i] by { assert buf[..from + i + 1][from + i] ==
                                                  was[..from + i + 1][from + i]; }
        buf[from + places + i] := buf[from + i];
      }
    }

    /** Write the long form of a length over the placeholder and the room made after it. */
    method PatchLength(lenpos: nat, content: nat, extra: nat)
      requires content >= 128 && extra == Extra(content) && lenpos + 1 + extra <= buf.Length
      modifies buf
      ensures buf[lenpos..lenpos + 1 + extra] == LenField(content)
      ensures buf[..lenpos] == old(buf[..lenpos]) && buf[lenpos + 1 + extra..] == old(buf[lenpos + 1 + extra..])
    {
      hide LenField, Extra;
      FieldLength(content);
      ghost var field := LenField(content);
      buf[lenpos] := 0x80 + extra;
      for i := 0 to extra
        invariant buf[lenpos..lenpos + 1 + i] == field[..1 + i]
        invariant buf[..lenpos] == old(buf[..lenpos]) && buf[lenpos + 1 + extra..] == old(buf[lenpos + 1 + extra..])
      {
        FieldAt(content, i);
        buf[lenpos + 1 + i] := Shr(content, extra - 1 - i) % 256;
      }
      assert field[..1 + extra] == field;
    }

    method MakeRoom(lenpos: nat, extra: nat, ghost head: seq<Byte>, ghost body: seq<Byte>)
      requires len + extra <= buf.Length && |head| == lenpos && buf[..len] == head + [0] + body
      modifies buf
      ensures buf[..lenpos] == head && buf[lenpos + 1 + extra..len + extra] == body
    {
      assert buf[..lenpos] == head && buf[lenpos + 1..len] == body;
      ShiftUp(lenpos + 1, len - lenpos - 1, extra);
      assert buf[..lenpos + 1][..lenpos] == buf[..lenpos];
    }

    method PatchLong(lenpos: nat, ghost head: seq<Byte>, ghost body: seq<Byte>)
      requires len <= buf.Length && |head| == lenpos && buf[..len] == head + [0] + body
      requires |body| >= 128 && len + Extra(|body|) <= buf.Length
      modifies `len, buf
      ensures len == old(len) + Extra(|body|) <= buf.Length && buf[..len] == head + LenField(|body|) + body
    {
      hide LenField;
      assert |buf[..len]| == lenpos + 1 + |body|;
      var content := len - lenpos - 1;
      var extra := if content <= 0xff then 1 else if content <= 0xffff then 2 else if content <= 0xff_ffff then 3
          else 4;
      assert extra == Extra(|body|);
      hide Extra;
      MakeRoom(lenpos, extra, head, body);
      ghost var now := buf[..];
      PatchLength(lenpos, content, extra);
      len := len + extra;
      Joined(buf[..], now, lenpos, lenpos + 1 + extra, len);
    }

    /** Close the innermost frame: patch its length in, moving its body if the length needs more room. */
    method End(lenpos: nat)
      requires Valid()
      requires !err ==> doc.open != [] && lenpos == InnerPos(doc) && len + Extra(len - lenpos - 1) <= buf.Length
      modifies this, buf
      ensures Valid() && err == old(err)
      ensures !err ==> doc == Ended(old(doc)) && len == old(len) + Extra(old(len) - lenpos - 1)
    {
      hide Flat, Put, LenField, Extra;
      if err { return; }
      InnerSplit(doc);
      ghost var f := doc.open[|doc.open| - 1];
      ghost var outer := Doc(doc.base, doc.open[..|doc.open| - 1]);
      FlatPut(outer, Tlv(f.tag, f.body));
      ghost var head := Flat(outer) + [f.tag];
      assert Flat(doc) == head + [0] + f.body;
      var content := len - lenpos - 1;
      if content < 128 {
        ShortField(content);
        ghost var was := buf[..len];
        buf[lenpos] := content;
        Patched(was, buf[..len], head, content, f.body);
      } else {
        PatchLong(lenpos, head, f.body);
      }
      assert head + LenField(|f.body|) + f.body == Flat(outer) + Tlv(f.tag, f.body);
      doc := Ended(doc);
    }

    /** An INTEGER from unsigned big-endian bytes. */
    method IntBytes(v: seq<Byte>)
      requires Valid()
      modifies this, buf
      ensures Wrote(Tlv(INTEGER, IntContent(v)))
    {
      hide Flat, Put, LenField;
      if err { return; }
      var at := 0;
      while at < |v| && v[at] == 0
        invariant 0 <= at <= |v| && Stripped(v) == Stripped(v[at..])
      {
        at := at + 1;
      }
      var m := v[at..];
      assert m == Stripped(v);
      if m == [] {
        WriteTlv(INTEGER, [0]);
      } else if m[0] >= 128 {
        Prefixed(INTEGER, m);
      } else {
        WriteTlv(INTEGER, m);
      }
    }

    /** A tag, the length of a zero octet and some bytes, and those. */
    method Prefixed(tag: Byte, data: seq<Byte>)
      requires Valid()
      modifies this, buf
      ensures Wrote(Tlv(tag, [0] + data))
    {
      hide Flat, Put, LenField;
      ghost var f := LenField(|data| + 1);
      PutPut(doc, [tag], f);
      PutPut(doc, [tag] + f, [0]);
      PutPut(doc, [tag] + f + [0], data);
      U8(tag);
      Len(|data| + 1);
      U8(0);
      Bytes(data);
      assert [tag] + f + [0] + data == Tlv(tag, [0] + data);
    }

    /** A BIT STRING with no unused bits. */
    method BitString(data: seq<Byte>)
      requires Valid()
      modifies this, buf
      ensures Wrote(Tlv(BIT_STRING, [0] + data))
    {
      if err { return; }
      Prefixed(BIT_STRING, data);
    }

    /** Any well-nested run of the operations is the writing of some trees. With room for the final bytes it
        never fails, and leaves their encoding, whatever frames are open around it. */
    method Emit(ts: seq<Node>)
      requires Valid() && !err && len + |EncodeAll(ts)| <= buf.Length
      modifies this, buf
      ensures Valid() && !err && doc == Put(old(doc), EncodeAll(ts)) && len == old(len) + |EncodeAll(ts)|
      decreases ts
    {
      hide Flat, Put, LenField, Extra;
      PutNone(doc);
      if ts == [] { return; }
      match ts[0] {
        case Prim(tag, content) =>
          WriteTlv(tag, content);
        case Cons(tag, kids) =>
          Construct(tag, kids, ts[0]);
      }
      ghost var body := match ts[0] case Prim(_, content) => content case Cons(_, kids) => EncodeAll(kids);
      PutPut(old(doc), Tlv(ts[0].tag, body), EncodeAll(ts[1..]));
      Emit(ts[1..]);
    }

    /** One constructed value: begin, its parts, end. */
    method Construct(tag: Byte, kids: seq<Node>, t: Node)
      requires t == Cons(tag, kids)
      requires Valid() && !err && len + |Tlv(tag, EncodeAll(kids))| <= buf.Length
      modifies this, buf
      ensures Valid() && !err && doc == Put(old(doc), Tlv(tag, EncodeAll(kids)))
      ensures len == old(len) + |Tlv(tag, EncodeAll(kids))|
      decreases t
    {
      hide Flat, Put, LenField, Extra;
      ghost var body := EncodeAll(kids);
      FieldLength(|body|);
      var lenpos := Begin(tag);
      Emit(kids);
      BeginPutEnd(old(doc), tag, body);
      BegunPos(old(doc), tag, body);
      End(lenpos);
    }
  }

  /** Closing the innermost frame needs exactly this much room, which the writer never asks for. */
  lemma EndFits(d: Doc, cap: nat)
    requires d.open != []
    ensures |Flat(Ended(d))| == |Flat(d)| + Extra(|Flat(d)| - InnerPos(d) - 1)
    ensures |Flat(Ended(d))| <= cap <==> |Flat(d)| + Extra(|Flat(d)| - InnerPos(d) - 1) <= cap
  {
    hide LenField, Extra, Put, Flat;
    InnerSplit(d);
    var f := d.open[|d.open| - 1];
    FlatPut(Doc(d.base, d.open[..|d.open| - 1]), Tlv(f.tag, f.body));
    FieldLength(|f.body|);
  }

  lemma FlatNone()
    ensures Flat(Doc([], [])) == []
  {
  }

  /** A frame of 128 bytes fills a buffer of 130 without an error, and its end does not fit. */
  method FullFrame() returns (w: Writer)
    ensures w.Valid() && !w.err && w.doc.open != [] && |Flat(Ended(w.doc))| == w.buf.Length + 1
  {
    hide Flat, Ended, Put, Begun, InnerPos;
    w := new Writer(130);
    var body: seq<Byte> := seq(128, _ => 0);
    BegunPos(w.doc, 0x30, body);
    FlatNone();
    var _ := w.Begin(0x30);
    w.Bytes(body);
    EndFits(w.doc, 130);
  }

  lemma PutNone(d: Doc)
    ensures Put(d, []) == d
  {
    if d.open == [] {
      assert d.base + [] == d.base;
    } else {
      var k := |d.open| - 1;
      assert d.open[k].body + [] == d.open[k].body && d.open == d.open[..k] + [d.open[k]];
    }
  }

  lemma Joined(s: seq<Byte>, was: seq<Byte>, i: nat, j: nat, k: nat)
    requires i <= j <= k <= |s| == |was| && s[j..] == was[j..]
    ensures s[..k] == s[..i] + s[i..j] + was[j..k]
  {
    assert s[j..k] == s[j..][..k - j] && was[j..k] == was[j..][..k - j];
  }

  lemma Patched(s: seq<Byte>, s': seq<Byte>, head: seq<Byte>, b: Byte, body: seq<Byte>)
    requires s == head + [0] + body && |s'| == |s| && s'[|head|] == b
    requires forall k :: 0 <= k < |s| && k != |head| ==> s'[k] == s[k]
    ensures s' == head + [b] + body
  {
  }

  /** Shifting right by j bytes. */
  function Shr(n: nat, j: nat): nat
  {
    if j == 0 then n else Shr(n / 256, j - 1)
  }

  /** Octets the length field takes beyond the placeholder. */
  function Extra(n: nat): nat
  {
    if n < 128 then 0 else if n <= 0xff then 1 else if n <= 0xffff then 2 else if n <= 0xff_ffff then 3 else 4
  }

  lemma FieldLength(n: nat)
    ensures |LenField(n)| == 1 + Extra(n) && (n >= 128 ==> LenField(n)[0] == 0x80 + Extra(n) && 1 <= Extra(n) <= 4)
  {
  }

  lemma ShortField(n: nat)
    requires n < 128
    ensures LenField(n) == [n] && Extra(n) == 0
  {
  }

  lemma FieldAt(n: nat, i: nat)
    requires n >= 128 && i < Extra(n)
    ensures |LenField(n)| == 1 + Extra(n) && LenField(n)[1 + i] == Shr(n, Extra(n) - 1 - i) % 256
  {
    var a, b, c := n / 256, n / 256 / 256, n / 256 / 256 / 256;
    assert Shr(n, 0) == n && Shr(n, 1) == Shr(a, 0) == a;
    assert Shr(n, 2) == Shr(a, 1) == Shr(b, 0) == b;
    assert Shr(n, 3) == Shr(a, 2) == Shr(b, 1) == Shr(c, 0) == c;
  }

  /** Where the innermost frame's length is. */
  ghost function InnerPos(d: Doc): nat
    requires d.open != []
  {
    |Flat(Doc(d.base, d.open[..|d.open| - 1]))| + 1
  }

  lemma InnerSplit(d: Doc)
    requires d.open != []
    ensures var k := |d.open| - 1;
      Flat(d) == Flat(Doc(d.base, d.open[..k])) + [d.open[k].tag, 0] + d.open[k].body
  {
  }

  lemma BegunPos(d: Doc, tag: Byte, body: seq<Byte>)
    ensures Put(Begun(d, tag), body).open != [] && InnerPos(Put(Begun(d, tag), body)) == |Flat(d)| + 1
  {
    assert Put(Begun(d, tag), body).open[..|d.open|] == d.open;
  }
}
