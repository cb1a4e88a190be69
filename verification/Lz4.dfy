/** LZ4 blocks: what a block means, how it is written, and the in-place decoder of the boot stub. */
module Lz4 {
  import opened Basics

  /** Literals, then a copy of `len` bytes from `offset` back in the output. */
  datatype Item = Item(lits: seq<Byte>, offset: nat, len: nat)

  /** A block ends after a match, or with a run of literals whose token has four unused bits. */
  datatype Tail = NoTail | Tail(lits: seq<Byte>, unused: nat)
  datatype Block = Block(items: seq<Item>, tail: Tail)

  ghost predicate Shaped(b: Block)
  {
    && (forall it :: it in b.items ==> it.offset < 0x10000 && it.len >= 4)
    && (b.tail.Tail? ==> b.tail.unused < 16)
  }

  // --- Writing ---

  function Ext(n: nat): seq<Byte>
  {
    if n < 255 then [n] else [255] + Ext(n - 255)
  }

  function Nibble(n: nat): (k: nat)
    ensures k < 16
  {
    if n < 15 then n else 15
  }

  function Rest(n: nat): seq<Byte>
  {
    if n < 15 then [] else Ext(n - 15)
  }

  function EncodeItem(it: Item): seq<Byte>
    requires it.offset < 0x10000 && it.len >= 4
  {
    [16 * Nibble(|it.lits|) + Nibble(it.len - 4)] + Rest(|it.lits|) + it.lits
    + [it.offset % 256, it.offset / 256] + Rest(it.len - 4)
  }

  function EncodeTail(t: Tail): seq<Byte>
    requires t.Tail? ==> t.unused < 16
  {
    match t
    case NoTail => []
    case Tail(lits, unused) => [16 * Nibble(|lits|) + unused] + Rest(|lits|) + lits
  }

  function Encode(b: Block): seq<Byte>
    requires Shaped(b)
    decreases |b.items|
  {
    if b.items == [] then EncodeTail(b.tail)
    else EncodeItem(b.items[0]) + Encode(Block(b.items[1..], b.tail))
  }

  // --- Meaning ---

  /** The output grows byte by byte, so a match may run over the bytes it is writing. */
  function Copy(out: seq<Byte>, offset: nat, n: nat): (r: seq<Byte>)
    requires 0 < offset <= |out|
    ensures |r| == |out| + n
    decreases n
  {
    if n == 0 then out else Copy(out + [out[|out| - offset]], offset, n - 1)
  }

  /** The format's own rule: an offset reaches back into the output, and the output has room. */
  ghost predicate InRange(b: Block, at: nat, cap: nat)
    decreases |b.items|
  {
    if b.items == [] then at + (if b.tail.Tail? then |b.tail.lits| else 0) <= cap
    else
      var it, here := b.items[0], at + |b.items[0].lits|;
      0 < it.offset <= here && here + it.len <= cap && InRange(Block(b.items[1..], b.tail), here + it.len, cap)
  }

  /** The decoder compares the offset with the low 32 bits of the position. */
  ghost predicate ItemFits(it: Item, at: nat, cap: nat)
  {
    0 < it.offset <= (at + |it.lits|) % U32 && at + |it.lits| + it.len <= cap
  }

  ghost predicate Fits(b: Block, at: nat, cap: nat)
    decreases |b.items|
  {
    if b.items == [] then at + (if b.tail.Tail? then |b.tail.lits| else 0) <= cap
    else ItemFits(b.items[0], at, cap)
         && Fits(Block(b.items[1..], b.tail), at + |b.items[0].lits| + b.items[0].len, cap)
  }

  lemma LowBits(x: nat)
    ensures x % U32 <= x
  {
  }

  ghost function Apply(out: seq<Byte>, it: Item): (r: seq<Byte>)
    requires 0 < it.offset <= |out| + |it.lits|
    ensures |r| == |out| + |it.lits| + it.len
  {
    Copy(out + it.lits, it.offset, it.len)
  }

  ghost function Meaning(b: Block, out: seq<Byte>, cap: nat): (r: seq<Byte>)
    requires InRange(b, |out|, cap)
    ensures |r| <= cap
    decreases |b.items|
  {
    if b.items == [] then out + (if b.tail.Tail? then b.tail.lits else [])
    else
      Meaning(Block(b.items[1..], b.tail), Apply(out, b.items[0]), cap)
  }

  // --- Reading ---

  datatype Length = NoLength | Length(n: nat, used: nat)

  function ReadExt(s: seq<Byte>): Length
  {
    if s == [] then NoLength
    else if s[0] < 255 then Length(s[0], 1)
    else match ReadExt(s[1..]) case NoLength => NoLength case Length(n, used) => Length(255 + n, used + 1)
  }

  function ReadLen(s: seq<Byte>, nibble: nat): Length
  {
    if nibble != 15 then Length(nibble, 0)
    else match ReadExt(s) case NoLength => NoLength case Length(n, used) => Length(15 + n, used)
  }

  lemma {:induction false} ReadExtOf(n: nat, rest: seq<Byte>)
    ensures ReadExt(Ext(n) + rest) == Length(n, |Ext(n)|)
  {
    if n >= 255 {
      ReadExtOf(n - 255, rest);
      assert (Ext(n) + rest)[1..] == Ext(n - 255) + rest;
    }
  }

  lemma {:induction false} ExtOfRead(s: seq<Byte>)
    requires ReadExt(s).Length?
    ensures ReadExt(s).used <= |s| && s[..ReadExt(s).used] == Ext(ReadExt(s).n)
  {
    if s[0] == 255 {
      ExtOfRead(s[1..]);
      var u := ReadExt(s[1..]).used;
      assert s[..u + 1] == [255] + s[1..][..u];
    }
  }

  lemma ReadLenOf(n: nat, rest: seq<Byte>)
    ensures ReadLen(Rest(n) + rest, Nibble(n)) == Length(n, |Rest(n)|)
  {
    if n >= 15 { ReadExtOf(n - 15, rest); }
  }

  lemma LenOfRead(s: seq<Byte>, nibble: nat)
    requires nibble < 16 && ReadLen(s, nibble).Length?
    ensures var l := ReadLen(s, nibble); l.used <= |s| && s[..l.used] == Rest(l.n) && Nibble(l.n) == nibble
  {
    if nibble == 15 { ExtOfRead(s); }
  }

  function Short(s: seq<Byte>): (n: nat)
    requires |s| >= 2
    ensures n < 0x10000
  {
    var lo: nat, hi: nat := s[0], s[1];
    lo + 256 * hi
  }

  datatype Step = Bad | Last(tail: Tail) | More(item: Item, rest: seq<Byte>)

  /** The match part of an item, given its literals and the low half of its token. */
  function ReadMatch(s: seq<Byte>, lits: seq<Byte>, nibble: nat): (r: Step)
    ensures !r.Last? && (r.More? ==> r.item.lits == lits)
  {
    if |s| < 2 then Bad
    else match ReadLen(s[2..], nibble)
      case NoLength => Bad
      case Length(n, used) =>
        if 2 + used > |s| then Bad else More(Item(lits, Short(s), n + 4), s[2 + used..])
  }

  function ReadStep(s: seq<Byte>): Step
    requires s != []
  {
    match ReadLen(s[1..], s[0] / 16)
    case NoLength => Bad
    case Length(n, used) =>
      if 1 + used + n > |s| then Bad
      else
        var lits, after := s[1 + used..1 + used + n], s[1 + used + n..];
        if after == [] then Last(Tail(lits, s[0] % 16)) else ReadMatch(after, lits, s[0] % 16)
  }

  lemma ReadStepShrinks(s: seq<Byte>)
    requires s != [] && ReadStep(s).More?
    ensures |ReadStep(s).rest| < |s|
  {
  }

  function Parse(s: seq<Byte>): Option<Block>
    decreases |s|
  {
    if s == [] then Some(Block([], NoTail))
    else match ReadStep(s)
      case Bad => None
      case Last(tail) => Some(Block([], tail))
      case More(item, rest) =>
        ReadStepShrinks(s);
        match Parse(rest) case None => None case Some(b) => Some(Block([item] + b.items, b.tail))
  }

  // --- Writing and reading are inverse ---

  lemma MatchOf(it: Item, rest: seq<Byte>)
    requires it.offset < 0x10000 && it.len >= 4
    ensures ReadMatch([it.offset % 256, it.offset / 256] + Rest(it.len - 4) + rest, it.lits, Nibble(it.len - 4)) ==
              More(it, rest)
  {
    var s := [it.offset % 256, it.offset / 256] + Rest(it.len - 4) + rest;
    assert s[2..] == Rest(it.len - 4) + rest;
    ReadLenOf(it.len - 4, rest);
  }

  /** Reading the token, the length and the literals in front of anything. */
  lemma LiteralsOf(lits: seq<Byte>, low: nat, after: seq<Byte>)
    requires low < 16
    ensures var s := [16 * Nibble(|lits|) + low] + Rest(|lits|) + lits + after;
      ReadStep(s) == if after == [] then Last(Tail(lits, low)) else ReadMatch(after, lits, low)
  {
    var s := [16 * Nibble(|lits|) + low] + Rest(|lits|) + lits + after;
    assert s[1..] == Rest(|lits|) + (lits + after);
    ReadLenOf(|lits|, lits + after);
    var u := |Rest(|lits|)|;
    assert s[1 + u..1 + u + |lits|] == lits && s[1 + u + |lits|..] == after;
    assert s[0] / 16 == Nibble(|lits|) && s[0] % 16 == low;
  }

  lemma StepOfItem(it: Item, rest: seq<Byte>)
    requires it.offset < 0x10000 && it.len >= 4
    ensures EncodeItem(it) + rest != [] && ReadStep(EncodeItem(it) + rest) == More(it, rest)
  {
    hide Nibble, Rest, ReadStep, ReadMatch;
    var after := [it.offset % 256, it.offset / 256] + Rest(it.len - 4) + rest;
    LiteralsOf(it.lits, Nibble(it.len - 4), after);
    assert EncodeItem(it) + rest == [16 * Nibble(|it.lits|) + Nibble(it.len - 4)] + Rest(|it.lits|) + it.lits + after;
    MatchOf(it, rest);
  }

  lemma ParseTail(t: Tail)
    requires t.Tail? ==> t.unused < 16
    ensures Parse(EncodeTail(t)) == Some(Block([], t))
  {
    hide ReadStep;
    if t.Tail? {
      LiteralsOf(t.lits, t.unused, []);
      assert EncodeTail(t) == EncodeTail(t) + [];
    }
  }

  /** Every block reads back from its bytes. */
  lemma {:induction false} ParseEncode(b: Block)
    requires Shaped(b)
    ensures Parse(Encode(b)) == Some(b)
    decreases |b.items|
  {
    hide EncodeItem, EncodeTail, ReadStep;
    if b.items == [] {
      ParseTail(b.tail);
    } else {
      var less := Block(b.items[1..], b.tail);
      ParseEncode(less);
      StepOfItem(b.items[0], Encode(less));
      assert [b.items[0]] + less.items == b.items;
    }
  }

  lemma MatchBytes(s: seq<Byte>, lits: seq<Byte>, nibble: nat)
    requires nibble < 16 && ReadMatch(s, lits, nibble).More?
    ensures var m := ReadMatch(s, lits, nibble);
      && m.item.lits == lits && m.item.offset < 0x10000 && m.item.len >= 4 && Nibble(m.item.len - 4) == nibble
      && s == [m.item.offset % 256, m.item.offset / 256] + Rest(m.item.len - 4) + m.rest
  {
    var l := ReadLen(s[2..], nibble);
    LenOfRead(s[2..], nibble);
    assert s[2..] == s[2..][..l.used] + s[2 + l.used..];
    assert s == [s[0], s[1]] + s[2..];
  }

  lemma LiteralBytes(s: seq<Byte>, n: nat, used: nat)
    requires s != [] && ReadLen(s[1..], s[0] / 16) == Length(n, used) && 1 + used + n <= |s|
    ensures s == [16 * Nibble(n) + s[0] % 16] + Rest(n) + s[1 + used..1 + used + n] + s[1 + used + n..]
  {
    LenOfRead(s[1..], s[0] / 16);
    hide ReadLen, Rest, Nibble;
    assert s == [s[0]] + s[1..][..used] + s[1 + used..1 + used + n] + s[1 + used + n..];
  }

  lemma ItemBytes(item: Item, rest: seq<Byte>, after: seq<Byte>)
    requires item.offset < 0x10000 && item.len >= 4
    requires after == [item.offset % 256, item.offset / 256] + Rest(item.len - 4) + rest
    ensures EncodeItem(item) + rest ==
              [16 * Nibble(|item.lits|) + Nibble(item.len - 4)] + Rest(|item.lits|) + item.lits + after
  {
    hide Nibble, Rest;
  }

  lemma StepBytes(s: seq<Byte>)
    requires s != [] && !ReadStep(s).Bad?
    ensures ReadStep(s).Last? ==> ReadStep(s).tail.Tail? && ReadStep(s).tail.unused < 16
    ensures ReadStep(s).Last? ==> EncodeTail(ReadStep(s).tail) == s
    ensures ReadStep(s).More? ==> ReadStep(s).item.offset < 0x10000 && ReadStep(s).item.len >= 4
    ensures ReadStep(s).More? ==> EncodeItem(ReadStep(s).item) + ReadStep(s).rest == s
  {
    hide ReadLen, Rest, Nibble, EncodeItem, ReadMatch;
    var l := ReadLen(s[1..], s[0] / 16);
    LiteralBytes(s, l.n, l.used);
    var lits, after := s[1 + l.used..1 + l.used + l.n], s[1 + l.used + l.n..];
    if after != [] {
      var step := ReadMatch(after, lits, s[0] % 16);
      MatchBytes(after, lits, s[0] % 16);
      ItemBytes(step.item, step.rest, after);
    }
  }

  /** Whatever can be read is the writing of what was read. */
  lemma {:induction false} EncodeParse(s: seq<Byte>)
    requires Parse(s).Some?
    ensures Shaped(Parse(s).value) && Encode(Parse(s).value) == s
    decreases |s|
  {
    if s != [] {
      StepBytes(s);
      var step := ReadStep(s);
      if step.More? {
        ReadStepShrinks(s);
        EncodeParse(step.rest);
        var b := Parse(step.rest).value;
        assert ([step.item] + b.items)[1..] == b.items;
      }
    }
  }

  // --- What decoding yields ---

  /** Every offset is at most the low 32 bits of the position it counts from. */
  ghost predicate OffsetsLow(b: Block, at: nat)
    decreases |b.items|
  {
    b.items != [] ==>
      var it, here := b.items[0], at + |b.items[0].lits|;
      it.offset <= here % U32 && OffsetsLow(Block(b.items[1..], b.tail), here + it.len)
  }

  lemma {:induction false} FitsExactly(b: Block, at: nat, cap: nat)
    ensures Fits(b, at, cap) <==> InRange(b, at, cap) && OffsetsLow(b, at)
    decreases |b.items|
  {
    if b.items != [] {
      LowBits(at + |b.items[0].lits|);
      FitsExactly(Block(b.items[1..], b.tail), at + |b.items[0].lits| + b.items[0].len, cap);
    }
  }

  ghost function Decoded(p: Option<Block>, out: seq<Byte>, cap: nat): Option<seq<Byte>>
  {
    if p.Some? && Fits(p.value, |out|, cap) then FitsExactly(p.value, |out|, cap); Some(Meaning(p.value, out, cap))
        else None
  }

  lemma ParseMore(s: seq<Byte>)
    requires s != [] && ReadStep(s).More?
    ensures Parse(s).Some? <==> Parse(ReadStep(s).rest).Some?
    ensures Parse(s).Some? ==> Parse(s).value.items != [] && Parse(s).value.items[0] == ReadStep(s).item
    ensures Parse(s).Some? ==> Block(Parse(s).value.items[1..], Parse(s).value.tail) == Parse(ReadStep(s).rest).value
  {
    ReadStepShrinks(s);
    hide ReadStep;
  }

  lemma DecodedMore(s: seq<Byte>, out: seq<Byte>, cap: nat)
    requires s != [] && ReadStep(s).More?
    ensures !ItemFits(ReadStep(s).item, |out|, cap) ==> Decoded(Parse(s), out, cap) == None
    ensures ItemFits(ReadStep(s).item, |out|, cap) ==> 0 < ReadStep(s).item.offset <= |out| + |ReadStep(s).item.lits|
    ensures ItemFits(ReadStep(s).item, |out|, cap) ==>
      Decoded(Parse(s), out, cap) == Decoded(Parse(ReadStep(s).rest), Apply(out, ReadStep(s).item), cap)
  {
    hide ReadStep, Parse, Copy;
    LowBits(|out| + |ReadStep(s).item.lits|);
    ParseMore(s);
  }

  /** Up to 4 GiB of output the decoder's test of an offset is the format's own. */
  lemma {:induction false} SmallLow(b: Block, at: nat, cap: nat)
    requires cap <= U32 && Shaped(b) && InRange(b, at, cap)
    ensures OffsetsLow(b, at)
    decreases |b.items|
  {
    if b.items != [] {
      var it, here := b.items[0], at + |b.items[0].lits|;
      assert it in b.items;
      assert here % U32 == here;
      SmallLow(Block(b.items[1..], b.tail), here + it.len, cap);
    }
  }

  /** A well-formed block decodes to its meaning, unless an offset exceeds the low 32 bits of its position,
      which takes more than 4 GiB of output. */
  lemma RoundTrip(b: Block, cap: nat)
    requires Shaped(b)
    ensures Decoded(Parse(Encode(b)), [], cap) ==
            if InRange(b, 0, cap) && OffsetsLow(b, 0) then Some(Meaning(b, [], cap)) else None
    ensures cap <= U32 && InRange(b, 0, cap) ==> OffsetsLow(b, 0)
  {
    ParseEncode(b);
    FitsExactly(b, 0, cap);
    if cap <= U32 && InRange(b, 0, cap) { SmallLow(b, 0, cap); }
  }

  /** A match repeats what stands `offset` bytes before. */
  lemma {:induction false} CopyRepeats(out: seq<Byte>, offset: nat, n: nat)
    requires 0 < offset <= |out|
    ensures var r := Copy(out, offset, n);
      r[..|out|] == out && forall i :: |out| <= i < |r| ==> r[i] == r[i - offset]
    decreases n
  {
    if n > 0 {
      var more, r := out + [out[|out| - offset]], Copy(out, offset, n);
      CopyRepeats(more, offset, n - 1);
      assert r == Copy(more, offset, n - 1) && r[..|more|] == more;
      assert r[..|out|] == more[..|out|] == out;
      assert r[|out|] == more[|out|] == out[|out| - offset] == r[|out| - offset];
    }
  }

  /** A length is spelled as bytes of 255 and a last smaller one that add up to it. */
  lemma {:induction false} ExtAdds(n: nat)
    ensures var s := Ext(n);
      s != [] && (forall i :: 0 <= i < |s| - 1 ==> s[i] == 255) && s[|s| - 1] < 255 &&
      255 * (|s| - 1) + s[|s| - 1] == n
  {
    if n >= 255 { ExtAdds(n - 255); }
  }

  lemma OneItem(it: Item, cap: nat)
    requires 0 < it.offset <= |it.lits| && it.offset < 0x10000 && it.len >= 4 && |it.lits| + it.len <= cap <= U32
    ensures var b := Block([it], NoTail);
      Shaped(b) && Encode(b) == EncodeItem(it) && InRange(b, 0, cap) && OffsetsLow(b, 0) &&
      Meaning(b, [], cap) == Copy(it.lits, it.offset, it.len)
  {
    hide Copy, EncodeItem;
    var b, rest := Block([it], NoTail), Block([], NoTail);
    assert Block(b.items[1..], b.tail) == rest && Encode(rest) == [] && [] + it.lits == it.lits;
    assert (|it.lits|) % U32 == |it.lits|;
    var out := Copy(it.lits, it.offset, it.len);
    assert InRange(rest, |out|, cap) && Meaning(rest, out, cap) == out;
  }

  /** The format on short items: token, literals, offset low byte first. */
  lemma ShortItem(lits: seq<Byte>, offset: nat, m: nat, cap: nat)
    requires |lits| < 15 && m < 15 && 0 < offset <= |lits| && |lits| + m + 4 <= cap <= U32
    ensures var r := Decoded(Parse([16 * |lits| + m] + lits + [offset % 256, offset / 256]), [], cap);
      r.Some? && |r.value| == |lits| + m + 4 && r.value[..|lits|] == lits &&
      forall i :: |lits| <= i < |r.value| ==> r.value[i] == r.value[i - offset]
  {
    var it := Item(lits, offset, m + 4);
    assert EncodeItem(it) == [16 * |lits| + m] + lits + [offset % 256, offset / 256];
    hide Parse, Decoded, Encode, EncodeItem, Copy, Meaning, InRange, OffsetsLow, Shaped;
    OneItem(it, cap);
    RoundTrip(Block([it], NoTail), cap);
    CopyRepeats(lits, offset, m + 4);
  }

  /** How many bytes a block stands for: its literals and what its matches copy. */
  function OutLen(b: Block): nat
    decreases |b.items|
  {
    if b.items == [] then (if b.tail.Tail? then |b.tail.lits| else 0)
    else |b.items[0].lits| + b.items[0].len + OutLen(Block(b.items[1..], b.tail))
  }

  /** Apart from its offsets, a block is in range exactly when its bytes fit. */
  lemma {:induction false} RangeExact(b: Block, at: nat, cap: nat)
    ensures InRange(b, at, cap) <==> InRange(b, at, at + OutLen(b)) && at + OutLen(b) <= cap
    decreases |b.items|
  {
    if b.items != [] {
      var rest, next := Block(b.items[1..], b.tail), at + |b.items[0].lits| + b.items[0].len;
      RangeExact(rest, next, cap);
      RangeExact(rest, next, at + OutLen(b));
    }
  }

  /** The meaning has that many bytes, whatever the room. */
  lemma {:induction false} MeaningSame(b: Block, out: seq<Byte>, cap: nat, cap': nat)
    requires InRange(b, |out|, cap) && InRange(b, |out|, cap')
    ensures Meaning(b, out, cap) == Meaning(b, out, cap') && |Meaning(b, out, cap)| == |out| + OutLen(b)
    decreases |b.items|
  {
    if b.items != [] {
      MeaningSame(Block(b.items[1..], b.tail), Apply(out, b.items[0]), cap, cap');
    }
  }

  /** Such a block: 2^32 literals, then any match. */
  lemma LargeRefused(lits: seq<Byte>, offset: nat, len: nat, cap: nat)
    requires |lits| == U32 && 0 < offset < 0x10000 && len >= 4 && U32 + len <= cap
    ensures var b := Block([Item(lits, offset, len)], NoTail);
      Shaped(b) && InRange(b, 0, cap) && Decoded(Parse(Encode(b)), [], cap) == None
  {
    hide Encode, Parse, Decoded, Meaning;
    var b := Block([Item(lits, offset, len)], NoTail);
    assert InRange(Block(b.items[1..], b.tail), U32 + len, cap);
    assert !OffsetsLow(b, 0);
    RoundTrip(b, cap);
  }

  // --- The decoder ---

  method ReadLength(src: seq<Byte>, at: nat, nibble: nat) returns (ok: bool, len: nat, next: nat)
    requires at <= |src|
    ensures ok <==> ReadLen(src[at..], nibble).Length?
    ensures ok ==> at <= next <= |src|
    ensures ok ==> ReadLen(src[at..], nibble) == Length(len, next - at)
  {
    ok, len, next := true, nibble, at;
    if len == 15 {
      while true
        invariant at <= next <= |src| && len >= 15
        invariant ReadExt(src[at..]).Length? <==> ReadExt(src[next..]).Length?
        invariant ReadExt(src[next..]).Length? ==>
          ReadExt(src[at..]) == Length(ReadExt(src[next..]).n + len - 15, ReadExt(src[next..]).used + next - at)
        decreases |src| - next
      {
        if next >= |src| { return false, len, next; }
        var s := src[next];
        assert src[next..][1..] == src[next + 1..];
        len, next := len + s, next + 1;
        if s != 255 { break; }
      }
    }
  }

  /** Nothing outside [from, to) has changed. */
  twostate predicate Outside(dst: array<Byte>, from: nat, to: nat)
    reads dst
  {
    forall k :: 0 <= k < dst.Length && !(from <= k < to) ==> dst[k] == old(dst[k])
  }

  method CopyBytes(dst: array<Byte>, at: nat, bytes: seq<Byte>)
    requires at + |bytes| <= dst.Length
    modifies dst
    ensures dst[at..at + |bytes|] == bytes && Outside(dst, at, at + |bytes|)
  {
    for i := 0 to |bytes|
      invariant dst[at..at + i] == bytes[..i] && Outside(dst, at, at + i)
    {
      dst[at + i] := bytes[i];
    }
  }

  /** Move bytes down in a buffer, first byte first. */
  method MoveDown(buf: array<Byte>, to: nat, from: nat, n: nat)
    requires to < from && from + n <= buf.Length
    modifies buf
    ensures buf[to..to + n] == old(buf[from..from + n]) && Outside(buf, to, to + n)
  {
    ghost var was := buf[..];
    for i := 0 to n
      invariant buf[to..to + i] == was[from..from + i]
      invariant Outside(buf, to, to + i)
    {
      assert buf[from + i] == was[from + i];
      buf[to + i] := buf[from + i];
    }
  }

  /** Move bytes up, last byte first. */
  method MoveUp(buf: array<Byte>, to: nat, from: nat, n: nat)
    requires from < to && to + n <= buf.Length
    modifies buf
    ensures buf[to..to + n] == old(buf[from..from + n]) && Outside(buf, to, to + n)
  {
    ghost var was := buf[..];
    for i := n downto 0
      invariant buf[to + i..to + n] == was[from + i..from + n]
      invariant Outside(buf, to + i, to + n)
    {
      assert buf[from + i] == was[from + i];
      buf[to + i] := buf[from + i];
    }
  }

  /** Move bytes within one buffer, from the end that is not overwritten first. */
  method MoveBytes(buf: array<Byte>, to: nat, from: nat, n: nat)
    requires to + n <= buf.Length && from + n <= buf.Length
    modifies buf
    ensures buf[to..to + n] == old(buf[from..from + n]) && Outside(buf, to, to + n)
  {
    if to == from || n == 0 { return; }
    if to < from {
      MoveDown(buf, to, from, n);
    } else {
      MoveUp(buf, to, from, n);
    }
  }

  /** Copy a match forward, byte by byte, over what may be its own output. */
  method CopyMatch(dst: array<Byte>, base: nat, op: nat, offset: nat, len: nat)
    requires base + op + len <= dst.Length && 0 < offset <= op
    modifies dst
    ensures dst[base..base + op + len] == Copy(old(dst[base..base + op]), offset, len)
    ensures Outside(dst, base + op, base + op + len)
  {
    hide Copy;
    ghost var out := dst[base..base + op];
    for i := 0 to len
      invariant Copy(out, offset, len) == Copy(dst[base..base + op + i], offset, len - i)
      invariant Outside(dst, base + op, base + op + i)
    {
      ghost var now := dst[base..base + op + i];
      dst[base + op + i] := dst[base + op + i - offset];
      Extended(now, dst[base..base + op + i + 1], offset);
      CopyStep(now, offset, len - i);
    }
    CopyNone(dst[base..base + op + len], offset);
  }

  lemma CopyStep(out: seq<Byte>, offset: nat, n: nat)
    requires 0 < offset <= |out| && n > 0
    ensures Copy(out, offset, n) == Copy(out + [out[|out| - offset]], offset, n - 1)
  {
  }

  lemma CopyNone(out: seq<Byte>, offset: nat)
    requires 0 < offset <= |out|
    ensures Copy(out, offset, 0) == out
  {
  }

  lemma Extended(now: seq<Byte>, after: seq<Byte>, offset: nat)
    requires 0 < offset <= |now| && |after| == |now| + 1 && after[..|now|] == now && after[|now|] == now[|now| - offset]
    ensures after == now + [now[|now| - offset]]
  {
  }

  lemma DecodedEnds(s: seq<Byte>, out: seq<Byte>, cap: nat)
    requires s != []
    ensures ReadStep(s).Bad? ==> Decoded(Parse(s), out, cap) == None
    ensures ReadStep(s).Last? && ReadStep(s).tail.Tail? ==>
      Decoded(Parse(s), out, cap) == if |out| + |ReadStep(s).tail.lits| <= cap then Some(out + ReadStep(s).tail.lits)
          else None
  {
    hide ReadStep;
  }

  /** Literals that do not fit refuse the block, whatever follows them. */
  lemma NoRoom(s: seq<Byte>, out: seq<Byte>, cap: nat, n: nat, used: nat)
    requires s != [] && ReadLen(s[1..], s[0] / 16) == Length(n, used) && 1 + used + n <= |s| && |out| + n > cap
    ensures Decoded(Parse(s), out, cap) == None
  {
    hide Parse, ReadLen;
    var step := ReadStep(s);
    assert step.Last? ==> step.tail.Tail? && |step.tail.lits| == n;
    assert step.More? ==> |step.item.lits| == n;
    hide ReadStep;
    DecodedEnds(s, out, cap);
    if step.More? { DecodedMore(s, out, cap); }
  }

  /** The token, the literal length and the literals of one sequence. */
  method Literals(src: seq<Byte>, ip: nat, dst: array<Byte>, base: nat, op: nat)
    returns (ok: bool, ip': nat, op': nat, nibble: nat)
    requires ip < |src| && base + op <= dst.Length
    modifies dst
    ensures !ok ==> Decoded(Parse(src[ip..]), old(dst[base..base + op]), dst.Length - base) == None
    ensures ok ==> ip < ip' <= |src| && op <= op' && base + op' <= dst.Length && nibble < 16
    ensures ok ==> dst[base..base + op] == old(dst[base..base + op])
    ensures ok && ip' == |src| ==> ReadStep(src[ip..]) == Last(Tail(dst[base + op..base + op'], nibble))
    ensures ok && ip' < |src| ==> ReadStep(src[ip..]) == ReadMatch(src[ip'..], dst[base + op..base + op'], nibble)
    ensures ok ==> Outside(dst, base + op, base + op')
    ensures !ok ==> dst[..] == old(dst[..])
  {
    hide Decoded, Parse, ReadLen, ReadMatch;
    ghost var s, out, cap := src[ip..], dst[base..base + op], dst.Length - base;
    ip', op', nibble := ip, op, src[ip] % 16;
    var len, next;
    ok, len, next := ReadLength(src, ip + 1, src[ip] / 16);
    assert s[1..] == src[ip + 1..];
    if !ok || |src| - next < len {
      DecodedEnds(s, out, cap);
      return false, ip', op', nibble;
    }
    if dst.Length - base - op < len {
      NoRoom(s, out, cap, len, next - ip - 1);
      return false, ip', op', nibble;
    }
    CopyBytes(dst, base + op, src[next..next + len]);
    ip', op' := next + len, op + len;
    assert s[next - ip..next - ip + len] == src[next..next + len] && s[next - ip + len..] == src[ip'..];
  }

  /** The offset, the match length and the match of one sequence, after its literals. */
  method Match(src: seq<Byte>, ip: nat, dst: array<Byte>, base: nat, op: nat, nibble: nat, ghost lits: seq<Byte>)
    returns (ok: bool, ip': nat, op': nat)
    requires ip < |src| && base + op <= dst.Length && |lits| <= op && nibble < 16
    modifies dst
    ensures !ok ==> dst[..] == old(dst[..])
    ensures !ok && ReadMatch(src[ip..], lits, nibble).More? ==>
      !ItemFits(ReadMatch(src[ip..], lits, nibble).item, op - |lits|, dst.Length - base)
    ensures ok ==> ip < ip' <= |src| && op <= op' && base + op' <= dst.Length
    ensures ok ==> ReadMatch(src[ip..], lits, nibble).More? && ReadMatch(src[ip..], lits, nibble).rest == src[ip'..]
    ensures ok ==> ItemFits(ReadMatch(src[ip..], lits, nibble).item, op - |lits|, dst.Length - base)
    ensures ok ==> 0 < ReadMatch(src[ip..], lits, nibble).item.offset <= op
    ensures ok ==> dst[base..base + op'] == Copy(old(dst[base..base + op]),
                                                 ReadMatch(src[ip..], lits, nibble).item.offset,
                                                 ReadMatch(src[ip..], lits, nibble).item.len)
    ensures ok ==> Outside(dst, base + op, base + op')
  {
    hide ReadLen, Copy;
    ghost var s := src[ip..];
    ip', op' := ip, op;
    if |src| - ip < 2 { return false, ip', op'; }
    var offset := Short(src[ip..ip + 2]);
    assert Short(s) == offset && s[2..] == src[ip + 2..];
    LowBits(op);
    if offset == 0 || offset > op % U32 { return false, ip', op'; }
    var len, next;
    ok, len, next := ReadLength(src, ip + 2, nibble);
    if !ok { return false, ip', op'; }
    len := len + 4;
    if dst.Length - base - op < len { return false, ip', op'; }
    CopyMatch(dst, base, op, offset, len);
    ip', op' := next, op + len;
    assert s[next - ip..] == src[next..];
  }

  /** Decode one block into the destination from base on. */
  method DecodeBlock(src: seq<Byte>, dst: array<Byte>, base: nat) returns (ok: bool, written: nat)
    requires base <= dst.Length
    modifies dst
    ensures ok <==> Decoded(Parse(src), [], dst.Length - base).Some?
    ensures ok ==> base + written <= dst.Length
    ensures ok ==> dst[base..base + written] == Decoded(Parse(src), [], dst.Length - base).value
    ensures Outside(dst, base, if ok then base + written else dst.Length)
  {
    hide Decoded, Parse, ReadLen, ReadStep, ReadMatch, Copy, ItemFits;
    var cap, ip, op := dst.Length - base, 0, 0;
    ghost var goal := Decoded(Parse(src), [], cap);
    assert src[0..] == src && dst[base..base] == [];
    while ip < |src|
      invariant 0 <= ip <= |src| && 0 <= op <= cap
      invariant Decoded(Parse(src[ip..]), dst[base..base + op], cap) == goal
      invariant Outside(dst, base, base + op)
      decreases |src| - ip
    {
      ghost var s, out := src[ip..], dst[base..base + op];
      var good, next, op', nibble := Literals(src, ip, dst, base, op);
      if !good { return false, 0; }
      ghost var lits := dst[base + op..base + op'];
      assert dst[base..base + op'] == out + lits;
      if next >= |src| {
        DecodedEnds(s, out, cap);
        return true, op';
      }
      good, ip, op := Match(src, next, dst, base, op', nibble, lits);
      DecodedEnds(s, out, cap);
      if ReadStep(s).More? { DecodedMore(s, out, cap); }
      if !good { return false, 0; }
    }
    DecodedEmpty(dst[base..base + op], cap);
    assert src[ip..] == [];
    return true, op;
  }

  lemma DecodedEmpty(out: seq<Byte>, cap: nat)
    requires |out| <= cap
    ensures Decoded(Parse([]), out, cap) == Some(out)
  {
    assert out + [] == out;
  }
}
