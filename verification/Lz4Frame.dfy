/** LZ4 frames: a header, independent blocks stored or packed, and an end mark. */
module Lz4Frame {
  import opened Basics
  import opened Lz4

  const MAGIC: nat := 0x184D2204
  const STORED: nat := 0x8000_0000

  function To4(n: nat): (s: seq<Byte>)
    requires n < U32
    ensures |s| == 4
  {
    [n % 256, n / 256 % 256, n / 256 / 256 % 256, n / 256 / 256 / 256]
  }

  function Word(s: seq<Byte>): (n: nat)
    requires |s| >= 4
    ensures n < U32
  {
    var a: nat, b: nat, c: nat, d: nat := s[0], s[1], s[2], s[3];
    a + 256 * (b + 256 * (c + 256 * d))
  }

  function Quad(s: seq<Byte>): nat
    requires |s| >= 8
  {
    Word(s) + U32 * Word(s[4..])
  }

  lemma WordTo4(n: nat, rest: seq<Byte>)
    requires n < U32
    ensures Word(To4(n) + rest) == n
  {
    var s, x, y := To4(n) + rest, n / 256, n / 256 / 256;
    assert s[0] == n % 256 && s[1] == x % 256 && s[2] == y % 256 && s[3] == y / 256;
  }

  lemma Horner(a: nat, q: nat)
    requires a < 256
    ensures (a + 256 * q) % 256 == a && (a + 256 * q) / 256 == q
  {
  }

  lemma To4Word(s: seq<Byte>)
    requires |s| >= 4
    ensures s[..4] == To4(Word(s))
  {
    var a: nat, b: nat, c: nat, d: nat := s[0], s[1], s[2], s[3];
    Horner(a, b + 256 * (c + 256 * d));
    Horner(b, c + 256 * d);
    Horner(c, d);
  }

  datatype Piece = Piece(stored: bool, data: seq<Byte>, check: seq<Byte>)
  datatype Frame = Frame(flg: Byte, bd: Byte, size: seq<Byte>, dict: seq<Byte>, sum: Byte, pieces: seq<Piece>)

  /** Sizes of the optional fields, by the flag bits that announce them. */
  function SizeBytes(flg: Byte): nat { if flg / 8 % 2 == 1 then 8 else 0 }
  function DictBytes(flg: Byte): nat { if flg % 2 == 1 then 4 else 0 }
  function CheckBytes(flg: Byte): nat { if flg / 16 % 2 == 1 then 4 else 0 }

  ghost predicate PieceShaped(p: Piece, c: nat)
  {
    0 < |p.data| < STORED && |p.check| == c
  }

  ghost predicate FrameShaped(f: Frame)
  {
    && f.flg / 64 == 1 && |f.size| == SizeBytes(f.flg) && |f.dict| == DictBytes(f.flg)
    && forall p :: p in f.pieces ==> PieceShaped(p, CheckBytes(f.flg))
  }

  // --- Writing ---

  function EncodePiece(p: Piece): seq<Byte>
    requires |p.data| < STORED
  {
    To4(|p.data| + if p.stored then STORED else 0) + p.data + p.check
  }

  ghost function EncodePieces(ps: seq<Piece>, c: nat): seq<Byte>
    requires forall p :: p in ps ==> PieceShaped(p, c)
  {
    if ps == [] then To4(0)
    else
      assert PieceShaped(ps[0], c);
      EncodePiece(ps[0]) + EncodePieces(ps[1..], c)
  }

  ghost function EncodeFrame(f: Frame): seq<Byte>
    requires FrameShaped(f)
  {
    To4(MAGIC) + [f.flg, f.bd] + f.size + f.dict + [f.sum] + EncodePieces(f.pieces, CheckBytes(f.flg))
  }

  // --- Meaning ---

  ghost function PieceMeaning(p: Piece, out: seq<Byte>, cap: nat): Option<seq<Byte>>
    requires |out| <= cap
  {
    if p.stored then if |out| + |p.data| <= cap then Some(out + p.data) else None
    else match Decoded(Parse(p.data), [], cap - |out|) case None => None case Some(x) => Some(out + x)
  }

  lemma PieceWithin(p: Piece, out: seq<Byte>, cap: nat)
    requires |out| <= cap && PieceMeaning(p, out, cap).Some?
    ensures out <= PieceMeaning(p, out, cap).value && |PieceMeaning(p, out, cap).value| <= cap
  {
  }

  /** Each piece adds its own bytes; a packed one knows nothing of those before it. */
  ghost function PiecesMeaning(ps: seq<Piece>, out: seq<Byte>, cap: nat): Option<seq<Byte>>
    requires |out| <= cap
  {
    if ps == [] then Some(out)
    else match PieceMeaning(ps[0], out, cap)
      case None => None
      case Some(more) =>
        PieceWithin(ps[0], out, cap);
        PiecesMeaning(ps[1..], more, cap)
  }

  /** A content size other than zero must be met. */
  ghost predicate SizeMet(size: seq<Byte>, n: nat)
  {
    |size| == 8 && Quad(size) != 0 ==> n == Quad(size)
  }

  // --- Reading ---

  datatype Pieces = NoPieces | Pieces(list: seq<Piece>, rest: seq<Byte>)

  function ReadPiece(s: seq<Byte>, c: nat): Option<Piece>
    requires |s| >= 4
  {
    var n := Word(s) % STORED;
    if n == 0 || |s| < 4 + n + c then None else Some(Piece(Word(s) >= STORED, s[4..4 + n], s[4 + n..4 + n + c]))
  }

  function ParsePieces(s: seq<Byte>, c: nat): Pieces
    decreases |s|
  {
    if |s| < 4 then NoPieces
    else if Word(s) == 0 then Pieces([], s[4..])
    else match ReadPiece(s, c)
      case None => NoPieces
      case Some(p) =>
        match ParsePieces(s[4 + |p.data| + c..], c)
        case NoPieces => NoPieces
        case Pieces(list, rest) => Pieces([p] + list, rest)
  }

  function HeaderBytes(flg: Byte): nat
  {
    7 + SizeBytes(flg) + DictBytes(flg)
  }

  function ParseFrame(s: seq<Byte>): Option<Frame>
  {
    if |s| < 7 || Word(s) != MAGIC || s[4] / 64 != 1 || |s| < HeaderBytes(s[4]) then None
    else
      var a, b := 6 + SizeBytes(s[4]), 6 + SizeBytes(s[4]) + DictBytes(s[4]);
      match ParsePieces(s[b + 1..], CheckBytes(s[4]))
      case NoPieces => None
      case Pieces(list, _) => Some(Frame(s[4], s[5], s[6..a], s[a..b], s[b], list))
  }

  ghost function Unpacked(f: Option<Frame>, cap: nat): Option<seq<Byte>>
  {
    if f.None? then None
    else match PiecesMeaning(f.value.pieces, [], cap)
      case None => None
      case Some(out) => if SizeMet(f.value.size, |out|) then Some(out) else None
  }

  // --- Writing and reading are inverse ---

  lemma ReadPieceOf(p: Piece, c: nat, rest: seq<Byte>)
    requires PieceShaped(p, c)
    ensures var s := EncodePiece(p) + rest;
      ReadPiece(s, c) == Some(p) && Word(s) != 0 && s[4 + |p.data| + c..] == rest
  {
    hide Word, To4;
    var s, n := EncodePiece(p) + rest, |p.data| + if p.stored then STORED else 0;
    assert s == To4(n) + (p.data + p.check + rest);
    WordTo4(n, p.data + p.check + rest);
    assert s[4..4 + |p.data|] == p.data && s[4 + |p.data|..4 + |p.data| + c] == p.check;
  }

  lemma {:induction false} ParsePiecesOf(ps: seq<Piece>, c: nat, rest: seq<Byte>)
    requires forall p :: p in ps ==> PieceShaped(p, c)
    ensures ParsePieces(EncodePieces(ps, c) + rest, c) == Pieces(ps, rest)
  {
    hide Word, To4, ReadPiece, EncodePiece;
    var s := EncodePieces(ps, c) + rest;
    if ps == [] {
      WordTo4(0, rest);
      assert s[4..] == rest;
    } else {
      assert PieceShaped(ps[0], c);
      var more := EncodePieces(ps[1..], c) + rest;
      assert s == EncodePiece(ps[0]) + more;
      ReadPieceOf(ps[0], c, more);
      ParsePiecesOf(ps[1..], c, rest);
      assert [ps[0]] + ps[1..] == ps;
    }
  }

  /** A frame begins with the bytes 04 22 4D 18. */
  lemma MagicBytes(f: Frame)
    requires FrameShaped(f)
    ensures EncodeFrame(f)[..4] == [0x04, 0x22, 0x4D, 0x18]
  {
    hide EncodePieces;
    assert EncodeFrame(f)[..4] == To4(MAGIC);
  }

  /** Every frame reads back from its bytes, whatever follows them. */
  lemma ParseEncodeFrame(f: Frame, rest: seq<Byte>)
    requires FrameShaped(f)
    ensures ParseFrame(EncodeFrame(f) + rest) == Some(f)
  {
    hide Word, To4, EncodePieces, ParsePieces;
    var s := EncodeFrame(f) + rest;
    var a, b := 6 + SizeBytes(f.flg), 6 + SizeBytes(f.flg) + DictBytes(f.flg);
    WordTo4(MAGIC, s[4..]);
    assert s == To4(MAGIC) + s[4..];
    assert s[4] == f.flg && s[5] == f.bd && s[6..a] == f.size && s[a..b] == f.dict && s[b] == f.sum;
    assert s[b + 1..] == EncodePieces(f.pieces, CheckBytes(f.flg)) + rest;
    ParsePiecesOf(f.pieces, CheckBytes(f.flg), rest);
  }

  lemma PieceBytes(s: seq<Byte>, c: nat)
    requires |s| >= 4 && Word(s) != 0 && ReadPiece(s, c).Some?
    ensures var p := ReadPiece(s, c).value;
      PieceShaped(p, c) && 4 + |p.data| + c <= |s| && EncodePiece(p) + s[4 + |p.data| + c..] == s
  {
    var p := ReadPiece(s, c).value;
    assert Word(s) == |p.data| + if p.stored then STORED else 0;
    To4Word(s);
    hide Word, To4;
    assert s == s[..4] + p.data + p.check + s[4 + |p.data| + c..];
  }

  lemma {:induction false} PiecesBytes(s: seq<Byte>, c: nat)
    requires ParsePieces(s, c).Pieces?
    ensures forall p :: p in ParsePieces(s, c).list ==> PieceShaped(p, c)
    ensures EncodePieces(ParsePieces(s, c).list, c) + ParsePieces(s, c).rest == s
    decreases |s|
  {
    if Word(s) == 0 {
      To4Word(s);
    } else {
      PieceBytes(s, c);
      var p := ReadPiece(s, c).value;
      hide Word, To4, ReadPiece, EncodePiece;
      PiecesBytes(s[4 + |p.data| + c..], c);
      var more := ParsePieces(s[4 + |p.data| + c..], c);
      assert ([p] + more.list)[1..] == more.list;
    }
  }

  lemma HeaderSplit(s: seq<Byte>, a: nat, b: nat)
    requires 6 <= a <= b < |s|
    ensures s == s[..4] + [s[4], s[5]] + s[6..a] + s[a..b] + [s[b]] + s[b + 1..]
  {
    assert s[..a] == s[..4] + [s[4], s[5]] + s[6..a];
    assert s[..b + 1] == s[..a] + s[a..b] + [s[b]];
  }

  lemma Prefixed(head: seq<Byte>, mid: seq<Byte>, rest: seq<Byte>)
    ensures head + mid <= head + (mid + rest)
  {
    assert head + (mid + rest) == head + mid + rest;
  }

  /** Whatever can be read begins with the writing of what was read. */
  lemma EncodeParseFrame(s: seq<Byte>)
    requires ParseFrame(s).Some?
    ensures FrameShaped(ParseFrame(s).value) && EncodeFrame(ParseFrame(s).value) <= s
  {
    hide Word, To4, EncodePieces, ParsePieces, PieceShaped;
    var f := ParseFrame(s).value;
    var a, b := 6 + SizeBytes(s[4]), 6 + SizeBytes(s[4]) + DictBytes(s[4]);
    To4Word(s);
    PiecesBytes(s[b + 1..], CheckBytes(s[4]));
    HeaderSplit(s, a, b);
    var read := ParsePieces(s[b + 1..], CheckBytes(s[4]));
    Prefixed(s[..4] + [s[4], s[5]] + s[6..a] + s[a..b] + [s[b]], EncodePieces(read.list, CheckBytes(s[4])), read.rest);
  }

  // --- The decoder ---

  ghost function PiecesLeft(p: Pieces, out: seq<Byte>, cap: nat): Option<seq<Byte>>
    requires |out| <= cap
  {
    if p.NoPieces? then None else PiecesMeaning(p.list, out, cap)
  }

  lemma PiecesLeftStep(s: seq<Byte>, c: nat, out: seq<Byte>, cap: nat)
    requires |out| <= cap && |s| >= 4 && Word(s) != 0
    ensures ReadPiece(s, c).None? ==> PiecesLeft(ParsePieces(s, c), out, cap) == None
    ensures ReadPiece(s, c).Some? && PieceMeaning(ReadPiece(s, c).value, out, cap).None? ==>
      PiecesLeft(ParsePieces(s, c), out, cap) == None
    ensures ReadPiece(s, c).Some? ==> 4 + |ReadPiece(s, c).value.data| + c <= |s|
    ensures ReadPiece(s, c).Some? && PieceMeaning(ReadPiece(s, c).value, out, cap).Some? ==>
      var more := PieceMeaning(ReadPiece(s, c).value, out, cap).value;
      |more| <= cap && PiecesLeft(ParsePieces(s, c), out, cap)
        == PiecesLeft(ParsePieces(s[4 + |ReadPiece(s, c).value.data| + c..], c), more, cap)
  {
    hide Word, PieceMeaning;
    if ReadPiece(s, c).Some? {
      var p := ReadPiece(s, c).value;
      if PieceMeaning(p, out, cap).Some? { PieceWithin(p, out, cap); }
      var rest := ParsePieces(s[4 + |p.data| + c..], c);
      if rest.Pieces? { assert ([p] + rest.list)[1..] == rest.list; }
    }
  }

  lemma CheckIgnored(p: Piece, out: seq<Byte>, cap: nat)
    requires |out| <= cap
    ensures PieceMeaning(p, out, cap) == PieceMeaning(Piece(p.stored, p.data, []), out, cap)
  {
  }

  /** Put one piece at the end of what has been written. */
  method DecodePiece(p: Piece, dst: array<Byte>, at: nat) returns (ok: bool, at': nat)
    requires at <= dst.Length
    modifies dst
    ensures ok <==> PieceMeaning(p, old(dst[..at]), dst.Length).Some?
    ensures ok ==> at <= at' <= dst.Length && dst[..at'] == PieceMeaning(p, old(dst[..at]), dst.Length).value
    ensures Outside(dst, at, if ok then at' else dst.Length)
  {
    hide Decoded, Parse;
    ghost var out := dst[..at];
    if p.stored {
      if at + |p.data| > dst.Length { return false, at; }
      CopyBytes(dst, at, p.data);
      at' := at + |p.data|;
      assert dst[..at'] == dst[..at] + dst[at..at'];
      return true, at';
    }
    var wrote;
    ok, wrote := DecodeBlock(p.data, dst, at);
    at' := at;
    if ok {
      at' := at + wrote;
      assert dst[..at'] == dst[..at] + dst[at..at'];
    }
    assert dst[..at] == out;
  }

  method DecodePieces(src: seq<Byte>, start: nat, c: nat, dst: array<Byte>) returns (ok: bool, at: nat)
    requires start <= |src|
    modifies dst
    ensures ok <==> PiecesLeft(ParsePieces(src[start..], c), [], dst.Length).Some?
    ensures ok ==> at <= dst.Length && dst[..at] == PiecesLeft(ParsePieces(src[start..], c), [], dst.Length).value
    ensures ok ==> Outside(dst, 0, at)
  {
    hide PiecesLeft, ParsePieces, PieceMeaning, Word;
    var p := start;
    at, ok := 0, true;
    ghost var goal := PiecesLeft(ParsePieces(src[start..], c), [], dst.Length);
    assert dst[..0] == [];
    while true
      invariant start <= p <= |src| && at <= dst.Length
      invariant PiecesLeft(ParsePieces(src[p..], c), dst[..at], dst.Length) == goal
      invariant Outside(dst, 0, at)
      decreases |src| - p
    {
      ghost var s, out := src[p..], dst[..at];
      PiecesLeftEnds(s, c, out, dst.Length);
      if |src| - p < 4 { return false, at; }
      var blk := Word(src[p..]);
      if blk == 0 { return true, at; }
      PiecesLeftStep(s, c, out, dst.Length);
      var size := blk % STORED;
      if size == 0 || |src| - p - 4 < size { return false, at; }
      var good, next := DecodePiece(Piece(blk >= STORED, src[p + 4..p + 4 + size], []), dst, at);
      assert s[4..4 + size] == src[p + 4..p + 4 + size];
      if ReadPiece(s, c).Some? { CheckIgnored(ReadPiece(s, c).value, out, dst.Length); }
      if !good || |src| - p - 4 - size < c { return false, at; }
      p, at := p + 4 + size + c, next;
      assert s[4 + size + c..] == src[p..];
    }
  }

  lemma PiecesLeftEnds(s: seq<Byte>, c: nat, out: seq<Byte>, cap: nat)
    requires |out| <= cap
    ensures |s| < 4 ==> PiecesLeft(ParsePieces(s, c), out, cap) == None
    ensures |s| >= 4 && Word(s) == 0 ==> PiecesLeft(ParsePieces(s, c), out, cap) == Some(out)
  {
  }

  method DecodeFrame(src: seq<Byte>, dst: array<Byte>) returns (ok: bool, size: nat)
    modifies dst
    ensures ok <==> Unpacked(ParseFrame(src), dst.Length).Some?
    ensures ok ==> size <= dst.Length && dst[..size] == Unpacked(ParseFrame(src), dst.Length).value
    ensures ok ==> Outside(dst, 0, size)
  {
    hide ParsePieces, PiecesMeaning, Word, Quad;
    var content, p := 0, 6;
    if |src| < 7 || Word(src) != MAGIC { return false, 0; }
    var flg := src[4];
    if flg / 64 % 4 != 1 { return false, 0; }
    if flg / 8 % 2 == 1 {
      if |src| - p < 8 { return false, 0; }
      content := Quad(src[p..p + 8]);
      p := p + 8;
    }
    if flg % 2 == 1 {
      if |src| - p < 4 { return false, 0; }
      p := p + 4;
    }
    if |src| - p < 1 { return false, 0; }
    p := p + 1;
    ok, size := DecodePieces(src, p, CheckBytes(flg), dst);
    if ok && content != 0 && size != content { return false, 0; }
  }

  // --- What a written frame decodes to ---

  /** What a frame is made of: bytes as they are, or a block. */
  datatype Part = Raw(data: seq<Byte>) | Packed(block: Block)

  /** The block's offsets stay in its own output and pass the decoder's 32-bit test. */
  ghost predicate Fine(part: Part)
  {
    part.Packed? ==> InRange(part.block, 0, OutLen(part.block)) && OffsetsLow(part.block, 0)
  }

  ghost predicate AllFine(parts: seq<Part>)
  {
    forall part :: part in parts ==> Fine(part)
  }

  ghost function Text(part: Part): seq<Byte>
    requires Fine(part)
  {
    match part case Raw(data) => data case Packed(b) => Meaning(b, [], OutLen(b))
  }

  /** The parts' bytes one after another. */
  ghost function Joined(parts: seq<Part>): seq<Byte>
    requires AllFine(parts)
  {
    if parts == [] then [] else Text(parts[0]) + Joined(parts[1..])
  }

  /** The piece is the part as a frame carries it. */
  ghost predicate Carries(p: Piece, part: Part)
  {
    match part
    case Raw(data) => p.stored && p.data == data
    case Packed(b) => !p.stored && Shaped(b) && p.data == Encode(b)
  }

  ghost predicate AllCarry(ps: seq<Piece>, parts: seq<Part>)
  {
    |ps| == |parts| && forall i :: 0 <= i < |ps| ==> Carries(ps[i], parts[i])
  }

  lemma TextLength(b: Block)
    requires Fine(Packed(b))
    ensures |Text(Packed(b))| == OutLen(b)
  {
    MeaningSame(b, [], OutLen(b), OutLen(b));
  }

  lemma PackedDecoded(b: Block, room: nat)
    requires Shaped(b)
    ensures Decoded(Parse(Encode(b)), [], room) ==
            if Fine(Packed(b)) && OutLen(b) <= room then Some(Text(Packed(b))) else None
  {
    hide Decoded, Parse, Encode, OffsetsLow;
    RoundTrip(b, room);
    RangeExact(b, 0, room);
    if InRange(b, 0, room) { MeaningSame(b, [], room, OutLen(b)); }
  }

  lemma CarriedMeaning(p: Piece, part: Part, out: seq<Byte>, cap: nat)
    requires |out| <= cap && Carries(p, part)
    ensures PieceMeaning(p, out, cap) ==
            if Fine(part) && |out| + |Text(part)| <= cap then Some(out + Text(part)) else None
  {
    hide Decoded, Parse, Encode, Meaning, InRange, OffsetsLow, OutLen, Shaped;
    if part.Packed? {
      PackedDecoded(part.block, cap - |out|);
      if Fine(part) { TextLength(part.block); }
    }
  }

  lemma {:induction false} CarriedPieces(ps: seq<Piece>, parts: seq<Part>, out: seq<Byte>, cap: nat)
    requires |out| <= cap && AllCarry(ps, parts)
    ensures PiecesMeaning(ps, out, cap) ==
            if AllFine(parts) && |out| + |Joined(parts)| <= cap then Some(out + Joined(parts)) else None
  {
    hide PieceMeaning, Text, Fine, Carries;
    if ps == [] {
      assert out + [] == out;
    } else {
      var p, part, rest := ps[0], parts[0], parts[1..];
      CarriedMeaning(p, part, out, cap);
      assert parts == [part] + rest;
      assert AllFine(parts) <==> Fine(part) && AllFine(rest);
      if Fine(part) && |out| + |Text(part)| <= cap {
        CarriedPieces(ps[1..], rest, out + Text(part), cap);
        if AllFine(rest) { assert out + (Text(part) + Joined(rest)) == out + Text(part) + Joined(rest); }
      }
    }
  }

  /** A frame written from parts decodes to their bytes one after another if and only if every
      block is fine, they fit the buffer and they agree with a content size; otherwise it is
      refused. */
  lemma FrameRoundTrip(f: Frame, parts: seq<Part>, rest: seq<Byte>, cap: nat)
    requires FrameShaped(f) && AllCarry(f.pieces, parts)
    ensures Unpacked(ParseFrame(EncodeFrame(f) + rest), cap) ==
            if AllFine(parts) && |Joined(parts)| <= cap && SizeMet(f.size, |Joined(parts)|) then Some(Joined(parts))
            else None
  {
    ParseEncodeFrame(f, rest);
    CarriedPieces(f.pieces, parts, [], cap);
    if AllFine(parts) { assert [] + Joined(parts) == Joined(parts); }
  }

  /** Up to 4 GiB of output, fine means that the offsets stay in the output. */
  lemma SmallFine(b: Block)
    requires Shaped(b) && OutLen(b) <= U32
    ensures Fine(Packed(b)) <==> InRange(b, 0, OutLen(b))
  {
    if InRange(b, 0, OutLen(b)) { SmallLow(b, 0, OutLen(b)); }
  }

  /** The decoder on a frame written from parts. */
  method DecodeWritten(src: seq<Byte>, dst: array<Byte>, ghost f: Frame, ghost parts: seq<Part>, ghost rest: seq<Byte>)
    returns (ok: bool, size: nat)
    requires FrameShaped(f) && AllCarry(f.pieces, parts) && src == EncodeFrame(f) + rest
    modifies dst
    ensures ok <==> AllFine(parts) && |Joined(parts)| <= dst.Length && SizeMet(f.size, |Joined(parts)|)
    ensures ok ==> size == |Joined(parts)| && dst[..size] == Joined(parts)
    ensures ok ==> forall i :: size <= i < dst.Length ==> dst[i] == old(dst[i])
  {
    hide Unpacked, ParseFrame, EncodeFrame, Joined, AllFine;
    FrameRoundTrip(f, parts, rest, dst.Length);
    ok, size := DecodeFrame(src, dst);
  }
}
