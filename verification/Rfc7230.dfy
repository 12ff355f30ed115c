/** Chunked bodies as section 4.1 of RFC 7230 has them, and how htparser_run reads them. */
module Rfc7230 {
  import opened Common
  import opened BodySpec
  import opened Trailers
  import opened ChunkedBodies

  datatype Chunk = Chunk(size: string, ext: string, data: string)

  predicate HexDigits(s: string) {
    s != [] && forall k :: 0 <= k < |s| ==> IsHex(s[k])
  }

  /** The number the digits stand for, with v in front of them. */
  function HexFrom(v: nat, s: string): nat
    decreases |s|
  {
    if s == [] then v else HexFrom(if IsHex(s[0]) then v * 16 + HexValue(s[0]) else v, s[1..])
  }

  predicate Extension(e: string) {
    InLine(e) && (e != [] ==> e[0] == ';')
  }

  predicate ProperChunk(c: Chunk) {
    HexDigits(c.size) && HexFrom(0, c.size) == |c.data| > 0 && Extension(c.ext)
  }

  predicate FieldLine(f: string) {
    InLine(f) && f != [] && f[0] != ':' && ':' in f
  }

  function ChunkText(c: Chunk): string {
    c.size + (c.ext + "\r\n") + c.data + "\r\n"
  }

  function ChunksText(cs: seq<Chunk>): string {
    if cs == [] then [] else ChunkText(cs[0]) + ChunksText(cs[1..])
  }

  function FieldsText(fields: seq<string>): string {
    if fields == [] then [] else fields[0] + "\r\n" + FieldsText(fields[1..])
  }

  /** chunked-body: chunks, the last chunk, the trailer and an empty line. */
  predicate Conforms(cs: seq<Chunk>, last: string, ext: string, fields: seq<string>, s: string) {
    && (forall k :: 0 <= k < |cs| ==> ProperChunk(cs[k]))
    && HexDigits(last) && HexFrom(0, last) == 0 && Extension(ext)
    && (forall k :: 0 <= k < |fields| ==> FieldLine(fields[k]))
    && s == ChunksText(cs) + (last + (ext + "\r\n")) + (FieldsText(fields) + "\r\n")
  }

  // -------------------------------------------------------------------------------- the sizes

  /** Digits as the RFC has them, of a number that 64 bits hold. */
  predicate PlainSize(s: string) {
    (forall k :: 0 <= k < |s| ==> s[k] < 128 as char) && HexFrom(0, s) < UINT64
  }

  lemma WrapDigit(x: nat, c: nat)
    ensures (x % UINT64 * 16 + c) % UINT64 == (x * 16 + c) % UINT64
  {
    var q := x / UINT64;
    assert x * 16 + c == UINT64 * (q * 16) + (x % UINT64 * 16 + c);
    Periodic(q * 16, x % UINT64 * 16 + c);
  }

  /** The source's sizes are those of the RFC modulo 2^64. */
  lemma {:induction false} SizeWraps(v: nat, s: string)
    requires forall k :: 0 <= k < |s| ==> IsHex(s[k])
    ensures SizeFrom(v % UINT64, s) == HexFrom(v, s) % UINT64
    decreases |s|
  {
    if s != [] {
      assert Unhex(s[0]) == HexValue(s[0]);
      WrapDigit(v, HexValue(s[0]));
      SizeWraps(v * 16 + HexValue(s[0]), s[1..]);
    }
  }

  /** Digits are digits to both, but for the bytes from 128 on. */
  lemma DigitsAgree(s: string)
    ensures HexDigits(s) <==> SizeDigits(s) && forall k :: 0 <= k < |s| ==> s[k] < 128 as char
  {
    if HexDigits(s) {
      forall k | 0 <= k < |s|
        ensures s[k] < 128 as char && Unhex(s[k]) != -1
      {
        assert IsHex(s[k]);
      }
    }
    if SizeDigits(s) && forall k :: 0 <= k < |s| ==> s[k] < 128 as char {
      forall k | 0 <= k < |s|
        ensures IsHex(s[k])
      {
        assert Unhex(s[k]) != -1;
      }
    }
  }

  /** A size the source reads as n is one of n by the RFC exactly if it is plain. */
  lemma SizesAgree(s: string, n: nat)
    requires n < UINT64
    ensures SizeDigits(s) && SizeFrom(0, s) == n && PlainSize(s) <==> HexDigits(s) && HexFrom(0, s) == n
  {
    DigitsAgree(s);
    hide SizeFrom, HexFrom, SizeDigits;
    if HexDigits(s) {
      SizeWraps(0, s);
    }
  }

  // ------------------------------------------------------- what the parser reads as a whole

  /** Chunks without extensions. */
  function AsChunks(xs: seq<Piece>): (cs: seq<Chunk>)
    ensures |cs| == |xs| && forall k :: 0 <= k < |xs| ==> cs[k] == Chunk(xs[k].size, [], xs[k].data)
  {
    seq(|xs|, k requires 0 <= k < |xs| => Chunk(xs[k].size, [], xs[k].data))
  }

  lemma {:induction false} SameText(xs: seq<Piece>)
    ensures ChunksText(AsChunks(xs)) == PiecesText(xs)
    decreases |xs|
  {
    if xs != [] {
      SameText(xs[1..]);
      var x := xs[0];
      assert AsChunks(xs)[1..] == AsChunks(xs[1..]);
      assert [] + "\r\n" == "\r\n";
      assert x.size + "\r\n" + x.data + "\r\n" == PieceText(x);
    }
  }

  predicate PlainSizes(xs: seq<Piece>, last: string) {
    PlainSize(last) && forall k :: 0 <= k < |xs| ==> PlainSize(xs[k].size)
  }

  lemma NoTrailer(kind: HeaderKind)
    ensures TrailerFrom(kind, true, [], [], []) && TrailerText([], []) == "\r\n"
    ensures FieldsText([]) + "\r\n" == "\r\n"
  {
    assert LinesText([]) + [] + "\r\n" == "\r\n";
  }

  lemma SamePiece(x: Piece)
    requires |x.data| < UINT64
    ensures ProperPiece(x) && PlainSize(x.size) <==> ProperChunk(Chunk(x.size, [], x.data))
  {
    SizesAgree(x.size, |x.data|);
  }

  /** Of the bodies without a trailer that the source takes, those with plain sizes are the bodies of
      the RFC without extensions and trailer. */
  lemma PlainIsRfc(kind: HeaderKind, xs: seq<Piece>, last: string, s: string)
    requires forall k :: 0 <= k < |xs| ==> |xs[k].data| < UINT64
    ensures ChunkedBody(kind, xs, last, [], [], s) && PlainSizes(xs, last)
        <==> Conforms(AsChunks(xs), last, [], [], s)
  {
    var cs := AsChunks(xs);
    forall k | 0 <= k < |xs|
      ensures ProperPiece(xs[k]) && PlainSize(xs[k].size) <==> ProperChunk(cs[k])
    {
      SamePiece(xs[k]);
    }
    SizesAgree(last, 0);
    SameText(xs);
    NoTrailer(kind);
    hide ProperPiece, ProperChunk, PlainSize, ChunksText, PiecesText, HexDigits, SizeDigits, HexFrom, SizeFrom,
      TrailerFrom;
    assert last + ([] + "\r\n") == last + "\r\n";
  }

  predicate NoExtensions(cs: seq<Chunk>, ext: string) {
    ext == [] && forall k :: 0 <= k < |cs| ==> cs[k].ext == []
  }

  predicate Short(cs: seq<Chunk>) {
    forall k :: 0 <= k < |cs| ==> |cs[k].data| < UINT64
  }

  function AsPieces(cs: seq<Chunk>): (xs: seq<Piece>)
    ensures |xs| == |cs| && forall k :: 0 <= k < |xs| ==> xs[k] == Piece(cs[k].size, cs[k].data)
  {
    seq(|cs|, k requires 0 <= k < |cs| => Piece(cs[k].size, cs[k].data))
  }

  /** Behind the digits of a size only CR is taken. */
  lemma ExtensionStops(p: Parser, size: string, more: string)
    requires p.state.ChunkSizeStart? && Ready(p) && HexDigits(size) && more != [] && more[0] == ';'
    ensures !Completes(p, size + more)
  {
    DigitsAgree(size);
    RunSize(p, size);
    StillCompletes(p, size, more);
    var q := p.(contentLen := SizeFrom(0, size), state := ChunkSize);
    assert !Examine(q, ';').0.error.NoError?;
    RunStops(Examine(q, ';').0, more[1..]);
  }

  lemma SkipChunk(p: Parser, c: Chunk, more: string)
    requires p.state.ChunkSizeStart? && Ready(p) && ProperChunk(c) && c.ext == [] && |c.data| < UINT64
    ensures Completes(p, ChunkText(c) + more) == Completes(p.(contentLen := 0, origContentLen := 0), more)
  {
    var x := Piece(c.size, c.data);
    SamePiece(x);
    assert [] + "\r\n" == "\r\n";
    assert ChunkText(c) == PieceText(x);
    RunPiece(p, x);
    StillCompletes(p, PieceText(x), more);
  }

  lemma FirstChunk(c: Chunk, cs: seq<Chunk>, x: string, y: string)
    ensures ChunksText([c] + cs) + x + y == ChunkText(c) + (ChunksText(cs) + x + y)
    ensures ChunkText(c) + x == c.size + (c.ext + "\r\n" + c.data + "\r\n" + x)
  {
    hide ChunkText;
    assert ([c] + cs)[1..] == cs;
    assert ChunksText([c] + cs) == ChunkText(c) + ChunksText(cs);
    assert ChunkText(c) + ChunksText(cs) + x + y == ChunkText(c) + (ChunksText(cs) + x + y);
    OneChunk(c, x);
  }

  lemma OneChunk(c: Chunk, x: string)
    ensures ChunkText(c) + x == c.size + (c.ext + "\r\n" + c.data + "\r\n" + x)
  {
  }

  /** A chunk extension anywhere is an error. */
  lemma {:induction false} ExtensionFails(
    p: Parser, cs: seq<Chunk>, last: string, ext: string, fields: seq<string>, s: string)
    requires p.state.ChunkSizeStart? && Ready(p) && Conforms(cs, last, ext, fields, s) && Short(cs)
    requires !NoExtensions(cs, ext)
    ensures !Completes(p, s)
    decreases |cs|
  {
    hide Completes, ChunkText, HexFrom, HexDigits, ProperChunk, FieldLine, InLine;
    var x, y := last + (ext + "\r\n"), FieldsText(fields) + "\r\n";
    if cs == [] {
      assert s == last + (ext + "\r\n" + y);
      ExtensionStops(p, last, ext + "\r\n" + y);
    } else {
      var c, more := cs[0], cs[1..];
      assert ProperChunk(c) && cs == [c] + more;
      var rest := ChunksText(more) + x + y;
      FirstChunk(c, more, x, y);
      OneChunk(c, rest);
      assert s == ChunkText(c) + rest;
      if c.ext != [] {
        ChunkParts(c);
        ExtensionStops(p, c.size, c.ext + "\r\n" + c.data + "\r\n" + rest);
      } else {
        SkipChunk(p, c, rest);
        ExtensionFails(p.(contentLen := 0, origContentLen := 0), more, last, ext, fields, rest);
      }
    }
  }

  lemma ChunkParts(c: Chunk)
    requires ProperChunk(c)
    ensures HexDigits(c.size) && (c.ext != [] ==> c.ext[0] == ';')
  {
  }

  /** Without extensions the run reaches the trailer. */
  lemma ReachTrailer(p: Parser, cs: seq<Chunk>, last: string, fields: seq<string>, s: string)
    returns (head: string)
    requires p.state.ChunkSizeStart? && Ready(p) && Conforms(cs, last, [], fields, s) && Short(cs)
    requires NoExtensions(cs, [])
    ensures var t := FieldsText(fields) + "\r\n";
      && s == head + t && Completes(p, s) == Completes(AfterLast(p), t)
      && Run(p, s).consumed == |head| + Run(AfterLast(p), t).consumed
  {
    var xs := AsPieces(cs);
    assert AsChunks(xs) == cs;
    SameText(xs);
    SizesAgree(last, 0);
    forall k | 0 <= k < |xs|
      ensures ProperPiece(xs[k])
    {
      assert ProperChunk(cs[k]);
      SamePiece(xs[k]);
    }
    hide ProperPiece, ProperChunk, ChunksText, PiecesText, HexDigits, SizeDigits, HexFrom, SizeFrom, FieldLine, Run,
      Completes;
    head := PiecesText(xs) + (last + "\r\n");
    assert [] + "\r\n" == "\r\n";
    RunPieces(p, xs, last, head);
    StillCompletes(p, head, FieldsText(fields) + "\r\n");
  }

  /** With a trailer the message is complete, if at all, behind the first of its lines. */
  lemma FirstFieldEnds(p: Parser, cs: seq<Chunk>, last: string, fields: seq<string>, s: string)
    requires p.state.ChunkSizeStart? && Ready(p) && Conforms(cs, last, [], fields, s) && Short(cs)
    requires NoExtensions(cs, []) && fields != []
    ensures Completes(p, s) <==> LastLine(p.heval, true, [], fields[0])
    ensures Completes(p, s) ==> s[Run(p, s).consumed..] == FieldsText(fields[1..]) + "\r\n"
  {
    var head := ReachTrailer(p, cs, last, fields, s);
    var f, rest := fields[0], FieldsText(fields[1..]) + "\r\n";
    var q := AfterLast(p);
    assert FieldLine(f);
    PrevUnused(p.heval, p.buf, [], f);
    FirstPrev(p.heval, p.buf, f);
    hide Completes, LastLine, Run, FieldLine, Conforms;
    LastLineEnds(q, f);
    assert FieldsText(fields) + "\r\n" == f + "\r\n" + rest;
    StillCompletes(q, f + "\r\n", rest);
    EndsHere(Run(q, f + "\r\n").parser, rest);
    assert s == head + (f + "\r\n") + rest;
  }

  lemma FirstPrev(kind: HeaderKind, prev: string, line: string)
    ensures LastLine(kind, true, prev, line) == LastLine(kind, true, [], line)
  {
  }

  lemma EndsHere(p: Parser, s: string)
    requires !Going(p)
    ensures Completes(p, s) == (p.state.Start? && p.error.NoError?) && Run(p, s).consumed == 0
    ensures Completes(p, s) == Completes(p, [])
  {
  }

  /** A body as the RFC has it is read whole exactly if it has no extensions and no trailer. */
  lemma ReadWholeIff(p: Parser, cs: seq<Chunk>, last: string, ext: string, fields: seq<string>, s: string)
    requires p.state.ChunkSizeStart? && Ready(p) && Conforms(cs, last, ext, fields, s) && Short(cs)
    ensures Completes(p, s) && Run(p, s).consumed == |s| <==> NoExtensions(cs, ext) && fields == []
    ensures NoExtensions(cs, ext) && fields == [] ==> Data(Run(p, s).calls) == PiecesData(AsPieces(cs))
  {
    hide Completes, Run, PiecesData;
    if !NoExtensions(cs, ext) {
      ExtensionFails(p, cs, last, ext, fields, s);
    } else if fields != [] {
      FirstFieldEnds(p, cs, last, fields, s);
    } else {
      assert AsChunks(AsPieces(cs)) == cs;
      PlainIsRfc(p.heval, AsPieces(cs), last, s);
      hide Conforms, ChunkedBody;
      CompletesIff(p, s);
    }
  }

  // ------------------------------------------------------------------------------ and the rest

  /** A byte from 128 on as a size: the source reads 0 and completes the message; by the RFC this is
      no chunked body. */
  lemma HighByteTaken(kind: HeaderKind)
    ensures var last := [128 as char]; var s := last + "\r\n" + "\r\n";
      && ChunkedBody(kind, [], last, [], [], s)
      && forall cs, size, ext, fields :: !Conforms(cs, size, ext, fields, s)
  {
    var last := [128 as char];
    var s := last + "\r\n" + "\r\n";
    NoTrailer(kind);
    assert SizeFrom(0, last) == 0;
    assert PiecesText([]) + (last + "\r\n") == last + "\r\n";
    forall cs, size, ext, fields
      ensures !Conforms(cs, size, ext, fields, s)
    {
      if Conforms(cs, size, ext, fields, s) {
        FirstIsHex(cs, size, ext, fields, s);
      }
    }
  }

  lemma FirstIsHex(cs: seq<Chunk>, last: string, ext: string, fields: seq<string>, s: string)
    requires Conforms(cs, last, ext, fields, s)
    ensures s != [] && IsHex(s[0])
  {
    hide FieldsText, FieldLine, HexFrom, InLine;
    if cs == [] {
      assert s[0] == last[0];
    } else {
      assert ProperChunk(cs[0]);
      assert ChunkText(cs[0])[0] == cs[0].size[0];
    }
  }

  /** A one and sixteen zeros: 2^64, which the source reads as 0. */
  const WRAPPED: string := "1" + ("0000" + ("0000" + ("0000" + ("0000" + []))))

  lemma WrappedSizeTaken(kind: HeaderKind)
    ensures var s := WRAPPED + "\r\n" + "\r\n";
      ChunkedBody(kind, [], WRAPPED, [], [], s) && !Conforms([], WRAPPED, [], [], s)
    ensures HexDigits(WRAPPED) && HexFrom(0, WRAPPED) == UINT64
  {
    SizesWrap();
    NoTrailer(kind);
    hide HexFrom, SizeFrom, TrailerFrom, SizeDigits;
    assert PiecesText([]) + (WRAPPED + "\r\n") == WRAPPED + "\r\n";
  }

  lemma FourZeros(v: nat, s: string)
    ensures HexFrom(v, "0000" + s) == HexFrom(v * 0x1_0000, s)
  {
    var t1, t2, t3 := "000" + s, "00" + s, "0" + s;
    assert ("0000" + s)[1..] == t1 && t1[1..] == t2 && t2[1..] == t3 && t3[1..] == s;
    assert HexFrom(v, "0000" + s) == HexFrom(v * 16, t1);
    assert HexFrom(v * 16, t1) == HexFrom(v * 256, t2);
    assert HexFrom(v * 256, t2) == HexFrom(v * 4096, t3);
  }

  lemma NoMoreDigits(v: nat, s: string)
    ensures HexFrom(0, "1" + s) == HexFrom(1, s) && HexFrom(v, []) == v
  {
    assert ("1" + s)[1..] == s;
  }

  lemma WrappedValue()
    ensures HexFrom(0, WRAPPED) == UINT64
  {
    hide HexFrom;
    NoMoreDigits(UINT64, "0000" + ("0000" + ("0000" + ("0000" + []))));
    FourZeros(1, "0000" + ("0000" + ("0000" + [])));
    FourZeros(0x1_0000, "0000" + ("0000" + []));
    FourZeros(0x1_0000_0000, "0000" + []);
    FourZeros(0x1_0000_0000_0000, []);
  }

  lemma SizesWrap()
    ensures SizeDigits(WRAPPED) && HexDigits(WRAPPED)
    ensures HexFrom(0, WRAPPED) == UINT64 && SizeFrom(0, WRAPPED) == 0
  {
    WrappedValue();
    hide HexFrom, SizeFrom;
    DigitsAgree(WRAPPED);
    SizeWraps(0, WRAPPED);
  }
}
