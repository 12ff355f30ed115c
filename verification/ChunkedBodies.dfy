/** Which bytes complete a chunked message, and how that compares with section 4.1 of RFC 7230. */
module ChunkedBodies {
  import opened Common
  import opened BodySpec
  import opened Trailers

  /** A chunk as it may come: its size in any digits the table takes, and its data. */
  datatype Piece = Piece(size: string, data: string)

  predicate SizeDigits(s: string) {
    s != [] && forall k :: 0 <= k < |s| ==> Unhex(s[k]) != -1
  }

  /** The size the digits stand for, with v in front of them. */
  function SizeFrom(v: nat, s: string): nat
    decreases |s|
  {
    if s == [] then v else SizeFrom(if Unhex(s[0]) == -1 then v else (v * 16 + Unhex(s[0])) % UINT64, s[1..])
  }

  predicate ProperPiece(x: Piece) {
    SizeDigits(x.size) && SizeFrom(0, x.size) == |x.data| > 0
  }

  function PieceText(x: Piece): string {
    x.size + "\r\n" + x.data + "\r\n"
  }

  function PiecesText(xs: seq<Piece>): string {
    if xs == [] then [] else PieceText(xs[0]) + PiecesText(xs[1..])
  }

  function PiecesData(xs: seq<Piece>): string {
    if xs == [] then [] else xs[0].data + PiecesData(xs[1..])
  }

  function PieceCalls(xs: seq<Piece>): seq<Call> {
    if xs == [] then [] else [NewChunk] + Singles(xs[0].data) + [ChunkComplete] + PieceCalls(xs[1..])
  }

  /** Chunks and the size line of the last one. */
  ghost predicate ChunkHead(xs: seq<Piece>, last: string, s: string) {
    && (forall k :: 0 <= k < |xs| ==> ProperPiece(xs[k]))
    && SizeDigits(last) && SizeFrom(0, last) == 0
    && s == PiecesText(xs) + (last + "\r\n")
  }

  /** Behind the size line of the last chunk. */
  function AfterLast(p: Parser): Parser {
    p.(contentLen := 0, origContentLen := 0, trailing := true, state := HdrlineStart)
  }

  lemma {:induction false} RunDigits(p: Parser, s: string)
    requires p.state.ChunkSize? && Ready(p) && forall k :: 0 <= k < |s| ==> Unhex(s[k]) != -1
    ensures Run(p, s) == Outcome(p.(contentLen := SizeFrom(p.contentLen, s)), [], |s|)
    decreases |s|
  {
    hide Unhex;
    assert Unhex('\r') == -1 by { UnhexCR(); }
    if s != [] {
      RunDigits(p.(contentLen := (p.contentLen * 16 + Unhex(s[0])) % UINT64), s[1..]);
      NoCalls();
    }
  }

  lemma UnhexCR()
    ensures Unhex('\r') == -1
  {
  }

  lemma RunSize(p: Parser, s: string)
    requires p.state.ChunkSizeStart? && Ready(p) && SizeDigits(s)
    ensures Run(p, s) == Outcome(p.(contentLen := SizeFrom(0, s), state := ChunkSize), [], |s|)
  {
    hide Unhex, Run, SizeFrom;
    var q := p.(contentLen := Unhex(s[0]), state := ChunkSize);
    RunOne(p, s[0]);
    RunDigits(q, s[1..]);
    SizeFirst(s);
    assert [s[0]] + s[1..] == s;
    RunBoth(p, [s[0]], q, [], s[1..], q.(contentLen := SizeFrom(q.contentLen, s[1..])), []);
    NoCalls();
  }

  lemma SizeFirst(s: string)
    requires SizeDigits(s)
    ensures SizeFrom(0, s) == SizeFrom(Unhex(s[0]), s[1..])
  {
    hide Unhex;
    UnhexSmall(s[0]);
  }

  lemma UnhexSmall(c: char)
    ensures Unhex(c) < 16
  {
  }

  /** A proper piece is read as its data, and the parser is where it was. */
  lemma RunPiece(p: Parser, x: Piece)
    requires p.state.ChunkSizeStart? && Ready(p) && ProperPiece(x)
    ensures Run(p, PieceText(x)) == Outcome(p.(contentLen := 0, origContentLen := 0),
                                            [NewChunk] + Singles(x.data) + [ChunkComplete], |PieceText(x)|)
  {
    hide Run, Singles, SizeFrom, SizeDigits;
    var n := |x.data|;
    var p1 := p.(contentLen := n, state := ChunkSize);
    var p2 := p1.(origContentLen := n, state := ChunkData);
    var p3 := p2.(contentLen := 0, state := ChunkDataAlmostDone);
    RunSize(p, x.size);
    RunLineEnds(p1);
    RunBoth(p, x.size, p1, [], "\r\n", p2, [NewChunk]);
    RunData(p2, x.data);
    RunBoth(p, x.size + "\r\n", p2, [] + [NewChunk], x.data, p3, Singles(x.data));
    RunLineEnds(p3);
    RunBoth(p, x.size + "\r\n" + x.data, p3, [] + [NewChunk] + Singles(x.data), "\r\n",
            p.(contentLen := 0, origContentLen := 0), [ChunkComplete]);
    assert [] + [NewChunk] == [NewChunk];
  }

  /** Chunk after chunk, and the size of the last one. */
  lemma {:induction false} RunPieces(p: Parser, xs: seq<Piece>, last: string, s: string)
    requires p.state.ChunkSizeStart? && Ready(p) && ChunkHead(xs, last, s)
    ensures Run(p, s) == Outcome(AfterLast(p), PieceCalls(xs) + [ChunksComplete], |s|)
    decreases |xs|
  {
    hide Run, Singles, SizeFrom, SizeDigits, PieceText;
    if xs == [] {
      var p1 := p.(contentLen := 0, state := ChunkSize);
      RunSize(p, last);
      RunLineEnds(p1);
      RunBoth(p, last, p1, [], "\r\n", AfterLast(p), [ChunksComplete]);
      assert s == last + "\r\n";
    } else {
      var rest := PiecesText(xs[1..]) + (last + "\r\n");
      assert s == PieceText(xs[0]) + rest;
      var q := p.(contentLen := 0, origContentLen := 0);
      assert ProperPiece(xs[0]);
      RunPiece(p, xs[0]);
      RunPieces(q, xs[1..], last, rest);
      RunBoth(p, PieceText(xs[0]), q, [NewChunk] + Singles(xs[0].data) + [ChunkComplete], rest,
              AfterLast(p), PieceCalls(xs[1..]) + [ChunksComplete]);
      assert [NewChunk] + Singles(xs[0].data) + [ChunkComplete] + (PieceCalls(xs[1..]) + [ChunksComplete])
          == PieceCalls(xs) + [ChunksComplete];
    }
  }

  // The other way round: what a run that completes the message must have read.

  /** A run that completes examines its first byte and completes from there. */
  lemma FirstByte(p: Parser, s: string)
    requires Going(p) && Completes(p, s)
    ensures s != [] && Completes(Examine(p, s[0]).0, s[1..])
    ensures var q := Examine(p, s[0]).0; Going(q) || q.state.Start?
  {
    hide Examine;
    if s != [] {
      RunStops(Examine(p, s[0]).0, s[1..]);
    }
  }

  /** Inside a size line there must be a line end to come. */
  lemma {:induction false} MustEndSize(p: Parser, s: string) returns (j: nat)
    requires p.state.ChunkSize? && Ready(p) && Completes(p, s)
    ensures j + 2 <= |s| && s[j] == '\r' && s[j + 1] == '\n' && forall k :: 0 <= k < j ==> Unhex(s[k]) != -1
    decreases |s|
  {
    hide Unhex, Run;
    FirstByte(p, s);
    var q := Examine(p, s[0]).0;
    if s[0] == '\r' {
      FirstByte(q, s[1..]);
      j := 0;
    } else {
      var i := MustEndSize(q, s[1..]);
      j := i + 1;
      forall k | 0 <= k < j
        ensures Unhex(s[k]) != -1
      {
        assert k > 0 ==> s[k] == s[1..][k - 1];
      }
    }
  }

  lemma MustBeCRLF(p: Parser, s: string)
    requires p.state.ChunkDataAlmostDone? && Ready(p) && Completes(p, s)
    ensures |s| >= 2 && s[0] == '\r' && s[1] == '\n'
  {
    hide Run;
    FirstByte(p, s);
    FirstByte(Examine(p, s[0]).0, s[1..]);
  }

  lemma MustHaveData(p: Parser, s: string)
    requires p.state.ChunkData? && Ready(p) && p.contentLen > 0 && Completes(p, s)
    ensures |s| > p.contentLen
  {
    hide Run;
    if 0 < |s| <= p.contentLen {
      RunData(p, s);
    } else if s == [] {
      RunStops(p, []);
    }
  }

  /** The first size line of a body that completes. */
  lemma TakeSize(p: Parser, s: string) returns (size: string, rest: string)
    requires p.state.ChunkSizeStart? && Ready(p) && Completes(p, s)
    ensures SizeDigits(size) && s == size + "\r\n" + rest
  {
    hide Run, Unhex;
    FirstByte(p, s);
    var j := MustEndSize(Examine(p, s[0]).0, s[1..]);
    size, rest := s[..j + 1], s[j + 3..];
    forall k | 0 <= k < |size|
      ensures Unhex(size[k]) != -1
    {
      assert k > 0 ==> size[k] == s[1..][k - 1];
    }
    assert s[j + 1] == s[1..][j] && s[j + 2] == s[1..][j + 1];
    assert s == s[..j + 1] + s[j + 1..j + 3] + s[j + 3..];
    assert s[j + 1..j + 3] == "\r\n";
  }

  /** The first chunk of a body that completes, or its last. */
  lemma TakePiece(p: Parser, s: string) returns (size: string, data: string, rest: string)
    requires p.state.ChunkSizeStart? && Ready(p) && Completes(p, s)
    ensures SizeDigits(size) && SizeFrom(0, size) == |data|
    ensures s == size + "\r\n" + (if data == [] then rest else data + "\r\n" + rest)
    ensures data != [] ==> Completes(p.(contentLen := 0, origContentLen := 0), rest)
  {
    hide Run, SizeDigits, SizeFrom;
    var more;
    size, more := TakeSize(p, s);
    var n := SizeFrom(0, size);
    if n == 0 {
      data, rest := [], more;
    } else {
      var p1 := p.(contentLen := n, state := ChunkSize);
      var p2 := p1.(origContentLen := n, state := ChunkData);
      var p3 := p2.(contentLen := 0, state := ChunkDataAlmostDone);
      RunSize(p, size);
      assert size + "\r\n" + more == size + ("\r\n" + more);
      StillCompletes(p, size, "\r\n" + more);
      RunLineEnds(p1);
      StillCompletes(p1, "\r\n", more);
      MustHaveData(p2, more);
      data := more[..n];
      var end := more[n..];
      assert more == data + end;
      RunData(p2, data);
      StillCompletes(p2, data, end);
      MustBeCRLF(p3, end);
      rest := end[2..];
      assert end == "\r\n" + rest;
      RunLineEnds(p3);
      StillCompletes(p3, "\r\n", rest);
    }
  }

  lemma AddPiece(x: Piece, xs: seq<Piece>, last: string, s: string)
    requires ProperPiece(x) && ChunkHead(xs, last, s)
    ensures ChunkHead([x] + xs, last, PieceText(x) + s)
  {
    hide ProperPiece, PieceText, SizeDigits, SizeFrom;
    var ys := [x] + xs;
    assert ys[1..] == xs;
    assert PieceText(x) + (PiecesText(xs) + (last + "\r\n")) == PieceText(x) + PiecesText(xs) + (last + "\r\n");
  }

  lemma Regroup(a: string, b: string, c: string)
    ensures a + (b + c) == a + b + c
  {
  }

  /** Whatever completes the message begins with chunks and the size line of a last one. */
  lemma {:induction false} TakePieces(p: Parser, s: string)
    returns (xs: seq<Piece>, last: string, head: string, rest: string)
    requires p.state.ChunkSizeStart? && Ready(p) && Completes(p, s)
    ensures ChunkHead(xs, last, head) && s == head + rest
    decreases |s|
  {
    hide Run, SizeDigits, SizeFrom, ChunkHead;
    var size, data, more := TakePiece(p, s);
    if data == [] {
      xs, last, head, rest := [], size, size + "\r\n", more;
      LastOnly(size);
    } else {
      var first := Piece(size, data);
      Regroup(size + "\r\n", data + "\r\n", more);
      Regroup(size + "\r\n", data, "\r\n");
      assert s == PieceText(first) + more;
      var tail;
      xs, last, tail, rest := TakePieces(p.(contentLen := 0, origContentLen := 0), more);
      AddPiece(first, xs, last, tail);
      Regroup(PieceText(first), tail, rest);
      xs, head := [first] + xs, PieceText(first) + tail;
    }
  }

  lemma LastOnly(last: string)
    requires SizeDigits(last) && SizeFrom(0, last) == 0
    ensures ChunkHead([], last, last + "\r\n")
  {
    assert PiecesText([]) + (last + "\r\n") == last + "\r\n";
  }

  lemma {:induction false} DataPieces(xs: seq<Piece>)
    ensures Data(PieceCalls(xs)) == PiecesData(xs)
    decreases |xs|
  {
    if xs != [] {
      DataPieces(xs[1..]);
      var x := xs[0].data;
      DataAppend([NewChunk] + Singles(x) + [ChunkComplete], PieceCalls(xs[1..]));
      DataAppend([NewChunk] + Singles(x), [ChunkComplete]);
      DataAppend([NewChunk], Singles(x));
      DataSingles(x);
      assert [NewChunk][1..] == [] && [ChunkComplete][1..] == [];
      hide Singles;
      assert Data([NewChunk]) == [] && Data([ChunkComplete]) == [];
    }
  }

  // ------------------------------------------------------------------------------ whole bodies

  /** Chunks of the sizes announced, a last size of 0, and the lines of a trailer. */
  ghost predicate ChunkedBody(
    kind: HeaderKind, xs: seq<Piece>, last: string, lines: seq<string>, line: string, s: string)
  {
    && ChunkHead(xs, last, PiecesText(xs) + (last + "\r\n"))
    && TrailerFrom(kind, true, [], lines, line)
    && s == PiecesText(xs) + (last + "\r\n") + TrailerText(lines, line)
  }

  lemma PrevUnused(kind: HeaderKind, prev: string, lines: seq<string>, line: string)
    ensures TrailerFrom(kind, true, prev, lines, line) == TrailerFrom(kind, true, [], lines, line)
  {
  }

  /** Such a body is read whole: its chunks one after the other, then what the trailer holds, then
      the message is complete. */
  lemma ReadBody(p: Parser, xs: seq<Piece>, last: string, lines: seq<string>, line: string, s: string)
    returns (silent: seq<Call>)
    requires p.state.ChunkSizeStart? && Ready(p) && ChunkedBody(p.heval, xs, last, lines, line, s)
    ensures Completes(p, s) && Run(p, s).consumed == |s| && Silent(silent)
    ensures Run(p, s).calls == PieceCalls(xs) + [ChunksComplete] + (silent + [MsgComplete])
  {
    hide Run, TrailerFrom, Silent, PieceCalls, PiecesText, ProperPiece;
    var head, t := PiecesText(xs) + (last + "\r\n"), TrailerText(lines, line);
    var q := AfterLast(p);
    RunPieces(p, xs, last, head);
    PrevUnused(p.heval, q.buf, lines, line);
    RunTrailer(q, lines, line);
    silent := TrailerCalls(q, t);
    StillCompletes(p, head, t);
    RunSplit(p, head, t);
  }

  lemma DataSilent(silent: seq<Call>)
    requires Silent(silent)
    ensures Data(silent) == []
  {
    if silent != [] {
      DataSilent(silent[1..]);
    }
  }

  lemma DataBody(xs: seq<Piece>, silent: seq<Call>)
    requires Silent(silent)
    ensures Data(PieceCalls(xs) + [ChunksComplete] + (silent + [MsgComplete])) == PiecesData(xs)
  {
    DataPieces(xs);
    DataSilent(silent);
    DataEnd();
    hide Data, PieceCalls, PiecesData, Silent;
    DataAppend(PieceCalls(xs) + [ChunksComplete], silent + [MsgComplete]);
    DataAppend(PieceCalls(xs), [ChunksComplete]);
    DataAppend(silent, [MsgComplete]);
    assert PiecesData(xs) + [] + ([] + []) == PiecesData(xs);
  }

  lemma DataEnd()
    ensures Data([ChunksComplete]) == [] && Data([MsgComplete]) == []
  {
    assert [ChunksComplete][1..] == [] && [MsgComplete][1..] == [];
  }

  /** The parser completes a message on exactly these bodies, and hands over exactly their data. */
  lemma CompletesIff(p: Parser, s: string)
    requires p.state.ChunkSizeStart? && Ready(p)
    ensures Completes(p, s) && Run(p, s).consumed == |s|
        <==> exists xs, last, lines, line :: ChunkedBody(p.heval, xs, last, lines, line, s)
    ensures forall xs, last, lines, line :: ChunkedBody(p.heval, xs, last, lines, line, s) ==>
              Data(Run(p, s).calls) == PiecesData(xs)
  {
    hide Run, ChunkedBody;
    if Completes(p, s) && Run(p, s).consumed == |s| {
      var xs, last, lines, line := TakeBody(p, s);
    }
    forall xs, last, lines, line | ChunkedBody(p.heval, xs, last, lines, line, s)
      ensures Completes(p, s) && Run(p, s).consumed == |s| && Data(Run(p, s).calls) == PiecesData(xs)
    {
      var silent := ReadBody(p, xs, last, lines, line, s);
      DataBody(xs, silent);
    }
  }

  lemma TakeBody(p: Parser, s: string) returns (xs: seq<Piece>, last: string, lines: seq<string>, line: string)
    requires p.state.ChunkSizeStart? && Ready(p) && Completes(p, s) && Run(p, s).consumed == |s|
    ensures ChunkedBody(p.heval, xs, last, lines, line, s)
  {
    hide Run, TrailerFrom, PieceCalls, PiecesText, ProperPiece;
    var head, t;
    xs, last, head, t := TakePieces(p, s);
    var q := AfterLast(p);
    RunPieces(p, xs, last, head);
    StillCompletes(p, head, t);
    lines, line := TakeTrailer(q, t);
    assert t[..|t|] == t;
    PrevUnused(p.heval, q.buf, lines, line);
  }
}
