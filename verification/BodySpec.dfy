/** What htparser_run does with header lines, a message body and its trailers, byte by byte, and what
    that gives for the bodies the chunk senders of evhtp write. Every hook returns 0. A char is one
    byte. */
module BodySpec {
  import opened Common

  datatype State =
    | Start
    | BodyRead
    | ChunkSizeStart
    | ChunkSize
    | ChunkSizeAlmostDone
    | ChunkData
    | ChunkDataAlmostDone
    | ChunkDataDone
    | HdrlineStart
    | HdrKey
    | HdrSpaceBeforeVal
    | HdrVal
    | HdrAlmostDone
    | HdrDone
    | HdrlineAlmostDone

  datatype Error = NoError | TooBig | InvalidChunkSize | InvalidChunk | InvalidHeader

  /** The headers whose values the parser itself looks at, as far as they matter here. */
  datatype HeaderKind = Plain | Hostname | ContentLength | TransferEncoding

  datatype Parser = Parser(
    state: State,
    error: Error,
    trailing: bool,
    chunked: bool,
    contentLen: nat,
    origContentLen: nat,
    heval: HeaderKind,
    buf: string)

  /** The hooks, with the bytes they are given. */
  datatype Call =
    | HeaderKey(s: string)
    | HeaderVal(s: string)
    | HostName(s: string)
    | HeadersComplete
    | Body(s: string)
    | NewChunk
    | ChunkComplete
    | ChunksComplete
    | MsgComplete

  const UINT64: nat := 0x1_0000_0000_0000_0000
  const STACK_MAX: nat := 8192

  predicate Full(p: Parser) {
    |p.buf| >= STACK_MAX
  }

  predicate Ready(p: Parser) {
    p.error.NoError? && !Full(p)
  }

  /** The states of a header line. */
  predicate InHeader(s: State) {
    s.HdrlineStart? || s.HdrKey? || s.HdrSpaceBeforeVal? || s.HdrVal? || s.HdrAlmostDone? || s.HdrDone?
    || s.HdrlineAlmostDone?
  }

  /** The table of hexadecimal digits. Its second half was never filled in, so it holds zeros. */
  function Unhex(ch: char): (v: int)
    ensures -1 <= v < 16
  {
    if ch < 128 as char then HexValue(ch) else 0
  }

  lemma WrapOnce(x: nat, c: nat)
    ensures (x % UINT64 + c) % UINT64 == (x + c) % UINT64
  {
    var q := x / UINT64;
    assert x + c == UINT64 * q + (x % UINT64 + c);
    Periodic(q, x % UINT64 + c);
  }

  lemma {:induction false} Periodic(q: nat, r: nat)
    ensures (UINT64 * q + r) % UINT64 == r % UINT64
  {
    if q > 0 {
      Periodic(q - 1, r);
      assert UINT64 * q + r == (UINT64 * (q - 1) + r) + UINT64;
    }
  }

  function Lower(c: char): char {
    if 'A' <= c <= 'Z' then c + 32 as char else c
  }

  /** The comparison strcasecmp makes. */
  predicate SameLetters(x: string, y: string) {
    |x| == |y| && forall k :: 0 <= k < |x| ==> Lower(x[k]) == Lower(y[k])
  }

  function KindOf(key: string): HeaderKind {
    if SameLetters(key, "host") then Hostname
    else if SameLetters(key, "content-length") then ContentLength
    else if SameLetters(key, "transfer-encoding") then TransferEncoding
    else Plain
  }

  /** The digits of a Content-Length, on from value: the test for overflow misses some. */
  function Uint64From(value: nat, s: string): (r: Option<nat>)
    ensures r.Some? ==> r.value < UINT64 || r.value == value
    decreases |s|
  {
    if s == [] then Some(value)
    else if !IsDigit(s[0]) then None
    else
      var check := (value * 10 + DigitValue(s[0])) % UINT64;
      if value > 0 && check <= value then None else Uint64From(check, s[1..])
  }

  function StrToUint64(s: string): Option<nat> {
    if |s| > 20 then None else Uint64From(0, s)
  }

  /** The CR behind a header's value. */
  function EndValue(p: Parser): (Parser, seq<Call>) {
    match p.heval
    case Plain => (p.(state := HdrAlmostDone), [])
    case Hostname => (p.(state := HdrAlmostDone), [HostName(p.buf)])
    case ContentLength =>
      if StrToUint64(p.buf).None? then (p.(contentLen := 0, origContentLen := 0, error := TooBig), [])
      else
        var n := StrToUint64(p.buf).value;
        (p.(contentLen := n, origContentLen := n, state := HdrAlmostDone), [])
    case TransferEncoding =>
      var chunked := p.buf == "chunked" || p.buf == "Chunked";
      (p.(chunked := p.chunked || chunked, state := HdrAlmostDone), [])
  }

  /** The empty line behind the headers. */
  function EndHeaders(p: Parser): (Parser, seq<Call>) {
    if p.trailing then (p.(state := Start), [MsgComplete])
    else if p.chunked then (p.(state := ChunkSizeStart), [])
    else if p.contentLen > 0 then (p.(state := BodyRead), [])
    else (p.(state := Start), [MsgComplete])
  }

  /** One byte of a header line. A CR right behind the colon makes the value a single space and is
      looked at again as its end. */
  function ExamineHeader(p: Parser, ch: char): (Parser, seq<Call>)
    requires InHeader(p.state)
  {
    match p.state
    case HdrlineStart =>
      if ch == '\r' then (p.(buf := [], state := HdrAlmostDone), [])
      else if ch == '\n' then (p.(buf := [], state := HdrDone), [])
      else (p.(buf := [ch], state := HdrKey), [])
    case HdrKey =>
      if ch == ':' then (p.(heval := KindOf(p.buf), buf := [], state := HdrSpaceBeforeVal), [HeaderKey(p.buf)])
      else if ch == '\r' then (p.(state := HdrAlmostDone), [])
      else if ch == '\n' then (p.(state := HdrDone), [])
      else (p.(buf := p.buf + [ch]), [])
    case HdrSpaceBeforeVal =>
      if ch == ' ' then (p, [])
      else if ch == '\r' then
        var q := p.(buf := p.buf + " ", state := HdrVal);
        if Full(q) then (q.(error := TooBig), []) else EndValue(q)
      else if ch == '\n' then (p.(error := InvalidHeader), [])
      else (p.(buf := p.buf + [ch], state := HdrVal), [])
    case HdrVal =>
      if ch == '\r' then EndValue(p)
      else if ch == '\n' then (p.(error := InvalidHeader), [])
      else (p.(buf := p.buf + [ch]), [])
    case HdrAlmostDone =>
      if ch != '\n' then (p.(error := InvalidHeader), [])
      else if p.trailing then (p.(state := Start), [MsgComplete])
      else (p.(state := HdrDone), [])
    case HdrDone =>
      if ch == '\r' then (p.(state := HdrlineAlmostDone), [HeaderVal(p.buf), HeadersComplete])
      else if ch == '\n' then (p.(error := InvalidHeader), [])
      else if ch == '\t' then (p.(state := HdrVal), [])
      else (p.(buf := [ch], state := HdrKey), [HeaderVal(p.buf)])
    case HdrlineAlmostDone =>
      if ch != '\n' then (p.(error := InvalidHeader), []) else EndHeaders(p.(buf := []))
  }

  /** One byte of a body. */
  function ExamineBody(p: Parser, ch: char): (Parser, seq<Call>)
    requires !p.state.Start? && !InHeader(p.state)
  {
    match p.state
    case ChunkSizeStart =>
      if Unhex(ch) == -1 then (p.(error := InvalidChunkSize), [])
      else (p.(contentLen := Unhex(ch), state := ChunkSize), [])
    case ChunkSize =>
      if ch == '\r' then (p.(state := ChunkSizeAlmostDone), [])
      else if Unhex(ch) == -1 then (p.(error := InvalidChunkSize), [])
      else (p.(contentLen := (p.contentLen * 16 + Unhex(ch)) % UINT64), [])
    case ChunkSizeAlmostDone =>
      if ch != '\n' then (p.(error := InvalidChunkSize), [])
      else if p.contentLen == 0 then
        (p.(origContentLen := 0, trailing := true, state := HdrlineStart), [ChunksComplete])
      else (p.(origContentLen := p.contentLen, state := ChunkData), [NewChunk])
    case ChunkData =>
      if p.contentLen <= 1 then
        (p.(contentLen := 0, state := ChunkDataAlmostDone), if p.contentLen == 1 then [Body([ch])] else [])
      else (p.(contentLen := p.contentLen - 1), [Body([ch])])
    case ChunkDataAlmostDone =>
      if ch != '\r' then (p.(error := InvalidChunk), []) else (p.(state := ChunkDataDone), [])
    case ChunkDataDone =>
      if ch != '\n' then (p.(error := InvalidChunk), [])
      else (p.(origContentLen := 0, state := ChunkSizeStart), [ChunkComplete])
    case BodyRead =>
      if p.contentLen == 0 then (p.(state := Start), [MsgComplete])
      else if p.contentLen == 1 then (p.(contentLen := 0, state := Start), [Body([ch]), MsgComplete])
      else (p.(contentLen := p.contentLen - 1), [Body([ch])])
  }

  function Examine(p: Parser, ch: char): (Parser, seq<Call>)
    requires !p.state.Start?
  {
    if Full(p) then (p.(error := TooBig), [])
    else if InHeader(p.state) then ExamineHeader(p, ch)
    else ExamineBody(p, ch)
  }

  /** The parser goes on with the next byte. */
  predicate Going(p: Parser) {
    !p.state.Start? && p.error.NoError?
  }

  datatype Outcome = Outcome(parser: Parser, calls: seq<Call>, consumed: nat)

  /** Byte by byte, until the body ends or an error is met. */
  function Run(p: Parser, s: string): (o: Outcome)
    ensures o.consumed <= |s|
    decreases |s|
  {
    if s == [] || !Going(p) then Outcome(p, [], 0)
    else
      var (q, calls) := Examine(p, s[0]);
      var o := Run(q, s[1..]);
      Outcome(o.parser, calls + o.calls, 1 + o.consumed)
  }

  /** Going on from an outcome. */
  function Then(o: Outcome, s: string): Outcome {
    var next := Run(o.parser, s);
    Outcome(next.parser, o.calls + next.calls, o.consumed + next.consumed)
  }

  /** A run may be cut anywhere. */
  lemma {:induction false} RunSplit(p: Parser, s: string, t: string)
    ensures Run(p, s + t) == Then(Run(p, s), t)
    decreases |s|
  {
    hide Examine;
    if s == [] {
      assert s + t == t;
      assert [] + Run(p, t).calls == Run(p, t).calls;
    } else if Going(p) {
      var (q, calls) := Examine(p, s[0]);
      RunSplit(q, s[1..], t);
      assert (s + t)[1..] == s[1..] + t;
      var more, rest := Run(q, s[1..]).calls, Run(Run(q, s[1..]).parser, t).calls;
      assert calls + (more + rest) == calls + more + rest;
    } else {
      assert [] + Run(p, t).calls == [];
    }
  }

  // ----------------------------------------------------------------------- body data in slices

  function Singles(s: string): (calls: seq<Call>)
    ensures |calls| == |s|
  {
    seq(|s|, k requires 0 <= k < |s| => Body([s[k]]))
  }

  /** The same calls with the body handed over one byte at a time. */
  function Expand(calls: seq<Call>): seq<Call> {
    if calls == [] then [] else Expanded(calls[0]) + Expand(calls[1..])
  }

  function Expanded(c: Call): seq<Call> {
    if c.Body? then Singles(c.s) else [c]
  }

  /** All the bytes handed to the body hook. */
  function Data(calls: seq<Call>): string {
    if calls == [] then [] else (if calls[0].Body? then calls[0].s else []) + Data(calls[1..])
  }

  lemma {:induction false} ExpandAppend(x: seq<Call>, y: seq<Call>)
    ensures Expand(x + y) == Expand(x) + Expand(y)
  {
    hide Expanded;
    if x == [] {
      assert x + y == y;
    } else {
      ExpandAppend(x[1..], y);
      assert (x + y)[1..] == x[1..] + y;
      assert Expanded(x[0]) + (Expand(x[1..]) + Expand(y)) == Expanded(x[0]) + Expand(x[1..]) + Expand(y);
    }
  }

  lemma {:induction false} DataAppend(x: seq<Call>, y: seq<Call>)
    ensures Data(x + y) == Data(x) + Data(y)
  {
    if x == [] {
      assert x + y == y;
    } else {
      DataAppend(x[1..], y);
      assert (x + y)[1..] == x[1..] + y;
    }
  }

  lemma {:induction false} DataSingles(s: string)
    ensures Data(Singles(s)) == s
  {
    if s != [] {
      assert Singles(s)[1..] == Singles(s[1..]);
      DataSingles(s[1..]);
    }
  }

  /** Slicing the body does not change what it amounts to. */
  lemma {:induction false} ExpandKeepsData(calls: seq<Call>)
    ensures Data(Expand(calls)) == Data(calls)
  {
    if calls != [] {
      ExpandKeepsData(calls[1..]);
      DataAppend(Expanded(calls[0]), Expand(calls[1..]));
      if calls[0].Body? {
        DataSingles(calls[0].s);
      } else {
        assert calls[0..1][1..] == [];
        assert Data([calls[0]]) == [] + Data([]);
      }
    }
  }

  /** A stretch of chunk data: counted down, and handed over. */
  lemma {:induction false} RunData(p: Parser, s: string)
    requires p.state.ChunkData? && Ready(p) && 0 < |s| <= p.contentLen
    ensures Run(p, s) == Outcome(p.(contentLen := p.contentLen - |s|,
                                    state := if |s| == p.contentLen then ChunkDataAlmostDone else ChunkData),
                                 Singles(s), |s|)
    decreases |s|
  {
    if |s| == 1 {
      assert s == [s[0]] && s[1..] == [];
      assert Singles(s) == [Body([s[0]])] + [];
    } else {
      RunData(p.(contentLen := p.contentLen - 1), s[1..]);
      assert Singles(s) == [Body([s[0]])] + Singles(s[1..]);
    }
  }

  /** A stretch of a body of known length. */
  lemma {:induction false} RunFixed(p: Parser, s: string)
    requires p.state.BodyRead? && Ready(p) && 0 < |s| <= p.contentLen
    ensures Run(p, s) == Outcome(p.(contentLen := p.contentLen - |s|,
                                    state := if |s| == p.contentLen then Start else BodyRead),
                                 Singles(s) + (if |s| == p.contentLen then [MsgComplete] else []), |s|)
    decreases |s|
  {
    if |s| == 1 {
      assert s == [s[0]] && s[1..] == [];
      assert Singles(s) == [Body([s[0]])];
    } else {
      RunFixed(p.(contentLen := p.contentLen - 1), s[1..]);
      assert Singles(s) == [Body([s[0]])] + Singles(s[1..]);
    }
  }

  // ------------------------------------------------------------------------------ the encoder

  /** The text printf writes for %x. */
  function Hex(n: nat): (s: string)
    ensures s != []
  {
    if n < 16 then [HexDigit(n)] else Hex(n / 16) + [HexDigit(n % 16)]
  }

  /** One chunk on the wire; its length is printed as an unsigned int. An empty one is not sent. */
  function Chunk(s: string): string {
    if s == [] then [] else Hex(|s| % 0x1_0000_0000) + "\r\n" + s + "\r\n"
  }

  function Chunks(chunks: seq<string>): string {
    if chunks == [] then [] else Chunk(chunks[0]) + Chunks(chunks[1..])
  }

  const LAST := "0\r\n\r\n"

  function ChunkCalls(chunks: seq<string>): seq<Call> {
    if chunks == [] then []
    else (if chunks[0] == [] then [] else [NewChunk] + Singles(chunks[0]) + [ChunkComplete]) + ChunkCalls(chunks[1..])
  }

  lemma RunOne(p: Parser, ch: char)
    requires Going(p)
    ensures Run(p, [ch]) == Outcome(Examine(p, ch).0, Examine(p, ch).1, 1)
  {
    assert [ch][1..] == [];
    assert Examine(p, ch).1 + [] == Examine(p, ch).1;
  }

  /** Two stretches, each consumed whole. */
  lemma RunBoth(p: Parser, s: string, q: Parser, c: seq<Call>, t: string, r: Parser, d: seq<Call>)
    requires Run(p, s) == Outcome(q, c, |s|) && Run(q, t) == Outcome(r, d, |t|)
    ensures Run(p, s + t) == Outcome(r, c + d, |s + t|)
  {
    hide Run;
    RunSplit(p, s, t);
  }

  lemma HexDigitReads(d: nat)
    requires d < 16
    ensures Unhex(HexDigit(d)) == d && HexDigit(d) != '\r'
  {
  }

  lemma {:induction false} RunHex(p: Parser, n: nat)
    requires p.state.ChunkSizeStart? && Ready(p) && n < UINT64
    ensures Run(p, Hex(n)) == Outcome(p.(contentLen := n, state := ChunkSize), [], |Hex(n)|)
    decreases n
  {
    HexDigitReads(if n < 16 then n else n % 16);
    hide Unhex, HexDigit, Run;
    if n < 16 {
      RunOne(p, HexDigit(n));
    } else {
      var high, low := p.(contentLen := n / 16, state := ChunkSize), HexDigit(n % 16);
      RunHex(p, n / 16);
      RunOne(high, low);
      assert n / 16 * 16 + n % 16 == n;
      RunBoth(p, Hex(n / 16), high, [], [low], p.(contentLen := n, state := ChunkSize), []);
    }
  }

  lemma RunTwo(p: Parser, x: char, y: char)
    requires Going(p) && Going(Examine(p, x).0)
    ensures var q := Examine(p, x).0;
      Run(p, [x, y]) == Outcome(Examine(q, y).0, Examine(p, x).1 + Examine(q, y).1, 2)
  {
    var q := Examine(p, x).0;
    hide Examine, Run;
    RunOne(p, x);
    RunOne(q, y);
    RunBoth(p, [x], q, Examine(p, x).1, [y], Examine(q, y).0, Examine(q, y).1);
    assert [x] + [y] == [x, y];
  }

  /** The ends of the three kinds of line. */
  lemma RunLineEnds(p: Parser)
    requires Ready(p)
    ensures p.state.ChunkSize? && p.contentLen > 0 ==>
              Run(p, "\r\n") == Outcome(p.(origContentLen := p.contentLen, state := ChunkData), [NewChunk], 2)
    ensures p.state.ChunkSize? && p.contentLen == 0 ==>
              Run(p, "\r\n")
              == Outcome(p.(origContentLen := 0, trailing := true, state := HdrlineStart), [ChunksComplete], 2)
    ensures p.state.ChunkDataAlmostDone? ==>
              Run(p, "\r\n") == Outcome(p.(origContentLen := 0, state := ChunkSizeStart), [ChunkComplete], 2)
    ensures p.state.HdrlineStart? && p.trailing ==>
              Run(p, "\r\n") == Outcome(p.(buf := [], state := Start), [MsgComplete], 2)
  {
    hide Run;
    if p.state.ChunkSize? || p.state.ChunkDataAlmostDone? || (p.state.HdrlineStart? && p.trailing) {
      RunTwo(p, '\r', '\n');
      assert "\r\n" == ['\r', '\n'];
    }
  }

  /** One chunk is read back whole, and the parser is where it was. */
  lemma RunChunk(p: Parser, s: string)
    requires p.state.ChunkSizeStart? && Ready(p) && 0 < |s| < 0x1_0000_0000
    ensures Run(p, Chunk(s)) == Outcome(p.(contentLen := 0, origContentLen := 0),
                                        [NewChunk] + Singles(s) + [ChunkComplete], |Chunk(s)|)
  {
    hide Run, Hex, Singles;
    var n := |s|;
    assert n % 0x1_0000_0000 == n;
    var p1 := p.(contentLen := n, state := ChunkSize);
    var p2 := p1.(origContentLen := n, state := ChunkData);
    var p3 := p2.(contentLen := 0, state := ChunkDataAlmostDone);
    RunHex(p, n);
    RunLineEnds(p1);
    RunBoth(p, Hex(n), p1, [], "\r\n", p2, [NewChunk]);
    RunData(p2, s);
    RunBoth(p, Hex(n) + "\r\n", p2, [] + [NewChunk], s, p3, Singles(s));
    RunLineEnds(p3);
    RunBoth(p, Hex(n) + "\r\n" + s, p3, [] + [NewChunk] + Singles(s), "\r\n", p.(contentLen := 0, origContentLen := 0),
            [ChunkComplete]);
    assert [] + [NewChunk] == [NewChunk];
  }

  /** Where a CR is due there is no more data. */
  lemma NoMoreData(p: Parser, t: string)
    requires p.state.ChunkDataAlmostDone? && Ready(p)
    ensures var calls := Run(p, t).calls;
      calls == [] || !calls[0].Body?
  {
    if |t| > 1 && Going(p) && t[0] == '\r' {
      var q := p.(state := ChunkDataDone);
      assert t[1..][0] == t[1];
      assert Examine(q, t[1]).1 == if t[1] == '\n' then [ChunkComplete] else [];
      assert t[1] != '\n' ==> [] + Run(Examine(q, t[1]).0, t[1..][1..]).calls == [];
    }
  }

  /** The length goes out as an unsigned int: a chunk is read back whole exactly when it is
      shorter than 4 GB. */
  lemma ChunkFits(p: Parser, s: string)
    requires p.state.ChunkSizeStart? && Ready(p) && s != []
    ensures |s| < 0x1_0000_0000 <==>
            Run(p, Chunk(s)) == Outcome(p.(contentLen := 0, origContentLen := 0),
                                        [NewChunk] + Singles(s) + [ChunkComplete], |Chunk(s)|)
  {
    hide Run, Hex;
    if |s| < 0x1_0000_0000 {
      RunChunk(p, s);
      return;
    }
    var calls, n := Run(p, Chunk(s)).calls, |s| % 0x1_0000_0000;
    ChunkCut(p, s);
    assert ([NewChunk] + Singles(s) + [ChunkComplete])[1 + n] == Body([s[n]]);
  }

  /** A length that wraps: no data where the data should go on. */
  lemma ChunkCut(p: Parser, s: string)
    requires p.state.ChunkSizeStart? && Ready(p) && |s| >= 0x1_0000_0000
    ensures var calls, n := Run(p, Chunk(s)).calls, |s| % 0x1_0000_0000;
      calls != [] && if n == 0 then calls[0] == ChunksComplete else |calls| > 1 + n ==> !calls[1 + n].Body?
  {
    hide Run, Hex, Singles;
    var n := |s| % 0x1_0000_0000;
    var p1 := p.(contentLen := n, state := ChunkSize);
    RunHex(p, n);
    RunLineEnds(p1);
    if n == 0 {
      var p2 := p1.(origContentLen := 0, trailing := true, state := HdrlineStart);
      RunBoth(p, Hex(n), p1, [], "\r\n", p2, [ChunksComplete]);
      RunSplit(p, Hex(n) + "\r\n", s + "\r\n");
      assert Chunk(s) == Hex(n) + "\r\n" + (s + "\r\n");
    } else {
      var p2 := p1.(origContentLen := n, state := ChunkData);
      var p3 := p2.(contentLen := 0, state := ChunkDataAlmostDone);
      var read, rest := Hex(n) + "\r\n" + s[..n], s[n..] + "\r\n";
      RunBoth(p, Hex(n), p1, [], "\r\n", p2, [NewChunk]);
      RunData(p2, s[..n]);
      RunBoth(p, Hex(n) + "\r\n", p2, [] + [NewChunk], s[..n], p3, Singles(s[..n]));
      RunSplit(p, read, rest);
      assert Chunk(s) == read + rest by { assert s == s[..n] + s[n..]; }
      NoMoreData(p3, rest);
    }
  }

  /** Where the parser is behind some chunks: where it was, the counters used up if there were any. */
  function BehindChunks(p: Parser, chunks: seq<string>): Parser {
    if forall k :: 0 <= k < |chunks| ==> chunks[k] == [] then p else p.(contentLen := 0, origContentLen := 0)
  }

  lemma {:induction false} RunChunks(p: Parser, chunks: seq<string>)
    requires p.state.ChunkSizeStart? && Ready(p)
    requires forall k :: 0 <= k < |chunks| ==> |chunks[k]| < 0x1_0000_0000
    ensures Run(p, Chunks(chunks)) == Outcome(BehindChunks(p, chunks), ChunkCalls(chunks), |Chunks(chunks)|)
    decreases |chunks|
  {
    if chunks != [] {
      var q := if chunks[0] == [] then p else p.(contentLen := 0, origContentLen := 0);
      RunChunks(q, chunks[1..]);
      RunSplit(p, Chunk(chunks[0]), Chunks(chunks[1..]));
      if chunks[0] != [] {
        RunChunk(p, chunks[0]);
      }
      FirstBehind(p, chunks);
      hide Run, Chunk, Singles;
    }
  }

  lemma FirstBehind(p: Parser, chunks: seq<string>)
    requires chunks != []
    ensures BehindChunks(p, chunks)
         == BehindChunks(if chunks[0] == [] then p else p.(contentLen := 0, origContentLen := 0), chunks[1..])
  {
    var more := chunks[1..];
    assert forall k :: 0 <= k < |more| ==> more[k] == chunks[k + 1];
    assert forall k :: 0 < k < |chunks| ==> chunks[k] == more[k - 1];
  }

  /** Whatever is sent in chunks is read back, in order, as one complete message. */
  lemma ChunkedRoundTrip(p: Parser, chunks: seq<string>)
    requires p.state.ChunkSizeStart? && Ready(p)
    requires forall k :: 0 <= k < |chunks| ==> |chunks[k]| < 0x1_0000_0000
    ensures var o := Run(p, Chunks(chunks) + LAST);
      && o.parser.state.Start? && o.parser.error.NoError? && o.consumed == |Chunks(chunks) + LAST|
      && o.calls == ChunkCalls(chunks) + [ChunksComplete, MsgComplete]
      && Data(o.calls) == Concat(chunks)
  {
    RunChunks(p, chunks);
    RunSplit(p, Chunks(chunks), LAST);
    RunLast(BehindChunks(p, chunks));
    DataChunks(chunks);
    DataAppend(ChunkCalls(chunks), [ChunksComplete, MsgComplete]);
    assert Data([ChunksComplete, MsgComplete]) == [] by {
      assert [ChunksComplete, MsgComplete][1..] == [MsgComplete] && [MsgComplete][1..] == [];
    }
  }

  lemma RunLast(p: Parser)
    requires p.state.ChunkSizeStart? && Ready(p)
    ensures Run(p, LAST)
         == Outcome(p.(contentLen := 0, origContentLen := 0, trailing := true, buf := [], state := Start),
                    [ChunksComplete, MsgComplete], 5)
  {
    hide Run;
    var p1 := p.(contentLen := 0, state := ChunkSize);
    var p2 := p1.(origContentLen := 0, trailing := true, state := HdrlineStart);
    RunOne(p, '0');
    RunLineEnds(p1);
    RunBoth(p, "0", p1, [], "\r\n", p2, [ChunksComplete]);
    RunLineEnds(p2);
    RunBoth(p, "0" + "\r\n", p2, [] + [ChunksComplete], "\r\n", p2.(buf := [], state := Start), [MsgComplete]);
    assert LAST == "0" + "\r\n" + "\r\n";
    assert [] + [ChunksComplete] + [MsgComplete] == [ChunksComplete, MsgComplete];
  }

  lemma {:induction false} DataChunks(chunks: seq<string>)
    ensures Data(ChunkCalls(chunks)) == Concat(chunks)
    decreases |chunks|
  {
    if chunks != [] {
      DataChunks(chunks[1..]);
      var c := chunks[0];
      var first := if c == [] then [] else [NewChunk] + Singles(c) + [ChunkComplete];
      DataAppend(first, ChunkCalls(chunks[1..]));
      if c != [] {
        DataAppend([NewChunk] + Singles(c), [ChunkComplete]);
        DataAppend([NewChunk], Singles(c));
        DataSingles(c);
        assert [NewChunk][1..] == [] && [ChunkComplete][1..] == [];
        hide Singles;
        assert Data([NewChunk]) == [] && Data([ChunkComplete]) == [];
      }
    }
  }

  // --------------------------------------------------------------- runs that complete a message

  predicate Completes(p: Parser, s: string) {
    Run(p, s).parser.state.Start? && Run(p, s).parser.error.NoError?
  }

  lemma RunStops(p: Parser, s: string)
    ensures s == [] || !Going(p) ==> Run(p, s) == Outcome(p, [], 0)
  {
  }

  /** What is left to do after a stretch. */
  lemma StillCompletes(p: Parser, s: string, t: string)
    ensures Completes(p, s + t) == Completes(Run(p, s).parser, t)
    ensures Run(p, s + t).consumed == Run(p, s).consumed + Run(Run(p, s).parser, t).consumed
  {
    hide Run;
    RunSplit(p, s, t);
  }
}
