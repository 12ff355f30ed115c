/** Multipart bodies as section 5.1.1 of RFC 2046 writes them, and what the automaton makes of
    one: exactly the headers and bodies that went in, in order. */
module MultipartRoundTrip {
  import opened MultipartSpec

  /** A header line: its name, the spaces behind the colon, its value. */
  datatype Header = Header(name: string, gap: string, value: string)
  datatype Part = Part(headers: seq<Header>, body: string)

  function EncodeHeaders(hs: seq<Header>): string {
    if hs == [] then [] else hs[0].name + ":" + (hs[0].gap + (hs[0].value + "\r\n")) + EncodeHeaders(hs[1..])
  }

  /** The headers of a part and the empty line behind them. */
  function HeadOf(p: Part): string {
    EncodeHeaders(p.headers) + "\r\n"
  }

  /** What a boundary closes with: two hyphens the last time, a line end the others. */
  function Closing(last: bool): string {
    if last then "--" else "\r\n"
  }

  /** The body of a part and the boundary behind it. */
  function BodyOf(b: string, p: Part, last: bool): string {
    p.body + Delimiter(b) + Closing(last)
  }

  /** Everything behind a boundary line, `b` being the boundary with its two hyphens. */
  function EncodeParts(b: string, parts: seq<Part>): string
    requires parts != []
  {
    HeadOf(parts[0])
    + (BodyOf(b, parts[0], |parts| == 1) + if |parts| == 1 then [] else EncodeParts(b, parts[1..]))
  }

  function Encode(b: string, parts: seq<Part>, epilogue: string): string
    requires parts != []
  {
    b + "\r\n" + EncodeParts(b, parts) + epilogue
  }

  /** What a header name is made of: the letters of both cases and the hyphen. */
  predicate IsNameChar(c: char) {
    || c == '-'
    || c in {'a', 'b', 'c', 'd', 'e', 'f', 'g', 'h', 'i', 'j', 'k', 'l', 'm'}
    || c in {'n', 'o', 'p', 'q', 'r', 's', 't', 'u', 'v', 'w', 'x', 'y', 'z'}
    || c in {'A', 'B', 'C', 'D', 'E', 'F', 'G', 'H', 'I', 'J', 'K', 'L', 'M'}
    || c in {'N', 'O', 'P', 'Q', 'R', 'S', 'T', 'U', 'V', 'W', 'X', 'Y', 'Z'}
  }

  predicate GoodName(s: string) {
    forall k :: 0 <= k < |s| ==> IsNameChar(s[k])
  }

  predicate GoodValue(s: string) {
    '\r' !in s && (s != [] ==> s[0] != ' ')
  }

  predicate GoodHeader(h: Header) {
    GoodName(h.name) && (forall k :: 0 <= k < |h.gap| ==> h.gap[k] == ' ') && GoodValue(h.value)
  }

  ghost predicate GoodPart(b: string, p: Part) {
    && (forall k :: 0 <= k < |p.headers| ==> GoodHeader(p.headers[k]))
    && Clear(b, p.body, 0, |p.body|)
  }

  /** A callback with the bytes it is given. */
  datatype Call = PartBegin | Field(s: string) | Value(s: string) | HeadersDone | PartEnd | Chunk(s: string) | Done

  function Slice(buf: string, start: nat, end: nat): string {
    if start <= end <= |buf| then buf[start..end] else []
  }

  function CallOf(buf: string, e: Event): Call {
    match e
    case OnPartDataBegin => PartBegin
    case OnHeaderField(s, t) => Field(Slice(buf, s, t))
    case OnHeaderValue(s, t) => Value(Slice(buf, s, t))
    case OnHeadersComplete => HeadersDone
    case OnPartDataEnd => PartEnd
    case OnChunkData(s, t) => Chunk(Slice(buf, s, t))
    case OnBodyEnd => Done
  }

  function Calls(buf: string, events: seq<Event>): (calls: seq<Call>)
    ensures |calls| == |events|
  {
    seq(|events|, k requires 0 <= k < |events| => CallOf(buf, events[k]))
  }

  function HeaderCalls(hs: seq<Header>): seq<Call> {
    if hs == [] then [] else [Field(hs[0].name), Value(hs[0].value)] + HeaderCalls(hs[1..])
  }

  function OnePart(p: Part): seq<Call> {
    [PartBegin] + HeaderCalls(p.headers) + [HeadersDone, PartEnd, Chunk(p.body)]
  }

  /** The callbacks a list of parts stands for. */
  function PartCalls(parts: seq<Part>): seq<Call>
    requires parts != []
  {
    OnePart(parts[0]) + if |parts| == 1 then [Done] else PartCalls(parts[1..])
  }

  // ------------------------------------------------------------------- following a run

  /** The value returned and the callbacks made from here on. */
  function Result(b: string, buf: string, c: Config): (nat, seq<Event>)
    requires b != [] && InBounds(b, c) && c.i <= |buf|
  {
    var o := Run(b, buf, c); (o.ret, o.config.events)
  }

  lemma Follow(b: string, buf: string, c: Config)
    requires b != [] && InBounds(b, c) && c.i < |buf| && Examine(b, buf, c).Go?
    ensures Result(b, buf, c) == Result(b, buf, Examine(b, buf, c).config)
  {
    hide Examine;
    BudgetFalls(b, buf, c);
  }

  predicate At(buf: string, i: nat, x: string) {
    i + |x| <= |buf| && buf[i..i + |x|] == x
  }

  lemma AtParts(buf: string, i: nat, x: string, y: string)
    ensures At(buf, i, x + y) <==> At(buf, i, x) && At(buf, i + |x|, y)
  {
    if i + |x| + |y| <= |buf| {
      var w := buf[i..i + |x| + |y|];
      assert w[..|x|] == buf[i..i + |x|] && w[|x|..] == buf[i + |x|..i + |x| + |y|];
      if At(buf, i, x) && At(buf, i + |x|, y) {
        assert w == w[..|x|] + w[|x|..];
      }
      if At(buf, i, x + y) {
        assert (x + y)[..|x|] == x && (x + y)[|x|..] == y;
      }
    }
  }

  lemma AtChar(buf: string, i: nat, x: string)
    requires At(buf, i, x)
    ensures forall k :: 0 <= k < |x| ==> buf[i + k] == x[k]
    ensures x != [] ==> buf[i] == x[0] && At(buf, i + 1, x[1..])
    ensures |x| > 1 ==> buf[i + 1] == x[1]
  {
    forall k | 0 <= k < |x|
      ensures buf[i + k] == x[k]
    {
      assert buf[i..i + |x|][k] == x[k];
    }
    if x != [] {
      assert buf[i + 1..i + |x|] == buf[i..i + |x|][1..];
    }
  }

  lemma CallsAppend(buf: string, events: seq<Event>, more: seq<Event>)
    ensures Calls(buf, events + more) == Calls(buf, events) + Calls(buf, more)
  {
  }

  /** The opening boundary line. */
  lemma {:induction false} ReadBoundary(b: string, buf: string, c: Config)
    requires b != [] && c.phase.StartBoundary? && c.index <= |b|
    requires At(buf, c.i, b[c.index..] + "\r\n")
    ensures var c' := c.(phase := HeaderFieldStart, index := 0, i := c.i + |b| - c.index + 2,
                         events := c.events + [OnPartDataBegin]);
      Result(b, buf, c) == Result(b, buf, c')
    decreases |b| - c.index
  {
    var x := b[c.index..] + "\r\n";
    AtChar(buf, c.i, x);
    Follow(b, buf, c);
    if c.index == |b| {
      var d := c.(index := c.index + 1, i := c.i + 1);
      assert x == "\r\n";
      assert buf[c.i + 1] == x[1];
      Follow(b, buf, d);
    } else {
      assert b[c.index + 1..] + "\r\n" == x[1..];
      ReadBoundary(b, buf, c.(index := c.index + 1, i := c.i + 1));
    }
  }

  /** The comparison of the source, after tolower, takes exactly these. */
  lemma NameChars(c: char)
    ensures IsNameChar(c) <==> IsLetter(c) || c == '-'
  {
  }

  /** The rest of a header name, up to its colon. */
  lemma {:induction false} ReadField(b: string, buf: string, c: Config, name: string)
    requires b != [] && c.phase.HeaderField? && GoodName(name)
    requires At(buf, c.i, name + ":")
    ensures var end := c.i + |name|;
      Result(b, buf, c) ==
      Result(b, buf, c.(phase := HeaderValueStart, i := end + 1, events := c.events + [OnHeaderField(c.mark, end)]))
    decreases |name|
  {
    var x := name + ":";
    AtChar(buf, c.i, x);
    hide IsNameChar;
    if name != [] {
      NameChars(name[0]);
    }
    NameChars(':');
    Follow(b, buf, c);
    if name != [] {
      assert name[1..] + ":" == x[1..];
      ReadField(b, buf, c.(i := c.i + 1), name[1..]);
    }
  }

  /** The rest of a header value, and its CR LF. */
  lemma {:induction false} ReadValue(b: string, buf: string, c: Config, value: string)
    requires b != [] && c.phase.HeaderValue? && '\r' !in value
    requires At(buf, c.i, value + "\r\n")
    ensures var end := c.i + |value|;
      Result(b, buf, c) ==
      Result(b, buf, c.(phase := HeaderFieldStart, i := end + 2, events := c.events + [OnHeaderValue(c.mark, end)]))
    decreases |value|
  {
    var x := value + "\r\n";
    AtChar(buf, c.i, x);
    Follow(b, buf, c);
    if value == [] {
      assert x == "\r\n";
      assert buf[c.i + 1] == x[1];
      var events := c.events + [OnHeaderValue(c.mark, c.i)];
      assert events + [] == events;
      Follow(b, buf, c.(phase := HeaderValueAlmostDone, i := c.i + 1, events := events));
    } else {
      assert value[0] in value;
      assert c.events + [] == c.events;
      assert value[1..] + "\r\n" == x[1..];
      ReadValue(b, buf, c.(i := c.i + 1), value[1..]);
    }
  }

  /** The two starting phases do what the phases they start do, with the mark set. */
  lemma StartMarks(b: string, buf: string, c: Config)
    requires b != [] && c.i < |buf| && InBounds(b, c)
    ensures c.phase.HeaderFieldStart? ==>
              Result(b, buf, c) == Result(b, buf, c.(phase := HeaderField, mark := c.i))
    ensures c.phase.HeaderValueStart? && buf[c.i] != ' ' ==>
              Result(b, buf, c) == Result(b, buf, c.(phase := HeaderValue, mark := c.i))
  {
    if c.phase.HeaderFieldStart? {
      SameExamine(b, buf, c, c.(phase := HeaderField, mark := c.i));
    } else if c.phase.HeaderValueStart? && buf[c.i] != ' ' {
      SameExamine(b, buf, c, c.(phase := HeaderValue, mark := c.i));
    }
  }

  lemma SameExamine(b: string, buf: string, c: Config, d: Config)
    requires b != [] && InBounds(b, c) && InBounds(b, d) && c.i < |buf| && d.i < |buf|
    requires Examine(b, buf, c) == Examine(b, buf, d)
    ensures Result(b, buf, c) == Result(b, buf, d)
  {
    hide Examine;
    if Examine(b, buf, c).Go? {
      BudgetFalls(b, buf, c);
      BudgetFalls(b, buf, d);
    }
  }

  /** A header name from its first character to the colon. */
  lemma ReadName(b: string, buf: string, c: Config, name: string) returns (c': Config)
    requires b != [] && c.phase.HeaderFieldStart? && GoodName(name) && At(buf, c.i, name + ":")
    ensures c'.phase.HeaderValueStart? && c'.i == c.i + |name| + 1 <= |buf|
    ensures Result(b, buf, c) == Result(b, buf, c')
    ensures Calls(buf, c'.events) == Calls(buf, c.events) + [Field(name)]
  {
    hide Result;
    StartMarks(b, buf, c);
    ReadField(b, buf, c.(phase := HeaderField, mark := c.i), name);
    var e := OnHeaderField(c.i, c.i + |name|);
    c' := c.(phase := HeaderValueStart, mark := c.i, i := c.i + |name| + 1, events := c.events + [e]);
    AtParts(buf, c.i, name, ":");
    CallsAppend(buf, c.events, [e]);
    assert CallOf(buf, e) == Field(name);
  }

  /** What is behind the colon: any spaces, the value, CR LF. */
  lemma {:induction false} ReadSpaceValue(b: string, buf: string, c: Config, gap: string, value: string)
    returns (c': Config)
    requires b != [] && c.phase.HeaderValueStart? && GoodValue(value) && At(buf, c.i, gap + (value + "\r\n"))
    requires forall k :: 0 <= k < |gap| ==> gap[k] == ' '
    ensures c'.phase.HeaderFieldStart? && c'.i == c.i + |gap| + |value| + 2 <= |buf|
    ensures Result(b, buf, c) == Result(b, buf, c')
    ensures Calls(buf, c'.events) == Calls(buf, c.events) + [Value(value)]
    decreases |gap|
  {
    hide Result;
    AtParts(buf, c.i, gap, value + "\r\n");
    if gap == [] {
      c' := ReadWholeValue(b, buf, c, value);
    } else {
      AtChar(buf, c.i, gap);
      Follow(b, buf, c);
      AtParts(buf, c.i + 1, gap[1..], value + "\r\n");
      c' := ReadSpaceValue(b, buf, c.(i := c.i + 1), gap[1..], value);
    }
  }

  lemma ReadWholeValue(b: string, buf: string, c: Config, value: string) returns (c': Config)
    requires b != [] && c.phase.HeaderValueStart? && GoodValue(value) && At(buf, c.i, value + "\r\n")
    ensures c'.phase.HeaderFieldStart? && c'.i == c.i + |value| + 2 <= |buf|
    ensures Result(b, buf, c) == Result(b, buf, c')
    ensures Calls(buf, c'.events) == Calls(buf, c.events) + [Value(value)]
  {
    hide Result;
    AtChar(buf, c.i, value + "\r\n");
    StartMarks(b, buf, c);
    ReadValue(b, buf, c.(phase := HeaderValue, mark := c.i), value);
    var e := OnHeaderValue(c.i, c.i + |value|);
    c' := c.(phase := HeaderFieldStart, mark := c.i, i := c.i + |value| + 2, events := c.events + [e]);
    AtParts(buf, c.i, value, "\r\n");
    CallsAppend(buf, c.events, [e]);
    assert CallOf(buf, e) == Value(value);
  }

  /** One header: its name, its value, and the phase in which the next one starts. */
  lemma ReadHeader(b: string, buf: string, c: Config, h: Header) returns (c': Config)
    requires b != [] && c.phase.HeaderFieldStart? && GoodHeader(h)
    requires At(buf, c.i, h.name + ":" + (h.gap + (h.value + "\r\n")))
    ensures c'.phase.HeaderFieldStart? && c'.i == c.i + |h.name| + 1 + |h.gap| + |h.value| + 2 <= |buf|
    ensures Result(b, buf, c) == Result(b, buf, c')
    ensures Calls(buf, c'.events) == Calls(buf, c.events) + [Field(h.name), Value(h.value)]
  {
    hide Result, At, Calls, GoodName, GoodValue;
    AtParts(buf, c.i, h.name + ":", h.gap + (h.value + "\r\n"));
    var c1 := ReadName(b, buf, c, h.name);
    c' := ReadSpaceValue(b, buf, c1, h.gap, h.value);
    assert Calls(buf, c.events) + [Field(h.name)] + [Value(h.value)]
        == Calls(buf, c.events) + [Field(h.name), Value(h.value)];
  }

  /** All the headers of a part and the empty line behind them. */
  lemma {:induction false} ReadHeaders(b: string, buf: string, c: Config, hs: seq<Header>) returns (c': Config)
    requires b != [] && c.phase.HeaderFieldStart?
    requires forall k :: 0 <= k < |hs| ==> GoodHeader(hs[k])
    requires At(buf, c.i, EncodeHeaders(hs) + "\r\n")
    ensures c'.phase.PartDataStart? && c'.i == c.i + |EncodeHeaders(hs)| + 2 <= |buf|
    ensures Result(b, buf, c) == Result(b, buf, c')
    ensures Calls(buf, c'.events) == Calls(buf, c.events) + HeaderCalls(hs)
    decreases |hs|
  {
    hide Result;
    if hs == [] {
      assert EncodeHeaders(hs) + "\r\n" == "\r\n";
      AtChar(buf, c.i, "\r\n");
      Follow(b, buf, c);
      var c1 := c.(phase := HeadersAlmostDone, mark := c.i, i := c.i + 1);
      assert buf[c.i + 1] == "\r\n"[1];
      Follow(b, buf, c1);
      c' := c1.(phase := PartDataStart, i := c.i + 2);
    } else {
      var first := hs[0].name + ":" + (hs[0].gap + (hs[0].value + "\r\n"));
      var others := EncodeHeaders(hs[1..]) + "\r\n";
      assert EncodeHeaders(hs) + "\r\n" == first + others;
      AtParts(buf, c.i, first, others);
      var c1 := ReadHeader(b, buf, c, hs[0]);
      c' := ReadHeaders(b, buf, c1, hs[1..]);
      var call := [Field(hs[0].name), Value(hs[0].value)];
      assert Calls(buf, c'.events) == Calls(buf, c.events) + (call + HeaderCalls(hs[1..]));
    }
  }

  // ---------------------------------------------------------------------- the body of a part

  lemma NoCR(b: string, k: nat)
    requires '\r' !in b && k < |b|
    ensures b[k] != '\r'
  {
    assert b[k] in b;
  }

  /** A body free of the delimiter, followed by the delimiter: it begins nowhere before. */
  lemma BodyIsClear(b: string, buf: string, i: nat, body: string)
    requires '\r' !in b && Clear(b, body, 0, |body|) && At(buf, i, body + Delimiter(b))
    ensures Clear(b, buf, i, i + |body|) && OccursAt(b, buf, i + |body|)
  {
    var d := Delimiter(b);
    AtParts(buf, i, body, d);
    AtChar(buf, i + |body|, d);
    forall p | i <= p < i + |body|
      ensures !OccursAt(b, buf, p)
    {
      OccursIsMatch(b, buf, p);
      var j := i + |body| - p;
      if j >= |d| {
        assert buf[p..p + |d|] == body[p - i..p - i + |d|];
        assert !OccursAt(b, body, p - i);
      } else if j >= 2 {
        NoCR(b, j - 2);
      }
    }
  }

  /** The scanner, wherever it is in the body, comes to the first delimiter. */
  lemma {:induction false} FindDelimiter(b: string, buf: string, c: Config, q: nat) returns (c': Config)
    requires b != [] && Restartable(b) && c.i <= |buf| && InBounds(b, c)
    requires c.phase.PartData? || c.phase.PartDataAlmostBoundary? || c.phase.PartDataBoundary?
    requires Searching(b, buf, c)
    requires c.dmark <= q && OccursAt(b, buf, q) && Clear(b, buf, c.dmark, q)
    ensures c'.phase.PartDataAlmostEnd? && c'.i == q + |Delimiter(b)| <= |buf| && c'.dmark == c.dmark && c'.dbmark == q
    ensures c'.events == c.events + [OnPartDataEnd]
    ensures Result(b, buf, c) == Result(b, buf, c')
    decreases Budget(buf, c)
  {
    Unfinished(b, buf, c, q);
    hide Clear, OccursAt, Result;
    c' := Examine(b, buf, c).config;
    BudgetFalls(b, buf, c);
    ExamineSearches(b, buf, c);
    Follow(b, buf, c);
    if c'.phase.PartDataAlmostEnd? {
      FirstIsUnique(b, buf, c.dmark, c'.dbmark, q);
    } else {
      c' := FindDelimiter(b, buf, c', q);
    }
  }

  /** Before the delimiter is complete there is a byte to look at, and looking does not end the run. */
  lemma Unfinished(b: string, buf: string, c: Config, q: nat)
    requires b != [] && c.i <= |buf| && InBounds(b, c)
    requires c.phase.PartData? || c.phase.PartDataAlmostBoundary? || c.phase.PartDataBoundary?
    requires Searching(b, buf, c)
    requires c.dmark <= q && OccursAt(b, buf, q)
    ensures c.i < |buf| && Examine(b, buf, c).Go?
  {
  }

  lemma FirstIsUnique(b: string, buf: string, from: nat, p: nat, q: nat)
    requires from <= p && OccursAt(b, buf, p) && Clear(b, buf, from, p)
    requires from <= q && OccursAt(b, buf, q) && Clear(b, buf, from, q)
    ensures p == q
  {
  }

  /** A part's body, and what the line behind it says: another part, or the end. */
  lemma ReadBody(b: string, buf: string, c: Config, body: string, last: bool) returns (c': Config)
    requires b != [] && '\r' !in b && c.phase.PartDataStart? && c.i < |buf|
    requires Clear(b, body, 0, |body|)
    requires At(buf, c.i, body + Delimiter(b) + Closing(last))
    ensures c'.phase == (if last then End else HeaderFieldStart)
    ensures c'.i == c.i + |body| + |Delimiter(b)| + 2 <= |buf|
    ensures Result(b, buf, c) == Result(b, buf, c')
    ensures Calls(buf, c'.events)
         == Calls(buf, c.events) + [HeadersDone, PartEnd, Chunk(body)] + [if last then Done else PartBegin]
  {
    hide Result, Clear;
    var d, q := Delimiter(b), c.i + |body|;
    AtParts(buf, c.i, body + d, Closing(last));
    AtParts(buf, c.i, body, d);
    BodyIsClear(b, buf, c.i, body);
    NoCRRestarts(b);
    var c1 := ReadToDelimiter(b, buf, c, q);
    c' := ReadClosing(b, buf, c1, last);
    CallsAppend(buf, c.events, [OnHeadersComplete, OnPartDataEnd]);
    assert Slice(buf, c.i, q) == body;
  }

  lemma ReadClosing(b: string, buf: string, c: Config, last: bool) returns (c': Config)
    requires b != [] && c.phase.PartDataAlmostEnd? && At(buf, c.i, Closing(last))
    ensures c'.phase == (if last then End else HeaderFieldStart) && c'.i == c.i + 2 <= |buf|
    ensures Result(b, buf, c) == Result(b, buf, c')
    ensures Calls(buf, c'.events)
         == Calls(buf, c.events) + [Chunk(Slice(buf, c.dmark, c.dbmark)), if last then Done else PartBegin]
  {
    hide Result;
    AtChar(buf, c.i, Closing(last));
    Follow(b, buf, c);
    var c1 := c.(i := c.i + 1, phase := if last then PartDataFinalHyphen else PartDataEnd);
    Follow(b, buf, c1);
    c' := Examine(b, buf, c1).config;
    var more := [OnChunkData(c.dmark, c.dbmark), if last then OnBodyEnd else OnPartDataBegin];
    assert c'.events == c.events + more;
    CallsAppend(buf, c.events, more);
  }

  lemma ReadToDelimiter(b: string, buf: string, c: Config, q: nat) returns (c': Config)
    requires b != [] && Restartable(b) && c.phase.PartDataStart? && c.i < |buf|
    requires c.i <= q && OccursAt(b, buf, q) && Clear(b, buf, c.i, q)
    ensures c'.phase.PartDataAlmostEnd? && c'.i == q + |Delimiter(b)| <= |buf| && c'.dmark == c.i && c'.dbmark == q
    ensures c'.events == c.events + [OnHeadersComplete, OnPartDataEnd]
    ensures Result(b, buf, c) == Result(b, buf, c')
  {
    hide Result, Clear;
    Follow(b, buf, c);
    SearchData(b, buf, c);
    c' := FindDelimiter(b, buf, Examine(b, buf, c).config, q);
  }

  /** One part, up to the end of the boundary line behind it. */
  lemma ReadPart(b: string, buf: string, c: Config, p: Part, last: bool, before: seq<Call>) returns (c': Config)
    requires b != [] && '\r' !in b && c.phase.HeaderFieldStart? && GoodPart(b, p)
    requires At(buf, c.i, HeadOf(p)) && At(buf, c.i + |HeadOf(p)|, BodyOf(b, p, last))
    requires Calls(buf, c.events) == before + [PartBegin]
    ensures c'.phase == (if last then End else HeaderFieldStart)
    ensures c'.i == c.i + |HeadOf(p)| + |BodyOf(b, p, last)| <= |buf|
    ensures Result(b, buf, c) == Result(b, buf, c')
    ensures Calls(buf, c'.events) == before + OnePart(p) + [if last then Done else PartBegin]
  {
    hide Result, Clear, Calls, OnePart;
    var c1 := ReadHeaders(b, buf, c, p.headers);
    c' := ReadBody(b, buf, c1, p.body, last);
    PartDone(before, p, if last then Done else PartBegin);
  }

  /** The parts from one boundary line to the closing one. */
  lemma {:induction false} ReadParts(b: string, buf: string, c: Config, parts: seq<Part>, before: seq<Call>)
    returns (c': Config)
    requires b != [] && '\r' !in b && parts != [] && c.phase.HeaderFieldStart?
    requires forall k :: 0 <= k < |parts| ==> GoodPart(b, parts[k])
    requires At(buf, c.i, EncodeParts(b, parts))
    requires Calls(buf, c.events) == before + [PartBegin]
    ensures c'.phase.End? && c'.i <= |buf|
    ensures Result(b, buf, c) == Result(b, buf, c')
    ensures Calls(buf, c'.events) == before + PartCalls(parts)
    decreases |parts|
  {
    hide Result, At, Calls, OnePart, HeadOf, BodyOf, GoodPart, PartCalls, EncodeParts;
    var p := parts[0];
    FirstPart(b, buf, c.i, parts);
    FirstCalls(before, parts);
    c' := ReadPart(b, buf, c, p, |parts| == 1, before);
    if |parts| > 1 {
      c' := ReadParts(b, buf, c', parts[1..], before + OnePart(p));
    }
  }

  lemma FirstPart(b: string, buf: string, i: nat, parts: seq<Part>)
    requires parts != [] && At(buf, i, EncodeParts(b, parts))
    ensures var p := parts[0];
      && At(buf, i, HeadOf(p)) && At(buf, i + |HeadOf(p)|, BodyOf(b, p, |parts| == 1))
      && (|parts| > 1 ==>
            At(buf, i + |HeadOf(p)| + |BodyOf(b, p, |parts| == 1)|, EncodeParts(b, parts[1..])))
  {
    hide At, HeadOf, BodyOf;
    SplitThree(buf, i, HeadOf(parts[0]), BodyOf(b, parts[0], |parts| == 1),
               if |parts| == 1 then [] else EncodeParts(b, parts[1..]));
  }

  lemma FirstCalls(before: seq<Call>, parts: seq<Part>)
    requires parts != []
    ensures before + PartCalls(parts)
         == before + OnePart(parts[0]) + if |parts| == 1 then [Done] else PartCalls(parts[1..])
  {
    hide OnePart;
  }

  lemma PartDone(before: seq<Call>, p: Part, next: Call)
    ensures before + [PartBegin] + HeaderCalls(p.headers) + [HeadersDone, PartEnd, Chunk(p.body)] + [next]
         == before + OnePart(p) + [next]
  {
  }

  lemma SplitThree(buf: string, i: nat, x: string, y: string, z: string)
    requires At(buf, i, x + (y + z))
    ensures At(buf, i, x) && At(buf, i + |x|, y) && At(buf, i + |x| + |y|, z)
    ensures y != [] ==> i + |x| < |buf|
  {
    AtParts(buf, i, x, y + z);
    AtParts(buf, i + |x|, y, z);
  }

  /** After the closing line everything is skipped. */
  lemma {:induction false} SkipEpilogue(b: string, buf: string, c: Config)
    requires b != [] && c.phase.End? && c.i <= |buf|
    ensures Result(b, buf, c) == (|buf|, c.events)
    decreases |buf| - c.i
  {
    if c.i < |buf| {
      Follow(b, buf, c);
      SkipEpilogue(b, buf, c.(i := c.i + 1));
    }
  }

  /** One call on the encoding of any parts consumes it all and makes exactly their callbacks. */
  lemma RoundTrip(b: string, parts: seq<Part>, epilogue: string)
    requires b != [] && '\r' !in b && parts != []
    requires forall k :: 0 <= k < |parts| ==> GoodPart(b, parts[k])
    ensures var buf := Encode(b, parts, epilogue);
      var o := Run(b, buf, INITIAL);
      o.ret == |buf| && Calls(buf, o.config.events) == PartCalls(parts)
  {
    hide Run, Clear, Examine;
    var buf := Encode(b, parts, epilogue);
    var body := EncodeParts(b, parts);
    assert buf == (b + "\r\n") + (body + epilogue);
    assert At(buf, 0, buf);
    AtParts(buf, 0, b + "\r\n", body + epilogue);
    AtParts(buf, |b| + 2, body, epilogue);
    var c := INITIAL.(phase := StartBoundary);
    StartIsBoundary(b, buf);
    assert b[0..] == b;
    ReadBoundary(b, buf, c);
    var c1 := c.(phase := HeaderFieldStart, i := |b| + 2, events := [OnPartDataBegin]);
    assert [] + [OnPartDataBegin] == [OnPartDataBegin];
    assert Calls(buf, c1.events) == [] + [PartBegin];
    var c2 := ReadParts(b, buf, c1, parts, []);
    SkipEpilogue(b, buf, c2);
  }

  lemma StartIsBoundary(b: string, buf: string)
    requires b != [] && buf != []
    ensures Result(b, buf, INITIAL) == Result(b, buf, INITIAL.(phase := StartBoundary))
  {
    SameExamine(b, buf, INITIAL, INITIAL.(phase := StartBoundary));
  }
}
