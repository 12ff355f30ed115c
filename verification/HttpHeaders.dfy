/** Header blocks: what is handed over of them, and how they decide what is read as the body. */
module HttpHeaders {
  import opened Common
  import opened BodySpec
  import opened Trailers
  import opened ChunkedBodies
  import opened HttpBody

  // ------------------------------------------------------------------------- a header block

  /** A header line: its name, the spaces behind the colon, and its value, which is a number in one kind
      of line. */
  datatype Header =
    | Length(name: string, gap: string, n: nat)
    | Coding(name: string, gap: string, coding: string)
    | Other(name: string, gap: string, value: string)

  /** The word, its letters of either case. */
  predicate AnyCase(x: string, word: string) {
    |x| == |word| && forall k :: 0 <= k < |x| ==>
      x[k] == word[k] || ('a' <= word[k] <= 'z' && x[k] as int == word[k] as int - 32)
  }

  function ValueText(h: Header): string {
    match h
    case Length(_, _, n) => Decimal(n)
    case Coding(_, _, coding) => coding
    case Other(_, _, value) => value
  }

  predicate GoodName(s: string) {
    InLine(s) && ':' !in s && 0 < |s| < STACK_MAX && s[0] != '\t'
  }

  predicate GoodText(s: string) {
    InLine(s) && 0 < |s| < STACK_MAX && s[0] != ' '
  }

  predicate Good(h: Header) {
    && GoodName(h.name) && GoodText(ValueText(h)) && (forall k :: 0 <= k < |h.gap| ==> h.gap[k] == ' ')
    && match h
       case Length(name, _, n) => AnyCase(name, "content-length") && n < UINT64
       case Coding(name, _, _) => AnyCase(name, "transfer-encoding")
       case Other(name, _, _) => !AnyCase(name, "content-length") && !AnyCase(name, "transfer-encoding")
  }

  function LineText(h: Header): string {
    h.name + ":" + (h.gap + ValueText(h)) + "\r\n"
  }

  function HeaderLines(hs: seq<Header>): string {
    if hs == [] then [] else LineText(hs[0]) + HeaderLines(hs[1..])
  }

  /** What is handed over of a line when it is read, its value apart. */
  function LineCalls(h: Header): seq<Call> {
    [HeaderKey(h.name)] + if h.Other? && AnyCase(h.name, "host") then [HostName(h.value)] else []
  }

  /** Names and values, in order. */
  function HeadCalls(hs: seq<Header>): seq<Call> {
    if hs == [] then [HeadersComplete]
    else LineCalls(hs[0]) + [HeaderVal(ValueText(hs[0]))] + HeadCalls(hs[1..])
  }

  /** The last Content-Length there is; n without one. */
  function LastLength(n: nat, hs: seq<Header>): nat
    decreases |hs|
  {
    if hs == [] then n else LastLength(if hs[0].Length? then hs[0].n else n, hs[1..])
  }

  function LengthOf(hs: seq<Header>): nat {
    LastLength(0, hs)
  }

  predicate SaysChunked(h: Header) {
    h.Coding? && (h.coding == "chunked" || h.coding == "Chunked")
  }

  predicate AnyChunked(hs: seq<Header>) {
    hs != [] && (SaysChunked(hs[0]) || AnyChunked(hs[1..]))
  }

  // -------------------------------------------------------------------------- Content-Length

  lemma ReadsDigit(v: nat, d: nat, t: string)
    requires d < 10 && v * 10 + d < UINT64
    ensures Uint64From(v, [DigitChar(d)] + t) == Uint64From(v * 10 + d, t)
  {
    var c := DigitChar(d);
    var s := [c] + t;
    assert s[0] == c && s[1..] == t && (v * 10 + DigitValue(c)) % UINT64 == v * 10 + d;
    hide DigitChar;
  }

  lemma {:induction false} ReadsNumber(n: nat, t: string)
    requires n < UINT64
    ensures Uint64From(0, Decimal(n) + t) == Uint64From(n, t)
  {
    hide Uint64From, DigitChar;
    if n < 10 {
      ReadsDigit(0, n, t);
    } else {
      var u := [DigitChar(n % 10)] + t;
      DecimalTail(n, t);
      ReadsNumber(n / 10, u);
      ReadsDigit(n / 10, n % 10, t);
    }
  }

  function TenTo(k: nat): (p: nat)
    ensures p > 0
  {
    if k == 0 then 1 else 10 * TenTo(k - 1)
  }

  lemma {:induction false} DecimalLength(n: nat, k: nat)
    requires n < TenTo(k) && k > 0
    ensures |Decimal(n)| <= k
  {
    assert TenTo(1) == 10 * TenTo(0);
    if n >= 10 {
      DecimalLength(n / 10, k - 1);
    }
  }

  lemma TwentyDigits()
    ensures TenTo(20) == 100_000_000_000_000_000_000
  {
    assert TenTo(5) == 10 * TenTo(4) && TenTo(4) == 10 * TenTo(3) && TenTo(3) == 10 * TenTo(2);
    assert TenTo(10) == 10 * TenTo(9) && TenTo(9) == 10 * TenTo(8) && TenTo(8) == 10 * TenTo(7);
    assert TenTo(7) == 10 * TenTo(6) && TenTo(6) == 10 * TenTo(5);
    assert TenTo(15) == 10 * TenTo(14) && TenTo(14) == 10 * TenTo(13) && TenTo(13) == 10 * TenTo(12);
    assert TenTo(12) == 10 * TenTo(11) && TenTo(11) == 10 * TenTo(10);
    assert TenTo(20) == 10 * TenTo(19) && TenTo(19) == 10 * TenTo(18) && TenTo(18) == 10 * TenTo(17);
    assert TenTo(17) == 10 * TenTo(16) && TenTo(16) == 10 * TenTo(15);
  }

  /** Every number of 64 bits is read as itself. */
  lemma LengthIsRead(n: nat)
    requires n < UINT64
    ensures StrToUint64(Decimal(n)) == Some(n)
  {
    TwentyDigits();
    hide TenTo, Decimal;
    DecimalLength(n, 20);
    ReadsNumber(n, []);
    assert Decimal(n) + [] == Decimal(n);
  }

  /** A text with anything else than digits in it is no number. */
  lemma {:induction false} NoNumber(v: nat, s: string)
    requires exists k :: 0 <= k < |s| && !('0' <= s[k] <= '9')
    ensures Uint64From(v, s).None?
    decreases |s|
  {
    if IsDigit(s[0]) {
      var k :| 0 <= k < |s| && !('0' <= s[k] <= '9');
      assert s[1..][k - 1] == s[k];
      NoNumber((v * 10 + DigitValue(s[0])) % UINT64, s[1..]);
    }
  }

  lemma {:induction false} LongDecimal(n: nat, k: nat)
    requires n >= TenTo(k)
    ensures |Decimal(n)| > k
  {
    if k > 0 {
      assert TenTo(k) == 10 * TenTo(k - 1);
      assert n >= 10 && n / 10 >= TenTo(k - 1);
      LongDecimal(n / 10, k - 1);
    }
  }

  lemma LastDigit(v: nat, d: nat)
    requires d < 10
    ensures Uint64From(v, [DigitChar(d)])
         == if v > 0 && (v * 10 + d) % UINT64 <= v then None else Some((v * 10 + d) % UINT64)
  {
    assert [DigitChar(d)][1..] == [];
  }

  /** Of the numbers beyond 64 bits those are refused that have more than 20 digits, or of which 64 bits are no
      more than a tenth; of any other the 64 bits are taken. */
  lemma OverflowIff(n: nat)
    requires n >= UINT64
    ensures StrToUint64(Decimal(n))
         == if n >= 100_000_000_000_000_000_000 || n % UINT64 <= n / 10 then None else Some(n % UINT64)
  {
    TwentyDigits();
    if n >= 100_000_000_000_000_000_000 {
      LongDecimal(n, 20);
    } else {
      var last := [DigitChar(n % 10)];
      DecimalLength(n, 20);
      assert Decimal(n) == Decimal(n / 10) + last;
      hide TenTo, Decimal, DigitChar, Uint64From;
      ReadsNumber(n / 10, last);
      LastDigit(n / 10, n % 10);
    }
  }

  /** The test for overflow does not find this one: ten times 2 to the 61, which is read as 2 to the 62. */
  lemma OverflowMissed()
    ensures Uint64From(0x2000_0000_0000_0000, "0") == Some(0x4000_0000_0000_0000)
    ensures 0x2000_0000_0000_0000 * 10 > UINT64
  {
    assert "0"[1..] == [];
  }

  // --------------------------------------------------------------------------- names by letters

  lemma LetterOfEitherCase(c: char, l: char)
    requires 'a' <= l <= 'z' || l == '-'
    ensures Lower(c) == Lower(l) <==> c == l || ('a' <= l <= 'z' && c as int == l as int - 32)
  {
  }

  lemma AnyCaseIsSame(x: string, word: string)
    requires forall k :: 0 <= k < |word| ==> 'a' <= word[k] <= 'z' || word[k] == '-'
    ensures AnyCase(x, word) <==> SameLetters(x, word)
  {
    hide Lower;
    if |x| == |word| {
      forall k | 0 <= k < |x|
        ensures Lower(x[k]) == Lower(word[k])
            <==> x[k] == word[k] || ('a' <= word[k] <= 'z' && x[k] as int == word[k] as int - 32)
      {
        LetterOfEitherCase(x[k], word[k]);
      }
    }
  }

  /** What a header is to the parser, by the letters of its name. */
  lemma KindByName(x: string)
    ensures KindOf(x) == if AnyCase(x, "host") then Hostname
                         else if AnyCase(x, "content-length") then ContentLength
                         else if AnyCase(x, "transfer-encoding") then TransferEncoding
                         else Plain
  {
    hide AnyCase, SameLetters;
    AnyCaseIsSame(x, "host");
    AnyCaseIsSame(x, "content-length");
    AnyCaseIsSame(x, "transfer-encoding");
  }

  // ------------------------------------------------------------------------------- one line

  /** A header line may begin. */
  predicate BeforeLine(p: Parser) {
    !p.trailing && Ready(p) && (p.state.HdrlineStart? || p.state.HdrDone?)
  }

  function Kind(h: Header): HeaderKind {
    match h
    case Length(_, _, _) => ContentLength
    case Coding(_, _, _) => TransferEncoding
    case Other(name, _, _) => if AnyCase(name, "host") then Hostname else Plain
  }

  /** The parser behind a line: the value waits to be handed over. */
  function Behind(p: Parser, h: Header): Parser {
    var q := p.(state := HdrDone, heval := Kind(h), buf := ValueText(h));
    match h
    case Length(_, _, n) => q.(contentLen := n, origContentLen := n)
    case Coding(_, _, _) => q.(chunked := p.chunked || SaysChunked(h))
    case Other(_, _, _) => q
  }

  function Pending(p: Parser): seq<Call> {
    if p.state.HdrDone? then [HeaderVal(p.buf)] else []
  }

  lemma OneKind(h: Header)
    requires Good(h)
    ensures KindOf(h.name) == Kind(h)
  {
    KindByName(h.name);
    hide KindOf, GoodName, GoodText;
    NotBoth(h.name);
  }

  lemma NotBoth(x: string)
    ensures !(AnyCase(x, "host") && AnyCase(x, "content-length"))
    ensures !(AnyCase(x, "host") && AnyCase(x, "transfer-encoding"))
    ensures !(AnyCase(x, "content-length") && AnyCase(x, "transfer-encoding"))
  {
  }

  lemma RunName(p: Parser, name: string)
    requires BeforeLine(p) && GoodName(name)
    ensures Run(p, name) == Outcome(p.(buf := name, state := HdrKey), Pending(p), |name|)
  {
    var q := p.(buf := [name[0]], state := HdrKey);
    assert name == [name[0]] + name[1..];
    assert name[0] in name && forall c :: c in name[1..] ==> c in name;
    assert Examine(p, name[0]) == (q, Pending(p));
    RunOne(p, name[0]);
    hide Run, Examine;
    KeepOn(q, name[1..]);
    RunBoth(p, [name[0]], q, Pending(p), name[1..], p.(buf := name, state := HdrKey), []);
    assert Pending(p) + [] == Pending(p);
  }

  lemma RunGap(p: Parser, gap: string, value: string)
    requires p.error.NoError? && p.state.HdrSpaceBeforeVal? && p.buf == [] && GoodText(value)
    requires forall k :: 0 <= k < |gap| ==> gap[k] == ' '
    ensures Run(p, gap + value) == Outcome(p.(buf := value, state := HdrVal), [], |gap + value|)
  {
    TrimsGap(gap, value);
    assert InLine(gap + value);
    KeepValue(p, gap + value);
  }

  lemma {:induction false} TrimsGap(gap: string, value: string)
    requires value != [] && value[0] != ' ' && forall k :: 0 <= k < |gap| ==> gap[k] == ' '
    ensures Trimmed(gap + value) == value
    decreases |gap|
  {
    if gap == [] {
      assert gap + value == value;
    } else {
      TrimsGap(gap[1..], value);
      assert (gap + value)[1..] == gap[1..] + value;
    }
  }

  /** The CR LF behind a value. */
  lemma RunValueEnd(q: Parser, p: Parser, h: Header)
    requires BeforeLine(p) && Good(h) && q == p.(heval := Kind(h), buf := ValueText(h), state := HdrVal)
    ensures Run(q, "\r\n")
         == Outcome(Behind(p, h), if h.Other? && AnyCase(h.name, "host") then [HostName(h.value)] else [], 2)
  {
    if h.Length? {
      LengthIsRead(h.n);
    }
    hide StrToUint64, Decimal, AnyCase, Run;
    RunTwo(q, '\r', '\n');
    assert "\r\n" == ['\r', '\n'];
  }

  lemma RunNamed(p: Parser, h: Header)
    requires BeforeLine(p) && Good(h)
    ensures Run(p, h.name + ":")
         == Outcome(p.(heval := Kind(h), buf := [], state := HdrSpaceBeforeVal), Pending(p) + [HeaderKey(h.name)],
                    |h.name + ":"|)
  {
    OneKind(h);
    ShortTexts(h);
    var named := p.(buf := h.name, state := HdrKey);
    RunName(p, h.name);
    RunColon(named);
    hide *;
    RunBoth(p, h.name, named, Pending(p), ":", p.(heval := Kind(h), buf := [], state := HdrSpaceBeforeVal),
            [HeaderKey(h.name)]);
  }

  lemma StillBefore(p: Parser, h: Header)
    requires BeforeLine(p) && Good(h)
    ensures BeforeLine(Behind(p, h))
  {
    ShortTexts(h);
    hide Good, ValueText;
  }

  lemma RunValued(p: Parser, h: Header)
    requires BeforeLine(p) && Good(h)
    ensures Run(p.(heval := Kind(h), buf := [], state := HdrSpaceBeforeVal), h.gap + ValueText(h) + "\r\n")
         == Outcome(Behind(p, h), if h.Other? && AnyCase(h.name, "host") then [HostName(h.value)] else [],
                    |h.gap + ValueText(h) + "\r\n"|)
  {
    var valued := p.(heval := Kind(h), buf := [], state := HdrSpaceBeforeVal);
    var full := p.(heval := Kind(h), buf := ValueText(h), state := HdrVal);
    var host := if h.Other? && AnyCase(h.name, "host") then [HostName(h.value)] else [];
    RunValueEnd(full, p, h);
    hide Run, AnyCase, ValueText, Behind, InLine;
    RunGap(valued, h.gap, ValueText(h));
    hide *;
    RunBoth(valued, h.gap + ValueText(h), full, [], "\r\n", Behind(p, h), host);
    assert [] + host == host;
  }

  /** One header line. */
  lemma RunLine(p: Parser, h: Header)
    requires BeforeLine(p) && Good(h)
    ensures Run(p, LineText(h)) == Outcome(Behind(p, h), Pending(p) + LineCalls(h), |LineText(h)|)
    ensures BeforeLine(Behind(p, h))
  {
    RunNamed(p, h);
    RunValued(p, h);
    StillBefore(p, h);
    hide *;
    var host := if h.Other? && AnyCase(h.name, "host") then [HostName(h.value)] else [];
    RunBoth(p, h.name + ":", p.(heval := Kind(h), buf := [], state := HdrSpaceBeforeVal),
            Pending(p) + [HeaderKey(h.name)], h.gap + ValueText(h) + "\r\n", Behind(p, h), host);
    LineIs(h);
    Regroup(Pending(p), [HeaderKey(h.name)], host);
  }

  lemma LineIs(h: Header)
    ensures h.name + ":" + (h.gap + ValueText(h) + "\r\n") == LineText(h)
    ensures LineCalls(h)
         == [HeaderKey(h.name)] + if h.Other? && AnyCase(h.name, "host") then [HostName(h.value)] else []
  {
    hide ValueText, AnyCase;
  }

  lemma ShortTexts(h: Header)
    requires Good(h)
    ensures |h.name| < STACK_MAX && |ValueText(h)| < STACK_MAX
  {
  }

  // ---------------------------------------------------------------------------- the whole block

  /** A block of header lines and the empty line behind them. */
  function BlockText(hs: seq<Header>): string {
    HeaderLines(hs) + "\r\n"
  }

  /** In front of the first header line of a message. */
  const BEFORE: Parser := Parser(HdrlineStart, NoError, false, false, 0, 0, Plain, [])

  /** What the lines leave in the parser. */
  function BehindAll(p: Parser, hs: seq<Header>): Parser
    decreases |hs|
  {
    if hs == [] then p else BehindAll(Behind(p, hs[0]), hs[1..])
  }

  /** The calls of the lines, the last value still waiting. */
  function AllCalls(p: Parser, hs: seq<Header>): seq<Call>
    decreases |hs|
  {
    if hs == [] then [] else Pending(p) + LineCalls(hs[0]) + AllCalls(Behind(p, hs[0]), hs[1..])
  }

  lemma {:induction false} RunLines(p: Parser, hs: seq<Header>)
    requires BeforeLine(p) && forall k :: 0 <= k < |hs| ==> Good(hs[k])
    ensures Run(p, HeaderLines(hs)) == Outcome(BehindAll(p, hs), AllCalls(p, hs), |HeaderLines(hs)|)
    ensures BeforeLine(BehindAll(p, hs))
    decreases |hs|
  {
    if hs == [] {
      RunStops(p, []);
    } else {
      var q := Behind(p, hs[0]);
      RunLine(p, hs[0]);
      hide Run, Good, LineText, Behind, Pending, LineCalls, BeforeLine;
      RunLines(q, hs[1..]);
      RunBoth(p, LineText(hs[0]), q, Pending(p) + LineCalls(hs[0]), HeaderLines(hs[1..]), BehindAll(q, hs[1..]),
              AllCalls(q, hs[1..]));
    }
  }

  /** With the values put where they belong. */
  lemma {:induction false} CallsInOrder(p: Parser, hs: seq<Header>)
    requires hs != [] || p.state.HdrDone?
    ensures AllCalls(p, hs) + [HeaderVal(BehindAll(p, hs).buf), HeadersComplete]
         == Pending(p) + HeadCalls(hs)
    decreases |hs|
  {
    hide LineCalls;
    if hs == [] {
      assert [] + [HeaderVal(p.buf), HeadersComplete] == [HeaderVal(p.buf)] + [HeadersComplete];
    } else {
      var q, more := Behind(p, hs[0]), hs[1..];
      CallsInOrder(q, more);
      hide Behind;
      CallsShift(p, hs, q);
    }
  }

  lemma Regroup(a: seq<Call>, b: seq<Call>, c: seq<Call>)
    ensures a + (b + c) == a + b + c
  {
  }

  lemma CallsShift(p: Parser, hs: seq<Header>, q: Parser)
    requires hs != [] && q == Behind(p, hs[0])
    requires AllCalls(q, hs[1..]) + [HeaderVal(BehindAll(q, hs[1..]).buf), HeadersComplete]
          == Pending(q) + HeadCalls(hs[1..])
    ensures AllCalls(p, hs) + [HeaderVal(BehindAll(p, hs).buf), HeadersComplete] == Pending(p) + HeadCalls(hs)
  {
    assert Pending(q) == [HeaderVal(ValueText(hs[0]))];
    hide LineCalls, ValueText, Behind, Pending;
    var last := [HeaderVal(BehindAll(q, hs[1..]).buf), HeadersComplete];
    var line := Pending(p) + LineCalls(hs[0]);
    Regroup(line, AllCalls(q, hs[1..]), last);
    Regroup(line, Pending(q), HeadCalls(hs[1..]));
    Regroup(Pending(p), LineCalls(hs[0]) + Pending(q), HeadCalls(hs[1..]));
    Regroup(Pending(p), LineCalls(hs[0]), Pending(q));
  }

  /** Only the last Content-Length counts, and any line that says chunked. */
  lemma {:induction false} Frames(p: Parser, hs: seq<Header>)
    ensures var q := BehindAll(p, hs);
      && q.contentLen == LastLength(p.contentLen, hs) && q.chunked == (p.chunked || AnyChunked(hs))
      && q.trailing == p.trailing
    decreases |hs|
  {
    if hs != [] {
      Frames(Behind(p, hs[0]), hs[1..]);
      hide ValueText;
    }
  }

  /** The empty line behind the headers decides: chunks, a body of known length, or none. */
  lemma RunEmptyLine(p: Parser)
    requires !p.trailing && Ready(p) && p.state.HdrDone?
    ensures var q := p.(buf := []);
      Run(p, "\r\n") == if p.chunked then Outcome(q.(state := ChunkSizeStart), [HeaderVal(p.buf), HeadersComplete], 2)
                        else if p.contentLen > 0 then
                          Outcome(q.(state := BodyRead), [HeaderVal(p.buf), HeadersComplete], 2)
                        else Outcome(q.(state := Start), [HeaderVal(p.buf), HeadersComplete, MsgComplete], 2)
  {
    hide Run;
    RunTwo(p, '\r', '\n');
    assert "\r\n" == ['\r', '\n'];
    assert [HeaderVal(p.buf), HeadersComplete] + [MsgComplete] == [HeaderVal(p.buf), HeadersComplete, MsgComplete];
    assert [HeaderVal(p.buf), HeadersComplete] + [] == [HeaderVal(p.buf), HeadersComplete];
  }

  /** Any block of headers: names and values are handed over in order, and the body is read as chunks if a
      line says so, else by the last Content-Length, else there is none. */
  lemma RunBlock(hs: seq<Header>) returns (q: Parser)
    requires hs != [] && forall k :: 0 <= k < |hs| ==> Good(hs[k])
    ensures Run(BEFORE, BlockText(hs))
         == Outcome(q, HeadCalls(hs) + if q.state.Start? then [MsgComplete] else [], |BlockText(hs)|)
    ensures Ready(q) && !q.trailing && q.contentLen == LengthOf(hs)
    ensures q.state == if AnyChunked(hs) then ChunkSizeStart else if LengthOf(hs) > 0 then BodyRead else Start
  {
    RunLines(BEFORE, hs);
    Frames(BEFORE, hs);
    BehindIsDone(BEFORE, hs);
    var p := BehindAll(BEFORE, hs);
    q := EmptyLine(p);
    var tail := [HeaderVal(p.buf), HeadersComplete];
    var end: seq<Call> := if q.state.Start? then [MsgComplete] else [];
    HeadInOrder(hs);
    hide *;
    RunBoth(BEFORE, HeaderLines(hs), p, AllCalls(BEFORE, hs), "\r\n", q, tail + end);
    Regroup(AllCalls(BEFORE, hs), tail, end);
    BlockIs(hs);
  }

  lemma BlockIs(hs: seq<Header>)
    ensures BlockText(hs) == HeaderLines(hs) + "\r\n"
  {
  }

  lemma HeadInOrder(hs: seq<Header>)
    requires hs != []
    ensures AllCalls(BEFORE, hs) + [HeaderVal(BehindAll(BEFORE, hs).buf), HeadersComplete] == HeadCalls(hs)
  {
    hide AllCalls, BehindAll, HeadCalls;
    CallsInOrder(BEFORE, hs);
    assert Pending(BEFORE) + HeadCalls(hs) == HeadCalls(hs);
  }

  lemma EmptyLine(p: Parser) returns (q: Parser)
    requires !p.trailing && Ready(p) && p.state.HdrDone?
    ensures q
         == p.(buf := [],
               state := if p.chunked then ChunkSizeStart else if p.contentLen > 0 then BodyRead else Start)
    ensures Ready(q)
    ensures Run(p, "\r\n")
         == Outcome(q, [HeaderVal(p.buf), HeadersComplete] + if q.state.Start? then [MsgComplete] else [], 2)
  {
    RunEmptyLine(p);
    q := Run(p, "\r\n").parser;
    hide Run;
    var tail := [HeaderVal(p.buf), HeadersComplete];
    assert tail + [] == tail && tail + [MsgComplete] == [HeaderVal(p.buf), HeadersComplete, MsgComplete];
  }

  lemma {:induction false} BehindIsDone(p: Parser, hs: seq<Header>)
    requires hs != [] || p.state.HdrDone?
    ensures BehindAll(p, hs).state.HdrDone?
    decreases |hs|
  {
    if hs != [] {
      BehindIsDone(Behind(p, hs[0]), hs[1..]);
    }
  }

  // ---------------------------------------------------------------------------- whole messages

  /** Headers with a Content-Length and as many bytes: those bytes, and one complete message. */
  lemma FixedMessage(hs: seq<Header>, body: string)
    requires hs != [] && forall k :: 0 <= k < |hs| ==> Good(hs[k])
    requires !AnyChunked(hs) && LengthOf(hs) == |body| > 0
    ensures var o := Run(BEFORE, BlockText(hs) + body);
      && o.parser.state.Start? && o.parser.error.NoError? && o.consumed == |BlockText(hs) + body|
      && o.calls == HeadCalls(hs) + (Singles(body) + [MsgComplete])
  {
    var q := RunBlock(hs);
    RunFixed(q, body);
    hide Run, BlockText, HeadCalls, Singles, AnyChunked, LengthOf;
    assert HeadCalls(hs) + [] == HeadCalls(hs);
    RunBoth(BEFORE, BlockText(hs), q, HeadCalls(hs), body, Run(q, body).parser, Singles(body) + [MsgComplete]);
  }

  /** Headers of which one says chunked, chunks, and the last one: the data of the chunks, and one complete
      message, whatever Content-Length there is. */
  lemma ChunkedMessage(hs: seq<Header>, chunks: seq<string>)
    requires hs != [] && forall k :: 0 <= k < |hs| ==> Good(hs[k])
    requires AnyChunked(hs) && forall k :: 0 <= k < |chunks| ==> |chunks[k]| < 0x1_0000_0000
    ensures var s := BlockText(hs) + (Chunks(chunks) + LAST);
      var o := Run(BEFORE, s);
      && o.parser.state.Start? && o.parser.error.NoError? && o.consumed == |s|
      && o.calls == HeadCalls(hs) + (ChunkCalls(chunks) + [ChunksComplete, MsgComplete])
  {
    var q := RunBlock(hs);
    ChunkedRoundTrip(q, chunks);
    hide Run, BlockText, HeadCalls, Chunks, ChunkCalls, AnyChunked, LengthOf;
    assert HeadCalls(hs) + [] == HeadCalls(hs);
    var s := Chunks(chunks) + LAST;
    var calls := ChunkCalls(chunks) + [ChunksComplete, MsgComplete];
    RunBoth(BEFORE, BlockText(hs), q, HeadCalls(hs), s, Run(q, s).parser, calls);
  }

  /** Headers that announce no body: one complete message behind the empty line, and nothing more is
      taken. */
  lemma NoBody(hs: seq<Header>, more: string)
    requires hs != [] && forall k :: 0 <= k < |hs| ==> Good(hs[k])
    requires !AnyChunked(hs) && LengthOf(hs) == 0
    ensures var o := Run(BEFORE, BlockText(hs) + more);
      && o.parser.state.Start? && o.parser.error.NoError? && o.consumed == |BlockText(hs)|
      && o.calls == HeadCalls(hs) + [MsgComplete]
  {
    var q := RunBlock(hs);
    RunSplit(BEFORE, BlockText(hs), more);
    RunStops(q, more);
    hide Run, HeadCalls;
    assert HeadCalls(hs) + [MsgComplete] + [] == HeadCalls(hs) + [MsgComplete];
  }

  lemma {:induction false} DataHead(hs: seq<Header>)
    ensures Data(HeadCalls(hs)) == []
    decreases |hs|
  {
    if hs == [] {
      assert [HeadersComplete][1..] == [];
    } else {
      DataHead(hs[1..]);
      DataAppend(LineCalls(hs[0]) + [HeaderVal(ValueText(hs[0]))], HeadCalls(hs[1..]));
      assert Silent(LineCalls(hs[0]) + [HeaderVal(ValueText(hs[0]))]);
      DataSilent(LineCalls(hs[0]) + [HeaderVal(ValueText(hs[0]))]);
    }
  }

  /** A new parser that is given a message with a Content-Length, however it is cut, hands over its body. */
  method Receive(hs: seq<Header>, body: string, pieces: seq<string>) returns (data: string, calls: seq<Call>)
    requires hs != [] && forall k :: 0 <= k < |hs| ==> Good(hs[k])
    requires !AnyChunked(hs) && LengthOf(hs) == |body| > 0
    requires Concat(pieces) == BlockText(hs) + body
    ensures data == body && Expand(calls) == HeadCalls(hs) + (Singles(body) + [MsgComplete])
  {
    var p := new HtParser();
    assert p.Now() == BEFORE;
    FixedMessage(hs, body);
    var n;
    n, calls := p.Feed(pieces);
    ExpandKeepsData(calls);
    DataHead(hs);
    DataAppend(HeadCalls(hs), Singles(body) + [MsgComplete]);
    DataFixed(body, [MsgComplete]);
    data := Data(calls);
  }
}
