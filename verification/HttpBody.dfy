/** htparser_run from the first header line on as a loop over a buffer, its count of the bytes read,
    and the chunk senders of evhtp. */
module HttpBody {
  import opened Common
  import opened BodySpec
  import opened Trailers
  import opened ChunkedBodies

  // ------------------------------------------------------------------------- the byte counter

  /** By how much the byte counter falls behind: it counts a slice of the body as one byte. */
  function Uncounted(calls: seq<Call>): int {
    if calls == [] then 0 else (if calls[0].Body? then |calls[0].s| - 1 else 0) + Uncounted(calls[1..])
  }

  predicate NoEmptySlice(calls: seq<Call>) {
    forall k :: 0 <= k < |calls| && calls[k].Body? ==> calls[k].s != []
  }

  lemma {:induction false} UncountedAppend(x: seq<Call>, y: seq<Call>)
    ensures Uncounted(x + y) == Uncounted(x) + Uncounted(y)
  {
    if x == [] {
      assert x + y == y;
    } else {
      UncountedAppend(x[1..], y);
      assert (x + y)[1..] == x[1..] + y;
    }
  }

  /** How many of the calls hand over data directly behind data. */
  function Pairs(calls: seq<Call>): nat {
    if |calls| < 2 then 0 else (if calls[0].Body? && calls[1].Body? then 1 else 0) + Pairs(calls[1..])
  }

  predicate EndsInData(calls: seq<Call>) {
    calls != [] && calls[|calls| - 1].Body?
  }

  predicate BeginsWithData(calls: seq<Call>) {
    calls != [] && calls[0].Body?
  }

  lemma {:induction false} PairsAppend(x: seq<Call>, y: seq<Call>)
    ensures Pairs(x + y) == Pairs(x) + Pairs(y) + if EndsInData(x) && BeginsWithData(y) then 1 else 0
    decreases |x|
  {
    if x == [] {
      assert x + y == y;
    } else {
      PairsAppend(x[1..], y);
      assert (x + y)[1..] == x[1..] + y;
    }
  }

  lemma {:induction false} PairsSingles(s: string)
    ensures Pairs(Singles(s)) == if s == [] then 0 else |s| - 1
  {
    if s != [] {
      assert Singles(s)[1..] == Singles(s[1..]);
      PairsSingles(s[1..]);
    }
  }

  lemma {:induction false} NoPairs(calls: seq<Call>)
    ensures Pairs(calls) == 0 <==> forall k :: 0 < k < |calls| ==> !(calls[k - 1].Body? && calls[k].Body?)
    decreases |calls|
  {
    if |calls| >= 2 {
      NoPairs(calls[1..]);
      assert forall k :: 0 < k < |calls| - 1 ==> calls[1..][k - 1] == calls[k] && calls[1..][k] == calls[k + 1];
      if Pairs(calls) == 0 {
        forall k | 0 < k < |calls|
          ensures !(calls[k - 1].Body? && calls[k].Body?)
        {
          assert k > 1 ==> calls[k - 1] == calls[1..][k - 2] && calls[k] == calls[1..][k - 1];
        }
      }
    }
  }

  /** How often the loop counts a byte, the slices of a body taken apart: a CR right behind a colon
      is looked at twice, and with a full buffer nothing is counted any more. */
  function Counted(p: Parser, ch: char): nat {
    if Full(p) then 0
    else if p.state.HdrSpaceBeforeVal? && ch == '\r' && |p.buf| + 1 < STACK_MAX then 2
    else 1
  }

  function CountedAll(p: Parser, s: string): nat
    decreases |s|
  {
    if s == [] || !Going(p) then 0 else Counted(p, s[0]) + CountedAll(Examine(p, s[0]).0, s[1..])
  }

  lemma {:induction false} CountedSplit(p: Parser, s: string, t: string)
    ensures CountedAll(p, s + t) == CountedAll(p, s) + CountedAll(Run(p, s).parser, t)
    decreases |s|
  {
    hide Examine, Counted;
    if s == [] {
      assert s + t == t;
    } else if Going(p) {
      CountedSplit(Examine(p, s[0]).0, s[1..], t);
      assert (s + t)[1..] == s[1..] + t;
    }
  }

  /** A stretch of body data. */
  lemma {:induction false} CountedData(p: Parser, s: string)
    requires (p.state.ChunkData? || p.state.BodyRead?) && Ready(p) && |s| <= p.contentLen
    ensures CountedAll(p, s) == |s|
    decreases |s|
  {
    if |s| > 1 {
      CountedData(p.(contentLen := p.contentLen - 1), s[1..]);
    }
  }

  lemma BodyByte(p: Parser, ch: char)
    requires !p.state.Start? && !InHeader(p.state) && Ready(p)
    ensures var q, calls := Examine(p, ch).0, Examine(p, ch).1;
      && Counted(p, ch) == 1 && (InHeader(q.state) ==> calls == [ChunksComplete])
      && (q.error.NoError? ==> Ready(q))
  {
    hide Unhex;
  }

  lemma {:induction false} CountedOnce(p: Parser, s: string)
    requires !InHeader(p.state) && Ready(p) && ChunksComplete !in Run(p, s).calls
    ensures CountedAll(p, s) == Run(p, s).consumed
    decreases |s|
  {
    if s != [] && Going(p) {
      BodyByte(p, s[0]);
      hide Examine, Counted, InHeader, Full;
      var q, calls := Examine(p, s[0]).0, Examine(p, s[0]).1;
      assert Run(p, s).calls == calls + Run(q, s[1..]).calls;
      if Going(q) {
        assert forall c :: c in calls ==> c in Run(p, s).calls;
        assert [ChunksComplete][0] == ChunksComplete;
        CountedOnce(q, s[1..]);
      }
    }
  }

  /** Up to the last chunk each byte is counted once, but for the slices: the count is right exactly
      while no two calls in succession hand over data. */
  lemma CountIff(p: Parser, s: string)
    requires !InHeader(p.state) && Ready(p) && ChunksComplete !in Run(p, s).calls
    ensures var calls := Run(p, s).calls;
      CountedAll(p, s) - Pairs(calls) == Run(p, s).consumed
      <==> forall k :: 0 < k < |calls| ==> !(calls[k - 1].Body? && calls[k].Body?)
  {
    CountedOnce(p, s);
    NoPairs(Run(p, s).calls);
  }

  // ---------------------------------------------------------------------- one turn of the loop

  /** From p with s to come to q with s[k..] to come, n bytes having been counted. */
  ghost predicate Step(p: Parser, s: string, q: Parser, calls: seq<Call>, k: int, n: int) {
    && 0 <= k <= |s| && Then(Outcome(q, Expand(calls), k), s[k..]) == Run(p, s)
    && CountedAll(p, s) == n + Uncounted(calls) + CountedAll(q, s[k..])
    && Uncounted(calls) == Pairs(Expand(calls))
  }

  /** Behind data there is another call before more data, unless the buffer ends. */
  predicate Follows(p: Parser, q: Parser, calls: seq<Call>, atEnd: bool) {
    && (BeginsWithData(Expand(calls)) ==> p.state.ChunkData? || p.state.BodyRead?)
    && (EndsInData(Expand(calls)) && Going(q) && !atEnd ==> q.state.ChunkDataAlmostDone?)
    && (p.state.ChunkDataAlmostDone? && Going(q) ==> q.state.ChunkDataDone?)
    && (p.state.ChunkDataDone? && Going(q) ==> Expand(calls) != [])
  }

  lemma StepStretch(p: Parser, s: string, q: Parser, calls: seq<Call>, k: nat, n: nat)
    requires k <= |s| && Run(p, s[..k]) == Outcome(q, Expand(calls), k)
    requires CountedAll(p, s[..k]) == n + Uncounted(calls) && Uncounted(calls) == Pairs(Expand(calls))
    ensures Step(p, s, q, calls, k, n)
  {
    hide Run, CountedAll;
    assert s == s[..k] + s[k..];
    RunSplit(p, s[..k], s[k..]);
    CountedSplit(p, s[..k], s[k..]);
  }

  lemma CountedOne(p: Parser, ch: char)
    requires Going(p)
    ensures CountedAll(p, [ch]) == Counted(p, ch)
  {
    hide Examine, Counted;
    assert [ch][1..] == [];
  }

  predicate NoData(calls: seq<Call>) {
    forall k :: 0 <= k < |calls| ==> !calls[k].Body?
  }

  lemma {:induction false} ExpandNoData(calls: seq<Call>)
    requires NoData(calls)
    ensures Expand(calls) == calls && Uncounted(calls) == 0 && NoEmptySlice(calls)
    decreases |calls|
  {
    if calls != [] {
      ExpandNoData(calls[1..]);
      assert [calls[0]] + calls[1..] == calls;
    }
  }

  /** The states that look at one byte hand over no data. */
  lemma ExamineNoData(p: Parser, ch: char)
    requires !p.state.Start? && (Full(p) || (!p.state.ChunkData? && !p.state.BodyRead?))
    ensures NoData(Examine(p, ch).1)
    ensures Going(Examine(p, ch).0) && p.state.ChunkDataAlmostDone? ==> Examine(p, ch).0.state.ChunkDataDone?
    ensures Going(Examine(p, ch).0) && p.state.ChunkDataDone? ==> Examine(p, ch).1 != []
  {
    hide StrToUint64, KindOf, Unhex;
  }

  lemma StepByte(p: Parser, s: string)
    requires s != [] && Going(p) && (Full(p) || (!p.state.ChunkData? && !p.state.BodyRead?))
    ensures NoEmptySlice(Examine(p, s[0]).1)
    ensures Step(p, s, Examine(p, s[0]).0, Examine(p, s[0]).1, 1, Counted(p, s[0]))
    ensures forall atEnd :: Follows(p, Examine(p, s[0]).0, Examine(p, s[0]).1, atEnd)
  {
    ExamineNoData(p, s[0]);
    hide Examine, Counted, Run, CountedAll;
    var q, calls := Examine(p, s[0]).0, Examine(p, s[0]).1;
    ExpandNoData(calls);
    NoPairs(calls);
    RunOne(p, s[0]);
    CountedOne(p, s[0]);
    assert s[..1] == [s[0]];
    StepStretch(p, s, q, calls, 1, Counted(p, s[0]));
  }

  /** A CR right behind the colon leads to the end of a value of one space, at the same byte. */
  lemma StepAgain(p: Parser, s: string)
    requires s != [] && s[0] == '\r' && p.state.HdrSpaceBeforeVal? && Ready(p)
    ensures var q := p.(buf := p.buf + " ", state := HdrVal);
      Step(p, s, q, [], 0, 1) && forall atEnd :: Follows(p, q, [], atEnd)
  {
    var q := p.(buf := p.buf + " ", state := HdrVal);
    hide EndValue;
    assert Examine(q, '\r') == Examine(p, '\r') && Counted(p, '\r') == 1 + Counted(q, '\r');
    hide Examine, Counted;
    assert s[0..] == s && Run(q, s) == Run(p, s);
    AtOnce(Run(q, s));
  }

  /** A slice of a body: as long as the bytes there and the bytes due allow. */
  lemma StepSlice(p: Parser, s: string)
    requires (p.state.ChunkData? || p.state.BodyRead?) && Ready(p) && s != []
    ensures var n := if |s| < p.contentLen then |s| else p.contentLen;
      var last := n == p.contentLen;
      var q := p.(contentLen := p.contentLen - n,
                  state := if !last then p.state else if p.state.ChunkData? then ChunkDataAlmostDone else Start);
      var calls := (if n > 0 then [Body(s[..n])] else []) + if last && p.state.BodyRead? then [MsgComplete] else [];
      var k := if n > 0 then n else 1;
      Step(p, s, q, calls, k, 1) && Follows(p, q, calls, k == |s|)
  {
    hide Run, CountedAll, Step;
    var n := if |s| < p.contentLen then |s| else p.contentLen;
    SliceCalls(s[..n]);
    var tail: seq<Call> := if n == p.contentLen && p.state.BodyRead? then [MsgComplete] else [];
    var last := if p.state.ChunkData? then ChunkDataAlmostDone else Start;
    var q := p.(contentLen := p.contentLen - n, state := if n < p.contentLen then p.state else last);
    assert [Body(s[..n])] + [] == [Body(s[..n])] && Singles(s[..n]) + [] == Singles(s[..n]);
    if n > 0 {
      CountedData(p, s[..n]);
      if p.state.ChunkData? {
        RunData(p, s[..n]);
      } else {
        RunFixed(p, s[..n]);
      }
      StepStretch(p, s, q, [Body(s[..n])] + tail, n, 1);
    } else {
      assert s[..1] == [s[0]];
      RunOne(p, s[0]);
      CountedOne(p, s[0]);
      assert [] + [] == tail || [] + tail == [MsgComplete];
      StepStretch(p, s, q, [] + tail, 1, 1);
    }
  }

  lemma Longer(calls: seq<Call>, at: nat, p: Parser, s: string, q: Parser, more: seq<Call>, k: nat)
    requires k <= |s| && Then(Outcome(q, more, k), s[k..]) == Run(p, s)
    ensures Then(Outcome(q, calls + more, at + k), s[k..]) == Then(Outcome(p, calls, at), s)
  {
    hide Run;
    var rest := Run(q, s[k..]).calls;
    assert calls + (more + rest) == calls + more + rest;
  }

  /** The loop stands at i in state q; what is left to do there completes the run. */
  ghost predicate Reached(start: Parser, data: string, q: Parser, calls: seq<Call>, i: int, n: int) {
    && 0 <= i <= |data| && Then(Outcome(q, Expand(calls), i), data[i..]) == Run(start, data)
    && n + CountedAll(q, data[i..]) == CountedAll(start, data) - Uncounted(calls)
    && Uncounted(calls) == Pairs(Expand(calls))
    && (EndsInData(Expand(calls)) && i < |data| && Going(q) ==>
          q.state.ChunkDataAlmostDone? || q.state.ChunkDataDone?)
  }

  lemma ReachedStart(start: Parser, data: string)
    ensures Reached(start, data, start, [], 0, 0)
  {
    hide Run, CountedAll;
    assert data[0..] == data;
    NoPairs([]);
    AtOnce(Run(start, data));
  }

  lemma ReachedEnd(start: Parser, data: string, q: Parser, calls: seq<Call>, i: int, n: int)
    requires Reached(start, data, q, calls, i, n) && (i == |data| || !Going(q))
    ensures Run(start, data) == Outcome(q, Expand(calls), i)
    ensures n == CountedAll(start, data) - Pairs(Run(start, data).calls)
  {
    RunStops(q, data[i..]);
    CountStops(q, data[i..]);
    hide Run, CountedAll, Pairs;
    assert Expand(calls) + [] == Expand(calls);
  }

  lemma Onward(
    start: Parser, data: string, p: Parser, calls: seq<Call>, i: int, n: int,
    q: Parser, more: seq<Call>, next: int, m: int)
    requires Reached(start, data, p, calls, i, n) && i < |data| && Going(p)
    requires Step(p, data[i..], q, more, next - i, m) && Follows(p, q, more, next == |data|)
    ensures Reached(start, data, q, calls + more, next, n + m)
  {
    hide Run, CountedAll, Pairs, Expand, Uncounted;
    ExpandAppend(calls, more);
    UncountedAppend(calls, more);
    PairsAppend(Expand(calls), Expand(more));
    assert data[i..][next - i..] == data[next..];
    Longer(Expand(calls), i, p, data[i..], q, Expand(more), next - i);
    assert Expand(more) == [] ==> Expand(calls) + Expand(more) == Expand(calls);
  }

  lemma CountStops(p: Parser, s: string)
    ensures s == [] || !Going(p) ==> CountedAll(p, s) == 0
  {
  }

  function BehindHeaders(chunked: bool, length: nat, heval: HeaderKind): Parser {
    Parser(if chunked then ChunkSizeStart else BodyRead, NoError, false, chunked, length, length, heval, [])
  }

  /** The digits of a Content-Length, in 64 bits. */
  method ReadUint64(s: string) returns (value: nat, err: bool)
    ensures err == StrToUint64(s).None? && value == if err then 0 else StrToUint64(s).value
  {
    value, err := 0, false;
    if |s| > 20 {
      return 0, true;
    }
    assert s[0..] == s;
    for k := 0 to |s|
      invariant Uint64From(value, s[k..]) == StrToUint64(s)
    {
      if s[k] < '0' || s[k] > '9' {
        return 0, true;
      }
      var check := (value * 10 + DigitValue(s[k])) % UINT64;
      if value > 0 && check <= value {
        return 0, true;
      }
      assert s[k..][1..] == s[k + 1..];
      value := check;
    }
  }

  /** The headers that matter are told apart by their lengths first. */
  method FindKind(key: string) returns (kind: HeaderKind)
    ensures kind == KindOf(key)
  {
    kind := Plain;
    match |key| {
      case 4 => if SameLetters(key, "host") { kind := Hostname; }
      case 14 => if SameLetters(key, "content-length") { kind := ContentLength; }
      case 17 => if SameLetters(key, "transfer-encoding") { kind := TransferEncoding; }
      case _ =>
    }
  }

  // ------------------------------------------------------------------------------- the parser

  class HtParser {
    var state: State
    var error: Error
    var trailing: bool
    var chunked: bool
    var contentLen: nat
    var origContentLen: nat
    var heval: HeaderKind
    const buf: array<char>
    var bufIdx: nat
    var bytesRead: int

    ghost predicate Valid()
      reads this
    {
      buf.Length == STACK_MAX && bufIdx <= buf.Length
    }

    ghost function Now(): Parser
      reads this, buf
      requires Valid()
    {
      Parser(state, error, trailing, chunked, contentLen, origContentLen, heval, buf[..bufIdx])
    }

    /** In front of the first header line. */
    constructor ()
      ensures Valid() && fresh(buf)
      ensures Now() == Parser(HdrlineStart, NoError, false, false, 0, 0, Plain, [])
    {
      state, error, trailing, chunked := HdrlineStart, NoError, false, false;
      contentLen, origContentLen, heval := 0, 0, Plain;
      buf, bufIdx, bytesRead := new char[STACK_MAX], 0, 0;
    }

    /** As the headers leave the parser. */
    constructor Behind(chunked: bool, length: nat, heval: HeaderKind)
      ensures Valid() && fresh(buf)
      ensures Now() == BehindHeaders(chunked, length, heval)
    {
      state, error, trailing := if chunked then ChunkSizeStart else BodyRead, NoError, false;
      contentLen, origContentLen, bytesRead := length, length, 0;
      this.chunked, this.heval := chunked, heval;
      buf, bufIdx := new char[STACK_MAX], 0;
    }

    /** One call, from the first header line on: apart from the slices in which the body is handed
        over, it is the run byte by byte over the buffer. */
    method Run(data: string) returns (i: nat, calls: seq<Call>)
      requires Valid()
      modifies this, buf
      ensures Valid()
      ensures var o := BodySpec.Run(old(Now()).(error := NoError), data);
        && Now() == o.parser && i == o.consumed && Expand(calls) == o.calls
        && bytesRead == CountedAll(old(Now()).(error := NoError), data) - Pairs(o.calls)
      ensures NoEmptySlice(calls)
    {
      hide Reached, Step, Follows, BodySpec.Run, CountedAll;
      error := NoError;
      bytesRead := 0;
      i, calls := 0, [];
      ghost var start := Now();
      ReachedStart(start, data);
      while i < |data| && !state.Start? && error.NoError?
        invariant Valid() && 0 <= i <= |data| && NoEmptySlice(calls)
        invariant Reached(start, data, Now(), calls, i, bytesRead)
        decreases |data| - i, if state.HdrSpaceBeforeVal? then 1 else 0
      {
        ghost var before, from, counted := Now(), i, bytesRead;
        var next, more := Turn(data, i);
        Onward(start, data, before, calls, from, counted, Now(), more, next, bytesRead - counted);
        i, calls := next, calls + more;
      }
      ReachedEnd(start, data, Now(), calls, i, bytesRead);
    }

    /** One turn of the loop: a byte, a slice of the body, or a CR that is to be looked at again. */
    method Turn(data: string, at: nat) returns (i: nat, calls: seq<Call>)
      requires Valid() && at < |data| && Going(Now())
      modifies this, buf
      ensures Valid() && at <= i <= |data| && NoEmptySlice(calls)
      ensures i > at || (old(state.HdrSpaceBeforeVal?) && state.HdrVal?)
      ensures Step(old(Now()), data[at..], Now(), calls, i - at, bytesRead - old(bytesRead))
      ensures Follows(old(Now()), Now(), calls, i == |data|)
    {
      hide Step, Follows;
      if bufIdx >= buf.Length {
        error := TooBig;
        StepByte(old(Now()), data[at..]);
        i, calls := at + 1, [];
        return;
      }
      bytesRead := bytesRead + 1;
      if state.ChunkData? || state.BodyRead? {
        i, calls := ReadSlice(data, at);
      } else if InHeader(state) {
        var again;
        calls, again := SwitchHeader(data[at]);
        i := if again then at else at + 1;
        if again {
          StepAgain(old(Now()), data[at..]);
        } else {
          StepByte(old(Now()), data[at..]);
        }
      } else {
        calls := SwitchBody(data[at]);
        i := at + 1;
        StepByte(old(Now()), data[at..]);
      }
    }

    method ReadSlice(data: string, at: nat) returns (i: nat, calls: seq<Call>)
      requires Valid() && at < |data| && (state.ChunkData? || state.BodyRead?) && Ready(Now())
      modifies `state, `contentLen
      ensures Valid() && at < i <= |data| && NoEmptySlice(calls)
      ensures Step(old(Now()), data[at..], Now(), calls, i - at, 1)
      ensures Follows(old(Now()), Now(), calls, i == |data|)
    {
      hide BodySpec.Run, Step, CountedAll, Full, Expand, Uncounted, Follows, Pairs, Singles;
      var toRead := if |data| - at < contentLen then |data| - at else contentLen;
      calls, i := [], at;
      if toRead > 0 {
        calls := [Body(data[at..at + toRead])];
        i := at + toRead - 1;
      }
      if state.ChunkData? {
        if toRead == contentLen {
          state := ChunkDataAlmostDone;
        }
        contentLen := contentLen - toRead;
      } else if toRead > 0 {
        contentLen := contentLen - toRead;
        if contentLen == 0 {
          calls := calls + [MsgComplete];
          state := Start;
        }
      } else {
        calls := calls + [MsgComplete];
        state := Start;
      }
      i := i + 1;
      StepSlice(old(Now()), data[at..]);
      assert data[at..][..toRead] == data[at..at + toRead];
      assert forall c: seq<Call> :: c + [] == c && [] + c == c;
    }

    method Keep(ch: char)
      requires Valid() && bufIdx < buf.Length
      modifies `bufIdx, buf
      ensures Valid() && Now() == old(Now()).(buf := old(Now()).buf + [ch])
    {
      buf[bufIdx] := ch;
      bufIdx := bufIdx + 1;
      assert buf[..bufIdx] == old(buf[..bufIdx]) + [ch];
    }

    /** The CR behind a value, with the headers the parser itself looks at. */
    method EndOfValue() returns (calls: seq<Call>)
      requires Valid()
      modifies `state, `error, `chunked, `contentLen, `origContentLen
      ensures Valid() && (Now(), calls) == EndValue(old(Now()))
    {
      calls := [];
      if heval.Hostname? {
        calls := [HostName(buf[..bufIdx])];
      } else if heval.ContentLength? {
        var n, err := ReadUint64(buf[..bufIdx]);
        contentLen, origContentLen := n, n;
        if err {
          error := TooBig;
          return;
        }
      } else if heval.TransferEncoding? {
        if bufIdx == 7 && (buf[0] == 'c' || buf[0] == 'C') && buf[1..7] == "hunked" {
          assert buf[..7] == [buf[0]] + buf[1..7];
          chunked := true;
        }
      }
      state := HdrAlmostDone;
    }

    /** The states of a header line. A CR right behind the colon is to be looked at again. */
    method SwitchHeader(ch: char) returns (calls: seq<Call>, again: bool)
      requires Valid() && InHeader(state) && bufIdx < buf.Length && error.NoError?
      modifies `state, `error, `chunked, `contentLen, `origContentLen, `heval, `bufIdx, buf
      ensures Valid() && again == (old(state).HdrSpaceBeforeVal? && ch == '\r')
      ensures if again then calls == [] && Now() == old(Now()).(buf := old(Now()).buf + " ", state := HdrVal)
              else (Now(), calls) == ExamineHeader(old(Now()), ch)
    {
      hide EndValue, EndHeaders, KindOf;
      calls, again := [], false;
      if state.HdrlineStart? {
        bufIdx := 0;
        assert buf[..bufIdx] == [] && [] + [ch] == [ch];
        if ch == '\r' {
          state := HdrAlmostDone;
        } else if ch == '\n' {
          state := HdrDone;
        } else {
          Keep(ch);
          state := HdrKey;
        }
      } else if state.HdrKey? {
        if ch == ':' {
          calls := [HeaderKey(buf[..bufIdx])];
          heval := FindKind(buf[..bufIdx]);
          bufIdx := 0;
          assert buf[..bufIdx] == [];
          state := HdrSpaceBeforeVal;
        } else if ch == '\r' {
          state := HdrAlmostDone;
        } else if ch == '\n' {
          state := HdrDone;
        } else {
          Keep(ch);
        }
      } else if state.HdrSpaceBeforeVal? {
        if ch == '\r' {
          Keep(' ');
          state := HdrVal;
          again := true;
        } else if ch == '\n' {
          error := InvalidHeader;
        } else if ch != ' ' {
          Keep(ch);
          state := HdrVal;
        }
      } else if state.HdrVal? {
        if ch == '\r' {
          calls := EndOfValue();
        } else if ch == '\n' {
          error := InvalidHeader;
        } else {
          Keep(ch);
        }
      } else {
        calls := SwitchLineEnd(ch);
      }
    }

    /** Between header lines. */
    method SwitchLineEnd(ch: char) returns (calls: seq<Call>)
      requires Valid() && (state.HdrAlmostDone? || state.HdrDone? || state.HdrlineAlmostDone?)
      requires bufIdx < buf.Length && error.NoError?
      modifies `state, `error, `bufIdx, buf
      ensures Valid() && (Now(), calls) == ExamineHeader(old(Now()), ch)
    {
      calls := [];
      if state.HdrAlmostDone? {
        if ch != '\n' {
          error := InvalidHeader;
        } else if trailing {
          calls := [MsgComplete];
          state := Start;
        } else {
          state := HdrDone;
        }
      } else if state.HdrDone? {
        if ch == '\r' {
          calls := [HeaderVal(buf[..bufIdx]), HeadersComplete];
          state := HdrlineAlmostDone;
        } else if ch == '\n' {
          error := InvalidHeader;
        } else if ch == '\t' {
          state := HdrVal;
        } else {
          calls := [HeaderVal(buf[..bufIdx])];
          bufIdx := 0;
          assert buf[..bufIdx] == [] && [] + [ch] == [ch];
          Keep(ch);
          state := HdrKey;
        }
      } else if ch != '\n' {
        error := InvalidHeader;
      } else {
        bufIdx := 0;
        assert buf[..bufIdx] == [];
        if trailing {
          calls := [MsgComplete];
          state := Start;
        } else if chunked {
          state := ChunkSizeStart;
        } else if contentLen > 0 {
          state := BodyRead;
        } else {
          calls := [MsgComplete];
          state := Start;
        }
      }
    }

    /** The states of a body that look at one byte. */
    method SwitchBody(ch: char) returns (calls: seq<Call>)
      requires Valid() && !state.Start? && !InHeader(state) && !state.ChunkData? && !state.BodyRead? && error.NoError?
      modifies `state, `error, `trailing, `contentLen, `origContentLen
      ensures Valid() && (Now(), calls) == ExamineBody(old(Now()), ch)
    {
      calls := [];
      if state.ChunkSizeStart? {
        var c := Unhex(ch);
        if c == -1 {
          error := InvalidChunkSize;
          return;
        }
        contentLen := c;
        state := ChunkSize;
      } else if state.ChunkSize? {
        if ch == '\r' {
          state := ChunkSizeAlmostDone;
          return;
        }
        var c := Unhex(ch);
        if c == -1 {
          error := InvalidChunkSize;
          return;
        }
        WrapOnce(contentLen * 16, c);
        contentLen := contentLen * 16 % UINT64;
        contentLen := (contentLen + c) % UINT64;
      } else if state.ChunkSizeAlmostDone? {
        if ch != '\n' {
          error := InvalidChunkSize;
          return;
        }
        origContentLen := contentLen;
        if contentLen == 0 {
          calls := [ChunksComplete];
          trailing := true;
          state := HdrlineStart;
        } else {
          calls := [NewChunk];
          state := ChunkData;
        }
      } else if state.ChunkDataAlmostDone? {
        if ch != '\r' {
          error := InvalidChunk;
          return;
        }
        state := ChunkDataDone;
      } else {
        if ch != '\n' {
          error := InvalidChunk;
          return;
        }
        origContentLen := 0;
        state := ChunkSizeStart;
        calls := [ChunkComplete];
      }
    }

    /** Pieces as they arrive, one call for each until the body ends or is in error: whatever the
        pieces, the result is that of all the bytes at once. */
    method Feed(pieces: seq<string>) returns (consumed: nat, calls: seq<Call>)
      requires Valid() && error.NoError?
      modifies this, buf
      ensures Valid()
      ensures var o := BodySpec.Run(old(Now()), Concat(pieces));
        Now() == o.parser && consumed == o.consumed && Expand(calls) == o.calls
    {
      hide BodySpec.Run, CountedAll, Pairs;
      consumed, calls := 0, [];
      ghost var start := Now();
      var k := 0;
      assert pieces[0..] == pieces;
      AtOnce(BodySpec.Run(start, Concat(pieces)));
      while k < |pieces| && !state.Start? && error.NoError?
        invariant Valid() && 0 <= k <= |pieces| && 0 <= consumed
        invariant BodySpec.Run(start, Concat(pieces))
               == Then(Outcome(Now(), Expand(calls), consumed), Concat(pieces[k..]))
      {
        assert pieces[k..][1..] == pieces[k + 1..];
        RunSplit(Now(), pieces[k], Concat(pieces[k + 1..]));
        ghost var o := BodySpec.Run(Now(), pieces[k]);
        assert Now().(error := NoError) == Now();
        var i, more := Run(pieces[k]);
        ExpandAppend(calls, more);
        ThenThen(Expand(calls), consumed, o, Concat(pieces[k + 1..]));
        consumed, calls := consumed + i, calls + more;
        k := k + 1;
      }
      RunStops(Now(), Concat(pieces[k..]));
      assert Expand(calls) + [] == Expand(calls);
    }
  }

  lemma AtOnce(o: Outcome)
    ensures Outcome(o.parser, [] + o.calls, 0 + o.consumed) == o
  {
  }

  lemma ThenThen(calls: seq<Call>, consumed: nat, o: Outcome, s: string)
    ensures var all := Then(o, s);
      Outcome(all.parser, calls + all.calls, consumed + all.consumed)
      == Then(Outcome(o.parser, calls + o.calls, consumed + o.consumed), s)
  {
    hide Run;
    assert calls + (o.calls + Run(o.parser, s).calls) == calls + o.calls + Run(o.parser, s).calls;
  }

  lemma SliceCalls(s: string)
    ensures Expand([Body(s)]) == Singles(s) && Uncounted([Body(s)]) == |s| - 1
    ensures Expand([Body(s)] + [MsgComplete]) == Singles(s) + [MsgComplete]
    ensures Uncounted([Body(s)] + [MsgComplete]) == |s| - 1
    ensures Expand([] + [MsgComplete]) == [MsgComplete] && Uncounted([] + [MsgComplete]) == 0
    ensures s != [] ==> Pairs(Singles(s)) == Pairs(Singles(s) + [MsgComplete]) == |s| - 1
    ensures Pairs([]) == Pairs([MsgComplete]) == 0
  {
    var b, m := [Body(s)], [MsgComplete];
    assert b[1..] == [] && m[1..] == [] && [] + m == m;
    assert Singles(s) + [] == Singles(s) && Expanded(MsgComplete) + [] == m;
    ExpandAppend(b, m);
    UncountedAppend(b, m);
    PairsSingles(s);
    PairsAppend(Singles(s), m);
  }

  // ------------------------------------------------------------------------------ the senders

  class Reply {
    const chunked: bool
    var output: string

    constructor (chunked: bool)
      ensures this.chunked == chunked && output == []
    {
      this.chunked, output := chunked, [];
    }

    method SendChunk(buf: string)
      modifies this
      ensures output == old(output) + if chunked then Chunk(buf) else buf
    {
      if |buf| == 0 {
        return;
      }
      if chunked {
        output := output + Hex(|buf| % 0x1_0000_0000) + "\r\n";
      }
      output := output + buf;
      if chunked {
        output := output + "\r\n";
      }
    }

    method SendChunkEnd()
      modifies this
      ensures output == old(output) + if chunked then LAST else []
    {
      if chunked {
        output := output + "0\r\n\r\n";
      }
    }

    /** A whole reply body. */
    method Send(chunks: seq<string>)
      modifies this
      ensures output == old(output) + if chunked then Chunks(chunks) + LAST else Concat(chunks)
    {
      hide Chunk;
      ghost var was := output;
      assert chunks[0..] == chunks;
      for k := 0 to |chunks|
        invariant output + Rest(chunks[k..]) == was + Rest(chunks)
      {
        assert chunks[k..][1..] == chunks[k + 1..];
        ghost var before, first := output, if chunked then Chunk(chunks[k]) else chunks[k];
        SendChunk(chunks[k]);
        assert before + (first + Rest(chunks[k + 1..])) == before + first + Rest(chunks[k + 1..]);
      }
      assert output + [] == was + Rest(chunks);
      SendChunkEnd();
      assert was + Rest(chunks) + LAST == was + (Rest(chunks) + LAST);
    }

    /** What is still to be sent. */
    function Rest(chunks: seq<string>): string {
      if chunked then Chunks(chunks) else Concat(chunks)
    }
  }

  /** From one end to the other: what is sent in chunks comes out of the parser, however the bytes
      are cut on the way, as one complete message with the same data. */
  method Transfer(chunks: seq<string>, pieces: seq<string>) returns (data: string, calls: seq<Call>)
    requires forall k :: 0 <= k < |chunks| ==> |chunks[k]| < 0x1_0000_0000
    requires Concat(pieces) == Chunks(chunks) + LAST
    ensures data == Concat(chunks)
    ensures Expand(calls) == ChunkCalls(chunks) + [ChunksComplete, MsgComplete]
  {
    var p := new HtParser.Behind(true, 0, Plain);
    ChunkedRoundTrip(p.Now(), chunks);
    var n;
    n, calls := p.Feed(pieces);
    ExpandKeepsData(calls);
    data := Data(calls);
  }

  lemma FixedPrefix(n: nat, kind: HeaderKind, s: string)
    requires 0 < n && |s| <= n
    ensures var p := BehindHeaders(false, n, kind);
      Run(p, s) == Outcome(p.(state := if |s| == n then Start else BodyRead, contentLen := n - |s|),
                           Singles(s) + (if |s| == n then [MsgComplete] else []), |s|)
  {
    var p := BehindHeaders(false, n, kind);
    if s == [] {
      assert Singles(s) + [] == [];
    } else {
      RunFixed(p, s);
    }
  }

  lemma DataFixed(s: string, tail: seq<Call>)
    requires tail == [] || tail == [MsgComplete]
    ensures Data(Singles(s) + tail) == s
  {
    DataSingles(s);
    DataAppend(Singles(s), tail);
    hide Singles;
    assert [MsgComplete][1..] == [] && s + [] == s;
    assert Data(tail) == [];
  }

  /** A body of known length: as long as it lasts, what was handed over and what is pending make
      up the length; then the message is complete, once, and nothing more is taken. */
  lemma FixedLength(n: nat, kind: HeaderKind, s: string)
    requires n > 0
    ensures var o := Run(BehindHeaders(false, n, kind), s);
      var k := if |s| < n then |s| else n;
      && o.consumed == k && o.parser.contentLen == n - k && Data(o.calls) == s[..k]
      && o.calls == Singles(s[..k]) + (if k == n then [MsgComplete] else [])
      && o.parser.state == if k == n then Start else BodyRead
  {
    hide Run, Singles;
    var p := BehindHeaders(false, n, kind);
    var k := if |s| < n then |s| else n;
    var tail: seq<Call> := if k == n then [MsgComplete] else [];
    FixedPrefix(n, kind, s[..k]);
    assert s == s[..k] + s[k..];
    RunSplit(p, s[..k], s[k..]);
    RunStops(Run(p, s[..k]).parser, s[k..]);
    assert Singles(s[..k]) + tail + [] == Singles(s[..k]) + tail;
    DataFixed(s[..k], tail);
  }

  // ----------------------------------------------------------------- when the counter is right

  /** Over a body of known length the count of one call is right exactly if there is no second byte
      to hand over. */
  lemma FixedCount(n: nat, kind: HeaderKind, s: string)
    requires n > 0
    ensures var p := BehindHeaders(false, n, kind);
      CountedAll(p, s) - Pairs(Run(p, s).calls) == Run(p, s).consumed <==> |s| <= 1 || n <= 1
  {
    var p := BehindHeaders(false, n, kind);
    var k := if |s| < n then |s| else n;
    FixedLength(n, kind, s);
    assert ChunksComplete !in Singles(s[..k]);
    CountedOnce(p, s);
    SliceCalls(s[..k]);
    hide Run, CountedAll, Singles;
    assert Singles(s[..k]) + [] == Singles(s[..k]);
    assert k == 0 ==> Singles(s[..k]) == [];
  }

  lemma {:induction false} PairsPieces(xs: seq<Piece>)
    requires forall k :: 0 <= k < |xs| ==> xs[k].data != []
    ensures Pairs(PieceCalls(xs)) == 0 <==> forall k :: 0 <= k < |xs| ==> |xs[k].data| == 1
    ensures !BeginsWithData(PieceCalls(xs)) && !EndsInData(PieceCalls(xs)) && ChunksComplete !in PieceCalls(xs)
    decreases |xs|
  {
    if xs != [] {
      var x, more := xs[0].data, xs[1..];
      PairsPieces(more);
      PairsSingles(x);
      assert ChunksComplete !in Singles(x);
      hide Singles;
      OneByOne(xs);
      var data := Singles(x);
      var first := [NewChunk] + data + [ChunkComplete];
      PairsAppend([NewChunk], data);
      PairsAppend([NewChunk] + data, [ChunkComplete]);
      PairsAppend(first, PieceCalls(more));
      assert PieceCalls(xs) == first + PieceCalls(more);
    }
  }

  lemma OneByOne(xs: seq<Piece>)
    requires xs != []
    ensures (forall k :: 0 <= k < |xs| ==> |xs[k].data| == 1)
        <==> |xs[0].data| == 1 && forall k :: 0 <= k < |xs[1..]| ==> |xs[1..][k].data| == 1
  {
    if |xs[0].data| == 1 && forall k :: 0 <= k < |xs[1..]| ==> |xs[1..][k].data| == 1 {
      forall k | 0 <= k < |xs|
        ensures |xs[k].data| == 1
      {
        assert k > 0 ==> xs[k] == xs[1..][k - 1];
      }
    }
  }

  /** The bytes of a chunked body without a trailer are counted once each, the slices taken apart. */
  lemma CountedChunks(p: Parser, xs: seq<Piece>, last: string)
    requires p.state.ChunkSizeStart? && Ready(p) && ChunkHead(xs, last, PiecesText(xs) + (last + "\r\n"))
    ensures var s := PiecesText(xs) + (last + "\r\n") + "\r\n"; CountedAll(p, s) == |s|
  {
    var body := PiecesText(xs) + (last + "\r");
    var head := PiecesText(xs) + (last + "\r\n");
    assert head == body + "\n";
    RunPieces(p, xs, last, head);
    assert forall k :: 0 <= k < |xs| ==> ProperPiece(xs[k]);
    PairsPieces(xs);
    hide PiecesText, PieceCalls, ProperPiece, SizeFrom, SizeDigits, Run, CountedAll;
    RunSplit(p, body, "\n");
    var q := Run(p, body).parser;
    LastByte(q);
    assert Run(p, body).calls == PieceCalls(xs) by {
      assert (Run(p, body).calls + [ChunksComplete])[..|Run(p, body).calls|] == Run(p, body).calls;
    }
    CountedOnce(p, body);
    CountedSplit(p, body, "\n");
    CountedSplit(p, head, "\r\n");
    CountedTwo(AfterLast(p));
  }

  /** Only behind a size of 0 does a LF lead to the trailer. */
  lemma LastByte(q: Parser)
    ensures Run(q, "\n").consumed == 1 && Run(q, "\n").parser.state.HdrlineStart? && Ready(Run(q, "\n").parser) ==>
              Run(q, "\n").calls == [ChunksComplete] && CountedAll(q, "\n") == 1
    ensures Run(q, "\n").consumed <= 1
  {
    if Going(q) {
      RunOne(q, '\n');
      CountedOne(q, '\n');
      hide StrToUint64, KindOf;
    }
  }

  lemma CountedTwo(q: Parser)
    requires q.state.HdrlineStart? && Ready(q)
    ensures CountedAll(q, "\r\n") == 2
  {
    CountedSplit(q, "\r", "\n");
    assert "\r" + "\n" == "\r\n";
    RunOne(q, '\r');
    CountedOne(q, '\r');
    CountedOne(Examine(q, '\r').0, '\n');
  }

  lemma PairsSilent(x: seq<Call>, silent: seq<Call>)
    requires !EndsInData(x) && Silent(silent)
    ensures Pairs(x + [ChunksComplete] + (silent + [MsgComplete])) == Pairs(x)
  {
    var rest := [ChunksComplete] + (silent + [MsgComplete]);
    NoPairs(rest);
    PairsAppend(x, rest);
    assert x + [ChunksComplete] + (silent + [MsgComplete]) == x + rest;
  }

  /** Over a whole chunked body without a trailer the count is right exactly if every chunk is of
      one byte. */
  lemma ChunkedCount(p: Parser, xs: seq<Piece>, last: string, s: string)
    requires p.state.ChunkSizeStart? && Ready(p) && ChunkedBody(p.heval, xs, last, [], [], s)
    ensures CountedAll(p, s) - Pairs(Run(p, s).calls) == |s| <==> forall k :: 0 <= k < |xs| ==> |xs[k].data| == 1
  {
    assert forall k :: 0 <= k < |xs| ==> ProperPiece(xs[k]);
    PairsPieces(xs);
    var silent := ReadBody(p, xs, last, [], [], s);
    assert TrailerText([], []) == "\r\n";
    hide Run, CountedAll, PieceCalls, ProperPiece, PiecesText;
    CountedChunks(p, xs, last);
    PairsSilent(PieceCalls(xs), silent);
  }
}
