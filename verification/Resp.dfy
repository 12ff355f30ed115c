/** The reply protocol as hiredis reads it: what one task does with the unread bytes, the
    run of the explicit task stack, the plain recursive grammar, and their equality. */
module Resp {
  import opened Common

  const REPLY_STRING := 1
  const REPLY_ARRAY := 2
  const REPLY_INTEGER := 3
  const REPLY_STATUS := 5
  const REPLY_ERROR := 6

  /** A task with no type yet. */
  const UNTYPED := -1

  /** Slots in the task stack. */
  const STACK_SIZE := 9

  // ------------------------------------------------------------------------- integer widths

  const TWO32: int := 0x1_0000_0000
  const TWO64: int := 0x1_0000_0000_0000_0000

  predicate IsLong(v: int) {
    -TWO64 / 2 <= v < TWO64 / 2
  }

  /** What a long long keeps of a value. */
  function Wrap64(v: int): (w: int)
    ensures IsLong(w) && (IsLong(v) ==> w == v)
  {
    (v + TWO64 / 2) % TWO64 - TWO64 / 2
  }

  /** What an int keeps of a value. */
  function Cut32(v: int): (w: int)
    ensures -TWO32 / 2 <= w < TWO32 / 2 && (-TWO32 / 2 <= v < TWO32 / 2 ==> w == v)
  {
    (v + TWO32 / 2) % TWO32 - TWO32 / 2
  }

  /** What a size_t makes of an int. */
  function SizeT(e: int): (n: nat)
    requires -TWO32 / 2 <= e < TWO32 / 2
    ensures n < TWO64 && (e >= 0 ==> n == e)
  {
    if e < 0 then e + TWO64 else e
  }

  /** A finished reply object. `elements` is the size_t the object keeps, `element` its children. */
  datatype Reply =
    | ErrorReply(str: string)
    | StatusReply(str: string)
    | StringReply(str: string)
    | IntegerReply(integer: int)
    | NilReply
    | ArrayReply(elements: nat, element: seq<Reply>)

  /** The two protocol errors; and a count whose low half says that there is nothing to read while
      the count itself says there is, which leaves the reader without defined behaviour. */
  datatype Failure = ProtocolByte(byte: char) | TooDeep | CountLost

  /** An array that is still waiting for some of its elements. */
  datatype Frame = Frame(elements: nat, element: seq<Reply>)

  /** Open arrays from the root down, and the type of the item being read below them. */
  datatype State = State(frames: seq<Frame>, typ: int)

  const IDLE := State([], UNTYPED)

  predicate ValidState(s: State) {
    && |s.frames| < STACK_SIZE
    && (s.typ == REPLY_ARRAY ==> |s.frames| < STACK_SIZE - 1)
    && s.typ in {UNTYPED, REPLY_STRING, REPLY_ARRAY, REPLY_INTEGER, REPLY_STATUS, REPLY_ERROR}
    && forall i :: 0 <= i < |s.frames| ==> |s.frames[i].element| < s.frames[i].elements
  }

  /** The position of the first CR LF. */
  function FindCRLF(u: string): (k: Option<nat>)
    ensures k.Some? ==> k.value + 2 <= |u| && u[k.value] == '\r' && u[k.value + 1] == '\n'
    ensures k.Some? ==> forall j :: 0 <= j < k.value ==> !(u[j] == '\r' && u[j + 1] == '\n')
    ensures k.None? ==> forall j :: 0 <= j < |u| - 1 ==> !(u[j] == '\r' && u[j + 1] == '\n')
  {
    if |u| < 2 then None
    else if u[0] == '\r' && u[1] == '\n' then Some(0)
    else match FindCRLF(u[1..])
      case None => None
      case Some(k) => Some(k + 1)
  }

  /** Accumulates digits up to the CR in a long long; nothing on anything else. */
  function ReadDigits(v: int, s: string): (r: Option<int>)
    ensures IsLong(v) && r.Some? ==> IsLong(r.value)
    decreases |s|
  {
    if s == [] || s[0] == '\r' then Some(v)
    else if IsDigit(s[0]) then ReadDigits(Wrap64(v * 10 + DigitValue(s[0])), s[1..])
    else None
  }

  function ReadLongLong(s: string): (v: int)
    ensures IsLong(v)
  {
    var negative := s != [] && s[0] == '-';
    var digits := if s != [] && (s[0] == '-' || s[0] == '+') then s[1..] else s;
    match ReadDigits(0, digits)
    case None => -1
    case Some(v) => if negative then Wrap64(-v) else v
  }

  function TypeOf(c: char): int {
    if c == '-' then REPLY_ERROR
    else if c == '+' then REPLY_STATUS
    else if c == ':' then REPLY_INTEGER
    else if c == '$' then REPLY_STRING
    else if c == '*' then REPLY_ARRAY
    else UNTYPED
  }

  datatype Item =
    | Complete(reply: Reply, used: nat)
    | Opened(elements: nat, used: nat)
    | Lost(used: nat)
    | Partial

  /** What an array announced with n elements is, the object taking the count as an int. */
  function CountItem(n: int, used: nat): (item: Item)
    ensures !item.Partial? && item.used == used && (item.Opened? ==> item.elements > 0)
  {
    if n == -1 then Complete(NilReply, used)
    else if n <= 0 then Complete(ArrayReply(SizeT(Cut32(n)), []), used)
    else if Cut32(n) > 0 then Opened(Cut32(n), used)
    else Lost(used)
  }

  /** What an item of a known type makes of the bytes after its type byte. */
  function ReadItem(typ: int, u: string): (item: Item)
    requires typ in {REPLY_STRING, REPLY_ARRAY, REPLY_INTEGER, REPLY_STATUS, REPLY_ERROR}
    ensures !item.Partial? ==> 2 <= item.used <= |u|
    ensures item.Opened? ==> item.elements > 0
  {
    match FindCRLF(u)
    case None => Partial
    case Some(k) =>
      if typ == REPLY_INTEGER then Complete(IntegerReply(ReadLongLong(u)), k + 2)
      else if typ == REPLY_STATUS then Complete(StatusReply(u[..k]), k + 2)
      else if typ == REPLY_ERROR then Complete(ErrorReply(u[..k]), k + 2)
      else if typ == REPLY_STRING then
        var len := ReadLongLong(u);
        if len < 0 then Complete(NilReply, k + 2)
        else if k + 2 + len + 2 <= |u| then Complete(StringReply(u[k + 2..k + 2 + len]), k + 2 + len + 2)
        else Partial
      else
        CountItem(ReadLongLong(u), k + 2)
  }

  /** Files a finished reply with the innermost open array, closing every array it fills.
      With no array left it is the root: `out` is the reply to hand to the caller. */
  function Deliver(frames: seq<Frame>, r: Reply): (res: (seq<Frame>, Option<Reply>))
    requires forall i :: 0 <= i < |frames| ==> |frames[i].element| < frames[i].elements
    ensures |res.0| <= |frames|
    ensures forall i :: 0 <= i < |res.0| ==> |res.0[i].element| < res.0[i].elements
    ensures res.1.Some? ==> res.0 == []
  {
    if frames == [] then ([], Some(r))
    else
      var f := frames[|frames| - 1];
      var filled := f.element + [r];
      if |filled| == f.elements
      then Deliver(frames[..|frames| - 1], ArrayReply(f.elements, filled))
      else (frames[..|frames| - 1] + [Frame(f.elements, filled)], None)
  }

  datatype Step =
    | Stuck
    | Fail(failure: Failure)
    | Advance(state: State, used: nat, out: Option<Reply>)

  /** What an item does to the open arrays above it. */
  function ItemStep(frames: seq<Frame>, item: Item): (step: Step)
    requires forall i :: 0 <= i < |frames| ==> |frames[i].element| < frames[i].elements
  {
    match item
    case Partial => Stuck
    case Lost(_) => Fail(CountLost)
    case Opened(n, used) => Advance(State(frames + [Frame(n, [])], UNTYPED), used, None)
    case Complete(r, used) =>
      var (open, out) := Deliver(frames, r);
      Advance(State(open, UNTYPED), used, out)
  }

  /** One transition: read a type byte, or read the item whose type is known. */
  function Next(s: State, u: string): (step: Step)
    requires ValidState(s)
    ensures step.Advance? ==> 1 <= step.used <= |u| && ValidState(step.state)
    ensures step.Advance? && step.out.Some? ==> step.state == IDLE
  {
    if s.typ == UNTYPED then
      if u == [] then Stuck
      else if TypeOf(u[0]) == UNTYPED then Fail(ProtocolByte(u[0]))
      else if TypeOf(u[0]) == REPLY_ARRAY && |s.frames| == STACK_SIZE - 1 then Fail(TooDeep)
      else Advance(s.(typ := TypeOf(u[0])), 1, None)
    else
      ItemStep(s.frames, ReadItem(s.typ, u))
  }

  /** Everything that comes of a state and some bytes: the replies handed out, the state and the
      bytes kept for later, and the failure that ended the run, after which nothing is kept. */
  datatype Outcome = Outcome(replies: seq<Reply>, state: State, rest: string, failure: Option<Failure>)

  function Prepend(out: Option<Reply>, o: Outcome): Outcome {
    match out
    case None => o
    case Some(r) => o.(replies := [r] + o.replies)
  }

  function PrependAll(replies: seq<Reply>, o: Outcome): Outcome {
    o.(replies := replies + o.replies)
  }

  function Run(s: State, u: string): (o: Outcome)
    requires ValidState(s)
    ensures ValidState(o.state)
    ensures |o.rest| <= |u|
    decreases |u|
  {
    match Next(s, u)
    case Stuck => Outcome([], s, u, None)
    case Fail(f) => Outcome([], IDLE, [], Some(f))
    case Advance(s', used, out) => Prepend(out, Run(s', u[used..]))
  }

  /** One transition, then the rest of the run. */
  lemma RunStep(s: State, u: string)
    requires ValidState(s)
    ensures Next(s, u).Advance? ==>
              Run(s, u) == Prepend(Next(s, u).out, Run(Next(s, u).state, u[Next(s, u).used..]))
    ensures Next(s, u).Stuck? ==> Run(s, u) == Outcome([], s, u, None)
    ensures Next(s, u).Fail? ==> Run(s, u) == Outcome([], IDLE, [], Some(Next(s, u).failure))
  {
  }

  /** The run up to the first reply it hands out. */
  datatype Turn = Turn(reply: Option<Reply>, state: State, rest: string, failure: Option<Failure>)

  function TakeReply(s: State, u: string): (t: Turn)
    requires ValidState(s)
    ensures ValidState(t.state)
    ensures |t.rest| <= |u| && (t.reply.Some? ==> |t.rest| < |u| && t.state == IDLE && t.failure.None?)
    decreases |u|
  {
    match Next(s, u)
    case Stuck => Turn(None, s, u, None)
    case Fail(f) => Turn(None, IDLE, [], Some(f))
    case Advance(s', used, out) =>
      if out.Some? then Turn(out, s', u[used..], None) else TakeReply(s', u[used..])
  }

  /** A run is its first reply followed by the run of what that reply leaves. */
  lemma {:induction false} RunIsTurns(s: State, u: string)
    requires ValidState(s)
    ensures var t := TakeReply(s, u);
      Run(s, u) == if t.reply.Some? then Prepend(t.reply, Run(t.state, t.rest))
                   else Outcome([], t.state, t.rest, t.failure)
    decreases |u|
  {
    match Next(s, u)
    case Stuck =>
    case Fail(f) =>
    case Advance(s', used, out) =>
      if out.None? { RunIsTurns(s', u[used..]); }
  }

  // ---------------------------------------------------------------- chunk independence

  lemma FindCRLFMonotone(u: string, v: string)
    requires FindCRLF(u).Some?
    ensures FindCRLF(u + v) == FindCRLF(u)
  {
    if u[0] == '\r' && u[1] == '\n' {
    } else {
      assert (u + v)[1..] == u[1..] + v;
      FindCRLFMonotone(u[1..], v);
    }
  }

  lemma ReadDigitsMonotone(v: int, s: string, t: string)
    requires '\r' in s
    ensures ReadDigits(v, s + t) == ReadDigits(v, s)
    decreases |s|
  {
    if s[0] == '\r' || !IsDigit(s[0]) {
    } else {
      assert (s + t)[1..] == s[1..] + t;
      ReadDigitsMonotone(Wrap64(v * 10 + DigitValue(s[0])), s[1..], t);
    }
  }

  lemma ReadLongLongMonotone(s: string, t: string)
    requires '\r' in s
    ensures ReadLongLong(s + t) == ReadLongLong(s)
  {
    if s[0] == '-' || s[0] == '+' {
      assert (s + t)[1..] == s[1..] + t;
      ReadDigitsMonotone(0, s[1..], t);
    } else {
      ReadDigitsMonotone(0, s, t);
    }
  }

  /** Bytes that arrive later never change a transition that could already be taken. */
  lemma NextMonotone(s: State, u: string, v: string)
    requires ValidState(s)
    requires !Next(s, u).Stuck?
    ensures Next(s, u + v) == Next(s, u)
  {
    if s.typ != UNTYPED {
      var k := FindCRLF(u).value;
      FindCRLFMonotone(u, v);
      assert u[k] in u;
      ReadLongLongMonotone(u, v);
      assert (u + v)[..k] == u[..k];
      var len := ReadLongLong(u);
      if 0 <= len && k + 2 + len + 2 <= |u| {
        assert (u + v)[k + 2..k + 2 + len] == u[k + 2..k + 2 + len];
      }
    }
  }

  /** A run over more bytes: the run so far, continued from what it kept. */
  function Resume(o: Outcome, v: string): Outcome
    requires ValidState(o.state)
  {
    if o.failure.Some? then o
    else PrependAll(o.replies, Run(o.state, o.rest + v))
  }

  /** Stopping after `u` and resuming with `v` is running over `u + v`. */
  lemma {:induction false} RunSplit(s: State, u: string, v: string)
    requires ValidState(s)
    ensures Run(s, u + v) == Resume(Run(s, u), v)
    decreases |u|
  {
    hide Run, Next;
    RunStep(s, u);
    RunStep(s, u + v);
    if !Next(s, u).Stuck? {
      NextMonotone(s, u, v);
      if Next(s, u).Advance? {
        var Advance(s', used, out) := Next(s, u);
        assert (u + v)[used..] == u[used..] + v;
        RunSplit(s', u[used..], v);
        ResumePrepend(out, Run(s', u[used..]), v);
      }
    }
  }

  lemma ResumePrepend(out: Option<Reply>, o: Outcome, v: string)
    requires ValidState(o.state)
    ensures Resume(Prepend(out, o), v) == Prepend(out, Resume(o, v))
  {
    hide Run;
    if o.failure.None? && out.Some? {
      var next := Run(o.state, o.rest + v);
      assert [out.value] + (o.replies + next.replies) == ([out.value] + o.replies) + next.replies;
    }
  }

  function ResumeAll(o: Outcome, chunks: seq<string>): (r: Outcome)
    requires ValidState(o.state)
    ensures ValidState(r.state)
    decreases |chunks|
  {
    if chunks == [] then o else ResumeAll(Resume(o, chunks[0]), chunks[1..])
  }

  lemma {:induction false} ResumeAllIsRun(s: State, u: string, chunks: seq<string>)
    requires ValidState(s)
    ensures ResumeAll(Run(s, u), chunks) == Run(s, u + Concat(chunks))
    decreases |chunks|
  {
    if chunks == [] {
      assert u + Concat(chunks) == u;
    } else {
      var first, others := chunks[0], chunks[1..];
      assert (u + first) + Concat(others) == u + Concat(chunks);
      calc {
        ResumeAll(Run(s, u), chunks);
        ResumeAll(Resume(Run(s, u), first), others);
        { RunSplit(s, u, first); }
        ResumeAll(Run(s, u + first), others);
        { ResumeAllIsRun(s, u + first, others); }
        Run(s, (u + first) + Concat(others));
      }
    }
  }

  /** Any way of cutting the bytes into chunks gives the replies, the state and the failure of
      the bytes taken whole. */
  lemma ChunkIndependence(chunks: seq<string>)
    ensures ResumeAll(Outcome([], IDLE, [], None), chunks) == Run(IDLE, Concat(chunks))
  {
    ResumeAllIsRun(IDLE, [], chunks);
    assert [] + Concat(chunks) == Concat(chunks);
    assert Run(IDLE, []) == Outcome([], IDLE, [], None);
  }
}
