/** The parser object and its loop over a buffer. Callbacks all return 0 and are recorded in the
    order they are made. */
module Multipart {
  import opened MultipartSpec

  class Parser {
    const boundary: string
    var index: nat
    var state: Phase
    var lookbehind: array<char>

    ghost predicate Valid()
      reads this
    {
      && boundary != [] && lookbehind.Length == |boundary| + 9
      && InBounds(boundary, Now(0, 0, 0, 0, []))
    }

    /** The fields together with the locals of the loop. */
    ghost function Now(i: nat, mark: nat, dmark: nat, dbmark: nat, events: seq<Event>): Config
      reads `index, `state
    {
      Config(state, index, i, mark, dmark, dbmark, events)
    }

    constructor (boundary: string)
      requires boundary != []
      ensures Valid() && fresh(lookbehind)
      ensures this.boundary == boundary && Now(0, 0, 0, 0, []) == INITIAL
    {
      this.boundary := boundary;
      lookbehind := new char[|boundary| + 9];
      index, state := 0, Start;
    }

    /** One call: what it returns, the callbacks it makes and the state it leaves are those of the
        run of transitions, and its loop goes round at most twice for every byte. */
    method Execute(buf: string) returns (ret: nat, events: seq<Event>, ghost rounds: nat)
      requires Valid()
      modifies `index, `state, lookbehind
      ensures Valid() && lookbehind == old(lookbehind)
      ensures var o := Run(boundary, buf, old(Now(0, 0, 0, 0, [])));
        && ret == o.ret && events == o.config.events && state == o.config.phase && index == o.config.index
        && rounds == o.steps
      ensures rounds <= 2 * |buf| + 1
      ensures old(state).Start? ==> rounds <= 2 * |buf|
    {
      hide Run, Examine;
      ghost var b, start := boundary, Now(0, 0, 0, 0, []);
      RunIsLinear(b, buf, start);
      var i, mark, dmark, dbmark := 0, 0, 0, 0;
      events, rounds := [], 0;
      while i < |buf|
        invariant 0 <= i <= |buf| && InBounds(b, Now(i, mark, dmark, dbmark, events))
        invariant Run(b, buf, start) == AddSteps(Run(b, buf, Now(i, mark, dmark, dbmark, events)), rounds)
        decreases Budget(buf, Now(i, mark, dmark, dbmark, events))
      {
        ghost var c := Now(i, mark, dmark, dbmark, events);
        OneRound(b, buf, c);
        rounds := rounds + 1;
        var stopped;
        stopped, i, mark, dmark, dbmark, events := Turn(buf, i, mark, dmark, dbmark, events);
        if stopped {
          return i, events, rounds;
        }
      }
      NoRoundsLeft(b, buf, Now(i, mark, dmark, dbmark, events));
      ret := |buf|;
    }

    /** The switch over the state, and the increment behind it. */
    method Turn(buf: string, at: nat, mark0: nat, dmark0: nat, dbmark0: nat, events0: seq<Event>)
      returns (stopped: bool, i: int, mark: nat, dmark: nat, dbmark: nat, events: seq<Event>)
      requires Valid() && at < |buf| && InBounds(boundary, Now(at, mark0, dmark0, dbmark0, events0))
      modifies `index, `state, lookbehind
      ensures lookbehind == old(lookbehind) && i >= 0
      ensures var c' := Now(i, mark, dmark, dbmark, events);
        Examine(boundary, buf, old(Now(at, mark0, dmark0, dbmark0, events0)))
        == if stopped then Stop(i, c') else Go(c')
    {
      stopped, i, mark, dmark, dbmark, events := true, at, mark0, dmark0, dbmark0, events0;
      var c := buf[i];
      var isLast := i == |buf| - 1;
      if state.Start? {
        index := 0;
        state := StartBoundary;
      }
      if state.StartBoundary? {
        if index == |boundary| {
          if c != '\r' { return; }
          index := index + 1;
        } else if index == |boundary| + 1 {
          if c != '\n' { return; }
          index := 0;
          events := events + [OnPartDataBegin];
          state := HeaderFieldStart;
        } else {
          if c != boundary[index] { return; }
          index := index + 1;
        }
      } else if state.HeaderFieldStart? || state.HeaderField? {
        if state.HeaderFieldStart? {
          mark := i;
          state := HeaderField;
        }
        if c == '\r' {
          state := HeadersAlmostDone;
        } else if c == '-' {
        } else if c == ':' {
          events := events + [OnHeaderField(mark, i)];
          state := HeaderValueStart;
        } else {
          if !IsLetter(c) { return; }
          if isLast {
            events := events + [OnHeaderField(mark, i + 1)];
          }
        }
      } else if state.HeadersAlmostDone? {
        if c != '\n' { return; }
        state := PartDataStart;
      } else if state.HeaderValueStart? && c == ' ' {
      } else if state.HeaderValueStart? || state.HeaderValue? {
        if state.HeaderValueStart? {
          mark := i;
          state := HeaderValue;
        }
        if c == '\r' {
          events := events + [OnHeaderValue(mark, i)];
          state := HeaderValueAlmostDone;
        }
        if isLast {
          events := events + [OnHeaderValue(mark, i + 1)];
        }
      } else if state.HeaderValueAlmostDone? {
        if c != '\n' { return; }
        state := HeaderFieldStart;
      } else if state.PartDataStart? || state.PartData? {
        if state.PartDataStart? {
          events := events + [OnHeadersComplete];
          mark, dmark := i, i;
          state := PartData;
        }
        if c == '\r' {
          mark, dbmark := i, i;
          state := PartDataAlmostBoundary;
          lookbehind[0] := '\r';
        }
      } else if state.PartDataAlmostBoundary? {
        if c == '\n' {
          state := PartDataBoundary;
          lookbehind[1] := '\n';
          index := 0;
        } else {
          state := PartData;
          mark := i;
          i := i - 1;
        }
      } else if state.PartDataBoundary? {
        if boundary[index] != c {
          state := PartData;
          mark := i;
          i := i - 1;
        } else {
          lookbehind[2 + index] := c;
          index := index + 1;
          if index == |boundary| {
            events := events + [Event.OnPartDataEnd];
            state := PartDataAlmostEnd;
          }
        }
      } else if state.PartDataAlmostEnd? {
        if c == '-' {
          state := PartDataFinalHyphen;
        } else if c == '\r' {
          state := Phase.PartDataEnd;
        } else {
          return;
        }
      } else if state.PartDataFinalHyphen? {
        events := events + [OnChunkData(dmark, dbmark)];
        if c != '-' { return; }
        events := events + [OnBodyEnd];
        state := End;
      } else if state.PartDataEnd? {
        if c != '\n' { return; }
        events := events + [OnChunkData(dmark, dbmark)];
        state := HeaderFieldStart;
        events := events + [OnPartDataBegin];
      }
      stopped, i := false, i + 1;
    }
  }

  function AddSteps(o: Outcome, n: nat): Outcome {
    o.(steps := o.steps + n)
  }

  lemma OneRound(b: string, buf: string, c: Config)
    requires b != [] && InBounds(b, c) && c.i < |buf|
    ensures var s := Examine(b, buf, c);
      && (s.Stop? ==> Run(b, buf, c) == Outcome(s.ret, s.config, 1))
      && (s.Go? ==> Run(b, buf, c) == AddSteps(Run(b, buf, s.config), 1) && Budget(buf, s.config) < Budget(buf, c))
  {
    hide Examine;
    if Examine(b, buf, c).Go? {
      BudgetFalls(b, buf, c);
    }
  }

  lemma NoRoundsLeft(b: string, buf: string, c: Config)
    requires b != [] && InBounds(b, c) && c.i == |buf|
    ensures Run(b, buf, c) == Outcome(|buf|, c, 0)
  {
  }
}
