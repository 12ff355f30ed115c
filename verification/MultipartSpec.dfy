/** The multipart automaton as transitions: one byte examined in one state. What is proved here of
    runs of transitions, the parser object of Multipart inherits. */
module MultipartSpec {

  datatype Phase =
    | Start
    | StartBoundary
    | HeaderFieldStart
    | HeaderField
    | HeadersAlmostDone
    | HeaderValueStart
    | HeaderValue
    | HeaderValueAlmostDone
    | PartDataStart
    | PartData
    | PartDataAlmostBoundary
    | PartDataBoundary
    | PartDataAlmostEnd
    | PartDataEnd
    | PartDataFinalHyphen
    | End

  /** The callbacks, in the order they are made; slices are positions in the buffer. */
  datatype Event =
    | OnPartDataBegin
    | OnHeaderField(start: nat, end: nat)
    | OnHeaderValue(start: nat, end: nat)
    | OnHeadersComplete
    | OnPartDataEnd
    | OnChunkData(start: nat, end: nat)
    | OnBodyEnd

  /** The parser fields, the locals of the loop, and the callbacks made so far. */
  datatype Config = Config(phase: Phase, index: nat, i: nat, mark: nat, dmark: nat, dbmark: nat, events: seq<Event>)

  datatype Step = Go(config: Config) | Stop(ret: nat, config: Config)

  predicate IsLetter(c: char) {
    'a' <= c <= 'z' || 'A' <= c <= 'Z'
  }

  /** The boundary index never leaves the boundary. */
  predicate InBounds(b: string, c: Config) {
    && (c.phase.StartBoundary? ==> c.index <= |b| + 1)
    && (c.phase.PartDataBoundary? ==> c.index < |b|)
  }

  function Examine(b: string, buf: string, c: Config): (s: Step)
    requires b != [] && InBounds(b, c) && c.i < |buf|
    ensures InBounds(b, s.config) && c.i <= s.config.i <= c.i + 1
  {
    var ch, i := buf[c.i], c.i;
    var last := i == |buf| - 1;
    var next := c.(i := i + 1);
    match c.phase
    case Start => ExamineBoundary(b, ch, next.(phase := StartBoundary, index := 0))
    case StartBoundary => ExamineBoundary(b, ch, next)
    case HeaderFieldStart => ExamineField(ch, last, next.(phase := HeaderField, mark := i))
    case HeaderField => ExamineField(ch, last, next)
    case HeadersAlmostDone => if ch == '\n' then Go(next.(phase := PartDataStart)) else Stop(i, c)
    case HeaderValueStart =>
      if ch == ' ' then Go(next) else ExamineValue(ch, last, next.(phase := HeaderValue, mark := i))
    case HeaderValue => ExamineValue(ch, last, next)
    case HeaderValueAlmostDone => if ch == '\n' then Go(next.(phase := HeaderFieldStart)) else Stop(i, c)
    case PartDataStart =>
      ExamineData(ch, next.(phase := PartData, mark := i, dmark := i, events := c.events + [OnHeadersComplete]))
    case PartData => ExamineData(ch, next)
    case PartDataAlmostBoundary =>
      if ch == '\n' then Go(next.(phase := PartDataBoundary, index := 0))
      else Go(c.(phase := PartData, mark := i))
    case PartDataBoundary =>
      if b[c.index] != ch then Go(c.(phase := PartData, mark := i))
      else if c.index + 1 == |b| then
        Go(next.(phase := PartDataAlmostEnd, index := |b|, events := c.events + [OnPartDataEnd]))
      else Go(next.(index := c.index + 1))
    case PartDataAlmostEnd =>
      if ch == '-' then Go(next.(phase := PartDataFinalHyphen))
      else if ch == '\r' then Go(next.(phase := PartDataEnd))
      else Stop(i, c)
    case PartDataFinalHyphen =>
      var events := c.events + [OnChunkData(c.dmark, c.dbmark)];
      if ch == '-' then Go(next.(phase := End, events := events + [OnBodyEnd]))
      else Stop(i, c.(events := events))
    case PartDataEnd =>
      if ch == '\n' then
        Go(next.(phase := HeaderFieldStart, events := c.events + [OnChunkData(c.dmark, c.dbmark), OnPartDataBegin]))
      else Stop(i, c)
    case End => Go(next)
  }

  // In these four, c.i has already moved past the character.

  function ExamineBoundary(b: string, ch: char, c: Config): Step
    requires c.phase.StartBoundary? && c.index <= |b| + 1 && c.i > 0
  {
    if c.index == |b| then
      if ch == '\r' then Go(c.(index := c.index + 1)) else Stop(c.i - 1, c.(i := c.i - 1))
    else if c.index == |b| + 1 then
      if ch == '\n' then Go(c.(index := 0, phase := HeaderFieldStart, events := c.events + [OnPartDataBegin]))
      else Stop(c.i - 1, c.(i := c.i - 1))
    else if ch == b[c.index] then Go(c.(index := c.index + 1))
    else Stop(c.i - 1, c.(i := c.i - 1))
  }

  function ExamineField(ch: char, last: bool, c: Config): Step
    requires c.phase.HeaderField? && c.i > 0
  {
    if ch == '\r' then Go(c.(phase := HeadersAlmostDone))
    else if ch == '-' then Go(c)
    else if ch == ':' then
      Go(c.(phase := HeaderValueStart, events := c.events + [OnHeaderField(c.mark, c.i - 1)]))
    else if !IsLetter(ch) then Stop(c.i - 1, c.(i := c.i - 1))
    else if last then Go(c.(events := c.events + [OnHeaderField(c.mark, c.i)]))
    else Go(c)
  }

  function ExamineValue(ch: char, last: bool, c: Config): Step
    requires c.phase.HeaderValue? && c.i > 0
  {
    var events := c.events + if ch == '\r' then [OnHeaderValue(c.mark, c.i - 1)] else [];
    Go(c.(phase := if ch == '\r' then HeaderValueAlmostDone else HeaderValue,
          events := events + if last then [OnHeaderValue(c.mark, c.i)] else []))
  }

  function ExamineData(ch: char, c: Config): Step
    requires c.phase.PartData? && c.i > 0
  {
    if ch == '\r' then Go(c.(phase := PartDataAlmostBoundary, mark := c.i - 1, dbmark := c.i - 1)) else Go(c)
  }

  /** What is left of the examinations: two for every byte not passed, one of them spent while a
      delimiter is being tried. */
  function Budget(buf: string, c: Config): int {
    2 * (|buf| - c.i) + if c.phase.PartDataAlmostBoundary? || c.phase.PartDataBoundary? then 1 else 0
  }

  /** Every examination costs one, including those that look at the same byte again. */
  lemma BudgetFalls(b: string, buf: string, c: Config)
    requires b != [] && InBounds(b, c) && c.i < |buf| && Examine(b, buf, c).Go?
    ensures Budget(buf, Examine(b, buf, c).config) < Budget(buf, c)
  {
  }

  /** The rest of the loop: the value returned, the final configuration, and how many times the
      body ran. */
  datatype Outcome = Outcome(ret: nat, config: Config, steps: nat)

  function Run(b: string, buf: string, c: Config): (o: Outcome)
    requires b != [] && InBounds(b, c) && c.i <= |buf|
    decreases Budget(buf, c)
  {
    if c.i >= |buf| then Outcome(|buf|, c, 0)
    else
      match Examine(b, buf, c)
      case Stop(ret, c') => Outcome(ret, c', 1)
      case Go(c') =>
        BudgetFalls(b, buf, c);
        var o := Run(b, buf, c');
        o.(steps := 1 + o.steps)
  }

  const INITIAL := Config(Start, 0, 0, 0, 0, 0, [])

  /** Despite the step back, the loop body runs at most twice for every byte. */
  lemma {:induction false} RunIsLinear(b: string, buf: string, c: Config)
    requires b != [] && InBounds(b, c) && c.i <= |buf|
    ensures Run(b, buf, c).steps <= Budget(buf, c)
    decreases Budget(buf, c)
  {
    if c.i < |buf| && Examine(b, buf, c).Go? {
      BudgetFalls(b, buf, c);
      RunIsLinear(b, buf, Examine(b, buf, c).config);
    }
  }

  // -------------------------------------------------- the search for the delimiter is exact

  function Delimiter(b: string): string {
    "\r\n" + b
  }

  predicate OccursAt(b: string, buf: string, p: nat) {
    p + |Delimiter(b)| <= |buf| && buf[p..p + |Delimiter(b)|] == Delimiter(b)
  }

  /** No delimiter begins in the range. */
  ghost predicate Clear(b: string, buf: string, from: nat, to: nat) {
    forall p :: from <= p < to ==> !OccursAt(b, buf, p)
  }

  /** A chunk ends at a delimiter, the first one from where it starts. */
  ghost predicate ExactChunk(b: string, buf: string, start: nat, end: nat) {
    start <= end && OccursAt(b, buf, end) && Clear(b, buf, start, end)
  }

  /** Every chunk is exact and ends, delimiter included, by `end`; each starts behind the delimiter
      of the one before. */
  ghost predicate ExactChunks(b: string, buf: string, events: seq<Event>, end: int) {
    && (forall k :: 0 <= k < |events| && events[k].OnChunkData? ==>
          && ExactChunk(b, buf, events[k].start, events[k].end)
          && events[k].end + |Delimiter(b)| <= end)
    && (forall j, k :: 0 <= j < k < |events| && events[j].OnChunkData? && events[k].OnChunkData? ==>
          events[j].end + |Delimiter(b)| <= events[k].start)
  }

  /** What the scanner knows in each phase of a part's body. */
  ghost predicate Searching(b: string, buf: string, c: Config)
    requires b != []
  {
    var d := Delimiter(b);
    match c.phase
    case PartData => c.dmark <= c.i && Clear(b, buf, c.dmark, c.i)
    case PartDataAlmostBoundary =>
      c.dmark <= c.dbmark && c.i == c.dbmark + 1 <= |buf| && buf[c.dbmark] == '\r' && Clear(b, buf, c.dmark, c.dbmark)
    case PartDataBoundary =>
      && c.index < |b| && c.dmark <= c.dbmark && c.i == c.dbmark + 2 + c.index <= |buf|
      && buf[c.dbmark..c.i] == d[..2 + c.index] && Clear(b, buf, c.dmark, c.dbmark)
    case PartDataAlmostEnd => c.i == c.dbmark + |d| && ExactChunk(b, buf, c.dmark, c.dbmark)
    case PartDataEnd => c.i == c.dbmark + |d| + 1 && ExactChunk(b, buf, c.dmark, c.dbmark)
    case PartDataFinalHyphen => c.i == c.dbmark + |d| + 1 && ExactChunk(b, buf, c.dmark, c.dbmark)
    case _ => true
  }

  predicate InBody(p: Phase) {
    p.PartData? || p.PartDataAlmostBoundary? || p.PartDataBoundary? || p.PartDataAlmostEnd? || p.PartDataEnd?
    || p.PartDataFinalHyphen?
  }

  ghost predicate Exact(b: string, buf: string, c: Config)
    requires b != []
  {
    && InBounds(b, c) && c.i <= |buf|
    && Searching(b, buf, c)
    && ExactChunks(b, buf, c.events, if InBody(c.phase) then c.dmark else c.i)
  }

  lemma OccursIsMatch(b: string, buf: string, p: nat)
    ensures OccursAt(b, buf, p) ==>
              && p + 2 + |b| <= |buf| && buf[p] == '\r' && buf[p + 1] == '\n'
              && forall k :: 0 <= k < |b| ==> buf[p + 2 + k] == b[k]
  {
    if OccursAt(b, buf, p) {
      var d := Delimiter(b);
      assert buf[p] == buf[p..p + |d|][0] == d[0] && buf[p + 1] == buf[p..p + |d|][1] == d[1];
      forall k | 0 <= k < |b|
        ensures buf[p + 2 + k] == b[k]
      {
        assert buf[p..p + |d|][2 + k] == d[2 + k];
      }
    }
  }

  /** Wherever a second CR stands in the delimiter, the rest of it begins the delimiter again, so
      that a match given up behind that CR could not have been one begun there either. */
  predicate Restartable(b: string) {
    var d := Delimiter(b);
    forall j :: 1 <= j < |d| && d[j] == '\r' ==> d[j..] == d[..|d| - j]
  }

  lemma NoCRRestarts(b: string)
    requires '\r' !in b
    ensures Restartable(b)
  {
    var d := Delimiter(b);
    forall j | 1 <= j < |d|
      ensures d[j] != '\r'
    {
      assert j >= 2 ==> d[j] == b[j - 2] && b[j - 2] in b;
    }
  }

  /** The delimiter was tried at `at` and failed after k characters. */
  ghost predicate Failed(b: string, buf: string, at: nat, k: nat) {
    && 0 < k < |Delimiter(b)| && at + k < |buf|
    && buf[at..at + k] == Delimiter(b)[..k] && buf[at + k] != Delimiter(b)[k]
  }

  /** A delimiter that failed begins nowhere up to the failure, which is why the search may go on
      from there without going back. */
  lemma FailedMatch(b: string, buf: string, from: nat, at: nat, k: nat)
    requires Restartable(b) && from <= at && Failed(b, buf, at, k)
    requires Clear(b, buf, from, at)
    ensures Clear(b, buf, from, at + k)
  {
    forall p | from <= p < at + k
      ensures !OccursAt(b, buf, p)
    {
      if p >= at {
        OccursHas(b, buf, p, 0);
        OccursHas(b, buf, p, at + k - p);
        if p > at {
          NotBegunBehind(b, buf, at, k, p - at);
        }
      }
    }
  }

  lemma OccursHas(b: string, buf: string, p: nat, m: nat)
    requires m < |Delimiter(b)|
    ensures OccursAt(b, buf, p) ==> p + m < |buf| && buf[p + m] == Delimiter(b)[m]
  {
    if OccursAt(b, buf, p) {
      assert buf[p..p + |Delimiter(b)|][m] == Delimiter(b)[m];
    }
  }

  lemma NotBegunBehind(b: string, buf: string, at: nat, k: nat, j: nat)
    requires Restartable(b) && Failed(b, buf, at, k) && 0 < j < k
    ensures buf[at + j] == '\r' ==> buf[at + k] != Delimiter(b)[k - j]
  {
    var d := Delimiter(b);
    assert buf[at + j] == buf[at..at + k][j] == d[..k][j] == d[j];
    if d[j] == '\r' {
      assert d[k] == d[j..][k - j] == d[..|d| - j][k - j];
    }
  }

  /** Going on without going back is right for the boundaries above, and for no other: with any
      other a failed match can hide a delimiter. */
  lemma RestartIsSafe(b: string)
    ensures Restartable(b) <==>
            forall buf: string, at: nat, k: nat :: Failed(b, buf, at, k) ==> Clear(b, buf, at, at + k)
  {
    if Restartable(b) {
      hide Clear, Failed;
      forall buf: string, at: nat, k: nat | Failed(b, buf, at, k)
        ensures Clear(b, buf, at, at + k)
      {
        FailedMatch(b, buf, at, at, k);
      }
    } else {
      var d := Delimiter(b);
      var j :| 1 <= j < |d| && d[j] == '\r' && d[j..] != d[..|d| - j];
      var buf, k := HiddenDelimiter(b, j);
      assert Failed(b, buf, 0, k) && OccursAt(b, buf, j);
    }
  }

  lemma HiddenDelimiter(b: string, j: nat) returns (buf: string, k: nat)
    requires var d := Delimiter(b); 1 <= j < |d| && d[j] == '\r' && d[j..] != d[..|d| - j]
    ensures Failed(b, buf, 0, k) && j < k && OccursAt(b, buf, j)
  {
    var d := Delimiter(b);
    k := FirstDifference(d, j);
    buf := d[..k] + d[k - j..];
    assert buf[0..0 + k] == d[..k];
    assert buf[j..j + |d|] == d[j..k] + d[k - j..] == d[..k - j] + d[k - j..] == d;
  }

  /** Where a string shifted by j first differs from itself. */
  lemma FirstDifference(d: string, j: nat) returns (k: nat)
    requires 1 <= j < |d| && d[j] == d[0] && d[j..] != d[..|d| - j]
    ensures j < k < |d| && d[j..k] == d[..k - j] && d[k] != d[k - j]
  {
    k := j + 1;
    while k < |d| && d[k] == d[k - j]
      invariant j < k <= |d| && d[j..k] == d[..k - j]
    {
      assert d[j..k + 1] == d[j..k] + [d[k]] == d[..k - j] + [d[k - j]] == d[..k + 1 - j];
      k := k + 1;
    }
    assert d[j..|d|] == d[j..];
  }

  lemma PassedByte(b: string, buf: string, from: nat, i: nat)
    requires Clear(b, buf, from, i) && i < |buf| && buf[i] != '\r'
    ensures Clear(b, buf, from, i + 1)
  {
    OccursIsMatch(b, buf, i);
  }

  lemma SearchData(b: string, buf: string, c: Config)
    requires b != [] && c.i < |buf| && (c.phase.PartDataStart? || c.phase.PartData?)
    requires InBounds(b, c) && Searching(b, buf, c)
    ensures Searching(b, buf, Examine(b, buf, c).config)
  {
    var dmark := if c.phase.PartDataStart? then c.i else c.dmark;
    assert Clear(b, buf, dmark, c.i);
    hide Clear;
    if buf[c.i] != '\r' {
      PassedByte(b, buf, dmark, c.i);
    }
  }

  lemma SearchAlmostBoundary(b: string, buf: string, c: Config)
    requires b != [] && Restartable(b) && c.i < |buf| && c.phase.PartDataAlmostBoundary?
    requires InBounds(b, c) && Searching(b, buf, c)
    ensures Searching(b, buf, Examine(b, buf, c).config)
  {
    hide Clear;
    var d := Delimiter(b);
    assert buf[c.dmark..][c.dbmark - c.dmark] == '\r';
    assert buf[c.dbmark..c.dbmark + 1] == d[..1];
    if buf[c.i] == '\n' {
      assert buf[c.dbmark..c.dbmark + 2] == d[..2];
    } else {
      FailedMatch(b, buf, c.dmark, c.dbmark, 1);
    }
  }

  lemma SearchBoundary(b: string, buf: string, c: Config)
    requires b != [] && Restartable(b) && c.i < |buf| && c.phase.PartDataBoundary?
    requires InBounds(b, c) && Searching(b, buf, c)
    ensures Searching(b, buf, Examine(b, buf, c).config)
  {
    hide Clear;
    var d, k := Delimiter(b), 2 + c.index;
    assert d[k] == b[c.index];
    if buf[c.i] == b[c.index] {
      assert buf[c.dbmark..c.i + 1] == buf[c.dbmark..c.i] + [buf[c.i]] == d[..k] + [d[k]] == d[..k + 1];
      if c.index + 1 == |b| {
        assert d[..k + 1] == d;
      }
    } else {
      FailedMatch(b, buf, c.dmark, c.dbmark, k);
    }
  }

  lemma ExamineSearches(b: string, buf: string, c: Config)
    requires b != [] && Restartable(b) && c.i < |buf|
    requires InBounds(b, c) && Searching(b, buf, c) && Examine(b, buf, c).Go?
    ensures Searching(b, buf, Examine(b, buf, c).config)
  {
    hide Clear, OccursAt;
    match c.phase
    case PartDataStart => SearchData(b, buf, c);
    case PartData => SearchData(b, buf, c);
    case PartDataAlmostBoundary => SearchAlmostBoundary(b, buf, c);
    case PartDataBoundary => SearchBoundary(b, buf, c);
    case _ =>
  }

  lemma KeepChunks(b: string, buf: string, events: seq<Event>, more: seq<Event>, end: int, end': int)
    requires ExactChunks(b, buf, events, end) && end <= end'
    requires forall k :: 0 <= k < |more| ==> !more[k].OnChunkData?
    ensures ExactChunks(b, buf, events + more, end')
  {
    hide ExactChunk;
  }

  lemma AddChunk(b: string, buf: string, events: seq<Event>, start: nat, end: nat)
    requires ExactChunks(b, buf, events, start) && ExactChunk(b, buf, start, end)
    ensures ExactChunks(b, buf, events + [OnChunkData(start, end)], end + |Delimiter(b)|)
  {
    hide OccursAt, Clear;
  }

  predicate Emits(buf: string, c: Config)
    requires c.i < |buf|
  {
    c.phase.PartDataFinalHyphen? || (c.phase.PartDataEnd? && buf[c.i] == '\n')
  }

  /** An examination adds callbacks, chunk data only in the two phases that emit it. */
  lemma NewEvents(b: string, buf: string, c: Config) returns (more: seq<Event>)
    requires b != [] && InBounds(b, c) && c.i < |buf|
    ensures Examine(b, buf, c).config.events
         == c.events + (if Emits(buf, c) then [OnChunkData(c.dmark, c.dbmark)] else []) + more
    ensures forall k :: 0 <= k < |more| ==> !more[k].OnChunkData?
  {
    var events := c.events + if Emits(buf, c) then [OnChunkData(c.dmark, c.dbmark)] else [];
    more := Examine(b, buf, c).config.events[|events|..];
  }

  /** Where the callbacks so far must have ended. */
  function Reach(buf: string, s: Step): int {
    if s.Stop? then |buf| else if InBody(s.config.phase) then s.config.dmark else s.config.i
  }

  lemma ReachGrows(b: string, buf: string, c: Config)
    requires b != [] && c.i < |buf| && InBounds(b, c) && Searching(b, buf, c)
    ensures (if InBody(c.phase) then c.dmark else c.i) <= Reach(buf, Examine(b, buf, c))
    ensures Emits(buf, c) ==> c.dbmark + |Delimiter(b)| <= Reach(buf, Examine(b, buf, c))
  {
    hide OccursAt, Clear;
  }

  lemma ExamineKeepsChunks(b: string, buf: string, c: Config)
    requires b != [] && c.i < |buf| && Exact(b, buf, c)
    ensures ExactChunks(b, buf, Examine(b, buf, c).config.events, Reach(buf, Examine(b, buf, c)))
  {
    hide OccursAt, Clear, ExactChunks, Examine, Reach;
    var more := NewEvents(b, buf, c);
    ReachGrows(b, buf, c);
    var end := Reach(buf, Examine(b, buf, c));
    if Emits(buf, c) {
      AddChunk(b, buf, c.events, c.dmark, c.dbmark);
      KeepChunks(b, buf, c.events + [OnChunkData(c.dmark, c.dbmark)], more, c.dbmark + |Delimiter(b)|, end);
    } else {
      KeepChunks(b, buf, c.events, more, if InBody(c.phase) then c.dmark else c.i, end);
      assert c.events + [] == c.events;
    }
  }

  /** On every buffer: each chunk handed out runs up to the first delimiter after its start, chunks
      lie in the buffer, and each begins behind the delimiter that ended the one before. */
  lemma {:induction false} RunIsExact(b: string, buf: string, c: Config)
    requires b != [] && Restartable(b) && Exact(b, buf, c)
    ensures ExactChunks(b, buf, Run(b, buf, c).config.events, |buf|)
    decreases Budget(buf, c)
  {
    hide Examine, OccursAt, Clear;
    if c.i < |buf| {
      ExamineKeepsChunks(b, buf, c);
      if Examine(b, buf, c).Go? {
        BudgetFalls(b, buf, c);
        ExamineSearches(b, buf, c);
        RunIsExact(b, buf, Examine(b, buf, c).config);
      }
    }
  }
}
