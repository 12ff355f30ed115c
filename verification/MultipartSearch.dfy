/** The search that never goes back, as the whole parser runs it: for which boundaries it is right,
    and what it does with the others. */
module MultipartSearch {
  import opened MultipartSpec
  import opened MultipartRoundTrip

  /** The scanner is in a part's body and has matched s characters of the delimiter. */
  predicate Scanning(b: string, c: Config, s: nat) {
    match c.phase
    case PartData => s == 0
    case PartDataAlmostBoundary => s == 1
    case PartDataBoundary => c.index < |b| && s == 2 + c.index
    case _ => false
  }

  /** How much is matched after some text too short to complete the delimiter. */
  function Matched(d: string, s: nat, u: string): (m: nat)
    requires s + |u| < |d|
    ensures m < |d|
    decreases |u|, s
  {
    if u == [] then s
    else if u[0] == d[s] then Matched(d, s + 1, u[1..])
    else if s > 0 then Matched(d, 0, u)
    else Matched(d, 0, u[1..])
  }

  /** One character of the delimiter that fits. */
  lemma Fits(b: string, buf: string, c: Config, s: nat) returns (c': Config)
    requires b != [] && Scanning(b, c, s) && s + 1 < |Delimiter(b)| && c.i < |buf| && buf[c.i] == Delimiter(b)[s]
    ensures Scanning(b, c', s + 1) && c'.i == c.i + 1 && c'.dmark == c.dmark && c'.events == c.events
    ensures c'.dbmark == (if s == 0 then c.i else c.dbmark) && Result(b, buf, c) == Result(b, buf, c')
  {
    hide Result;
    assert s >= 2 ==> Delimiter(b)[s] == b[s - 2];
    Follow(b, buf, c);
    c' := Examine(b, buf, c).config;
  }

  /** A character that does not fit is looked at again, with nothing matched. */
  lemma Misfits(b: string, buf: string, c: Config, s: nat) returns (c': Config)
    requires b != [] && Scanning(b, c, s) && 0 < s && c.i < |buf| && buf[c.i] != Delimiter(b)[s]
    ensures Scanning(b, c', 0) && c'.i == c.i && c'.dmark == c.dmark && c'.events == c.events
    ensures Result(b, buf, c) == Result(b, buf, c')
  {
    hide Result;
    assert s >= 2 ==> Delimiter(b)[s] == b[s - 2];
    Follow(b, buf, c);
    c' := Examine(b, buf, c).config;
  }

  /** A character that begins nothing. */
  lemma Passes(b: string, buf: string, c: Config) returns (c': Config)
    requires b != [] && Scanning(b, c, 0) && c.i < |buf| && buf[c.i] != '\r'
    ensures Scanning(b, c', 0) && c'.i == c.i + 1 && c'.dmark == c.dmark && c'.events == c.events
    ensures Result(b, buf, c) == Result(b, buf, c')
  {
    hide Result;
    Follow(b, buf, c);
    c' := Examine(b, buf, c).config;
  }

  /** Text that goes on with the delimiter. */
  lemma {:induction false} MatchOn(b: string, buf: string, c: Config, s: nat, k: nat) returns (c': Config)
    requires b != [] && Scanning(b, c, s) && s <= k < |Delimiter(b)| && At(buf, c.i, Delimiter(b)[s..k])
    ensures Scanning(b, c', k) && c'.i == c.i + (k - s) <= |buf| && c'.dmark == c.dmark && c'.events == c.events
    ensures c'.dbmark == (if s == 0 && k > 0 then c.i else c.dbmark) && Result(b, buf, c) == Result(b, buf, c')
    decreases k - s
  {
    hide Scanning, Delimiter, Result;
    c' := c;
    if s < k {
      var x := Delimiter(b)[s..k];
      AtChar(buf, c.i, x);
      assert x[1..] == Delimiter(b)[s + 1..k];
      c' := Fits(b, buf, c, s);
      c' := MatchOn(b, buf, c', s + 1, k);
    }
  }

  /** Text too short to complete the delimiter is passed, with so much matched at its end. */
  lemma {:induction false} ScanText(b: string, buf: string, c: Config, s: nat, u: string) returns (c': Config)
    requires b != [] && Scanning(b, c, s) && s + |u| < |Delimiter(b)| && At(buf, c.i, u)
    ensures Scanning(b, c', Matched(Delimiter(b), s, u))
    ensures c'.i == c.i + |u| <= |buf| && c'.dmark == c.dmark && c'.events == c.events
    ensures Result(b, buf, c) == Result(b, buf, c')
    decreases |u|, s
  {
    FirstIsCR(b);
    hide Scanning, Delimiter, Result;
    c' := c;
    if u != [] {
      AtChar(buf, c.i, u);
      if u[0] == Delimiter(b)[s] {
        c' := Fits(b, buf, c, s);
        c' := ScanText(b, buf, c', s + 1, u[1..]);
      } else if s > 0 {
        c' := Misfits(b, buf, c, s);
        c' := ScanText(b, buf, c', 0, u);
      } else {
        c' := Passes(b, buf, c);
        c' := ScanText(b, buf, c', 0, u[1..]);
      }
    }
  }

  lemma FirstIsCR(b: string)
    ensures Delimiter(b)[0] == '\r'
  {
  }

  /** A character that is neither the next one of the delimiter nor its first: nothing is matched
      behind it. */
  lemma Breaks(b: string, buf: string, c: Config, s: nat) returns (c': Config)
    requires b != [] && Scanning(b, c, s) && s < |Delimiter(b)| && c.i < |buf|
    requires buf[c.i] != Delimiter(b)[s] && buf[c.i] != '\r'
    ensures Scanning(b, c', 0) && c'.i == c.i + 1 && c'.dmark == c.dmark && c'.events == c.events
    ensures Result(b, buf, c) == Result(b, buf, c')
  {
    hide Scanning, Delimiter, Result;
    c' := c;
    if s > 0 {
      c' := Misfits(b, buf, c, s);
    }
    c' := Passes(b, buf, c');
  }

  /** A whole delimiter and the closing hyphens. */
  lemma Closes(b: string, buf: string, c: Config) returns (c': Config)
    requires b != [] && Scanning(b, c, 0) && At(buf, c.i, Delimiter(b) + "--")
    ensures c'.phase.End? && c'.i <= |buf| && Result(b, buf, c) == Result(b, buf, c')
    ensures c'.events == c.events + [OnPartDataEnd] + [OnChunkData(c.dmark, c.i), OnBodyEnd]
  {
    hide Result;
    var d := Delimiter(b);
    var n := |d| - 1;
    AtParts(buf, c.i, d, "--");
    assert d == d[0..n] + [d[n]];
    AtParts(buf, c.i, d[0..n], [d[n]]);
    AtChar(buf, c.i + n, [d[n]]);
    var c1 := MatchOn(b, buf, c, 0, n);
    Follow(b, buf, c1);
    var c2 := Examine(b, buf, c1).config;
    assert c2.phase.PartDataAlmostEnd? && c2.dbmark == c.i;
    AtChar(buf, c2.i, "--");
    Follow(b, buf, c2);
    var c3 := Examine(b, buf, c2).config;
    Follow(b, buf, c3);
    c' := Examine(b, buf, c3).config;
    assert c'.events == c2.events + [OnChunkData(c.dmark, c.i)] + [OnBodyEnd];
  }

  /** The boundary line and an empty head: the scanner stands at the beginning of a body. */
  lemma Opens(b: string, buf: string, body: string) returns (c: Config)
    requires b != [] && buf == b + "\r\n" + "\r\n" + body && body != []
    ensures Scanning(b, c, 0) && c.i == c.dmark == |b| + 4 && At(buf, c.i, body)
    ensures Result(b, buf, INITIAL) == Result(b, buf, c)
  {
    hide Result, Scanning;
    var start := INITIAL.(phase := StartBoundary);
    assert At(buf, 0, buf) && buf == (b + "\r\n") + ("\r\n" + body);
    AtParts(buf, 0, b + "\r\n", "\r\n" + body);
    AtParts(buf, |b| + 2, "\r\n", body);
    StartIsBoundary(b, buf);
    assert b[0..] == b;
    ReadBoundary(b, buf, start);
    var c1 := start.(phase := HeaderFieldStart, i := |b| + 2, events := [OnPartDataBegin]);
    assert [] + [OnPartDataBegin] == [OnPartDataBegin];
    assert EncodeHeaders([]) + "\r\n" == "\r\n";
    var c2 := ReadHeaders(b, buf, c1, []);
    c := BodyStarts(b, buf, c2);
  }

  lemma BodyStarts(b: string, buf: string, c: Config) returns (c': Config)
    requires b != [] && c.phase.PartDataStart? && c.i < |buf|
    ensures Scanning(b, c', 0) && c'.i == c'.dmark == c.i && Result(b, buf, c) == Result(b, buf, c')
  {
    c' := c.(phase := PartData, mark := c.i, dmark := c.i, events := c.events + [OnHeadersComplete]);
    SameExamine(b, buf, c, c');
  }

  /** A character that breaks any match of s characters. */
  function Breaker(d: string, s: nat): (z: char)
    requires s < |d|
    ensures z != d[s] && z != '\r'
  {
    if d[s] == 'a' then 'b' else 'a'
  }

  /** For any other boundary, a body the parser hands over with a delimiter in it. */
  lemma Overlooks(b: string) returns (buf: string)
    requires b != [] && !Restartable(b)
    ensures !ExactChunks(b, buf, Run(b, buf, INITIAL).config.events, |buf|)
  {
    hide Run, Examine;
    var d := Delimiter(b);
    var j :| 1 <= j < |d| && d[j] == '\r' && d[j..] != d[..|d| - j];
    var k := FirstDifference(d, j);
    var u := d[k - j..];
    var z := Breaker(d, Matched(d, 0, u));
    var tail := [z] + (d + "--");
    var body := d[..k] + (u + tail);
    buf := b + "\r\n" + "\r\n" + body;
    var c := Opens(b, buf, body);
    var end := RunTrap(b, buf, c, j, k, z);
    SkipEpilogue(b, buf, end);
    var p, q := c.i, c.i + k + |u| + 1;
    var events := Run(b, buf, INITIAL).config.events;
    assert events == end.events && OnChunkData(p, q) in events;
    TrapHides(b, buf, p, j, k, u + tail);
    assert !Clear(b, buf, p, q);
  }

  /** The delimiter at j is there, although the match that begins the body fails behind it. */
  lemma TrapHides(b: string, buf: string, p: nat, j: nat, k: nat, rest: string)
    requires var d := Delimiter(b); 0 < j < k < |d| && d[j..k] == d[..k - j]
    requires var d := Delimiter(b); d[k - j..] <= rest && At(buf, p, d[..k] + rest)
    ensures OccursAt(b, buf, p + j)
  {
    var d := Delimiter(b);
    AtParts(buf, p, d[..k], rest);
    hide Delimiter;
    forall x | 0 <= x < |d|
      ensures buf[p + j + x] == d[x]
    {
      if x < k - j {
        assert buf[p + (j + x)] == d[..k][j + x];
        assert d[j..k][x] == d[..k - j][x];
      } else {
        var y := x - (k - j);
        assert buf[p + k + y] == rest[y];
        assert d[k - j..][y] == rest[y];
      }
    }
    assert buf[p + j..p + j + |d|] == d;
  }

  lemma RunTrap(b: string, buf: string, c: Config, j: nat, k: nat, z: char) returns (c': Config)
    requires b != [] && Scanning(b, c, 0)
    requires var d := Delimiter(b); 0 < j < k < |d| && d[k] != d[k - j] && z == Breaker(d, Matched(d, 0, d[k - j..]))
    requires var d := Delimiter(b); At(buf, c.i, d[..k] + (d[k - j..] + ([z] + (d + "--"))))
    ensures c'.phase.End? && c'.i <= |buf| && Result(b, buf, c) == Result(b, buf, c')
    ensures OnChunkData(c.dmark, c.i + k + |Delimiter(b)| - (k - j) + 1) in c'.events
  {
    hide Scanning, Delimiter, Result, Examine, Matched;
    var d := Delimiter(b);
    var u := d[k - j..];
    AtParts(buf, c.i, d[..k], u + ([z] + (d + "--")));
    AtParts(buf, c.i + k, u, [z] + (d + "--"));
    AtParts(buf, c.i + k + |u|, [z], d + "--");
    assert d[0..k] == d[..k];
    var c1 := MatchOn(b, buf, c, 0, k);
    AtChar(buf, c1.i, u);
    assert u[0] == d[k - j];
    var c2 := Misfits(b, buf, c1, k);
    var c3 := ScanText(b, buf, c2, 0, u);
    AtChar(buf, c3.i, [z]);
    var c4 := Breaks(b, buf, c3, Matched(d, 0, u));
    c' := Closes(b, buf, c4);
    assert c'.events[|c4.events| + 1] == OnChunkData(c.dmark, c4.i);
  }

  /** On any bytes each chunk handed over ends at the first delimiter behind its start, for exactly
      the boundaries in which every inner CR begins the delimiter again. */
  lemma ExactIff(b: string)
    requires b != []
    ensures Restartable(b) <==>
            forall buf: string :: ExactChunks(b, buf, Run(b, buf, INITIAL).config.events, |buf|)
  {
    hide Restartable, Run, ExactChunks;
    if Restartable(b) {
      forall buf: string
        ensures ExactChunks(b, buf, Run(b, buf, INITIAL).config.events, |buf|)
      {
        InitialIsExact(b, buf);
        RunIsExact(b, buf, INITIAL);
      }
    } else {
      var buf := Overlooks(b);
    }
  }

  lemma InitialIsExact(b: string, buf: string)
    requires b != []
    ensures Exact(b, buf, INITIAL)
  {
  }
}
