/** What the parser does with a text that is not as it should be: where it stops, and what it has handed
    over by then. */
module MultipartStops {
  import opened MultipartSpec
  import opened MultipartRoundTrip

  lemma Stops(b: string, buf: string, c: Config)
    requires b != [] && InBounds(b, c) && c.i < |buf| && Examine(b, buf, c).Stop?
    ensures Result(b, buf, c) == (Examine(b, buf, c).ret, Examine(b, buf, c).config.events)
  {
    hide Examine;
  }

  lemma Ends(b: string, buf: string, c: Config)
    requires b != [] && InBounds(b, c) && c.i == |buf|
    ensures Result(b, buf, c) == (|buf|, c.events)
  {
  }

  /** The run stops at the first byte that is not the boundary line's. */
  lemma {:induction false} WrongBoundary(b: string, buf: string, c: Config, k: nat)
    requires b != [] && c.phase.StartBoundary? && c.i == c.index <= k < |b| + 2 && k < |buf|
    requires buf[..k] == (b + "\r\n")[..k] && buf[k] != (b + "\r\n")[k]
    ensures Result(b, buf, c) == (k, c.events)
    decreases k - c.i
  {
    hide Result;
    var line := b + "\r\n";
    assert c.i < k ==> buf[c.i] == buf[..k][c.i] == line[..k][c.i] == line[c.i];
    assert c.i < |b| ==> line[c.i] == b[c.i];
    assert c.i == |b| ==> line[c.i] == '\r';
    assert c.i == |b| + 1 ==> line[c.i] == '\n';
    if c.i == k {
      Stops(b, buf, c);
    } else {
      Follow(b, buf, c);
      WrongBoundary(b, buf, c.(i := c.i + 1, index := c.index + 1), k);
    }
  }

  lemma NotTheBoundary(b: string, buf: string, k: nat)
    requires b != [] && k < |b| + 2 && k < |buf|
    requires buf[..k] == (b + "\r\n")[..k] && buf[k] != (b + "\r\n")[k]
    ensures Run(b, buf, INITIAL).ret == k && Run(b, buf, INITIAL).config.events == []
  {
    StartIsBoundary(b, buf);
    WrongBoundary(b, buf, INITIAL.(phase := StartBoundary), k);
    hide Run;
    assert Result(b, buf, INITIAL) == (k, []);
  }

  /** The characters of a name are passed. */
  lemma {:induction false} PassName(b: string, buf: string, c: Config, name: string) returns (c': Config)
    requires b != [] && c.phase.HeaderField? && GoodName(name) && At(buf, c.i, name) && c.i + |name| < |buf|
    ensures c' == c.(i := c.i + |name|) && Result(b, buf, c) == Result(b, buf, c')
    decreases |name|
  {
    hide Result, IsNameChar;
    c' := c;
    if name != [] {
      AtChar(buf, c.i, name);
      NameChars(name[0]);
      NameChars('\r');
      NameChars(':');
      assert IsNameChar(name[0]);
      Follow(b, buf, c);
      c' := PassName(b, buf, c.(i := c.i + 1), name[1..]);
    }
  }

  /** A header name with any other character in it: the run stops at that character and hands over
      nothing of the name. */
  lemma BadName(b: string, buf: string, c: Config, name: string)
    requires b != [] && c.phase.HeaderFieldStart? && GoodName(name) && At(buf, c.i, name) && c.i + |name| < |buf|
    requires var ch := buf[c.i + |name|]; !IsNameChar(ch) && ch != ':' && ch != '\r'
    ensures Result(b, buf, c) == (c.i + |name|, c.events)
  {
    hide Result, IsNameChar;
    StartMarks(b, buf, c);
    var c1 := PassName(b, buf, c.(phase := HeaderField, mark := c.i), name);
    NameChars(buf[c1.i]);
    NameChars('-');
    Stops(b, buf, c1);
  }

  /** A name that ends in CR LF without a colon ends the headers, and is not handed over; behind its CR
      nothing but LF will do. */
  lemma NameWithoutColon(b: string, buf: string, c: Config, name: string) returns (c': Config)
    requires b != [] && c.phase.HeaderFieldStart? && GoodName(name) && At(buf, c.i, name + "\r")
    requires c.i + |name| + 1 < |buf|
    ensures if buf[c.i + |name| + 1] == '\n' then
              && c'.phase.PartDataStart? && c'.i == c.i + |name| + 2 && c'.events == c.events
              && Result(b, buf, c) == Result(b, buf, c')
            else Result(b, buf, c) == (c.i + |name| + 1, c.events)
  {
    hide Result;
    AtParts(buf, c.i, name, "\r");
    AtChar(buf, c.i + |name|, "\r");
    StartMarks(b, buf, c);
    c' := PassName(b, buf, c.(phase := HeaderField, mark := c.i), name);
    Follow(b, buf, c');
    c' := c'.(phase := HeadersAlmostDone, i := c'.i + 1);
    if buf[c'.i] == '\n' {
      Follow(b, buf, c');
      c' := c'.(phase := PartDataStart, i := c'.i + 1);
    } else {
      Stops(b, buf, c');
    }
  }

  /** The characters of a value are passed. */
  lemma {:induction false} PassValue(b: string, buf: string, c: Config, value: string) returns (c': Config)
    requires b != [] && c.phase.HeaderValue? && '\r' !in value && At(buf, c.i, value) && c.i + |value| < |buf|
    ensures c' == c.(i := c.i + |value|) && Result(b, buf, c) == Result(b, buf, c')
    decreases |value|
  {
    hide Result;
    c' := c;
    if value != [] {
      AtChar(buf, c.i, value);
      assert value[0] in value && c.events + [] + [] == c.events;
      Follow(b, buf, c);
      c' := PassValue(b, buf, c.(i := c.i + 1), value[1..]);
    }
  }

  /** Behind the CR of a value, which has been handed over, nothing but LF will do. */
  lemma BadValueEnd(b: string, buf: string, c: Config, value: string)
    requires b != [] && c.phase.HeaderValueStart? && GoodValue(value) && At(buf, c.i, value + "\r")
    requires c.i + |value| + 1 < |buf| && buf[c.i + |value| + 1] != '\n'
    ensures Result(b, buf, c) == (c.i + |value| + 1, c.events + [OnHeaderValue(c.i, c.i + |value|)])
  {
    hide Result;
    AtParts(buf, c.i, value, "\r");
    AtChar(buf, c.i + |value|, "\r");
    AtChar(buf, c.i, value + "\r");
    StartMarks(b, buf, c);
    var c1 := PassValue(b, buf, c.(phase := HeaderValue, mark := c.i), value);
    var e := [OnHeaderValue(c.i, c.i + |value|)];
    assert c.events + e + [] == c.events + e;
    Follow(b, buf, c1);
    Stops(b, buf, c1.(phase := HeaderValueAlmostDone, i := c1.i + 1, events := c.events + e));
  }

  /** Behind a delimiter there is another part, the end, or nothing the parser takes; a hyphen that is
      not doubled still hands over the chunk in front of the delimiter. */
  lemma BadClosing(b: string, buf: string, c: Config)
    requires b != [] && c.phase.PartDataAlmostEnd? && c.i < |buf|
    ensures buf[c.i] != '-' && buf[c.i] != '\r' ==> Result(b, buf, c) == (c.i, c.events)
    ensures buf[c.i] == '\r' && c.i + 1 < |buf| && buf[c.i + 1] != '\n' ==> Result(b, buf, c) == (c.i + 1, c.events)
    ensures buf[c.i] == '-' && c.i + 1 < |buf| && buf[c.i + 1] != '-' ==>
              Result(b, buf, c) == (c.i + 1, c.events + [OnChunkData(c.dmark, c.dbmark)])
  {
    hide Result;
    if buf[c.i] == '\r' || buf[c.i] == '-' {
      Follow(b, buf, c);
      var c1 := Examine(b, buf, c).config;
      if c1.i < |buf| && buf[c1.i] != (if buf[c.i] == '-' then '-' else '\n') {
        Stops(b, buf, c1);
      }
    } else {
      Stops(b, buf, c);
    }
  }

  // ----------------------------------------------------------------- buffers that end too early

  /** A buffer that ends in the middle of a name hands over what there is of it, unless it ends in a
      hyphen. */
  lemma CutName(b: string, buf: string, c: Config, name: string, last: char)
    requires b != [] && c.phase.HeaderFieldStart? && GoodName(name + [last])
    requires At(buf, c.i, name + [last]) && c.i + |name| + 1 == |buf|
    ensures Result(b, buf, c)
         == (|buf|, c.events + if last == '-' then [] else [OnHeaderField(c.i, |buf|)])
  {
    hide Result, IsNameChar;
    AtParts(buf, c.i, name, [last]);
    AtChar(buf, c.i + |name|, [last]);
    assert GoodName(name) && IsNameChar((name + [last])[|name|]) by {
      assert forall k :: 0 <= k < |name| ==> name[k] == (name + [last])[k];
    }
    NameChars(last);
    NameChars('\r');
    NameChars(':');
    StartMarks(b, buf, c);
    var c1 := PassName(b, buf, c.(phase := HeaderField, mark := c.i), name);
    assert c.events + [] == c.events;
    Follow(b, buf, c1);
    Ends(b, buf, Examine(b, buf, c1).config);
  }

  /** A buffer that ends in the middle of a value hands over what there is of it; one that ends in the CR
      hands over the value twice, the second time with the CR. */
  lemma CutValue(b: string, buf: string, c: Config, value: string, last: char)
    requires b != [] && c.phase.HeaderValueStart? && '\r' !in value && (value + [last])[0] != ' '
    requires At(buf, c.i, value + [last]) && c.i + |value| + 1 == |buf|
    ensures Result(b, buf, c)
         == (|buf|, c.events + (if last == '\r' then [OnHeaderValue(c.i, c.i + |value|)] else [])
                    + [OnHeaderValue(c.i, |buf|)])
  {
    hide Result;
    AtParts(buf, c.i, value, [last]);
    AtChar(buf, c.i + |value|, [last]);
    AtChar(buf, c.i, value + [last]);
    StartMarks(b, buf, c);
    var c1 := PassValue(b, buf, c.(phase := HeaderValue, mark := c.i), value);
    Follow(b, buf, c1);
    Ends(b, buf, Examine(b, buf, c1).config);
  }
}
