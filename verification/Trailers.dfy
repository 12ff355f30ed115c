/** The lines behind the last chunk: which of them complete the message. */
module Trailers {
  import opened Common
  import opened BodySpec

  // ------------------------------------------------------------------------------ the language

  predicate InLine(s: string) {
    '\r' !in s && '\n' !in s
  }

  /** Where the name of a header line ends. Its first byte is always part of the name. */
  function Colon(line: string): (c: nat)
    requires line != []
    ensures 1 <= c <= |line| && ':' !in line[1..c] && (c < |line| ==> line[c] == ':')
    decreases |line|
  {
    if |line| == 1 then 1
    else if line[1] == ':' then 1
    else
      var c := Colon(line[1..]);
      assert line[1..c + 1] == [line[1]] + line[1..][1..c];
      1 + c
  }

  function Trimmed(s: string): string {
    if s != [] && s[0] == ' ' then Trimmed(s[1..]) else s
  }

  /** A value without the spaces in front of it; of an empty one a space is left. */
  function ValueOf(s: string): string {
    if Trimmed(s) == [] then " " else Trimmed(s)
  }

  /** A value that fits the buffer and, for a Content-Length, is a number. */
  predicate GoodValue(kind: HeaderKind, v: string) {
    |v| < STACK_MAX && (kind.ContentLength? ==> StrToUint64(v).Some?)
  }

  /** A line that a bare LF may end: no value, and no continuation of the line before. */
  predicate NameLine(line: string, first: bool) {
    && InLine(line) && |line| < STACK_MAX
    && (line != [] ==> Colon(line) == |line|)
    && (first || (line != [] && line[0] != '\t'))
  }

  /** A line that CR LF may end, behind a line that left prev in the buffer. */
  predicate LastLine(kind: HeaderKind, first: bool, prev: string, line: string) {
    && InLine(line)
    && if line == [] then true
       else if !first && line[0] == '\t' then GoodValue(kind, prev + line[1..])
       else if Colon(line) == |line| then |line| < STACK_MAX
       else
         var c := Colon(line);
         c < STACK_MAX && GoodValue(KindOf(line[..c]), ValueOf(line[c + 1..]))
  }

  function LinesText(lines: seq<string>): string {
    if lines == [] then [] else lines[0] + "\n" + LinesText(lines[1..])
  }

  predicate NameLines(lines: seq<string>, first: bool) {
    forall k :: 0 <= k < |lines| ==> NameLine(lines[k], first && k == 0)
  }

  /** Lines that a bare LF ends, and one that CR LF ends. */
  predicate TrailerFrom(kind: HeaderKind, first: bool, prev: string, lines: seq<string>, line: string) {
    && NameLines(lines, first)
    && LastLine(kind, first && lines == [], if lines == [] then prev else lines[|lines| - 1], line)
  }

  function TrailerText(lines: seq<string>, line: string): string {
    LinesText(lines) + line + "\r\n"
  }

  // ---------------------------------------------------------------------- bytes within a line

  /** A header line of a trailer may begin here. */
  predicate AtLine(p: Parser) {
    p.trailing && Ready(p) && (p.state.HdrlineStart? || p.state.HdrDone?)
  }

  /** Inside a line: before or behind its colon. */
  predicate Within(p: Parser) {
    p.error.NoError? && (p.state.HdrKey? || p.state.HdrSpaceBeforeVal? || p.state.HdrVal?)
  }

  predicate NoBreak(s: string, colon: bool) {
    InLine(s) && (colon || ':' !in s)
  }

  lemma NoBreakRest(s: string, colon: bool)
    requires NoBreak(s, colon) && s != []
    ensures NoBreak(s[1..], colon) && s[0] != '\r' && s[0] != '\n' && (colon || s[0] != ':')
  {
    assert s[0] in s;
    assert forall c :: c in s[1..] ==> c in s;
  }

  /** Bytes that are kept in the buffer, as long as there is room. */
  lemma {:induction false} KeepOn(p: Parser, s: string)
    requires Within(p) && !p.state.HdrSpaceBeforeVal? && NoBreak(s, p.state.HdrVal?) && |p.buf| <= STACK_MAX
    ensures |p.buf + s| <= STACK_MAX ==> Run(p, s) == Outcome(p.(buf := p.buf + s), [], |s|)
    ensures |p.buf + s| > STACK_MAX ==> !Run(p, s).parser.error.NoError?
    decreases |s|
  {
    if s == [] {
      assert p.buf + s == p.buf;
    } else {
      NoBreakRest(s, p.state.HdrVal?);
      if !Full(p) {
        var q := p.(buf := p.buf + [s[0]]);
        assert Examine(p, s[0]) == (q, []);
        KeepOn(q, s[1..]);
        assert p.buf + s == q.buf + s[1..];
        NoCalls();
      }
    }
  }

  lemma NoCalls()
    ensures var none: seq<Call> := []; none + none == none
  {
  }

  /** The bytes behind a colon: the spaces are passed, the others are kept. */
  lemma {:induction false} KeepValue(p: Parser, s: string)
    requires Within(p) && p.state.HdrSpaceBeforeVal? && p.buf == [] && InLine(s)
    ensures var v := Trimmed(s);
      && (|v| <= STACK_MAX ==>
            Run(p, s) == Outcome(if v == [] then p else p.(buf := v, state := HdrVal), [], |s|))
      && (|v| > STACK_MAX ==> !Run(p, s).parser.error.NoError?)
    decreases |s|
  {
    if s != [] {
      NoBreakRest(s, true);
      NoCalls();
      if s[0] == ' ' {
        KeepValue(p, s[1..]);
      } else {
        var q := p.(buf := [s[0]], state := HdrVal);
        assert [] + [s[0]] == [s[0]];
        assert Examine(p, s[0]) == (q, []);
        KeepOn(q, s[1..]);
        assert [s[0]] + s[1..] == s;
      }
    }
  }

  /** What is read of a line whose name has no colon behind it. */
  lemma NameOnly(p: Parser, line: string)
    requires AtLine(p) && InLine(line) && line != [] && Colon(line) == |line|
    requires p.state.HdrlineStart? || line[0] != '\t'
    ensures var o := Run(p, line);
      if |line| <= STACK_MAX then o.parser == p.(buf := line, state := HdrKey) && o.consumed == |line|
      else !o.parser.error.NoError?
  {
    NoBreakRest(line, true);
    var q := p.(buf := [line[0]], state := HdrKey);
    assert Examine(p, line[0]).0 == q;
    assert line[1..|line|] == line[1..];
    KeepOn(q, line[1..]);
    assert [line[0]] + line[1..] == line;
  }

  /** A line that goes on with the one before. */
  lemma Continued(p: Parser, line: string)
    requires AtLine(p) && InLine(line) && line != [] && p.state.HdrDone? && line[0] == '\t'
    ensures var o := Run(p, line); var b := p.buf + line[1..];
      if |b| <= STACK_MAX then o.parser == p.(buf := b, state := HdrVal) && o.consumed == |line|
      else !o.parser.error.NoError?
  {
    NoBreakRest(line, true);
    var q := p.(state := HdrVal);
    assert Examine(p, line[0]).0 == q;
    KeepOn(q, line[1..]);
  }

  lemma InParts(line: string, i: nat)
    requires InLine(line) && i <= |line|
    ensures InLine(line[..i]) && InLine(line[i..]) && line == line[..i] + line[i..]
  {
  }

  /** A name, its colon and a value. */
  lemma NameAndValue(p: Parser, line: string)
    requires AtLine(p) && InLine(line) && line != [] && Colon(line) < |line|
    requires p.state.HdrlineStart? || line[0] != '\t'
    ensures var o, c := Run(p, line), Colon(line); var v := Trimmed(line[c + 1..]);
      if c < STACK_MAX && |v| <= STACK_MAX then
        && o.parser == p.(heval := KindOf(line[..c]), buf := v, state := if v == [] then HdrSpaceBeforeVal else HdrVal)
        && o.consumed == |line|
      else !o.parser.error.NoError?
  {
    hide Run, Examine, Trimmed, KindOf;
    var c := Colon(line);
    var name, value := line[..c], line[c + 1..];
    InParts(line, c);
    InParts(line[c..], 1);
    assert line[c..][1..] == value && line[c..][..1] == ":";
    NameIsName(line);
    NameOnly(p, name);
    RunSplit(p, name, line[c..]);
    if c > STACK_MAX {
      RunStops(Run(p, name).parser, line[c..]);
    } else {
      var q := p.(buf := name, state := HdrKey);
      RunColon(q);
      RunSplit(q, ":", value);
      if c == STACK_MAX {
        RunStops(Run(q, ":").parser, value);
      } else {
        KeepValue(q.(heval := KindOf(name), buf := [], state := HdrSpaceBeforeVal), value);
      }
    }
  }

  lemma NameIsName(line: string)
    requires line != []
    ensures Colon(line[..Colon(line)]) == Colon(line) && line[..Colon(line)][0] == line[0]
  {
    var c := Colon(line);
    var name := line[..c];
    assert name[1..] == line[1..c];
  }

  lemma RunColon(q: Parser)
    requires Within(q) && q.state.HdrKey?
    ensures var o := Run(q, ":");
      if Full(q) then !o.parser.error.NoError?
      else o == Outcome(q.(heval := KindOf(q.buf), buf := [], state := HdrSpaceBeforeVal), [HeaderKey(q.buf)], 1)
  {
    RunOne(q, ':');
  }

  // ------------------------------------------------------------------------------- line ends

  /** The value read so far is one the parser takes. */
  predicate Taken(q: Parser) {
    match q.state
    case HdrSpaceBeforeVal => GoodValue(q.heval, q.buf + " ")
    case HdrVal => GoodValue(q.heval, q.buf)
    case _ => true
  }

  lemma MeetCR(q: Parser)
    requires q.trailing && q.error.NoError? && (Within(q) || AtLine(q))
    ensures var q1 := Examine(q, '\r').0;
      if !Full(q) && Taken(q) then
        q1.trailing && Ready(q1) && (q1.state.HdrAlmostDone? || q1.state.HdrlineAlmostDone?)
      else !q1.error.NoError?
  {
    hide StrToUint64;
  }

  lemma MeetCRLF(q: Parser)
    requires q.trailing && q.error.NoError? && (Within(q) || AtLine(q))
    ensures !Going(Run(q, "\r\n").parser)
    ensures Completes(q, "\r\n") <==> !Full(q) && Taken(q)
    ensures Completes(q, "\r\n") ==> Run(q, "\r\n").consumed == 2
  {
    MeetCR(q);
    RunOne(q, '\r');
    RunSplit(q, "\r", "\n");
    assert "\r" + "\n" == "\r\n";
    hide Run, Taken;
    var q1 := Run(q, "\r").parser;
    if Going(q1) {
      RunOne(q1, '\n');
    } else {
      RunStops(q1, "\n");
    }
  }

  lemma MeetLF(q: Parser)
    requires Within(q) || AtLine(q)
    ensures var o := Run(q, "\n");
      if !Full(q) && q.state.HdrKey? then o.parser == q.(state := HdrDone) && o.consumed == 1
      else if !Full(q) && q.state.HdrlineStart? then o.parser == q.(buf := [], state := HdrDone) && o.consumed == 1
      else !o.parser.error.NoError?
  {
    RunOne(q, '\n');
  }

  /** What a line leaves in the parser decides which line ends it may have. */
  predicate Leaves(p: Parser, line: string, o: Outcome) {
    var q := o.parser;
    && (q.error.NoError? ==> o.consumed == |line| && q.trailing && (Within(q) || AtLine(q)))
    && (q.error.NoError? && !Full(q) && Taken(q) <==> LastLine(p.heval, p.state.HdrlineStart?, p.buf, line))
    && (q.error.NoError? && !Full(q) && (q.state.HdrKey? || q.state.HdrlineStart?)
        <==> NameLine(line, p.state.HdrlineStart?))
    && (q.error.NoError? && q.state.HdrKey? ==> q == p.(buf := line, state := HdrKey))
    && (q.error.NoError? && q.state.HdrlineStart? ==> q == p && line == [])
  }

  lemma AfterContinued(p: Parser, line: string)
    requires AtLine(p) && InLine(line) && line != [] && p.state.HdrDone? && line[0] == '\t'
    ensures Leaves(p, line, Run(p, line))
  {
    Continued(p, line);
    hide Run, KindOf, StrToUint64, Trimmed;
  }

  lemma AfterNameOnly(p: Parser, line: string)
    requires AtLine(p) && InLine(line) && line != [] && Colon(line) == |line|
    requires p.state.HdrlineStart? || line[0] != '\t'
    ensures Leaves(p, line, Run(p, line))
  {
    NameOnly(p, line);
    hide Run, KindOf, StrToUint64, Trimmed, Colon;
  }

  lemma AfterNameAndValue(p: Parser, line: string)
    requires AtLine(p) && InLine(line) && line != [] && Colon(line) < |line|
    requires p.state.HdrlineStart? || line[0] != '\t'
    ensures Leaves(p, line, Run(p, line))
  {
    NameAndValue(p, line);
    hide Run, KindOf, StrToUint64, Trimmed, Colon;
    var v := Trimmed(line[Colon(line) + 1..]);
    if v == [] {
      assert v + " " == " ";
    } else {
      assert ValueOf(line[Colon(line) + 1..]) == v;
    }
  }

  lemma AfterLine(p: Parser, line: string)
    requires AtLine(p) && InLine(line)
    ensures Leaves(p, line, Run(p, line))
  {
    if line == [] {
      RunStops(p, []);
      hide Run;
    } else {
      hide Leaves, Run;
      if p.state.HdrDone? && line[0] == '\t' {
        AfterContinued(p, line);
      } else if Colon(line) == |line| {
        AfterNameOnly(p, line);
      } else {
        AfterNameAndValue(p, line);
      }
    }
  }

  /** The first line that CR LF ends is the last, if it is read at all. */
  lemma LastLineEnds(p: Parser, line: string)
    requires AtLine(p) && InLine(line)
    ensures var t := line + "\r\n";
      && !Going(Run(p, t).parser)
      && (Completes(p, t) <==> LastLine(p.heval, p.state.HdrlineStart?, p.buf, line))
      && (Completes(p, t) ==> Run(p, t).consumed == |t|)
  {
    hide Run, LastLine, NameLine, Taken;
    AfterLine(p, line);
    RunSplit(p, line, "\r\n");
    var q := Run(p, line).parser;
    if q.error.NoError? {
      MeetCRLF(q);
    } else {
      RunStops(q, "\r\n");
    }
  }

  /** A bare LF ends only a line without a value. */
  lemma NameLineEnds(p: Parser, line: string)
    requires AtLine(p) && InLine(line)
    ensures var o := Run(p, line + "\n");
      if NameLine(line, p.state.HdrlineStart?) then
        o.parser == p.(buf := line, state := HdrDone) && o.consumed == |line| + 1 && AtLine(o.parser)
      else !o.parser.error.NoError?
  {
    AfterLine(p, line);
    RunSplit(p, line, "\n");
    hide Run, LastLine, Taken;
    var q := Run(p, line).parser;
    if q.error.NoError? {
      MeetLF(q);
    } else {
      RunStops(q, "\n");
    }
  }

  // --------------------------------------------------------------------------- whole trailers

  lemma {:induction false} RunTrailer(p: Parser, lines: seq<string>, line: string)
    requires AtLine(p) && TrailerFrom(p.heval, p.state.HdrlineStart?, p.buf, lines, line)
    ensures var t := TrailerText(lines, line);
      Completes(p, t) && Run(p, t).consumed == |t|
    decreases |lines|
  {
    hide Run, LastLine, NameLine, AtLine;
    if lines == [] {
      LastLineEnds(p, line) by { IsInLine(p.heval, true, p.buf, line); }
      assert TrailerText(lines, line) == line + "\r\n";
    } else {
      var first, more := lines[0], lines[1..];
      assert NameLine(first, p.state.HdrlineStart?);
      NameInLine(first, p.state.HdrlineStart?);
      NameLineEnds(p, first);
      var q := Run(p, first + "\n").parser;
      MoreLines(p.heval, p.state.HdrlineStart?, p.buf, lines, line);
      RunTrailer(q, more, line);
      TextOfMore(lines, line);
      StillCompletes(p, first + "\n", TrailerText(more, line));
    }
  }

  lemma IsInLine(kind: HeaderKind, first: bool, prev: string, line: string)
    ensures LastLine(kind, first, prev, line) ==> InLine(line)
    ensures LastLine(kind, !first, prev, line) ==> InLine(line)
  {
  }

  lemma NameInLine(line: string, first: bool)
    requires NameLine(line, first)
    ensures InLine(line)
  {
  }

  lemma MoreLines(kind: HeaderKind, first: bool, prev: string, lines: seq<string>, line: string)
    requires lines != []
    ensures TrailerFrom(kind, first, prev, lines, line)
        <==> NameLine(lines[0], first) && TrailerFrom(kind, false, lines[0], lines[1..], line)
  {
    hide NameLine, LastLine;
    var more := lines[1..];
    assert forall k :: 0 <= k < |more| ==> more[k] == lines[k + 1];
    if NameLine(lines[0], first) && NameLines(more, false) {
      forall k | 0 <= k < |lines|
        ensures NameLine(lines[k], first && k == 0)
      {
        assert k > 0 ==> lines[k] == more[k - 1];
      }
    }
  }

  lemma TextOfMore(lines: seq<string>, line: string)
    requires lines != []
    ensures TrailerText(lines, line) == lines[0] + "\n" + TrailerText(lines[1..], line)
  {
  }

  /** Where the first CR or LF is. */
  function Break(t: string): (i: nat)
    ensures i <= |t| && InLine(t[..i]) && (i < |t| ==> t[i] == '\r' || t[i] == '\n')
  {
    if t == [] || t[0] == '\r' || t[0] == '\n' then 0
    else
      var i := Break(t[1..]);
      assert t[..1 + i] == [t[0]] + t[1..][..i];
      1 + i
  }

  /** Behind a CR only a LF will do. */
  lemma CRThenLF(p: Parser, line: string, more: string)
    requires AtLine(p) && InLine(line) && Completes(p, line + "\r" + more)
    ensures more != [] && more[0] == '\n'
  {
    AfterLine(p, line);
    StillCompletes(p, line + "\r", more);
    StillCompletes(p, line, "\r");
    RunSplit(p, line, "\r");
    hide Run, Taken, LastLine, NameLine;
    var q := Run(p, line).parser;
    if !q.error.NoError? {
      RunStops(q, "\r");
      RunStops(q, more);
    } else {
      MeetCR(q);
      RunOne(q, '\r');
      var q1 := Examine(q, '\r').0;
      if more == [] || !q1.error.NoError? {
        RunStops(q1, more);
      } else if more[0] != '\n' {
        Broken(q1, more);
      }
    }
  }

  lemma Broken(q: Parser, t: string)
    requires Ready(q) && (q.state.HdrAlmostDone? || q.state.HdrlineAlmostDone?) && t != [] && t[0] != '\n'
    ensures !Completes(q, t)
  {
    var q1 := Examine(q, t[0]).0;
    assert !q1.error.NoError?;
    RunStops(q1, t[1..]);
  }

  /** What completes the message is lines that a bare LF ends, and one that CR LF ends. */
  lemma {:induction false} TakeTrailer(p: Parser, t: string) returns (lines: seq<string>, line: string)
    requires AtLine(p) && Completes(p, t)
    ensures TrailerFrom(p.heval, p.state.HdrlineStart?, p.buf, lines, line)
    ensures t[..Run(p, t).consumed] == TrailerText(lines, line)
    decreases |t|
  {
    hide Run, NameLine, LastLine, AtLine, Taken, TrailerFrom;
    var i := Break(t);
    var first := t[..i];
    if i == |t| {
      assert t == first;
      AfterLine(p, first);
      NotThere(p, first);
      assert false;
    } else if t[i] == '\n' {
      var rest := t[i + 1..];
      assert t == first + "\n" + rest;
      StillCompletes(p, first + "\n", rest);
      NameLineEnds(p, first);
      var q := Run(p, first + "\n").parser;
      if !NameLine(first, p.state.HdrlineStart?) {
        RunStops(q, rest);
        assert false;
      }
      var more;
      more, line := TakeTrailer(q, rest);
      lines := [first] + more;
      assert lines[1..] == more;
      MoreLines(p.heval, p.state.HdrlineStart?, p.buf, lines, line);
      TextOfMore(lines, line);
      TakeBoth(first + "\n", rest, Run(q, rest).consumed);
    } else {
      var more := t[i + 1..];
      assert t == first + "\r" + more;
      CRThenLF(p, first, more);
      var rest := more[1..];
      assert t == first + "\r\n" + rest;
      StillCompletes(p, first + "\r\n", rest);
      LastLineEnds(p, first);
      RunStops(Run(p, first + "\r\n").parser, rest);
      lines, line := [], first;
      OneLine(p.heval, p.state.HdrlineStart?, p.buf, line);
      assert t[..|first| + 2] == first + "\r\n";
    }
  }

  lemma NotThere(p: Parser, line: string)
    requires Leaves(p, line, Run(p, line))
    ensures !Completes(p, line)
  {
    hide Run, LastLine, NameLine, Taken;
  }

  lemma OneLine(kind: HeaderKind, first: bool, prev: string, line: string)
    requires LastLine(kind, first, prev, line)
    ensures TrailerFrom(kind, first, prev, [], line) && TrailerText([], line) == line + "\r\n"
  {
    assert LinesText([]) + line == line;
  }

  lemma TakeBoth(a: string, b: string, n: nat)
    requires n <= |b|
    ensures (a + b)[..|a| + n] == a + b[..n]
  {
  }

  /** A trailer completes the message, and is read to its end, exactly if it is lines without a
      value that a bare LF ends and then one line that CR LF ends. */
  lemma TrailerIff(p: Parser, t: string)
    requires AtLine(p)
    ensures Completes(p, t) && Run(p, t).consumed == |t|
        <==> exists lines, line :: TrailerFrom(p.heval, p.state.HdrlineStart?, p.buf, lines, line)
                                && t == TrailerText(lines, line)
  {
    hide Run, TrailerFrom, AtLine;
    if Completes(p, t) && Run(p, t).consumed == |t| {
      var lines, line := TakeTrailer(p, t);
      assert t[..|t|] == t;
    }
    forall lines, line
      | TrailerFrom(p.heval, p.state.HdrlineStart?, p.buf, lines, line) && t == TrailerText(lines, line)
      ensures Completes(p, t) && Run(p, t).consumed == |t|
    {
      RunTrailer(p, lines, line);
    }
  }

  /** Calls that neither hand over body data nor complete the message. */
  predicate Silent(calls: seq<Call>) {
    forall k :: 0 <= k < |calls| ==> !calls[k].Body? && !calls[k].MsgComplete?
  }

  lemma TrailerByte(p: Parser, ch: char)
    requires p.trailing && InHeader(p.state)
    ensures var q, calls := Examine(p, ch).0, Examine(p, ch).1;
      if q.state.Start? then calls == [MsgComplete] else q.trailing && InHeader(q.state) && Silent(calls)
  {
    hide StrToUint64, KindOf;
  }

  /** A trailer hands over no data, and completes the message at most once, at its end. */
  lemma {:induction false} TrailerCalls(p: Parser, t: string) returns (silent: seq<Call>)
    requires p.trailing && InHeader(p.state)
    ensures Silent(silent)
    ensures Run(p, t).calls == silent + if Run(p, t).parser.state.Start? then [MsgComplete] else []
    decreases |t|
  {
    silent := [];
    if t != [] && Going(p) {
      TrailerByte(p, t[0]);
      hide Examine, InHeader;
      var q, calls := Examine(p, t[0]).0, Examine(p, t[0]).1;
      if q.state.Start? {
        RunStops(q, t[1..]);
        assert [MsgComplete] + [] == [] + [MsgComplete];
      } else {
        var more := TrailerCalls(q, t[1..]);
        silent := calls + more;
        assert calls + (more + [MsgComplete]) == calls + more + [MsgComplete];
        assert calls + (more + []) == calls + more + [];
      }
    } else {
      RunStops(p, t);
    }
  }
}
