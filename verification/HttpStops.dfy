/** Header lines that are not as they should be: where the parser stops and what it has handed over by then;
    and the two odd kinds of line it takes, one without a value and one that continues the line before. */
module HttpStops {
  import opened Common
  import opened BodySpec
  import opened Trailers
  import opened ChunkedBodies
  import opened HttpHeaders

  predicate Gap(s: string) {
    forall k :: 0 <= k < |s| ==> s[k] == ' '
  }

  /** The parser reads all of s, makes these calls and has that error at its last byte. */
  predicate FailsAt(p: Parser, s: string, error: Error, calls: seq<Call>) {
    var o := Run(p, s);
    o.parser.error == error && o.calls == calls && o.consumed == |s|
  }

  lemma FailsBehind(p: Parser, s: string, q: Parser, calls: seq<Call>, ch: char, error: Error)
    requires Run(p, s) == Outcome(q, calls, |s|) && Going(q)
    requires Examine(q, ch).0.error == error && Examine(q, ch).1 == []
    ensures FailsAt(p, s + [ch], error, calls)
  {
    RunOne(q, ch);
    hide Run, Examine;
    RunBoth(p, s, q, calls, [ch], Examine(q, ch).0, []);
    assert calls + [] == calls;
  }

  /** Name and colon. */
  lemma NamedLine(p: Parser, name: string)
    requires BeforeLine(p) && GoodName(name)
    ensures Run(p, name + ":")
         == Outcome(p.(heval := KindOf(name), buf := [], state := HdrSpaceBeforeVal), Pending(p) + [HeaderKey(name)],
                    |name + ":"|)
  {
    var named := p.(buf := name, state := HdrKey);
    RunName(p, name);
    RunColon(named);
    hide *;
    RunBoth(p, name, named, Pending(p), ":", p.(heval := KindOf(name), buf := [], state := HdrSpaceBeforeVal),
            [HeaderKey(name)]);
  }

  /** Name, colon and what stands before the line's end. */
  lemma ValuedLine(p: Parser, name: string, gap: string, value: string) returns (q: Parser)
    requires BeforeLine(p) && GoodName(name) && Gap(gap) && (value == [] || GoodText(value))
    ensures q == p.(heval := KindOf(name), buf := value, state := if value == [] then HdrSpaceBeforeVal else HdrVal)
    ensures Run(p, name + ":" + (gap + value))
         == Outcome(q, Pending(p) + [HeaderKey(name)], |name + ":" + (gap + value)|)
    ensures Ready(q) && !q.trailing
  {
    NamedLine(p, name);
    var named := p.(heval := KindOf(name), buf := [], state := HdrSpaceBeforeVal);
    q := p.(heval := KindOf(name), buf := value, state := if value == [] then HdrSpaceBeforeVal else HdrVal);
    if value == [] {
      NoValue(named, gap);
      assert gap + value == gap;
    } else {
      RunGap(named, gap, value);
    }
    hide Run, KindOf, GoodText, GoodName, InLine, Gap, Pending;
    RunBoth(p, name + ":", named, Pending(p) + [HeaderKey(name)], gap + value, q, []);
    assert Pending(p) + [HeaderKey(name)] + [] == Pending(p) + [HeaderKey(name)];
  }

  lemma {:induction false} NoValue(p: Parser, gap: string)
    requires Ready(p) && p.state.HdrSpaceBeforeVal? && Gap(gap)
    ensures Run(p, gap) == Outcome(p, [], |gap|)
    decreases |gap|
  {
    if gap != [] {
      NoValue(p, gap[1..]);
      assert Examine(p, gap[0]) == (p, []);
      assert [] + Run(p, gap[1..]).calls == Run(p, gap[1..]).calls;
      hide Examine;
    }
  }

  /** A value that a bare LF ends. */
  lemma BareLF(p: Parser, name: string, gap: string, value: string)
    requires BeforeLine(p) && GoodName(name) && Gap(gap) && (value == [] || GoodText(value))
    ensures FailsAt(p, name + ":" + (gap + value) + "\n", InvalidHeader, Pending(p) + [HeaderKey(name)])
  {
    var q := ValuedLine(p, name, gap, value);
    hide Run, KindOf, GoodText, GoodName, Gap, Pending, FailsAt;
    FailsBehind(p, name + ":" + (gap + value), q, Pending(p) + [HeaderKey(name)], '\n', InvalidHeader);
  }

  /** A Content-Length that is no number, or too long a one: the length that is left is 0. */
  lemma BadLength(p: Parser, name: string, gap: string, text: string)
    requires BeforeLine(p) && GoodName(name) && AnyCase(name, "content-length") && Gap(gap) && GoodText(text)
    requires |text| > 20 || exists k :: 0 <= k < |text| && !('0' <= text[k] <= '9')
    ensures FailsAt(p, name + ":" + (gap + text) + "\r", TooBig, Pending(p) + [HeaderKey(name)])
    ensures Run(p, name + ":" + (gap + text) + "\r").parser.contentLen == 0
  {
    var q := ValuedLine(p, name, gap, text);
    LengthKind(name);
    NoLength(q);
    hide *;
    var t, calls, r := name + ":" + (gap + text), Pending(p) + [HeaderKey(name)], Examine(q, '\r').0;
    FailsBehind(p, t, q, calls, '\r', TooBig);
    RunBoth(p, t, q, calls, "\r", r, []);
  }

  lemma LengthKind(name: string)
    requires AnyCase(name, "content-length")
    ensures KindOf(name).ContentLength?
  {
    KindByName(name);
    NotBoth(name);
    hide AnyCase, KindOf;
  }

  lemma NoLength(q: Parser)
    requires Ready(q) && q.state.HdrVal? && q.heval.ContentLength?
    requires |q.buf| > 20 || exists k :: 0 <= k < |q.buf| && !('0' <= q.buf[k] <= '9')
    ensures Going(q) && Examine(q, '\r') == (q.(contentLen := 0, origContentLen := 0, error := TooBig), [])
    ensures Run(q, "\r") == Outcome(q.(contentLen := 0, origContentLen := 0, error := TooBig), [], 1)
  {
    if |q.buf| <= 20 {
      NoNumber(0, q.buf);
    }
    hide Uint64From;
    RunOne(q, '\r');
    hide Run;
  }

  /** Behind the CR of a line there must be LF. */
  lemma CRWithoutLF(p: Parser, h: Header, ch: char)
    requires BeforeLine(p) && Good(h) && ch != '\n'
    ensures FailsAt(p, h.name + ":" + (h.gap + ValueText(h)) + "\r" + [ch], InvalidHeader, Pending(p) + LineCalls(h))
  {
    var q := ValuedLine(p, h.name, h.gap, ValueText(h));
    OneKind(h);
    ShortTexts(h);
    var r, host := ValueCR(q, p, h);
    hide Run, KindOf, Good, Gap, Pending, AnyCase, ValueText, FailsAt, GoodText, GoodName;
    var text := h.name + ":" + (h.gap + ValueText(h));
    RunBoth(p, text, q, Pending(p) + [HeaderKey(h.name)], "\r", r, host);
    assert Pending(p) + [HeaderKey(h.name)] + host == Pending(p) + LineCalls(h);
    FailsBehind(p, text + "\r", r, Pending(p) + LineCalls(h), ch, InvalidHeader);
  }

  lemma ValueCR(q: Parser, p: Parser, h: Header) returns (r: Parser, host: seq<Call>)
    requires BeforeLine(p) && Good(h) && q == p.(heval := Kind(h), buf := ValueText(h), state := HdrVal)
    requires Ready(q)
    ensures Run(q, "\r") == Outcome(r, host, 1) && Going(r) && r.state.HdrAlmostDone? && Ready(r)
    ensures [HeaderKey(h.name)] + host == LineCalls(h)
  {
    if h.Length? {
      LengthIsRead(h.n);
    }
    hide StrToUint64, Decimal, AnyCase, Run;
    RunOne(q, '\r');
    r, host := Examine(q, '\r').0, Examine(q, '\r').1;
    assert [HeaderKey(h.name)] + [] == [HeaderKey(h.name)];
  }

  /** A line of a plain header without a value, spaces apart: its value is a space. */
  lemma EmptyValue(p: Parser, name: string, gap: string)
    requires BeforeLine(p) && GoodName(name) && Gap(gap)
    requires !AnyCase(name, "host") && !AnyCase(name, "content-length") && !AnyCase(name, "transfer-encoding")
    ensures Run(p, name + ":" + gap + "\r\n")
         == Outcome(p.(heval := HeaderKind.Plain, buf := " ", state := HdrDone), Pending(p) + [HeaderKey(name)],
                    |name + ":" + gap + "\r\n"|)
  {
    var q := ValuedLine(p, name, gap, []);
    KindByName(name);
    assert gap + [] == gap;
    hide KindOf, GoodName, Gap, Pending, AnyCase, Run;
    var r := p.(heval := HeaderKind.Plain, buf := " ", state := HdrDone);
    RunTwo(q, '\r', '\n');
    assert "\r\n" == ['\r', '\n'];
    RunBoth(p, name + ":" + gap, q, Pending(p) + [HeaderKey(name)], "\r\n", r, []);
    assert Pending(p) + [HeaderKey(name)] + [] == Pending(p) + [HeaderKey(name)];
  }

  /** A line that begins with a tab continues the value before it. */
  lemma Continued(p: Parser, more: string)
    requires Ready(p) && !p.trailing && p.state.HdrDone? && p.heval == HeaderKind.Plain
    requires InLine(more) && |p.buf + more| < STACK_MAX
    ensures Run(p, "\t" + more + "\r\n") == Outcome(p.(buf := p.buf + more), [], |more| + 3)
  {
    var q := p.(state := HdrVal);
    RunOne(p, '\t');
    assert NoBreak(more, true);
    KeepOn(q, more);
    var r := q.(buf := p.buf + more);
    PlainEnd(r);
    hide *;
    RunBoth(p, "\t", q, [], more, r, []);
    RunBoth(p, "\t" + more, r, [], "\r\n", p.(buf := p.buf + more), []);
  }

  lemma PlainEnd(r: Parser)
    requires Ready(r) && !r.trailing && r.state.HdrVal? && r.heval == HeaderKind.Plain
    ensures Run(r, "\r\n") == Outcome(r.(state := HdrDone), [], 2)
  {
    hide Run, ExamineBody, EndHeaders, StrToUint64, KindOf, Unhex;
    RunTwo(r, '\r', '\n');
    assert "\r\n" == ['\r', '\n'];
  }

  /** Instead of the empty line: a bare LF, or a CR without one, which is noticed when the last value and the
      end of the headers have been handed over. */
  lemma BadEmptyLine(p: Parser, ch: char)
    requires Ready(p) && !p.trailing && p.state.HdrDone? && ch != '\n'
    ensures FailsAt(p, "\n", InvalidHeader, [])
    ensures FailsAt(p, ['\r', ch], InvalidHeader, [HeaderVal(p.buf), HeadersComplete])
  {
    RunOne(p, '\n');
    RunTwo(p, '\r', ch);
    hide Run;
    assert [HeaderVal(p.buf), HeadersComplete] + [] == [HeaderVal(p.buf), HeadersComplete];
  }

  /** A name, or a value, of 8192 bytes: the next byte is too many. */
  lemma TooLong(p: Parser, name: string, gap: string, text: string, ch: char)
    requires BeforeLine(p) && InLine(text) && |text| == 8192
    ensures text[0] != '\t' && ':' !in text ==> FailsAt(p, text + [ch], TooBig, Pending(p))
    ensures GoodName(name) && Gap(gap) && text[0] != ' ' ==>
              FailsAt(p, name + ":" + (gap + text) + [ch], TooBig, Pending(p) + [HeaderKey(name)])
  {
    if text[0] != '\t' && ':' !in text {
      LongName(p, text, ch);
    }
    if GoodName(name) && Gap(gap) && text[0] != ' ' {
      LongValue(p, name, gap, text, ch);
    }
  }

  lemma LongName(p: Parser, text: string, ch: char)
    requires BeforeLine(p) && InLine(text) && |text| == STACK_MAX && text[0] != '\t' && ':' !in text
    ensures FailsAt(p, text + [ch], TooBig, Pending(p))
  {
    var q := p.(buf := [text[0]], state := HdrKey);
    assert text == [text[0]] + text[1..];
    assert text[0] in text && forall c :: c in text[1..] ==> c in text;
    assert Examine(p, text[0]) == (q, Pending(p));
    RunOne(p, text[0]);
    hide Run, InLine;
    KeepOn(q, text[1..]);
    var r := p.(buf := text, state := HdrKey);
    RunBoth(p, [text[0]], q, Pending(p), text[1..], r, []);
    assert Pending(p) + [] == Pending(p);
    hide FailsAt, Pending;
    FailsBehind(p, text, r, Pending(p), ch, TooBig);
  }

  lemma LongValue(p: Parser, name: string, gap: string, text: string, ch: char)
    requires BeforeLine(p) && GoodName(name) && Gap(gap) && InLine(text) && |text| == STACK_MAX && text[0] != ' '
    ensures FailsAt(p, name + ":" + (gap + text) + [ch], TooBig, Pending(p) + [HeaderKey(name)])
  {
    NamedLine(p, name);
    var named := p.(heval := KindOf(name), buf := [], state := HdrSpaceBeforeVal);
    TrimsGap(gap, text);
    assert InLine(gap + text);
    hide Run, KindOf, GoodName, InLine, Gap, Pending, FailsAt;
    KeepValue(named, gap + text);
    var r := named.(buf := text, state := HdrVal);
    RunBoth(p, name + ":", named, Pending(p) + [HeaderKey(name)], gap + text, r, []);
    assert Pending(p) + [HeaderKey(name)] + [] == Pending(p) + [HeaderKey(name)];
    FailsBehind(p, name + ":" + (gap + text), r, Pending(p) + [HeaderKey(name)], ch, TooBig);
  }

  // -------------------------------------------------------------------------------- chunks

  const DIGITS := "0123456789abcdefABCDEF"

  /** The bytes below 128 that are no digits of a size. */
  lemma NoDigit(ch: char)
    requires ch < 128 as char
    ensures Unhex(ch) == -1 <==> ch !in DIGITS
  {
    if '0' <= ch <= '9' {
      assert DIGITS[ch as int - '0' as int] == ch;
    } else if 'a' <= ch <= 'f' {
      assert DIGITS[10 + ch as int - 'a' as int] == ch;
    } else if 'A' <= ch <= 'F' {
      assert DIGITS[16 + ch as int - 'A' as int] == ch;
    }
  }

  /** A size that does not begin with a digit; one with something else than CR behind its digits, and CR with
      something else than LF behind it. */
  lemma BadSize(p: Parser, size: string, ch: char)
    requires p.state.ChunkSizeStart? && Ready(p) && SizeDigits(size) && ch < 128 as char
    ensures ch !in DIGITS ==> FailsAt(p, [ch], InvalidChunkSize, [])
    ensures ch !in DIGITS && ch != '\r' ==> FailsAt(p, size + [ch], InvalidChunkSize, [])
    ensures ch != '\n' ==> FailsAt(p, size + "\r" + [ch], InvalidChunkSize, [])
  {
    NoDigit(ch);
    RunSize(p, size);
    var q := p.(contentLen := SizeFrom(0, size), state := ChunkSize);
    var r := q.(state := ChunkSizeAlmostDone);
    RunOne(p, ch);
    RunOne(q, '\r');
    hide Run, SizeFrom, SizeDigits, FailsAt, Unhex;
    if ch !in DIGITS && ch != '\r' {
      FailsBehind(p, size, q, [], ch, InvalidChunkSize);
    }
    if ch != '\n' {
      RunBoth(p, size, q, [], "\r", r, []);
      FailsBehind(p, size + "\r", r, [], ch, InvalidChunkSize);
    }
    if ch !in DIGITS {
      FirstFails(p, ch);
    }
  }

  lemma FirstFails(p: Parser, ch: char)
    requires p.state.ChunkSizeStart? && Ready(p) && Unhex(ch) == -1
    ensures FailsAt(p, [ch], InvalidChunkSize, [])
  {
    RunOne(p, ch);
    hide Run, Unhex;
  }

  /** Behind the data of a chunk there must be CR and LF. */
  lemma BadDataEnd(p: Parser, ch: char)
    requires p.state.ChunkDataAlmostDone? && Ready(p)
    ensures ch != '\r' ==> FailsAt(p, [ch], InvalidChunk, [])
    ensures ch != '\n' ==> FailsAt(p, ['\r', ch], InvalidChunk, [])
  {
    RunOne(p, ch);
    RunTwo(p, '\r', ch);
    hide Run;
  }
}
