/** What the minifier leaves out and what it keeps, part by part of a text. */
module JsonComments {
  import opened Common
  import opened JsonSpec
  import opened JsonMinify

  /** A blank, a comment up to the end of its line, a long comment, a literal, any other character. */
  datatype Part = Blank(c: char) | Short(text: string) | Long(text: string) | Lit(body: string) | Other(c: char)

  /** Characters that are no quote, and escaped ones that may be. */
  predicate Body(s: string)
    decreases |s|
  {
    if s == "" then true
    else if s[0] == '\\' then |s| > 1 && Body(s[2..])
    else s[0] != '"' && Body(s[1..])
  }


  /** Behind the first slash of a long comment: a star, and then no star and slash before the closing ones,
      to which that star may belong. */
  predicate LongText(t: string) {
    (t == "" || t[0] == '*') && forall k :: 0 <= k < |t| ==> !("*/" <= (t + "*")[k..])
  }

  predicate GoodPart(p: Part) {
    match p
    case Blank(c) => c == ' ' || c == '\t' || c == '\r' || c == '\n'
    case Short(text) => '\n' !in text
    case Long(text) => LongText(text)
    case Lit(body) => Body(body)
    case Other(c) => c != ' ' && c != '\t' && c != '\r' && c != '\n' && c != '"'
  }

  function Written(p: Part): string {
    match p
    case Blank(c) => [c]
    case Short(text) => "//" + text + "\n"
    case Long(text) => "/" + text + "*/"
    case Lit(body) => "\"" + body + "\""
    case Other(c) => [c]
  }

  function WrittenAll(ps: seq<Part>): string {
    if ps == [] then "" else Written(ps[0]) + WrittenAll(ps[1..])
  }

  /** What is left of it. */
  function Left(p: Part): string {
    if p.Lit? || p.Other? then Written(p) else ""
  }

  function LeftAll(ps: seq<Part>): string {
    if ps == [] then "" else Left(ps[0]) + LeftAll(ps[1..])
  }

  /** The last line may be a comment. */
  predicate GoodTail(tail: string) {
    tail == "" || ("//" <= tail && '\n' !in tail)
  }

  /** A slash by itself is followed by neither a slash nor a star. */
  predicate GoodParts(ps: seq<Part>, tail: string) {
    if ps == [] then GoodTail(tail)
    else
      && GoodPart(ps[0]) && GoodParts(ps[1..], tail)
      && (ps[0] == Other('/') ==> AfterLone(WrittenAll(ps[1..]) + tail))
  }

  predicate AfterLone(s: string) {
    s != "" ==> s[0] != '/' && s[0] != '*'
  }

  // ----------------------------------------------------------------------- part by part

  lemma {:induction false} BodyIsLiteral(body: string, s: string)
    requires Body(body)
    ensures Literal(body + ("\"" + s)) == Some((body + "\"", s))
    decreases |body|
  {
    hide Literal;
    var t := "\"" + s;
    if body == "" {
      assert body + t == t && body + "\"" == "\"";
      LiteralEnds(s);
    } else if body[0] == '\\' {
      BodyIsLiteral(body[2..], s);
      LiteralPair(body[1], body[2..] + t);
      assert body + t == ['\\', body[1]] + (body[2..] + t);
      assert ['\\', body[1]] + (body[2..] + "\"") == body + "\"";
    } else {
      BodyIsLiteral(body[1..], s);
      LiteralChar(body[0], body[1..] + t);
      assert body + t == [body[0]] + (body[1..] + t);
      assert [body[0]] + (body[1..] + "\"") == body + "\"";
    }
  }

  lemma {:induction false} LinePassed(text: string, s: string)
    requires '\n' !in text && (s == "" || s[0] == '\n')
    ensures LineEnd(text + s) == s
  {
    if text == "" {
      assert text + s == s;
    } else {
      assert text[0] in text && forall c :: c in text[1..] ==> c in text;
      LinePassed(text[1..], s);
      assert (text + s)[1..] == text[1..] + s;
    }
  }

  /** The first star and slash of a text. */
  lemma {:induction false} CommentPassed(text: string, s: string)
    requires forall k :: 0 <= k < |text| ==> !("*/" <= (text + "*")[k..])
    ensures CommentEnd(text + ("*/" + s)) == Some(s)
  {
    var t := text + ("*/" + s);
    if text == "" {
      assert t == "*/" + s && t[2..] == s;
    } else {
      var rest := text[1..];
      assert t[1..] == rest + ("*/" + s);
      NotYet(text, s);
      forall k | 0 <= k < |rest|
        ensures !("*/" <= (rest + "*")[k..])
      {
        assert (rest + "*")[k..] == (text + "*")[k + 1..];
      }
      CommentPassed(rest, s);
    }
  }

  lemma NotYet(text: string, s: string)
    requires text != "" && !("*/" <= (text + "*")[0..])
    ensures !("*/" <= text + ("*/" + s))
  {
    var t, u := text + ("*/" + s), text + "*";
    assert u[0..] == u && t[0] == u[0] && t[1] == u[1];
  }

  /** One part in front of anything. */
  lemma PartLeft(p: Part, s: string)
    requires GoodPart(p) && (p == Other('/') ==> AfterLone(s))
    ensures Minified(Written(p) + s) == Prepend(Left(p), Minified(s))
  {
    hide Minified, Literal, LineEnd, CommentEnd, Body, LongText;
    PrependNothing(Minified(s));
    match p
    case Blank(c) => BlankLeft(c, s);
    case Short(text) =>
      ShortLeft(text, "\n" + s);
      BlankLeft('\n', s);
      assert Written(p) + s == "//" + text + ("\n" + s);
    case Long(text) =>
      LongLeft(text, s);
      assert Written(p) + s == "/" + (text + ("*/" + s));
    case Lit(body) => QuoteLeft(body, s);
    case Other(c) => CodeLeft(c, s);
  }

  lemma BlankLeft(c: char, s: string)
    requires c == ' ' || c == '\t' || c == '\r' || c == '\n'
    ensures Minified([c] + s) == Minified(s)
  {
    assert ([c] + s)[1..] == s;
  }

  lemma ShortLeft(text: string, s: string)
    requires '\n' !in text && (s == "" || s[0] == '\n')
    ensures Minified("//" + text + s) == Minified(s)
  {
    hide Literal, CommentEnd;
    var t := "//" + text + s;
    assert '\n' !in "//" + text;
    LinePassed("//" + text, s);
    assert t[0] == '/' && "//" <= t;
  }

  lemma LongLeft(text: string, s: string)
    requires LongText(text)
    ensures Minified("/" + (text + ("*/" + s))) == Minified(s)
  {
    hide Literal, LineEnd;
    var u := text + ("*/" + s);
    var t := "/" + u;
    assert u[0] == '*';
    CommentPassed(text, s);
    assert t[0] == '/' && t[1..] == u && t[1] == '*';
    assert CommentEnd(t) == CommentEnd(u);
    assert "/*" <= t && !("//" <= t);
  }

  lemma QuoteLeft(body: string, s: string)
    requires Body(body)
    ensures Minified("\"" + body + "\"" + s) == Prepend("\"" + body + "\"", Minified(s))
  {
    BodyIsLiteral(body, s);
    hide Literal, LineEnd, CommentEnd, Body;
    var t := "\"" + body + "\"" + s;
    assert t[0] == '"' && t[1..] == body + ("\"" + s);
    assert "\"" + (body + "\"") == "\"" + body + "\"";
  }

  lemma CodeLeft(c: char, s: string)
    requires GoodPart(Other(c)) && (c == '/' ==> AfterLone(s))
    ensures Minified([c] + s) == Prepend([c], Minified(s))
  {
    hide Literal, LineEnd, CommentEnd;
    var t := [c] + s;
    assert t[0] == c && t[1..] == s && t[..1] == [c];
    assert |t| > 1 ==> t[1] == s[0];
  }

  /** Blanks and comments go, everything else stays. */
  lemma {:induction false} PartsLeft(ps: seq<Part>, tail: string)
    requires GoodParts(ps, tail)
    ensures Minified(WrittenAll(ps) + tail) == Some(LeftAll(ps))
  {
    hide Minified, GoodPart, Written, Left;
    if ps == [] {
      assert "" + tail == tail;
      TailLeft(tail);
    } else {
      var s := WrittenAll(ps[1..]) + tail;
      PartsLeft(ps[1..], tail);
      PartLeft(ps[0], s);
      assert WrittenAll(ps) + tail == Written(ps[0]) + s;
    }
  }

  lemma TailLeft(tail: string)
    requires GoodTail(tail)
    ensures Minified(tail) == Some("")
  {
    if tail != "" {
      var text := tail[2..];
      assert tail == "//" + text + "";
      ShortLeft(text, "");
    }
  }

  // ------------------------------------------------------------------------- every text

  lemma {:induction false} BodyOf(s: string) returns (body: string)
    requires Literal(s).Some?
    ensures Body(body) && s == body + ("\"" + Literal(s).value.1)
    decreases |s|
  {
    if s[0] == '"' {
      body := "";
    } else if s[0] == '\\' {
      assert |s| > 1;
      var inner := BodyOf(s[2..]);
      assert s == s[..2] + s[2..];
      body := s[..2] + inner;
      assert body[2..] == inner;
    } else {
      body := BodyOf(s[1..]);
      body := [s[0]] + body;
    }
  }

  lemma {:induction false} LineOf(s: string) returns (text: string)
    ensures '\n' !in text && s == text + LineEnd(s) && (LineEnd(s) == "" || LineEnd(s)[0] == '\n')
    decreases |s|
  {
    text := "";
    if s != "" && s[0] != '\n' {
      text := LineOf(s[1..]);
      text := [s[0]] + text;
    }
  }

  lemma {:induction false} LongOf(s: string) returns (text: string)
    requires CommentEnd(s).Some?
    ensures s == text + ("*/" + CommentEnd(s).value)
    ensures forall k :: 0 <= k < |text| ==> !("*/" <= (text + "*")[k..])
    decreases |s|
  {
    text := "";
    if "*/" <= s {
      assert s == "*/" + s[2..];
    } else {
      var rest := LongOf(s[1..]);
      text := [s[0]] + rest;
      assert s == text + ("*/" + CommentEnd(s).value);
      FirstOpen(s, text, CommentEnd(s).value);
      forall k | 0 <= k < |text|
        ensures !("*/" <= (text + "*")[k..])
      {
        if k > 0 {
          assert (text + "*")[k..] == (rest + "*")[k - 1..];
        }
      }
    }
  }

  lemma FirstOpen(s: string, text: string, end: string)
    requires text != "" && s == text + ("*/" + end) && !("*/" <= s)
    ensures !("*/" <= (text + "*")[0..])
  {
    var u := text + "*";
    assert u[0..] == u && s[0] == u[0] && s[1] == u[1];
  }

  /** The first part of a text. */
  lemma FirstPart(s: string) returns (p: Part, rest: string)
    requires s != "" && Minified(s).Some? && !("//" <= s && LineEnd(s) == "")
    ensures GoodPart(p) && s == Written(p) + rest && |rest| < |s| && (p == Other('/') ==> AfterLone(rest))
    ensures Minified(rest).Some?
  {
    hide Literal, LineEnd, CommentEnd, Body;
    if IsBlank(s[0]) {
      p, rest := Blank(s[0]), s[1..];
    } else if "//" <= s {
      var text := LineOf(s);
      TwoSlashes(s, text);
      p, rest := Short(text[2..]), LineEnd(s)[1..];
      assert s == "//" + text[2..] + "\n" + rest;
      BlankLeft('\n', rest);
      assert LineEnd(s) == ['\n'] + rest;
    } else if "/*" <= s {
      var text := LongOf(s);
      LongFrom(s, text, CommentEnd(s).value);
      p, rest := Long(text[1..]), CommentEnd(s).value;
    } else if s[0] == '"' {
      var body := BodyOf(s[1..]);
      p, rest := Lit(body), Literal(s[1..]).value.1;
      assert s == "\"" + (body + ("\"" + rest));
    } else {
      p, rest := Other(s[0]), s[1..];
      assert s == [s[0]] + rest;
      assert s[0] == '/' && rest != "" ==> s[..2] == ['/', rest[0]];
    }
  }

  lemma TwoSlashes(s: string, text: string)
    requires "//" <= s && '\n' !in text && s == text + LineEnd(s) && LineEnd(s) != "" && LineEnd(s)[0] == '\n'
    ensures |text| >= 2 && text == "//" + text[2..] && '\n' !in text[2..]
  {
    hide LineEnd;
    assert s[|text|] == LineEnd(s)[0];
    assert text[0] == s[0] && text[1] == s[1];
    assert forall c :: c in text[2..] ==> c in text;
  }

  lemma LongFrom(s: string, text: string, rest: string)
    requires "/*" <= s && s == text + ("*/" + rest)
    requires forall k :: 0 <= k < |text| ==> !("*/" <= (text + "*")[k..])
    ensures text != "" && LongText(text[1..]) && s == "/" + text[1..] + "*/" + rest
  {
    assert s[|text|] == ("*/" + rest)[0];
    assert s[0] == text[0] == '/';
    var t := text[1..];
    assert t != "" ==> s[1] == t[0];
    forall k | 0 <= k < |t|
      ensures !("*/" <= (t + "*")[k..])
    {
      assert (t + "*")[k..] == (text + "*")[k + 1..];
    }
  }

  /** Every text the minifier stays inside is made of such parts. */
  lemma {:induction false} PartsOf(s: string) returns (ps: seq<Part>, tail: string)
    requires Minified(s).Some?
    ensures GoodParts(ps, tail) && s == WrittenAll(ps) + tail
    decreases |s|
  {
    hide Minified, GoodPart, Written, LineEnd;
    if s == "" {
      ps, tail := [], "";
    } else if "//" <= s && LineEnd(s) == "" {
      var text := LineOf(s);
      assert text + "" == text;
      ps, tail := [], s;
    } else {
      var p, rest := FirstPart(s);
      var others;
      others, tail := PartsOf(rest);
      ps := [p] + others;
      assert ps[1..] == others;
      assert s == Written(p) + (WrittenAll(ps[1..]) + tail);
    }
  }
}
