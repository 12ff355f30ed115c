/** cJSON_Minify: what it makes of a text, that it turns the formatted layout of any tree into the
    compact one, and the loop that does it inside the array the text is in. */
module JsonMinify {
  import opened Common
  import opened JsonSpec
  import opened JsonRoundTrip

  predicate IsBlank(c: char) {
    c == ' ' || c == '\t' || c == '\r' || c == '\n'
  }

  /** Where the line ends that a comment stands on. */
  function LineEnd(s: string): (r: string)
    ensures |r| <= |s| && ("//" <= s ==> |r| < |s|)
  {
    if s == [] || s[0] == '\n' then s else LineEnd(s[1..])
  }

  /** What is behind the next star and slash; None when there is none and the cursor would leave
      the text. */
  function CommentEnd(s: string): (r: Option<string>)
    ensures r.Some? ==> |r.value| < |s|
  {
    if s == [] then None else if "*/" <= s then Some(s[2..]) else CommentEnd(s[1..])
  }

  /** A string literal behind its opening quote, and what is behind it; None when it has no end. */
  function Literal(s: string): (r: Option<(string, string)>)
    ensures r.Some? ==> s == r.value.0 + r.value.1 && r.value.0 != []
    decreases |s|
  {
    if s == [] || s == "\\" then None
    else if s[0] == '"' then Some(("\"", s[1..]))
    else if s[0] == '\\' then Passed(s[..2], Literal(s[2..]))
    else Passed(s[..1], Literal(s[1..]))
  }

  function Passed(x: string, r: Option<(string, string)>): Option<(string, string)> {
    match r case None => None case Some(l) => Some((x + l.0, l.1))
  }

  function Prepend(x: string, o: Option<string>): Option<string> {
    match o case None => None case Some(y) => Some(x + y)
  }

  /** What is left of a text; None when the cursor would leave it. */
  function Minified(s: string): Option<string>
    decreases |s|
  {
    if s == [] then Some([])
    else if IsBlank(s[0]) then Minified(s[1..])
    else if "//" <= s then Minified(LineEnd(s))
    else if "/*" <= s then
      match CommentEnd(s) case None => None case Some(t) => Minified(t)
    else if s[0] == '"' then
      match Literal(s[1..]) case None => None case Some(r) => Prepend("\"" + r.0, Minified(r.1))
    else Prepend(s[..1], Minified(s[1..]))
  }

  // ---------------------------------------------------------- texts the loop does not step out of

  /** Where in a text one is: in code, behind a slash there, in a comment of either kind, behind a
      star in the long one, in a literal, behind a backslash there. */
  datatype Mode = Code | Slash | Line | Block | Star | Quote | Escape

  function Next(m: Mode, c: char): Mode {
    match m
    case Code => if c == '/' then Slash else if c == '"' then Quote else Code
    case Slash => if c == '/' then Line else if c == '*' then Star else if c == '"' then Quote else Code
    case Line => if c == '\n' then Code else Line
    case Block => if c == '*' then Star else Block
    case Star => if c == '/' then Code else if c == '*' then Star else Block
    case Quote => if c == '"' then Code else if c == '\\' then Escape else Quote
    case Escape => Quote
  }

  /** Every literal and every long comment has its end; the star that opens a comment may close it. */
  predicate ClosedFrom(m: Mode, s: string)
    decreases |s|
  {
    if s == [] then m.Code? || m.Slash? || m.Line? else ClosedFrom(Next(m, s[0]), s[1..])
  }

  predicate Closed(s: string) {
    ClosedFrom(Code, s)
  }

  lemma {:induction false} ClosedLine(s: string)
    ensures ClosedFrom(Line, s) == Closed(LineEnd(s))
    decreases |s|
  {
    if s != [] && s[0] != '\n' {
      ClosedLine(s[1..]);
    }
  }

  lemma {:induction false} ClosedBlock(s: string)
    ensures ClosedFrom(Block, s) == (CommentEnd(s).Some? && Closed(CommentEnd(s).value))
    ensures ClosedFrom(Star, s) == if Starts(s, '/') then Closed(s[1..]) else ClosedFrom(Block, s)
    decreases |s|
  {
    if s != [] {
      ClosedBlock(s[1..]);
      assert "*/" <= s <==> s[0] == '*' && Starts(s[1..], '/');
      assert "*/" <= s ==> s[2..] == s[1..][1..];
    }
  }

  lemma {:induction false} ClosedQuote(s: string)
    ensures ClosedFrom(Quote, s) == (Literal(s).Some? && Closed(Literal(s).value.1))
    decreases |s|
  {
    if s == [] {
    } else if s[0] == '"' {
    } else if s[0] != '\\' {
      ClosedQuote(s[1..]);
    } else if |s| == 1 {
      assert s == "\\" && s[1..] == [];
      assert ClosedFrom(Escape, []) == false;
    } else {
      assert s != "\\";
      ClosedQuote(s[2..]);
      assert s[1..][1..] == s[2..];
      assert ClosedFrom(Quote, s) == ClosedFrom(Escape, s[1..]) == ClosedFrom(Quote, s[2..]);
    }
  }

  /** The loop stays inside the text exactly if every literal and every long comment has its end. */
  lemma {:induction false} MinifiedIff(s: string)
    ensures Minified(s).Some? <==> Closed(s)
    decreases |s|
  {
    hide LineEnd, CommentEnd, Literal;
    if s == [] {
    } else if IsBlank(s[0]) {
      MinifiedIff(s[1..]);
    } else if "//" <= s {
      ClosedComment(s);
      MinifiedIff(LineEnd(s));
    } else if "/*" <= s {
      ClosedComment(s);
      if CommentEnd(s).Some? {
        MinifiedIff(CommentEnd(s).value);
      }
    } else if s[0] == '"' {
      ClosedQuote(s[1..]);
      if Literal(s[1..]).Some? {
        MinifiedIff(Literal(s[1..]).value.1);
      }
    } else {
      MinifiedIff(s[1..]);
      AfterSlash(s);
    }
  }

  lemma ClosedComment(s: string)
    requires s != [] && s[0] == '/' && |s| >= 2
    ensures s[1] == '/' ==> Closed(s) == Closed(LineEnd(s))
    ensures s[1] == '*' ==> Closed(s) == (CommentEnd(s).Some? && Closed(CommentEnd(s).value))
  {
    var u, t := s[1..], s[1..][1..];
    assert u[0] == s[1] && Closed(s) == ClosedFrom(Slash, u) == ClosedFrom(Next(Slash, s[1]), t);
    if s[1] == '/' {
      ClosedLine(t);
      assert LineEnd(s) == LineEnd(u) == LineEnd(t);
    } else if s[1] == '*' {
      ClosedBlock(t);
      assert CommentEnd(s) == CommentEnd(u);
      if Starts(t, '/') {
        assert "*/" <= u && u[2..] == t[1..];
      } else {
        assert !("*/" <= u);
      }
    }
  }

  /** A slash that begins no comment is a character like others. */
  lemma AfterSlash(s: string)
    requires s != [] && s[0] != '"' && !("//" <= s) && !("/*" <= s)
    ensures Closed(s) == Closed(s[1..])
  {
    if s[0] == '/' && |s| >= 2 {
      var u := s[1..];
      assert u[0] == s[1] && Next(Slash, u[0]) == Next(Code, u[0]);
      assert ClosedFrom(Slash, u) == ClosedFrom(Next(Slash, u[0]), u[1..]);
    } else if s[0] == '/' {
      assert s[1..] == [] && Next(Code, s[0]) == Slash;
      assert ClosedFrom(Slash, []) && Closed([]);
    }
  }

  /** Two texts the loop steps out of, and one whose long comment its own opening closes. */
  lemma OpenTexts()
    ensures Minified("\"a").None? && Minified("/*a").None? && Minified("/*/").Some?
  {
    MinifiedIff("\"a");
    MinifiedIff("/*a");
    MinifiedIff("/*/");
    assert "\"a"[1..] == "a" && "a"[1..] == "";
    assert "/*a"[1..] == "*a" && "*a"[1..] == "a";
    assert "/*/"[1..] == "*/" && "*/"[1..] == "/" && "/"[1..] == "";
  }

  // ----------------------------------------------------------------- from one layout to the other

  lemma {:induction false} MinifyBlanks(w: string, s: string)
    requires forall k :: 0 <= k < |w| ==> IsBlank(w[k])
    ensures Minified(w + s) == Minified(s)
    decreases |w|
  {
    if w == [] {
      assert w + s == s;
    } else {
      MinifyBlanks(w[1..], s);
      assert (w + s)[1..] == w[1..] + s;
    }
  }

  predicate Plain(x: string) {
    forall k :: 0 <= k < |x| ==> !IsBlank(x[k]) && x[k] != '/' && x[k] != '"'
  }

  lemma MinifyOne(c: char, s: string)
    requires Plain([c])
    ensures Minified([c] + s) == Prepend([c], Minified(s))
  {
    var t := [c] + s;
    assert [c][0] == c;
    assert t[0] == c && t[1..] == s && t[..1] == [c];
  }

  lemma {:induction false} MinifyPlain(x: string, s: string)
    requires Plain(x)
    ensures Minified(x + s) == Prepend(x, Minified(s))
    decreases |x|
  {
    hide Minified;
    if x == [] {
      assert x + s == s;
      PrependNothing(Minified(s));
    } else {
      MinifyPlain(x[1..], s);
      MinifyOne(x[0], x[1..] + s);
      assert x + s == [x[0]] + (x[1..] + s);
      PrependBoth([x[0]], x[1..], Minified(s));
      assert [x[0]] + x[1..] == x;
    }
  }

  lemma PrependNothing(o: Option<string>)
    ensures Prepend([], o) == o
  {
    if o.Some? {
      assert [] + o.value == o.value;
    }
  }

  lemma PrependBoth(x: string, y: string, o: Option<string>)
    ensures Prepend(x, Prepend(y, o)) == Prepend(x + y, o)
  {
    if o.Some? {
      assert x + (y + o.value) == x + y + o.value;
    }
  }

  lemma LiteralChar(c: char, s: string)
    requires c != '"' && c != '\\'
    ensures Literal([c] + s) == Passed([c], Literal(s))
  {
    assert ([c] + s)[1..] == s && ([c] + s)[..1] == [c];
  }

  lemma LiteralPair(c: char, s: string)
    ensures Literal(['\\', c] + s) == Passed(['\\', c], Literal(s))
  {
    assert (['\\', c] + s)[2..] == s && (['\\', c] + s)[..2] == ['\\', c];
  }

  lemma PassedBoth(x: string, y: string, r: Option<(string, string)>)
    ensures Passed(x, Passed(y, r)) == Passed(x + y, r)
  {
    if r.Some? {
      assert x + (y + r.value.0) == x + y + r.value.0;
    }
  }

  lemma {:induction false} LiteralPlain(x: string, s: string)
    requires forall k :: 0 <= k < |x| ==> x[k] != '"' && x[k] != '\\'
    ensures Literal(x + s) == Passed(x, Literal(s))
    decreases |x|
  {
    hide Literal;
    if x == [] {
      assert x + s == s;
      assert Literal(s).Some? ==> x + Literal(s).value.0 == Literal(s).value.0;
    } else {
      LiteralPlain(x[1..], s);
      LiteralChar(x[0], x[1..] + s);
      assert x + s == [x[0]] + (x[1..] + s);
      PassedBoth([x[0]], x[1..], Literal(s));
      assert [x[0]] + x[1..] == x;
    }
  }

  /** One escaped character is passed whole, so the literal ends at its own closing quote. */
  lemma LiteralEscaped(c: char, s: string)
    requires c != '\0'
    ensures Literal(Escaped(c) + s) == Passed(Escaped(c), Literal(s))
  {
    hide Literal, Passed;
    var e := Escaped(c);
    if |e| == 1 {
      LiteralChar(c, s);
    } else if |e| == 2 {
      LiteralPair(e[1], s);
      assert e == ['\\', e[1]];
    } else {
      assert e == "\\u" + e[2..];
      LiteralPlain(e[2..], s);
      LiteralPair('u', e[2..] + s);
      assert e + s == ['\\', 'u'] + (e[2..] + s);
      PassedBoth(['\\', 'u'], e[2..], Literal(s));
    }
  }

  lemma {:induction false} LiteralQuoted(t: string, s: string)
    requires NulFree(t)
    ensures Literal(EscapedAll(t) + ("\"" + s)) == Some((EscapedAll(t) + "\"", s))
  {
    hide Escaped, Literal;
    var tail := "\"" + s;
    if t == [] {
      assert EscapedAll(t) + tail == tail && EscapedAll(t) + "\"" == "\"";
      LiteralEnds(s);
    } else {
      LiteralQuoted(t[1..], s);
      LiteralEscaped(t[0], EscapedAll(t[1..]) + tail);
      assert EscapedAll(t) + tail == Escaped(t[0]) + (EscapedAll(t[1..]) + tail);
      assert EscapedAll(t) + "\"" == Escaped(t[0]) + (EscapedAll(t[1..]) + "\"");
    }
  }

  lemma LiteralEnds(s: string)
    ensures Literal("\"" + s) == Some(("\"", s))
  {
    var u := "\"" + s;
    assert u[0] == '"' && u[1..] == s;
    assert u != "\\" by { assert "\\"[0] == '\\'; }
  }

  lemma MinifyQuoted(t: string, s: string)
    requires NulFree(t)
    ensures Minified(Quoted(t) + s) == Prepend(Quoted(t), Minified(s))
  {
    hide Literal, EscapedAll;
    LiteralQuoted(t, s);
    var u := Quoted(t) + s;
    assert u[1..] == EscapedAll(t) + ("\"" + s);
    assert "\"" + (EscapedAll(t) + "\"") == Quoted(t);
  }

  lemma PlainDigits(s: string)
    requires forall k :: 0 <= k < |s| ==> IsDigit(s[k])
    ensures Plain(s) && Plain("-" + s)
  {
    forall k | 0 <= k < |s|
      ensures ("-" + s)[k + 1] == s[k] && !IsBlank(s[k]) && s[k] != '/' && s[k] != '"'
    {
      assert IsDigit(s[k]);
    }
  }

  lemma PlainSigned(n: int)
    ensures Plain(Signed(n))
  {
    hide Decimal, Plain, IsDigit;
    PlainDigits(Decimal(if n < 0 then -n else n));
  }

  lemma {:induction false} MinifyPrint(v: Json, depth: nat, rest: string)
    requires Printable(v)
    ensures Minified(Print(v, depth, true) + rest) == Prepend(Print(v, depth, false), Minified(rest))
    decreases v, 0
  {
    hide Minified, Quoted, PrintArray, PrintObject, Signed;
    match v
    case Null => MinifyPlain("null", rest);
    case False => MinifyPlain("false", rest);
    case True => MinifyPlain("true", rest);
    case Number(r) => PlainSigned(r.Floor); MinifyPlain(Signed(r.Floor), rest);
    case Text(t) => MinifyQuoted(t, rest);
    case Array(items) => MinifyArray(items, depth, rest);
    case Object(members) => MinifyObject(members, depth, rest);
  }

  lemma MinifyArray(items: seq<Json>, depth: nat, rest: string)
    requires Printable(Array(items))
    ensures Minified(PrintArray(items, depth, true) + rest) == Prepend(PrintArray(items, depth, false), Minified(rest))
    decreases items, 2
  {
    hide Minified, PrintItems;
    if items == [] {
      MinifyPlain("[]", rest);
    } else {
      var long, short := PrintItems(items, depth + 1, true), PrintItems(items, depth + 1, false);
      assert PrintArray(items, depth, true) + rest == "[" + (long + ("]" + rest));
      MinifyPlain("[", long + ("]" + rest));
      MinifyItems(items, depth + 1, "]" + rest);
      MinifyPlain("]", rest);
      PrependThree("[", short, "]", Minified(rest));
    }
  }

  lemma PrependThree(x: string, y: string, z: string, o: Option<string>)
    ensures Prepend(x, Prepend(y, Prepend(z, o))) == Prepend(x + (y + z), o)
  {
    PrependBoth(y, z, o);
    PrependBoth(x, y + z, o);
  }

  lemma {:induction false} MinifyItems(items: seq<Json>, depth: nat, rest: string)
    requires items != [] && Printable(Array(items))
    ensures Minified(PrintItems(items, depth, true) + rest) == Prepend(PrintItems(items, depth, false), Minified(rest))
    decreases items, 1
  {
    hide Minified, Print, PrintItems, Printable;
    FirstPrintable(items);
    var long, short := Print(items[0], depth, true), Print(items[0], depth, false);
    if |items| == 1 {
      OnlyItem(items, depth);
      MinifyPrint(items[0], depth, rest);
    } else {
      var longs, shorts := PrintItems(items[1..], depth, true), PrintItems(items[1..], depth, false);
      ItemsUnfold(items, depth, true);
      ItemsUnfold(items, depth, false);
      assert PrintItems(items, depth, true) + rest == long + ("," + (" " + (longs + rest)));
      assert PrintItems(items, depth, false) == short + ("," + shorts);
      MinifyPrint(items[0], depth, "," + (" " + (longs + rest)));
      MinifyPlain(",", " " + (longs + rest));
      MinifyBlanks(" ", longs + rest);
      MinifyItems(items[1..], depth, rest);
      PrependThree(short, ",", shorts, Minified(rest));
    }
  }

  lemma OnlyItem(items: seq<Json>, depth: nat)
    requires |items| == 1 && Printable(Array(items))
    ensures PrintItems(items, depth, true) == Print(items[0], depth, true)
    ensures PrintItems(items, depth, false) == Print(items[0], depth, false)
  {
    hide Print;
  }

  lemma MinifyObject(members: seq<Member>, depth: nat, rest: string)
    requires Printable(Object(members))
    ensures Minified(PrintObject(members, depth, true) + rest)
         == Prepend(PrintObject(members, depth, false), Minified(rest))
    decreases members, 3
  {
    hide Minified, PrintMembers, Tabs;
    if members == [] {
      var w := "\n" + Tabs(depth - 1);
      assert PrintObject(members, depth, true) + rest == "{" + (w + ("}" + rest));
      assert PrintObject(members, depth, false) == "{" + "}";
      MinifyPlain("{", w + ("}" + rest));
      MinifyBlanks(w, "}" + rest);
      MinifyPlain("}", rest);
      PrependBoth("{", "}", Minified(rest));
    } else {
      var long, short := PrintMembers(members, depth + 1, true), PrintMembers(members, depth + 1, false);
      var tail := Tabs(depth) + ("}" + rest);
      assert PrintObject(members, depth, true) + rest == "{" + ("\n" + (long + tail));
      assert [] + (short + ([] + "}")) == short + "}";
      MinifyPlain("{", "\n" + (long + tail));
      MinifyBlanks("\n", long + tail);
      MinifyMembers(members, depth + 1, tail);
      MinifyBlanks(Tabs(depth), "}" + rest);
      MinifyPlain("}", rest);
      PrependThree("{", short, "}", Minified(rest));
    }
  }

  lemma {:induction false} MinifyMembers(members: seq<Member>, depth: nat, rest: string)
    requires members != [] && Printable(Object(members))
    ensures Minified(PrintMembers(members, depth, true) + rest)
         == Prepend(PrintMembers(members, depth, false), Minified(rest))
    decreases members, 2
  {
    hide Minified, PrintMember, PrintMembers, Printable;
    FirstMemberPrintable(members);
    var m := members[0];
    var short := PrintMember(m, depth, false);
    if |members| == 1 {
      LastMember(members, depth, true, rest);
      LastMember(members, depth, false, []);
      JoinNothing(PrintMembers(members, depth, false));
      JoinNothing(short);
      MinifyMember(m, depth, "\n" + rest);
      MinifyBlanks("\n", rest);
    } else {
      var longs, shorts := PrintMembers(members[1..], depth, true), PrintMembers(members[1..], depth, false);
      FirstMember(members, depth, true, rest);
      FirstMember(members, depth, false, []);
      JoinNothing(PrintMembers(members, depth, false));
      JoinNothing(shorts);
      assert [] + shorts == shorts;
      MinifyMember(m, depth, "," + ("\n" + (longs + rest)));
      MinifyPlain(",", "\n" + (longs + rest));
      MinifyBlanks("\n", longs + rest);
      MinifyMembers(members[1..], depth, rest);
      PrependThree(short, ",", shorts, Minified(rest));
    }
  }

  lemma JoinNothing(s: string)
    ensures s + [] == s
  {
  }

  lemma MinifyMember(m: Member, depth: nat, rest: string)
    requires PrintableMember(m)
    ensures Minified(PrintMember(m, depth, true) + rest) == Prepend(PrintMember(m, depth, false), Minified(rest))
    decreases m, 1
  {
    hide Minified, Quoted, Print, PrintMember, Tabs, Printable;
    var long, short := Print(m.value, depth, true), Print(m.value, depth, false);
    var colon := MemberText(m, depth, true, rest);
    var shortColon := MemberText(m, depth, false, []);
    JoinNothing(PrintMember(m, depth, false));
    JoinNothing(short);
    assert [] + short == short && [] + (Quoted(m.name) + (":" + short)) == Quoted(m.name) + (":" + short);
    MinifyBlanks(Tabs(depth), Quoted(m.name) + colon);
    MinifyQuoted(m.name, colon);
    MinifyPlain(":", "\t" + (long + rest));
    MinifyBlanks("\t", long + rest);
    MinifyPrint(m.value, depth, rest);
    PrependThree(Quoted(m.name), ":", short, Minified(rest));
  }

  /** Minifying the formatted layout gives the compact one, character by character. */
  lemma MinifyIsCompact(v: Json)
    requires Printable(v)
    ensures Minified(Print(v, 0, true)) == Some(Print(v, 0, false))
  {
    hide Print, Printable;
    MinifyPrint(v, 0, []);
    assert Print(v, 0, true) + [] == Print(v, 0, true) && Print(v, 0, false) + [] == Print(v, 0, false);
  }

  // ------------------------------------------------------------------------ inside the array

  /** Where the terminator is. */
  function Length(s: string): (n: nat)
    ensures n <= |s| && NulFree(s[..n]) && (n < |s| ==> s[n] == '\0')
  {
    if s == [] || s[0] == '\0' then 0 else 1 + Length(s[1..])
  }

  /** What is in front of `into` is written, what is behind `at` is still as it was, and `left`
      of it completes the target, if there is one. */
  ghost predicate Halfway(
    now: string, text: string, into: nat, at: nat, left: Option<string>, target: Option<string>)
  {
    && into <= at <= |text| < |now| && now[at..|text|] == text[at..] && now[|text|] == '\0'
    && Prepend(now[..into], left) == target
  }

  /** *into++ = *json++ */
  method CopyOne(json: array<char>, into: nat, at: nat, ghost text: string, ghost left: Option<string>,
                 ghost target: Option<string>)
    requires at < |text|
    requires Halfway(json[..], text, into, at, Prepend([text[at]], left), target)
    modifies json
    ensures Halfway(json[..], text, into + 1, at + 1, left, target)
    ensures json[|text| + 1..] == old(json[|text| + 1..])
  {
    ghost var was := json[..];
    assert was[at] == was[at..|text|][0] == text[at];
    json[into] := json[at];
    ghost var now := json[..];
    assert now[..into + 1] == was[..into] + [text[at]];
    assert now[at + 1..|text|] == was[at..|text|][1..] == text[at..][1..];
    PrependBoth(was[..into], [text[at]], left);
  }

  /** The end of a comment line, or the terminator. */
  method PassLine(json: array<char>, at: nat, ghost text: string) returns (i: nat)
    requires at <= |text| < json.Length && json[at..|text|] == text[at..] && json[|text|] == '\0' && NulFree(text)
    ensures at <= i <= |text| && text[i..] == LineEnd(text[at..])
  {
    i := at;
    while json[i] != '\0' && json[i] != '\n'
      invariant at <= i <= |text| && LineEnd(text[i..]) == LineEnd(text[at..])
      decreases |text| - i
    {
      SameChar(json[..], text, at, i);
      assert text[i..][1..] == text[i + 1..];
      i := i + 1;
    }
    SameChar(json[..], text, at, i);
  }

  lemma SameChar(now: string, text: string, at: nat, i: nat)
    requires at <= i <= |text| < |now| && now[at..|text|] == text[at..] && now[|text|] == '\0' && NulFree(text)
    ensures i < |text| <==> now[i] != '\0'
    ensures i < |text| ==> now[i] == text[i] && text[i..][0] == text[i]
    ensures "*/" <= text[i..] <==> i < |text| && now[i] == '*' && now[i + 1] == '/'
    ensures "//" <= text[i..] <==> i < |text| && now[i] == '/' && now[i + 1] == '/'
    ensures "/*" <= text[i..] <==> i < |text| && now[i] == '/' && now[i + 1] == '*'
  {
    if i < |text| {
      assert now[i] == now[at..|text|][i - at] == text[at..][i - at] == text[i];
    }
    if i + 1 < |text| {
      assert now[i + 1] == now[at..|text|][i + 1 - at] == text[at..][i + 1 - at] == text[i + 1];
    }
  }

  /** Behind the end of a comment, if there is one; without one the source steps over the
      terminator. */
  method PassComment(json: array<char>, at: nat, ghost text: string) returns (i: nat, inside: bool)
    requires at <= |text| < json.Length && json[at..|text|] == text[at..] && json[|text|] == '\0' && NulFree(text)
    ensures inside == CommentEnd(text[at..]).Some?
    ensures inside ==> at < i <= |text| && CommentEnd(text[at..]) == Some(text[i..])
  {
    hide CommentEnd;
    i := at;
    SameChar(json[..], text, at, i);
    CommentNext(text, i);
    while json[i] != '\0' && !(json[i] == '*' && json[i + 1] == '/')
      invariant at <= i <= |text| && CommentEnd(text[i..]) == CommentEnd(text[at..])
      decreases |text| - i
    {
      SameChar(json[..], text, at, i);
      CommentNext(text, i);
      i := i + 1;
    }
    SameChar(json[..], text, at, i);
    CommentNext(text, i);
    inside := json[i] != '\0';
    i := i + 2;
  }

  lemma CommentNext(text: string, i: nat)
    requires i <= |text|
    ensures i == |text| ==> CommentEnd(text[i..]).None?
    ensures "*/" <= text[i..] ==> i + 2 <= |text| && CommentEnd(text[i..]) == Some(text[i + 2..])
    ensures i < |text| && !("*/" <= text[i..]) ==> CommentEnd(text[i..]) == CommentEnd(text[i + 1..])
  {
    assert i < |text| ==> text[i..][1..] == text[i + 1..];
    if "*/" <= text[i..] {
      assert text[i..][2..] == text[i + 2..];
    }
  }

  lemma LiteralNext(text: string, at: nat)
    requires at <= |text|
    ensures at == |text| ==> Literal(text[at..]).None?
    ensures at < |text| && text[at] == '"' ==> Literal(text[at..]) == Some(("\"", text[at + 1..]))
    ensures at < |text| && text[at] == '\\' ==>
              Literal(text[at..]) == if at + 1 == |text| then None
                                     else Passed([text[at]] + [text[at + 1]], Literal(text[at + 2..]))
    ensures at < |text| && text[at] != '"' && text[at] != '\\' ==>
              Literal(text[at..]) == Passed([text[at]], Literal(text[at + 1..]))
  {
    var s := text[at..];
    if at < |text| {
      assert s[1..] == text[at + 1..] && s[..1] == [text[at]];
    }
    if |s| == 1 && s[0] == '\\' {
      assert s == "\\";
    }
    if |s| >= 2 {
      assert s[2..] == text[at + 2..] && s[..2] == [text[at]] + [text[at + 1]];
    }
  }

  /** What a literal and the minified text behind it amount to. */
  function LiteralThen(r: Option<(string, string)>): Option<string> {
    match r case None => None case Some(l) => Prepend(l.0, Minified(l.1))
  }

  lemma PassedThen(x: string, r: Option<(string, string)>)
    ensures LiteralThen(Passed(x, r)) == Prepend(x, LiteralThen(r))
  {
    hide Minified;
    if r.Some? {
      PrependBoth(x, r.value.0, Minified(r.value.1));
    }
  }

  /** One character of a literal, or two when the first is a backslash; a backslash at the end of the
      text takes the source over the terminator. */
  method CopyPiece(json: array<char>, into0: nat, at0: nat, ghost text: string, ghost target: Option<string>)
    returns (into: nat, at: nat, inside: bool)
    requires at0 < |text| && text[at0] != '"' && NulFree(text)
    requires Halfway(json[..], text, into0, at0, LiteralThen(Literal(text[at0..])), target)
    modifies json
    ensures !inside ==> Literal(text[at0..]).None?
    ensures inside ==>
              && at0 < at <= |text| && Halfway(json[..], text, into, at, LiteralThen(Literal(text[at..])), target)
              && Literal(text[at..]).Some? == Literal(text[at0..]).Some?
    ensures json[|text| + 1..] == old(json[|text| + 1..])
  {
    hide Literal, Prepend, NulFree, LiteralThen;
    assert json[..][at0..|text|] == json[at0..|text|];
    SameChar(json[..], text, at0, at0);
    LiteralNext(text, at0);
    into, at, inside := into0, at0, true;
    if json[at] == '\\' {
      if json[at + 1] == '\0' {
        SameChar(json[..], text, at, at + 1);
        return into, at, false;
      }
      SameChar(json[..], text, at, at + 1);
      ghost var rest := LiteralThen(Literal(text[at + 2..]));
      PassedThen([text[at]] + [text[at + 1]], Literal(text[at + 2..]));
      PrependBoth([text[at]], [text[at + 1]], rest);
      CopyOne(json, into, at, text, Prepend([text[at + 1]], rest), target);
      CopyOne(json, into + 1, at + 1, text, rest, target);
      into, at := into + 2, at + 2;
    } else {
      PassedThen([text[at]], Literal(text[at + 1..]));
      CopyOne(json, into, at, text, LiteralThen(Literal(text[at + 1..])), target);
      into, at := into + 1, at + 1;
    }
  }

  /** A literal behind its opening quote is copied as it stands, if it has an end. */
  method CopyLiteral(json: array<char>, into0: nat, at0: nat, ghost text: string, ghost target: Option<string>)
    returns (into: nat, at: nat, inside: bool)
    requires at0 <= |text| && NulFree(text)
    requires Halfway(json[..], text, into0, at0, LiteralThen(Literal(text[at0..])), target)
    modifies json
    ensures inside == Literal(text[at0..]).Some?
    ensures inside ==> at0 < at <= |text| && Halfway(json[..], text, into, at, Minified(text[at..]), target)
    ensures json[|text| + 1..] == old(json[|text| + 1..])
  {
    into, at := into0, at0;
    hide Literal, NulFree, Minified, LiteralThen;
    SameChar(json[..], text, at, at);
    while json[at] != '\0' && json[at] != '"'
      invariant at0 <= at <= |text| < json.Length
      invariant Literal(text[at..]).Some? == Literal(text[at0..]).Some?
      invariant Halfway(json[..], text, into, at, LiteralThen(Literal(text[at..])), target)
      invariant json[|text| + 1..] == old(json[|text| + 1..])
      invariant at < |text| <==> json[at] != '\0'
      invariant at < |text| ==> json[at] == text[at]
      decreases |text| - at
    {
      into, at, inside := CopyPiece(json, into, at, text, target);
      if !inside {
        return;
      }
      SameChar(json[..], text, at, at);
    }
    LiteralNext(text, at);
    inside := json[at] != '\0';
    if inside {
      QuoteThen(text, at);
      CopyOne(json, into, at, text, Minified(text[at + 1..]), target);
      into, at := into + 1, at + 1;
    }
  }

  lemma QuoteThen(text: string, at: nat)
    requires at < |text| && text[at] == '"'
    ensures LiteralThen(Literal(text[at..])) == Prepend([text[at]], Minified(text[at + 1..]))
  {
    hide Minified, Literal;
    LiteralNext(text, at);
  }

  lemma MinifiedNext(text: string, at: nat)
    requires at < |text|
    ensures var s, m := text[at..], Minified(text[at..]);
      if IsBlank(text[at]) then m == Minified(text[at + 1..])
      else if "//" <= s then m == Minified(LineEnd(s))
      else if "/*" <= s then
        if CommentEnd(s).None? then m == None else m == Minified(CommentEnd(s).value)
      else if text[at] == '"' then m == Prepend([text[at]], LiteralThen(Literal(text[at + 1..])))
      else m == Prepend([text[at]], Minified(text[at + 1..]))
  {
    var s := text[at..];
    assert s[1..] == text[at + 1..] && s[..1] == [text[at]];
    if !IsBlank(s[0]) && !("//" <= s) && !("/*" <= s) && s[0] == '"' && Literal(s[1..]).Some? {
      var l := Literal(s[1..]).value;
      PrependBoth([text[at]], l.0, Minified(l.1));
    }
  }

  /** One round of the loop: a blank, a comment, a literal or any other character. */
  method Round(json: array<char>, into0: nat, at0: nat, ghost text: string, ghost target: Option<string>)
    returns (into: nat, at: nat, inside: bool)
    requires at0 < |text| && NulFree(text) && Halfway(json[..], text, into0, at0, Minified(text[at0..]), target)
    modifies json
    ensures !inside ==> target.None?
    ensures inside ==> at0 < at <= |text| && Halfway(json[..], text, into, at, Minified(text[at..]), target)
    ensures json[|text| + 1..] == old(json[|text| + 1..])
  {
    hide Minified, Literal, LineEnd, CommentEnd, NulFree;
    into, at, inside := into0, at0, true;
    assert json[..][at..|text|] == json[at..|text|];
    SameChar(json[..], text, at, at);
    MinifiedNext(text, at);
    if json[at] == ' ' {
      at := at + 1;
    } else if json[at] == '\t' {
      at := at + 1;
    } else if json[at] == '\r' {
      at := at + 1;
    } else if json[at] == '\n' {
      at := at + 1;
    } else if json[at] == '/' && json[at + 1] == '/' {
      at := PassLine(json, at, text);
    } else if json[at] == '/' && json[at + 1] == '*' {
      at, inside := PassComment(json, at, text);
      if !inside {
        return;
      }
    } else if json[at] == '"' {
      CopyOne(json, into, at, text, LiteralThen(Literal(text[at + 1..])), target);
      into, at, inside := CopyLiteral(json, into + 1, at + 1, text, target);
      return;
    } else {
      CopyOne(json, into, at, text, Minified(text[at + 1..]), target);
      into, at := into + 1, at + 1;
      return;
    }
    Moved(json[..], text, into, at0, at);
  }

  lemma Moved(now: string, text: string, into: nat, at0: nat, at: nat)
    requires at0 <= at <= |text| < |now| && now[at0..|text|] == text[at0..]
    ensures now[at..|text|] == text[at..]
  {
    assert now[at0..|text|][at - at0..] == now[at..|text|];
    assert text[at0..][at - at0..] == text[at..];
  }

  /** The text in the array becomes its minified form, terminator included; what is behind the old
      terminator stays. The loop stays inside the text exactly if all in it that has an end is
      closed; where the source would step over the terminator the model stops. */
  method Minify(json: array<char>) returns (inside: bool)
    requires Length(json[..]) < json.Length
    modifies json
    ensures var n := old(Length(json[..]));
      var text := old(json[..n]);
      && inside == Closed(text) == Minified(text).Some?
      && json[n + 1..] == old(json[n + 1..])
      && (inside ==>
            var m := Minified(text).value;
            |m| <= n && json[..|m| + 1] == m + "\0")
  {
    hide Minified, Closed;
    ghost var n := Length(json[..]);
    ghost var text := json[..n];
    ghost var target := Minified(text);
    MinifiedIff(text);
    var into, at := 0, 0;
    PrependNothing(target);
    assert json[..][..n] == text && text[0..] == text && json[..0] == [];
    while json[at] != '\0'
      invariant 0 <= into <= at <= n < json.Length
      invariant Halfway(json[..], text, into, at, Minified(text[at..]), target)
      invariant json[n + 1..] == old(json[n + 1..])
      decreases n - at
    {
      into, at, inside := Round(json, into, at, text, target);
      if !inside {
        return;
      }
    }
    MinifyEnd(json[..], text, into, at, target);
    json[into] := '\0';
    inside := true;
  }

  lemma MinifyEnd(now: string, text: string, into: nat, at: nat, target: Option<string>)
    requires at <= |text| && NulFree(text)
    requires Halfway(now, text, into, at, Minified(text[at..]), target) && now[at] == '\0'
    ensures at == |text| && target == Some(now[..into])
  {
    SameChar(now, text, at, at);
    assert text[at..] == [] && now[..into] + [] == now[..into];
  }
}
