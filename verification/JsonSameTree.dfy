/** Minifying a text does not change the tree it is parsed to. */
module JsonSameTree {
  import opened Common
  import opened JsonSpec
  import opened JsonRoundTrip
  import opened JsonLiteral
  import opened JsonMinify
  import opened JsonLocal

  // -------------------------------------------------------------------------------- texts

  /** Every string literal of the text is tidy. */
  predicate Regular(s: string)
    decreases |s|
  {
    if s == [] then true
    else if s[0] == '"' then
      Tidy(s[1..]) && match Characters(s[1..]) case None => false case Some(l) => Regular(l.1)
    else Regular(s[1..])
  }

  lemma {:induction false} RegularBehind(x: string, s: string)
    requires '"' !in x
    ensures Regular(x + s) == Regular(s)
    decreases |x|
  {
    if x == [] {
      assert x + s == s;
    } else {
      assert x[0] in x && forall c :: c in x[1..] ==> c in x;
      RegularBehind(x[1..], s);
      assert (x + s)[1..] == x[1..] + s;
    }
  }

  // ----------------------------------------------------------------------- the cursor inside

  /** The parser is not lost, and what it leaves is as regular as what it began with. */
  predicate Kept<T>(p: Parsed<T>) {
    !p.Lost? && (p.Got? ==> Regular(p.rest))
  }

  lemma {:induction false} KeptSkip(s: string)
    requires Regular(s)
    ensures Regular(Skip(s))
    decreases |s|
  {
    if s != [] && s[0] <= ' ' {
      KeptSkip(s[1..]);
    }
  }

  lemma {:induction false} KeptDigits(n: real, s: string)
    requires Regular(s)
    ensures Regular(Digits(n, s).1)
    decreases |s|
  {
    if StartsDigit(s) {
      KeptDigits(n * 10.0 + DigitValue(s[0]) as real, s[1..]);
    }
  }

  lemma KeptWhole(s: string)
    requires Regular(s)
    ensures Regular(IntegerPart(s).1)
  {
    hide Digits;
    KeptDigits(0.0, if Starts(s, '0') then s[1..] else s);
  }

  lemma KeptExponent(s: string)
    requires Regular(s)
    ensures Regular(Exponent(s).1)
  {
    if Starts(s, 'e') || Starts(s, 'E') {
      var t := s[1..];
      KeptDigits(0.0, if Starts(t, '+') || Starts(t, '-') then t[1..] else t);
    }
    hide Digits, Regular;
  }

  lemma KeptNumber(s: string)
    requires Regular(s) && (Starts(s, '-') || StartsDigit(s))
    ensures Kept(ParseNumber(s))
  {
    var whole, digits, exponent := PartsOf(s);
    KeptWhole(if s[0] == '-' then s[1..] else s);
    if HasFraction(whole.1) {
      KeptDigits(whole.0, whole.1[1..]);
    }
    hide ParseNumber, Digits, IntegerPart, Exponent, Scaled;
    KeptExponent(digits.1);
  }

  lemma KeptString(s: string)
    requires Regular(s)
    ensures Kept(ParseString(s))
  {
    if Starts(s, '"') {
      TidyIsRead(s[1..]);
    }
  }

  lemma KeptWord(n: nat, s: string)
    requires Regular(s) && n <= |s| && '"' !in s[..n]
    ensures Regular(s[n..])
  {
    assert s == s[..n] + s[n..];
    RegularBehind(s[..n], s[n..]);
  }

  lemma {:induction false} KeptValue(s: string)
    requires Regular(s)
    ensures Kept(ParseValue(s))
    decreases |s|, 1
  {
    hide ParseNumber, ParseString, ParseArray, ParseObject, Regular;
    if "null" <= s {
      KeptWord(4, s);
    } else if "false" <= s {
      KeptWord(5, s);
    } else if "true" <= s {
      KeptWord(4, s);
    } else if Starts(s, '"') {
      KeptString(s);
    } else if Starts(s, '-') || StartsDigit(s) {
      KeptNumber(s);
    } else if Starts(s, '[') || Starts(s, '{') {
      KeptOpen(s);
    }
  }

  lemma KeptOpen(s: string)
    requires Regular(s)
    ensures Starts(s, '[') ==> Kept(ParseArray(s))
    ensures Starts(s, '{') ==> Kept(ParseObject(s))
    decreases |s|, 0
  {
    hide Skip, ParseItems, ParseMembers;
    if Starts(s, '[') || Starts(s, '{') {
      var t := Skip(s[1..]);
      KeptSkip(s[1..]);
      if Starts(s, '[') && !Starts(t, ']') {
        KeptItems(t);
      } else if Starts(s, '{') && !Starts(t, '}') {
        KeptMembers(t);
      }
    }
  }

  lemma {:induction false} KeptItems(s: string)
    requires Regular(s)
    ensures Kept(ParseItems(s))
    decreases |s|, 2
  {
    hide Skip, ParseValue;
    KeptSkip(s);
    KeptValue(Skip(s));
    var p := ParseValue(Skip(s));
    if p.Got? {
      KeptSkip(p.rest);
      var z := Skip(p.rest);
      if Starts(z, ',') {
        KeptItems(z[1..]);
      }
    }
  }

  lemma {:induction false} KeptMembers(s: string)
    requires Regular(s)
    ensures Kept(ParseMembers(s))
    decreases |s|, 3
  {
    hide Skip, ParseMember;
    KeptMember(s);
    var p := ParseMember(s);
    if p.Got? {
      KeptSkip(p.rest);
      var z := Skip(p.rest);
      if Starts(z, ',') {
        KeptMembers(z[1..]);
      }
    }
  }

  lemma KeptMember(s: string)
    requires Regular(s)
    ensures Kept(ParseMember(s))
    decreases |s|, 2
  {
    hide Skip, ParseString, ParseValue;
    KeptSkip(s);
    KeptString(Skip(s));
    var p := ParseString(Skip(s));
    if p.Got? {
      KeptSkip(p.rest);
      var t := Skip(p.rest);
      if Starts(t, ':') {
        KeptSkip(t[1..]);
        KeptValue(Skip(t[1..]));
      }
    }
  }

  /** In a text whose literals are tidy the cursor never steps over the terminator. */
  lemma NeverLost(s: string)
    requires Regular(s)
    ensures !Parse(s).Lost?
  {
    KeptSkip(s);
    KeptValue(Skip(s));
  }

  // --------------------------------------------------------------------- what is minified

  predicate Spaces(w: string) {
    forall k :: 0 <= k < |w| ==> w[k] <= ' '
  }

  /** Of the spaces the parser skips the minifier leaves some, which are spaces still. */
  lemma {:induction false} SkipSame(s: string) returns (w: string)
    ensures Spaces(w) && Minified(s) == Prepend(w, Minified(Skip(s))) && Regular(s) == Regular(Skip(s))
    decreases |s|
  {
    w := [];
    if s != [] && s[0] <= ' ' {
      w := SkipSame(s[1..]);
      assert s == [s[0]] + s[1..];
      if IsBlank(s[0]) {
        MinifyBlanks([s[0]], s[1..]);
      } else {
        MinifyOne(s[0], s[1..]);
        PrependBoth([s[0]], w, Minified(Skip(s)));
        w := [s[0]] + w;
      }
    } else {
      PrependNothing(Minified(s));
    }
  }

  /** The text begins with something to read. */
  predicate Shown(x: string) {
    x != [] && x[0] > ' '
  }

  /** What x is read as, whatever follows. */
  ghost predicate Reads(x: string, v: Json) {
    Shown(x) && forall y :: EndsNumber(y) ==> ParseValue(x + y) == Got(v, y)
  }

  ghost predicate ReadsString(x: string, t: string) {
    Starts(x, '"') && forall y: string :: ParseString(x + y) == Got(t, y)
  }

  ghost predicate ReadsItems(x: string, vs: seq<Json>) {
    forall y: string :: ParseItems(x + y) == Got(vs, y)
  }

  ghost predicate ReadsMember(x: string, m: Member) {
    forall y :: EndsNumber(y) ==> ParseMember(x + y) == Got(m, y)
  }

  ghost predicate ReadsMembers(x: string, ms: seq<Member>) {
    forall y: string :: ParseMembers(x + y) == Got(ms, y)
  }

  /** From s to rest the minifier makes x. */
  predicate Becomes(s: string, x: string, rest: string) {
    Minified(s) == Prepend(x, Minified(rest)) && (Regular(s) ==> Regular(rest))
  }

  lemma BecomesBoth(s: string, x: string, t: string, y: string, rest: string)
    requires Becomes(s, x, t) && Becomes(t, y, rest)
    ensures Becomes(s, x + y, rest)
  {
    hide Minified, Regular;
    PrependBoth(x, y, Minified(rest));
  }

  /** Characters that stay as they are. */
  lemma PlainBecomes(x: string, rest: string)
    requires Plain(x)
    ensures Becomes(x + rest, x, rest)
  {
    hide Minified;
    MinifyPlain(x, rest);
    RegularBehind(x, rest);
  }

  lemma SkipBecomes(s: string) returns (w: string)
    ensures Spaces(w) && Becomes(s, w, Skip(s))
  {
    w := SkipSame(s);
  }

  lemma SameString(s: string) returns (x: string)
    requires Regular(s) && ParseString(s).Got?
    ensures Becomes(s, x, ParseString(s).rest) && ReadsString(x, ParseString(s).value)
  {
    hide Measure, Characters, Tidy, Literal;
    var lit, t, rest := LiteralLocal(s[1..], []);
    x := "\"" + lit;
    forall y: string
      ensures ParseString(x + y) == Got(t, y)
    {
      var lit', t', rest' := LiteralLocal(s[1..], y);
      assert lit' == lit by { assert s[1..] == lit' + rest; }
      assert (x + y)[1..] == lit + y;
      TidyIsRead(lit + y);
    }
    assert s[0] == '"' && !("//" <= s) && !("/*" <= s);
  }

  // -------------------------------------------------------------------------------- values

  lemma PlainNumber(x: string)
    requires NumberChars(x)
    ensures Plain(x)
  {
    forall k | 0 <= k < |x|
      ensures !IsBlank(x[k]) && x[k] != '/' && x[k] != '"'
    {
      assert NumberChar(x[k]);
    }
  }

  lemma NumberIsValue(s: string)
    requires Starts(s, '-') || StartsDigit(s)
    ensures ParseValue(s) == ParseNumber(s)
  {
    hide ParseNumber, ParseString, ParseArray, ParseObject;
  }

  lemma SameNumber(s: string) returns (x: string)
    requires (Starts(s, '-') || StartsDigit(s)) && EndsNumber(ParseNumber(s).rest)
    ensures Becomes(s, x, ParseNumber(s).rest) && Reads(x, ParseNumber(s).value)
  {
    hide ParseNumber, Becomes, NumberChars, ParseValue;
    var rest := ParseNumber(s).rest;
    NoNumber();
    x := NumberLocal(s, []);
    PlainNumber(x);
    PlainBecomes(x, rest);
    assert x + [] == x;
    forall y | EndsNumber(y)
      ensures ParseValue(x + y) == Got(ParseNumber(s).value, y)
    {
      var x' := NumberLocal(s, y);
      assert x' == x by { assert s == x' + rest && s == x + rest; assert |x'| == |x| && s[..|x|] == x == x'; }
      NumberIsValue(x + y);
    }
  }

  lemma NoNumber()
    ensures EndsNumber([])
  {
  }

  lemma SameWord(word: string, v: Json, rest: string)
    requires (word == "null" && v.Null?) || (word == "false" && v.False?) || (word == "true" && v.True?)
    ensures Becomes(word + rest, word, rest) && Reads(word, v)
  {
    hide Becomes, ParseValue;
    PlainBecomes(word, rest);
    forall y | EndsNumber(y)
      ensures ParseValue(word + y) == Got(v, y)
    {
      ParseLiterals(y);
    }
  }

  /** No value begins with one of these. */
  lemma ValueBegins(s: string)
    requires ParseValue(s).Got?
    ensures Shown(s) && s[0] !in "],:}"
  {
    hide ParseNumber, ParseString, ParseArray, ParseObject;
  }

  lemma QuoteIsValue(s: string)
    requires Starts(s, '"')
    ensures ParseValue(s)
         == match ParseString(s) case Fail => Fail case Lost => Lost case Got(t, rest) => Got(Text(t), rest)
  {
    hide ParseNumber, ParseString, ParseArray, ParseObject;
  }

  lemma OpenIsValue(s: string)
    ensures Starts(s, '[') ==> ParseValue(s) == ParseArray(s)
    ensures Starts(s, '{') ==> ParseValue(s) == ParseObject(s)
  {
    hide ParseNumber, ParseString, ParseArray, ParseObject;
  }

  lemma SameText(s: string) returns (x: string)
    requires Regular(s) && ParseString(s).Got?
    ensures Becomes(s, x, ParseString(s).rest) && Reads(x, Text(ParseString(s).value))
  {
    x := SameString(s);
    hide ParseString, Becomes, ParseValue;
    forall y | EndsNumber(y)
      ensures ParseValue(x + y) == Got(Text(ParseString(s).value), y)
    {
      QuoteIsValue(x + y);
    }
  }

  /** A value becomes one that is read as the same. */
  lemma {:induction false} SameValue(s: string) returns (x: string)
    requires Regular(s) && ParseValue(s).Got? && EndsNumber(ParseValue(s).rest)
    ensures Becomes(s, x, ParseValue(s).rest) && Reads(x, ParseValue(s).value)
    decreases |s|, 1
  {
    hide ParseNumber, ParseString, ParseArray, ParseObject, Becomes, Regular, Reads, EndsNumber;
    if "null" <= s {
      x := "null";
      assert s == x + s[4..];
      SameWord(x, Null, s[4..]);
    } else if "false" <= s {
      x := "false";
      assert s == x + s[5..];
      SameWord(x, False, s[5..]);
    } else if "true" <= s {
      x := "true";
      assert s == x + s[4..];
      SameWord(x, True, s[4..]);
    } else if Starts(s, '"') {
      x := SameText(s);
    } else if Starts(s, '-') || StartsDigit(s) {
      x := SameNumber(s);
    } else if Starts(s, '[') {
      x := SameArray(s);
    } else {
      x := SameObject(s);
    }
  }

  /** A text behind any spaces. */
  lemma SkipTo(w: string, s: string)
    requires Spaces(w)
    ensures Skip(w + s) == Skip(s)
    ensures s != [] && s[0] > ' ' ==> Skip(w + s) == s
  {
    SkipSpaces(w, s);
  }

  lemma {:induction false} SkipTwice(s: string)
    ensures Skip(Skip(s)) == Skip(s) && (Skip(s) != [] ==> Skip(s)[0] > ' ')
    decreases |s|
  {
    if s != [] && s[0] <= ' ' {
      SkipTwice(s[1..]);
    }
  }

  /** In front of a comma, a colon or a closing bracket no number goes on. */
  lemma EndsBefore(s: string)
    requires Skip(s) != [] ==> Skip(s)[0] in ",:]}"
    ensures EndsNumber(s)
  {
  }

  lemma SpacesEnd(w: string, y: string)
    requires Spaces(w) && EndsNumber(y)
    ensures EndsNumber(w + y)
  {
    if w == [] {
      assert w + y == y;
    }
  }

  // -------------------------------------------------------------------------------- arrays

  lemma SameArray(s: string) returns (x: string)
    requires Regular(s) && Starts(s, '[') && ParseArray(s).Got?
    ensures Becomes(s, x, ParseArray(s).rest) && Reads(x, ParseArray(s).value)
    decreases |s|, 0
  {
    hide Becomes, Regular, Skip, ParseItems, ReadsItems;
    assert s == "[" + s[1..];
    PlainBecomes("[", s[1..]);
    var w := SkipBecomes(s[1..]);
    var t := Skip(s[1..]);
    BecomesBoth(s, "[", s[1..], w, t);
    KeepsRegular(s, "[" + w, t);
    if Starts(t, ']') {
      assert t == "]" + t[1..];
      PlainBecomes("]", t[1..]);
      BecomesBoth(s, "[" + w, t, "]", t[1..]);
      x := "[" + w + "]";
      EmptyArray(w);
    } else {
      var xi := SameItems(t);
      BecomesBoth(s, "[" + w, t, xi, ParseItems(t).rest);
      x := "[" + w + xi;
      WholeArray(w, xi, ParseItems(t).value);
    }
  }

  lemma KeepsRegular(s: string, x: string, rest: string)
    requires Becomes(s, x, rest) && Regular(s)
    ensures Regular(rest)
  {
  }

  lemma EmptyArray(w: string)
    requires Spaces(w)
    ensures Reads("[" + w + "]", Array([]))
  {
    hide Skip, ParseItems, ParseValue;
    forall y | EndsNumber(y)
      ensures ParseValue("[" + w + "]" + y) == Got(Array([]), y)
    {
      var z := "[" + w + "]" + y;
      assert z[1..] == w + ("]" + y) && ("]" + y)[1..] == y;
      SkipTo(w, "]" + y);
      OpenIsValue(z);
    }
  }

  /** Items read do not begin with a bracket, and are read from their first character on. */
  lemma ItemsBegin(s: string)
    requires ParseItems(s).Got?
    ensures Shown(Skip(s)) && Skip(s)[0] !in "],:}" && ParseItems(Skip(s)) == ParseItems(s)
  {
    hide ParseValue, MoreItems, Skip;
    SkipTwice(s);
    ValueBegins(Skip(s));
  }

  lemma WholeArray(w: string, xi: string, vs: seq<Json>)
    requires Spaces(w) && ReadsItems(xi, vs)
    ensures Reads("[" + w + xi, Array(vs))
  {
    hide Skip, ParseItems, ParseValue;
    forall y | EndsNumber(y)
      ensures ParseValue("[" + w + xi + y) == Got(Array(vs), y)
    {
      var z := "[" + w + xi + y;
      assert z[1..] == w + (xi + y);
      SkipTo(w, xi + y);
      ItemsBegin(xi + y);
      OpenIsValue(z);
    }
  }

  /** The items taken apart. */
  lemma ItemsParts(s: string)
    requires ParseItems(s).Got?
    ensures var p := ParseValue(Skip(s));
      && p.Got? && Skip(p.rest) != [] && Skip(p.rest)[0] in ",]"
      && var z := Skip(p.rest);
         if z[0] == ',' then
           var q := ParseItems(z[1..]);
           q.Got? && ParseItems(s) == Got([p.value] + q.value, q.rest)
         else ParseItems(s) == Got([p.value], z[1..])
  {
    hide Skip, ParseValue;
    var p := ParseValue(Skip(s));
    var z := Skip(p.rest);
    assert MoreItems(z).Got?;
    assert [p.value] + [] == [p.value];
  }

  /** Items and the closing bracket. */
  lemma {:induction false} SameItems(s: string) returns (x: string)
    requires Regular(s) && ParseItems(s).Got?
    ensures Becomes(s, x, ParseItems(s).rest) && ReadsItems(x, ParseItems(s).value)
    decreases |s|, 2
  {
    ItemsParts(s);
    hide Becomes, Regular, Skip, ParseValue, ParseItems, MoreItems, Reads, ReadsItems, EndsNumber, Spaces, Plain;
    assert Plain(",") && Plain("]") by { PlainEnds(); }
    var w0 := SkipBecomes(s);
    var z := Skip(s);
    KeepsRegular(s, w0, z);
    var v, after := ParseValue(z).value, ParseValue(z).rest;
    var z2 := Skip(after);
    EndsBefore(after);
    var x1 := SameValue(z);
    KeepsRegular(z, x1, after);
    var w1 := SkipBecomes(after);
    KeepsRegular(after, w1, z2);
    BecomesBoth(s, w0, z, x1, after);
    BecomesBoth(s, w0 + x1, after, w1, z2);
    assert z2 == [z2[0]] + z2[1..];
    PlainBecomes([z2[0]], z2[1..]);
    BecomesBoth(s, w0 + x1 + w1, z2, [z2[0]], z2[1..]);
    KeepsRegular(s, w0 + x1 + w1 + [z2[0]], z2[1..]);
    if z2[0] == ',' {
      var x2 := SameItems(z2[1..]);
      BecomesBoth(s, w0 + x1 + w1 + ",", z2[1..], x2, ParseItems(z2[1..]).rest);
      x := w0 + x1 + w1 + "," + x2;
      MoreItemsRead(w0, x1, v, w1, x2, ParseItems(z2[1..]).value);
    } else {
      x := w0 + x1 + w1 + "]";
      LastItemRead(w0, x1, v, w1);
    }
  }

  lemma ItemThen(w0: string, x1: string, v: Json, w1: string, t: string)
    requires Spaces(w0) && Reads(x1, v) && Spaces(w1) && t != [] && t[0] in ",]"
    ensures ParseItems(w0 + (x1 + (w1 + t))) == Prefixed([v], MoreItems(t))
  {
    hide Skip, ParseValue, MoreItems;
    assert EndsNumber(t);
    SpacesEnd(w1, t);
    SkipTo(w0, x1 + (w1 + t));
    assert (x1 + (w1 + t))[0] == x1[0];
    SkipTo(w1, t);
  }

  lemma LastItemRead(w0: string, x1: string, v: Json, w1: string)
    requires Spaces(w0) && Reads(x1, v) && Spaces(w1)
    ensures ReadsItems(w0 + x1 + w1 + "]", [v])
  {
    hide ParseItems, Reads;
    forall y: string
      ensures ParseItems(w0 + x1 + w1 + "]" + y) == Got([v], y)
    {
      ItemThen(w0, x1, v, w1, "]" + y);
      assert w0 + (x1 + (w1 + ("]" + y))) == w0 + x1 + w1 + "]" + y;
      assert ("]" + y)[1..] == y && [v] + [] == [v];
    }
  }

  lemma MoreItemsRead(w0: string, x1: string, v: Json, w1: string, x2: string, vs: seq<Json>)
    requires Spaces(w0) && Reads(x1, v) && Spaces(w1) && ReadsItems(x2, vs)
    ensures ReadsItems(w0 + x1 + w1 + "," + x2, [v] + vs)
  {
    hide ParseItems, Reads;
    forall y: string
      ensures ParseItems(w0 + x1 + w1 + "," + x2 + y) == Got([v] + vs, y)
    {
      ItemThen(w0, x1, v, w1, "," + (x2 + y));
      assert w0 + (x1 + (w1 + ("," + (x2 + y)))) == w0 + x1 + w1 + "," + x2 + y;
      assert ("," + (x2 + y))[1..] == x2 + y;
    }
  }

  // ------------------------------------------------------------------------------- objects

  lemma SameObject(s: string) returns (x: string)
    requires Regular(s) && Starts(s, '{') && ParseObject(s).Got?
    ensures Becomes(s, x, ParseObject(s).rest) && Reads(x, ParseObject(s).value)
    decreases |s|, 0
  {
    hide Becomes, Regular, Skip, ParseMembers, ReadsMembers;
    assert s == "{" + s[1..];
    PlainBecomes("{", s[1..]);
    var w := SkipBecomes(s[1..]);
    var t := Skip(s[1..]);
    BecomesBoth(s, "{", s[1..], w, t);
    KeepsRegular(s, "{" + w, t);
    if Starts(t, '}') {
      assert t == "}" + t[1..];
      PlainBecomes("}", t[1..]);
      BecomesBoth(s, "{" + w, t, "}", t[1..]);
      x := "{" + w + "}";
      EmptyObject(w);
    } else {
      var xm := SameMembers(t);
      BecomesBoth(s, "{" + w, t, xm, ParseMembers(t).rest);
      x := "{" + w + xm;
      WholeObject(w, xm, ParseMembers(t).value);
    }
  }

  lemma EmptyObject(w: string)
    requires Spaces(w)
    ensures Reads("{" + w + "}", Object([]))
  {
    hide Skip, ParseMembers, ParseValue;
    forall y | EndsNumber(y)
      ensures ParseValue("{" + w + "}" + y) == Got(Object([]), y)
    {
      var z := "{" + w + "}" + y;
      assert z[1..] == w + ("}" + y) && ("}" + y)[1..] == y;
      SkipTo(w, "}" + y);
      OpenIsValue(z);
    }
  }

  lemma MembersBegin(s: string)
    requires ParseMembers(s).Got?
    ensures Starts(Skip(s), '"') && ParseMembers(Skip(s)) == ParseMembers(s)
  {
    hide ParseValue, ParseString, MoreMembers, Skip;
    SkipTwice(s);
    MemberBegins(s);
  }

  lemma MemberBegins(s: string)
    requires ParseMember(s).Got?
    ensures Starts(Skip(s), '"') && ParseMember(Skip(s)) == ParseMember(s)
  {
    SkipTwice(s);
    hide ParseValue, Skip, Measure, Characters;
  }

  lemma WholeObject(w: string, xm: string, ms: seq<Member>)
    requires Spaces(w) && ReadsMembers(xm, ms)
    ensures Reads("{" + w + xm, Object(ms))
  {
    hide Skip, ParseMembers, ParseValue;
    forall y | EndsNumber(y)
      ensures ParseValue("{" + w + xm + y) == Got(Object(ms), y)
    {
      var z := "{" + w + xm + y;
      assert z[1..] == w + (xm + y);
      SkipTo(w, xm + y);
      MembersBegin(xm + y);
      OpenIsValue(z);
    }
  }

  /** A name, a colon and a value. */
  lemma SameMember(s: string) returns (x: string)
    requires Regular(s) && ParseMember(s).Got? && EndsNumber(ParseMember(s).rest)
    ensures Becomes(s, x, ParseMember(s).rest) && ReadsMember(x, ParseMember(s).value)
    decreases |s|, 2
  {
    hide Becomes, Regular, Skip, ParseString, ParseValue, Reads, ReadsString, EndsNumber, ReadsMember;
    var w0 := SkipBecomes(s);
    var z := Skip(s);
    KeepsRegular(s, w0, z);
    var name, after := ParseString(z).value, ParseString(z).rest;
    var x1 := SameString(z);
    KeepsRegular(z, x1, after);
    var w1 := SkipBecomes(after);
    var t := Skip(after);
    KeepsRegular(after, w1, t);
    assert t == ":" + t[1..];
    PlainBecomes(":", t[1..]);
    KeepsRegular(t, ":", t[1..]);
    var w2 := SkipBecomes(t[1..]);
    var z2 := Skip(t[1..]);
    KeepsRegular(t[1..], w2, z2);
    var x2 := SameValue(z2);
    BecomesBoth(s, w0, z, x1, after);
    BecomesBoth(s, w0 + x1, after, w1, t);
    BecomesBoth(s, w0 + x1 + w1, t, ":", t[1..]);
    BecomesBoth(s, w0 + x1 + w1 + ":", t[1..], w2, z2);
    BecomesBoth(s, w0 + x1 + w1 + ":" + w2, z2, x2, ParseValue(z2).rest);
    x := w0 + x1 + w1 + ":" + w2 + x2;
    MemberRead(w0, x1, name, w1, w2, x2, ParseValue(z2).value);
  }

  lemma MemberRead(w0: string, x1: string, name: string, w1: string, w2: string, x2: string, v: Json)
    requires Spaces(w0) && ReadsString(x1, name) && Spaces(w1) && Spaces(w2) && Reads(x2, v)
    ensures ReadsMember(w0 + x1 + w1 + ":" + w2 + x2, Member(name, v))
  {
    hide ParseMember, Reads, ReadsString, EndsNumber, Spaces;
    forall y | EndsNumber(y)
      ensures ParseMember(w0 + x1 + w1 + ":" + w2 + x2 + y) == Got(Member(name, v), y)
    {
      MemberParts(w0, x1, name, w1, w2, x2, v, y);
      FlatThree(w0, x1, w1, ":" + (w2 + (x2 + y)));
      Flat(w0 + x1 + w1, ":", w2 + (x2 + y));
      FlatThree(w0 + x1 + w1 + ":", w2, x2, y);
    }
  }

  lemma Flat(a: string, b: string, c: string)
    ensures a + (b + c) == a + b + c
  {
  }

  lemma FlatThree(a: string, b: string, c: string, d: string)
    ensures a + (b + (c + d)) == a + b + c + d
  {
  }

  lemma MemberParts(
    w0: string, x1: string, name: string, w1: string, w2: string, x2: string, v: Json, y: string)
    requires Spaces(w0) && ReadsString(x1, name) && Spaces(w1) && Spaces(w2) && Reads(x2, v) && EndsNumber(y)
    ensures ParseMember(w0 + (x1 + (w1 + (":" + (w2 + (x2 + y)))))) == Got(Member(name, v), y)
  {
    hide Skip, ParseString, ParseValue, Spaces;
    var value := w2 + (x2 + y);
    var colon := w1 + (":" + value);
    SkipTo(w0, x1 + colon);
    assert (x1 + colon)[0] == x1[0];
    SkipTo(w1, ":" + value);
    assert (":" + value)[1..] == value;
    SkipTo(w2, x2 + y);
    assert (x2 + y)[0] == x2[0];
  }

  lemma PlainEnds()
    ensures Plain(",") && Plain("]") && Plain("}")
  {
  }

  /** The members taken apart. */
  lemma MembersParts(s: string)
    requires ParseMembers(s).Got?
    ensures var p := ParseMember(s);
      && p.Got? && Skip(p.rest) != [] && Skip(p.rest)[0] in ",}"
      && var z := Skip(p.rest);
         if z[0] == ',' then
           var q := ParseMembers(z[1..]);
           q.Got? && ParseMembers(s) == Got([p.value] + q.value, q.rest)
         else ParseMembers(s) == Got([p.value], z[1..])
  {
    hide Skip, ParseMember;
    var p := ParseMember(s);
    var z := Skip(p.rest);
    assert MoreMembers(z).Got?;
    assert [p.value] + [] == [p.value];
  }

  /** Members and the closing brace. */
  lemma {:induction false} SameMembers(s: string) returns (x: string)
    requires Regular(s) && ParseMembers(s).Got?
    ensures Becomes(s, x, ParseMembers(s).rest) && ReadsMembers(x, ParseMembers(s).value)
    decreases |s|, 3
  {
    MembersParts(s);
    hide Becomes, Regular, Skip, ParseMember, ParseMembers, MoreMembers, ReadsMember, ReadsMembers, EndsNumber, Spaces,
      Plain;
    assert Plain(",") && Plain("}") by { PlainEnds(); }
    var m, after := ParseMember(s).value, ParseMember(s).rest;
    var z := Skip(after);
    EndsBefore(after);
    var x1 := SameMember(s);
    KeepsRegular(s, x1, after);
    var w1 := SkipBecomes(after);
    BecomesBoth(s, x1, after, w1, z);
    assert z == [z[0]] + z[1..];
    PlainBecomes([z[0]], z[1..]);
    BecomesBoth(s, x1 + w1, z, [z[0]], z[1..]);
    KeepsRegular(s, x1 + w1 + [z[0]], z[1..]);
    if z[0] == ',' {
      var x2 := SameMembers(z[1..]);
      BecomesBoth(s, x1 + w1 + ",", z[1..], x2, ParseMembers(z[1..]).rest);
      x := x1 + w1 + "," + x2;
      MoreMembersRead(x1, m, w1, x2, ParseMembers(z[1..]).value);
    } else {
      x := x1 + w1 + "}";
      LastMemberRead(x1, m, w1);
    }
  }

  lemma MemberThen(x1: string, m: Member, w1: string, t: string)
    requires ReadsMember(x1, m) && Spaces(w1) && t != [] && t[0] in ",}"
    ensures ParseMembers(x1 + (w1 + t)) == Prefixed([m], MoreMembers(t))
  {
    hide Skip, ParseMember, MoreMembers;
    assert EndsNumber(t);
    SpacesEnd(w1, t);
    SkipTo(w1, t);
  }

  lemma LastMemberRead(x1: string, m: Member, w1: string)
    requires ReadsMember(x1, m) && Spaces(w1)
    ensures ReadsMembers(x1 + w1 + "}", [m])
  {
    hide ParseMembers, ReadsMember;
    forall y: string
      ensures ParseMembers(x1 + w1 + "}" + y) == Got([m], y)
    {
      MemberThen(x1, m, w1, "}" + y);
      assert x1 + (w1 + ("}" + y)) == x1 + w1 + "}" + y;
      assert ("}" + y)[1..] == y && [m] + [] == [m];
    }
  }

  lemma MoreMembersRead(x1: string, m: Member, w1: string, x2: string, ms: seq<Member>)
    requires ReadsMember(x1, m) && Spaces(w1) && ReadsMembers(x2, ms)
    ensures ReadsMembers(x1 + w1 + "," + x2, [m] + ms)
  {
    hide ParseMembers, ReadsMember;
    forall y: string
      ensures ParseMembers(x1 + w1 + "," + x2 + y) == Got([m] + ms, y)
    {
      MemberThen(x1, m, w1, "," + (x2 + y));
      assert x1 + (w1 + ("," + (x2 + y))) == x1 + w1 + "," + x2 + y;
      assert ("," + (x2 + y))[1..] == x2 + y;
    }
  }

  // ---------------------------------------------------------------------------- whole texts

  /** A text that is one value and spaces, its literals tidy, stays the same value when it is
      minified. */
  lemma SameTree(s: string) returns (m: string)
    requires Regular(s) && Parse(s).Got? && Skip(Parse(s).rest) == []
    ensures Minified(s) == Some(m)
    ensures Parse(m).Got? && Parse(m).value == Parse(s).value && Skip(Parse(m).rest) == []
  {
    hide Becomes, Regular, Skip, ParseValue, Reads, EndsNumber;
    var w0 := SkipBecomes(s);
    var z := Skip(s);
    KeepsRegular(s, w0, z);
    var v, rest := ParseValue(z).value, ParseValue(z).rest;
    EndsBefore(rest);
    var x := SameValue(z);
    var w1 := SkipBecomes(rest);
    BecomesBoth(s, w0, z, x, rest);
    BecomesBoth(s, w0 + x, rest, w1, []);
    m := w0 + x + w1;
    BecomesAll(s, m);
    ValueThen(w0, x, v, w1);
  }

  lemma BecomesAll(s: string, m: string)
    requires Becomes(s, m, [])
    ensures Minified(s) == Some(m)
  {
    assert m + [] == m;
  }

  lemma ValueThen(w0: string, x: string, v: Json, w1: string)
    requires Spaces(w0) && Reads(x, v) && Spaces(w1)
    ensures Parse(w0 + x + w1) == Got(v, w1) && Skip(w1) == []
  {
    hide ParseValue;
    assert w0 + x + w1 == w0 + (x + w1) && (x + w1)[0] == x[0];
    SkipTo(w0, x + w1);
    NoNumber();
    SpacesEnd(w1, []);
    assert w1 + [] == w1;
    SkipSpaces(w1, []);
  }

  lemma TakesQuote(d: string)
    requires |d| == 4 && d[0] == '"'
    ensures var t := "\\u" + (d + []);
      Characters(t) == Some(([], [])) && Measure(t) == Some(1) && !Tidy(t)
  {
    var t := "\\u" + (d + []);
    assert Hex4(d) == 0;
    OneUnicode(d, []);
    hide Hex4;
    assert t[2..][0] == '"' && t[2..6][0] == '"' && t[1..][0] == 'u';
    var none: string := [];
    assert Characters(none) == Some((none, none)) && none + none == none;
    assert Measure(t[2..]) == Some(0);
  }

  lemma EndsAtQuote(r: string)
    requires Minified(r).None?
    ensures Minified("\"" + (['\\', 'u'] + ("\"" + r))).None?
  {
    var t := ['\\', 'u'] + ("\"" + r);
    var s := "\"" + t;
    LiteralPair('u', "\"" + r);
    LiteralEnds(r);
    assert s[0] == '"' && s[0 + 1..] == t && s[0..] == s;
    assert !("//" <= s) && !("/*" <= s);
    MinifiedNext(s, 0);
    hide Minified, Literal;
    assert LiteralThen(Literal(t)).None?;
  }

  lemma LoneQuote(x: string)
    requires Plain(x)
    ensures Minified(x + "\"").None?
  {
    assert "\""[1..] == [];
    assert Minified("\"").None?;
    MinifyPlain(x, "\"");
  }

  lemma ReadsNothing(t: string)
    requires Characters(t) == Some(([], [])) && Measure(t).Some? && !Tidy(t)
    ensures Parse("\"" + t) == Got(Text([]), []) && !Regular("\"" + t)
  {
    hide Characters, Measure, Tidy;
    var s := "\"" + t;
    assert s[1..] == t && Skip(s) == s;
    QuoteIsValue(s);
  }

  /** It does not hold of every text: here an escape takes a quote for a digit, the parser reads one
      empty string, and the minifier steps out of the text. */
  lemma IrregularText()
    ensures var s := "\"" + ("\\u" + ("\"12" + "\""));
      Parse(s) == Got(Text([]), []) && Minified(s).None? && !Regular(s)
  {
    hide Characters, Measure, Tidy, Minified, Regular, Parse;
    var d := "\"12" + "\"";
    TakesQuote(d);
    assert d + [] == d;
    ReadsNothing("\\u" + d);
    LoneQuote("12");
    EndsAtQuote("12" + "\"");
    assert ['\\', 'u'] == "\\u" && "\"" + ("12" + "\"") == d;
  }
}
