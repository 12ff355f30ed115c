/** Numbers and string literals are read alike whatever follows them. */
module JsonLocal {
  import opened Common
  import opened JsonSpec
  import opened JsonRoundTrip
  import opened JsonLiteral
  import opened JsonMinify

  // ------------------------------------------------------------------------------- numbers

  predicate NumberChar(c: char) {
    IsDigit(c) || c in "+-.eE"
  }

  /** Nothing in front of it can be a number that goes on here. */
  predicate EndsNumber(y: string) {
    y != [] ==> !NumberChar(y[0])
  }

  predicate NumberChars(x: string) {
    forall k :: 0 <= k < |x| ==> NumberChar(x[k])
  }

  lemma JoinChars(x: string, y: string)
    requires NumberChars(x) && NumberChars(y)
    ensures NumberChars(x + y)
  {
  }

  lemma OneDigit(n: real, c: char, t: string)
    requires IsDigit(c)
    ensures Digits(n, [c] + t) == Digits(n * 10.0 + DigitValue(c) as real, t)
  {
    assert ([c] + t)[1..] == t;
  }

  /** Digits are read alike whatever follows them, if it is no digit. */
  lemma {:induction false} DigitsLocal(n: real, s: string, y: string) returns (x: string)
    requires !StartsDigit(y)
    ensures var (m, r) := Digits(n, s);
      s == x + r && NumberChars(x) && !StartsDigit(r) && Digits(n, x + y) == (m, y)
    ensures |x| == |s| - |Digits(n, s).1|
    decreases |s|
  {
    x := [];
    if StartsDigit(s) {
      x := DigitsLocal(n * 10.0 + DigitValue(s[0]) as real, s[1..], y);
      hide Digits;
      assert s == [s[0]] + s[1..] && [s[0]] + x + y == [s[0]] + (x + y);
      OneDigit(n, s[0], s[1..]);
      OneDigit(n, s[0], x + y);
      JoinChars([s[0]], x);
      x := [s[0]] + x;
    } else {
      assert [] + y == y && [] + s == s;
    }
  }

  /** Digits behind what may be a leading zero. */
  function AfterZero(t: string): (real, string) {
    if StartsDigit(t) && t[0] != '0' then Digits(0.0, t) else (0.0, t)
  }

  lemma WholeIsAfterZero(t: string)
    ensures IntegerPart(['0'] + t) == AfterZero(t)
    ensures !Starts(t, '0') ==> IntegerPart(t) == AfterZero(t)
  {
    hide Digits;
    assert (['0'] + t)[1..] == t;
  }

  lemma AfterZeroLocal(t: string, y: string) returns (x: string)
    requires !StartsDigit(y) && !StartsDigit(AfterZero(t).1)
    ensures var (n, r) := AfterZero(t);
      t == x + r && NumberChars(x) && AfterZero(x + y) == (n, y)
    ensures x == [] || x[0] == t[0] != '0'
  {
    x := [];
    if StartsDigit(t) && t[0] != '0' {
      x := DigitsLocal(0.0, t, y);
      NotAll(t);
      hide Digits, NumberChars;
      assert (x + y)[0] == x[0] == t[0];
    } else {
      hide Digits;
      assert [] + y == y && [] + t == t;
    }
  }

  lemma WholeLocal(s: string, y: string) returns (x: string)
    requires !StartsDigit(y) && !StartsDigit(IntegerPart(s).1)
    ensures var (n, r) := IntegerPart(s);
      s == x + r && NumberChars(x) && IntegerPart(x + y) == (n, y)
  {
    hide AfterZero, IntegerPart, Digits;
    if Starts(s, '0') {
      var t := s[1..];
      assert s == ['0'] + t;
      WholeIsAfterZero(t);
      x := AfterZeroLocal(t, y);
      WholeIsAfterZero(x + y);
      assert ['0'] + x + y == ['0'] + (x + y);
      JoinChars(['0'], x);
      x := ['0'] + x;
    } else {
      WholeIsAfterZero(s);
      x := AfterZeroLocal(s, y);
      assert !Starts(x + y, '0');
      WholeIsAfterZero(x + y);
    }
  }

  lemma NotAll(t: string)
    requires StartsDigit(t)
    ensures |Digits(0.0, t).1| < |t|
  {
  }

  lemma FractionLocal(n: real, s: string, y: string) returns (x: string)
    requires !StartsDigit(y) && !Starts(y, '.')
    ensures var (m, r) := if HasFraction(s) then Digits(n, s[1..]) else (n, s);
      && s == x + r && NumberChars(x) && HasFraction(x + y) == HasFraction(s)
      && (if HasFraction(s) then Digits(n, (x + y)[1..]) else (n, x + y)) == (m, y)
    ensures x == [] || x[0] == '.'
  {
    x := [];
    if HasFraction(s) {
      var t := s[1..];
      x := DigitsLocal(n, t, y);
      FirstDigitTaken(n, t, x);
      hide Digits;
      assert s == ['.'] + t && (['.'] + x + y)[1..] == x + y && (x + y)[0] == t[0];
      JoinChars(['.'], x);
      x := ['.'] + x;
    } else {
      hide Digits;
      assert [] + y == y && [] + s == s;
    }
  }

  lemma FirstDigitTaken(n: real, t: string, x: string)
    requires StartsDigit(t) && t == x + Digits(n, t).1
    ensures x != [] && x[0] == t[0]
  {
  }

  /** The exponent behind its letter. */
  function Powers(t: string): (int, string) {
    var (k, rest) := Digits(0.0, if Starts(t, '+') || Starts(t, '-') then t[1..] else t);
    (if Starts(t, '-') then -k.Floor else k.Floor, rest)
  }

  lemma PowersLocal(t: string, y: string) returns (x: string)
    requires EndsNumber(y)
    ensures var (e, r) := Powers(t);
      t == x + r && NumberChars(x) && Powers(x + y) == (e, y)
  {
    if Starts(t, '+') || Starts(t, '-') {
      var d := t[1..];
      x := DigitsLocal(0.0, d, y);
      hide Digits;
      assert t == [t[0]] + d && ([t[0]] + x + y)[1..] == x + y;
      JoinChars([t[0]], x);
      x := [t[0]] + x;
    } else {
      x := DigitsLocal(0.0, t, y);
      FirstKept(t, x, y, Digits(0.0, t).1);
      hide Digits;
    }
  }

  lemma FirstKept(t: string, x: string, y: string, r: string)
    requires t == x + r && !Starts(t, '+') && !Starts(t, '-') && EndsNumber(y)
    ensures !Starts(x + y, '+') && !Starts(x + y, '-')
  {
    if x == [] {
      assert x + y == y;
    }
  }

  lemma ExponentIsPowers(s: string)
    ensures Exponent(s) == if Starts(s, 'e') || Starts(s, 'E') then Powers(s[1..]) else (0, s)
  {
  }

  lemma ExponentLocal(s: string, y: string) returns (x: string)
    requires EndsNumber(y)
    ensures var (e, r) := Exponent(s);
      s == x + r && NumberChars(x) && Exponent(x + y) == (e, y)
    ensures x == [] || x[0] == 'e' || x[0] == 'E'
  {
    hide Exponent, Powers;
    ExponentIsPowers(s);
    x := [];
    if Starts(s, 'e') || Starts(s, 'E') {
      x := PowersLocal(s[1..], y);
      assert s == [s[0]] + s[1..] && ([s[0]] + x + y)[1..] == x + y;
      JoinChars([s[0]], x);
      x := [s[0]] + x;
    } else {
      assert [] + y == y && [] + s == s;
    }
    ExponentIsPowers(x + y);
  }

  /** The three parts of a number, one after the other. */
  lemma PartsOf(s: string) returns (whole: (real, string), digits: (real, string), exponent: (int, string))
    requires Starts(s, '-') || StartsDigit(s)
    ensures whole == IntegerPart(if s[0] == '-' then s[1..] else s)
    ensures digits == if HasFraction(whole.1) then Digits(whole.0, whole.1[1..]) else whole
    ensures exponent == Exponent(digits.1)
    ensures var scale := if HasFraction(whole.1) then |digits.1| - |whole.1| + 1 else 0;
      ParseNumber(s) == Got(Number(Scaled(s[0] == '-', digits.0, scale + exponent.0)), exponent.1)
  {
    hide Digits, IntegerPart, Exponent, Scaled;
    whole := IntegerPart(if s[0] == '-' then s[1..] else s);
    digits := if HasFraction(whole.1) then Digits(whole.0, whole.1[1..]) else whole;
    exponent := Exponent(digits.1);
    NumberParts(s, whole, digits, if HasFraction(whole.1) then |digits.1| - |whole.1| + 1 else 0, exponent);
  }

  /** Behind a number that ends where it should, the whole part is not followed by a digit. */
  lemma WholeEnds(whole: (real, string), digits: (real, string), exponent: (int, string))
    requires digits == if HasFraction(whole.1) then Digits(whole.0, whole.1[1..]) else whole
    requires exponent == Exponent(digits.1) && EndsNumber(exponent.1)
    ensures !StartsDigit(whole.1)
  {
    hide Digits;
  }

  lemma Chain(w: string, f: string, e: string, y: string)
    requires NumberChars(w) && NumberChars(f) && NumberChars(e) && EndsNumber(y)
    requires (f == [] || f[0] == '.') && (e == [] || e[0] == 'e' || e[0] == 'E')
    ensures !StartsDigit(e + y) && !Starts(e + y, '.') && !StartsDigit(f + (e + y))
    ensures NumberChars(w + f + e)
  {
    assert e == [] ==> e + y == y;
    assert f == [] ==> f + (e + y) == e + y;
  }

  function Sign(s: string): string {
    if Starts(s, '-') then "-" else []
  }

  /** A number from its parts, whatever is behind it. */
  lemma Assemble(sign: string, w: string, f: string, e: string, y: string, n: real, m: real, k: int)
    requires var z := sign + (w + (f + (e + y))); sign == Sign(z) && (Starts(z, '-') || StartsDigit(z))
    requires IntegerPart(w + (f + (e + y))) == (n, f + (e + y))
    requires (if HasFraction(f + (e + y)) then Digits(n, (f + (e + y))[1..]) else (n, f + (e + y))) == (m, e + y)
    requires Exponent(e + y) == (k, y)
    ensures ParseNumber(sign + (w + (f + (e + y))))
         == Got(Number(Scaled(sign == "-", m, k + if HasFraction(f + (e + y)) then 1 - |f| else 0)), y)
  {
    hide ParseNumber, IntegerPart, Digits, Exponent, Scaled, HasFraction;
    var z, t := sign + (w + (f + (e + y))), w + (f + (e + y));
    assert (if z[0] == '-' then z[1..] else z) == t;
    NumberParts(z, (n, f + (e + y)), (m, e + y), if HasFraction(f + (e + y)) then 1 - |f| else 0, (k, y));
  }

  lemma Regrouped(sign: string, w: string, f: string, e: string, y: string)
    ensures sign + (w + (f + (e + y))) == sign + (w + f + e) + y
  {
    assert w + (f + (e + y)) == w + f + e + y;
  }

  /** A number is read alike whatever follows, if nothing there carries it on. */
  lemma NumberLocal(s: string, y: string) returns (x: string)
    requires Starts(s, '-') || StartsDigit(s)
    requires EndsNumber(ParseNumber(s).rest) && EndsNumber(y)
    ensures s == x + ParseNumber(s).rest && NumberChars(x) && x != []
    ensures Starts(x + y, '-') || StartsDigit(x + y)
    ensures ParseNumber(x + y) == Got(ParseNumber(s).value, y)
  {
    hide ParseNumber, IntegerPart, Digits, Exponent, Scaled, NumberChars, HasFraction, EndsNumber;
    var whole, digits, exponent := PartsOf(s);
    WholeEnds(whole, digits, exponent);
    var r, sign, t := exponent.1, Sign(s), if s[0] == '-' then s[1..] else s;
    var e := ExponentLocal(digits.1, y);
    NoChars();
    Chain([], [], e, y);
    var f := FractionLocal(whole.0, whole.1, e + y);
    Chain([], f, e, y);
    var w := WholeLocal(t, f + (e + y));
    Chain(w, f, e, y);
    x := sign + (w + f + e);
    assert s == sign + t;
    Regrouped(sign, w, f, e, r);
    Regrouped(sign, w, f, e, y);
    SignChars(s, w + f + e);
    NumberBegins(s, x, r, y);
    Assemble(sign, w, f, e, y, whole.0, digits.0, exponent.0);
  }

  lemma NoChars()
    ensures NumberChars([])
  {
  }

  lemma SignChars(s: string, x: string)
    requires NumberChars(x)
    ensures NumberChars(Sign(s) + x)
  {
  }

  lemma NumberBegins(s: string, x: string, r: string, y: string)
    requires Starts(s, '-') || StartsDigit(s)
    requires s == x + r && EndsNumber(r)
    ensures x != [] && (x + y)[0] == s[0]
  {
    assert x == [] ==> s == r;
  }

  // ------------------------------------------------------------------------------ literals

  /** Both programs see the same literal lit, read as t, in front of rest, and so they would with y
      behind it. */
  predicate SameLiteral(s: string, lit: string, t: string, rest: string, y: string) {
    && s == lit + rest && lit != [] && lit[|lit| - 1] == '"'
    && Literal(s) == Some((lit, rest)) && Characters(s) == Some((t, rest))
    && Tidy(lit + y) && Characters(lit + y) == Some((t, y))
  }

  lemma {:induction false} LiteralLocal(s: string, y: string) returns (lit: string, t: string, rest: string)
    requires Tidy(s)
    ensures SameLiteral(s, lit, t, rest, y)
    decreases |s|
  {
    hide SameLiteral;
    if s[0] == '"' {
      lit, t, rest := "\"", [], s[1..];
      ClosingQuote(s, y);
    } else if s[0] != '\\' {
      lit, t, rest := LiteralLocal(s[1..], y);
      GrowOne(s[0], s[1..], lit, t, rest, y);
      assert s == [s[0]] + s[1..];
      lit, t := [s[0]] + lit, [s[0]] + t;
    } else if !Starts(s[1..], 'u') {
      lit, t, rest := LiteralLocal(s[2..], y);
      assert s == ['\\', s[1]] + s[2..];
      GrowTwo(s[1], s[2..], lit, t, rest, y);
      lit, t := ['\\', s[1]] + lit, Unescape(s[1..]).value.0 + t;
    } else {
      var h, u, s' := s[2..6], Hex4(s[2..]), s[6..];
      assert s == "\\u" + (h + s');
      HexOnly(h, s');
      if u != 0 && HighSurrogate(u) && "\\u" <= s' {
        var h2 := s'[2..6];
        assert s'[1..][0] == 'u';
        lit, t, rest := LiteralLocal(s'[6..], y);
        assert s' == "\\u" + (h2 + s'[6..]);
        GrowPair(h, h2, s'[6..], lit, t, rest, y);
        lit, t := "\\u" + (h + ("\\u" + (h2 + lit))), SecondHalf(u, Hex4(h2)) + t;
      } else {
        lit, t, rest := LiteralLocal(s', y);
        GrowUnicode(h, s', lit, t, rest, y);
        lit, t := "\\u" + (h + lit), (if u == 0 || HighSurrogate(u) || LowSurrogate(u) then [] else Utf8(u)) + t;
      }
    }
  }

  lemma ClosingQuote(s: string, y: string)
    requires Starts(s, '"')
    ensures SameLiteral(s, "\"", [], s[1..], y)
  {
    var z := "\"" + y;
    assert s == "\"" + s[1..] && z[0] == '"' && z[1..] == y;
    LiteralEnds(s[1..]);
  }

  lemma HexOnly(h: string, r: string)
    requires |h| == 4
    ensures Hex4(h + r) == Hex4(h) && (h + r)[4..] == r
  {
    var s := h + r;
    assert s[0] == h[0] && s[1] == h[1] && s[2] == h[2] && s[3] == h[3];
  }

  /** A unit x in front, which both programs pass as a whole and the parser reads as c. */
  lemma Grow(x: string, c: string, s: string, lit: string, t: string, rest: string, y: string)
    requires SameLiteral(s, lit, t, rest, y) && x != []
    requires Literal(x + s) == Passed(x, Literal(s)) && Characters(x + s) == Before(c, Characters(s))
    requires Tidy(x + (lit + y)) && Characters(x + (lit + y)) == Before(c, Characters(lit + y))
    ensures SameLiteral(x + s, x + lit, c + t, rest, y)
  {
    hide Literal, Characters, Tidy;
    assert x + s == x + lit + rest && x + lit + y == x + (lit + y);
  }

  lemma GrowOne(c: char, s: string, lit: string, t: string, rest: string, y: string)
    requires SameLiteral(s, lit, t, rest, y) && c != '"' && c != '\\'
    ensures SameLiteral([c] + s, [c] + lit, [c] + t, rest, y)
  {
    LiteralChar(c, s);
    OneCharacter(c, s);
    OneCharacter(c, lit + y);
    hide Literal, Characters, Tidy;
    Grow([c], [c], s, lit, t, rest, y);
  }

  lemma OneCharacter(c: char, s: string)
    requires c != '"' && c != '\\'
    ensures Characters([c] + s) == Before([c], Characters(s)) && Tidy([c] + s) == Tidy(s)
  {
    assert ([c] + s)[1..] == s;
  }

  lemma UnescapeOne(c: char, s: string)
    requires c != 'u'
    ensures Unescape([c]).Some? && Unescape([c] + s) == Some((Unescape([c]).value.0, s))
  {
    assert ([c] + s)[1..] == s;
  }

  lemma TwoCharacters(c: char, s: string)
    requires c != 'u'
    ensures Unescape([c]).Some? && Unescape([c] + s) == Some((Unescape([c]).value.0, s))
    ensures Characters(['\\', c] + s) == Before(Unescape([c]).value.0, Characters(s))
    ensures Tidy(['\\', c] + s) == Tidy(s)
  {
    UnescapeOne(c, s);
    hide Unescape;
    var z := ['\\', c] + s;
    assert z[1..] == [c] + s && z[2..] == s;
  }

  lemma GrowTwo(c: char, s: string, lit: string, t: string, rest: string, y: string)
    requires SameLiteral(s, lit, t, rest, y) && c != 'u'
    ensures Unescape([c] + s).Some?
    ensures SameLiteral(['\\', c] + s, ['\\', c] + lit, Unescape([c] + s).value.0 + t, rest, y)
  {
    LiteralPair(c, s);
    TwoCharacters(c, s);
    TwoCharacters(c, lit + y);
    hide Literal, Characters, Tidy, Unescape;
    Grow(['\\', c], Unescape([c]).value.0, s, lit, t, rest, y);
  }

  /** An escape and its digits as the minifier passes them. */
  lemma PassUnicode(h: string, s: string)
    requires Inner(h)
    ensures Literal("\\u" + (h + s)) == Passed("\\u" + h, Literal(s))
  {
    hide Literal, Passed;
    LiteralPlain(h, s);
    LiteralPair('u', h + s);
    PassedBoth("\\u", h, Literal(s));
  }

  lemma UnicodeTidy(h: string, s: string)
    requires Inner(h) && |h| == 4
    ensures Tidy("\\u" + (h + s)) == Tidy(s)
  {
    var z := "\\u" + (h + s);
    assert z[1..][0] == 'u' && z[2..6] == h && z[6..] == s;
  }

  /** An escape that is not the first half of a pair. */
  lemma OneUnicode(h: string, s: string)
    requires |h| == 4 && !(Hex4(h) != 0 && HighSurrogate(Hex4(h)) && "\\u" <= s)
    ensures var u := Hex4(h);
      Characters("\\u" + (h + s))
      == Before(if u == 0 || HighSurrogate(u) || LowSurrogate(u) then [] else Utf8(u), Characters(s))
  {
    var z := "\\u" + (h + s);
    assert z[1..][1..] == h + s && z[1..][0] == 'u';
    HexOnly(h, s);
    assert Unescape(z[1..]) == Unicode(h + s);
    hide Hex4, Utf8;
  }

  lemma TwoUnicode(h: string, h2: string, s: string)
    requires |h| == |h2| == 4 && Hex4(h) != 0 && HighSurrogate(Hex4(h))
    ensures Characters("\\u" + (h + ("\\u" + (h2 + s)))) == Before(SecondHalf(Hex4(h), Hex4(h2)), Characters(s))
  {
    var t := "\\u" + (h2 + s);
    var z := "\\u" + (h + t);
    assert z[1..][1..] == h + t && z[1..][0] == 'u' && t[2..] == h2 + s && t[6..] == s && "\\u" <= t;
    HexOnly(h, t);
    HexOnly(h2, s);
    assert Unescape(z[1..]) == Unicode(h + t);
    hide Hex4, Utf8;
  }

  lemma StartAlike(lit: string, rest: string, y: string)
    requires lit != [] && lit[|lit| - 1] == '"'
    ensures "\\u" <= lit + rest <==> "\\u" <= lit + y
  {
    if |lit| == 1 {
      assert (lit + rest)[0] == '"' && (lit + y)[0] == '"';
    } else {
      assert (lit + rest)[..2] == lit[..2] == (lit + y)[..2];
    }
  }

  lemma GrowUnicode(h: string, s: string, lit: string, t: string, rest: string, y: string)
    requires SameLiteral(s, lit, t, rest, y) && Inner(h) && |h| == 4
    requires !(Hex4(h) != 0 && HighSurrogate(Hex4(h)) && "\\u" <= s)
    ensures var u := Hex4(h);
      SameLiteral("\\u" + (h + s), "\\u" + (h + lit),
                  (if u == 0 || HighSurrogate(u) || LowSurrogate(u) then [] else Utf8(u)) + t, rest, y)
  {
    hide Hex4, Utf8, Literal, Characters, Tidy;
    var u := Hex4(h);
    StartAlike(lit, rest, y);
    PassUnicode(h, s);
    UnicodeTidy(h, lit + y);
    OneUnicode(h, s);
    OneUnicode(h, lit + y);
    var x := "\\u" + h;
    assert forall r: string :: x + r == "\\u" + (h + r);
    Grow(x, if u == 0 || HighSurrogate(u) || LowSurrogate(u) then [] else Utf8(u), s, lit, t, rest, y);
  }

  lemma GrowPair(h: string, h2: string, s: string, lit: string, t: string, rest: string, y: string)
    requires SameLiteral(s, lit, t, rest, y) && Inner(h) && |h| == 4 && Inner(h2) && |h2| == 4
    requires Hex4(h) != 0 && HighSurrogate(Hex4(h))
    ensures SameLiteral("\\u" + (h + ("\\u" + (h2 + s))), "\\u" + (h + ("\\u" + (h2 + lit))),
                        SecondHalf(Hex4(h), Hex4(h2)) + t, rest, y)
  {
    hide Hex4, Utf8, Literal, Characters, Tidy, SecondHalf, Passed;
    PassUnicode(h2, s);
    PassUnicode(h, "\\u" + (h2 + s));
    PassedBoth("\\u" + h, "\\u" + h2, Literal(s));
    UnicodeTidy(h2, lit + y);
    UnicodeTidy(h, "\\u" + (h2 + (lit + y)));
    TwoUnicode(h, h2, s);
    TwoUnicode(h, h2, lit + y);
    var x := "\\u" + h + ("\\u" + h2);
    assert forall r: string :: x + r == "\\u" + (h + ("\\u" + (h2 + r)));
    Grow(x, SecondHalf(Hex4(h), Hex4(h2)), s, lit, t, rest, y);
  }
}
