/** For which string literals the source stays inside its text and its memory. What follows the
    opening quote is read twice: once to measure it, once to copy it. */
module JsonLiteral {
  import opened Common
  import opened JsonSpec

  // ------------------------------------------------------------------------------ measuring

  /** How many backslashes stand directly in front of a position. */
  function Backslashes(s: string, k: nat): nat
    requires k <= |s|
  {
    if k > 0 && s[k - 1] == '\\' then 1 + Backslashes(s, k - 1) else 0
  }

  predicate Odd(n: nat) {
    n % 2 == 1
  }

  /** No quote closes the literal, and it ends in a backslash with nothing to escape. */
  predicate Dangling(s: string) {
    Odd(Backslashes(s, |s|)) && forall k :: 0 <= k < |s| && s[k] == '"' ==> Odd(Backslashes(s, k))
  }

  lemma {:induction false} BackslashesBehind(c: char, s: string, k: nat)
    requires c != '\\' && k <= |s|
    ensures Backslashes([c] + s, k + 1) == Backslashes(s, k)
  {
    if k > 0 {
      BackslashesBehind(c, s, k - 1);
    }
  }

  lemma {:induction false} BackslashesBehindPair(c: char, s: string, k: nat)
    requires k <= |s|
    ensures Odd(Backslashes(['\\', c] + s, k + 2)) == Odd(Backslashes(s, k))
  {
    var t := ['\\', c] + s;
    if k > 0 {
      BackslashesBehindPair(c, s, k - 1);
    } else {
      assert Backslashes(t, 1) == 1 + Backslashes(t, 0);
    }
  }

  lemma DanglingBehind(c: char, s: string)
    requires c != '\\' && c != '"'
    ensures Dangling([c] + s) == Dangling(s)
  {
    var t := [c] + s;
    forall k | 0 <= k <= |s|
      ensures Backslashes(t, k + 1) == Backslashes(s, k)
    {
      BackslashesBehind(c, s, k);
    }
    hide Backslashes;
    assert forall k :: 0 <= k < |s| ==> t[k + 1] == s[k];
    if Dangling(s) {
      forall k | 0 <= k < |t| && t[k] == '"'
        ensures Odd(Backslashes(t, k))
      {
        assert s[k - 1] == '"';
      }
    }
  }

  lemma DanglingBehindPair(c: char, s: string)
    ensures Dangling(['\\', c] + s) == Dangling(s)
  {
    var t := ['\\', c] + s;
    forall k | 0 <= k <= |s|
      ensures Odd(Backslashes(t, k + 2)) == Odd(Backslashes(s, k))
    {
      BackslashesBehindPair(c, s, k);
    }
    assert Backslashes(t, 1) == 1 && Odd(1);
    hide Backslashes, Odd;
    assert forall k :: 0 <= k < |s| ==> t[k + 2] == s[k];
    if Dangling(s) {
      forall k | 0 <= k < |t| && t[k] == '"'
        ensures Odd(Backslashes(t, k))
      {
        assert k >= 2 ==> s[k - 2] == '"' && Odd(Backslashes(s, k - 2)) == Odd(Backslashes(t, k));
      }
    }
  }

  /** The measuring loop steps over the terminator exactly if no quote closes the literal and the
      text ends in an odd number of backslashes. */
  lemma {:induction false} MeasureInside(s: string)
    ensures Measure(s).None? <==> Dangling(s)
    decreases |s|
  {
    if s == [] {
    } else if s[0] == '"' {
      assert Backslashes(s, 0) == 0;
    } else if s[0] != '\\' {
      MeasureInside(s[1..]);
      DanglingBehind(s[0], s[1..]);
      assert [s[0]] + s[1..] == s;
    } else if |s| == 1 {
      assert Backslashes(s, 0) == 0 && Backslashes(s, 1) == 1;
    } else {
      MeasureInside(s[2..]);
      DanglingBehindPair(s[1], s[2..]);
      assert ['\\', s[1]] + s[2..] == s;
    }
  }

  // -------------------------------------------------------------------------------- copying

  /** Up to the closing quote every escape is there as a whole: one character behind the backslash,
      and four more behind a u. */
  predicate Complete(s: string)
    decreases |s|
  {
    if s == [] || s[0] == '"' then true
    else if s[0] != '\\' then Complete(s[1..])
    else if Starts(s[1..], 'u') then |s| >= 6 && Complete(s[6..])
    else |s| >= 2 && Complete(s[2..])
  }

  lemma UnescapeTwo(s: string)
    requires !Starts(s, 'u')
    ensures Unescape(s).Some? <==> s != []
    ensures s != [] ==> Unescape(s).value.1 == s[1..] && |Unescape(s).value.0| == 1
  {
  }

  /** The copying loop steps over the terminator exactly if an escape is incomplete. */
  lemma {:induction false} CharactersInside(s: string)
    ensures Characters(s).Some? <==> Complete(s)
    decreases |s|
  {
    if s != [] && s[0] != '"' {
      if s[0] != '\\' {
        CharactersInside(s[1..]);
      } else if Starts(s[1..], 'u') {
        UnicodeInside(s);
      } else {
        UnescapeTwo(s[1..]);
        hide Unescape;
        if |s| >= 2 {
          assert s[1..][1..] == s[2..];
          CharactersInside(s[2..]);
        }
      }
    }
  }

  lemma UnicodeInside(s: string)
    requires Starts(s, '\\') && Starts(s[1..], 'u')
    ensures Characters(s).Some? <==> Complete(s)
    decreases |s|, 0
  {
    var t := s[1..][1..];
    assert Unescape(s[1..]) == Unicode(t);
    hide Hex4, Utf8;
    if |s| >= 6 {
      var rest := t[4..];
      assert rest == s[6..];
      CharactersInside(rest);
      var u := Hex4(t);
      if u != 0 && HighSurrogate(u) && "\\u" <= rest {
        assert rest[0] == '\\' && rest[1..][0] == 'u';
        if |rest| >= 6 {
          CharactersInside(rest[6..]);
        }
      }
    }
  }

  /** No more is copied than was measured. */
  predicate Fits(s: string) {
    Measure(s).Some? && Characters(s).Some? ==> |Characters(s).value.0| <= Measure(s).value
  }

  /** A literal is read exactly if the text does not dangle, its escapes are complete, and what is
      copied fits; otherwise the parser is lost. */
  lemma StringIff(s: string)
    requires Starts(s, '"')
    ensures ParseString(s).Got? <==> !Dangling(s[1..]) && Complete(s[1..]) && Fits(s[1..])
    ensures ParseString(s).Lost? <==> !ParseString(s).Got?
  {
    hide Measure, Characters, Dangling, Complete;
    MeasureInside(s[1..]);
    CharactersInside(s[1..]);
  }

  /** A quote and a backslash: the copying loop steps over the terminator. */
  lemma LoneBackslash()
    ensures ParseString("\"\\").Lost? && Dangling("\\") && !Complete("\\")
  {
    assert "\"\\"[1..] == "\\";
    assert Backslashes("\\", 0) == 0 && Backslashes("\\", 1) == 1;
    StringIff("\"\\");
  }

  /** An escape that takes the closing quote for a digit: what follows the literal is copied too, and
      from three characters on it does not fit. */
  lemma SwallowedQuote(t: string)
    requires Inner(t) && |t| > 2
    ensures var s := "\\u1\"23" + t;
      !Dangling(s) && Complete(s) && !Fits(s) && ParseString("\"" + s).Lost?
  {
    var s := "\\u1\"23" + t;
    PlainTail(t);
    SwallowedParts(s, t);
    hide Measure, Characters, Dangling, Complete;
    assert ("\"" + s)[1..] == s;
    StringIff("\"" + s);
  }

  lemma {:induction false} PlainTail(t: string)
    requires Inner(t)
    ensures Complete(t) && Characters(t) == Some((t, [])) && Measure(t) == Some(|t|)
    decreases |t|
  {
    if t != [] {
      assert Inner(t[1..]);
      PlainTail(t[1..]);
      assert [t[0]] + t[1..] == t;
    }
  }

  lemma SwallowedParts(s: string, t: string)
    requires s == "\\u1\"23" + t && |t| > 2 && Complete(t) && Characters(t) == Some((t, []))
    ensures Complete(s) && Measure(s) == Some(2) && Characters(s) == Some((t, [])) && !Dangling(s)
  {
    assert s[1..][0] == 'u' && s[6..] == t && s[1..][1..][4..] == t;
    assert s[2..][1..] == s[3..] && s[2..][0] == '1' && s[3..][0] == '"';
    assert Measure(s[3..]) == Some(0) && Measure(s[2..]) == Some(1);
    assert Unescape(s[1..]) == Some(([], t)) by {
      assert Hex4(s[1..][1..]) == 0;
    }
    assert [] + t == t;
    hide Characters, Dangling;
    MeasureInside(s);
    assert Characters(s) == Before([], Characters(t)) by { SkipsFirst(s, t); }
  }

  lemma SkipsFirst(s: string, t: string)
    requires Starts(s, '\\') && Unescape(s[1..]) == Some(([], t))
    ensures Characters(s) == Before([], Characters(t))
  {
  }

  // ---------------------------------------------------------------- literals as they should be

  /** Up to the closing quote, which is there: behind a backslash a character, behind a backslash and
      a u four that are neither quote nor backslash. */
  predicate Tidy(s: string)
    decreases |s|
  {
    if s == [] then false
    else if s[0] == '"' then true
    else if s[0] != '\\' then Tidy(s[1..])
    else if Starts(s[1..], 'u') then |s| >= 6 && Inner(s[2..6]) && Tidy(s[6..])
    else |s| >= 2 && Tidy(s[2..])
  }

  predicate Inner(x: string) {
    forall k :: 0 <= k < |x| ==> x[k] != '"' && x[k] != '\\'
  }

  lemma {:induction false} MeasureInner(x: string, s: string)
    requires Inner(x)
    ensures Measure(x + s) == Plus(|x|, Measure(s))
    decreases |x|
  {
    if x == [] {
      assert x + s == s;
    } else {
      MeasureInner(x[1..], s);
      assert (x + s)[1..] == x[1..] + s;
    }
  }

  lemma Utf8Short(u: nat)
    requires u < 0x110000
    ensures |Utf8(u)| <= 4
  {
  }

  /** A tidy literal is read, and nothing is written beyond what was measured. */
  lemma {:induction false} TidyIsRead(s: string)
    requires Tidy(s)
    ensures Characters(s).Some? && Measure(s).Some? && |Characters(s).value.0| <= Measure(s).value
    decreases |s|
  {
    if s[0] != '"' {
      if s[0] != '\\' {
        TidyIsRead(s[1..]);
      } else if Starts(s[1..], 'u') {
        hide Characters, Measure, Tidy;
        TidyUnicode(s);
      } else {
        UnescapeTwo(s[1..]);
        assert s[1..][1..] == s[2..];
        hide Unescape;
        TidyIsRead(s[2..]);
      }
    }
  }

  lemma MeasureUnicode(s: string)
    requires Starts(s, '\\') && Starts(s[1..], 'u') && |s| >= 6 && Inner(s[2..6])
    ensures Measure(s) == Plus(5, Measure(s[6..]))
  {
    assert s[2..] == s[2..6] + s[6..];
    MeasureInner(s[2..6], s[6..]);
  }

  lemma TidyUnicode(s: string)
    requires Tidy(s) && Starts(s, '\\') && Starts(s[1..], 'u')
    ensures Characters(s).Some? && Measure(s).Some? && |Characters(s).value.0| <= Measure(s).value
    decreases |s|, 0
  {
    var t := s[1..][1..];
    var rest := s[6..];
    assert t[4..] == rest && Unescape(s[1..]) == Unicode(t);
    MeasureUnicode(s);
    var u := Hex4(t);
    if u != 0 && HighSurrogate(u) && "\\u" <= rest {
      assert rest[0] == '\\' && rest[1..][0] == 'u';
      assert Tidy(rest) && |rest| >= 6;
      MeasureUnicode(rest);
      TidyIsRead(rest[6..]);
      hide Hex4, Utf8, Tidy, Measure;
      ShortHalf(u, Hex4(rest[2..]));
    } else {
      TidyIsRead(rest);
      hide Hex4, Utf8, Tidy, Measure;
      if !LowSurrogate(u) {
        Utf8Short(u);
      }
    }
  }

  lemma ShortHalf(u: nat, low: nat)
    requires HighSurrogate(u)
    ensures |SecondHalf(u, low)| <= 4
  {
  }
}
