/** The wildcard matcher of evhtp against what a star means. */
module Glob {
  import opened Common

  function Stars(p: string): nat {
    if p == [] then 0 else (if p[0] == '*' then 1 else 0) + Stars(p[1..])
  }

  /** The pattern with its stars replaced, one string for each. */
  function Fill(p: string, fills: seq<string>): string
    requires |fills| == Stars(p)
  {
    if p == [] then []
    else if p[0] == '*' then fills[0] + Fill(p[1..], fills[1..])
    else [p[0]] + Fill(p[1..], fills)
  }

  ghost predicate Matches(p: string, s: string) {
    exists fills: seq<string> :: |fills| == Stars(p) && Fill(p, fills) == s
  }

  lemma MatchEmpty(s: string)
    ensures Matches([], s) <==> s == []
  {
    assert Fill([], []) == [];
  }

  lemma MatchChar(p: string, s: string)
    requires p != [] && p[0] != '*'
    ensures Matches(p, s) <==> s != [] && s[0] == p[0] && Matches(p[1..], s[1..])
  {
    if Matches(p, s) {
      var fills: seq<string> :| |fills| == Stars(p) && Fill(p, fills) == s;
      assert Fill(p[1..], fills) == s[1..];
    }
    if s != [] && s[0] == p[0] && Matches(p[1..], s[1..]) {
      var fills: seq<string> :| |fills| == Stars(p[1..]) && Fill(p[1..], fills) == s[1..];
      assert Fill(p, fills) == [s[0]] + s[1..] == s;
    }
  }

  /** A star takes some beginning of the text. */
  lemma MatchStar(p: string, s: string)
    requires p != [] && p[0] == '*'
    ensures Matches(p, s) <==> exists k :: 0 <= k <= |s| && Matches(p[1..], s[k..])
  {
    if Matches(p, s) {
      var fills: seq<string> :| |fills| == Stars(p) && Fill(p, fills) == s;
      assert Fill(p[1..], fills[1..]) == s[|fills[0]|..];
      assert Matches(p[1..], s[|fills[0]|..]);
    }
    if k :| 0 <= k <= |s| && Matches(p[1..], s[k..]) {
      var fills: seq<string> :| |fills| == Stars(p[1..]) && Fill(p[1..], fills) == s[k..];
      var all := [s[..k]] + fills;
      assert all[1..] == fills;
      assert Fill(p, all) == s[..k] + s[k..] == s;
    }
  }

  /** A star takes nothing, or the first character and then what it likes. */
  lemma MatchStarStep(p: string, s: string)
    requires p != [] && p[0] == '*'
    ensures Matches(p, s) <==> Matches(p[1..], s) || (s != [] && Matches(p, s[1..]))
  {
    hide Matches;
    MatchStar(p, s);
    assert s[0..] == s;
    if s != [] {
      MatchStar(p, s[1..]);
      if k :| 0 <= k <= |s| && Matches(p[1..], s[k..]) {
        if k > 0 {
          assert s[1..][k - 1..] == s[k..];
        }
      }
      if k :| 0 <= k <= |s[1..]| && Matches(p[1..], s[1..][k..]) {
        assert s[1..][k..] == s[k + 1..];
      }
    }
  }

  /** A second star adds nothing. */
  lemma {:induction false} MatchStars(p: string, s: string)
    requires |p| > 1 && p[0] == p[1] == '*'
    ensures Matches(p, s) <==> Matches(p[1..], s)
    decreases |s|
  {
    hide Matches;
    MatchStarStep(p, s);
    MatchStarStep(p[1..], s);
    if s != [] {
      MatchStars(p, s[1..]);
    }
  }

  lemma {:induction false} MatchLastStar(s: string)
    ensures Matches("*", s)
    decreases |s|
  {
    hide Matches;
    MatchStarStep("*", s);
    assert "*"[1..] == [];
    if s == [] {
      MatchEmpty(s);
    } else {
      MatchLastStar(s[1..]);
    }
  }

  /** Of several stars, the last. */
  method LastStar(pattern: string, at: nat, ghost s: string) returns (p: nat)
    requires at < |pattern| && pattern[at] == '*'
    ensures at <= p < |pattern| && pattern[p] == '*' && Peek(pattern, p + 1) != '*'
    ensures Matches(pattern[p..], s) <==> Matches(pattern[at..], s)
  {
    hide Matches;
    p := at;
    while Peek(pattern, p + 1) == '*'
      invariant at <= p < |pattern| && pattern[p] == '*'
      invariant Matches(pattern[p..], s) <==> Matches(pattern[at..], s)
      decreases |pattern| - p
    {
      MatchStars(pattern[p..], s);
      assert pattern[p..][1..] == pattern[p + 1..];
      p := p + 1;
    }
  }

  /** The stars left when the text is used up. */
  method SkipStars(pattern: string, at: nat) returns (p: nat)
    requires at <= |pattern|
    ensures at <= p <= |pattern|
    ensures Matches(pattern[at..], []) <==> p == |pattern|
  {
    hide Matches;
    p := at;
    while Peek(pattern, p) == '*'
      invariant at <= p <= |pattern| && (Matches(pattern[p..], []) <==> Matches(pattern[at..], []))
      decreases |pattern| - p
    {
      MatchStarStep(pattern[p..], []);
      assert pattern[p..][1..] == pattern[p + 1..];
      p := p + 1;
    }
    if p < |pattern| {
      MatchChar(pattern[p..], []);
    } else {
      assert pattern[p..] == [];
      MatchEmpty([]);
    }
  }

  /** What is behind a star is tried at every place of the text but its end. */
  method TryAll(pattern: string, p: nat, str: string, at: nat) returns (found: bool)
    requires p + 1 < |pattern| && pattern[p] == '*' && pattern[p + 1] != '*' && at <= |str|
    ensures found <==> Matches(pattern[p..], str[at..])
    decreases |pattern| - p, 0
  {
    hide Matches;
    var rest := pattern[p + 1..];
    assert pattern[p..][1..] == rest;
    var s := at;
    while s < |str|
      invariant at <= s <= |str| && (Matches(pattern[p..], str[s..]) <==> Matches(pattern[p..], str[at..]))
    {
      MatchStarStep(pattern[p..], str[s..]);
      found := Match(rest, str[s..]);
      if found {
        return true;
      }
      assert str[s..][1..] == str[s + 1..];
      s := s + 1;
    }
    assert str[s..] == [];
    MatchStarStep(pattern[p..], []);
    MatchChar(rest, []);
    found := false;
  }

  /** True exactly when strings for the stars make the pattern the text. */
  method Match(pattern: string, str: string) returns (r: bool)
    ensures r <==> Matches(pattern, str)
    decreases |pattern|, 1
  {
    hide Matches;
    var p, s := 0, 0;
    assert pattern[0..] == pattern && str[0..] == str;
    while p < |pattern|
      invariant 0 <= p <= |pattern| && 0 <= s <= |str|
      invariant Matches(pattern[p..], str[s..]) <==> Matches(pattern, str)
      decreases |pattern| - p
    {
      if pattern[p] == '*' {
        p := LastStar(pattern, p, str[s..]);
        if p == |pattern| - 1 {
          MatchLastStar(str[s..]);
          assert pattern[p..] == "*";
          return true;
        }
        r := TryAll(pattern, p, str, s);
        return;
      }
      MatchChar(pattern[p..], str[s..]);
      if s == |str| || pattern[p] != str[s] {
        return false;
      }
      assert pattern[p..][1..] == pattern[p + 1..] && str[s..][1..] == str[s + 1..];
      p, s := p + 1, s + 1;
      if s == |str| {
        assert str[s..] == [];
        p := SkipStars(pattern, p);
        return p == |pattern|;
      }
    }
    assert pattern[p..] == [];
    MatchEmpty(str[s..]);
    r := s == |str|;
  }
}
