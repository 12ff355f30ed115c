/** Storage keys: the MD5 name of an image, and names derived from it for its renderings. */
module ImageKey {
  import opened Common

  const CACHE_KEY_SIZE := 128

  /** What snprintf leaves of a text in a key buffer. */
  function Cut(s: string): (c: string)
    ensures |c| < CACHE_KEY_SIZE && c <= s
  {
    if |s| < CACHE_KEY_SIZE then s else s[..CACHE_KEY_SIZE - 1]
  }

  function ArgsText(args: seq<int>): string {
    if args == [] then [] else ":" + (Signed(args[0]) + ArgsText(args[1..]))
  }

  /** The whole key of a rendering; the buffer may hold only the beginning of it. */
  function FullKey(md5: string, args: seq<int>, fmt: string): string {
    md5 + (ArgsText(args) + (":" + fmt))
  }

  lemma CutTwice(s: string, t: string)
    ensures Cut(Cut(s) + t) == Cut(s + t) && Cut(Cut(s)) == Cut(s)
  {
  }

  /** gen_key: every number is appended in a second buffer and copied back. */
  method GenKey(md5: string, args: seq<int>, fmt: string) returns (key: string)
    ensures key == Cut(FullKey(md5, args, fmt))
  {
    hide Cut, ArgsText, Signed;
    key := Cut(md5);
    ghost var all := md5;
    assert args[0..] == args;
    var tmp;
    for i := 0 to |args|
      invariant key == Cut(all) && all + ArgsText(args[i..]) == md5 + ArgsText(args)
    {
      ArgsStep(all, args, i);
      tmp := Cut(key + (":" + Signed(args[i])));
      key := Cut(tmp);
      ghost var longer := all + (":" + Signed(args[i]));
      CutTwice(all, ":" + Signed(args[i]));
      CutTwice(longer, []);
      all := longer;
    }
    ArgsEnd(all, args);
    CutTwice(all, ":" + fmt);
    CutTwice(all + (":" + fmt), []);
    tmp := Cut(key + (":" + fmt));
    key := Cut(tmp);
    assert md5 + ArgsText(args) + (":" + fmt) == FullKey(md5, args, fmt);
  }

  lemma ArgsStep(all: string, args: seq<int>, i: nat)
    requires i < |args|
    ensures all + ArgsText(args[i..]) == all + (":" + Signed(args[i])) + ArgsText(args[i + 1..])
  {
    hide Signed;
    assert args[i..][1..] == args[i + 1..];
  }

  lemma ArgsEnd(all: string, args: seq<int>)
    ensures all + ArgsText(args[|args|..]) == all
  {
  }

  predicate Md5Name(s: string) {
    |s| == 32 && forall k :: 0 <= k < |s| ==> IsHex(s[k])
  }

  /** is_md5: 1 for a name, -1 for anything else. */
  method IsMd5(s: string) returns (rst: int)
    ensures rst == if Md5Name(s) then 1 else -1
  {
    rst := -1;
    var i := 0;
    while i < |s| && IsHex(s[i])
      invariant 0 <= i <= |s| && forall k :: 0 <= k < i ==> IsHex(s[k])
    {
      i := i + 1;
    }
    if i == 32 && i == |s| {
      rst := 1;
    }
  }

  // ----------------------------------------------------------------------------- injectivity

  predicate NoColon(s: string) {
    forall k :: 0 <= k < |s| ==> s[k] != ':'
  }

  lemma FirstColon(x: string, s: string)
    requires NoColon(x)
    ensures var u := x + (":" + s);
      u[|x|] == ':' && u[..|x|] == x && u[|x| + 1..] == s && forall k :: 0 <= k < |x| ==> u[k] != ':'
  {
  }

  /** What is in front of the first colon, and what is behind it, are in the text. */
  lemma SplitAtColon(x: string, s: string, y: string, t: string)
    requires NoColon(x) && NoColon(y) && x + (":" + s) == y + (":" + t)
    ensures x == y && s == t
  {
    hide NoColon;
    FirstColon(x, s);
    FirstColon(y, t);
  }

  lemma {:induction false} DecimalInjective(m: nat, n: nat)
    requires Decimal(m) == Decimal(n)
    ensures m == n
  {
    var s := Decimal(m);
    if m >= 10 && n >= 10 {
      assert s[..|s| - 1] == Decimal(m / 10) && s[..|s| - 1] == Decimal(n / 10);
      assert s[|s| - 1] == DigitChar(m % 10) && s[|s| - 1] == DigitChar(n % 10);
      DecimalInjective(m / 10, n / 10);
    }
  }

  lemma SignedInjective(m: int, n: int)
    requires Signed(m) == Signed(n)
    ensures m == n
  {
    var s := Signed(m);
    if m < 0 && n < 0 {
      assert s[1..] == Decimal(-m) && s[1..] == Decimal(-n);
      DecimalInjective(-m, -n);
    } else if m >= 0 && n >= 0 {
      DecimalInjective(m, n);
    }
  }

  lemma SignedNoColon(n: int)
    ensures NoColon(Signed(n))
  {
    hide Decimal;
    var s := Signed(n);
    forall k | 0 <= k < |s|
      ensures s[k] != ':'
    {
      assert n < 0 && k > 0 ==> s[k] == Decimal(-n)[k - 1];
      assert s[k] == '-' || IsDigit(s[k]);
    }
  }

  lemma {:induction false} ArgsInjective(a: seq<int>, f: string, b: seq<int>, g: string)
    requires |a| == |b| && ArgsText(a) + (":" + f) == ArgsText(b) + (":" + g)
    ensures a == b && f == g
    decreases |a|
  {
    hide Signed;
    if a == [] {
      assert [] + (":" + f) == ":" + f && [] + (":" + g) == ":" + g;
      assert f == (":" + f)[1..] && g == (":" + g)[1..];
    } else {
      var s, t := ArgsText(a[1..]) + (":" + f), ArgsText(b[1..]) + (":" + g);
      FirstArg(a, f);
      FirstArg(b, g);
      assert Signed(a[0]) + s == (":" + (Signed(a[0]) + s))[1..] == (":" + (Signed(b[0]) + t))[1..] == Signed(b[0]) + t;
      SignedNoColon(a[0]);
      SignedNoColon(b[0]);
      var s', t' := StartsColon(a[1..], f), StartsColon(b[1..], g);
      SplitAtColon(Signed(a[0]), s', Signed(b[0]), t');
      SignedInjective(a[0], b[0]);
      ArgsInjective(a[1..], f, b[1..], g);
      assert a == [a[0]] + a[1..] && b == [b[0]] + b[1..];
    }
  }

  lemma FirstArg(a: seq<int>, f: string)
    requires a != []
    ensures ArgsText(a) + (":" + f) == ":" + (Signed(a[0]) + (ArgsText(a[1..]) + (":" + f)))
  {
  }

  function StartsColon(a: seq<int>, f: string): (rest: string)
    ensures ArgsText(a) + (":" + f) == ":" + rest
  {
    (ArgsText(a) + (":" + f))[1..]
  }

  lemma HexNoColon(md5: string)
    requires Md5Name(md5)
    ensures NoColon(md5)
  {
    forall k | 0 <= k < |md5|
      ensures md5[k] != ':'
    {
      assert IsHex(md5[k]);
    }
  }

  /** Whole keys tell renderings apart. */
  lemma FullKeyInjective(m: string, a: seq<int>, f: string, n: string, b: seq<int>, g: string)
    requires Md5Name(m) && Md5Name(n) && |a| == |b| && FullKey(m, a, f) == FullKey(n, b, g)
    ensures m == n && a == b && f == g
  {
    HexNoColon(m);
    HexNoColon(n);
    SplitAtColon(m, StartsColon(a, f), n, StartsColon(b, g));
    ArgsInjective(a, f, b, g);
  }

  /** No derived key is the name of an image. */
  lemma FullKeyIsDerived(md5: string, args: seq<int>, fmt: string)
    requires Md5Name(md5)
    ensures !Md5Name(FullKey(md5, args, fmt)) && !Md5Name(Cut(FullKey(md5, args, fmt)))
  {
    var s := FullKey(md5, args, fmt);
    var rest := StartsColon(args, fmt);
    assert s[32] == ':';
  }

  /** A key tells its rendering from every other exactly when it ends inside its buffer with room to
      spare: from 127 characters on, some other rendering has the same key. */
  lemma KeyIdentifies(md5: string, args: seq<int>, fmt: string)
    requires Md5Name(md5)
    ensures |FullKey(md5, args, fmt)| < CACHE_KEY_SIZE - 1 <==>
            forall m, a, f | Md5Name(m) && |a| == |args| && Cut(FullKey(m, a, f)) == Cut(FullKey(md5, args, fmt)) ::
              m == md5 && a == args && f == fmt
  {
    hide Md5Name, ArgsText;
    var s := FullKey(md5, args, fmt);
    if |s| < CACHE_KEY_SIZE - 1 {
      forall m, a, f | Md5Name(m) && |a| == |args| && Cut(FullKey(m, a, f)) == Cut(s)
        ensures m == md5 && a == args && f == fmt
      {
        FullKeyInjective(m, a, f, md5, args, fmt);
      }
    } else {
      var longer := fmt + "x";
      assert FullKey(md5, args, longer) == s + "x";
      assert Cut(s + "x") == Cut(s);
      assert longer != fmt;
    }
  }
}
