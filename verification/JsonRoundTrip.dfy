/** Reading undoes writing: parsing what either layout writes for a tree gives the tree back and
    stops exactly behind it. */
module JsonRoundTrip {
  import opened Common
  import opened JsonSpec

  // ------------------------------------------------------------------------------- strings

  lemma HexOfControl(c: char, rest: string)
    requires 0 < c as int < 32
    ensures var h := "00" + [HexDigit(c as int / 16), HexDigit(c as int % 16)];
      Hex4(h + rest) == c as int && (h + rest)[4..] == rest
  {
    var n := c as int;
    assert HexValue(HexDigit(n / 16)) == n / 16 && HexValue(HexDigit(n % 16)) == n % 16;
  }

  lemma UnescapeEscaped(c: char, rest: string)
    requires c != '\0' && Escaped(c) != [c]
    ensures var e := Escaped(c);
      e[0] == '\\' && Unescape((e + rest)[1..]) == Some(([c], rest))
  {
    var e := Escaped(c);
    assert (e + rest)[1..] == e[1..] + rest;
    if |e| == 2 {
      assert (e[1..] + rest)[1..] == rest;
    } else {
      var h := "00" + [HexDigit(c as int / 16), HexDigit(c as int % 16)];
      assert e == "\\u" + h;
      assert e[1..] + rest == ['u'] + (h + rest);
      HexOfControl(c, rest);
    }
  }

  lemma ReadEscaped(c: char, rest: string)
    requires c != '\0'
    ensures Characters(Escaped(c) + rest) == Before([c], Characters(rest))
  {
    var s := Escaped(c) + rest;
    if Escaped(c) == [c] {
      assert s[1..] == rest;
    } else {
      UnescapeEscaped(c, rest);
      hide Unescape, Escaped;
    }
  }

  /** An escape is counted with at least one byte. */
  lemma MeasureEscaped(c: char, rest: string)
    requires c != '\0' && Measure(rest).Some?
    ensures Measure(Escaped(c) + rest).Some? && Measure(Escaped(c) + rest).value > Measure(rest).value
  {
    var e := Escaped(c);
    var s := e + rest;
    if |e| == 1 {
      assert s[1..] == rest;
    } else if |e| == 2 {
      assert s[2..] == rest;
    } else {
      var digits := e[2..];
      assert s[2..] == digits + rest;
      MeasureDigits(digits, rest);
    }
  }

  lemma {:induction false} MeasureDigits(digits: string, rest: string)
    requires Measure(rest).Some? && forall k :: 0 <= k < |digits| ==> digits[k] != '"' && digits[k] != '\\'
    ensures Measure(digits + rest) == Some(|digits| + Measure(rest).value)
    decreases |digits|
  {
    if digits == [] {
      assert digits + rest == rest;
    } else {
      MeasureDigits(digits[1..], rest);
      assert (digits + rest)[1..] == digits[1..] + rest;
    }
  }

  lemma {:induction false} ReadQuoted(s: string, rest: string)
    requires NulFree(s)
    ensures var t := EscapedAll(s) + ("\"" + rest);
      Characters(t) == Some((s, rest)) && Measure(t).Some? && Measure(t).value >= |s|
  {
    hide Escaped;
    if s == [] {
      assert EscapedAll(s) + ("\"" + rest) == "\"" + rest;
    } else {
      hide Characters, Measure;
      var t := EscapedAll(s[1..]) + ("\"" + rest);
      ReadQuoted(s[1..], rest);
      assert EscapedAll(s) + ("\"" + rest) == Escaped(s[0]) + t;
      ReadEscaped(s[0], t);
      MeasureEscaped(s[0], t);
      assert [s[0]] + s[1..] == s;
    }
  }

  lemma ParseQuoted(s: string, rest: string)
    requires NulFree(s)
    ensures ParseString(Quoted(s) + rest) == Got(s, rest)
  {
    hide Characters, Measure, EscapedAll;
    ReadQuoted(s, rest);
    assert (Quoted(s) + rest)[1..] == EscapedAll(s) + ("\"" + rest);
  }

  // ------------------------------------------------------------------------------- numbers

  /** The text does not carry a number on. */
  predicate Ends(rest: string) {
    rest != [] ==> !IsDigit(rest[0]) && rest[0] !in ".eE"
  }

  lemma {:induction false} ReadDecimal(n: nat, t: string)
    ensures Digits(0.0, Decimal(n) + t) == Digits(n as real, t)
  {
    if n < 10 {
      assert (Decimal(n) + t)[1..] == t;
    } else {
      var u := [DigitChar(n % 10)] + t;
      DecimalTail(n, t);
      ReadDecimal(n / 10, u);
      assert u[1..] == t;
    }
  }

  // ------------------------------------------------------------ numbers in their general form

  predicate AllDigits(s: string) {
    forall k :: 0 <= k < |s| ==> IsDigit(s[k])
  }

  /** Digits as a number, by place from the right. */
  function ValueOf(s: string): nat
    requires AllDigits(s)
  {
    if s == [] then 0 else ValueOf(s[..|s| - 1]) * 10 + DigitValue(s[|s| - 1])
  }

  function Power10(n: nat): nat {
    if n == 0 then 1 else 10 * Power10(n - 1)
  }

  /** Digits carried on from n shift it and add their value. */
  lemma {:induction false} DigitsMeaning(n: nat, s: string, t: string)
    requires AllDigits(s) && !StartsDigit(t)
    ensures Digits(n as real, s + t) == ((n * Power10(|s|) + ValueOf(s)) as real, t)
    decreases |s|
  {
    if s == [] {
      assert s + t == t;
    } else {
      hide ValueOf, Power10;
      var d := DigitValue(s[0]);
      DigitsMeaning(n * 10 + d, s[1..], t);
      assert (s + t)[1..] == s[1..] + t;
      FirstDigit(s);
      ShiftDigit(n, d, |s| - 1);
    }
  }

  lemma ShiftDigit(n: nat, d: nat, k: nat)
    ensures (n * 10 + d) * Power10(k) == n * Power10(k + 1) + d * Power10(k)
  {
    var p := Power10(k);
    assert Power10(k + 1) == 10 * p;
    assert (n * 10 + d) * p == n * (10 * p) + d * p;
  }

  lemma {:induction false} FirstDigit(s: string)
    requires AllDigits(s) && s != []
    ensures ValueOf(s) == DigitValue(s[0]) * Power10(|s| - 1) + ValueOf(s[1..])
    decreases |s|
  {
    var n := |s| - 1;
    if n == 0 {
      assert s[..n] == [] && s[1..] == [];
    } else {
      FirstDigit(s[..n]);
      assert s[1..][..n - 1] == s[..n][1..];
      assert DigitValue(s[0]) * Power10(n - 1) * 10 == DigitValue(s[0]) * Power10(n);
    }
  }

  /** Section 6 of RFC 8259: sign, digits without a leading zero, fraction, exponent. */
  datatype Numeral = Numeral(negative: bool, whole: nat, fraction: string, exponent: Option<Power>)

  /** The e of either case, a sign or none, digits. */
  datatype Power = Power(letter: char, sign: string, digits: string)

  predicate ProperNumeral(x: Numeral) {
    AllDigits(x.fraction) && (x.exponent.Some? ==> ProperPower(x.exponent.value))
  }

  predicate ProperPower(e: Power) {
    && e.letter in "eE" && (e.sign == "" || e.sign == "+" || e.sign == "-")
    && AllDigits(e.digits) && e.digits != []
  }

  function ExponentText(x: Numeral): string {
    if x.exponent.None? then []
    else [x.exponent.value.letter] + (x.exponent.value.sign + x.exponent.value.digits)
  }

  function FractionText(x: Numeral): string {
    if x.fraction == [] then [] else "." + x.fraction
  }

  function NumeralText(x: Numeral): string {
    Only(x.negative, "-") + (Decimal(x.whole) + (FractionText(x) + ExponentText(x)))
  }

  function ExponentOf(x: Numeral): int
    requires ProperNumeral(x)
  {
    if x.exponent.None? then 0
    else if x.exponent.value.sign == "-" then 0 - ValueOf(x.exponent.value.digits)
    else ValueOf(x.exponent.value.digits)
  }

  lemma ReadSign(e: Power, rest: string)
    requires ProperPower(e)
    ensures var t := e.sign + (e.digits + rest);
      && Starts(t, '-') == (e.sign == "-")
      && (if Starts(t, '+') || Starts(t, '-') then t[1..] else t) == e.digits + rest
  {
    var t := e.sign + (e.digits + rest);
    assert IsDigit(e.digits[0]);
    if e.sign == "" {
      assert t == e.digits + rest && t[0] == e.digits[0];
    } else {
      assert t[0] == e.sign[0] && t[1..] == e.digits + rest;
    }
  }

  lemma ReadPower(s: string, t: string, k: nat, rest: string)
    requires s != [] && s[0] in "eE" && s[1..] == t
    requires Digits(0.0, if Starts(t, '+') || Starts(t, '-') then t[1..] else t) == (k as real, rest)
    ensures Exponent(s) == (if Starts(t, '-') then 0 - k else k, rest)
  {
    hide Digits;
  }

  lemma ReadExponentText(x: Numeral, rest: string)
    requires ProperNumeral(x) && Ends(rest)
    ensures Exponent(ExponentText(x) + rest) == (ExponentOf(x), rest)
  {
    if x.exponent.None? {
      assert [] + rest == rest;
    } else {
      var e := x.exponent.value;
      DigitsMeaning(0, e.digits, rest);
      ReadSign(e, rest);
      hide Digits, ValueOf, AllDigits, Power10, Exponent, Starts;
      assert 0 * Power10(|e.digits|) == 0;
      assert ExponentText(x) + rest == [e.letter] + (e.sign + (e.digits + rest));
      ReadPower(ExponentText(x) + rest, e.sign + (e.digits + rest), ValueOf(e.digits), rest);
    }
  }

  lemma ReadFractionText(x: Numeral, t: string)
    requires ProperNumeral(x) && (t == [] || (t[0] != '.' && !IsDigit(t[0])))
    ensures var s := FractionText(x) + t;
      && HasFraction(s) == (x.fraction != [])
      && (if HasFraction(s) then Digits(x.whole as real, s[1..]) else (x.whole as real, s))
         == ((x.whole * Power10(|x.fraction|) + ValueOf(x.fraction)) as real, t)
  {
    var s := FractionText(x) + t;
    if x.fraction == [] {
      assert s == t;
    } else {
      assert s[1..] == x.fraction + t;
      DigitsMeaning(x.whole, x.fraction, t);
    }
  }

  lemma ReadWholeText(n: nat, t: string)
    requires t == [] || !IsDigit(t[0])
    ensures IntegerPart(Decimal(n) + t) == (n as real, t)
  {
    var s := Decimal(n) + t;
    if n == 0 {
      assert s[1..] == t;
    } else {
      hide Decimal;
      ReadDecimal(n, t);
    }
  }

  /** A number in its general form is read as digits, shifted by fraction and exponent. */
  lemma NumberMeaning(x: Numeral, rest: string)
    requires ProperNumeral(x) && Ends(rest)
    ensures var s := NumeralText(x) + rest;
      && (Starts(s, '-') || StartsDigit(s))
      && ParseNumber(s)
         == Got(Number(Scaled(x.negative, (x.whole * Power10(|x.fraction|) + ValueOf(x.fraction)) as real,
                              ExponentOf(x) - |x.fraction|)), rest)
  {
    hide ParseNumber, Digits, IntegerPart, Exponent, Scaled, ValueOf, Power10, ExponentOf, HasFraction;
    hide NumeralText, FractionText, ExponentText, Decimal;
    var s := NumeralText(x) + rest;
    var t := ExponentText(x) + rest;
    var f := FractionText(x) + t;
    NumeralSplit(x, rest);
    NumeralEnds(x, rest);
    ReadWholeText(x.whole, f);
    ReadFractionText(x, t);
    ReadExponentText(x, rest);
    var digits := (x.whole * Power10(|x.fraction|) + ValueOf(x.fraction)) as real;
    NumberParts(s, (x.whole as real, f), (digits, t), -|x.fraction|, (ExponentOf(x), rest));
  }

  lemma NumeralSplit(x: Numeral, rest: string)
    ensures var s, tail := NumeralText(x) + rest, Decimal(x.whole) + (FractionText(x) + (ExponentText(x) + rest));
      && (Starts(s, '-') || StartsDigit(s)) && (s[0] == '-') == x.negative
      && (if s[0] == '-' then s[1..] else s) == tail
  {
    hide Decimal, FractionText, ExponentText;
    var s, tail := NumeralText(x) + rest, Decimal(x.whole) + (FractionText(x) + (ExponentText(x) + rest));
    assert s == Only(x.negative, "-") + tail;
    assert IsDigit(Decimal(x.whole)[0]) && tail[0] == Decimal(x.whole)[0];
  }

  lemma NumeralEnds(x: Numeral, rest: string)
    requires ProperNumeral(x) && Ends(rest)
    ensures var t := ExponentText(x) + rest;
      && (t == [] || (t[0] != '.' && !IsDigit(t[0])))
      && (FractionText(x) + t == [] || !IsDigit((FractionText(x) + t)[0]))
    ensures |FractionText(x)| == if x.fraction == [] then 0 else 1 + |x.fraction|
  {
  }

  lemma PowZero()
    ensures Pow10(0) == 1.0
  {
  }

  /** Integers as %d prints them. */
  lemma ParseSigned(n: int, rest: string)
    requires Ends(rest)
    ensures var s := Signed(n) + rest;
      (Starts(s, '-') || StartsDigit(s)) && ParseNumber(s) == Got(Number(n as real), rest)
  {
    var k: nat := if n < 0 then -n else n;
    var x := Numeral(n < 0, k, [], None);
    NumberMeaning(x, rest);
    assert NumeralText(x) == Signed(n) by {
      hide Decimal;
      assert Decimal(k) + ([] + []) == Decimal(k) && [] + Decimal(k) == Decimal(k);
    }
    assert Scaled(n < 0, (k * Power10(0) + ValueOf([])) as real, 0) == n as real by { PowZero(); }
  }

  // --------------------------------------------------------------------------------- spaces

  lemma {:induction false} SkipSpaces(w: string, s: string)
    requires forall k :: 0 <= k < |w| ==> w[k] <= ' '
    ensures Skip(w + s) == Skip(s)
  {
    if w == [] {
      assert w + s == s;
    } else {
      SkipSpaces(w[1..], s);
      assert (w + s)[1..] == w[1..] + s;
    }
  }

  /** No value begins with a space, a comma or a closing bracket. */
  lemma Visible(v: Json, depth: nat, fmt: bool)
    requires Printable(v)
    ensures var s := Print(v, depth, fmt);
      s != [] && s[0] > ' ' && s[0] !in "],:}"
  {
    hide Printable, PrintItems, PrintMembers, EscapedAll;
  }

  // ---------------------------------------------------------------------------------- trees

  predicate Follows(v: Json, rest: string) {
    v.Number? ==> Ends(rest)
  }

  lemma {:induction false} ParsePrint(v: Json, depth: nat, fmt: bool, rest: string)
    requires Printable(v) && Follows(v, rest)
    ensures ParseValue(Print(v, depth, fmt) + rest) == Got(v, rest)
    decreases v, 0
  {
    hide ParseNumber, ParseString, Quoted, PrintArray, PrintObject, ParseArray, ParseObject;
    var s := Print(v, depth, fmt) + rest;
    match v
    case Null => ParseLiterals(rest);
    case False => ParseLiterals(rest);
    case True => ParseLiterals(rest);
    case Number(r) => ParseSigned(r.Floor, rest);
    case Text(t) => ParseQuoted(t, rest); QuoteFirst(t); assert s[0] == '"';
    case Array(items) => ParsePrintArray(items, depth, fmt, rest); assert s[0] == '[';
    case Object(members) => ParsePrintObject(members, depth, fmt, rest); assert s[0] == '{';
  }

  lemma ParseLiterals(rest: string)
    ensures ParseValue("null" + rest) == Got(Null, rest)
    ensures ParseValue("false" + rest) == Got(False, rest)
    ensures ParseValue("true" + rest) == Got(True, rest)
  {
    hide ParseNumber, ParseArray, ParseObject, ParseString;
    assert ("null" + rest)[4..] == rest && ("false" + rest)[5..] == rest && ("true" + rest)[4..] == rest;
    assert ("false" + rest)[0] == 'f' && ("true" + rest)[0] == 't';
  }

  lemma ParsePrintArray(items: seq<Json>, depth: nat, fmt: bool, rest: string)
    requires Printable(Array(items))
    ensures Starts(PrintArray(items, depth, fmt), '[')
    ensures ParseArray(PrintArray(items, depth, fmt) + rest) == Got(Array(items), rest)
    decreases items, 2
  {
    hide PrintItems, ParseItems, Skip;
    var s := PrintArray(items, depth, fmt) + rest;
    if items == [] {
      assert s[1..] == "]" + rest;
      StopSkip(s[1..]);
    } else {
      var t := PrintItems(items, depth + 1, fmt) + ("]" + rest);
      assert s[1..] == t;
      VisibleItems(items, depth + 1, fmt);
      StopSkip(t);
      ParsePrintItems(items, depth + 1, fmt, t, rest);
    }
  }

  lemma StopSkip(s: string)
    requires s != [] && s[0] > ' '
    ensures Skip(s) == s
  {
  }

  lemma VisibleItems(items: seq<Json>, depth: nat, fmt: bool)
    requires items != [] && Printable(Array(items))
    ensures var s := PrintItems(items, depth, fmt); s != [] && s[0] > ' ' && s[0] != ']'
  {
    hide Print;
    Visible(items[0], depth, fmt);
  }

  lemma {:induction false} ParsePrintItems(items: seq<Json>, depth: nat, fmt: bool, s: string, rest: string)
    requires items != [] && Printable(Array(items))
    requires Skip(s) == PrintItems(items, depth, fmt) + ("]" + rest)
    ensures ParseItems(s) == Got(items, rest)
    decreases items, 1
  {
    hide Print, ParseValue, Skip, Printable;
    FirstPrintable(items);
    if |items| == 1 {
      var after := "]" + rest;
      assert Skip(s) == Print(items[0], depth, fmt) + after;
      ParsePrint(items[0], depth, fmt, after);
      StopSkip(after);
      assert after[1..] == rest && items == [items[0]] + [];
    } else {
      var others := Only(fmt, " ") + (PrintItems(items[1..], depth, fmt) + ("]" + rest));
      var after := "," + others;
      FirstItem(items, depth, fmt, rest);
      ParsePrint(items[0], depth, fmt, after);
      StopSkip(after);
      assert after[1..] == others;
      SkipSpaces(Only(fmt, " "), PrintItems(items[1..], depth, fmt) + ("]" + rest));
      VisibleItems(items[1..], depth, fmt);
      StopSkip(PrintItems(items[1..], depth, fmt) + ("]" + rest));
      ParsePrintItems(items[1..], depth, fmt, others, rest);
      assert [items[0]] + items[1..] == items;
    }
  }

  lemma FirstPrintable(items: seq<Json>)
    requires items != [] && Printable(Array(items))
    ensures Printable(items[0]) && Printable(Array(items[1..]))
  {
  }

  lemma FirstItem(items: seq<Json>, depth: nat, fmt: bool, rest: string)
    requires |items| > 1 && Printable(Array(items))
    ensures PrintItems(items, depth, fmt) + ("]" + rest)
         == Print(items[0], depth, fmt) + ("," + (Only(fmt, " ") + (PrintItems(items[1..], depth, fmt) + ("]" + rest))))
  {
    hide Print, PrintItems;
    ItemsUnfold(items, depth, fmt);
  }

  lemma ItemsUnfold(items: seq<Json>, depth: nat, fmt: bool)
    requires |items| > 1 && Printable(Array(items))
    ensures PrintItems(items, depth, fmt)
         == Print(items[0], depth, fmt) + ("," + (Only(fmt, " ") + PrintItems(items[1..], depth, fmt)))
  {
  }

  lemma ParsePrintObject(members: seq<Member>, depth: nat, fmt: bool, rest: string)
    requires Printable(Object(members))
    ensures Starts(PrintObject(members, depth, fmt), '{')
    ensures ParseObject(PrintObject(members, depth, fmt) + rest) == Got(Object(members), rest)
    decreases members, 3
  {
    hide PrintMembers, ParseMembers, Skip, Tabs;
    var s := PrintObject(members, depth, fmt) + rest;
    StopSkip("}" + rest);
    if members == [] {
      var w := Only(fmt, "\n" + Tabs(depth - 1));
      assert s[1..] == w + ("}" + rest);
      SkipSpaces(w, "}" + rest);
    } else {
      var tail := Only(fmt, Tabs(depth)) + ("}" + rest);
      var t := PrintMembers(members, depth + 1, fmt) + tail;
      assert s[1..] == Only(fmt, "\n") + t;
      SkipSpaces(Only(fmt, "\n"), t);
      SkipSpaces(Only(fmt, Tabs(depth)), "}" + rest);
      SkipToName(members, depth + 1, fmt, tail);
      StopSkip(Skip(t));
      ParsePrintMembers(members, depth + 1, fmt, Skip(t), tail, rest);
    }
  }

  /** Before the name of a member there are only spaces. */
  lemma SkipToName(members: seq<Member>, depth: nat, fmt: bool, tail: string)
    requires members != [] && Printable(Object(members))
    ensures Starts(Skip(PrintMembers(members, depth, fmt) + tail), '"')
  {
    hide Quoted, Print, PrintMembers, PrintMember, Skip;
    var m, w := members[0], Only(fmt, Tabs(depth));
    var after := FollowsMember(members, depth, fmt, tail);
    var colon := MemberText(m, depth, fmt, after);
    QuoteFirst(m.name);
    SkipSpaces(w, Quoted(m.name) + colon);
    StopSkip(Quoted(m.name) + colon);
  }

  lemma FollowsMember(members: seq<Member>, depth: nat, fmt: bool, tail: string) returns (after: string)
    requires members != [] && Printable(Object(members))
    ensures PrintMembers(members, depth, fmt) + tail == PrintMember(members[0], depth, fmt) + after
  {
    if |members| == 1 {
      LastMember(members, depth, fmt, tail);
      return Only(fmt, "\n") + tail;
    } else {
      FirstMember(members, depth, fmt, tail);
      return "," + (Only(fmt, "\n") + (PrintMembers(members[1..], depth, fmt) + tail));
    }
  }

  /** A member taken apart: indentation, name, colon, value. */
  lemma MemberText(m: Member, depth: nat, fmt: bool, rest: string) returns (colon: string)
    requires PrintableMember(m)
    ensures PrintMember(m, depth, fmt) + rest == Only(fmt, Tabs(depth)) + (Quoted(m.name) + colon)
    ensures colon == ":" + (Only(fmt, "\t") + (Print(m.value, depth, fmt) + rest))
  {
    hide Quoted, Print, Tabs;
    colon := ":" + (Only(fmt, "\t") + (Print(m.value, depth, fmt) + rest));
  }

  lemma QuoteFirst(s: string)
    ensures Quoted(s) != [] && Quoted(s)[0] == '"'
  {
  }

  lemma {:induction false} ParsePrintMembers(members: seq<Member>, depth: nat, fmt: bool, s: string, tail: string,
                                             rest: string)
    requires members != [] && Printable(Object(members))
    requires Skip(s) == Skip(PrintMembers(members, depth, fmt) + tail) && Skip(tail) == "}" + rest
    requires tail != [] && (tail[0] == '}' || tail[0] == '\t')
    ensures ParseMembers(s) == Got(members, rest)
    decreases members, 2
  {
    hide PrintMember, ParseMember, Skip, Printable, PrintMembers;
    FirstMemberPrintable(members);
    if |members| == 1 {
      var after := Only(fmt, "\n") + tail;
      LastMember(members, depth, fmt, tail);
      ParsePrintMember(members[0], depth, fmt, s, after);
      SkipSpaces(Only(fmt, "\n"), tail);
      assert ("}" + rest)[1..] == rest && members == [members[0]] + [];
    } else {
      var others := Only(fmt, "\n") + (PrintMembers(members[1..], depth, fmt) + tail);
      var after := "," + others;
      FirstMember(members, depth, fmt, tail);
      ParsePrintMember(members[0], depth, fmt, s, after);
      StopSkip(after);
      assert after[1..] == others;
      SkipSpaces(Only(fmt, "\n"), PrintMembers(members[1..], depth, fmt) + tail);
      ParsePrintMembers(members[1..], depth, fmt, others, tail, rest);
      assert [members[0]] + members[1..] == members;
    }
  }

  lemma FirstMemberPrintable(members: seq<Member>)
    requires members != [] && Printable(Object(members))
    ensures PrintableMember(members[0]) && Printable(Object(members[1..]))
  {
  }

  lemma LastMember(members: seq<Member>, depth: nat, fmt: bool, tail: string)
    requires |members| == 1 && Printable(Object(members))
    ensures PrintMembers(members, depth, fmt) + tail
         == PrintMember(members[0], depth, fmt) + (Only(fmt, "\n") + tail)
  {
    hide PrintMember;
  }

  lemma FirstMember(members: seq<Member>, depth: nat, fmt: bool, tail: string)
    requires |members| > 1 && Printable(Object(members))
    ensures PrintMembers(members, depth, fmt) + tail
         == PrintMember(members[0], depth, fmt)
            + ("," + (Only(fmt, "\n") + (PrintMembers(members[1..], depth, fmt) + tail)))
  {
    hide PrintMember;
    var s := PrintMembers(members[1..], depth, fmt);
    assert PrintMembers(members, depth, fmt) == PrintMember(members[0], depth, fmt) + ("," + (Only(fmt, "\n") + s));
  }

  lemma ParsePrintMember(m: Member, depth: nat, fmt: bool, s: string, rest: string)
    requires PrintableMember(m) && Ends(rest)
    requires Skip(s) == Skip(PrintMember(m, depth, fmt) + rest)
    ensures ParseMember(s) == Got(m, rest)
    decreases m, 1
  {
    hide Quoted, Print, ParseString, ParseValue, Skip, Printable, PrintMember;
    var value := Print(m.value, depth, fmt) + rest;
    var colon := MemberText(m, depth, fmt, rest);
    SkipSpaces(Only(fmt, Tabs(depth)), Quoted(m.name) + colon);
    QuoteFirst(m.name);
    StopSkip(Quoted(m.name) + colon);
    ParseQuoted(m.name, colon);
    StopSkip(colon);
    assert colon[1..] == Only(fmt, "\t") + value;
    SkipSpaces(Only(fmt, "\t"), value);
    Visible(m.value, depth, fmt);
    StopSkip(value);
    ParsePrint(m.value, depth, fmt, rest);
  }

  /** Whole texts: spaces in front are skipped, and what is behind the value is left alone. */
  lemma RoundTrip(v: Json, fmt: bool, spaces: string, rest: string)
    requires Printable(v) && Follows(v, rest)
    requires forall k :: 0 <= k < |spaces| ==> spaces[k] <= ' '
    ensures Parse(spaces + (Print(v, 0, fmt) + rest)) == Got(v, rest)
  {
    hide Print, Skip, ParseValue, Printable;
    var s := Print(v, 0, fmt) + rest;
    SkipSpaces(spaces, s);
    Visible(v, 0, fmt);
    StopSkip(s);
    ParsePrint(v, 0, fmt, rest);
  }

  // ------------------------------------------------------------------------ \u and UTF-8

  predicate CodePoint(u: nat) {
    0 < u < 0x110000 && !HighSurrogate(u) && !LowSurrogate(u)
  }

  /** Four hexadecimal digits of either case that stand for n. */
  predicate FourDigits(h: string, n: nat) {
    && |h| == 4 && (forall k :: 0 <= k < 4 ==> IsHex(h[k]))
    && n == HexValue(h[0]) * 4096 + HexValue(h[1]) * 256 + HexValue(h[2]) * 16 + HexValue(h[3])
  }

  /** Section 7 of RFC 8259: one escape, or two that make a surrogate pair, without the first
      backslash and u. */
  predicate Utf16Text(u: nat, t: string)
    requires u < 0x110000
  {
    if u < 0x10000 then FourDigits(t, u)
    else
      && |t| == 10 && t[4..6] == "\\u"
      && FourDigits(t[..4], 0xD800 + (u - 0x10000) / 0x400)
      && FourDigits(t[6..], 0xDC00 + (u - 0x10000) % 0x400)
  }

  lemma ReadHex4(h: string, n: nat, rest: string)
    requires FourDigits(h, n)
    ensures Hex4(h + rest) == n && (h + rest)[4..] == rest && |h + rest| >= 4
  {
    hide HexValue;
    var s := h + rest;
    assert s[0] == h[0] && s[1] == h[1] && s[2] == h[2] && s[3] == h[3];
    assert IsHex(h[0]) && IsHex(h[1]) && IsHex(h[2]) && IsHex(h[3]);
  }

  /** The escape of any code point is read as the UTF-8 bytes of that code point. */
  lemma ReadUnicode(u: nat, t: string, rest: string)
    requires CodePoint(u) && Utf16Text(u, t)
    ensures Unicode(t + rest) == Some((Utf8(u), rest))
  {
    hide Hex4, FourDigits, Utf8;
    if u < 0x10000 {
      ReadHex4(t, u, rest);
    } else {
      var high, low := 0xD800 + (u - 0x10000) / 0x400, 0xDC00 + (u - 0x10000) % 0x400;
      var t2 := "\\u" + (t[6..] + rest);
      assert t == t[..4] + t[4..6] + t[6..];
      assert t + rest == t[..4] + t2;
      ReadHex4(t[..4], high, t2);
      ReadHex4(t[6..], low, rest);
      assert t2[2..] == t[6..] + rest && t2[6..] == t2[2..][4..];
    }
  }

  /** The code point a UTF-8 sequence stands for. */
  function FromUtf8(s: string): int {
    if |s| == 1 then s[0] as int
    else if |s| == 2 then (s[0] as int - 0xC0) * 64 + (s[1] as int - 0x80)
    else if |s| == 3 then (s[0] as int - 0xE0) * 4096 + (s[1] as int - 0x80) * 64 + (s[2] as int - 0x80)
    else if |s| == 4 then
      (s[0] as int - 0xF0) * 262144 + (s[1] as int - 0x80) * 4096 + (s[2] as int - 0x80) * 64 + (s[3] as int - 0x80)
    else -1
  }

  /** So no two code points are read as the same bytes. */
  lemma Utf8Decodes(u: nat)
    requires u < 0x110000
    ensures FromUtf8(Utf8(u)) == u
  {
    assert u / 4096 == u / 64 / 64 && u / 262144 == u / 4096 / 64;
  }
}
