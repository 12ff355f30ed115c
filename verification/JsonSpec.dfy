/** JSON texts and trees: how cJSON writes a tree, in both layouts, and how it reads one back. A
    text is a C string without its terminator, and a parser works on what is left of it. It is lost
    where the source's cursor would step over the terminator, or more would be written than was
    allocated. */
module JsonSpec {
  import opened Common

  datatype Json =
    | Null
    | False
    | True
    | Number(value: real)
    | Text(text: string)
    | Array(items: seq<Json>)
    | Object(members: seq<Member>)

  datatype Member = Member(name: string, value: Json)

  /** The 2 to the 53: up to here a double holds every integer, and prints it digit by digit. */
  const EXACT: int := 0x20_0000_0000_0000

  predicate NulFree(s: string) {
    forall k :: 0 <= k < |s| ==> s[k] != '\0'
  }

  /** A tree the model can print: its numbers are integers a double holds exactly. */
  predicate Printable(v: Json) {
    match v
    case Number(r) => -EXACT <= r.Floor <= EXACT && r.Floor as real == r
    case Text(s) => NulFree(s)
    case Array(items) => forall k :: 0 <= k < |items| ==> Printable(items[k])
    case Object(members) => forall k :: 0 <= k < |members| ==> PrintableMember(members[k])
    case _ => true
  }

  predicate PrintableMember(m: Member) {
    NulFree(m.name) && Printable(m.value)
  }

  // ------------------------------------------------------------------------------ printing

  /** One character of a string: as it is, or behind a backslash. */
  function Escaped(c: char): (s: string)
    ensures s != []
  {
    if c > 31 as char && c != '"' && c != '\\' then [c]
    else if c == '\\' then "\\\\"
    else if c == '"' then "\\\""
    else if c == 8 as char then "\\b"
    else if c == 12 as char then "\\f"
    else if c == '\n' then "\\n"
    else if c == '\r' then "\\r"
    else if c == '\t' then "\\t"
    else "\\u00" + [HexDigit(c as int / 16), HexDigit(c as int % 16)]
  }

  function EscapedAll(s: string): string {
    if s == [] then [] else Escaped(s[0]) + EscapedAll(s[1..])
  }

  function Quoted(s: string): string {
    "\"" + EscapedAll(s) + "\""
  }

  function Tabs(n: int): (t: string)
    ensures |t| == if n > 0 then n else 0
    ensures forall k :: 0 <= k < |t| ==> t[k] == '\t'
  {
    seq(if n > 0 then n else 0, _ => '\t')
  }

  /** What only the formatted layout writes. */
  function Only(fmt: bool, s: string): string {
    if fmt then s else []
  }

  function Print(v: Json, depth: nat, fmt: bool): string
    requires Printable(v)
    decreases v, 0
  {
    match v
    case Null => "null"
    case False => "false"
    case True => "true"
    case Number(r) => Signed(r.Floor)
    case Text(s) => Quoted(s)
    case Array(items) => PrintArray(items, depth, fmt)
    case Object(members) => PrintObject(members, depth, fmt)
  }

  function PrintArray(items: seq<Json>, depth: nat, fmt: bool): string
    requires forall k :: 0 <= k < |items| ==> Printable(items[k])
    decreases items, 2
  {
    if items == [] then "[]" else "[" + (PrintItems(items, depth + 1, fmt) + "]")
  }

  function PrintObject(members: seq<Member>, depth: nat, fmt: bool): string
    requires forall k :: 0 <= k < |members| ==> PrintableMember(members[k])
    decreases members, 2
  {
    if members == [] then "{" + (Only(fmt, "\n" + Tabs(depth - 1)) + "}")
    else "{" + (Only(fmt, "\n") + (PrintMembers(members, depth + 1, fmt) + (Only(fmt, Tabs(depth)) + "}")))
  }

  function PrintItems(items: seq<Json>, depth: nat, fmt: bool): string
    requires items != [] && forall k :: 0 <= k < |items| ==> Printable(items[k])
    decreases items, 1
  {
    Print(items[0], depth, fmt) +
    if |items| == 1 then [] else "," + (Only(fmt, " ") + PrintItems(items[1..], depth, fmt))
  }

  function PrintMembers(members: seq<Member>, depth: nat, fmt: bool): string
    requires members != [] && forall k :: 0 <= k < |members| ==> PrintableMember(members[k])
    decreases members, 1
  {
    PrintMember(members[0], depth, fmt) +
    if |members| == 1 then Only(fmt, "\n") else "," + (Only(fmt, "\n") + PrintMembers(members[1..], depth, fmt))
  }

  function PrintMember(m: Member, depth: nat, fmt: bool): string
    requires PrintableMember(m)
    decreases m, 1
  {
    Only(fmt, Tabs(depth)) + (Quoted(m.name) + (":" + (Only(fmt, "\t") + Print(m.value, depth, fmt))))
  }

  // ------------------------------------------------------------------------------- parsing

  datatype Parsed<+T> = Fail | Lost | Got(value: T, rest: string)

  predicate Starts(s: string, c: char) {
    s != [] && s[0] == c
  }

  function Skip(s: string): (r: string)
    ensures |r| <= |s|
  {
    if s != [] && s[0] <= ' ' then Skip(s[1..]) else s
  }

  predicate StartsDigit(s: string) {
    s != [] && IsDigit(s[0])
  }

  /** Digits carried on from n. */
  function Digits(n: real, s: string): (r: (real, string))
    ensures |r.1| <= |s|
    ensures StartsDigit(s) ==> |r.1| < |s|
    decreases |s|
  {
    if StartsDigit(s) then Digits(n * 10.0 + DigitValue(s[0]) as real, s[1..]) else (n, s)
  }

  function Pow10(e: int): real
    decreases if e < 0 then -e else e
  {
    if e == 0 then 1.0 else if e > 0 then 10.0 * Pow10(e - 1) else Pow10(e + 1) / 10.0
  }

  function IntegerPart(s: string): (r: (real, string))
    ensures |r.1| <= |s|
    ensures StartsDigit(s) ==> |r.1| < |s|
  {
    var t := if Starts(s, '0') then s[1..] else s;
    if StartsDigit(t) && t[0] != '0' then Digits(0.0, t) else (0.0, t)
  }

  predicate HasFraction(s: string) {
    Starts(s, '.') && StartsDigit(s[1..])
  }

  /** The exponent and the text behind it; without digits it is 0. */
  function Exponent(s: string): (r: (int, string))
    ensures |r.1| <= |s|
  {
    if Starts(s, 'e') || Starts(s, 'E') then
      var t := s[1..];
      var (k, rest) := Digits(0.0, if Starts(t, '+') || Starts(t, '-') then t[1..] else t);
      (if Starts(t, '-') then -k.Floor else k.Floor, rest)
    else (0, s)
  }

  /** The digits as a number, with its sign and its power of ten. */
  function Scaled(negative: bool, m: real, e: int): real {
    (if negative then -m else m) * Pow10(e)
  }

  function ParseNumber(s: string): (r: Parsed<Json>)
    requires Starts(s, '-') || StartsDigit(s)
    ensures r.Got? && |r.rest| < |s|
  {
    var (n, s1) := IntegerPart(if s[0] == '-' then s[1..] else s);
    var (m, s2) := if HasFraction(s1) then Digits(n, s1[1..]) else (n, s1);
    var scale := if HasFraction(s1) then |s2| - |s1| + 1 else 0;
    var (e, s3) := Exponent(s2);
    Got(Number(Scaled(s[0] == '-', m, scale + e)), s3)
  }

  /** A number put together from its three parts. */
  lemma NumberParts(s: string, whole: (real, string), digits: (real, string), scale: int, exponent: (int, string))
    requires Starts(s, '-') || StartsDigit(s)
    requires whole == IntegerPart(if s[0] == '-' then s[1..] else s)
    requires digits == if HasFraction(whole.1) then Digits(whole.0, whole.1[1..]) else whole
    requires exponent == Exponent(digits.1)
    requires scale == if HasFraction(whole.1) then |digits.1| - |whole.1| + 1 else 0
    ensures ParseNumber(s) == Got(Number(Scaled(s[0] == '-', digits.0, scale + exponent.0)), exponent.1)
  {
    hide Digits, IntegerPart, Exponent, Scaled, Pow10;
  }

  /** Four hexadecimal digits; anything else among them makes it 0. */
  function Hex4(s: string): (n: nat)
    ensures n < 0x10000
  {
    if |s| < 4 || HexValue(s[0]) < 0 || HexValue(s[1]) < 0 || HexValue(s[2]) < 0 || HexValue(s[3]) < 0 then 0
    else ((HexValue(s[0]) * 16 + HexValue(s[1])) * 16 + HexValue(s[2])) * 16 + HexValue(s[3])
  }

  /** Section 3 of RFC 3629. */
  function Utf8(u: nat): string
    requires u < 0x110000
  {
    if u < 0x80 then [u as char]
    else if u < 0x800 then [(0xC0 + u / 64) as char, (0x80 + u % 64) as char]
    else if u < 0x10000 then [(0xE0 + u / 4096) as char, (0x80 + u / 64 % 64) as char, (0x80 + u % 64) as char]
    else [(0xF0 + u / 262144) as char, (0x80 + u / 4096 % 64) as char, (0x80 + u / 64 % 64) as char,
          (0x80 + u % 64) as char]
  }

  predicate HighSurrogate(u: nat) { 0xD800 <= u < 0xDC00 }

  predicate LowSurrogate(u: nat) { 0xDC00 <= u < 0xE000 }

  /** What is behind the backslash and the u: the bytes it stands for and the text behind it; None
      when the digits would reach over the end. */
  function Unicode(s: string): (r: Option<(string, string)>)
    ensures r.Some? ==> |r.value.1| <= |s|
  {
    if |s| < 4 then None
    else
      var u, t := Hex4(s), s[4..];
      if u == 0 || LowSurrogate(u) then Some(([], t))
      else if !HighSurrogate(u) then Some((Utf8(u), t))
      else if !("\\u" <= t) then Some(([], t))
      else if |t| < 6 then None
      else Some((SecondHalf(u, Hex4(t[2..])), t[6..]))
  }

  /** What two halves of a surrogate pair stand for; nothing if the second is none. */
  function SecondHalf(u: nat, low: nat): string
    requires HighSurrogate(u)
  {
    if LowSurrogate(low) then Utf8(0x10000 + (u - 0xD800) * 0x400 + (low - 0xDC00)) else []
  }

  /** What is behind a backslash. */
  function Unescape(s: string): (r: Option<(string, string)>)
    ensures r.Some? ==> |r.value.1| <= |s|
  {
    if s == [] then None
    else match s[0]
      case 'b' => Some(([8 as char], s[1..]))
      case 'f' => Some(([12 as char], s[1..]))
      case 'n' => Some(("\n", s[1..]))
      case 'r' => Some(("\r", s[1..]))
      case 't' => Some(("\t", s[1..]))
      case 'u' => Unicode(s[1..])
      case c => Some(([c], s[1..]))
  }

  /** One character of a literal, or what its escape stands for. */
  function Character(s: string): (r: Option<(string, string)>)
    requires s != []
    ensures r.Some? ==> |r.value.1| < |s|
  {
    if s[0] == '\\' then Unescape(s[1..]) else Some(([s[0]], s[1..]))
  }

  function Before(c: string, r: Option<(string, string)>): Option<(string, string)> {
    match r case None => None case Some(l) => Some((c + l.0, l.1))
  }

  /** What is behind the opening quote, up to the closing one or the end of the text. */
  function Characters(s: string): (r: Option<(string, string)>)
    ensures r.Some? ==> |r.value.1| <= |s|
    decreases |s|
  {
    if s == [] then Some(([], []))
    else if s[0] == '"' then Some(([], s[1..]))
    else match Character(s) case None => None case Some(c) => Before(c.0, Characters(c.1))
  }

  function Plus(n: nat, r: Option<nat>): Option<nat> {
    match r case None => None case Some(k) => Some(n + k)
  }

  /** The length the source computes first, from what is behind the opening quote: it counts an
      escape as one, and the digits of a \u one by one. */
  function Measure(s: string): Option<nat>
    decreases |s|
  {
    if s == [] || s[0] == '"' then Some(0)
    else if s[0] != '\\' then Plus(1, Measure(s[1..]))
    else if |s| == 1 then None
    else Plus(1, Measure(s[2..]))
  }

  function ParseString(s: string): (r: Parsed<string>)
    ensures r.Got? ==> |r.rest| < |s|
  {
    if !Starts(s, '"') then Fail
    else
      var len, read := Measure(s[1..]), Characters(s[1..]);
      if len.Some? && read.Some? && |read.value.0| <= len.value then Got(read.value.0, read.value.1) else Lost
  }

  function ParseValue(s: string): (r: Parsed<Json>)
    ensures r.Got? ==> |r.rest| < |s|
    decreases |s|, 1
  {
    if "null" <= s then Got(Null, s[4..])
    else if "false" <= s then Got(False, s[5..])
    else if "true" <= s then Got(True, s[4..])
    else if Starts(s, '"') then
      match ParseString(s) case Fail => Fail case Lost => Lost case Got(t, rest) => Got(Text(t), rest)
    else if Starts(s, '-') || StartsDigit(s) then ParseNumber(s)
    else if Starts(s, '[') then ParseArray(s)
    else if Starts(s, '{') then ParseObject(s)
    else Fail
  }

  function ParseArray(s: string): (r: Parsed<Json>)
    requires Starts(s, '[')
    ensures r.Got? ==> |r.rest| < |s|
    decreases |s|, 0
  {
    var t := Skip(s[1..]);
    if Starts(t, ']') then Got(Array([]), t[1..])
    else match ParseItems(t) case Fail => Fail case Lost => Lost case Got(vs, rest) => Got(Array(vs), rest)
  }

  function ParseObject(s: string): (r: Parsed<Json>)
    requires Starts(s, '{')
    ensures r.Got? ==> |r.rest| < |s|
    decreases |s|, 0
  {
    var t := Skip(s[1..]);
    if Starts(t, '}') then Got(Object([]), t[1..])
    else match ParseMembers(t) case Fail => Fail case Lost => Lost case Got(ms, rest) => Got(Object(ms), rest)
  }

  function Prefixed<T>(xs: seq<T>, r: Parsed<seq<T>>): Parsed<seq<T>> {
    match r case Fail => Fail case Lost => Lost case Got(ys, rest) => Got(xs + ys, rest)
  }

  /** Items up to the closing bracket. */
  function ParseItems(s: string): (r: Parsed<seq<Json>>)
    ensures r.Got? ==> |r.rest| < |s|
    decreases |s|, 2
  {
    match ParseValue(Skip(s))
    case Fail => Fail
    case Lost => Lost
    case Got(v, after) => Prefixed([v], MoreItems(Skip(after)))
  }

  /** What may stand behind an item. */
  function MoreItems(s: string): (r: Parsed<seq<Json>>)
    ensures r.Got? ==> |r.rest| < |s|
    decreases |s|, 0
  {
    if Starts(s, ',') then ParseItems(s[1..]) else if Starts(s, ']') then Got([], s[1..]) else Fail
  }

  function ParseMember(s: string): (r: Parsed<Member>)
    ensures r.Got? ==> |r.rest| < |s|
    decreases |s|, 2
  {
    match ParseString(Skip(s))
    case Fail => Fail
    case Lost => Lost
    case Got(name, after) =>
      var t := Skip(after);
      if !Starts(t, ':') then Fail
      else match ParseValue(Skip(t[1..]))
        case Fail => Fail
        case Lost => Lost
        case Got(v, rest) => Got(Member(name, v), rest)
  }

  /** Members up to the closing brace. */
  function ParseMembers(s: string): (r: Parsed<seq<Member>>)
    ensures r.Got? ==> |r.rest| < |s|
    decreases |s|, 3
  {
    match ParseMember(s)
    case Fail => Fail
    case Lost => Lost
    case Got(m, after) => Prefixed([m], MoreMembers(Skip(after)))
  }

  /** What may stand behind a member. */
  function MoreMembers(s: string): (r: Parsed<seq<Member>>)
    ensures r.Got? ==> |r.rest| < |s|
    decreases |s|, 0
  {
    if Starts(s, ',') then ParseMembers(s[1..]) else if Starts(s, '}') then Got([], s[1..]) else Fail
  }

  /** A whole text: spaces are allowed in front. */
  function Parse(s: string): Parsed<Json> {
    ParseValue(Skip(s))
  }
}
