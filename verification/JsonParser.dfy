/** The cJSON parser: a cursor that moves over the text and nodes that are filled in as it goes.
    Where the source's cursor would step over the terminator the parser stops, astray. */
module JsonParser {
  import opened Common
  import opened JsonSpec
  import opened JsonItem

  lemma PeekStarts(text: string, at: nat, c: char)
    requires at <= |text| && c != '\0'
    ensures (Peek(text, at) == c) == Starts(text[at..], c)
  {
  }

  /** What a parsing function comes back with: null, a position, or nothing the source defines. */
  datatype Stop = Failed | Astray | At(i: nat)

  method SkipBlanks(text: string, at: nat) returns (i: nat)
    requires at <= |text|
    ensures at <= i <= |text| && text[i..] == Skip(text[at..])
  {
    i := at;
    while i < |text| && text[i] <= ' '
      invariant at <= i <= |text| && Skip(text[i..]) == Skip(text[at..])
    {
      assert text[i..][1..] == text[i + 1..];
      i := i + 1;
    }
  }

  // ------------------------------------------------------------------------------- numbers

  method ReadDigits(text: string, at: nat, n0: real) returns (n: real, i: nat)
    requires at <= |text|
    ensures at <= i <= |text| && (n, text[i..]) == Digits(n0, text[at..])
  {
    n, i := n0, at;
    while i < |text| && IsDigit(text[i])
      invariant at <= i <= |text| && Digits(n, text[i..]) == Digits(n0, text[at..])
    {
      assert text[i..][1..] == text[i + 1..];
      n := n * 10.0 + DigitValue(text[i]) as real;
      i := i + 1;
    }
  }

  method ReadInteger(text: string, at: nat) returns (n: real, i: nat)
    requires at <= |text|
    ensures at <= i <= |text| && (n, text[i..]) == IntegerPart(text[at..])
  {
    hide Digits;
    n, i := 0.0, at;
    if Peek(text, i) == '0' {
      assert text[i..][1..] == text[i + 1..];
      i := i + 1;
    }
    if '1' <= Peek(text, i) <= '9' {
      n, i := ReadDigits(text, i, 0.0);
    }
  }

  method ReadExponent(text: string, at: nat) returns (e: int, i: nat)
    requires at <= |text|
    ensures at <= i <= |text| && (e, text[i..]) == Exponent(text[at..])
  {
    hide Digits;
    e, i := 0, at;
    if Peek(text, i) == 'e' || Peek(text, i) == 'E' {
      assert text[i..][1..] == text[i + 1..];
      i := i + 1;
      var sign := 1;
      assert i < |text| ==> text[i..][1..] == text[i + 1..];
      if Peek(text, i) == '+' {
        i := i + 1;
      } else if Peek(text, i) == '-' {
        sign := -1;
        i := i + 1;
      }
      var n;
      n, i := ReadDigits(text, i, 0.0);
      e := sign * n.Floor;
    }
  }

  method ParseNumberAt(item: Node, text: string, at: nat) returns (end: nat)
    requires at <= |text| && (Starts(text[at..], '-') || StartsDigit(text[at..]))
    modifies item`kind, item`valuedouble
    ensures at <= end <= |text| && ParseNumber(text[at..]) == Got(Number(item.valuedouble), text[end..])
    ensures item.kind.IsNumber?
  {
    hide Digits, IntegerPart, Exponent, Pow10, Scaled;
    var i, sign := at, 1.0;
    assert text[at..][1..] == text[at + 1..];
    if text[i] == '-' {
      sign := -1.0;
      i := i + 1;
    }
    var n, scale, e;
    n, i := ReadInteger(text, i);
    ghost var whole := (n, text[i..]);
    n, scale, i := ReadFraction(text, i, n);
    e, end := ReadExponent(text, i);
    Signs(sign, n, scale + e);
    assert (sign != 1.0) == (text[at..][0] == '-');
    NumberParts(text[at..], whole, (n, text[i..]), scale, (e, text[end..]));
    assert sign * n * Pow10(scale + e) == Scaled(text[at..][0] == '-', n, scale + e);
    item.valuedouble := sign * n * Pow10(scale + e);
    item.kind := IsNumber;
  }

  lemma Signs(sign: real, n: real, e: int)
    requires sign == 1.0 || sign == -1.0
    ensures sign * n * Pow10(e) == Scaled(sign != 1.0, n, e)
  {
    assert sign * n == if sign == 1.0 then n else -n;
  }

  method ReadFraction(text: string, at: nat, n0: real) returns (n: real, scale: int, i: nat)
    requires at <= |text|
    ensures at <= i <= |text| && scale == if HasFraction(text[at..]) then at + 1 - i else 0
    ensures (n, text[i..]) == if HasFraction(text[at..]) then Digits(n0, text[at..][1..]) else (n0, text[at..])
  {
    n, scale, i := n0, 0, at;
    if Peek(text, i) == '.' && IsDigit(Peek(text, i + 1)) {
      assert text[i..][1..] == text[i + 1..];
      n, i := ReadDigits(text, i + 1, n);
      scale := at + 1 - i;
    }
  }

  // ------------------------------------------------------------------------------- strings

  method ParseHex4(text: string, at: nat) returns (h: nat)
    requires at <= |text|
    ensures h == Hex4(text[at..])
  {
    hide HexValue;
    NoHexAtEnd();
    var d := HexValue(Peek(text, at));
    if d < 0 { return 0; }
    h := d * 16;
    d := HexValue(Peek(text, at + 1));
    if d < 0 { return 0; }
    h := (h + d) * 16;
    d := HexValue(Peek(text, at + 2));
    if d < 0 { return 0; }
    h := (h + d) * 16;
    d := HexValue(Peek(text, at + 3));
    if d < 0 { return 0; }
    h := h + d;
  }

  lemma NoHexAtEnd()
    ensures HexValue('\0') < 0
  {
  }

  /** The bytes are written from the last to the first. */
  method EncodeUtf8(u: nat) returns (bytes: string)
    requires u < 0x110000
    ensures bytes == Utf8(u)
  {
    assert u / 64 / 64 == u / 4096 && u / 4096 / 64 == u / 262144;
    var uc := u;
    var len := 4;
    if uc < 0x80 {
      len := 1;
    } else if uc < 0x800 {
      len := 2;
    } else if uc < 0x10000 {
      len := 3;
    }
    bytes := [];
    if len >= 4 {
      bytes := [(0x80 + uc % 64) as char] + bytes;
      uc := uc / 64;
    }
    if len >= 3 {
      bytes := [(0x80 + uc % 64) as char] + bytes;
      uc := uc / 64;
    }
    if len >= 2 {
      bytes := [(0x80 + uc % 64) as char] + bytes;
      uc := uc / 64;
    }
    var mark := if len == 4 then 0xF0 else if len == 3 then 0xE0 else if len == 2 then 0xC0 else 0;
    bytes := [(mark + uc) as char] + bytes;
  }

  /** A \u escape; the cursor is on the u. */
  method ReadUnicode(text: string, at: nat) returns (bytes: string, i: nat, inside: bool)
    requires at < |text|
    ensures inside == Unicode(text[at + 1..]).Some?
    ensures inside ==> at < i <= |text| && Unicode(text[at + 1..]) == Some((bytes, text[i..]))
  {
    hide Hex4, Utf8;
    var uc := ParseHex4(text, at + 1);
    i := at + 5;
    if i > |text| {
      return [], i, false;
    }
    if 0xDC00 <= uc <= 0xDFFF || uc == 0 {
      return [], i, true;
    }
    if 0xD800 <= uc <= 0xDBFF {
      if Peek(text, i) != '\\' || Peek(text, i + 1) != 'u' {
        return [], i, true;
      }
      assert text[i..][2..] == text[i + 2..];
      var uc2 := ParseHex4(text, i + 2);
      i := i + 6;
      if i > |text| {
        return [], i, false;
      }
      if uc2 < 0xDC00 || uc2 > 0xDFFF {
        return [], i, true;
      }
      uc := 0x10000 + (uc - 0xD800) * 0x400 + (uc2 - 0xDC00);
    }
    inside := true;
    bytes := EncodeUtf8(uc);
  }

  /** What is behind a backslash. */
  method ReadEscape(text: string, at: nat) returns (bytes: string, i: nat, inside: bool)
    requires at <= |text|
    ensures inside == Unescape(text[at..]).Some?
    ensures inside ==> at <= i <= |text| && Unescape(text[at..]) == Some((bytes, text[i..]))
  {
    hide Unicode;
    if at == |text| {
      return [], at, false;
    }
    assert text[at..][1..] == text[at + 1..];
    i, inside := at + 1, true;
    match text[at]
    case 'b' => bytes := [8 as char];
    case 'f' => bytes := [12 as char];
    case 'n' => bytes := "\n";
    case 'r' => bytes := "\r";
    case 't' => bytes := "\t";
    case 'u' => bytes, i, inside := ReadUnicode(text, at);
    case c => bytes := [c];
  }

  /** One character, or what its escape stands for. */
  method ReadCharacter(text: string, i: nat) returns (piece: string, next: nat, inside: bool)
    requires i < |text| && text[i] != '"'
    ensures inside ==> i < next <= |text| && Characters(text[i..]) == Before(piece, Characters(text[next..]))
    ensures !inside ==> Characters(text[i..]).None?
  {
    hide Unescape;
    assert text[i..][1..] == text[i + 1..];
    if text[i] == '\\' {
      piece, next, inside := ReadEscape(text, i + 1);
    } else {
      piece, next, inside := [text[i]], i + 1, true;
    }
  }

  /** The length of the literal behind an opening quote. */
  method MeasureAt(text: string, at: nat) returns (len: nat, inside: bool)
    requires at <= |text|
    ensures inside == Measure(text[at..]).Some? && (inside ==> Measure(text[at..]) == Some(len))
  {
    var i := at;
    len := 0;
    while i < |text| && text[i] != '"'
      invariant at <= i <= |text| && Measure(text[at..]) == Plus(len, Measure(text[i..]))
    {
      len := len + 1;
      assert text[i..][1..] == text[i + 1..];
      if text[i] == '\\' {
        i := i + 1;
        if i == |text| {
          return len, false;
        }
        assert text[i - 1..][2..] == text[i + 1..];
      }
      i := i + 1;
    }
    inside := true;
  }

  lemma BeforeBoth(x: string, y: string, r: Option<(string, string)>)
    ensures Before(x, Before(y, r)) == Before(x + y, r)
  {
    if r.Some? {
      assert x + (y + r.value.0) == x + y + r.value.0;
    }
  }

  lemma BeforeNothing(r: Option<(string, string)>)
    ensures Before([], r) == r
  {
    if r.Some? {
      assert [] + r.value.0 == r.value.0;
    }
  }

  /** Characters up to the closing quote or the end. */
  method ReadCharacters(text: string, at: nat) returns (out: string, i: nat, inside: bool)
    requires at <= |text|
    ensures inside == Characters(text[at..]).Some?
    ensures inside ==>
              && at <= i <= |text| && (i < |text| ==> text[i] == '"')
              && Characters(text[at..]) == Some((out, if i < |text| then text[i + 1..] else []))
  {
    hide Characters;
    ghost var s := text[at..];
    i, out := at, "";
    BeforeNothing(Characters(s));
    while i < |text| && text[i] != '"'
      invariant at <= i <= |text| && Characters(s) == Before(out, Characters(text[i..]))
      decreases |text| - i
    {
      var piece, next, there := ReadCharacter(text, i);
      if !there {
        return out, next, false;
      }
      BeforeBoth(out, piece, Characters(text[next..]));
      out := out + piece;
      i := next;
    }
    CharactersEnd(text, i);
    assert out + [] == out;
    inside := true;
  }

  method ParseStringAt(item: Node, text: string, at: nat) returns (end: Stop)
    requires at <= |text|
    modifies item`kind, item`valuestring
    ensures var p := ParseString(text[at..]);
      && (end.Failed? <==> p.Fail?) && (end.Astray? <==> p.Lost?)
      && (end.At? ==>
            && at < end.i <= |text| && text[end.i..] == p.rest
            && item.valuestring == p.value && item.kind.IsString?)
  {
    hide Characters, Measure;
    if Peek(text, at) != '"' {
      return Failed;
    }
    assert text[at..][1..] == text[at + 1..];
    var len, inside := MeasureAt(text, at + 1);
    if !inside {
      return Astray;
    }
    var out, i;
    out, i, inside := ReadCharacters(text, at + 1);
    if !inside || |out| > len {
      return Astray;
    }
    if i < |text| {
      i := i + 1;
    } else {
      assert text[i..] == [];
    }
    item.valuestring := out;
    item.kind := IsString;
    end := At(i);
  }

  lemma CharactersEnd(text: string, i: nat)
    requires i <= |text| && (i < |text| ==> text[i] == '"')
    ensures Characters(text[i..]) == Some(([], if i < |text| then text[i + 1..] else []))
  {
    assert i < |text| ==> text[i..][1..] == text[i + 1..];
    assert i == |text| ==> text[i..] == [];
  }

  // --------------------------------------------------------------------------------- values

  /** The node and the cursor are what the parsed text says. */
  ghost predicate Agrees(item: Node, p: Parsed<Json>, text: string, end: Stop)
    reads item, item.below
  {
    match p
    case Fail => end.Failed?
    case Lost => end.Astray?
    case Got(v, rest) => end.At? && end.i <= |text| && text[end.i..] == rest && item.Holds(v)
  }

  ghost predicate HoldsItems(item: Node, vs: seq<Json>)
    reads item, item.below
  {
    && |item.children| == |vs|
    && forall k :: 0 <= k < |vs| ==> item.HasChild(k) && item.children[k].Holds(vs[k])
  }

  ghost predicate HoldsMembers(item: Node, ms: seq<Member>)
    reads item, item.below
  {
    && |item.children| == |ms|
    && forall k :: 0 <= k < |ms| ==>
         item.HasChild(k) && item.children[k].name == ms[k].name && item.children[k].Holds(ms[k].value)
  }

  method ParseValueAt(item: Node, text: string, at: nat) returns (end: Stop)
    requires at <= |text| && item.children == [] && item.below == {}
    modifies item
    ensures Agrees(item, ParseValue(text[at..]), text, end)
    ensures fresh(item.below) && item.name == old(item.name)
    decreases |text| - at, 1
  {
    hide ParseString, ParseNumber, ParseArray, ParseObject;
    ghost var s := text[at..];
    if "null" <= text[at..] {
      item.kind := IsNull;
      assert s[4..] == text[at + 4..];
      return At(at + 4);
    }
    if "false" <= text[at..] {
      item.kind := IsFalse;
      assert s[5..] == text[at + 5..];
      return At(at + 5);
    }
    if "true" <= text[at..] {
      item.kind := IsTrue;
      assert s[4..] == text[at + 4..];
      return At(at + 4);
    }
    var c := Peek(text, at);
    if c == '"' {
      end := ParseStringAt(item, text, at);
      return;
    }
    if c == '-' || '0' <= c <= '9' {
      var next := ParseNumberAt(item, text, at);
      return At(next);
    }
    if c == '[' {
      end := ParseArrayAt(item, text, at);
      return;
    }
    if c == '{' {
      end := ParseObjectAt(item, text, at);
      return;
    }
    end := Failed;
  }

  /** The chain has one more item, and the cursor is on what follows it. */
  ghost predicate Added(item: Node, p: Parsed<Json>, text: string, vs: seq<Json>, next: Stop)
    reads item, item.below
  {
    match p
    case Fail => next.Failed?
    case Lost => next.Astray?
    case Got(v, rest) =>
      next.At? && next.i <= |text| && text[next.i..] == Skip(rest) && HoldsItems(item, vs + [v])
  }

  /** A new node at the end of the chain, filled from the text. */
  method AddItem(item: Node, text: string, at: nat, ghost vs: seq<Json>) returns (next: Stop)
    requires at <= |text| && HoldsItems(item, vs) && item !in item.below
    modifies item`children, item`below
    ensures fresh(item.below - old(item.below)) && item !in item.below
    ensures Added(item, ParseValue(Skip(text[at..])), text, vs, next)
    decreases |text| - at, 2
  {
    hide Skip, ParseValue;
    var child := new Node();
    var i := SkipBlanks(text, at);
    var end := ParseValueAt(child, text, i);
    item.children := item.children + [child];
    item.below := item.below + {child} + child.below;
    if !end.At? {
      return end;
    }
    i := SkipBlanks(text, end.i);
    next := At(i);
  }

  lemma PrefixedBoth<T>(xs: seq<T>, x: T, r: Parsed<seq<T>>)
    ensures Prefixed(xs, Prefixed([x], r)) == Prefixed(xs + [x], r)
  {
    if r.Got? {
      assert xs + ([x] + r.value) == xs + [x] + r.value;
    }
  }

  lemma PrefixedNothing<T>(r: Parsed<seq<T>>)
    ensures Prefixed([], r) == r
  {
    if r.Got? {
      assert [] + r.value == r.value;
    }
  }

  /** The items from here on: the one here, and what may stand behind it. */
  lemma ItemsFrom(s: string, vs: seq<Json>)
    ensures var p := ParseValue(Skip(s));
      Prefixed(vs, ParseItems(s))
      == if p.Fail? then Fail else if p.Lost? then Lost else Prefixed(vs + [p.value], MoreItems(Skip(p.rest)))
  {
    hide Skip, ParseValue, MoreItems;
    var p := ParseValue(Skip(s));
    if p.Got? {
      PrefixedBoth(vs, p.value, MoreItems(Skip(p.rest)));
    }
  }

  lemma MoreFrom(text: string, i: nat)
    requires i <= |text|
    ensures MoreItems(text[i..])
         == if Peek(text, i) == ',' then ParseItems(text[i + 1..])
            else if Peek(text, i) == ']' then Got([], text[i + 1..]) else Fail
    ensures MoreMembers(text[i..])
         == if Peek(text, i) == ',' then ParseMembers(text[i + 1..])
            else if Peek(text, i) == '}' then Got([], text[i + 1..]) else Fail
  {
    hide ParseItems, ParseMembers;
    assert i < |text| ==> text[i..][1..] == text[i + 1..];
  }

  method ParseArrayAt(item: Node, text: string, at: nat) returns (end: Stop)
    requires at <= |text| && Starts(text[at..], '[') && item.children == [] && item.below == {}
    modifies item
    ensures Agrees(item, ParseArray(text[at..]), text, end)
    ensures fresh(item.below) && item.name == old(item.name)
    decreases |text| - at, 0
  {
    hide Skip, ParseItems;
    assert text[at..][1..] == text[at + 1..];
    item.kind := IsArray;
    var i := SkipBlanks(text, at + 1);
    PeekStarts(text, i, ']');
    if Peek(text, i) == ']' {
      assert text[i..][1..] == text[i + 1..];
      return At(i + 1);
    }
    end := ParseItemsAt(item, text, i);
  }

  /** The items of an array, the cursor being behind the bracket and any spaces. */
  method ParseItemsAt(item: Node, text: string, at: nat) returns (end: Stop)
    requires at <= |text| && item.children == [] && item.below == {} && item.kind.IsArray?
    modifies item`children, item`below
    ensures var p := ParseItems(text[at..]);
      Agrees(item, if p.Fail? then Fail else if p.Lost? then Lost else Got(Array(p.value), p.rest), text, end)
    ensures fresh(item.below)
    decreases |text| - at, 3
  {
    hide Skip, ParseValue, ParseItems, MoreItems, Node.Holds;
    ghost var s, vs := text[at..], [];
    PrefixedNothing(ParseItems(s));
    ItemsFrom(s, vs);
    var next := AddItem(item, text, at, vs);
    if !next.At? {
      return next;
    }
    vs := vs + [ParseValue(Skip(s)).value];
    var i := next.i;
    while Peek(text, i) == ','
      invariant at < i <= |text| && fresh(item.below) && item !in item.below
      invariant HoldsItems(item, vs) && ParseItems(s) == Prefixed(vs, MoreItems(text[i..]))
      decreases |text| - i
    {
      MoreFrom(text, i);
      ItemsFrom(text[i + 1..], vs);
      next := AddItem(item, text, i + 1, vs);
      if !next.At? {
        return next;
      }
      vs := vs + [ParseValue(Skip(text[i + 1..])).value];
      i := next.i;
    }
    MoreFrom(text, i);
    if Peek(text, i) == ']' {
      assert vs + [] == vs;
      HoldsArray(item, vs);
      return At(i + 1);
    }
    end := Failed;
  }

  lemma HoldsArray(item: Node, vs: seq<Json>)
    requires item.kind.IsArray? && HoldsItems(item, vs)
    ensures item.Holds(Array(vs))
  {
  }

  // --------------------------------------------------------------------------------- objects

  ghost predicate AddedMember(item: Node, p: Parsed<Member>, text: string, ms: seq<Member>, next: Stop)
    reads item, item.below
  {
    match p
    case Fail => next.Failed?
    case Lost => next.Astray?
    case Got(m, rest) =>
      next.At? && next.i <= |text| && text[next.i..] == Skip(rest) && HoldsMembers(item, ms + [m])
  }

  /** The name is read as a string and moved, then the value is read into the same node. */
  method FillMember(child: Node, text: string, at: nat) returns (end: Stop)
    requires at <= |text| && child.children == [] && child.below == {}
    modifies child
    ensures var p := ParseMember(text[at..]);
      Agrees(child, if p.Fail? then Fail else if p.Lost? then Lost else Got(p.value.value, p.rest), text, end)
      && (p.Got? ==> child.name == p.value.name)
    ensures fresh(child.below)
    decreases |text| - at, 2
  {
    hide Skip, ParseString, ParseValue, Node.Holds;
    var i := SkipBlanks(text, at);
    end := ParseStringAt(child, text, i);
    if !end.At? {
      return;
    }
    i := SkipBlanks(text, end.i);
    child.name := child.valuestring;
    child.valuestring := [];
    PeekStarts(text, i, ':');
    if Peek(text, i) != ':' {
      return Failed;
    }
    assert text[i..][1..] == text[i + 1..];
    i := SkipBlanks(text, i + 1);
    end := ParseValueAt(child, text, i);
  }

  method AddMember(item: Node, text: string, at: nat, ghost ms: seq<Member>) returns (next: Stop)
    requires at <= |text| && HoldsMembers(item, ms) && item !in item.below
    modifies item`children, item`below
    ensures fresh(item.below - old(item.below)) && item !in item.below
    ensures AddedMember(item, ParseMember(text[at..]), text, ms, next)
    decreases |text| - at, 3
  {
    hide Skip, ParseMember;
    var child := new Node();
    var end := FillMember(child, text, at);
    item.children := item.children + [child];
    item.below := item.below + {child} + child.below;
    if !end.At? {
      return end;
    }
    var i := SkipBlanks(text, end.i);
    next := At(i);
  }

  lemma MembersFrom(s: string, ms: seq<Member>)
    ensures var p := ParseMember(s);
      Prefixed(ms, ParseMembers(s))
      == if p.Fail? then Fail else if p.Lost? then Lost else Prefixed(ms + [p.value], MoreMembers(Skip(p.rest)))
  {
    hide Skip, ParseMember, MoreMembers;
    var p := ParseMember(s);
    if p.Got? {
      PrefixedBoth(ms, p.value, MoreMembers(Skip(p.rest)));
    }
  }

  method ParseObjectAt(item: Node, text: string, at: nat) returns (end: Stop)
    requires at <= |text| && Starts(text[at..], '{') && item.children == [] && item.below == {}
    modifies item
    ensures Agrees(item, ParseObject(text[at..]), text, end)
    ensures fresh(item.below) && item.name == old(item.name)
    decreases |text| - at, 0
  {
    hide Skip, ParseMembers;
    assert text[at..][1..] == text[at + 1..];
    item.kind := IsObject;
    var i := SkipBlanks(text, at + 1);
    PeekStarts(text, i, '}');
    if Peek(text, i) == '}' {
      assert text[i..][1..] == text[i + 1..];
      return At(i + 1);
    }
    end := ParseMembersAt(item, text, i);
  }

  method ParseMembersAt(item: Node, text: string, at: nat) returns (end: Stop)
    requires at <= |text| && item.children == [] && item.below == {} && item.kind.IsObject?
    modifies item`children, item`below
    ensures var p := ParseMembers(text[at..]);
      Agrees(item, if p.Fail? then Fail else if p.Lost? then Lost else Got(Object(p.value), p.rest), text, end)
    ensures fresh(item.below)
    decreases |text| - at, 4
  {
    hide Skip, ParseMember, ParseMembers, MoreMembers, Node.Holds;
    ghost var s, ms := text[at..], [];
    PrefixedNothing(ParseMembers(s));
    MembersFrom(s, ms);
    var next := AddMember(item, text, at, ms);
    if !next.At? {
      return next;
    }
    ms := ms + [ParseMember(s).value];
    var i := next.i;
    while Peek(text, i) == ','
      invariant at < i <= |text| && fresh(item.below) && item !in item.below
      invariant HoldsMembers(item, ms) && ParseMembers(s) == Prefixed(ms, MoreMembers(text[i..]))
      decreases |text| - i
    {
      MoreFrom(text, i);
      MembersFrom(text[i + 1..], ms);
      next := AddMember(item, text, i + 1, ms);
      if !next.At? {
        return next;
      }
      ms := ms + [ParseMember(text[i + 1..]).value];
      i := next.i;
    }
    MoreFrom(text, i);
    if Peek(text, i) == '}' {
      assert ms + [] == ms;
      HoldsObject(item, ms);
      return At(i + 1);
    }
    end := Failed;
  }

  lemma HoldsObject(item: Node, ms: seq<Member>)
    requires item.kind.IsObject? && HoldsMembers(item, ms)
    ensures item.Holds(Object(ms))
  {
  }

  /** A whole text becomes a new node, or null; the cursor stays inside it or not. */
  method ParseText(text: string) returns (c: Node?, end: nat, inside: bool)
    ensures inside <==> !Parse(text).Lost?
    ensures c == null <==> !Parse(text).Got?
    ensures c != null ==>
              && fresh(c) && fresh(c.below) && c.Holds(Parse(text).value)
              && end <= |text| && text[end..] == Parse(text).rest
  {
    hide Skip, ParseValue, Node.Holds;
    var item := new Node();
    var i := SkipBlanks(text, 0);
    assert text[0..] == text;
    var stop := ParseValueAt(item, text, i);
    if !stop.At? {
      return null, 0, stop.Failed?;
    }
    return item, stop.i, true;
  }
}
