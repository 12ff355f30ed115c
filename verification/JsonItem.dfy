/** The cJSON node, and the functions that render one into a buffer of the size they computed. */
module JsonItem {
  import opened Common
  import opened JsonSpec

  datatype Kind = IsFalse | IsTrue | IsNull | IsNumber | IsString | IsArray | IsObject

  /** A node; its chain of children is a sequence. */
  class Node {
    var kind: Kind
    var valuestring: string
    var valuedouble: real
    var name: string
    var children: seq<Node>
    /** The nodes below this one. */
    ghost var below: set<Node>

    constructor ()
      ensures children == [] && below == {}
    {
      kind, valuestring, valuedouble, name, children, below := IsFalse, [], 0.0, [], [], {};
    }

    /** The tree with this node at its root is v. */
    ghost predicate Holds(v: Json)
      reads this, below
      decreases v
    {
      match v
      case Null => kind.IsNull?
      case False => kind.IsFalse?
      case True => kind.IsTrue?
      case Number(r) => kind.IsNumber? && valuedouble == r
      case Text(s) => kind.IsString? && valuestring == s
      case Array(items) =>
        && kind.IsArray? && |children| == |items|
        && forall k :: 0 <= k < |items| ==> HasChild(k) && children[k].Holds(items[k])
      case Object(members) =>
        && kind.IsObject? && |children| == |members|
        && forall k :: 0 <= k < |members| ==>
             HasChild(k) && children[k].name == members[k].name && children[k].Holds(members[k].value)
    }

    ghost predicate HasChild(k: nat)
      requires k < |children|
      reads this, below
    {
      children[k] in below && children[k].below <= below
    }
  }

  // --------------------------------------------------------------------- writing into a buffer

  /** What is written so far is what was written before and s. */
  method Put(out: array<char>, at: nat, s: string) returns (next: nat)
    requires at + |s| <= out.Length
    modifies out
    ensures next == at + |s| && out[..next] == old(out[..at]) + s
  {
    next := at;
    for k := 0 to |s|
      invariant next == at + k && out[..next] == old(out[..at]) + s[..k]
    {
      out[next] := s[k];
      next := next + 1;
      assert out[..next] == old(out[..at]) + (s[..k] + [s[k]]);
      assert s[..k] + [s[k]] == s[..k + 1];
    }
    assert s[..|s|] == s;
  }

  lemma EscapedStep(s: string, i: nat)
    requires i < |s|
    ensures EscapedAll(s[i..]) == Escaped(s[i]) + EscapedAll(s[i + 1..])
  {
    assert s[i..][1..] == s[i + 1..];
  }

  /** How long the escaped text is. */
  method EscapedLength(str: string) returns (len: nat)
    ensures len == |EscapedAll(str)|
  {
    len := 0;
    for i := 0 to |str|
      invariant len + |EscapedAll(str[i..])| == |EscapedAll(str)|
    {
      hide EscapedAll;
      EscapedStep(str, i);
      var token := str[i];
      len := len + 1;
      if token in "\"\\\n\r\t" || token == 8 as char || token == 12 as char {
        len := len + 1;
      } else if token < 32 as char {
        len := len + 5;
      }
    }
  }

  method PutEscaped(out: array<char>, at: nat, token: char) returns (next: nat)
    requires at + |Escaped(token)| <= out.Length
    modifies out
    ensures next == at + |Escaped(token)| && out[..next] == old(out[..at]) + Escaped(token)
  {
    if token > 31 as char && token != '"' && token != '\\' {
      next := Put(out, at, [token]);
      return;
    }
    match token as int
    case 92 => next := Put(out, at, "\\\\");
    case 34 => next := Put(out, at, "\\\"");
    case 8 => next := Put(out, at, "\\b");
    case 12 => next := Put(out, at, "\\f");
    case 10 => next := Put(out, at, "\\n");
    case 13 => next := Put(out, at, "\\r");
    case 9 => next := Put(out, at, "\\t");
    case _ => next := Put(out, at, "\\u00" + [HexDigit(token as int / 16), HexDigit(token as int % 16)]);
  }

  /** The buffer holds exactly the escaped text, its quotes and the terminator. */
  method PrintString(str: string) returns (r: string)
    ensures r == Quoted(str)
  {
    hide EscapedAll, Escaped;
    var len := EscapedLength(str);
    var out := new char[len + 3];
    var at := Put(out, 0, "\"");
    assert str[0..] == str && out[..0] == [];
    for i := 0 to |str|
      invariant 0 <= at <= 1 + len && at + |EscapedAll(str[i..])| == 1 + len
      invariant out[..at] + EscapedAll(str[i..]) == "\"" + EscapedAll(str)
    {
      EscapedStep(str, i);
      ghost var before, piece, rest := out[..at], Escaped(str[i]), EscapedAll(str[i + 1..]);
      at := PutEscaped(out, at, str[i]);
      assert before + piece + rest == before + (piece + rest);
    }
    assert str[|str|..] == [];
    EscapedNothing();
    assert out[..at] == "\"" + EscapedAll(str);
    at := Put(out, at, "\"");
    r := out[..at];
    out[at] := '\0';
    assert at + 1 == out.Length;
  }

  lemma EscapedNothing()
    ensures EscapedAll([]) == []
  {
  }

  // ------------------------------------------------------------------------------- rendering

  method PrintValue(item: Node, depth: nat, fmt: bool, ghost v: Json) returns (out: string)
    requires item.Holds(v) && Printable(v)
    ensures out == Print(v, depth, fmt)
    decreases v, 0
  {
    hide PrintArray, PrintObject;
    match item.kind
    case IsNull => out := "null";
    case IsFalse => out := "false";
    case IsTrue => out := "true";
    case IsNumber => out := Signed(item.valuedouble.Floor);
    case IsString => out := PrintString(item.valuestring);
    case IsArray => out := RenderArray(item, depth, fmt, v.items);
    case IsObject => out := RenderObject(item, depth, fmt, v.members);
  }

  method RenderItem(item: Node, i: nat, depth: nat, fmt: bool, ghost items: seq<Json>) returns (entry: string)
    requires item.Holds(Array(items)) && Printable(Array(items)) && i < |items|
    ensures entry == Print(items[i], depth, fmt)
    decreases items, 1
  {
    hide Print;
    entry := PrintValue(item.children[i], depth, fmt, items[i]);
  }

  /** Every entry is rendered first, then they are put together in a buffer that is long enough. */
  method RenderArray(item: Node, depth: nat, fmt: bool, ghost items: seq<Json>) returns (r: string)
    requires item.Holds(Array(items)) && Printable(Array(items))
    ensures r == PrintArray(items, depth, fmt)
    decreases items, 2
  {
    var n := |item.children|;
    if n == 0 {
      return "[]";
    }
    var entries := new string[n];
    var len := 5;
    ghost var more := 2 + if fmt then 1 else 0;
    hide Print, Room, Joined, PrintItems, Node.Holds;
    assert entries[..0] == [];
    RoomNothing(more);
    for i := 0 to n
      invariant forall k :: 0 <= k < i ==> entries[k] == Print(items[k], depth + 1, fmt)
      invariant len == 5 + Room(entries[..i], more)
    {
      ghost var before := entries[..i];
      entries[i] := RenderItem(item, i, depth + 1, fmt, items);
      assert entries[..i + 1] == before + [entries[i]];
      RoomAppend(before, entries[i], more);
      len := len + |entries[i]| + 2 + if fmt then 1 else 0;
    }
    assert entries[..n] == entries[..];
    r := ComposeArray(entries, len, fmt);
    JoinedItems(items, depth + 1, fmt, entries[..]);
  }

  lemma RoomNothing(more: nat)
    ensures Room([], more) == 0
  {
  }

  /** The room for a list of strings with so much more for each. */
  function Room(entries: seq<string>, more: nat): nat {
    if entries == [] then 0 else |entries[0]| + more + Room(entries[1..], more)
  }

  lemma {:induction false} RoomAppend(entries: seq<string>, s: string, more: nat)
    ensures Room(entries + [s], more) == Room(entries, more) + |s| + more
  {
    if entries == [] {
      assert entries + [s] == [s] && [s][1..] == [];
    } else {
      RoomAppend(entries[1..], s, more);
      assert (entries + [s])[1..] == entries[1..] + [s];
    }
  }

  /** Rendered entries with what stands between them. */
  function Joined(entries: seq<string>, fmt: bool): string
    requires entries != []
  {
    entries[0] + if |entries| == 1 then [] else "," + (Only(fmt, " ") + Joined(entries[1..], fmt))
  }

  lemma {:induction false} JoinedItems(items: seq<Json>, depth: nat, fmt: bool, entries: seq<string>)
    requires items != [] && |items| == |entries| && Printable(Array(items))
    requires forall k :: 0 <= k < |items| ==> entries[k] == Print(items[k], depth, fmt)
    ensures PrintItems(items, depth, fmt) == Joined(entries, fmt)
    decreases |items|
  {
    hide Print;
    if |items| > 1 {
      JoinedItems(items[1..], depth, fmt, entries[1..]);
    }
  }

  method PutEntry(out: array<char>, at: nat, entry: string, last: bool, fmt: bool) returns (next: nat)
    requires at + |entry| + 2 <= out.Length
    modifies out
    ensures next <= at + |entry| + (if fmt then 2 else 1) && next <= out.Length
    ensures out[..next] == old(out[..at]) + (entry + if last then [] else "," + Only(fmt, " "))
  {
    ghost var before := out[..at];
    next := Put(out, at, entry);
    if !last {
      next := Put(out, next, ",");
      if fmt {
        next := Put(out, next, " ");
      }
      assert before + entry + "," + Only(fmt, " ") == before + (entry + ("," + Only(fmt, " ")));
    } else {
      assert entry + [] == entry;
    }
  }

  method ComposeArray(entries: array<string>, len: nat, fmt: bool) returns (r: string)
    requires entries.Length > 0 && len == 5 + Room(entries[..], 2 + if fmt then 1 else 0)
    ensures r == "[" + (Joined(entries[..], fmt) + "]")
  {
    var n := entries.Length;
    var out := new char[len];
    var at := Put(out, 0, "[");
    ghost var more := 2 + if fmt then 1 else 0;
    ghost var all := entries[..];
    assert all[0..] == all && out[..0] == [];
    hide Joined, Room;
    ghost var rest := Joined(all, fmt);
    for i := 0 to n
      invariant 0 <= at && at + Room(all[i..], more) + 2 <= len && entries[..] == all
      invariant rest == if i < n then Joined(all[i..], fmt) else []
      invariant out[..at] + rest == "[" + Joined(all, fmt)
    {
      RoomStep(all, i, more);
      JoinedStep(all, i, fmt);
      ghost var before, was := out[..at], rest;
      at := PutEntry(out, at, entries[i], i == n - 1, fmt);
      rest := if i < n - 1 then Joined(all[i + 1..], fmt) else [];
      EntryGlue(before, all[i], Only(fmt, " "), rest);
    }
    assert out[..at] + [] == out[..at];
    at := Put(out, at, "]");
    r := out[..at];
    out[at] := '\0';
    assert "[" + all[0] + "]" == "[" + (all[0] + "]");
    assert "[" + Joined(all, fmt) + "]" == "[" + (Joined(all, fmt) + "]");
  }

  lemma EntryGlue(a: string, b: string, c: string, d: string)
    ensures a + (b + ("," + (c + d))) == a + (b + ("," + c)) + d
    ensures a + (b + []) + [] == a + b == a + (b + [])
  {
    assert a + (b + ("," + (c + d))) == a + (b + ("," + c)) + d;
    assert b + [] == b && a + b + [] == a + b;
  }

  lemma JoinedStep(all: seq<string>, i: nat, fmt: bool)
    requires i < |all|
    ensures Joined(all[i..], fmt)
         == all[i] + if i == |all| - 1 then [] else "," + (Only(fmt, " ") + Joined(all[i + 1..], fmt))
  {
    assert all[i..][1..] == all[i + 1..];
  }

  lemma RoomStep(all: seq<string>, i: nat, more: nat)
    requires i < |all|
    ensures Room(all[i..], more) == |all[i]| + more + Room(all[i + 1..], more)
  {
    assert all[i..][1..] == all[i + 1..];
  }

  method PutTabs(out: array<char>, at: nat, n: int) returns (next: nat)
    requires at + |Tabs(n)| <= out.Length
    modifies out
    ensures next == at + |Tabs(n)| && out[..next] == old(out[..at]) + Tabs(n)
  {
    next := at;
    var j := 0;
    while j < n
      invariant 0 <= j <= |Tabs(n)| && next == at + j && out[..next] == old(out[..at]) + Tabs(n)[..j]
    {
      out[next] := '\t';
      next := next + 1;
      assert Tabs(n)[..j + 1] == Tabs(n)[..j] + ['\t'];
      j := j + 1;
    }
    assert Tabs(n)[..j] == Tabs(n);
  }

  /** Rendered members, one line each. */
  function Line(name: string, entry: string, depth: nat, fmt: bool): string {
    Only(fmt, Tabs(depth)) + (name + (":" + (Only(fmt, "\t") + entry)))
  }

  function Lines(names: seq<string>, entries: seq<string>, depth: nat, fmt: bool): string
    requires entries != [] && |names| == |entries|
  {
    Line(names[0], entries[0], depth, fmt) +
    if |entries| == 1 then Only(fmt, "\n") else "," + (Only(fmt, "\n") + Lines(names[1..], entries[1..], depth, fmt))
  }

  /** Names and entries, for the room they take together. */
  function Pairs(names: seq<string>, entries: seq<string>): (pairs: seq<string>)
    requires |names| == |entries|
    ensures |pairs| == |names|
  {
    seq(|names|, k requires 0 <= k < |names| => names[k] + entries[k])
  }

  method PutLine(out: array<char>, at: nat, name: string, entry: string, depth: nat, fmt: bool) returns (next: nat)
    requires at + |name| + |entry| + 1 + (if fmt then 1 + depth else 0) <= out.Length
    modifies out
    ensures next == at + |name| + |entry| + 1 + if fmt then 1 + depth else 0
    ensures out[..next] == old(out[..at]) + Line(name, entry, depth, fmt)
  {
    ghost var before := out[..at];
    next := at;
    if fmt {
      next := PutTabs(out, next, depth);
    }
    assert out[..next] == before + Only(fmt, Tabs(depth));
    next := Put(out, next, name);
    next := Put(out, next, ":");
    if fmt {
      next := Put(out, next, "\t");
    }
    next := Put(out, next, entry);
    assert out[..next] == before + Only(fmt, Tabs(depth)) + name + ":" + Only(fmt, "\t") + entry;
    LineGlue(before, Only(fmt, Tabs(depth)), name, Only(fmt, "\t"), entry);
  }

  lemma LineGlue(a: string, b: string, c: string, d: string, e: string)
    ensures a + b + c + ":" + d + e == a + (b + (c + (":" + (d + e))))
  {
  }

  method RenderMember(item: Node, i: nat, depth: nat, fmt: bool, ghost members: seq<Member>)
    returns (name: string, entry: string)
    requires item.Holds(Object(members)) && Printable(Object(members)) && i < |members|
    ensures RenderedMember(members[i], depth, fmt, name, entry)
    decreases members, 0
  {
    hide Print, Quoted;
    name := PrintString(item.children[i].name);
    entry := PrintValue(item.children[i], depth, fmt, members[i].value);
  }

  method RenderObject(item: Node, depth: nat, fmt: bool, ghost members: seq<Member>) returns (r: string)
    requires item.Holds(Object(members)) && Printable(Object(members))
    ensures r == PrintObject(members, depth, fmt)
    decreases members, 2
  {
    var n := |item.children|;
    if n == 0 {
      r := RenderEmpty(depth, fmt);
      return;
    }
    var names, entries := new string[n], new string[n];
    hide Print, Lines, PrintMembers, Node.Holds, Quoted;
    var len := RenderMembers(item, names, entries, depth + 1, fmt, members);
    r := ComposeObject(names, entries, len, depth + 1, fmt);
    LinesMembers(members, depth + 1, fmt, names[..], entries[..]);
  }

  /** Names and values of all members, and the room their lines may take. */
  method RenderMembers(item: Node, names: array<string>, entries: array<string>, depth: nat, fmt: bool,
                       ghost members: seq<Member>)
    returns (len: nat)
    requires item.Holds(Object(members)) && Printable(Object(members))
    requires names != entries && names.Length == entries.Length == |item.children| == |members|
    modifies names, entries
    ensures RenderedUpTo(members, depth, fmt, names[..], entries[..], |members|)
    ensures len == 7 + (if fmt then depth else 0)
                   + Room(Pairs(names[..], entries[..]), 2 + if fmt then 2 + depth else 0)
    decreases members, 1
  {
    hide Print, Room, Node.Holds, Quoted, Pairs;
    var n := names.Length;
    len := 7 + if fmt then depth else 0;
    ghost var more := 2 + if fmt then 2 + depth else 0;
    RoomNothing(more);
    PairsStep(names[..], entries[..], 0);
    for i := 0 to n
      invariant RenderedUpTo(members, depth, fmt, names[..], entries[..], i)
      invariant len == 7 + (if fmt then depth else 0) + Room(Pairs(names[..][..i], entries[..][..i]), more)
    {
      ghost var wasNames, was := names[..], entries[..];
      var name, entry := RenderMember(item, i, depth, fmt, members);
      names[i], entries[i] := name, entry;
      assert names[..] == wasNames[i := name] && entries[..] == was[i := entry];
      PairsStep(names[..], entries[..], i);
      assert names[..][..i] == wasNames[..i] && entries[..][..i] == was[..i];
      RoomAppend(Pairs(wasNames[..i], was[..i]), name + entry, more);
      len := len + |entry| + |name| + 2 + if fmt then 2 + depth else 0;
    }
    assert names[..][..n] == names[..] && entries[..][..n] == entries[..];
  }

  ghost predicate RenderedMember(m: Member, depth: nat, fmt: bool, name: string, entry: string)
    requires PrintableMember(m)
  {
    name == Quoted(m.name) && entry == Print(m.value, depth, fmt)
  }

  ghost predicate RenderedUpTo(members: seq<Member>, depth: nat, fmt: bool, names: seq<string>,
                               entries: seq<string>, i: nat)
    requires forall k :: 0 <= k < |members| ==> PrintableMember(members[k])
  {
    && i <= |members| == |names| == |entries|
    && forall k :: 0 <= k < i ==> RenderedMember(members[k], depth, fmt, names[k], entries[k])
  }

  lemma PairsStep(names: seq<string>, entries: seq<string>, i: nat)
    requires i <= |names| == |entries|
    ensures Pairs(names[..0], entries[..0]) == []
    ensures i < |names| ==>
              Pairs(names[..i + 1], entries[..i + 1]) == Pairs(names[..i], entries[..i]) + [names[i] + entries[i]]
  {
  }

  method RenderEmpty(depth: nat, fmt: bool) returns (r: string)
    ensures r == "{" + (Only(fmt, "\n" + Tabs(depth - 1)) + "}")
  {
    var out := new char[if fmt then depth + 4 else 3];
    var at := Put(out, 0, "{");
    if fmt {
      at := Put(out, at, "\n");
      at := PutTabs(out, at, depth - 1);
    }
    at := Put(out, at, "}");
    r := out[..at];
    out[at] := '\0';
  }

  lemma {:induction false} LinesMembers(members: seq<Member>, depth: nat, fmt: bool, names: seq<string>,
                                        entries: seq<string>)
    requires members != [] && Printable(Object(members))
    requires RenderedUpTo(members, depth, fmt, names, entries, |members|)
    ensures PrintMembers(members, depth, fmt) == Lines(names, entries, depth, fmt)
    decreases |members|
  {
    hide Print, Quoted;
    assert RenderedMember(members[0], depth, fmt, names[0], entries[0]);
    if |members| > 1 {
      LinesMembers(members[1..], depth, fmt, names[1..], entries[1..]);
    }
  }

  method PutMember(out: array<char>, at: nat, name: string, entry: string, last: bool, depth: nat, fmt: bool)
    returns (next: nat)
    requires at + |name| + |entry| + 2 + (if fmt then 2 + depth else 0) <= out.Length
    modifies out
    ensures next <= at + |name| + |entry| + 2 + if fmt then 2 + depth else 0
    ensures out[..next]
         == old(out[..at]) + (Line(name, entry, depth, fmt) + ((if last then [] else ",") + Only(fmt, "\n")))
  {
    hide Line;
    ghost var before, line := out[..at], Line(name, entry, depth, fmt);
    next := PutLine(out, at, name, entry, depth, fmt);
    if !last {
      next := Put(out, next, ",");
    }
    assert out[..next] == before + line + if last then [] else ",";
    if fmt {
      next := Put(out, next, "\n");
    }
    assert out[..next] == before + line + (if last then [] else ",") + Only(fmt, "\n");
    ThreeGlue(before, line, if last then [] else ",", Only(fmt, "\n"));
  }

  lemma ThreeGlue(a: string, b: string, c: string, d: string)
    ensures a + b + c + d == a + (b + (c + d))
  {
  }

  method ComposeObject(names: array<string>, entries: array<string>, len: nat, depth: nat, fmt: bool)
    returns (r: string)
    requires entries.Length > 0 && names.Length == entries.Length && depth > 0
    requires len == 7 + (if fmt then depth else 0)
                    + Room(Pairs(names[..], entries[..]), 2 + if fmt then 2 + depth else 0)
    ensures r == "{" + (Only(fmt, "\n") + (Lines(names[..], entries[..], depth, fmt)
                                           + (Only(fmt, Tabs(depth - 1)) + "}")))
  {
    var n := entries.Length;
    ghost var more := 2 + if fmt then 2 + depth else 0;
    ghost var allNames, all := names[..], entries[..];
    ghost var pairs := Pairs(allNames, all);
    hide Lines, Room;
    ghost var rest := Lines(allNames, all, depth, fmt);
    var out := new char[len];
    var at := Put(out, 0, "{");
    if fmt {
      at := Put(out, at, "\n");
    }
    ghost var text := "{" + Only(fmt, "\n") + rest;
    assert allNames[0..] == allNames && all[0..] == all && pairs[0..] == pairs && out[..at] == "{" + Only(fmt, "\n");
    for i := 0 to n
      invariant 0 <= at && at + Room(pairs[i..], more) + (if fmt then depth else 0) + 5 <= len
      invariant names[..] == allNames && entries[..] == all
      invariant rest == if i < n then Lines(allNames[i..], all[i..], depth, fmt) else []
      invariant out[..at] + rest == text
    {
      LinesStep(allNames, all, i, depth, fmt);
      RoomStep(pairs, i, more);
      ghost var before := out[..at];
      at := PutMember(out, at, names[i], entries[i], i == n - 1, depth, fmt);
      rest := if i < n - 1 then Lines(allNames[i + 1..], all[i + 1..], depth, fmt) else [];
      LinesGlue(before, Line(allNames[i], all[i], depth, fmt), Only(fmt, "\n"), rest);
    }
    assert out[..at] + [] == out[..at];
    r := CloseObject(out, at, depth, fmt);
    CloseGlue(Only(fmt, "\n"), Lines(allNames, all, depth, fmt), Only(fmt, Tabs(depth - 1)));
  }

  method CloseObject(out: array<char>, at: nat, depth: nat, fmt: bool) returns (r: string)
    requires depth > 0 && at + (if fmt then depth else 0) + 5 <= out.Length
    modifies out
    ensures r == old(out[..at]) + Only(fmt, Tabs(depth - 1)) + "}"
  {
    var next := at;
    if fmt {
      next := PutTabs(out, next, depth - 1);
    }
    assert out[..next] == old(out[..at]) + Only(fmt, Tabs(depth - 1));
    next := Put(out, next, "}");
    r := out[..next];
    out[next] := '\0';
  }

  lemma LinesGlue(a: string, b: string, c: string, d: string)
    ensures a + (b + ("," + (c + d))) == a + (b + ("," + c)) + d
    ensures a + (b + ([] + c)) + [] == a + (b + c)
  {
    assert [] + c == c && a + (b + c) + [] == a + (b + c);
    assert a + (b + ("," + (c + d))) == a + (b + ("," + c)) + d;
  }

  lemma CloseGlue(a: string, b: string, c: string)
    ensures "{" + a + b + c + "}" == "{" + (a + (b + (c + "}")))
  {
  }

  lemma LinesStep(names: seq<string>, all: seq<string>, i: nat, depth: nat, fmt: bool)
    requires i < |all| == |names|
    ensures Lines(names[i..], all[i..], depth, fmt)
         == Line(names[i], all[i], depth, fmt)
            + if i == |all| - 1 then Only(fmt, "\n")
              else "," + (Only(fmt, "\n") + Lines(names[i + 1..], all[i + 1..], depth, fmt))
  {
    assert all[i..][1..] == all[i + 1..] && names[i..][1..] == names[i + 1..];
  }
}
