/** What the printed text looks like: one tree in both layouts, and how a value is moved in by a level. */
module JsonLayout {
  import opened Common
  import opened JsonSpec
  import opened JsonRoundTrip
  import opened JsonMinify

  /** Every line but the first moved in by a tab. */
  function Indented(s: string): string {
    if s == "" then "" else (if s[0] == '\n' then "\n\t" else [s[0]]) + Indented(s[1..])
  }

  lemma {:induction false} IndentedBoth(s: string, t: string)
    ensures Indented(s + t) == Indented(s) + Indented(t)
    decreases |s|
  {
    if s == "" {
      assert s + t == t && "" + Indented(t) == Indented(t) && Indented("") == "";
    } else {
      hide Indented;
      IndentedNext(s);
      IndentedNext(s + t);
      IndentedBoth(s[1..], t);
      assert (s + t)[1..] == s[1..] + t && (s + t)[0] == s[0];
      Regroup(if s[0] == '\n' then "\n\t" else [s[0]], Indented(s[1..]), Indented(t));
    }
  }

  lemma Regroup(x: string, y: string, z: string)
    ensures x + (y + z) == x + y + z
  {
  }

  lemma IndentedNext(s: string)
    requires s != ""
    ensures Indented(s) == (if s[0] == '\n' then "\n\t" else [s[0]]) + Indented(s[1..])
  {
  }

  lemma {:induction false} OneLine(s: string)
    requires '\n' !in s
    ensures Indented(s) == s
  {
    if s != "" {
      assert s[0] in s && forall c :: c in s[1..] ==> c in s;
      OneLine(s[1..]);
    }
  }

  lemma LineOf(n: nat)
    ensures Indented("\n" + Tabs(n)) == "\n" + Tabs(n + 1)
  {
    IndentedBoth("\n", Tabs(n));
    OneLine(Tabs(n));
    assert "\n"[1..] == "" && Indented("\n") == "\n\t";
    assert "\n\t" + Tabs(n) == "\n" + Tabs(n + 1);
  }

  lemma {:induction false} EscapedLine(s: string)
    ensures '\n' !in EscapedAll(s)
  {
    if s != [] {
      EscapedLine(s[1..]);
      EscapedChar(s[0]);
    }
  }

  lemma EscapedChar(c: char)
    ensures '\n' !in Escaped(c)
  {
  }

  lemma QuotedLine(s: string)
    ensures Indented(Quoted(s)) == Quoted(s)
  {
    EscapedLine(s);
    OneLine(Quoted(s));
  }

  lemma NumberLine(n: int)
    ensures Indented(Signed(n)) == Signed(n)
  {
    PlainSigned(n);
    OneLine(Signed(n));
  }

  /** A value one level deeper has its lines moved in by one tab. (At the outermost level a brace by
      itself stands as far left as one level deeper.) */
  lemma {:induction false} Deeper(v: Json, depth: nat)
    requires Printable(v) && depth > 0
    ensures Print(v, depth + 1, true) == Indented(Print(v, depth, true))
    decreases v, 0
  {
    hide Indented, Quoted, Signed, PrintItems, PrintMembers, Tabs;
    match v
    case Null => OneLine("null");
    case False => OneLine("false");
    case True => OneLine("true");
    case Number(r) => NumberLine(r.Floor);
    case Text(s) => QuotedLine(s);
    case Array(items) =>
      if items == [] {
        OneLine("[]");
      } else {
        DeeperItems(items, depth + 1);
        Around("[", PrintItems(items, depth + 1, true), "]");
      }
    case Object(members) => DeeperObject(members, depth);
  }

  lemma Around(open: string, s: string, close: string)
    requires '\n' !in open && '\n' !in close
    ensures Indented(open + (s + close)) == open + (Indented(s) + close)
  {
    IndentedBoth(s, close);
    IndentedBoth(open, s + close);
    OneLine(open);
    OneLine(close);
  }

  lemma {:induction false} DeeperItems(items: seq<Json>, depth: nat)
    requires items != [] && Printable(Array(items)) && depth > 0
    ensures PrintItems(items, depth + 1, true) == Indented(PrintItems(items, depth, true))
    decreases items, 1
  {
    hide Indented, Print, Printable;
    FirstPrintable(items);
    Deeper(items[0], depth);
    if |items| == 1 {
      assert PrintItems(items, depth, true) == Print(items[0], depth, true) + [];
      assert Print(items[0], depth, true) + [] == Print(items[0], depth, true);
      assert PrintItems(items, depth + 1, true) == Print(items[0], depth + 1, true);
    } else {
      var first, others := Print(items[0], depth, true), PrintItems(items[1..], depth, true);
      DeeperItems(items[1..], depth);
      IndentedBoth(first, "," + (" " + others));
      assert "," + (" " + others) == ", " + others;
      IndentedBoth(", ", others);
      OneLine(", ");
      assert PrintItems(items, depth + 1, true)
          == Print(items[0], depth + 1, true) + ("," + (" " + PrintItems(items[1..], depth + 1, true)));
      assert "," + (" " + PrintItems(items[1..], depth + 1, true)) == ", " + PrintItems(items[1..], depth + 1, true);
    }
  }

  lemma TabMore(n: nat)
    ensures "\t" + Tabs(n) == Tabs(n + 1)
  {
  }

  lemma DeeperObject(members: seq<Member>, depth: nat)
    requires Printable(Object(members)) && depth > 0
    ensures PrintObject(members, depth + 1, true) == Indented(PrintObject(members, depth, true))
    decreases members, 2
  {
    hide Indented, PrintMembers, Tabs;
    if members == [] {
      LineOf(depth - 1);
      Around("{", "\n" + Tabs(depth - 1), "}");
    } else {
      var long := PrintMembers(members, depth + 1, true);
      DeeperMembers(members, depth + 1);
      OneLineTabs(depth);
      var end := Tabs(depth) + "}";
      OneLine("}");
      IndentedBoth(Tabs(depth), "}");
      IndentedBoth("\n" + long, end);
      OneLine("{");
      IndentedBoth("{", "\n" + long + end);
      assert PrintObject(members, depth, true) == "{" + ("\n" + long + end);
      TabMore(depth);
      var deep := PrintMembers(members, depth + 2, true);
      assert "{" + (("\n" + deep + "\t") + end) == "{" + ("\n" + (deep + (("\t" + Tabs(depth)) + "}")));
    }
  }

  lemma OneLineTabs(n: nat)
    ensures Indented(Tabs(n)) == Tabs(n)
  {
    OneLine(Tabs(n));
  }

  /** Every member stands on a line of its own. */
  lemma {:induction false} DeeperMembers(members: seq<Member>, depth: nat)
    requires members != [] && Printable(Object(members)) && depth > 0
    ensures Indented("\n" + PrintMembers(members, depth, true)) == "\n" + PrintMembers(members, depth + 1, true) + "\t"
    decreases members, 1
  {
    hide Indented, PrintMember, Printable, PrintableMember, PrintMembers;
    FirstMemberPrintable(members);
    DeeperMember(members[0], depth);
    var first, deep := PrintMember(members[0], depth, true), PrintMember(members[0], depth + 1, true);
    if |members| == 1 {
      OnlyMember(members, depth);
      OnlyMember(members, depth + 1);
      assert "\n" + (first + "\n") == ("\n" + first) + "\n";
      IndentedBoth("\n" + first, "\n");
      NewLine();
    } else {
      var others, deeper := PrintMembers(members[1..], depth, true), PrintMembers(members[1..], depth + 1, true);
      DeeperMembers(members[1..], depth);
      MembersUnfold(members, depth);
      MembersUnfold(members, depth + 1);
      assert "\n" + (first + ("," + ("\n" + others))) == ("\n" + first) + ("," + ("\n" + others));
      IndentedBoth("\n" + first, "," + ("\n" + others));
      IndentedBoth(",", "\n" + others);
      OneLine(",");
      assert "\n" + deep + ("," + ("\n" + deeper + "\t")) == "\n" + (deep + ("," + ("\n" + deeper))) + "\t";
    }
  }

  lemma NewLine()
    ensures Indented("\n") == "\n\t"
  {
    assert "\n"[1..] == "";
  }

  lemma OnlyMember(members: seq<Member>, depth: nat)
    requires |members| == 1 && Printable(Object(members))
    ensures PrintableMember(members[0])
    ensures PrintMembers(members, depth, true) == PrintMember(members[0], depth, true) + "\n"
  {
    hide PrintMember;
  }

  lemma MembersUnfold(members: seq<Member>, depth: nat)
    requires |members| > 1 && Printable(Object(members))
    ensures PrintableMember(members[0]) && Printable(Object(members[1..]))
    ensures PrintMembers(members, depth, true)
         == PrintMember(members[0], depth, true) + ("," + ("\n" + PrintMembers(members[1..], depth, true)))
  {
    hide PrintMember;
  }

  lemma DeeperMember(m: Member, depth: nat)
    requires PrintableMember(m) && depth > 0
    ensures Indented("\n" + PrintMember(m, depth, true)) == "\n" + PrintMember(m, depth + 1, true)
    decreases m, 1
  {
    hide Indented, Print, Printable, Quoted, Tabs;
    var value := Print(m.value, depth, true);
    Deeper(m.value, depth);
    LineOf(depth);
    QuotedLine(m.name);
    OneLine(":\t");
    IndentedBoth(":\t", value);
    IndentedBoth(Quoted(m.name), ":\t" + value);
    IndentedBoth("\n" + Tabs(depth), Quoted(m.name) + (":\t" + value));
    MemberText(m, depth);
    MemberText(m, depth + 1);
  }

  lemma MemberText(m: Member, depth: nat)
    requires PrintableMember(m)
    ensures "\n" + PrintMember(m, depth, true)
            == ("\n" + Tabs(depth)) + (Quoted(m.name) + (":\t" + Print(m.value, depth, true)))
  {
    hide Print, Printable, Quoted, Tabs;
    assert ":" + ("\t" + Print(m.value, depth, true)) == ":\t" + Print(m.value, depth, true);
  }

  // ---------------------------------------------------------------------------- at the top

  /** Items stand on one line, behind commas and in the formatted layout spaces. */
  lemma TwoItems(v: Json, w: Json)
    requires Printable(v) && Printable(w)
    ensures Print(Array([]), 0, true) == "[]" == Print(Array([]), 0, false)
    ensures Print(Array([v, w]), 0, true) == "[" + Print(v, 1, true) + ", " + Print(w, 1, true) + "]"
    ensures Print(Array([v, w]), 0, false) == "[" + Print(v, 1, false) + "," + Print(w, 1, false) + "]"
  {
    TwoItemsInside(v, w, true);
    TwoItemsInside(v, w, false);
    hide Printable, PrintItems;
    ArrayAround(Array([]), true);
    ArrayAround(Array([]), false);
    ArrayAround(Array([v, w]), true);
    ArrayAround(Array([v, w]), false);
    hide *;
    ItemsFlat(Print(v, 1, true), ", ", Print(w, 1, true));
    ItemsFlat(Print(v, 1, false), ",", Print(w, 1, false));
  }

  lemma ItemsFlat(x: string, sep: string, y: string)
    ensures "[" + ((x + (sep + y)) + "]") == "[" + x + sep + y + "]"
  {
  }

  lemma ArrayAround(v: Json, fmt: bool)
    requires v.Array? && Printable(v)
    ensures Print(v, 0, fmt) == if v.items == [] then "[]" else "[" + (PrintItems(v.items, 1, fmt) + "]")
  {
    hide PrintItems;
  }

  lemma TwoItemsInside(v: Json, w: Json, fmt: bool)
    requires Printable(v) && Printable(w)
    ensures PrintItems([v, w], 1, fmt) == Print(v, 1, fmt) + ((if fmt then ", " else ",") + Print(w, 1, fmt))
  {
    hide Print, Printable;
    assert [v, w][1..] == [w];
    assert PrintItems([w], 1, fmt) == Print(w, 1, fmt) + [];
  }

  /** Members stand on lines of their own, a tab in front of each and one behind each colon; in the compact
      layout there is none of this. */
  lemma TwoMembers(a: string, v: Json, b: string, w: Json)
    requires NulFree(a) && NulFree(b) && Printable(v) && Printable(w)
    ensures Print(Object([]), 0, true) == "{\n}" && Print(Object([]), 0, false) == "{}"
    ensures Print(Object([Member(a, v), Member(b, w)]), 0, true)
            == "{\n\t" + Quoted(a) + ":\t" + Print(v, 1, true) + ",\n\t" + Quoted(b) + ":\t" + Print(w, 1, true) + "\n}"
    ensures Print(Object([Member(a, v), Member(b, w)]), 0, false)
            == "{" + Quoted(a) + ":" + Print(v, 1, false) + "," + Quoted(b) + ":" + Print(w, 1, false) + "}"
  {
    var m, n := Member(a, v), Member(b, w);
    assert Print(Object([]), 0, true) == PrintObject([], 0, true);
    assert Print(Object([]), 0, false) == PrintObject([], 0, false);
    assert Print(Object([m, n]), 0, true) == PrintObject([m, n], 0, true);
    assert Print(Object([m, n]), 0, false) == PrintObject([m, n], 0, false);
    assert PrintableMember(m) && PrintableMember(n);
    hide Print, Printable, Quoted, PrintableMember, NulFree;
    TwoMembersFormatted(m, n);
    TwoMembersCompact(m, n);
  }

  lemma TwoMembersFormatted(m: Member, n: Member)
    requires PrintableMember(m) && PrintableMember(n)
    ensures PrintObject([], 0, true) == "{\n}"
    ensures PrintObject([m, n], 0, true)
            == "{\n\t" + Quoted(m.name) + ":\t" + Print(m.value, 1, true) + ",\n\t" + Quoted(n.name) + ":\t"
               + Print(n.value, 1, true) + "\n}"
  {
    MemberText(m, 1);
    MemberText(n, 1);
    TwoMembersInside(m, n, true);
    assert Tabs(1) == "\t" && Tabs(0) == "";
    ObjectAround([], true);
    ObjectAround([m, n], true);
    hide *;
    FormattedJoined(PrintMember(m, 1, true), PrintMember(n, 1, true));
    FormattedFlat(Quoted(m.name), Print(m.value, 1, true), Quoted(n.name), Print(n.value, 1, true));
  }

  lemma ObjectAround(members: seq<Member>, fmt: bool)
    requires Printable(Object(members))
    ensures PrintObject(members, 0, fmt)
            == if members == [] then (if fmt then "{\n}" else "{}")
               else if fmt then "{" + ("\n" + (PrintMembers(members, 1, fmt) + "}"))
               else "{" + (PrintMembers(members, 1, fmt) + "}")
  {
    hide PrintMembers;
    assert Tabs(0) == "" && Tabs(-1) == "";
    if members != [] {
      var t := PrintMembers(members, 1, fmt);
      assert t + ("" + "}") == t + "}" && "" + (t + "}") == t + "}";
    }
  }

  lemma FormattedJoined(x: string, y: string)
    ensures "{" + ("\n" + ((x + ("," + ("\n" + (y + "\n")))) + "}"))
         == "{" + (("\n" + x) + ("," + (("\n" + y) + "\n}")))
  {
    assert "\n" + (y + "\n") + "}" == ("\n" + y) + "\n}";
  }

  lemma FormattedFlat(a: string, x: string, b: string, y: string)
    ensures "{" + ((("\n" + "\t") + (a + (":\t" + x))) + ("," + ((("\n" + "\t") + (b + (":\t" + y))) + "\n}")))
            == "{\n\t" + a + ":\t" + x + ",\n\t" + b + ":\t" + y + "\n}"
  {
    var p, q := "{\n\t" + a + ":\t" + x, ",\n\t" + b + ":\t" + y;
    assert "{" + (("\n" + "\t") + (a + (":\t" + x))) == p;
    assert "," + (("\n" + "\t") + (b + (":\t" + y))) == q;
    FlatAll(p, ",\n\t", b, ":\t", y, "\n}");
    FlatTwice((("\n" + "\t") + (a + (":\t" + x))), (("\n" + "\t") + (b + (":\t" + y))));
  }

  lemma FlatAll(p: string, a: string, b: string, c: string, d: string, e: string)
    ensures p + (a + b + c + d + e) == p + a + b + c + d + e
  {
  }

  lemma FlatTwice(x: string, y: string)
    ensures "{" + (x + ("," + (y + "\n}"))) == "{" + x + ("," + y + "\n}")
    ensures "{" + (x + ("," + (y + "}"))) == "{" + x + ("," + y + "}")
  {
  }

  lemma TwoMembersInside(m: Member, n: Member, fmt: bool)
    requires PrintableMember(m) && PrintableMember(n)
    ensures PrintMembers([m, n], 1, fmt)
            == PrintMember(m, 1, fmt)
               + ("," + ((if fmt then "\n" else "") + (PrintMember(n, 1, fmt) + if fmt then "\n" else "")))
  {
    hide PrintMember, PrintableMember;
    assert [m, n][1..] == [n];
    assert PrintMembers([n], 1, fmt) == PrintMember(n, 1, fmt) + Only(fmt, "\n");
  }

  lemma TwoMembersCompact(m: Member, n: Member)
    requires PrintableMember(m) && PrintableMember(n)
    ensures PrintObject([], 0, false) == "{}"
    ensures PrintObject([m, n], 0, false)
            == "{" + Quoted(m.name) + ":" + Print(m.value, 1, false) + "," + Quoted(n.name) + ":"
               + Print(n.value, 1, false) + "}"
  {
    TwoMembersInside(m, n, false);
    CompactMember(m);
    CompactMember(n);
    ObjectAround([], false);
    ObjectAround([m, n], false);
    hide *;
    CompactJoined(PrintMember(m, 1, false), PrintMember(n, 1, false));
    CompactFlat(Quoted(m.name), Print(m.value, 1, false), Quoted(n.name), Print(n.value, 1, false));
  }

  lemma CompactJoined(x: string, y: string)
    ensures "{" + ((x + ("," + ("" + (y + "")))) + "}") == "{" + (x + ("," + (y + "}")))
  {
  }

  lemma CompactFlat(a: string, x: string, b: string, y: string)
    ensures "{" + ((a + (":" + x)) + ("," + ((b + (":" + y)) + "}"))) == "{" + a + ":" + x + "," + b + ":" + y + "}"
  {
    var p := "{" + a + ":" + x;
    assert "{" + (a + (":" + x)) == p;
    assert "," + (b + (":" + y)) == "," + b + ":" + y;
    FlatAll(p, ",", b, ":", y, "}");
    FlatTwice(a + (":" + x), b + (":" + y));
  }

  lemma CompactMember(m: Member)
    requires PrintableMember(m)
    ensures PrintMember(m, 1, false) == Quoted(m.name) + (":" + Print(m.value, 1, false))
  {
    hide Print, Printable, Quoted, NulFree, Tabs;
  }
}
