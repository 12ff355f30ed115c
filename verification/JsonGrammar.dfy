/** The texts the parser takes, and what it makes of them: a grammar of whole texts, with spaces wherever
    there may be any, and the parser is that grammar. */
module JsonGrammar {
  import opened Common
  import opened JsonSpec
  import opened JsonRoundTrip
  import opened JsonLiteral
  import opened JsonLocal
  import opened JsonSameTree
  import opened JsonTexts

  /** A value as it is written. */
  datatype Doc =
    | NullDoc
    | FalseDoc
    | TrueDoc
    | NumDoc(num: Num)
    | TextDoc(pieces: seq<Piece>)
    | NoItems(gap: string)
    | Items(items: seq<Item>)
    | NoEntries(gap: string)
    | Entries(entries: seq<Entry>)

  /** An item with the spaces on both its sides. */
  datatype Item = Item(before: string, doc: Doc, after: string)

  /** A member: the spaces in front of its name and behind it, and on both sides of its value. */
  datatype Entry = Entry(before: string, name: seq<Piece>, afterName: string,
                         beforeValue: string, doc: Doc, after: string)

  predicate Good(d: Doc)
    decreases d, 0
  {
    match d
    case NumDoc(x) => GoodNum(x)
    case TextDoc(ps) => GoodPieces(ps)
    case NoItems(gap) => Spaces(gap)
    case Items(items) => items != [] && GoodItems(items)
    case NoEntries(gap) => Spaces(gap)
    case Entries(entries) => entries != [] && GoodEntries(entries)
    case _ => true
  }

  predicate GoodItems(items: seq<Item>)
    decreases items
  {
    items != [] ==> Spaces(items[0].before) && Good(items[0].doc) && Spaces(items[0].after) && GoodItems(items[1..])
  }

  predicate GoodEntries(entries: seq<Entry>)
    decreases entries, 1
  {
    entries != [] ==> GoodEntry(entries[0]) && GoodEntries(entries[1..])
  }

  predicate GoodEntry(e: Entry)
    decreases e
  {
    && Spaces(e.before) && GoodPieces(e.name) && Spaces(e.afterName)
    && Spaces(e.beforeValue) && Good(e.doc) && Spaces(e.after)
  }

  function Spell(d: Doc): string
    decreases d, 0
  {
    match d
    case NullDoc => "null"
    case FalseDoc => "false"
    case TrueDoc => "true"
    case NumDoc(x) => NumText(x)
    case TextDoc(ps) => "\"" + SpelledAll(ps) + "\""
    case NoItems(gap) => "[" + gap + "]"
    case Items(items) => "[" + SpellItems(items)
    case NoEntries(gap) => "{" + gap + "}"
    case Entries(entries) => "{" + SpellEntries(entries)
  }

  /** Items with commas between them, and the bracket. */
  function SpellItems(items: seq<Item>): string
    decreases items
  {
    if items == [] then "]"
    else
      var text := items[0].before + Spell(items[0].doc) + items[0].after;
      if |items| == 1 then text + "]" else text + "," + SpellItems(items[1..])
  }

  function SpellEntry(e: Entry): string
    decreases e
  {
    e.before + ("\"" + SpelledAll(e.name) + "\"") + e.afterName + ":" + e.beforeValue + Spell(e.doc)
  }

  function SpellEntries(entries: seq<Entry>): string
    decreases entries, 1
  {
    if entries == [] then "}"
    else
      var text := SpellEntry(entries[0]) + entries[0].after;
      if |entries| == 1 then text + "}" else text + "," + SpellEntries(entries[1..])
  }

  /** The tree meant. */
  predicate Means(d: Doc, v: Json)
    requires Good(d)
    decreases d, 0
  {
    match d
    case NullDoc => v == Null
    case FalseDoc => v == False
    case TrueDoc => v == True
    case NumDoc(x) => v.Number? && IsValue(x, v.value)
    case TextDoc(ps) => v == Text(PiecesMeaning(ps))
    case NoItems(_) => v == Array([])
    case Items(items) => v.Array? && ItemsMean(items, v.items)
    case NoEntries(_) => v == Object([])
    case Entries(entries) => v.Object? && EntriesMean(entries, v.members)
  }

  predicate ItemsMean(items: seq<Item>, vs: seq<Json>)
    requires GoodItems(items)
    decreases items
  {
    if items == [] then vs == []
    else vs != [] && Means(items[0].doc, vs[0]) && ItemsMean(items[1..], vs[1..])
  }

  predicate EntriesMean(entries: seq<Entry>, ms: seq<Member>)
    requires GoodEntries(entries)
    decreases entries, 1
  {
    if entries == [] then ms == []
    else
      ms != [] && EntryMeans(entries[0], ms[0]) && EntriesMean(entries[1..], ms[1..])
  }

  predicate EntryMeans(e: Entry, m: Member)
    requires GoodEntry(e)
    decreases e
  {
    m.name == PiecesMeaning(e.name) && Means(e.doc, m.value)
  }

  // --------------------------------------------------------------- every such text is parsed

  lemma NumReads(x: Num) returns (r: real)
    requires GoodNum(x)
    ensures IsValue(x, r) && Reads(NumText(x), Number(r))
  {
    hide GoodNum, IsValue, NumText, ParseValue, ParseNumber, EndsNumber;
    NoNumber();
    r := NumRead(x, "");
    assert NumText(x) + "" == NumText(x);
    DigitShown(NumText(x));
    forall y | EndsNumber(y)
      ensures ParseValue(NumText(x) + y) == Got(Number(r), y)
    {
      var q := NumRead(x, y);
      OneValue(x, r, q);
      NumberIsValue(NumText(x) + y);
    }
  }

  lemma DigitShown(s: string)
    requires Starts(s, '-') || StartsDigit(s)
    ensures Shown(s)
  {
  }

  lemma TextReads(ps: seq<Piece>)
    requires GoodPieces(ps)
    ensures var x := "\"" + SpelledAll(ps) + "\"";
      ReadsString(x, PiecesMeaning(ps)) && Reads(x, Text(PiecesMeaning(ps)))
  {
    hide GoodPieces, SpelledAll, PiecesMeaning, ParseString, ParseValue;
    var x := "\"" + SpelledAll(ps) + "\"";
    forall y: string
      ensures ParseString(x + y) == Got(PiecesMeaning(ps), y)
      ensures ParseValue(x + y) == Got(Text(PiecesMeaning(ps)), y)
    {
      LiteralRead(ps, y);
      QuoteIsValue(x + y);
    }
  }

  /** A text of the grammar is read as what it means, whatever follows it. */
  lemma {:induction false} DocRead(d: Doc) returns (v: Json)
    requires Good(d)
    ensures Means(d, v) && Reads(Spell(d), v)
    decreases d, 0
  {
    hide Reads, GoodNum, GoodPieces, IsValue, PiecesMeaning, Spaces, ReadsItems, ReadsMembers;
    match d
    case NullDoc => v := Null; SameWord("null", v, "");
    case FalseDoc => v := False; SameWord("false", v, "");
    case TrueDoc => v := True; SameWord("true", v, "");
    case NumDoc(x) =>
      var r := NumReads(x);
      v := Number(r);
    case TextDoc(ps) =>
      TextReads(ps);
      v := Text(PiecesMeaning(ps));
    case NoItems(gap) =>
      EmptyArray(gap);
      v := Array([]);
    case Items(items) =>
      var vs := ItemsRead(items);
      NoSpaces();
      WholeArray("", SpellItems(items), vs);
      assert "[" + "" + SpellItems(items) == Spell(d);
      v := Array(vs);
    case NoEntries(gap) =>
      EmptyObject(gap);
      v := Object([]);
    case Entries(entries) =>
      var ms := EntriesRead(entries);
      NoSpaces();
      WholeObject("", SpellEntries(entries), ms);
      assert "{" + "" + SpellEntries(entries) == Spell(d);
      v := Object(ms);
  }

  lemma NoSpaces()
    ensures Spaces("")
  {
  }

  lemma {:induction false} ItemsRead(items: seq<Item>) returns (vs: seq<Json>)
    requires items != [] && GoodItems(items)
    ensures ItemsMean(items, vs) && ReadsItems(SpellItems(items), vs)
    decreases items
  {
    hide Reads, Good, Means, Spaces, ReadsItems, Spell;
    var v := DocRead(items[0].doc);
    if |items| == 1 {
      LastItemRead(items[0].before, Spell(items[0].doc), v, items[0].after);
      vs := [v];
      assert items[1..] == [] && vs[1..] == [];
    } else {
      var others := ItemsRead(items[1..]);
      MoreItemsRead(items[0].before, Spell(items[0].doc), v, items[0].after, SpellItems(items[1..]), others);
      vs := [v] + others;
      assert vs[1..] == others;
    }
  }

  lemma EntryRead(e: Entry) returns (m: Member)
    requires GoodEntry(e)
    ensures EntryMeans(e, m) && ReadsMember(SpellEntry(e), m)
    decreases e
  {
    hide Reads, ReadsString, ReadsMember, Good, GoodPieces, Means, Spaces, Spell, PiecesMeaning, SpelledAll;
    TextReads(e.name);
    var v := DocRead(e.doc);
    m := Member(PiecesMeaning(e.name), v);
    MemberRead(e.before, "\"" + SpelledAll(e.name) + "\"", m.name, e.afterName, e.beforeValue, Spell(e.doc), v);
  }

  lemma {:induction false} EntriesRead(entries: seq<Entry>) returns (ms: seq<Member>)
    requires entries != [] && GoodEntries(entries)
    ensures EntriesMean(entries, ms) && ReadsMembers(SpellEntries(entries), ms)
    decreases entries, 1
  {
    hide ReadsMember, ReadsMembers, EntryMeans, Spaces, SpellEntry, Good, GoodPieces;
    var m := EntryRead(entries[0]);
    if |entries| == 1 {
      LastMemberRead(SpellEntry(entries[0]), m, entries[0].after);
      ms := [m];
      assert entries[1..] == [] && ms[1..] == [];
    } else {
      var others := EntriesRead(entries[1..]);
      MoreMembersRead(SpellEntry(entries[0]), m, entries[0].after, SpellEntries(entries[1..]), others);
      ms := [m] + others;
      assert ms[1..] == others;
    }
  }

  // ----------------------------------------------------------- what is parsed is such a text

  lemma {:induction false} SkipTaken(s: string) returns (w: string)
    ensures s == w + Skip(s) && Spaces(w)
    decreases |s|
  {
    w := "";
    if s != [] && s[0] <= ' ' {
      w := SkipTaken(s[1..]);
      w := [s[0]] + w;
    }
  }

  lemma StringOf(s: string) returns (ps: seq<Piece>)
    requires Regular(s) && ParseString(s).Got?
    ensures GoodPieces(ps) && s == "\"" + SpelledAll(ps) + "\"" + ParseString(s).rest
    ensures ParseString(s).value == PiecesMeaning(ps) && Regular(ParseString(s).rest)
  {
    hide GoodPieces, SpelledAll, PiecesMeaning, Tidy;
    KeptString(s);
    assert Tidy(s[1..]);
    var rest;
    ps, rest := PiecesOf(s[1..]);
    LiteralRead(ps, rest);
    assert s == "\"" + s[1..];
    assert "\"" + (SpelledAll(ps) + ("\"" + rest)) == "\"" + SpelledAll(ps) + "\"" + rest;
    hide ParseString;
  }

  lemma {:induction false} DocOf(s: string) returns (d: Doc)
    requires Regular(s) && ParseValue(s).Got?
    ensures Good(d) && s == Spell(d) + ParseValue(s).rest
    decreases |s|, 1
  {
    hide ParseNumber, ParseString, ParseArray, ParseObject, Regular, GoodNum, GoodPieces, NumText, SpelledAll;
    hide GoodItems, GoodEntries, SpellItems, SpellEntries;
    if "null" <= s {
      d := NullDoc;
      assert s == "null" + s[4..];
    } else if "false" <= s {
      d := FalseDoc;
      assert s == "false" + s[5..];
    } else if "true" <= s {
      d := TrueDoc;
      assert s == "true" + s[4..];
    } else if Starts(s, '"') {
      var ps := StringOf(s);
      d := TextDoc(ps);
    } else if Starts(s, '-') || StartsDigit(s) {
      var x := NumOf(s);
      d := NumDoc(x);
    } else if Starts(s, '[') {
      d := ArrayOf(s);
    } else {
      d := ObjectOf(s);
    }
  }

  lemma ArrayOf(s: string) returns (d: Doc)
    requires Regular(s) && Starts(s, '[') && ParseArray(s).Got?
    ensures Good(d) && s == Spell(d) + ParseArray(s).rest
    decreases |s|, 0
  {
    hide Regular, Skip, ParseItems, Spaces;
    assert s == "[" + s[1..];
    KeepTail(s);
    KeptSkip(s[1..]);
    var w := SkipTaken(s[1..]);
    var t := Skip(s[1..]);
    if Starts(t, ']') {
      d := NoItems(w);
      assert t == "]" + t[1..];
    } else {
      var items := ItemsOf(t);
      NoSpaces();
      d := Items(InFront(w, items));
      SpelledInFront(w, items);
    }
  }

  lemma KeepTail(s: string)
    requires Regular(s) && s != [] && s[0] != '"'
    ensures Regular(s[1..])
  {
  }

  function InFront(w: string, items: seq<Item>): seq<Item>
    requires items != []
  {
    [items[0].(before := w + items[0].before)] + items[1..]
  }

  lemma SpelledInFront(w: string, items: seq<Item>)
    requires items != [] && GoodItems(items) && Spaces(w)
    ensures GoodItems(InFront(w, items)) && SpellItems(InFront(w, items)) == w + SpellItems(items)
  {
    hide Good, Spell, SpellItems;
    var item, others := items[0], items[1..];
    assert InFront(w, items)[1..] == others && items == [item] + others;
    FirstItem(item, others);
    FirstItem(item.(before := w + item.before), others);
    Flat5(w, item.before, Spell(item.doc) + (item.after + ItemsTail(others)), "", "", "");
  }

  function ItemsTail(others: seq<Item>): string {
    if others == [] then "]" else "," + SpellItems(others)
  }

  lemma FirstItem(item: Item, others: seq<Item>)
    ensures SpellItems([item] + others) == item.before + (Spell(item.doc) + (item.after + ItemsTail(others)))
  {
    hide Spell;
    assert ([item] + others)[1..] == others;
    Flat5(item.before, Spell(item.doc), item.after, ",", SpellItems(others), "");
    Flat5(item.before, Spell(item.doc), item.after, "]", "", "");
  }

  lemma {:induction false} ItemsOf(s: string) returns (items: seq<Item>)
    requires Regular(s) && ParseItems(s).Got?
    ensures items != [] && GoodItems(items) && s == SpellItems(items) + ParseItems(s).rest
    decreases |s|, 2
  {
    ItemsParts(s);
    hide Regular, Skip, ParseValue, ParseItems, MoreItems, Spaces, Good, Spell;
    var w0 := SkipTaken(s);
    KeptSkip(s);
    var z := Skip(s);
    var d := DocOf(z);
    KeptValue(z);
    var after := ParseValue(z).rest;
    var w1 := SkipTaken(after);
    KeptSkip(after);
    var z2 := Skip(after);
    assert z2 == [z2[0]] + z2[1..];
    var item := Item(w0, d, w1);
    if z2[0] == ',' {
      KeepTail(z2);
      var others := ItemsOf(z2[1..]);
      items := [item] + others;
      assert items[1..] == others;
      Flat5(w0, Spell(d), w1, ",", SpellItems(others), ParseItems(z2[1..]).rest);
    } else {
      items := [item];
      assert items[1..] == [];
      Flat5(w0, Spell(d), w1, "]", "", z2[1..]);
    }
  }

  lemma Flat5(a: string, b: string, c: string, d: string, e: string, rest: string)
    ensures a + (b + (c + (d + (e + rest)))) == a + b + c + d + e + rest
    ensures e == "" ==> a + (b + (c + (d + rest))) == a + b + c + d + rest
  {
    assert e == "" ==> e + rest == rest;
  }

  lemma ObjectOf(s: string) returns (d: Doc)
    requires Regular(s) && Starts(s, '{') && ParseObject(s).Got?
    ensures Good(d) && s == Spell(d) + ParseObject(s).rest
    decreases |s|, 0
  {
    hide Regular, Skip, ParseMembers, Spaces;
    assert s == "{" + s[1..];
    KeepTail(s);
    KeptSkip(s[1..]);
    var w := SkipTaken(s[1..]);
    var t := Skip(s[1..]);
    if Starts(t, '}') {
      d := NoEntries(w);
      assert t == "}" + t[1..];
    } else {
      var entries := EntriesOf(t);
      d := Entries(EntriesInFront(w, entries));
      SpelledEntriesInFront(w, entries);
    }
  }

  function EntriesInFront(w: string, entries: seq<Entry>): seq<Entry>
    requires entries != []
  {
    [entries[0].(before := w + entries[0].before)] + entries[1..]
  }

  lemma SpelledEntriesInFront(w: string, entries: seq<Entry>)
    requires entries != [] && GoodEntries(entries) && Spaces(w)
    ensures GoodEntries(EntriesInFront(w, entries))
    ensures SpellEntries(EntriesInFront(w, entries)) == w + SpellEntries(entries)
  {
    var e, others := entries[0], entries[1..];
    EntryInFront(w, e);
    hide SpellEntry, GoodEntry, Spaces, SpellEntries;
    assert EntriesInFront(w, entries)[1..] == others && entries == [e] + others;
    FirstEntry(e, others);
    FirstEntry(e.(before := w + e.before), others);
    Flat5(w, SpellEntry(e), e.after + EntriesTail(others), "", "", "");
  }

  function EntriesTail(others: seq<Entry>): string {
    if others == [] then "}" else "," + SpellEntries(others)
  }

  lemma FirstEntry(e: Entry, others: seq<Entry>)
    ensures SpellEntries([e] + others) == SpellEntry(e) + (e.after + EntriesTail(others))
  {
    hide SpellEntry;
    assert ([e] + others)[1..] == others;
    Flat5(SpellEntry(e), e.after, ",", SpellEntries(others), "", "");
    Flat5(SpellEntry(e), e.after, "}", "", "", "");
  }

  lemma EntryInFront(w: string, e: Entry)
    requires GoodEntry(e) && Spaces(w)
    ensures var f := e.(before := w + e.before);
      GoodEntry(f) && SpellEntry(f) == w + SpellEntry(e)
  {
    hide Good, Spell, SpelledAll, GoodPieces;
  }

  /** The member taken apart. */
  lemma MemberSplit(s: string)
    requires ParseMember(s).Got?
    ensures var p := ParseString(Skip(s));
      && p.Got? && Starts(Skip(p.rest), ':')
      && var q := ParseValue(Skip(Skip(p.rest)[1..]));
         q.Got? && ParseMember(s) == Got(Member(p.value, q.value), q.rest)
  {
    hide ParseString, ParseValue, Skip;
  }

  lemma EntryOf(s: string) returns (e: Entry)
    requires Regular(s) && ParseMember(s).Got?
    ensures GoodEntry(e) && e.after == "" && s == SpellEntry(e) + ParseMember(s).rest
    ensures Regular(ParseMember(s).rest)
    decreases |s|, 2, 0
  {
    MemberSplit(s);
    KeptMember(s);
    hide Regular, Skip, ParseString, ParseValue, ParseMember, Spaces, Good, GoodPieces, Spell, SpelledAll;
    hide PiecesMeaning, GoodEntry, SpellEntry;
    var w0 := SkipTaken(s);
    KeptSkip(s);
    var ps := StringOf(Skip(s));
    var after := ParseString(Skip(s)).rest;
    var w1 := SkipTaken(after);
    KeptSkip(after);
    var t := Skip(after);
    KeepTail(t);
    var w2 := SkipTaken(t[1..]);
    KeptSkip(t[1..]);
    var d := DocOf(Skip(t[1..]));
    e := Entry(w0, ps, w1, w2, d, "");
    EntryBuilt(e, ParseMember(s).rest);
    assert t == ":" + t[1..];
  }

  lemma EntryBuilt(e: Entry, rest: string)
    requires Spaces(e.before) && GoodPieces(e.name) && Spaces(e.afterName) && Spaces(e.beforeValue) && Good(e.doc)
    requires e.after == ""
    ensures GoodEntry(e)
    ensures SpellEntry(e) + rest
            == e.before + ("\"" + SpelledAll(e.name) + "\""
                           + (e.afterName + (":" + (e.beforeValue + (Spell(e.doc) + rest)))))
  {
    hide Spaces, Good, GoodPieces, Spell, SpelledAll;
    NoSpaces();
    assert SpellEntry(e) == e.before + ("\"" + SpelledAll(e.name) + "\"") + e.afterName + ":" + e.beforeValue
                            + Spell(e.doc);
    Flat5(e.before, "\"" + SpelledAll(e.name) + "\"", e.afterName, ":", e.beforeValue, Spell(e.doc) + rest);
    Flat5(e.before + ("\"" + SpelledAll(e.name) + "\"") + e.afterName + ":" + e.beforeValue, Spell(e.doc), rest,
          "", "", "");
  }

  /** A member and the spaces behind it. */
  lemma EntryTaken(s: string) returns (e: Entry)
    requires Regular(s) && ParseMember(s).Got?
    ensures GoodEntry(e) && s == SpellEntry(e) + (e.after + Skip(ParseMember(s).rest))
    ensures Regular(Skip(ParseMember(s).rest))
    decreases |s|, 2, 1
  {
    hide Regular, Skip, ParseMember, Spaces, SpellEntry, GoodEntry;
    e := EntryOf(s);
    var after := ParseMember(s).rest;
    var w := SkipTaken(after);
    KeptSkip(after);
    SameSpelling(e, w);
    e := e.(after := w);
  }

  lemma {:induction false} EntriesOf(s: string) returns (entries: seq<Entry>)
    requires Regular(s) && ParseMembers(s).Got?
    ensures entries != [] && GoodEntries(entries) && s == SpellEntries(entries) + ParseMembers(s).rest
    decreases |s|, 3
  {
    MembersParts(s);
    hide Regular, Skip, ParseMember, ParseMembers, MoreMembers, Spaces, Good, GoodPieces, SpellEntry, GoodEntry;
    hide GoodEntries, SpellEntries;
    var e := EntryTaken(s);
    var z := Skip(ParseMember(s).rest);
    assert z == [z[0]] + z[1..];
    if z[0] == ',' {
      KeepTail(z);
      var others := EntriesOf(z[1..]);
      entries := [e] + others;
      MoreSpelled(e, others, ParseMembers(z[1..]).rest);
    } else {
      entries := [e];
      OneSpelled(e, z[1..]);
    }
  }

  lemma OneSpelled(e: Entry, rest: string)
    requires GoodEntry(e)
    ensures GoodEntries([e]) && SpellEntries([e]) + rest == SpellEntry(e) + (e.after + ("}" + rest))
  {
    hide GoodEntry, SpellEntry;
    assert [e][1..] == [];
    Flat5(SpellEntry(e), e.after, "}", rest, "", "");
  }

  lemma MoreSpelled(e: Entry, others: seq<Entry>, rest: string)
    requires GoodEntry(e) && others != [] && GoodEntries(others)
    ensures GoodEntries([e] + others)
    ensures SpellEntries([e] + others) + rest == SpellEntry(e) + (e.after + ("," + (SpellEntries(others) + rest)))
  {
    hide GoodEntry, SpellEntry;
    var all := [e] + others;
    assert all[1..] == others;
    assert SpellEntries(all) == SpellEntry(e) + e.after + "," + SpellEntries(others);
    hide SpellEntries, GoodEntries;
    Flat5(SpellEntry(e), e.after, ",", SpellEntries(others), rest, "");
  }

  lemma SameSpelling(e: Entry, w: string)
    requires GoodEntry(e) && Spaces(w)
    ensures GoodEntry(e.(after := w)) && SpellEntry(e.(after := w)) == SpellEntry(e)
  {
    hide Good, GoodPieces, Spell, SpelledAll;
  }

  // ---------------------------------------------------------------------------- whole texts

  lemma QuietBehind(x: string, rest: string)
    requires Spaces(x) || NumberChars(x) || x in {"null", "false", "true", "[", "]", "{", "}", ",", ":"}
    ensures Regular(x + rest) == Regular(rest)
  {
    assert '"' !in x;
    RegularBehind(x, rest);
  }

  lemma TextRegular(ps: seq<Piece>, rest: string)
    requires GoodPieces(ps)
    ensures Regular("\"" + SpelledAll(ps) + "\"" + rest) == Regular(rest)
  {
    hide GoodPieces, SpelledAll, PiecesMeaning, Tidy, Characters;
    var s := "\"" + SpelledAll(ps) + "\"" + rest;
    PiecesRead(ps, rest);
    assert s[0] == '"' && s[1..] == SpelledAll(ps) + ("\"" + rest);
  }

  lemma NumQuiet(x: Num)
    requires GoodNum(x)
    ensures NumberChars(NumText(x))
  {
    PowerQuiet(x);
    assert NumberChars(x.whole) && NumberChars(x.fraction) && NumberChars("0") && NumberChars("-") && NumberChars(".");
    hide AllDigits, GoodPower, PowerText, NumberChars;
    JoinChars(".", x.fraction);
    assert NumberChars(if x.zero then "0" else "") && NumberChars(if x.minus then "-" else "") by { NoChars(); }
    assert NumberChars(PointText(x)) by { NoChars(); }
    JoinChars(if x.zero then "0" else "", x.whole);
    JoinChars(PointText(x), PowerText(x));
    JoinChars(WholeText(x), PointText(x) + PowerText(x));
    JoinChars(if x.minus then "-" else "", WholeText(x) + (PointText(x) + PowerText(x)));
  }

  lemma PowerQuiet(x: Num)
    requires GoodNum(x)
    ensures NumberChars(PowerText(x))
  {
  }

  lemma {:induction false} DocRegular(d: Doc, rest: string)
    requires Good(d)
    ensures Regular(Spell(d) + rest) == Regular(rest)
    decreases d, 0
  {
    hide Regular, GoodNum, GoodPieces, Spaces, NumText, SpelledAll, NumberChars;
    match d
    case NullDoc => QuietBehind("null", rest);
    case FalseDoc => QuietBehind("false", rest);
    case TrueDoc => QuietBehind("true", rest);
    case NumDoc(x) =>
      NumQuiet(x);
      QuietBehind(NumText(x), rest);
    case TextDoc(ps) => TextRegular(ps, rest);
    case NoItems(gap) => EmptyRegular("[", gap, "]", rest);
    case Items(items) =>
      ItemsRegular(items, rest);
      QuietBehind("[", SpellItems(items) + rest);
      assert Spell(d) + rest == "[" + (SpellItems(items) + rest);
    case NoEntries(gap) => EmptyRegular("{", gap, "}", rest);
    case Entries(entries) =>
      EntriesRegular(entries, rest);
      QuietBehind("{", SpellEntries(entries) + rest);
      assert Spell(d) + rest == "{" + (SpellEntries(entries) + rest);
  }

  lemma EmptyRegular(open: string, gap: string, close: string, rest: string)
    requires Spaces(gap) && open in {"[", "{"} && close in {"]", "}"}
    ensures Regular(open + gap + close + rest) == Regular(rest)
  {
    hide Regular, Spaces;
    assert open + gap + close + rest == open + (gap + (close + rest));
    QuietBehind(open, gap + (close + rest));
    QuietBehind(gap, close + rest);
    QuietBehind(close, rest);
  }

  lemma {:induction false} ItemsRegular(items: seq<Item>, rest: string)
    requires items != [] && GoodItems(items)
    ensures Regular(SpellItems(items) + rest) == Regular(rest)
    decreases items
  {
    hide Regular, Spaces, Good, Spell;
    var item, last := items[0], |items| == 1;
    var sep, tail := if last then "]" else ",", if last then "" else SpellItems(items[1..]);
    assert last ==> "" + rest == rest;
    if !last {
      ItemsRegular(items[1..], rest);
    }
    QuietBehind(sep, tail + rest);
    QuietBehind(item.after, sep + (tail + rest));
    DocRegular(item.doc, item.after + (sep + (tail + rest)));
    QuietBehind(item.before, Spell(item.doc) + (item.after + (sep + (tail + rest))));
    Flat5(item.before, Spell(item.doc), item.after, sep, tail, rest);
    assert SpellItems(items) == item.before + Spell(item.doc) + item.after + sep + tail;
  }

  lemma EntryRegular(e: Entry, rest: string)
    requires GoodEntry(e)
    ensures Regular(SpellEntry(e) + rest) == Regular(rest)
    decreases e
  {
    hide Regular, Spaces, Good, GoodPieces, Spell, SpelledAll;
    var value := e.beforeValue + (Spell(e.doc) + rest);
    DocRegular(e.doc, rest);
    QuietBehind(e.beforeValue, Spell(e.doc) + rest);
    QuietBehind(":", value);
    QuietBehind(e.afterName, ":" + value);
    TextRegular(e.name, e.afterName + (":" + value));
    QuietBehind(e.before, "\"" + SpelledAll(e.name) + "\"" + (e.afterName + (":" + value)));
    var f := e.(after := "");
    NoSpaces();
    EntryBuilt(f, rest);
  }

  lemma {:induction false} EntriesRegular(entries: seq<Entry>, rest: string)
    requires entries != [] && GoodEntries(entries)
    ensures Regular(SpellEntries(entries) + rest) == Regular(rest)
    decreases entries, 1
  {
    hide Regular, Spaces, Good, GoodPieces, SpellEntry;
    var e, last := entries[0], |entries| == 1;
    var sep, tail := if last then "}" else ",", if last then "" else SpellEntries(entries[1..]);
    assert last ==> "" + rest == rest;
    if !last {
      EntriesRegular(entries[1..], rest);
    }
    QuietBehind(sep, tail + rest);
    QuietBehind(e.after, sep + (tail + rest));
    EntryRegular(e, e.after + (sep + (tail + rest)));
    Flat5(SpellEntry(e), e.after, sep, tail, "", rest);
    assert SpellEntries(entries) == SpellEntry(e) + e.after + sep + tail;
  }

  lemma {:induction false} OneMeaning(d: Doc, v: Json, u: Json)
    requires Good(d) && Means(d, v) && Means(d, u)
    ensures v == u
    decreases d, 0
  {
    hide GoodNum, GoodPieces, IsValue, PiecesMeaning, Spaces;
    match d
    case NumDoc(x) => OneValue(x, v.value, u.value);
    case Items(items) => OneItems(items, v.items, u.items);
    case Entries(entries) => OneEntries(entries, v.members, u.members);
    case _ =>
  }

  lemma {:induction false} OneItems(items: seq<Item>, vs: seq<Json>, us: seq<Json>)
    requires GoodItems(items) && ItemsMean(items, vs) && ItemsMean(items, us)
    ensures vs == us
    decreases items
  {
    hide Good, Means, Spaces;
    if items != [] {
      OneMeaning(items[0].doc, vs[0], us[0]);
      OneItems(items[1..], vs[1..], us[1..]);
      assert vs == [vs[0]] + vs[1..] && us == [us[0]] + us[1..];
    }
  }

  lemma {:induction false} OneEntries(entries: seq<Entry>, ms: seq<Member>, ns: seq<Member>)
    requires GoodEntries(entries) && EntriesMean(entries, ms) && EntriesMean(entries, ns)
    ensures ms == ns
    decreases entries, 1
  {
    hide Good, Means, Spaces, GoodPieces, PiecesMeaning;
    if entries != [] {
      OneMeaning(entries[0].doc, ms[0].value, ns[0].value);
      OneEntries(entries[1..], ms[1..], ns[1..]);
      assert ms[0] == ns[0];
      assert ms == [ms[0]] + ms[1..] && ns == [ns[0]] + ns[1..];
    }
  }

  /** A text of the grammar, spaces around it, that means v. */
  ghost predicate Spelt(s: string, v: Json, w0: string, d: Doc, w1: string) {
    Spaces(w0) && Spaces(w1) && Good(d) && Means(d, v) && s == w0 + (Spell(d) + w1)
  }

  ghost predicate IsText(s: string, v: Json) {
    exists w0, d, w1 :: Spelt(s, v, w0, d, w1)
  }

  lemma SpacesEndNumber(w: string)
    requires Spaces(w)
    ensures EndsNumber(w)
  {
  }

  lemma SpeltIsParsed(s: string, v: Json, w0: string, d: Doc, w1: string)
    requires Spelt(s, v, w0, d, w1)
    ensures Regular(s) && Parse(s) == Got(v, w1)
  {
    hide Regular, Spaces, Good, Means, Spell, ParseValue, Skip, EndsNumber;
    var u := DocRead(d);
    OneMeaning(d, v, u);
    SpacesEndNumber(w1);
    SkipTo(w0, Spell(d) + w1);
    DocRegular(d, w1);
    QuietBehind(w0, Spell(d) + w1);
    SpacesRegular(w1);
  }

  lemma SpacesRegular(w: string)
    requires Spaces(w)
    ensures Regular(w)
  {
    QuietBehind(w, "");
    assert w + "" == w && Regular("");
  }

  lemma ParsedIsSpelt(s: string) returns (w0: string, d: Doc)
    requires Regular(s) && Parse(s).Got? && Spaces(Parse(s).rest)
    ensures Spelt(s, Parse(s).value, w0, d, Parse(s).rest)
  {
    hide Regular, Spaces, Good, Means, Spell, ParseValue, Skip, EndsNumber;
    w0 := SkipTaken(s);
    KeptSkip(s);
    d := DocOf(Skip(s));
    var v := DocRead(d);
    SpacesEndNumber(Parse(s).rest);
  }

  /** The texts with tidy literals that are parsed whole are those of the grammar, and are read as what
      they mean. */
  lemma TextIff(s: string, v: Json)
    ensures IsText(s, v) <==> Regular(s) && Parse(s).Got? && Parse(s).value == v && Spaces(Parse(s).rest)
  {
    hide Regular, Spaces, Good, Means, Spell, Parse;
    if IsText(s, v) {
      var w0, d, w1 :| Spelt(s, v, w0, d, w1);
      SpeltIsParsed(s, v, w0, d, w1);
    }
    if Regular(s) && Parse(s).Got? && Parse(s).value == v && Spaces(Parse(s).rest) {
      var w0, d := ParsedIsSpelt(s);
    }
  }
}
