/** Uploads, requests and deletions in the database modes: a store of originals and saved
    renderings behind a cache that may lose anything at any time. A request is one step; reading
    the store does not fail, writing to it or to the cache may; scripts are off. */
module ImageDb {
  import opened Common
  import opened ImageKey
  import Md5
  import Rfc1321

  type Byte = Rfc1321.Byte
  type Blob = seq<Byte>

  const CACHE_MAX_SIZE := 1048576

  /** What becomes of an original: it is no image, its conversion fails, the result cannot be
      written out, or it can. */
  datatype Conversion = Unreadable | Failed | NoBlob | Rendered(blob: Blob)

  /** The fields of zimg_req_t; args are width, height, proportion, gray, x, y, rotate and quality. */
  datatype Request = Request(md5: string, args: seq<int>, fmt: string, sv: bool, typed: bool)

  predicate Wellformed(r: Request) {
    Md5Name(r.md5) && |r.args| == 8
  }

  predicate WantsOriginal(r: Request)
    requires Wellformed(r)
  {
    r.args[2] == 0 && r.args[0] == 0 && r.args[1] == 0
  }

  /** The key fits its buffer. */
  predicate Fits(r: Request)
    requires Wellformed(r)
  {
    WantsOriginal(r) || |FullKey(r.md5, r.args, r.fmt)| < CACHE_KEY_SIZE
  }

  function Key(r: Request): string
    requires Wellformed(r)
  {
    if WantsOriginal(r) then r.md5 else Cut(FullKey(r.md5, r.args, r.fmt))
  }

  type Converter = (Blob, seq<int>, string) -> Conversion

  /** What a request stands for. */
  function Rendering(convert: Converter, original: Blob, r: Request): Conversion
    requires Wellformed(r)
  {
    if WantsOriginal(r) then Rendered(original) else convert(original, r.args, r.fmt)
  }

  /** The code returned and the body sent. Nothing here knows of a cache or of saved renderings. */
  function Answer(convert: Converter, originals: map<string, Blob>, r: Request): (int, Blob)
    requires Wellformed(r)
  {
    if r.md5 !in originals then (-1, [])
    else match Rendering(convert, originals[r.md5], r)
      case Unreadable => (0, [])
      case Failed => (-1, [])
      case NoBlob => (1, [])
      case Rendered(blob) => (1, blob)
  }

  // ------------------------------------------------------------------------------ MD5 names

  function HexText(digest: seq<Byte>): (s: string)
    ensures |s| == 2 * |digest| && forall k :: 0 <= k < |s| ==> IsHex(s[k])
  {
    if digest == [] then [] else [HexDigit(digest[0] / 16), HexDigit(digest[0] % 16)] + HexText(digest[1..])
  }

  function Name(data: Blob): (s: string)
    ensures Md5Name(s)
  {
    HexText(Rfc1321.Md5(data))
  }

  method HexDigest(digest: seq<Byte>) returns (s: string)
    ensures s == HexText(digest)
  {
    var md5sum := new char[2 * |digest|];
    for i := 0 to |digest|
      invariant md5sum[..2 * i] == HexText(digest[..i])
    {
      var h, l := digest[i] / 16, digest[i] % 16;
      ghost var before := md5sum[..2 * i];
      md5sum[i * 2] := HexDigit(h);
      md5sum[i * 2 + 1] := HexDigit(l);
      assert md5sum[..2 * (i + 1)] == before + [HexDigit(h), HexDigit(l)];
      HexTextAppend(digest[..i], digest[i]);
      assert digest[..i + 1] == digest[..i] + [digest[i]];
    }
    assert digest[..|digest|] == digest;
    s := md5sum[..];
  }

  lemma {:induction false} HexTextAppend(digest: seq<Byte>, b: Byte)
    ensures HexText(digest + [b]) == HexText(digest) + [HexDigit(b / 16), HexDigit(b % 16)]
  {
    if digest == [] {
      assert digest + [b] == [b] && [b][1..] == [];
    } else {
      HexTextAppend(digest[1..], b);
      assert (digest + [b])[1..] == digest[1..] + [b];
      hide HexText;
    }
  }

  // ---------------------------------------------------------------------- what a value means

  /** The value is the rendering that some request with this key stands for. */
  ghost predicate RenderedFor(convert: Converter, contents: map<string, Blob>, key: string, value: Blob, r: Request) {
    && Wellformed(r) && Fits(r) && Key(r) == key && r.md5 in contents
    && Rendering(convert, contents[r.md5], r) == Rendered(value)
  }

  ghost predicate Meant(convert: Converter, contents: map<string, Blob>, key: string, value: Blob) {
    || (Md5Name(key) && key in contents && contents[key] == value)
    || exists r :: RenderedFor(convert, contents, key, value, r)
  }

  ghost predicate AllMeant(convert: Converter, contents: map<string, Blob>, values: map<string, Blob>) {
    forall key :: key in values ==> Meant(convert, contents, key, values[key])
  }

  /** A key says which rendering its value is. */
  lemma MeantIsRendering(convert: Converter, contents: map<string, Blob>, r: Request, value: Blob)
    requires Wellformed(r) && Fits(r) && Meant(convert, contents, Key(r), value)
    ensures r.md5 in contents && Rendering(convert, contents[r.md5], r) == Rendered(value)
  {
    hide Md5Name;
    if !WantsOriginal(r) {
      FullKeyIsDerived(r.md5, r.args, r.fmt);
    }
    if !(Md5Name(Key(r)) && Key(r) in contents && contents[Key(r)] == value) {
      var q :| RenderedFor(convert, contents, Key(r), value, q);
      SameKey(q, r);
    }
  }

  lemma SameKey(q: Request, r: Request)
    requires Wellformed(q) && Fits(q) && Wellformed(r) && Fits(r) && Key(q) == Key(r)
    ensures q.md5 == r.md5 && WantsOriginal(q) == WantsOriginal(r)
    ensures !WantsOriginal(r) ==> q.args == r.args && q.fmt == r.fmt
  {
    hide Md5Name;
    if !WantsOriginal(q) {
      FullKeyIsDerived(q.md5, q.args, q.fmt);
    }
    if !WantsOriginal(r) {
      FullKeyIsDerived(r.md5, r.args, r.fmt);
    }
    if !WantsOriginal(q) && !WantsOriginal(r) {
      FullKeyInjective(q.md5, q.args, q.fmt, r.md5, r.args, r.fmt);
    }
  }

  /** The originals among the values. */
  function OriginalsOf(store: map<string, Blob>): map<string, Blob> {
    map k | k in store && Md5Name(k) :: store[k]
  }

  class Server {
    const convert: Converter
    const cacheOn: bool
    const saveNew: int
    var store: map<string, Blob>
    var cache: map<string, Blob>
    /** Every original ever uploaded. */
    ghost var contents: map<string, Blob>

    ghost predicate Valid()
      reads this
    {
      && (forall name :: name in contents ==> Md5Name(name))
      && AllMeant(convert, contents, store) && AllMeant(convert, contents, cache)
      && forall key :: key in cache ==> |cache[key]| < CACHE_MAX_SIZE
    }

    function Originals(): map<string, Blob>
      reads `store
    {
      OriginalsOf(store)
    }

    constructor (convert: Converter, cacheOn: bool, saveNew: int)
      ensures Valid() && Originals() == map[] && contents == map[] && this.convert == convert
    {
      this.convert, this.cacheOn, this.saveNew := convert, cacheOn, saveNew;
      store, cache, contents := map[], map[], map[];
    }

    method FindCache(key: string) returns (found: Option<Blob>)
      requires Valid()
      ensures found == if cacheOn && key in cache then Some(cache[key]) else None
    {
      found := if cacheOn && key in cache then Some(cache[key]) else None;
    }

    /** Never called with a value as big as CACHE_MAX_SIZE, and may fail. */
    method SetCache(key: string, value: Blob, works: bool)
      requires Valid() && Meant(convert, contents, key, value) && |value| < CACHE_MAX_SIZE
      modifies `cache
      ensures Valid()
      ensures cache == if cacheOn && works then old(cache)[key := value] else old(cache)
    {
      if cacheOn && works {
        cache := cache[key := value];
      }
    }

    method SaveDb(key: string, value: Blob, works: bool) returns (ret: int)
      requires Valid() && Meant(convert, contents, key, value)
      modifies `store
      ensures Valid() && ret == (if works then 1 else -1)
      ensures store == if works then old(store)[key := value] else old(store)
    {
      if !works {
        return -1;
      }
      store := store[key := value];
      ret := 1;
    }

    /** save_img: the name of the data, and the data under it unless they are there. */
    method Upload(data: Blob, works: bool) returns (result: int, md5: string)
      requires Valid() && |data| < 0x8000_0000
      requires Name(data) in contents ==> contents[Name(data)] == data
      modifies this
      ensures Valid() && md5 == Name(data)
      ensures result == if md5 in old(Originals()) || works then 1 else -1
      ensures Originals() == if result == 1 then old(Originals())[md5 := data] else old(Originals())
      ensures contents == if result == 1 then old(contents)[md5 := data] else old(contents)
      ensures cache == old(cache)
      ensures store == if md5 !in old(store) && works then old(store)[md5 := data] else old(store)
    {
      hide Rfc1321.Md5, HexText, Md5Name;
      var pms := new Md5.Md5State();
      pms.Append(data, |data|);
      assert data[..|data|] == data && [] + data == data;
      var digest := pms.Finish();
      md5 := HexDigest(digest);
      if md5 in store {
        MeantIsOriginal(convert, contents, md5, store[md5]);
        assert Originals()[md5 := data] == Originals();
        assert contents[md5 := data] == contents;
        return 1, md5;
      }
      if !works {
        return -1, md5;
      }
      KeepMeant(convert, contents, md5, data, store);
      KeepMeant(convert, contents, md5, data, cache);
      contents := contents[md5 := data];
      result := SaveDb(md5, data, works);
      assert Originals() == old(Originals())[md5 := data];
    }

    /** There is something to send for the request. */
    ghost predicate Renders(r: Request)
      requires Wellformed(r)
      reads `contents, `store
    {
      r.md5 in store && r.md5 in contents && Rendering(convert, contents[r.md5], r).Rendered?
    }

    /** And it is small enough for the cache. */
    ghost predicate Worth(r: Request)
      requires Wellformed(r)
      reads `contents, `store
    {
      Renders(r) && |Rendering(convert, contents[r.md5], r).blob| < CACHE_MAX_SIZE
    }

    /** Its rendering is to be kept in the store. */
    predicate Saves(r: Request) {
      r.sv || saveNew == 1 || (saveNew == 2 && r.typed)
    }

    /** get_img_mode_db. The cache may lose entries before either lookup, and setting it and saving
        the rendering may fail; the answer is always the one without cache or saved renderings. */
    method Get(r: Request, lost: set<string>, lostLater: set<string>, caches: bool, saves: bool)
      returns (result: int, body: Blob)
      requires Valid() && Wellformed(r) && Fits(r)
      modifies `store, `cache
      ensures Valid() && Originals() == old(Originals())
      ensures (result, body) == Answer(convert, old(Originals()), r)
      ensures Worth(r) && cacheOn && caches ==> Key(r) in cache && cache[Key(r)] == body
      ensures store == if && Renders(r) && Saves(r) && saves
                          && !old(cacheOn && Key(r) in cache - lost) && Key(r) !in old(store)
                       then old(store)[Key(r) := body] else old(store)
    {
      hide Md5Name, Rendering, Meant;
      cache := cache - lost;
      if r.md5 !in store {
        return -1, [];
      }
      NameOf(r);
      MeantIsOriginal(convert, contents, r.md5, store[r.md5]);
      var key := r.md5;
      if !WantsOriginal(r) {
        key := GenKey(r.md5, r.args, r.fmt);
      }
      var found := FindCache(key);
      if found.Some? {
        MeantIsRendering(convert, contents, r, found.value);
        return 1, found.value;
      }
      if key in store {
        body := store[key];
        MeantIsRendering(convert, contents, r, body);
        if |body| < CACHE_MAX_SIZE {
          SetCache(key, body, caches);
        }
        return 1, body;
      }
      cache := cache - lostLater;
      result, body := Convert(r, key, caches, saves);
    }

    /** The rendering is made from the original, and kept for the next time. */
    method Convert(r: Request, key: string, caches: bool, saves: bool) returns (result: int, body: Blob)
      requires Valid() && Wellformed(r) && Fits(r) && !WantsOriginal(r) && key == Key(r)
      requires r.md5 in store && r.md5 in contents && store[r.md5] == contents[r.md5]
      modifies `store, `cache
      ensures Valid() && Originals() == old(Originals())
      ensures (result, body) == Answer(convert, old(Originals()), r)
      ensures Worth(r) && cacheOn && caches ==> Key(r) in cache && cache[Key(r)] == body
      ensures cacheOn && caches && |old(store)[r.md5]| < CACHE_MAX_SIZE ==> r.md5 in cache
      ensures store == if Renders(r) && Saves(r) && saves then old(store)[Key(r) := body] else old(store)
    {
      hide Md5Name, Meant;
      NameOf(r);
      var found := FindCache(r.md5);
      var original := store[r.md5];
      if found.Some? {
        MeantIsOriginal(convert, contents, r.md5, found.value);
        original := found.value;
      } else if |original| < CACHE_MAX_SIZE {
        OriginalIsMeant(convert, contents, r.md5);
        SetCache(r.md5, original, caches);
      }
      match convert(original, r.args, r.fmt)
      case Unreadable => return 0, [];
      case Failed => return -1, [];
      case NoBlob => return 1, [];
      case Rendered(blob) =>
        RenderingIsMeant(convert, contents, r, blob);
        if |blob| < CACHE_MAX_SIZE {
          SetCache(key, blob, caches);
        }
        if Saves(r) {
          KeepOriginals(store, r, blob);
          var _ := SaveDb(key, blob, saves);
        }
        return 1, blob;
    }

    /** admin_img_mode_db: only the original goes; its renderings stay, but are not found without it. */
    method Admin(md5: string, t: int, works: bool) returns (result: int)
      requires Valid() && Md5Name(md5)
      modifies `store
      ensures Valid()
      ensures result == if md5 in old(Originals()) then 1 else 2
      ensures Originals() == if t == 1 && works then old(Originals()) - {md5} else old(Originals())
      ensures store == if t == 1 && works then old(store) - {md5} else old(store)
    {
      var key := Cut(md5);
      if key !in store {
        assert Originals() - {md5} == Originals() && store - {md5} == store;
        return 2;
      }
      result := 1;
      if t == 1 && works {
        store := store - {key};
        assert Originals() == old(Originals()) - {md5};
      }
    }

    /** Any run: every response is the one a plain map of originals gives, whatever the cache and
        the saved renderings were. */
    method Serve(ops: seq<Op>) returns (responses: seq<(int, Blob)>)
      requires Valid() && contents == map[] && Originals() == map[]
      requires NoCollision(ops) && AllPossible(ops)
      modifies this
      ensures Valid()
      ensures responses == Expected(convert, map[], ops)
    {
      hide Answer, Valid, OriginalsOf, Rendering, Name;
      responses := [];
      assert ops[0..] == ops;
      for k := 0 to |ops|
        invariant Valid() && Uploaded(contents, ops[..k]) && AllPossible(ops[k..])
        invariant responses + Expected(convert, Originals(), ops[k..]) == Expected(convert, map[], ops)
      {
        assert ops[..k + 1] == ops[..k] + [ops[k]];
        assert ops[k..][1..] == ops[k + 1..];
        ghost var was := Originals();
        var result, body := Perform(ops[k], ops, k);
        ghost var rest := Expected(convert, Originals(), ops[k + 1..]);
        assert responses + ([(result, body)] + rest) == responses + [(result, body)] + rest;
        responses := responses + [(result, body)];
      }
      assert responses + [] == responses;
    }

    method Perform(op: Op, ghost ops: seq<Op>, ghost k: nat) returns (result: int, body: Blob)
      requires Valid() && k < |ops| && op == ops[k] && op.Possible() && NoCollision(ops) && Uploaded(contents, ops[..k])
      modifies this
      ensures Valid() && Uploaded(contents, ops[..k + 1])
      ensures ((result, body), Originals()) == Effect(convert, old(Originals()), op)
    {
      hide Answer, Valid, OriginalsOf, Rendering, Name;
      UploadedMore(contents, ops, k);
      match op
      case Put(data, works) =>
        var md5;
        NoCollisionSoFar(contents, ops, k);
        result, md5 := Upload(data, works);
        body := [];
      case Ask(r, lost, lostLater, caches, saves) => result, body := Get(r, lost, lostLater, caches, saves);
      case Remove(md5, t, works) =>
        result := Admin(md5, t, works);
        body := [];
    }
  }

  // ------------------------------------------------------------------------------ whole runs

  datatype Op =
    | Put(data: Blob, works: bool)
    | Ask(r: Request, lost: set<string>, lostLater: set<string>, caches: bool, saves: bool)
    | Remove(md5: string, t: int, works: bool)
  {
    predicate Possible() {
      match this
      case Put(data, _) => |data| < 0x8000_0000
      case Ask(r, _, _, _, _) => Wellformed(r) && Fits(r)
      case Remove(md5, _, _) => Md5Name(md5)
    }
  }

  /** Among the uploads of a run no two different ones have the same MD5. */
  ghost predicate NoCollision(ops: seq<Op>) {
    forall i, j :: 0 <= i < |ops| && 0 <= j < |ops| && ops[i].Put? && ops[j].Put? ==>
      Name(ops[i].data) == Name(ops[j].data) ==> ops[i].data == ops[j].data
  }

  /** One operation on a plain map of originals. */
  function Effect(convert: Converter, originals: map<string, Blob>, op: Op): ((int, Blob), map<string, Blob>)
    requires op.Possible()
  {
    match op
    case Put(data, works) =>
      if Name(data) in originals || works then ((1, []), originals[Name(data) := data]) else ((-1, []), originals)
    case Ask(r, _, _, _, _) => (Answer(convert, originals, r), originals)
    case Remove(md5, t, works) =>
      ((if md5 in originals then 1 else 2, []), if t == 1 && works then originals - {md5} else originals)
  }

  predicate AllPossible(ops: seq<Op>) {
    ops == [] || (ops[0].Possible() && AllPossible(ops[1..]))
  }

  function Expected(convert: Converter, originals: map<string, Blob>, ops: seq<Op>): seq<(int, Blob)>
    requires AllPossible(ops)
    decreases |ops|
  {
    if ops == [] then []
    else
      var (response, after) := Effect(convert, originals, ops[0]);
      [response] + Expected(convert, after, ops[1..])
  }

  /** Every original came with one of the operations so far. */
  ghost predicate Uploaded(contents: map<string, Blob>, ops: seq<Op>) {
    forall name :: name in contents ==> exists k :: 0 <= k < |ops| && Puts(ops[k], name, contents[name])
  }

  predicate Puts(op: Op, name: string, data: Blob) {
    op.Put? && op.data == data && Name(data) == name
  }

  lemma UploadedMore(contents: map<string, Blob>, ops: seq<Op>, k: nat)
    requires k < |ops| && Uploaded(contents, ops[..k])
    ensures Uploaded(contents, ops[..k + 1])
    ensures ops[k].Put? ==> Uploaded(contents[Name(ops[k].data) := ops[k].data], ops[..k + 1])
  {
    hide Name;
    var now, later := ops[..k], ops[..k + 1];
    forall name | name in contents
      ensures exists i :: 0 <= i < |later| && Puts(later[i], name, contents[name])
    {
      var i :| 0 <= i < |now| && Puts(now[i], name, contents[name]);
      assert later[i] == now[i];
    }
    assert later[k] == ops[k];
  }

  lemma NoCollisionSoFar(contents: map<string, Blob>, ops: seq<Op>, k: nat)
    requires k < |ops| && ops[k].Put? && NoCollision(ops) && Uploaded(contents, ops[..k])
    ensures var name := Name(ops[k].data); name in contents ==> contents[name] == ops[k].data
  {
    hide Name;
    var name := Name(ops[k].data);
    if name in contents {
      var i :| 0 <= i < |ops[..k]| && Puts(ops[..k][i], name, contents[name]);
      assert ops[i] == ops[..k][i];
    }
  }

  // -------------------------------------------------------------------------- small steps

  lemma NameOf(r: Request)
    requires Wellformed(r)
    ensures Md5Name(r.md5)
  {
  }

  lemma OriginalIsMeant(convert: Converter, contents: map<string, Blob>, md5: string)
    requires Md5Name(md5) && md5 in contents
    ensures Meant(convert, contents, md5, contents[md5])
  {
  }

  lemma RenderingIsMeant(convert: Converter, contents: map<string, Blob>, r: Request, blob: Blob)
    requires Wellformed(r) && Fits(r) && !WantsOriginal(r) && r.md5 in contents
    requires convert(contents[r.md5], r.args, r.fmt) == Rendered(blob)
    ensures Meant(convert, contents, Key(r), blob)
  {
    assert RenderedFor(convert, contents, Key(r), blob, r);
  }

  lemma KeepOriginals(store: map<string, Blob>, r: Request, blob: Blob)
    requires Wellformed(r) && !WantsOriginal(r)
    ensures OriginalsOf(store[Key(r) := blob]) == OriginalsOf(store)
  {
    FullKeyIsDerived(r.md5, r.args, r.fmt);
  }

  lemma MeantIsOriginal(convert: Converter, contents: map<string, Blob>, md5: string, value: Blob)
    requires Md5Name(md5) && Meant(convert, contents, md5, value)
    ensures md5 in contents && contents[md5] == value
  {
    MeantIsRendering(convert, contents, Request(md5, [0, 0, 0, 0, 0, 0, 0, 0], [], false, false), value);
  }

  /** A new original changes nothing about what the values are. */
  lemma KeepMeant(convert: Converter, contents: map<string, Blob>, md5: string, data: Blob, values: map<string, Blob>)
    requires AllMeant(convert, contents, values) && (md5 in contents ==> contents[md5] == data)
    ensures AllMeant(convert, contents[md5 := data], values)
  {
    hide Md5Name;
    forall key | key in values
      ensures Meant(convert, contents[md5 := data], key, values[key])
    {
      if !(Md5Name(key) && key in contents && contents[key] == values[key]) {
        var r :| RenderedFor(convert, contents, key, values[key], r);
        assert RenderedFor(convert, contents[md5 := data], key, values[key], r);
      }
    }
  }
}
