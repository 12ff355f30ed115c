/** The incremental reader object: a growing buffer with a cursor, a nine-slot task stack, and
    the calls that feed it and take replies out of it. Each method is tied to Resp. */
module RedisReader {
  import opened Common
  import opened Resp

  const OK := 0
  const ERR := -1
  const ERR_PROTOCOL := 4

  /** Not a code of hiredis: from here on it has no defined behaviour. */
  const ERR_UNDEFINED := 99

  /** Consumed bytes that make it worth moving the rest of the buffer down. */
  const DISCARD_AT := 1024

  /** A slot of the task stack. `element` is what the slot's array object holds so far, `parent`
      the slot below, -1 for the root. */
  datatype ReadTask = ReadTask(typ: int, elements: int, idx: int, element: seq<Reply>, parent: int)

  /** Slot i is an array short of elements, and slot i + 1 is reading the next of them. */
  ghost predicate Linked(ts: seq<ReadTask>, i: nat)
    requires i + 1 < |ts|
  {
    && ts[i].typ == REPLY_ARRAY
    && ts[i].elements > |ts[i].element| == ts[i + 1].idx
    && ts[i + 1].parent == i
  }

  /** The root first, then a chain of open arrays up to the task being read. */
  ghost predicate StackShape(ts: seq<ReadTask>, ridx: int) {
    && |ts| == STACK_SIZE
    && -1 <= ridx < STACK_SIZE
    && (ridx >= 0 ==>
          && ts[0].idx == -1 && ts[0].parent == -1
          && ts[ridx].typ in {UNTYPED, REPLY_STRING, REPLY_ARRAY, REPLY_INTEGER, REPLY_STATUS, REPLY_ERROR})
    && forall i :: 0 <= i < ridx ==> Linked(ts, i)
  }

  lemma OpenArraysAreShort(ts: seq<ReadTask>, ridx: int)
    requires StackShape(ts, ridx)
    ensures forall i :: 0 <= i < ridx ==> |ts[i].element| < ts[i].elements
  {
    forall i | 0 <= i < ridx
      ensures |ts[i].element| < ts[i].elements
    {
      assert Linked(ts, i);
    }
  }

  /** The open arrays below slot `ridx`. */
  ghost function FramesOf(ts: seq<ReadTask>, ridx: int): (frames: seq<Frame>)
    requires StackShape(ts, ridx)
    ensures |frames| == if ridx < 0 then 0 else ridx
    ensures forall i :: 0 <= i < ridx ==>
              frames[i].elements == ts[i].elements && frames[i].element == ts[i].element
    ensures forall i :: 0 <= i < |frames| ==> |frames[i].element| < frames[i].elements
  {
    OpenArraysAreShort(ts, ridx);
    seq(if ridx < 0 then 0 else ridx, i requires 0 <= i < ridx => Frame(ts[i].elements, ts[i].element))
  }

  ghost function StateOf(ts: seq<ReadTask>, ridx: int): (s: State)
    requires StackShape(ts, ridx)
    ensures !(ridx == STACK_SIZE - 1 && ts[ridx].typ == REPLY_ARRAY) ==> ValidState(s)
  {
    State(FramesOf(ts, ridx), if ridx < 0 then UNTYPED else ts[ridx].typ)
  }

  /** Giving the top task a type. */
  lemma SetType(ts: seq<ReadTask>, ridx: int, typ: int)
    requires StackShape(ts, ridx) && ridx >= 0
    requires typ in {REPLY_STRING, REPLY_ARRAY, REPLY_INTEGER, REPLY_STATUS, REPLY_ERROR}
    ensures var ts' := ts[ridx := ts[ridx].(typ := typ)];
      StackShape(ts', ridx) && StateOf(ts', ridx) == State(FramesOf(ts, ridx), typ)
  {
    var ts' := ts[ridx := ts[ridx].(typ := typ)];
    forall i | 0 <= i < ridx
      ensures Linked(ts', i)
    {
      assert Linked(ts, i);
    }
    assert FramesOf(ts', ridx) == FramesOf(ts, ridx);
  }

  /** Opening an array of n elements in the top slot and starting on its first element. */
  lemma PushTask(ts: seq<ReadTask>, ridx: int, n: int)
    requires StackShape(ts, ridx) && 0 <= ridx < STACK_SIZE - 1 && n > 0
    requires ts[ridx].typ == REPLY_ARRAY
    ensures var ts' := ts[ridx := ts[ridx].(elements := n, element := [])]
                         [ridx + 1 := ReadTask(UNTYPED, -1, 0, [], ridx)];
      && StackShape(ts', ridx + 1)
      && StateOf(ts', ridx + 1) == State(FramesOf(ts, ridx) + [Frame(n, [])], UNTYPED)
  {
    var ts' := ts[ridx := ts[ridx].(elements := n, element := [])]
                 [ridx + 1 := ReadTask(UNTYPED, -1, 0, [], ridx)];
    forall i | 0 <= i < ridx + 1
      ensures Linked(ts', i)
    {
      assert i < ridx ==> Linked(ts, i);
    }
    assert FramesOf(ts', ridx) == FramesOf(ts, ridx);
  }

  /** The stack after the top slot's object has been stored in the array below it. */
  function Stored(ts: seq<ReadTask>, ridx: int, done: Reply): seq<ReadTask>
    requires 0 < ridx < |ts|
  {
    ts[ridx - 1 := ts[ridx - 1].(element := ts[ridx - 1].element + [done])]
  }

  /** The top slot turned to the next element. */
  function Turned(ts: seq<ReadTask>, ridx: int): seq<ReadTask>
    requires 0 <= ridx < |ts|
  {
    ts[ridx := ts[ridx].(typ := UNTYPED, elements := -1, idx := ts[ridx].idx + 1)]
  }

  lemma StoreShape(ts: seq<ReadTask>, ridx: int, done: Reply)
    requires StackShape(ts, ridx) && 0 < ridx
    ensures StackShape(Stored(ts, ridx, done), ridx - 1)
    ensures ts[ridx].idx != ts[ridx - 1].elements - 1 ==> StackShape(Turned(Stored(ts, ridx, done), ridx), ridx)
  {
    forall i | 0 <= i < ridx
      ensures Linked(ts, i)
    {
    }
    forall i | 0 <= i < ridx - 1
      ensures Linked(Stored(ts, ridx, done), i)
    {
      assert Linked(ts, i);
    }
    assert Linked(ts, ridx - 1);
    forall i | 0 <= i < ridx && ts[ridx].idx != ts[ridx - 1].elements - 1
      ensures Linked(Turned(Stored(ts, ridx, done), ridx), i)
    {
      assert Linked(ts, i);
    }
  }

  /** Delivering to the innermost open array. */
  lemma DeliverTop(frames: seq<Frame>, done: Reply)
    requires forall i :: 0 <= i < |frames| ==> |frames[i].element| < frames[i].elements
    requires frames != []
    ensures var f, below := frames[|frames| - 1], frames[..|frames| - 1];
      var filled := f.element + [done];
      Deliver(frames, done) == if |filled| == f.elements then Deliver(below, ArrayReply(f.elements, filled))
                               else (below + [Frame(f.elements, filled)], None)
  {
  }

  /** Storing an element that is not the last and turning the top slot to the next one. */
  lemma NextElement(ts: seq<ReadTask>, ridx: int, done: Reply)
    requires StackShape(ts, ridx) && 0 < ridx && ts[ridx].idx != ts[ridx - 1].elements - 1
    ensures StackShape(Turned(Stored(ts, ridx, done), ridx), ridx)
    ensures var ts' := Turned(Stored(ts, ridx, done), ridx);
      StateOf(ts', ridx).typ == UNTYPED && (FramesOf(ts', ridx), None) == Deliver(FramesOf(ts, ridx), done)
  {
    hide Deliver;
    StoreShape(ts, ridx, done);
    assert Linked(ts, ridx - 1);
    var frames := FramesOf(ts, ridx);
    DeliverTop(frames, done);
    assert FramesOf(Turned(Stored(ts, ridx, done), ridx), ridx)
        == frames[..ridx - 1] + [Frame(ts[ridx - 1].elements, ts[ridx - 1].element + [done])];
  }

  /** Storing the last element and dropping to the slot of the array it completes. */
  lemma PopTask(ts: seq<ReadTask>, ridx: int, done: Reply)
    requires StackShape(ts, ridx) && 0 < ridx && ts[ridx].idx == ts[ridx - 1].elements - 1
    ensures StackShape(Stored(ts, ridx, done), ridx - 1)
    ensures Deliver(FramesOf(ts, ridx), done)
         == Deliver(FramesOf(Stored(ts, ridx, done), ridx - 1),
                    ArrayReply(ts[ridx - 1].elements, ts[ridx - 1].element + [done]))
  {
    hide Deliver;
    StoreShape(ts, ridx, done);
    assert Linked(ts, ridx - 1);
    var frames := FramesOf(ts, ridx);
    DeliverTop(frames, done);
    assert FramesOf(Stored(ts, ridx, done), ridx - 1) == frames[..ridx - 1];
  }

  /** The bulk item at position p of the buffer: its head ends s characters on and says n. */
  lemma BulkItem(buf: string, p: nat, s: nat, n: int)
    requires p <= |buf|
    requires FindCRLF(buf[p..]) == Some(s) && ReadLongLong(buf[p..]) == n
    ensures ReadItem(REPLY_STRING, buf[p..])
         == if n < 0 then Complete(NilReply, s + 2)
            else if p + s + 2 + n + 2 <= |buf|
            then Complete(StringReply(buf[p + s + 2..p + s + 2 + n]), s + 2 + n + 2)
            else Partial
    ensures forall k :: 0 <= k <= |buf| - p ==> buf[p + k..] == buf[p..][k..]
  {
    if 0 <= n && p + s + 2 + n + 2 <= |buf| {
      assert buf[p + s + 2..p + s + 2 + n] == buf[p..][s + 2..s + 2 + n];
    }
  }

  lemma NoLine(typ: int, u: string)
    requires typ in {REPLY_STRING, REPLY_ARRAY, REPLY_INTEGER, REPLY_STATUS, REPLY_ERROR}
    requires FindCRLF(u).None?
    ensures ReadItem(typ, u) == Partial
  {
  }

  /** The array item whose head line is the first `line` characters and says n. */
  lemma ArrayItem(u: string, line: nat, n: int)
    requires FindCRLF(u) == Some(line) && ReadLongLong(u) == n
    ensures ReadItem(REPLY_ARRAY, u) == CountItem(n, line + 2)
  {
  }

  lemma StackBounds(ts: seq<ReadTask>, ridx: int)
    requires StackShape(ts, ridx)
    ensures |ts| == STACK_SIZE && -1 <= ridx < STACK_SIZE
  {
  }

  lemma StackLink(ts: seq<ReadTask>, ridx: int)
    requires StackShape(ts, ridx) && 0 < ridx
    ensures |ts| == STACK_SIZE && ridx < STACK_SIZE
    ensures var cur, prv := ts[ridx], ts[ridx - 1];
      prv.typ == REPLY_ARRAY && 0 <= cur.idx == |prv.element| < prv.elements
  {
    assert Linked(ts, ridx - 1);
  }

  lemma NothingToTake(s: State)
    requires ValidState(s)
    ensures TakeReply(s, []) == Turn(None, s, [], None)
  {
  }

  /** Delivering the root object leaves the stack empty, whatever its slots hold. */
  lemma DeliverRoot(ts: seq<ReadTask>, r: Reply)
    requires StackShape(ts, 0)
    ensures StackShape(ts, -1) && StateOf(ts, -1) == IDLE
    ensures Deliver(FramesOf(ts, 0), r) == (FramesOf(ts, -1), Some(r))
  {
  }

  class Reader {
    var err: int
    var failure: Option<Failure>  // what errstr says
    var buf: string
    var pos: nat
    var len: nat
    var maxbuf: nat
    var rstack: seq<ReadTask>
    var ridx: int
    var reply: Option<Reply>

    /** The cursor stays in the buffer, an error leaves nothing behind, and the task stack has
        its shape. */
    ghost predicate Shape()
      reads this
    {
      && StackShape(rstack, ridx)
      && pos <= len == |buf|
      && (err == 0 || err == ERR_PROTOCOL || err == ERR_UNDEFINED)
      && (err != 0 <==> failure.Some?)
      && (err != 0 ==> ridx == -1 && buf == [] && reply.None?)
      && (ridx >= 0 ==> reply.None?)
    }

    /** Shape, and no array is being opened on the last slot. */
    ghost predicate Valid()
      reads this
    {
      && Shape()
      && (ridx == STACK_SIZE - 1 ==> rstack[ridx].typ != REPLY_ARRAY)
    }

    ghost function Abs(): (s: State)
      reads this
      requires Shape()
      ensures Valid() ==> ValidState(s)
    {
      StateOf(rstack, ridx)
    }

    /** What a step of Resp from state `s` on the unread bytes `u` means for this object. */
    ghost predicate After(step: Step, ok: bool, s: State, u: string)
      reads this
    {
      && Valid()
      && match step {
           case Stuck => !ok && err == 0 && ridx >= 0 && Abs() == s && Unread() == u
           case Fail(f) => !ok && failure == Some(f) && Abs() == IDLE && Unread() == [] && reply.None?
           case Advance(t, used, out) =>
             && ok && err == 0
             && used <= |u| && Unread() == u[used..]
             && Abs() == t && reply == out && (ridx == -1 <==> out.Some?)
         }
    }

    ghost function Unread(): string
      reads this
      requires pos <= |buf|
    {
      buf[pos..]
    }

    constructor (maxbuf: nat)
      ensures Valid()
      ensures Abs() == IDLE && Unread() == [] && err == 0 && reply.None?
    {
      err, failure := 0, None;
      buf, pos, len := [], 0, 0;
      this.maxbuf := maxbuf;
      rstack := seq(STACK_SIZE, _ => ReadTask(UNTYPED, -1, -1, [], -1));
      ridx := -1;
      reply := None;
    }

    method SetError(typ: int, what: Failure)
      requires Shape() && (typ == ERR_PROTOCOL || typ == ERR_UNDEFINED)
      modifies this
      ensures Valid() && err == typ && failure == Some(what)
      ensures Abs() == IDLE && Unread() == [] && reply.None?
    {
      reply := None;
      buf, pos, len := [], 0, 0;
      ridx := -1;
      err := typ;
      failure := Some(what);
    }

    /** A character of the buffer; the string library keeps a NUL behind the last one. */
    function CharAt(i: nat): char
      reads this
      requires i <= |buf|
    {
      if i < |buf| then buf[i] else '\0'
    }

    /** The offset from `p` of the first CR LF among the `n` characters there, or -1. */
    method SeekNewline(p: nat, n: nat) returns (s: int)
      requires p + n == |buf|
      ensures s == match FindCRLF(buf[p..]) case None => -1 case Some(k) => k
    {
      var i := 0;
      var last := n - 1;
      ghost var u := buf[p..];
      while i < last
        invariant 0 <= i <= n
        invariant forall j :: 0 <= j < i && j < last ==> !(u[j] == '\r' && u[j + 1] == '\n')
      {
        while i < last && CharAt(p + i) != '\r'
          invariant 0 <= i <= n && (i <= last || last < 0)
          invariant forall j :: 0 <= j < i && j < last ==> !(u[j] == '\r' && u[j + 1] == '\n')
        {
          i := i + 1;
        }
        if CharAt(p + i) != '\r' {
          return -1;
        } else if CharAt(p + i + 1) == '\n' {
          return i;
        } else {
          i := i + 1;
        }
      }
      s := -1;
    }

    /** The number that starts at `p`, read up to the CR; -1 when it is not one. */
    method ReadNumber(p: nat) returns (v: int)
      requires p <= |buf| && '\r' in buf[p..]
      ensures v == ReadLongLong(buf[p..])
    {
      hide Wrap64;
      ghost var u := buf[p..];
      var s, mult := p, 1;
      v := 0;
      if CharAt(s) == '-' {
        mult := -1;
        s := s + 1;
      } else if CharAt(s) == '+' {
        mult := 1;
        s := s + 1;
      }
      ghost var digits := buf[s..];
      assert digits == if s == p then u else u[1..];
      assert '\r' in buf[s..];
      while CharAt(s) != '\r'
        invariant p <= s <= |buf| && '\r' in buf[s..]
        invariant ReadDigits(0, digits) == ReadDigits(v, buf[s..])
        decreases |buf| - s
      {
        var dec := DigitValue(CharAt(s));
        assert buf[s..][1..] == buf[s + 1..];
        if 0 <= dec < 10 {
          v := Wrap64(v * 10 + dec);
        } else {
          return -1;
        }
        s := s + 1;
      }
      if mult < 0 {
        v := Wrap64(-v);
      }
    }

    /** The next line, without its CR LF. */
    method ReadLine() returns (start: int, n: int)
      requires Shape()
      modifies this`pos
      ensures FindCRLF(old(Unread())).None? ==> start == -1 && pos == old(pos)
      ensures FindCRLF(old(Unread())).Some? ==>
                start == old(pos) && n == FindCRLF(old(Unread())).value && pos == old(pos) + n + 2 <= |buf|
    {
      n := 0;
      var s := SeekNewline(pos, len - pos);
      if s != -1 {
        start := pos;
        n := s;
        pos := pos + n + 2;
      } else {
        start := -1;
      }
    }

    /** Stores an object in the array above it. The array is then full, and the next to be stored,
        or its slot turns to the next element. */
    method StoreChild(obj: Reply) returns (full: bool, array': Reply)
      requires StackShape(rstack, ridx) && ridx > 0
      modifies this`ridx, this`rstack
      ensures StackShape(rstack, ridx)
      ensures full ==> ridx == old(ridx) - 1
                       && Deliver(FramesOf(rstack, ridx), array') == Deliver(FramesOf(old(rstack), old(ridx)), obj)
      ensures !full ==> ridx == old(ridx) && StateOf(rstack, ridx).typ == UNTYPED
                        && (FramesOf(rstack, ridx), None) == Deliver(FramesOf(old(rstack), old(ridx)), obj)
    {
      hide Deliver, FramesOf, StackShape, Linked;
      StackLink(rstack, ridx);
      ghost var ts := rstack;
      var cur, prv := rstack[ridx], rstack[ridx - 1];
      assert prv.typ == REPLY_ARRAY;
      rstack := rstack[ridx - 1 := prv.(element := prv.element + [obj])];
      full, array' := cur.idx == prv.elements - 1, obj;
      if full {
        PopTask(ts, ridx, obj);
        ridx := ridx - 1;
        array' := ArrayReply(prv.elements, prv.element + [obj]);
      } else {
        assert cur.idx < prv.elements;
        NextElement(ts, ridx, obj);
        rstack := rstack[ridx := cur.(typ := UNTYPED, elements := -1, idx := cur.idx + 1)];
      }
    }

    /** Files a finished object with the array above it and moves on to the next task, closing
        every array that is now full; the root object becomes the reply. */
    method MoveToNextTask(obj: Reply)
      requires Shape() && ridx >= 0 && err == 0
      modifies this`ridx, this`reply, this`rstack
      ensures Valid()
      ensures (FramesOf(rstack, ridx), reply) == Deliver(FramesOf(old(rstack), old(ridx)), obj)
      ensures Abs().typ == UNTYPED
      ensures ridx == -1 <==> reply.Some?
    {
      hide Deliver, FramesOf, StackShape;
      StackBounds(rstack, ridx);
      ghost var result := Deliver(FramesOf(rstack, ridx), obj);
      var done := obj;
      while ridx >= 0
        invariant StackShape(rstack, ridx) && 0 <= ridx < |rstack| == STACK_SIZE && reply.None?
        invariant Deliver(FramesOf(rstack, ridx), done) == result
        decreases ridx
      {
        if ridx == 0 {
          DeliverRoot(rstack, done);
          reply := Some(done);
          ridx := -1;
          return;
        }
        var full;
        full, done := StoreChild(done);
        StackBounds(rstack, ridx);
        if !full {
          return;
        }
      }
    }

    /** Files a complete item whose `used` characters of `u` have been taken off the buffer. */
    method Accept(obj: Reply, ghost u: string, ghost used: nat)
      requires Shape() && ridx >= 0 && err == 0
      requires used <= |u| && Unread() == u[used..]
      modifies this`ridx, this`reply, this`rstack
      ensures After(ItemStep(old(Abs()).frames, Complete(obj, used)), true, old(Abs()), u)
    {
      hide Deliver, FramesOf, StackShape;
      MoveToNextTask(obj);
    }

    method ProcessLineItem() returns (ok: bool)
      requires Valid() && ridx >= 0 && err == 0
      requires rstack[ridx].typ in {REPLY_ERROR, REPLY_STATUS, REPLY_INTEGER}
      modifies this`pos, this`ridx, this`reply, this`rstack
      ensures After(ItemStep(old(Abs()).frames, ReadItem(old(Abs()).typ, old(Unread()))), ok, old(Abs()), old(Unread()))
    {
      hide Deliver, FindCRLF, ReadLongLong, FramesOf, StackShape, CountItem, IsLong;
      StackBounds(rstack, ridx);
      var cur := rstack[ridx];
      ghost var u := Unread();
      var p, n := ReadLine();
      if p != -1 {
        var obj;
        assert u[n] in u;
        if cur.typ == REPLY_INTEGER {
          var v := ReadNumber(p);
          obj := IntegerReply(v);
        } else {
          var text := buf[p..p + n];
          assert text == u[..n];
          obj := if cur.typ == REPLY_STATUS then StatusReply(text) else ErrorReply(text);
        }
        assert Unread() == u[n + 2..];
        assert ReadItem(cur.typ, u) == Complete(obj, n + 2);
        Accept(obj, u, n + 2);
        return true;
      }
      ok := false;
    }

    /** Takes a complete item off the buffer and files it. */
    method Proceed(obj: Reply, bytelen: nat)
      requires Shape() && ridx >= 0 && err == 0 && pos + bytelen <= len
      modifies this`pos, this`ridx, this`reply, this`rstack
      ensures After(ItemStep(old(Abs().frames), Complete(obj, bytelen)), true, old(Abs()), old(Unread()))
    {
      ghost var u := Unread();
      pos := pos + bytelen;
      assert Unread() == u[bytelen..];
      Accept(obj, u, bytelen);
    }

    method ProcessBulkItem() returns (ok: bool)
      requires Valid() && ridx >= 0 && err == 0 && rstack[ridx].typ == REPLY_STRING
      modifies this`pos, this`ridx, this`reply, this`rstack
      ensures After(ItemStep(old(Abs()).frames, ReadItem(old(Abs()).typ, old(Unread()))), ok, old(Abs()), old(Unread()))
    {
      hide Deliver, FindCRLF, ReadLongLong;
      ghost var u, frames := Unread(), Abs().frames;
      ghost var item := ReadItem(REPLY_STRING, u);
      var p := pos;
      var s := SeekNewline(p, len - pos);
      if s != -1 {
        assert u[s] in u;
        var obj := NilReply;
        var success := false;
        var bytelen := s + 2;
        var n := ReadNumber(p);
        BulkItem(buf, p, s, n);
        if n < 0 {
          success := true;
        } else {
          bytelen := bytelen + n + 2;
          if pos + bytelen <= len {
            obj := StringReply(buf[p + s + 2..p + s + 2 + n]);
            success := true;
          }
        }
        if success {
          assert item == Complete(obj, bytelen);
          Proceed(obj, bytelen);
          return true;
        }
      }
      ok := false;
    }

    /** Makes the task an array of n elements and stacks a task for the first of them. */
    method OpenArray(n: int)
      requires Valid() && 0 <= ridx < STACK_SIZE - 1 && err == 0 && n > 0
      requires rstack[ridx].typ == REPLY_ARRAY
      modifies this`ridx, this`rstack
      ensures Valid() && ridx == old(ridx) + 1
      ensures Abs() == State(FramesOf(old(rstack), old(ridx)) + [Frame(n, [])], UNTYPED)
    {
      hide FramesOf;
      PushTask(rstack, ridx, n);
      rstack := rstack[ridx := rstack[ridx].(elements := n, element := [])];
      ridx := ridx + 1;
      rstack := rstack[ridx := ReadTask(UNTYPED, -1, 0, [], ridx - 1)];
    }

    /** An array announced with n elements: nil, empty, opened, or beyond what the reader defines. */
    method StartArray(n: int, ghost u: string, ghost used: nat) returns (ok: bool)
      requires Valid() && 0 <= ridx < STACK_SIZE - 1 && err == 0 && rstack[ridx].typ == REPLY_ARRAY
      requires used <= |u| && Unread() == u[used..]
      modifies this
      ensures After(ItemStep(old(Abs()).frames, CountItem(n, used)), ok, old(Abs()), u)
    {
      hide Deliver, FramesOf, StackShape, SizeT;
      if n == -1 {
        Accept(NilReply, u, used);
        return true;
      } else if n <= 0 {
        Accept(ArrayReply(SizeT(Cut32(n)), []), u, used);
        return true;
      } else if Cut32(n) > 0 {
        OpenArray(Cut32(n));
        return true;
      } else {
        SetError(ERR_UNDEFINED, CountLost);
        return false;
      }
    }

    /** An array below the last slot, once its count line is there. */
    method ProcessArrayItem() returns (ok: bool)
      requires Valid() && 0 <= ridx < STACK_SIZE - 1 && err == 0 && rstack[ridx].typ == REPLY_ARRAY
      modifies this
      ensures After(ItemStep(old(Abs()).frames, ReadItem(REPLY_ARRAY, old(Unread()))), ok, old(Abs()), old(Unread()))
    {
      hide Deliver, FindCRLF, ReadLongLong, ReadItem, FramesOf, StackShape, CountItem, IsLong;
      ghost var u := Unread();
      var p, line := ReadLine();
      if p == -1 {
        NoLine(REPLY_ARRAY, u);
        return false;
      }
      hide ItemStep, After;
      assert u[line] in u;
      var n := ReadNumber(p);
      ArrayItem(u, line, n);
      assert Unread() == u[line + 2..];
      ok := StartArray(n, u, line + 2);
    }

    method ProcessMultiBulkItem() returns (ok: bool)
      requires Shape() && ridx >= 0 && err == 0 && rstack[ridx].typ == REPLY_ARRAY
      modifies this
      ensures After(if old(ridx) == STACK_SIZE - 1 then Fail(TooDeep)
                    else ItemStep(old(Abs()).frames, ReadItem(REPLY_ARRAY, old(Unread()))),
                    ok, old(Abs()), old(Unread()))
    {
      hide ItemStep, ReadItem, FramesOf, StackShape;
      StackBounds(rstack, ridx);
      if ridx == STACK_SIZE - 1 {
        SetError(ERR_PROTOCOL, TooDeep);
        return false;
      }
      ok := ProcessArrayItem();
    }

    /** One call takes one transition when the type is known. Otherwise it takes two, and `ok`
        tells whether the second one was possible. */
    method ProcessItem() returns (ok: bool)
      requires Valid() && ridx >= 0 && err == 0
      modifies this
      ensures var s, u := old(Abs()), old(Unread());
        var step := Next(s, u);
        if s.typ == UNTYPED && step.Advance?
        then After(Next(step.state, u[1..]), ok, step.state, u[1..])
        else After(step, ok, s, u)
    {
      hide ReadItem, Deliver, Linked, FramesOf;
      ghost var u, s, ts := Unread(), Abs(), rstack;
      if rstack[ridx].typ < 0 {
        if len - pos >= 1 {
          var c := buf[pos];
          pos := pos + 1;
          assert Unread() == u[1..];
          var typ := UNTYPED;
          if c == '-' { typ := REPLY_ERROR; }
          else if c == '+' { typ := REPLY_STATUS; }
          else if c == ':' { typ := REPLY_INTEGER; }
          else if c == '$' { typ := REPLY_STRING; }
          else if c == '*' { typ := REPLY_ARRAY; }
          else {
            SetError(ERR_PROTOCOL, ProtocolByte(c));
            return false;
          }
          SetType(ts, ridx, typ);
          rstack := rstack[ridx := rstack[ridx].(typ := typ)];
        } else {
          return false;
        }
      }
      var typ := rstack[ridx].typ;
      if typ == REPLY_ERROR || typ == REPLY_STATUS || typ == REPLY_INTEGER {
        ok := ProcessLineItem();
      } else if typ == REPLY_STRING {
        ok := ProcessBulkItem();
      } else {
        ok := ProcessMultiBulkItem();
      }
    }

    /** ProcessItem, seen from the reply that is coming: a call that goes on leaves it the same,
        a call that stops has settled it. */
    method TurnItem() returns (ok: bool)
      requires Valid() && ridx >= 0 && err == 0
      modifies this
      ensures Valid() && (err != 0 ==> !ok) && (ridx == -1 && err == 0 ==> reply.Some?)
      ensures ok && ridx >= 0 ==>
                TakeReply(Abs(), Unread()) == TakeReply(old(Abs()), old(Unread())) && |Unread()| < |old(Unread())|
      ensures !ok || ridx == -1 ==>
                Turn(reply, Abs(), Unread(), failure) == TakeReply(old(Abs()), old(Unread()))
    {
      hide ReadItem, ItemStep, Deliver;
      ghost var s, u := Abs(), Unread();
      ghost var step := Next(s, u);
      ok := ProcessItem();
      if s.typ == UNTYPED && step.Advance? {
        assert TakeReply(s, u) == TakeReply(step.state, u[1..]);
      }
    }

    /** Adds bytes. `avail` is the spare capacity the string library reports for the buffer; a
        large idle buffer is dropped first, which changes nothing that can be read. */
    method Feed(data: string, avail: nat) returns (status: int)
      requires Valid() && reply.None?
      modifies this`buf, this`pos, this`len
      ensures Valid()
      ensures old(err) != 0 ==> status == ERR && Unread() == old(Unread())
      ensures old(err) == 0 ==> status == OK && Unread() == old(Unread()) + data
      ensures Abs() == old(Abs())
    {
      if err != 0 { return ERR; }
      if |data| >= 1 {
        if len == 0 && maxbuf != 0 && avail > maxbuf {
          buf := [];
          pos := 0;
        }
        buf := buf + data;
        len := |buf|;
      }
      status := OK;
    }

    /** Puts the root task on an empty stack. */
    method StartTask()
      requires Valid() && ridx == -1 && err == 0 && reply.None?
      modifies this`rstack, this`ridx
      ensures Valid() && ridx == 0 && Abs() == old(Abs())
    {
      rstack := rstack[0 := ReadTask(UNTYPED, -1, -1, [], -1)];
      ridx := 0;
    }

    /** Drops the consumed part of the buffer once it is long. */
    method Discard()
      requires Valid()
      modifies this`buf, this`pos, this`len
      ensures Valid() && Abs() == old(Abs()) && Unread() == old(Unread())
      ensures pos < DISCARD_AT
    {
      if pos >= DISCARD_AT {
        buf := buf[pos..];
        pos := 0;
        len := |buf|;
      }
    }

    /** The next reply, if the bytes so far hold a whole one. */
    method GetReply() returns (status: int, out: Option<Reply>)
      requires Valid() && reply.None?
      modifies this
      ensures Valid() && reply.None?
      ensures old(err) != 0 ==> status == ERR && out.None? && err == old(err) && failure == old(failure)
      ensures old(err) == 0 ==> Turn(out, Abs(), Unread(), failure) == TakeReply(old(Abs()), old(Unread()))
      ensures status == if err != 0 then ERR else OK
    {
      hide TakeReply;
      ghost var turn := TakeReply(Abs(), Unread());
      out := None;
      if err != 0 { return ERR, None; }
      if len == 0 {
        NothingToTake(Abs());
        return OK, None;
      }
      if ridx == -1 {
        StartTask();
      }
      var ok := true;
      while ok && ridx >= 0
        invariant Valid() && (err != 0 ==> !ok) && (ridx == -1 && err == 0 ==> reply.Some?)
        invariant ok && ridx >= 0 ==> TakeReply(Abs(), Unread()) == turn
        invariant !ok || ridx == -1 ==> Turn(reply, Abs(), Unread(), failure) == turn
        decreases ok, |Unread()|
      {
        ok := TurnItem();
      }
      if err != 0 { return ERR, None; }
      Discard();
      if ridx == -1 {
        out := reply;
        reply := None;
      }
      status := OK;
    }

    /** Takes replies until there is none left to take. */
    method Drain() returns (replies: seq<Reply>)
      requires Valid() && reply.None? && err == 0
      modifies this
      ensures Valid() && reply.None?
      ensures Outcome(replies, Abs(), Unread(), failure) == Run(old(Abs()), old(Unread()))
    {
      hide Run, TakeReply, StackShape, FramesOf, StateOf;
      replies := [];
      var more := true;
      ghost var whole := Run(Abs(), Unread());
      while more
        invariant Valid() && reply.None?
        invariant more ==> err == 0 && whole == PrependAll(replies, Run(Abs(), Unread()))
        invariant !more ==> whole == Outcome(replies, Abs(), Unread(), failure)
        decreases more, |Unread()|
      {
        RunIsTurns(Abs(), Unread());
        var status, out := GetReply();
        if out.Some? {
          replies := replies + [out.value];
        } else {
          more := false;
        }
      }
    }

    /** What a client does: feed each chunk as it arrives and take every reply it completes. `avails`
        are the spare capacities the string library reports on the way. */
    method FeedAndDrain(chunks: seq<string>, avails: seq<nat>) returns (replies: seq<Reply>)
      requires |avails| == |chunks|
      requires Valid() && reply.None?
      requires err == 0 && Abs() == IDLE && Unread() == []
      modifies this
      ensures Valid() && reply.None?
      ensures var whole := Run(IDLE, Concat(chunks)); replies == whole.replies && failure == whole.failure
    {
      hide Run, StackShape, FramesOf, StateOf;
      replies := [];
      ghost var start := Outcome([], IDLE, [], None);
      for i := 0 to |chunks|
        invariant Valid() && reply.None?
        invariant ResumeAll(Outcome(replies, Abs(), Unread(), failure), chunks[i..]) == ResumeAll(start, chunks)
      {
        assert chunks[i..][0] == chunks[i] && chunks[i..][1..] == chunks[i + 1..];
        var status := Feed(chunks[i], avails[i]);
        if status == OK {
          var more := Drain();
          replies := replies + more;
        }
      }
      ChunkIndependence(chunks);
    }
  }
}
