/** LOG_PRINT run by any number of threads: each opens a log slot, prints to it and closes it, one
    atomic step at a time, under one spinlock for each slot. */
module LogSlots {

  const MAX_LOGS := 100
  const LOG_USER := 1

  /** Where a thread stands. In log_open it works its way along the slots; Check, Found, Next and
      the states of printing and closing behind the lock hold the lock of the slot. */
  datatype Thread =
    | Idle
    | OpenLock(slot: nat)
    | OpenCheck(slot: nat)
    | OpenNext(slot: nat)
    | OpenFound(slot: nat)
    | PrintLock(slot: nat)
    | PrintCheck(slot: nat)
    | Printing(slot: nat)
    | CloseLock(slot: nat)
    | CloseCheck(slot: nat)
    | CloseUnlock(slot: nat)
    | PrintStdout

  /** log_files, as whether a file is in the slot; log_locks; and all the threads. */
  datatype World = World(files: seq<bool>, locks: seq<bool>, threads: seq<Thread>)

  predicate Holds(t: Thread, i: nat) {
    (t.OpenCheck? || t.OpenNext? || t.OpenFound? || t.PrintCheck? || t.Printing? || t.CloseCheck? || t.CloseUnlock?)
    && t.slot == i
  }

  /** The file in the slot is the one this thread opened. */
  predicate Owns(t: Thread, i: nat) {
    (t.OpenFound? || t.PrintLock? || t.PrintCheck? || t.Printing? || t.CloseLock? || t.CloseCheck?) && t.slot == i
  }

  predicate SlotOk(t: Thread) {
    t.Idle? || t.PrintStdout? || LOG_USER <= t.slot <= MAX_LOGS
  }

  predicate Shaped(w: World) {
    && |w.files| == |w.locks| == MAX_LOGS + 1
    && forall k :: 0 <= k < |w.threads| ==> SlotOk(w.threads[k])
  }

  function AllFalse(n: nat): seq<bool> {
    seq(n, _ => false)
  }

  predicate Initial(w: World) {
    && w.files == w.locks == AllFalse(MAX_LOGS + 1)
    && forall k :: 0 <= k < |w.threads| ==> w.threads[k].Idle?
  }

  /** A thread asks for a lock: it has it, or it spins. */
  function Take(w: World, t: nat, i: nat, then_: Thread): World
    requires t < |w.threads| && i < |w.locks|
  {
    if w.locks[i] then w else w.(locks := w.locks[i := true], threads := w.threads[t := then_])
  }

  function Release(w: World, t: nat, i: nat, then_: Thread): World
    requires t < |w.threads| && i < |w.locks|
  {
    w.(locks := w.locks[i := false], threads := w.threads[t := then_])
  }

  function Move(w: World, t: nat, then_: Thread): World
    requires t < |w.threads|
  {
    w.(threads := w.threads[t := then_])
  }

  /** The next atomic step of one thread; `ok` is whether fopen succeeds, if this step calls it. */
  function Next(w: World, t: nat, ok: bool): (n: World)
    requires Shaped(w) && t < |w.threads|
    ensures Shaped(n) && |n.threads| == |w.threads|
  {
    assert SlotOk(w.threads[t]);
    match w.threads[t]
    case Idle => Move(w, t, OpenLock(LOG_USER))
    case OpenLock(i) => Take(w, t, i, OpenCheck(i))
    case OpenCheck(i) =>
      if w.files[i] || !ok then Move(w, t, OpenNext(i))
      else Move(w.(files := w.files[i := true]), t, OpenFound(i))
    case OpenNext(i) => Release(w, t, i, if i < MAX_LOGS then OpenLock(i + 1) else PrintStdout)
    case OpenFound(i) => Release(w, t, i, PrintLock(i))
    case PrintLock(i) => Take(w, t, i, PrintCheck(i))
    case PrintCheck(i) => if w.files[i] then Move(w, t, Printing(i)) else Release(w, t, i, CloseLock(i))
    case Printing(i) => Release(w, t, i, CloseLock(i))
    case CloseLock(i) => Take(w, t, i, CloseCheck(i))
    case CloseCheck(i) => Move(w.(files := w.files[i := false]), t, CloseUnlock(i))
    case CloseUnlock(i) => Release(w, t, i, Idle)
    case PrintStdout => Move(w, t, Idle)
  }

  // -------------------------------------------------------------------------- the invariant

  ghost predicate OneHolder(w: World, i: nat) {
    forall t, u :: 0 <= t < u < |w.threads| ==> !(Holds(w.threads[t], i) && Holds(w.threads[u], i))
  }

  ghost predicate OneOwner(w: World, i: nat) {
    forall t, u :: 0 <= t < u < |w.threads| ==> !(Owns(w.threads[t], i) && Owns(w.threads[u], i))
  }

  ghost predicate Held(w: World, i: nat) {
    exists t :: 0 <= t < |w.threads| && Holds(w.threads[t], i)
  }

  ghost predicate Owned(w: World, i: nat) {
    exists t :: 0 <= t < |w.threads| && Owns(w.threads[t], i)
  }

  /** The lock of a slot is taken exactly when one thread holds it, and there is a file in the slot
      exactly when one thread owns it. */
  ghost predicate SlotInv(w: World, i: nat)
    requires i < |w.files| && i < |w.locks|
  {
    && OneHolder(w, i) && (w.locks[i] <==> Held(w, i))
    && OneOwner(w, i) && (w.files[i] <==> Owned(w, i))
  }

  ghost predicate Inv(w: World) {
    Shaped(w) && forall i :: 0 <= i <= MAX_LOGS ==> SlotInv(w, i)
  }

  lemma InitialInv(w: World)
    requires Initial(w)
    ensures Inv(w)
  {
  }

  /** How one thread's step changes what it holds and owns keeps the invariant of a slot. */
  lemma StepSlot(w: World, w': World, t: nat, i: nat)
    requires i < |w.files| == |w'.files| && i < |w.locks| == |w'.locks| && SlotInv(w, i)
    requires t < |w.threads| == |w'.threads| && w'.threads == w.threads[t := w'.threads[t]]
    requires var before, after := w.threads[t], w'.threads[t];
      && (Holds(after, i) && !Holds(before, i) ==> !w.locks[i])
      && (Owns(after, i) && !Owns(before, i) ==> !w.files[i])
      && w'.locks[i] == (if Holds(before, i) == Holds(after, i) then w.locks[i] else Holds(after, i))
      && w'.files[i] == (if Owns(before, i) == Owns(after, i) then w.files[i] else Owns(after, i))
    ensures SlotInv(w', i)
  {
    hide Holds, Owns;
    StepHolder(w, w', t, i);
    StepOwner(w, w', t, i);
  }

  lemma StepHolder(w: World, w': World, t: nat, i: nat)
    requires i < |w.locks| == |w'.locks| && OneHolder(w, i) && (w.locks[i] <==> Held(w, i))
    requires t < |w.threads| == |w'.threads| && w'.threads == w.threads[t := w'.threads[t]]
    requires var before, after := w.threads[t], w'.threads[t];
      && (Holds(after, i) && !Holds(before, i) ==> !w.locks[i])
      && w'.locks[i] == (if Holds(before, i) == Holds(after, i) then w.locks[i] else Holds(after, i))
    ensures OneHolder(w', i) && (w'.locks[i] <==> Held(w', i))
  {
    hide Holds;
    forall u | 0 <= u < |w.threads| && u != t
      ensures w'.threads[u] == w.threads[u]
    {
    }
    assert Holds(w.threads[t], i) ==> w.locks[i];
    assert w'.locks[i] ==> Held(w', i) by {
      if w'.locks[i] && !Holds(w'.threads[t], i) {
        var u :| 0 <= u < |w.threads| && Holds(w.threads[u], i);
        assert Holds(w'.threads[u], i);
      }
    }
    assert Holds(w'.threads[t], i) ==> w'.locks[i];
  }

  lemma StepOwner(w: World, w': World, t: nat, i: nat)
    requires i < |w.files| == |w'.files| && OneOwner(w, i) && (w.files[i] <==> Owned(w, i))
    requires t < |w.threads| == |w'.threads| && w'.threads == w.threads[t := w'.threads[t]]
    requires var before, after := w.threads[t], w'.threads[t];
      && (Owns(after, i) && !Owns(before, i) ==> !w.files[i])
      && w'.files[i] == (if Owns(before, i) == Owns(after, i) then w.files[i] else Owns(after, i))
    ensures OneOwner(w', i) && (w'.files[i] <==> Owned(w', i))
  {
    hide Owns;
    forall u | 0 <= u < |w.threads| && u != t
      ensures w'.threads[u] == w.threads[u]
    {
    }
    assert Owns(w.threads[t], i) ==> w.files[i];
    assert w'.files[i] ==> Owned(w', i) by {
      if w'.files[i] && !Owns(w'.threads[t], i) {
        var u :| 0 <= u < |w.threads| && Owns(w.threads[u], i);
        assert Owns(w'.threads[u], i);
      }
    }
    assert Owns(w'.threads[t], i) ==> w'.files[i];
  }

  /** A thread that has the lock of its own slot finds its file there. */
  lemma OwnFileIsOpen(w: World, t: nat)
    requires Inv(w) && t < |w.threads|
    ensures var s := w.threads[t];
      s.PrintLock? || s.PrintCheck? || s.Printing? || s.CloseLock? || s.CloseCheck? ==> w.files[s.slot]
  {
    var s := w.threads[t];
    assert SlotOk(s);
    if s.PrintLock? || s.PrintCheck? || s.Printing? || s.CloseLock? || s.CloseCheck? {
      assert SlotInv(w, s.slot);
    }
  }

  lemma NextInv(w: World, t: nat, ok: bool)
    requires Inv(w) && t < |w.threads|
    ensures Inv(Next(w, t, ok))
  {
    var w' := Next(w, t, ok);
    assert SlotOk(w.threads[t]);
    OwnFileIsOpen(w, t);
    forall i | 0 <= i <= MAX_LOGS
      ensures SlotInv(w', i)
    {
      assert SlotInv(w, i);
      hide SlotInv;
      if w' != w {
        StepSlot(w, w', t, i);
      }
    }
  }

  // ------------------------------------------------------------------------------------ runs

  datatype Choice = Choice(thread: nat, ok: bool)

  /** Any interleaving: which thread moves, and whether its fopen succeeds. */
  function Run(w: World, schedule: seq<Choice>): (r: World)
    requires Shaped(w)
    ensures Shaped(r) && |r.threads| == |w.threads|
    decreases |schedule|
  {
    if schedule == [] then w else Run(After(w, schedule[0]), schedule[1..])
  }

  function After(w: World, c: Choice): (n: World)
    requires Shaped(w)
    ensures Shaped(n) && |n.threads| == |w.threads|
  {
    if c.thread < |w.threads| then Next(w, c.thread, c.ok) else w
  }

  lemma {:induction false} RunInv(w: World, schedule: seq<Choice>)
    requires Inv(w)
    ensures Inv(Run(w, schedule))
    decreases |schedule|
  {
    hide Next, Inv;
    assert Shaped(w) by { InvIsShaped(w); }
    if schedule != [] {
      var c := schedule[0];
      if c.thread < |w.threads| {
        NextInv(w, c.thread, c.ok);
      }
      RunInv(After(w, c), schedule[1..]);
    }
  }

  lemma InvIsShaped(w: World)
    requires Inv(w)
    ensures Shaped(w)
  {
  }

  /** In whatever order the threads move: no lock has two holders, no slot two owners, and a thread
      that is about to print, prints or is about to close finds its slot open. */
  lemma Safety(w: World, schedule: seq<Choice>)
    requires Initial(w)
    ensures var r := Run(w, schedule);
      && (forall i :: 0 <= i <= MAX_LOGS ==> OneHolder(r, i) && OneOwner(r, i))
      && (forall i :: 0 <= i <= MAX_LOGS ==> (r.locks[i] <==> Held(r, i)) && (r.files[i] <==> Owned(r, i)))
      && (forall t :: 0 <= t < |r.threads| ==> FileThere(r, r.threads[t]))
  {
    hide Run, OneHolder, OneOwner, Held, Owned;
    InitialInv(w);
    RunInv(w, schedule);
    var r := Run(w, schedule);
    forall i | 0 <= i <= MAX_LOGS
      ensures OneHolder(r, i) && OneOwner(r, i)
      ensures (r.locks[i] <==> Held(r, i)) && (r.files[i] <==> Owned(r, i))
    {
      assert SlotInv(r, i);
    }
    forall t | 0 <= t < |r.threads|
      ensures FileThere(r, r.threads[t])
    {
      assert SlotOk(r.threads[t]);
      OwnFileIsOpen(r, t);
    }
  }

  predicate FileThere(w: World, s: Thread)
    requires SlotOk(s) && |w.files| == MAX_LOGS + 1
  {
    s.PrintLock? || s.PrintCheck? || s.Printing? || s.CloseLock? || s.CloseCheck? ==> w.files[s.slot]
  }

  /** With no thread inside LOG_PRINT everything is as log_init left it. */
  lemma Quiescent(w: World, schedule: seq<Choice>)
    requires Initial(w)
    requires forall t :: 0 <= t < |w.threads| ==> Run(w, schedule).threads[t].Idle?
    ensures Run(w, schedule) == w
  {
    hide Run;
    InitialInv(w);
    RunInv(w, schedule);
    var r := Run(w, schedule);
    forall i | 0 <= i <= MAX_LOGS
      ensures !r.files[i] && !r.locks[i]
    {
      assert SlotInv(r, i);
    }
    assert r.files == w.files && r.locks == w.locks;
    assert r.threads == w.threads;
  }

  // --------------------------------------------------------------------------------- progress

  /** While a thread is inside LOG_PRINT, some thread that is inside can move on. */
  lemma NoDeadlock(w: World, t: nat, ok: bool) returns (u: nat)
    requires Inv(w) && t < |w.threads| && !w.threads[t].Idle?
    ensures u < |w.threads| && !w.threads[u].Idle? && Next(w, u, ok) != w
  {
    var s := w.threads[t];
    assert SlotOk(s);
    u := t;
    if Next(w, t, ok) == w {
      assert SlotInv(w, s.slot);
      u :| 0 <= u < |w.threads| && Holds(w.threads[u], s.slot);
      assert SlotOk(w.threads[u]);
      assert Next(w, u, ok).threads[u] != w.threads[u];
    }
  }

  /** The steps a thread still has before it, spinning aside. */
  function Work(s: Thread): nat
    requires SlotOk(s)
  {
    match s
    case Idle => 0
    case PrintStdout => 1
    case CloseUnlock(_) => 1
    case CloseCheck(_) => 2
    case CloseLock(_) => 3
    case Printing(_) => 4
    case PrintCheck(_) => 5
    case PrintLock(_) => 6
    case OpenFound(_) => 7
    case OpenNext(i) => 3 * (MAX_LOGS - i) + 8
    case OpenCheck(i) => 3 * (MAX_LOGS - i) + 9
    case OpenLock(i) => 3 * (MAX_LOGS - i) + 10
  }

  /** Every step but a turn of a spin loop brings its thread nearer to the end of LOG_PRINT. */
  lemma WorkFalls(w: World, t: nat, ok: bool)
    requires Shaped(w) && t < |w.threads| && !w.threads[t].Idle? && Next(w, t, ok) != w
    ensures SlotOk(w.threads[t]) && SlotOk(Next(w, t, ok).threads[t])
    ensures Work(Next(w, t, ok).threads[t]) < Work(w.threads[t])
  {
    assert SlotOk(w.threads[t]);
  }

  // -------------------------------------------------------------------- how many slots are used

  /** How far along the slots a thread has come; past the last one it prints to stdout. */
  function Place(s: Thread): nat {
    match s
    case Idle => 0
    case CloseUnlock(_) => 0
    case OpenNext(i) => i + 1
    case PrintStdout => MAX_LOGS + 1
    case _ => s.slot
  }

  /** How many threads have come as far as slot j. */
  function Crowd(threads: seq<Thread>, j: nat): (n: nat)
    ensures n <= |threads|
  {
    if threads == [] then 0 else (if Place(threads[0]) >= j then 1 else 0) + Crowd(threads[1..], j)
  }

  lemma {:induction false} CrowdUpdate(threads: seq<Thread>, t: nat, s: Thread, j: nat)
    requires t < |threads|
    ensures Crowd(threads[t := s], j)
         == Crowd(threads, j) - (if Place(threads[t]) >= j then 1 else 0) + if Place(s) >= j then 1 else 0
    decreases |threads|
  {
    hide Place;
    var after := threads[t := s];
    if t == 0 {
      assert after[1..] == threads[1..];
    } else {
      CrowdUpdate(threads[1..], t - 1, s, j);
      assert after[1..] == threads[1..][t - 1 := s];
    }
  }

  /** Whoever is exactly at j counts for j and not for j + 1. */
  lemma CrowdGap(threads: seq<Thread>, t: nat, u: nat, j: nat)
    requires t < |threads| && u < |threads| && t != u && Place(threads[t]) == Place(threads[u]) == j > 0
    ensures Crowd(threads, j + 1) + 2 <= Crowd(threads, j)
  {
    hide Place;
    assert Place(Idle) == 0 by { IdlePlace(); }
    var x := threads[t := Idle];
    var y := x[u := Idle];
    CrowdUpdate(threads, t, Idle, j);
    CrowdUpdate(threads, t, Idle, j + 1);
    CrowdUpdate(x, u, Idle, j);
    CrowdUpdate(x, u, Idle, j + 1);
    CrowdFalls(y, j);
  }

  lemma IdlePlace()
    ensures Place(Idle) == 0
  {
  }

  lemma {:induction false} CrowdFalls(threads: seq<Thread>, j: nat)
    ensures Crowd(threads, j + 1) <= Crowd(threads, j)
  {
    hide Place;
    if threads != [] {
      CrowdFalls(threads[1..], j);
    }
  }

  /** Of the threads, j - 1 at least are behind those that have come as far as slot j, if any have. */
  ghost predicate Spread(threads: seq<Thread>) {
    forall j :: 1 <= j <= MAX_LOGS + 1 && Crowd(threads, j) > 0 ==> Crowd(threads, j) + j <= |threads| + 1
  }

  lemma {:induction false} NobodyThere(threads: seq<Thread>, j: nat)
    requires j > 0 && forall k :: 0 <= k < |threads| ==> threads[k].Idle?
    ensures Crowd(threads, j) == 0
    decreases |threads|
  {
    if threads != [] {
      NobodyThere(threads[1..], j);
    }
  }

  /** A thread goes past a slot only while another one has it, if fopen does not fail. */
  lemma NextSpread(w: World, t: nat)
    requires Inv(w) && Spread(w.threads) && t < |w.threads|
    ensures Spread(Next(w, t, true).threads)
  {
    var before, after := w.threads[t], Next(w, t, true).threads[t];
    assert SlotOk(before);
    var threads' := Next(w, t, true).threads;
    assert threads' == w.threads[t := after];
    var passing := before.OpenCheck? && w.files[before.slot];
    assert passing ==> SlotInv(w, before.slot);
    assert Place(after) <= Place(before) || before.Idle? || (passing && Place(after) == Place(before) + 1);
    hide Next, Inv, SlotInv;
    forall j | 1 <= j <= MAX_LOGS + 1
      ensures Crowd(threads', j) > 0 ==> Crowd(threads', j) + j <= |threads'| + 1
    {
      CrowdUpdate(w.threads, t, after, j);
      if passing && j == Place(after) {
        var u := Passed(w, before.slot);
        CrowdGap(w.threads, t, u, before.slot);
      }
    }
  }

  lemma Passed(w: World, i: nat) returns (u: nat)
    requires i < |w.files| && i < |w.locks| && SlotInv(w, i) && w.files[i]
    ensures u < |w.threads| && Owns(w.threads[u], i) && Place(w.threads[u]) == i
  {
    u :| 0 <= u < |w.threads| && Owns(w.threads[u], i);
  }

  /** fopen never fails. */
  predicate AllOk(schedule: seq<Choice>) {
    forall k :: 0 <= k < |schedule| ==> schedule[k].ok
  }

  lemma {:induction false} RunSpread(w: World, schedule: seq<Choice>)
    requires Inv(w) && Spread(w.threads) && AllOk(schedule)
    ensures Spread(Run(w, schedule).threads)
    decreases |schedule|
  {
    hide Next, Inv, Spread;
    InvIsShaped(w);
    if schedule != [] {
      var c := schedule[0];
      if c.thread < |w.threads| {
        NextInv(w, c.thread, true);
        NextSpread(w, c.thread);
      }
      RunSpread(After(w, c), schedule[1..]);
    }
  }

  lemma {:induction false} SomebodyThere(threads: seq<Thread>, t: nat)
    requires t < |threads|
    ensures Crowd(threads, Place(threads[t])) > 0
    decreases |threads|
  {
    hide Place;
    if t > 0 {
      SomebodyThere(threads[1..], t - 1);
    }
  }

  /** As long as fopen works, no more slots are used than there are threads, whatever the order in
      which they move: so with up to MAX_LOGS threads log_open never fails. */
  lemma {:induction false} SlotsSuffice(w: World, schedule: seq<Choice>, t: nat)
    requires Initial(w) && t < |w.threads| && AllOk(schedule)
    ensures Place(Run(w, schedule).threads[t]) <= |w.threads|
    ensures |w.threads| <= 100 ==> !Run(w, schedule).threads[t].PrintStdout?
  {
    hide Run;
    InitialInv(w);
    forall j | 1 <= j <= MAX_LOGS + 1
      ensures Crowd(w.threads, j) == 0
    {
      NobodyThere(w.threads, j);
    }
    RunSpread(w, schedule);
    var threads := Run(w, schedule).threads;
    SomebodyThere(threads, t);
    assert SlotOk(threads[t]);
  }

  // ------------------------------------------------------------ and with more threads than slots

  /** Of n threads the first j have opened slots 1 to j and are about to print; nobody else logs. */
  function Filled(n: nat, j: nat): (w: World)
    requires j <= n && j <= MAX_LOGS
    ensures Shaped(w)
  {
    World(seq(MAX_LOGS + 1, i => 1 <= i <= j), AllFalse(MAX_LOGS + 1),
          seq(n, k requires 0 <= k < n => if k < j then PrintLock(k + 1) else Idle))
  }

  /** The same, and the next thread is at slot i. */
  function Seeking(n: nat, j: nat, i: nat): (w: World)
    requires j < n && j <= MAX_LOGS && 1 <= i <= MAX_LOGS
    ensures Shaped(w)
  {
    Move(Filled(n, j), j, OpenLock(i))
  }

  lemma {:induction false} RunAppend(w: World, s: seq<Choice>, t: seq<Choice>)
    requires Shaped(w)
    ensures Run(w, s + t) == Run(Run(w, s), t)
    decreases |s|
  {
    hide After;
    if s == [] {
      assert s + t == t;
    } else {
      RunAppend(After(w, s[0]), s[1..], t);
      assert (s + t)[1..] == s[1..] + t;
    }
  }

  lemma RunStep(w: World, c: Choice)
    requires Shaped(w)
    ensures Run(w, [c]) == After(w, c)
  {
    assert [c][1..] == [];
  }

  /** Three steps of one thread. */
  lemma RunThree(w: World, c: Choice)
    requires Shaped(w)
    ensures Run(w, [c, c, c]) == After(After(After(w, c), c), c)
  {
    hide After;
    RunStep(w, c);
    RunAppend(w, [c], [c, c]);
    RunStep(After(w, c), c);
    RunAppend(After(w, c), [c], [c]);
    RunStep(After(After(w, c), c), c);
    assert [c] + [c, c] == [c, c, c] && [c] + [c] == [c, c];
  }

  /** A slot in use is passed. */
  lemma PassSlot(n: nat, j: nat, i: nat)
    requires j < n && 1 <= i <= j <= MAX_LOGS
    ensures var c := Choice(j, true);
      Run(Seeking(n, j, i), [c, c, c])
      == if i < MAX_LOGS then Seeking(n, j, i + 1) else Move(Filled(n, j), j, PrintStdout)
  {
    hide Run;
    var w := Seeking(n, j, i);
    RunThree(w, Choice(j, true));
    var w1 := Next(w, j, true);
    assert w1 == w.(locks := w.locks[i := true], threads := w.threads[j := OpenCheck(i)]);
    var w2 := Next(w1, j, true);
    assert w2 == w1.(threads := w1.threads[j := OpenNext(i)]);
    var w3 := Next(w2, j, true);
    assert w3.locks == w.locks && w3.files == w.files;
    assert w3.threads == w.threads[j := if i < MAX_LOGS then OpenLock(i + 1) else PrintStdout];
    assert w.threads[j := w3.threads[j]] == Filled(n, j).threads[j := w3.threads[j]];
  }

  /** The first free slot is taken. */
  lemma TakeSlot(n: nat, j: nat)
    requires j < n && j < MAX_LOGS
    ensures var c := Choice(j, true);
      Run(Seeking(n, j, j + 1), [c, c, c]) == Filled(n, j + 1)
  {
    hide Run;
    var i := j + 1;
    var w := Seeking(n, j, i);
    RunThree(w, Choice(j, true));
    var w1 := Next(w, j, true);
    assert w1 == w.(locks := w.locks[i := true], threads := w.threads[j := OpenCheck(i)]);
    var w2 := Next(w1, j, true);
    assert w2 == w1.(files := w1.files[i := true], threads := w1.threads[j := OpenFound(i)]);
    var w3 := Next(w2, j, true);
    assert w3.locks == w.locks;
    assert w3.files == w.files[i := true] == Filled(n, j + 1).files;
    assert w3.threads == w.threads[j := PrintLock(i)] == Filled(n, j + 1).threads;
  }

  /** From slot i on, the thread takes the first free slot, or comes to the end of them. */
  lemma {:induction false} SeekOn(n: nat, j: nat, i: nat) returns (schedule: seq<Choice>)
    requires j < n && 1 <= i <= j + 1 && i <= MAX_LOGS && j <= MAX_LOGS
    ensures AllOk(schedule)
    ensures Run(Seeking(n, j, i), schedule)
         == if j < MAX_LOGS then Filled(n, j + 1) else Move(Filled(n, j), j, PrintStdout)
    decreases j + 1 - i
  {
    hide Run, Seeking, Filled, Move;
    var c := Choice(j, true);
    schedule := [c, c, c];
    if i == j + 1 {
      TakeSlot(n, j);
    } else {
      PassSlot(n, j, i);
      if i < MAX_LOGS {
        var later := SeekOn(n, j, i + 1);
        RunAppend(Seeking(n, j, i), schedule, later);
        schedule := schedule + later;
      }
    }
  }

  /** One thread after the other, up to any number of slots. */
  lemma {:induction false} FillUp(n: nat, j: nat) returns (schedule: seq<Choice>)
    requires j <= n && j <= MAX_LOGS
    ensures AllOk(schedule) && Run(Filled(n, 0), schedule) == Filled(n, j)
  {
    hide Run, Seeking, Filled, AllOk;
    schedule := [];
    NoSteps(Filled(n, 0));
    if j > 0 {
      schedule := FillUp(n, j - 1);
      var more := Start(n, j - 1);
      RunAppend(Filled(n, 0), schedule, more);
      AllOkAppend(schedule, more);
      schedule := schedule + more;
    }
  }

  lemma NoSteps(w: World)
    requires Shaped(w)
    ensures Run(w, []) == w && AllOk([])
  {
  }

  lemma AllOkAppend(s: seq<Choice>, t: seq<Choice>)
    requires AllOk(s) && AllOk(t)
    ensures AllOk(s + t)
  {
  }

  /** The next thread begins to log and goes as far as it can. */
  lemma Start(n: nat, j: nat) returns (schedule: seq<Choice>)
    requires j < n && j <= MAX_LOGS
    ensures AllOk(schedule)
    ensures Run(Filled(n, j), schedule)
         == if j < MAX_LOGS then Filled(n, j + 1) else Move(Filled(n, j), j, PrintStdout)
  {
    hide Run;
    var c := Choice(j, true);
    RunStep(Filled(n, j), c);
    assert After(Filled(n, j), c) == Seeking(n, j, 1);
    var later := SeekOn(n, j, 1);
    RunAppend(Filled(n, j), [c], later);
    schedule := [c] + later;
  }

  /** While fopen works, log_open can fail exactly when there are more threads than slots. */
  lemma CanFailIff(n: nat)
    ensures n > 100 <==>
            exists schedule: seq<Choice>, t: nat ::
              AllOk(schedule) && t < n && Run(Filled(n, 0), schedule).threads[t].PrintStdout?
  {
    hide Run;
    assert Initial(Filled(n, 0));
    if n > MAX_LOGS {
      var filling := FillUp(n, MAX_LOGS);
      var last := Start(n, MAX_LOGS);
      RunAppend(Filled(n, 0), filling, last);
      AllOkAppend(filling, last);
      assert Run(Filled(n, 0), filling + last).threads[MAX_LOGS].PrintStdout?;
    }
    forall schedule: seq<Choice>, t: nat | n <= MAX_LOGS && AllOk(schedule) && t < n
      ensures !Run(Filled(n, 0), schedule).threads[t].PrintStdout?
    {
      SlotsSuffice(Filled(n, 0), schedule, t);
    }
  }

  // --------------------------------------------------------------------- the arrays themselves

  class Logs {
    const files: array<bool>
    const locks: array<bool>
    const threads: array<Thread>

    ghost predicate Valid()
      reads this, threads
    {
      && files != locks && files.Length == locks.Length == MAX_LOGS + 1
      && forall k :: 0 <= k < threads.Length ==> SlotOk(threads[k])
    }

    ghost function Now(): World
      reads this, files, locks, threads
    {
      World(files[..], locks[..], threads[..])
    }

    /** log_init, with n threads that are not logging. */
    constructor (n: nat)
      ensures Valid() && Initial(Now()) && threads.Length == n
      ensures fresh(files) && fresh(locks) && fresh(threads)
    {
      files, locks := new bool[MAX_LOGS + 1], new bool[MAX_LOGS + 1];
      threads := new Thread[n](_ => Idle);
      new;
      for i := 0 to MAX_LOGS + 1
        invariant forall k :: 0 <= k < i ==> !files[k] && !locks[k]
        invariant forall k :: 0 <= k < threads.Length ==> threads[k].Idle?
      {
        files[i] := false;
        locks[i] := false;
      }
    }

    /** Fetch-and-or: the lock was free and is now taken, or nothing changes. */
    method TryLock(i: nat) returns (got: bool)
      requires i < locks.Length
      modifies locks
      ensures got == !old(locks[i]) && locks[..] == old(locks[..])[i := true]
    {
      got := !locks[i];
      locks[i] := true;
    }

    method Unlock(i: nat)
      requires i < locks.Length
      modifies locks
      ensures locks[..] == old(locks[..])[i := false]
    {
      locks[i] := false;
    }

    /** One atomic step of one thread. */
    method Step(t: nat, ok: bool)
      requires Valid() && t < threads.Length
      modifies files, locks, threads
      ensures Valid() && Now() == Next(old(Now()), t, ok)
    {
      assert SlotOk(threads[t]);
      match threads[t]
      case Idle => threads[t] := OpenLock(LOG_USER);
      case OpenLock(i) =>
        var got := TryLock(i);
        if got {
          threads[t] := OpenCheck(i);
        }
      case OpenCheck(i) =>
        if !files[i] && ok {
          files[i] := true;
          threads[t] := OpenFound(i);
        } else {
          threads[t] := OpenNext(i);
        }
      case OpenNext(i) =>
        Unlock(i);
        threads[t] := if i < MAX_LOGS then OpenLock(i + 1) else PrintStdout;
      case OpenFound(i) =>
        Unlock(i);
        threads[t] := PrintLock(i);
      case PrintLock(i) =>
        var got := TryLock(i);
        if got {
          threads[t] := PrintCheck(i);
        }
      case PrintCheck(i) =>
        if files[i] {
          threads[t] := Printing(i);
        } else {
          Unlock(i);
          threads[t] := CloseLock(i);
        }
      case Printing(i) =>
        Unlock(i);
        threads[t] := CloseLock(i);
      case CloseLock(i) =>
        var got := TryLock(i);
        if got {
          threads[t] := CloseCheck(i);
        }
      case CloseCheck(i) =>
        if files[i] {
          files[i] := false;
        }
        threads[t] := CloseUnlock(i);
      case CloseUnlock(i) =>
        Unlock(i);
        threads[t] := Idle;
      case PrintStdout => threads[t] := Idle;
    }
  }
}
