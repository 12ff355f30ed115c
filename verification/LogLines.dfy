/** What becomes of a call of LOG_PRINT: in every interleaving each call prints once, and a call that has
    opened a slot prints into that slot and closes it. */
module LogLines {
  import opened LogSlots

  datatype Event = Begins | Opens | Fails | PrintsToFile | PrintsToStdout | Closes | Ends

  /** What a thread has done by going from one state to another. */
  predicate Happens(e: Event, before: Thread, after: Thread) {
    match e
    case Begins => before.Idle? && !after.Idle?
    case Opens => !before.OpenFound? && after.OpenFound?
    case Fails => !before.PrintStdout? && after.PrintStdout?
    case PrintsToFile => before.Printing? && !after.Printing?
    case PrintsToStdout => before.PrintStdout? && !after.PrintStdout?
    case Closes => before.CloseCheck? && !after.CloseCheck?
    case Ends => !before.Idle? && after.Idle?
  }

  /** How often that happens to one thread in a run. */
  function Times(e: Event, w: World, schedule: seq<Choice>, t: nat): nat
    requires Shaped(w) && t < |w.threads|
    decreases |schedule|
  {
    if schedule == [] then 0
    else
      (if Happens(e, w.threads[t], After(w, schedule[0]).threads[t]) then 1 else 0)
      + Times(e, After(w, schedule[0]), schedule[1..], t)
  }

  /** Looking for a slot. */
  predicate Seeks(s: Thread) {
    s.OpenLock? || s.OpenCheck? || s.OpenNext?
  }

  /** In a call that has opened a slot and has not printed into it yet. */
  predicate OpenBeforePrint(s: Thread) {
    s.OpenFound? || s.PrintLock? || s.PrintCheck? || s.Printing?
  }

  /** In a call that has opened a slot and has not closed it yet. */
  predicate OpenBeforeClose(s: Thread) {
    OpenBeforePrint(s) || s.CloseLock? || s.CloseCheck?
  }

  function One(b: bool): nat {
    if b then 1 else 0
  }

  /** The balance of one step. */
  lemma StepBalance(w: World, c: Choice, t: nat)
    requires Inv(w) && t < |w.threads|
    ensures var s, s' := w.threads[t], After(w, c).threads[t];
      && One(Happens(Begins, s, s')) + One(Seeks(s))
         == One(Happens(Opens, s, s')) + One(Happens(Fails, s, s')) + One(Seeks(s'))
      && One(Happens(Opens, s, s')) + One(OpenBeforePrint(s))
         == One(Happens(PrintsToFile, s, s')) + One(OpenBeforePrint(s'))
      && One(Happens(Fails, s, s')) + One(s.PrintStdout?) == One(Happens(PrintsToStdout, s, s')) + One(s'.PrintStdout?)
      && One(Happens(Opens, s, s')) + One(OpenBeforeClose(s)) == One(Happens(Closes, s, s')) + One(OpenBeforeClose(s'))
      && One(Happens(Begins, s, s')) + One(!s.Idle?) == One(Happens(Ends, s, s')) + One(!s'.Idle?)
  {
    assert SlotOk(w.threads[t]);
    OwnFileIsOpen(w, t);
    if c.thread < |w.threads| {
      assert SlotOk(w.threads[c.thread]);
    }
  }

  /** What a thread prints into and closes is the slot it opened. */
  lemma SameSlot(w: World, c: Choice, t: nat)
    requires Inv(w) && t < |w.threads|
    ensures var s, s' := w.threads[t], After(w, c).threads[t];
      OpenBeforeClose(s) && OpenBeforeClose(s') ==> s'.slot == s.slot && w.files[s.slot] && After(w, c).files[s.slot]
  {
    AfterInv(w, c);
    OwnFileIsOpen(w, t);
    OwnFileIsOpen(After(w, c), t);
    assert SlotOk(w.threads[t]);
    if w.threads[t].OpenFound? {
      assert SlotInv(w, w.threads[t].slot);
    }
  }

  lemma TimesMore(e: Event, w: World, schedule: seq<Choice>, t: nat)
    requires Shaped(w) && t < |w.threads| && schedule != []
    ensures Times(e, w, schedule, t)
         == One(Happens(e, w.threads[t], After(w, schedule[0]).threads[t]))
            + Times(e, After(w, schedule[0]), schedule[1..], t)
  {
    hide Happens, After;
  }

  /** In any run: every call that begins opens a slot or fails to; what has opened one prints into the file,
      and closes it; what fails prints to stdout; each of these as often as the other, but for the call the
      thread is in. */
  lemma {:induction false} EveryCallPrintsOnce(w: World, schedule: seq<Choice>, t: nat)
    requires Inv(w) && t < |w.threads|
    ensures var s, s' := w.threads[t], Run(w, schedule).threads[t];
      && Times(Begins, w, schedule, t) + One(Seeks(s))
         == Times(Opens, w, schedule, t) + Times(Fails, w, schedule, t) + One(Seeks(s'))
      && Times(Opens, w, schedule, t) + One(OpenBeforePrint(s))
         == Times(PrintsToFile, w, schedule, t) + One(OpenBeforePrint(s'))
      && Times(Fails, w, schedule, t) + One(s.PrintStdout?)
         == Times(PrintsToStdout, w, schedule, t) + One(s'.PrintStdout?)
      && Times(Opens, w, schedule, t) + One(OpenBeforeClose(s))
         == Times(Closes, w, schedule, t) + One(OpenBeforeClose(s'))
      && Times(Begins, w, schedule, t) + One(!s.Idle?) == Times(Ends, w, schedule, t) + One(!s'.Idle?)
    decreases |schedule|
  {
    hide Inv, Happens, Seeks, OpenBeforePrint, OpenBeforeClose, After, One, Next;
    InvIsShaped(w);
    if schedule != [] {
      var c := schedule[0];
      StepBalance(w, c, t);
      AfterInv(w, c);
      EveryCallPrintsOnce(After(w, c), schedule[1..], t);
      forall e: Event
        ensures Times(e, w, schedule, t)
             == One(Happens(e, w.threads[t], After(w, c).threads[t])) + Times(e, After(w, c), schedule[1..], t)
      {
        TimesMore(e, w, schedule, t);
      }
      hide Times;
    }
  }

  lemma AfterInv(w: World, c: Choice)
    requires Inv(w)
    ensures Shaped(w) && Inv(After(w, c))
  {
    if c.thread < |w.threads| {
      NextInv(w, c.thread, c.ok);
    }
    hide Inv;
  }

  /** From when log_open has succeeded until the thread is idle again, it prints exactly once. */
  lemma OpenedPrintsOnce(w: World, schedule: seq<Choice>, t: nat)
    requires Inv(w) && t < |w.threads| && w.threads[t].OpenFound? && Run(w, schedule).threads[t].Idle?
    requires Times(Begins, w, schedule, t) == 0
    ensures Times(PrintsToFile, w, schedule, t) == 1 && Times(PrintsToStdout, w, schedule, t) == 0
    ensures Times(Closes, w, schedule, t) == 1 && Times(Ends, w, schedule, t) == 1
  {
    hide Inv, Run, Times;
    EveryCallPrintsOnce(w, schedule, t);
  }

  /** And if it fails, once to stdout. */
  lemma FailedPrintsOnce(w: World, schedule: seq<Choice>, t: nat)
    requires Inv(w) && t < |w.threads| && w.threads[t].PrintStdout? && Run(w, schedule).threads[t].Idle?
    requires Times(Begins, w, schedule, t) == 0
    ensures Times(PrintsToStdout, w, schedule, t) == 1 && Times(PrintsToFile, w, schedule, t) == 0
    ensures Times(Opens, w, schedule, t) == 0 == Times(Closes, w, schedule, t)
  {
    hide Inv, Run, Times;
    EveryCallPrintsOnce(w, schedule, t);
  }

  /** Threads that begin and end idle have printed once for each call they made. */
  lemma IdleHasPrinted(w: World, schedule: seq<Choice>, t: nat)
    requires Initial(w) && t < |w.threads| && Run(w, schedule).threads[t].Idle?
    ensures Times(Begins, w, schedule, t) == Times(PrintsToFile, w, schedule, t) + Times(PrintsToStdout, w, schedule, t)
    ensures Times(PrintsToFile, w, schedule, t) == Times(Opens, w, schedule, t) == Times(Closes, w, schedule, t)
  {
    InitialInv(w);
    hide Inv, Run, Times;
    EveryCallPrintsOnce(w, schedule, t);
  }
}
