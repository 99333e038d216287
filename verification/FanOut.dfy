/** The concurrent search: every source runs under its own timeout, the sources finish in any order, and the
    answer has one outcome per source. */
module FanOut {
  import opened Text

  datatype Item = Item(source: string, title: string, stamp: Option<int>)

  /** How a source's coroutine ends.  `Cancels` is an exception that is no `Exception` and so escapes from
      `_run_one` into `gather`. */
  datatype Ending = Returns(results: seq<Item>) | Raises(error: string) | RaisesTimeout | Cancels(error: string)

  /** When and how a source would end if nobody stopped it. */
  datatype Behaviour = Finishes(after: int, ending: Ending) | Hangs

  datatype Entry = Entry(source: string, behaviour: Behaviour)

  datatype Error = NoError | TimedOut(source: string, after: int) | Failed(message: string)

  datatype Outcome = Outcome(source: string, ok: bool, tookMs: int, results: seq<Item>, error: Error)

  /** What `gather` holds for one coroutine: its result, or the exception that came out of it. */
  datatype Slot = Pending | Result(outcome: Outcome) | Exception(message: string)

  /** What happens first: the coroutine ends, or its timeout strikes. */
  datatype Event = Ended(after: int, ending: Ending) | Struck

  /** At exactly the timeout either may come first. */
  predicate MayHappen(b: Behaviour, timeout: int, e: Event) {
    match e
    case Ended(after, ending) => b == Finishes(after, ending) && after <= timeout
    case Struck => b.Hangs? || b.after >= timeout
  }

  /** `_run_one` */
  function RunOne(source: string, e: Event, timeout: int): Slot {
    match e
    case Struck => Result(Outcome(source, false, timeout, [], TimedOut(source, timeout)))
    case Ended(after, RaisesTimeout) => Result(Outcome(source, false, timeout, [], TimedOut(source, timeout)))
    case Ended(after, Returns(results)) => Result(Outcome(source, true, after, results, NoError))
    case Ended(after, Raises(error)) => Result(Outcome(source, false, after, [], Failed(error)))
    case Ended(after, Cancels(error)) => Exception(error)
  }

  /** The loop body over `zip(entries, outcomes)`. */
  function Final(source: string, timeout: int, slot: Slot): Outcome {
    match slot
    case Exception(message) => Outcome(source, false, timeout, [], Failed(message))
    case Result(outcome) => outcome
    case Pending => Outcome(source, false, timeout, [], NoError)
  }

  class Gather {
    const entries: seq<Entry>
    const timeout: int
    var slots: seq<Slot>

    ghost predicate Valid()
      reads this
    {
      |slots| == |entries|
      && forall i: nat | i < |slots| && !slots[i].Pending? ::
           exists e :: MayHappen(entries[i].behaviour, timeout, e) && slots[i] == RunOne(entries[i].source, e, timeout)
    }

    constructor (entries: seq<Entry>, timeout: int)
      ensures Valid() && this.entries == entries && this.timeout == timeout
      ensures forall i: nat | i < |slots| :: slots[i] == Pending
    {
      this.entries := entries;
      this.timeout := timeout;
      slots := seq(|entries|, i => Pending);
    }

    /** One coroutine ends.  Which one, and when, is up to the event loop. */
    method Complete(i: nat, e: Event)
      requires Valid() && i < |entries| && slots[i] == Pending && MayHappen(entries[i].behaviour, timeout, e)
      modifies `slots
      ensures Valid()
      ensures slots == old(slots)[i := RunOne(entries[i].source, e, timeout)]
    {
      slots := slots[i := RunOne(entries[i].source, e, timeout)];
    }

    /** What `fan_out_search` returns once every coroutine has ended. */
    method Outcomes() returns (final: seq<Outcome>)
      requires Valid() && Pending !in slots
      ensures |final| == |entries|
      ensures forall i: nat | i < |entries| :: final[i] == Final(entries[i].source, timeout, slots[i])
      ensures forall i: nat | i < |entries| :: Explains(entries[i], timeout, final[i])
    {
      final := [];
      for i := 0 to |entries|
        invariant |final| == i
        invariant forall k: nat | k < i :: final[k] == Final(entries[k].source, timeout, slots[k])
      {
        final := final + [Final(entries[i].source, timeout, slots[i])];
      }
      forall i: nat | i < |entries| ensures Explains(entries[i], timeout, final[i]) {
        assert slots[i] in slots;
        var e :| MayHappen(entries[i].behaviour, timeout, e) && slots[i] == RunOne(entries[i].source, e, timeout);
        assert final[i] == OutcomeOf(entries[i].source, e, timeout);
      }
    }
  }

  // ---------------------------------------------------------------------------------------------
  // Every schedule gives the same outcomes.
  // ---------------------------------------------------------------------------------------------

  function OutcomeOf(source: string, e: Event, timeout: int): Outcome {
    Final(source, timeout, RunOne(source, e, timeout))
  }

  /** An outcome that the entry alone can account for. */
  ghost predicate Explains(entry: Entry, timeout: int, o: Outcome) {
    exists e :: MayHappen(entry.behaviour, timeout, e) && o == OutcomeOf(entry.source, e, timeout)
  }

  /** The entry does not end exactly at the timeout. */
  predicate NoTie(entry: Entry, timeout: int) {
    entry.behaviour.Hangs? || entry.behaviour.after != timeout
  }

  function ExpectedEvent(b: Behaviour, timeout: int): Event {
    if b.Finishes? && b.after < timeout then Ended(b.after, b.ending) else Struck
  }

  /** The outcome of an entry, from the entry and the timeout alone. */
  function Expected(entry: Entry, timeout: int): Outcome {
    OutcomeOf(entry.source, ExpectedEvent(entry.behaviour, timeout), timeout)
  }

  /** One completion in a run: which coroutine, and what it met. */
  datatype Completion = Completion(index: nat, event: Event)

  /** A run that is possible from `slots`: each step completes a pending coroutine by an event it may meet. */
  ghost predicate Possible(entries: seq<Entry>, timeout: int, slots: seq<Slot>, run: seq<Completion>)
    decreases |run|
  {
    run == [] ||
    (CanComplete(entries, timeout, slots, run[0])
     && Possible(entries, timeout, After(entries, timeout, slots, run[0]), run[1..]))
  }

  ghost predicate CanComplete(entries: seq<Entry>, timeout: int, slots: seq<Slot>, c: Completion) {
    |slots| == |entries| && c.index < |entries| && slots[c.index] == Pending
    && MayHappen(entries[c.index].behaviour, timeout, c.event)
  }

  function After(entries: seq<Entry>, timeout: int, slots: seq<Slot>, c: Completion): seq<Slot> {
    if c.index < |entries| && c.index < |slots|
    then slots[c.index := RunOne(entries[c.index].source, c.event, timeout)] else slots
  }

  function AfterAll(entries: seq<Entry>, timeout: int, slots: seq<Slot>, run: seq<Completion>): seq<Slot>
    decreases |run|
  {
    if run == [] then slots else AfterAll(entries, timeout, After(entries, timeout, slots, run[0]), run[1..])
  }

  function Start(n: nat): seq<Slot> { seq(n, i => Pending) }

  ghost predicate Accounted(entry: Entry, timeout: int, slot: Slot) {
    slot.Pending? || exists e :: MayHappen(entry.behaviour, timeout, e) && slot == RunOne(entry.source, e, timeout)
  }

  lemma {:induction false} SlotsAccounted(entries: seq<Entry>, timeout: int, slots: seq<Slot>, run: seq<Completion>)
    requires |slots| == |entries| && Possible(entries, timeout, slots, run)
    requires forall i: nat | i < |entries| :: Accounted(entries[i], timeout, slots[i])
    ensures |AfterAll(entries, timeout, slots, run)| == |entries|
    ensures forall i: nat | i < |entries| :: Accounted(entries[i], timeout, AfterAll(entries, timeout, slots, run)[i])
    decreases |run|
  {
    if run != [] {
      SlotsAccounted(entries, timeout, After(entries, timeout, slots, run[0]), run[1..]);
    }
  }

  /** Away from ties nothing but the expected event can happen. */
  lemma OneEvent(entry: Entry, timeout: int, e: Event)
    requires NoTie(entry, timeout)
    ensures MayHappen(entry.behaviour, timeout, e) <==> e == ExpectedEvent(entry.behaviour, timeout)
  {
  }

  /** However the completions interleave, a run that leaves nothing pending gives the source at `i` an outcome
      that its own entry explains; and away from ties it is the expected one, whatever the others do. */
  lemma ScheduleIrrelevant(entries: seq<Entry>, timeout: int, run: seq<Completion>, i: nat)
    requires Possible(entries, timeout, Start(|entries|), run) && i < |entries|
    requires Pending !in AfterAll(entries, timeout, Start(|entries|), run)
    ensures var slots := AfterAll(entries, timeout, Start(|entries|), run);
      && |slots| == |entries|
      && Explains(entries[i], timeout, Final(entries[i].source, timeout, slots[i]))
      && (NoTie(entries[i], timeout) ==> Final(entries[i].source, timeout, slots[i]) == Expected(entries[i], timeout))
  {
    SlotsAccounted(entries, timeout, Start(|entries|), run);
    var slots := AfterAll(entries, timeout, Start(|entries|), run);
    assert slots[i] in slots;
    var e :| MayHappen(entries[i].behaviour, timeout, e) && slots[i] == RunOne(entries[i].source, e, timeout);
    assert Final(entries[i].source, timeout, slots[i]) == OutcomeOf(entries[i].source, e, timeout);
    if NoTie(entries[i], timeout) { OneEvent(entries[i], timeout, e); }
  }

  function PendingCount(slots: seq<Slot>): nat {
    if slots == [] then 0 else (if slots[0].Pending? then 1 else 0) + PendingCount(slots[1..])
  }

  lemma {:induction false} OneLessPending(slots: seq<Slot>, i: nat, s: Slot)
    requires i < |slots| && slots[i].Pending? && !s.Pending?
    ensures PendingCount(slots[i := s]) == PendingCount(slots) - 1
    decreases i
  {
    if i > 0 {
      OneLessPending(slots[1..], i - 1, s);
      assert slots[i := s][1..] == slots[1..][i - 1 := s];
    } else {
      assert slots[0 := s][1..] == slots[1..];
    }
  }

  lemma PendingCanComplete(entries: seq<Entry>, timeout: int, slots: seq<Slot>, i: nat)
    requires |slots| == |entries| && i < |slots| && slots[i] == Pending
    ensures CanComplete(entries, timeout, slots, Completion(i, ExpectedEvent(entries[i].behaviour, timeout)))
  {
  }

  /** Every completion leaves fewer sources pending, so every run ends with an outcome for all of them. */
  lemma EveryStepCounts(entries: seq<Entry>, timeout: int, slots: seq<Slot>, c: Completion)
    requires CanComplete(entries, timeout, slots, c)
    ensures PendingCount(After(entries, timeout, slots, c)) < PendingCount(slots)
  {
    OneLessPending(slots, c.index, RunOne(entries[c.index].source, c.event, timeout));
  }

  /** No source can hold up the others: from every state, however it was reached, the sources still pending can
      all be completed, in no more steps than there are of them. */
  lemma {:induction false} NobodyBlocks(entries: seq<Entry>, timeout: int, slots: seq<Slot>)
    returns (run: seq<Completion>)
    requires |slots| == |entries|
    ensures Possible(entries, timeout, slots, run) && Pending !in AfterAll(entries, timeout, slots, run)
    ensures |run| <= PendingCount(slots)
    decreases PendingCount(slots)
  {
    if i: nat :| i < |slots| && slots[i] == Pending {
      var c := Completion(i, ExpectedEvent(entries[i].behaviour, timeout));
      PendingCanComplete(entries, timeout, slots, i);
      EveryStepCounts(entries, timeout, slots, c);
      var rest := NobodyBlocks(entries, timeout, After(entries, timeout, slots, c));
      run := [c] + rest;
      assert run[1..] == rest && run[0] == c;
    } else {
      run := [];
    }
  }

  /** A source succeeds exactly when it returned in time, and then its results are the source's own. */
  lemma OkExactly(entry: Entry, timeout: int)
    requires NoTie(entry, timeout)
    ensures var o := Expected(entry, timeout); var b := entry.behaviour;
      && o.source == entry.source
      && (o.ok <==> b.Finishes? && b.after < timeout && b.ending.Returns?)
      && (o.ok ==> o.results == b.ending.results && o.tookMs == b.after && o.error == NoError)
      && (!o.ok ==> o.results == [] && o.error != NoError)
      && (o.error.TimedOut? <==> b.Hangs? || b.after > timeout || b.ending.RaisesTimeout?)
  {
  }

  /** The outcome of each way a source can behave, whatever the schedule, when it does not end at the very timeout. */
  lemma OutcomeOfEachBehaviour(entry: Entry, timeout: int, o: Outcome)
    requires Explains(entry, timeout, o) && (entry.behaviour.Finishes? ==> entry.behaviour.after != timeout)
    ensures var late := Outcome(entry.source, false, timeout, [], TimedOut(entry.source, timeout));
      match entry.behaviour
      case Hangs => o == late
      case Finishes(after, ending) =>
        if after > timeout then o == late
        else match ending
             case Returns(results) => o == Outcome(entry.source, true, after, results, NoError)
             case Raises(error) => o == Outcome(entry.source, false, after, [], Failed(error))
             case RaisesTimeout => o == late
             case Cancels(error) => o == Outcome(entry.source, false, timeout, [], Failed(error))
  {
  }
}
