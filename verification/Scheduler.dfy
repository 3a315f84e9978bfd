/**
 The timer list: kept sorted by deadline, ties in the order they were scheduled, with repeating
 timers re-entering relative to the clock at the moment they fire.

 Instants and durations are natural numbers of one tick.  `clock(k)` is the k-th reading a call takes.
 */
module Scheduler {
  import opened Wrappers

  datatype Topic =
    | SelectionScrolling | DelayedSearch | BlinkCursor | BlinkTimeout | DrawFrame | RendererRecovery
    | HiddenRelease | VividResizeSettled | MessageTimeout | ProgressTimeout | ScreenshotReadback | Automation

  datatype TimerId = TimerId(topic: Topic, window: nat)

  /** The automation tick is the one event this project looks into. */
  datatype Event = AutomationTick(window: nat) | OtherEvent(tag: nat, window: nat)

  datatype Timer = Timer(deadline: nat, event: Event, id: TimerId, interval: Option<nat>)

  type Clock = nat -> nat

  // ---------------------------------------------------------------------------------------------
  // The list
  // ---------------------------------------------------------------------------------------------

  /** Sorted by deadline, then by the moment of entry. */
  ghost predicate InOrder(timers: seq<Timer>, entered: seq<nat>) {
    && |entered| == |timers|
    && forall i, j :: 0 <= i < j < |timers| ==>
         timers[i].deadline < timers[j].deadline
         || (timers[i].deadline == timers[j].deadline && entered[i] < entered[j])
  }

  predicate Sorted(timers: seq<Timer>) {
    forall i, j :: 0 <= i < j < |timers| ==> timers[i].deadline <= timers[j].deadline
  }

  /** Where a new deadline goes: before the first later one. */
  function Position(timers: seq<Timer>, deadline: nat): (index: nat)
    ensures index <= |timers|
    ensures index < |timers| ==> timers[index].deadline > deadline
    ensures forall i :: 0 <= i < index ==> timers[i].deadline <= deadline
  {
    if timers == [] || timers[0].deadline > deadline then 0 else 1 + Position(timers[1..], deadline)
  }

  function Insert(timers: seq<Timer>, timer: Timer): (after: seq<Timer>)
    ensures |after| == |timers| + 1
  {
    var index := Position(timers, timer.deadline);
    Splice(timers, index, timer)
  }

  lemma LaterBehind(timers: seq<Timer>, deadline: nat)
    requires Sorted(timers)
    ensures forall i :: Position(timers, deadline) <= i < |timers| ==> timers[i].deadline > deadline
  {
  }

  /** A newcomer goes behind every timer with the same deadline, so the order survives. */
  lemma InsertInOrder(timers: seq<Timer>, entered: seq<nat>, timer: Timer, now: nat)
    requires InOrder(timers, entered) && forall i :: 0 <= i < |entered| ==> entered[i] < now
    ensures var index := Position(timers, timer.deadline);
      InOrder(Splice(timers, index, timer), Splice(entered, index, now))
  {
    hide Splice, Position;
    var index := Position(timers, timer.deadline);
    var after, stamps := Splice(timers, index, timer), Splice(entered, index, now);
    assert forall i :: index <= i < |timers| ==> timers[i].deadline > timer.deadline by {
      LaterBehind(timers, timer.deadline);
    }
    forall i, j | 0 <= i < j < |after|
      ensures after[i].deadline < after[j].deadline || (after[i].deadline == after[j].deadline && stamps[i] < stamps[j])
    {
      SpliceAt(timers, index, timer, i);
      SpliceAt(timers, index, timer, j);
      SpliceAt(entered, index, now, i);
      SpliceAt(entered, index, now, j);
    }
  }

  function Splice<T>(s: seq<T>, index: nat, x: T): (r: seq<T>)
    requires index <= |s|
    ensures |r| == |s| + 1
  {
    s[..index] + [x] + s[index..]
  }

  lemma SpliceAt<T>(s: seq<T>, index: nat, x: T, k: nat)
    requires index <= |s| && k <= |s|
    ensures Splice(s, index, x)[k] == if k < index then s[k] else if k == index then x else s[k - 1]
  {
  }

  lemma SpliceBounded(s: seq<nat>, index: nat, bound: nat)
    requires index <= |s| && forall i :: 0 <= i < |s| ==> s[i] < bound
    ensures forall i :: 0 <= i <= |s| ==> Splice<nat>(s, index, bound)[i] < bound + 1
  {
  }

  lemma RemoveInOrder(timers: seq<Timer>, entered: seq<nat>, i: nat)
    requires InOrder(timers, entered) && i < |timers|
    ensures InOrder(timers[..i] + timers[i + 1..], entered[..i] + entered[i + 1..])
  {
  }

  /** What an insertion leaves of a property every timer has. */
  lemma InsertMembers(timers: seq<Timer>, timer: Timer)
    ensures forall t :: t in Insert(timers, timer) <==> t == timer || t in timers
  {
    var index := Position(timers, timer.deadline);
    assert timers == timers[..index] + timers[index..];
  }

  /** Timers due no later than the new one keep their place. */
  lemma {:induction false} InsertBehind(due: seq<Timer>, rest: seq<Timer>, timer: Timer)
    requires forall i :: 0 <= i < |due| ==> due[i].deadline <= timer.deadline
    ensures Insert(due + rest, timer) == due + Insert(rest, timer)
    decreases |due|
  {
    PositionBehind(due, rest, timer.deadline);
  }

  lemma {:induction false} PositionBehind(due: seq<Timer>, rest: seq<Timer>, deadline: nat)
    requires forall i :: 0 <= i < |due| ==> due[i].deadline <= deadline
    ensures Position(due + rest, deadline) == |due| + Position(rest, deadline)
    decreases |due|
  {
    if due == [] {
      assert due + rest == rest;
    } else {
      assert (due + rest)[1..] == due[1..] + rest;
      PositionBehind(due[1..], rest, deadline);
    }
  }

  /** The first timer with an id, if any. */
  function Find(timers: seq<Timer>, id: TimerId): (index: Option<nat>)
    ensures index.Some? ==> index.value < |timers| && timers[index.value].id == id
    ensures index.Some? ==> forall i :: 0 <= i < index.value ==> timers[i].id != id
    ensures index.None? ==> forall i :: 0 <= i < |timers| ==> timers[i].id != id
  {
    if timers == [] then None
    else if timers[0].id == id then Some(0)
    else
      var later := Find(timers[1..], id);
      if later.None? then None else Some(later.value + 1)
  }

  function Removed(timers: seq<Timer>, id: TimerId): seq<Timer> {
    match Find(timers, id)
    case None => timers
    case Some(i) => timers[..i] + timers[i + 1..]
  }

  function OutsideWindow(timers: seq<Timer>, window: nat): (kept: seq<Timer>)
    ensures forall t :: t in kept <==> t in timers && t.id.window != window
  {
    if timers == [] then [] else
      var rest := OutsideWindow(timers[1..], window);
      if timers[0].id.window == window then rest else [timers[0]] + rest
  }

  // ---------------------------------------------------------------------------------------------
  // Firing
  // ---------------------------------------------------------------------------------------------

  /** How many clock readings firing these timers takes. */
  function Readings(fired: seq<Timer>): nat {
    if fired == [] then 0 else
      Readings(fired[..|fired| - 1]) + (if fired[|fired| - 1].interval.Some? then 1 else 0)
  }

  /** The list after the repeating ones among the fired timers have re-entered, in firing order. */
  function Rearmed(rest: seq<Timer>, fired: seq<Timer>, clock: Clock): seq<Timer>
    decreases |fired|
  {
    if fired == [] then rest else
      RearmedOne(Rearmed(rest, fired[..|fired| - 1], clock), fired[|fired| - 1],
                 clock(1 + Readings(fired[..|fired| - 1])))
  }

  function RearmedOne(timers: seq<Timer>, timer: Timer, now: nat): seq<Timer> {
    match timer.interval
    case Some(interval) => Insert(timers, timer.(deadline := now + interval))
    case None => timers
  }

  function Events(timers: seq<Timer>): seq<Event> {
    seq(|timers|, i requires 0 <= i < |timers| => timers[i].event)
  }

  ghost predicate Monotone(clock: Clock) {
    forall i, j :: 0 <= i <= j ==> clock(i) <= clock(j)
  }

  /** Every due timer that repeats has a positive interval, or time passes before it re-enters. */
  predicate MovesOn(timers: seq<Timer>, clock: Clock) {
    forall t :: t in timers && t.deadline <= clock(0) && t.interval.Some? ==> clock(1) + t.interval.value > clock(0)
  }

  /** The clock does not stand still for ever. */
  ghost predicate TimePasses(clock: Clock) {
    exists n: nat :: clock(n) > clock(0)
  }

  predicate FrontDue(timers: seq<Timer>, now: nat) {
    timers != [] && timers[0].deadline <= now
  }

  /** An update under way: the list, the next reading it takes, and the timers fired so far. */
  datatype Run = Run(timers: seq<Timer>, reading: nat, fired: seq<Timer>)

  function Fire(run: Run, clock: Clock): Run
    requires run.timers != []
  {
    var timer := run.timers[0];
    Run(RearmedOne(run.timers[1..], timer, clock(run.reading)),
        if timer.interval.Some? then run.reading + 1 else run.reading,
        run.fired + [timer])
  }

  /** The update after `k` turns of its loop, or fewer if it has ended. */
  function Firings(timers: seq<Timer>, clock: Clock, k: nat): Run
    decreases k
  {
    if k == 0 then Run(timers, 1, []) else
      var run := Firings(timers, clock, k - 1);
      if FrontDue(run.timers, clock(0)) then Fire(run, clock) else run
  }

  ghost predicate EndsAfter(timers: seq<Timer>, clock: Clock, k: nat) {
    !FrontDue(Firings(timers, clock, k).timers, clock(0))
  }

  /** What an update does, in general and when no timer fires twice. */
  ghost predicate Updated(before: seq<Timer>, sentBefore: seq<Event>, clock: Clock, after: seq<Timer>,
                          sent: seq<Event>)
  {
    && (exists k: nat :: EndsAfter(before, clock, k)
          && after == Firings(before, clock, k).timers && sent == sentBefore + Events(Firings(before, clock, k).fired))
    && (MovesOn(before, clock) ==>
          var due := Position(before, clock(0));
          && sent == sentBefore + Events(before[..due])
          && after == Rearmed(before[due..], before[..due], clock))
    && (forall t :: t in before && t.deadline > clock(0) ==> t in after)
    && AllAfter(after, clock(0))
  }

  predicate AllAfter(timers: seq<Timer>, now: nat) {
    forall t :: t in timers ==> t.deadline > now
  }

  /** A sorted list splits into what is due and what is not. */
  lemma SplitAtDue(timers: seq<Timer>, now: nat)
    requires Sorted(timers)
    ensures AllAfter(timers[Position(timers, now)..], now)
  {
    LaterBehind(timers, now);
  }

  // ---------------------------------------------------------------------------------------------
  // The scheduler
  // ---------------------------------------------------------------------------------------------

  class Scheduler {
    var timers: seq<Timer>

    /** Events handed to the event loop, oldest first. */
    var sent: seq<Event>

    /** When each timer entered the list, to tell ties apart. */
    ghost var entered: seq<nat>
    ghost var entries: nat

    ghost predicate Valid()
      reads this
    {
      && InOrder(timers, entered)
      && forall i :: 0 <= i < |entered| ==> entered[i] < entries
    }

    constructor ()
      ensures Valid() && timers == [] && sent == []
    {
      timers, sent, entered, entries := [], [], [], 0;
    }

    method Schedule(event: Event, interval: nat, repeat: bool, id: TimerId, now: nat)
      requires Valid()
      modifies this`timers, this`entered, this`entries
      ensures Valid()
      ensures timers == Insert(old(timers), Timer(now + interval, event, id, if repeat then Some(interval) else None))
    {
      hide InOrder, Splice, Position;
      var deadline := now + interval;
      var index := Position(timers, deadline);
      var timer := Timer(deadline, event, id, if repeat then Some(interval) else None);
      InsertInOrder(timers, entered, timer, entries);
      InsertMembers(timers, timer);
      EnteredBounded(timers, entered, index);
      SpliceBounded(entered, index, entries);
      assert Insert(timers, timer) == Splice(timers, index, timer);
      timers := Splice(timers, index, timer);
      entered := Splice<nat>(entered, index, entries);
      entries := entries + 1;
    }

    method Unschedule(id: TimerId) returns (removed: Option<Timer>)
      requires Valid()
      modifies this`timers, this`entered
      ensures Valid()
      ensures timers == Removed(old(timers), id)
      ensures removed == match Find(old(timers), id)
                         case None => None
                         case Some(i) => Some(old(timers)[i])
    {
      hide InOrder;
      var index := Find(timers, id);
      if index.None? {
        return None;
      }
      var i := index.value;
      EnteredBounded(timers, entered, i);
      RemoveInOrder(timers, entered, i);
      removed := Some(timers[i]);
      timers := timers[..i] + timers[i + 1..];
      entered := entered[..i] + entered[i + 1..];
    }

    lemma EnteredBounded(timers: seq<Timer>, entered: seq<nat>, i: nat)
      requires InOrder(timers, entered) && i <= |timers|
      ensures |entered| == |timers|
    {
    }

    method UnscheduleWindow(window: nat)
      requires Valid()
      modifies this`timers, this`entered
      ensures Valid() && timers == OutsideWindow(old(timers), window)
    {
      hide InOrder, OutsideWindow;
      var i := 0;
      assert timers[..0] + OutsideWindow(timers[0..], window) == OutsideWindow(timers, window);
      while i < |timers|
        invariant i <= |timers| && Valid()
        invariant timers[..i] + OutsideWindow(timers[i..], window) == OutsideWindow(old(timers), window)
        decreases |timers| - i
      {
        KeepOrDrop(timers, i, window);
        if timers[i].id.window == window {
          RemoveAt(i);
        } else {
          i := i + 1;
        }
      }
      NothingLeft(timers, window);
    }

    method RemoveAt(i: nat)
      requires Valid() && i < |timers|
      modifies this`timers, this`entered
      ensures Valid() && timers == old(timers)[..i] + old(timers)[i + 1..]
    {
      RemoveInOrder(timers, entered, i);
      timers := timers[..i] + timers[i + 1..];
      entered := entered[..i] + entered[i + 1..];
    }

    /** Take the front timer off the list, let it re-enter if it repeats, and send its event. */
    method FireFront(now: nat)
      requires Valid() && timers != []
      modifies this
      ensures Valid()
      ensures timers == RearmedOne(old(timers)[1..], old(timers)[0], now)
      ensures sent == old(sent) + [old(timers)[0].event]
    {
      hide InOrder, Insert;
      var timer := timers[0];
      RemoveAt(0);
      FrontOff(old(timers));
      if timer.interval.Some? {
        Schedule(timer.event, timer.interval.value, true, timer.id, now);
      }
      sent := sent + [timer.event];
    }

    lemma FrontOff(timers: seq<Timer>)
      requires timers != []
      ensures timers[..0] + timers[1..] == timers[1..]
    {
    }

    /**
     Fire the timers that are due and report the next deadline.  Unless a due timer repeats without an
     interval, exactly those due when the call starts fire, each once.
     */
    method Update(clock: Clock) returns (next: Option<nat>)
      requires Valid() && Monotone(clock) && (MovesOn(timers, clock) || TimePasses(clock))
      modifies this
      ensures Valid() && Updated(old(timers), old(sent), clock, timers, sent)
      ensures match next
              case None => timers == []
              case Some(d) => timers != [] && d == timers[0].deadline && Sorted(timers)
    {
      hide InOrder, Events, RearmedOne, Sorted, MovesOn, TimePasses, Firings, EndsAfter, Updated;
      var now := clock(0);
      ghost var before, fired := timers, 0;
      var reading := 1;
      InOrderSorted(timers, entered);
      ghost var last := EndsEventually(before, clock);
      NothingFired(before, sent, clock);
      while timers != [] && timers[0].deadline <= now
        invariant Valid() && fired <= last
        invariant var run := Firings(before, clock, fired);
          timers == run.timers && reading == run.reading && sent == old(sent) + Events(run.fired)
        decreases last - fired
      {
        FireNext(before, old(sent), clock, fired, last);
        var repeats := timers[0].interval.Some?;
        FireFront(clock(reading));
        if repeats {
          reading := reading + 1;
        }
        fired := fired + 1;
      }
      InOrderSorted(timers, entered);
      UpdateDone(before, old(sent), clock, fired, timers, sent);
      next := if timers == [] then None else Some(timers[0].deadline);
    }
  }

  lemma KeepOrDrop(timers: seq<Timer>, i: nat, window: nat)
    requires i < |timers|
    ensures timers[i].id.window != window ==>
      timers[..i] + OutsideWindow(timers[i..], window) == timers[..i + 1] + OutsideWindow(timers[i + 1..], window)
    ensures var dropped := timers[..i] + timers[i + 1..];
      timers[i].id.window == window ==>
        timers[..i] + OutsideWindow(timers[i..], window) == dropped[..i] + OutsideWindow(dropped[i..], window)
  {
    var dropped := timers[..i] + timers[i + 1..];
    assert timers[i..][1..] == timers[i + 1..] == dropped[i..] && dropped[..i] == timers[..i];
  }

  lemma NothingLeft(timers: seq<Timer>, window: nat)
    ensures timers[..|timers|] + OutsideWindow(timers[|timers|..], window) == timers
  {
  }

  lemma InOrderSorted(timers: seq<Timer>, entered: seq<nat>)
    requires InOrder(timers, entered)
    ensures Sorted(timers)
  {
  }

  lemma NothingFired(before: seq<Timer>, sent: seq<Event>, clock: Clock)
    ensures Firings(before, clock, 0) == Run(before, 1, []) && sent == sent + Events([])
  {
  }

  /** What the loop's next turn does to everything it keeps track of. */
  lemma FireNext(before: seq<Timer>, sent: seq<Event>, clock: Clock, fired: nat, last: nat)
    requires fired <= last && EndsAfter(before, clock, last)
    requires FrontDue(Firings(before, clock, fired).timers, clock(0))
    ensures fired < last
    ensures var run, next := Firings(before, clock, fired), Firings(before, clock, fired + 1);
      && next.timers == RearmedOne(run.timers[1..], run.timers[0], clock(run.reading))
      && next.reading == (if run.timers[0].interval.Some? then run.reading + 1 else run.reading)
      && sent + Events(next.fired) == (sent + Events(run.fired)) + [run.timers[0].event]
  {
    hide RearmedOne;
  }

  /** Once an update has ended, further turns change nothing. */
  lemma {:induction false} EndedStays(before: seq<Timer>, clock: Clock, k: nat, j: nat)
    requires EndsAfter(before, clock, k) && k <= j
    ensures Firings(before, clock, j) == Firings(before, clock, k)
    decreases j
  {
    if k < j {
      EndedStays(before, clock, k, j - 1);
    }
  }

  /** When the loop stops, the update is what it should be. */
  lemma UpdateDone(before: seq<Timer>, sentBefore: seq<Event>, clock: Clock, k: nat, after: seq<Timer>,
                   sent: seq<Event>)
    requires Sorted(before) && Sorted(after) && Monotone(clock)
    requires !FrontDue(after, clock(0)) && after == Firings(before, clock, k).timers
    requires sent == sentBefore + Events(Firings(before, clock, k).fired)
    ensures Updated(before, sentBefore, clock, after, sent)
  {
    hide Firings, Events, Rearmed, MovesOn, Position, Sorted, AllAfter;
    assert EndsAfter(before, clock, k);
    FutureStays(before, clock, k);
    AllLater(after, clock(0));
    if MovesOn(before, clock) {
      var due := Position(before, clock(0));
      DueFire(before, clock);
      if k <= due {
        EndedStays(before, clock, k, due);
      } else {
        EndedStays(before, clock, due, k);
      }
    }
  }

  lemma AllLater(timers: seq<Timer>, now: nat)
    requires Sorted(timers) && !FrontDue(timers, now)
    ensures AllAfter(timers, now)
  {
  }

  /** No timer that is not due is touched. */
  lemma {:induction false} FutureStays(before: seq<Timer>, clock: Clock, k: nat)
    ensures forall t :: t in before && t.deadline > clock(0) ==> t in Firings(before, clock, k).timers
    decreases k
  {
    hide Insert;
    if k > 0 {
      FutureStays(before, clock, k - 1);
      var run := Firings(before, clock, k - 1);
      if FrontDue(run.timers, clock(0)) {
        FrontReplaced(run.timers, clock(run.reading));
      }
    }
  }

  /** Firing takes out the front timer and at most puts it back in later. */
  lemma FrontReplaced(timers: seq<Timer>, now: nat)
    requires timers != []
    ensures var after := RearmedOne(timers[1..], timers[0], now);
      && (forall t :: t in timers && t != timers[0] ==> t in after)
      && (forall t :: t in after ==> t in timers || (timers[0].interval.Some?
                                                      && t == timers[0].(deadline := now + timers[0].interval.value)))
      && (timers[0].interval.Some? ==> timers[0].(deadline := now + timers[0].interval.value) in after)
  {
    hide Insert;
    assert forall t :: t in timers ==> t == timers[0] || t in timers[1..];
    if timers[0].interval.Some? {
      InsertMembers(timers[1..], timers[0].(deadline := now + timers[0].interval.value));
    }
  }

  // ---------------------------------------------------------------------------------------------
  // When an update ends
  // ---------------------------------------------------------------------------------------------

  /** While the front timer is due, some of the originally due timers have not fired. */
  lemma StillDue(due: seq<Timer>, future: seq<Timer>, now: nat)
    requires AllAfter(future, now)
    ensures FrontDue(due + future, now) ==> due != []
  {
    assert future != [] ==> future[0] in future;
  }

  lemma NoneYet(rest: seq<Timer>, clock: Clock)
    ensures Readings([]) == 0 && Rearmed(rest, [], clock) == rest
  {
  }

  /** Each turn fires the next of the originally due timers; those that repeat have re-entered behind them. */
  lemma {:induction false} DueFireInTurn(before: seq<Timer>, clock: Clock, fired: nat)
    requires Sorted(before) && Monotone(clock) && MovesOn(before, clock) && fired <= Position(before, clock(0))
    ensures var due := Position(before, clock(0));
      var future := Rearmed(before[due..], before[..fired], clock);
      && Firings(before, clock, fired) ==
        Run(before[fired..due] + future, 1 + Readings(before[..fired]), before[..fired])
      && AllAfter(future, clock(0))
    decreases fired
  {
    hide Rearmed, Readings, RearmedOne, AllAfter, MovesOn, Sorted, Position;
    var due := Position(before, clock(0));
    if fired == 0 {
      SplitAtDue(before, clock(0));
      NoneYet(before[due..], clock);
      assert before[..0] == [];
      assert before[0..due] + before[due..] == before;
    } else {
      var i := fired - 1;
      DueFireInTurn(before, clock, i);
      PeelDue(before, i, due, Rearmed(before[due..], before[..i], clock));
      FireOne(before[due..], before, i, due, clock);
      assert before[..i] + [before[i]] == before[..fired];
    }
  }

  /** Unless a due timer repeats without an interval, the update ends when the originally due ones have fired. */
  lemma DueFire(before: seq<Timer>, clock: Clock)
    requires Sorted(before) && Monotone(clock) && MovesOn(before, clock)
    ensures var due := Position(before, clock(0));
      && EndsAfter(before, clock, due)
      && Firings(before, clock, due).timers == Rearmed(before[due..], before[..due], clock)
      && Firings(before, clock, due).fired == before[..due]
  {
    hide Rearmed, Readings, Firings, MovesOn, Sorted, AllAfter;
    var due := Position(before, clock(0));
    DueFireInTurn(before, clock, due);
    var future := Rearmed(before[due..], before[..due], clock);
    assert before[due..due] + future == future;
    StillDue([], future, clock(0));
    assert [] + future == future;
  }

  /** The loop ends when no timer fires for ever, or the clock moves on at some point. */
  lemma EndsEventually(before: seq<Timer>, clock: Clock) returns (last: nat)
    requires Sorted(before) && Monotone(clock) && (MovesOn(before, clock) || TimePasses(clock))
    ensures EndsAfter(before, clock, last)
  {
    hide EndsAfter, MovesOn, Sorted;
    if MovesOn(before, clock) {
      DueFire(before, clock);
      last := Position(before, clock(0));
    } else {
      var n: nat :| clock(n) > clock(0);
      last := EndsOnceTimePasses(before, clock, n, 0);
    }
  }

  /** Readings run out before the clock stands still, and then every firing leaves one due timer fewer. */
  lemma {:induction false} EndsOnceTimePasses(before: seq<Timer>, clock: Clock, n: nat, k: nat) returns (last: nat)
    requires Monotone(clock) && clock(n) > clock(0)
    ensures EndsAfter(before, clock, last)
    decreases var run := Firings(before, clock, k); if run.reading <= n then n + 1 - run.reading else 0,
              Position(Firings(before, clock, k).timers, clock(0))
  {
    hide RearmedOne, Position;
    last := k;
    var run := Firings(before, clock, k);
    if FrontDue(run.timers, clock(0)) {
      var next := Firings(before, clock, k + 1);
      assert next == Fire(run, clock);
      if run.timers[0].interval.None? || run.reading > n {
        assert clock(0) <= clock(run.reading);
        assert run.reading > n ==> clock(n) <= clock(run.reading);
        FiringLeavesExactly(run.timers, clock(0), clock(run.reading));
      }
      last := EndsOnceTimePasses(before, clock, n, k + 1);
    }
  }

  /**
   An update ends exactly when no due timer repeats without an interval, or the clock moves on while it runs;
   otherwise such a timer is due again at every turn.
   */
  lemma UpdateEndsExactly(before: seq<Timer>, clock: Clock)
    requires Sorted(before) && Monotone(clock)
    ensures (exists k: nat :: EndsAfter(before, clock, k)) <==> MovesOn(before, clock) || TimePasses(clock)
  {
    hide EndsAfter, Sorted;
    if MovesOn(before, clock) || TimePasses(clock) {
      var _ := EndsEventually(before, clock);
    } else {
      forall k: nat
        ensures !EndsAfter(before, clock, k)
      {
        NeverEnds(before, clock, k);
      }
    }
  }

  /** A due timer that re-enters at the same instant. */
  predicate Spins(timers: seq<Timer>, now: nat) {
    exists t :: t in timers && t.deadline <= now && t.interval == Some(0)
  }

  lemma {:induction false} NeverEnds(before: seq<Timer>, clock: Clock, k: nat)
    requires Sorted(before) && Monotone(clock) && !MovesOn(before, clock) && !TimePasses(clock)
    ensures Sorted(Firings(before, clock, k).timers) && Spins(Firings(before, clock, k).timers, clock(0))
    ensures !EndsAfter(before, clock, k)
    decreases k
  {
    hide Sorted, RearmedOne, Spins;
    if k == 0 {
      StandsStill(before, clock);
      SpinsInFront(before, clock(0));
    } else {
      NeverEnds(before, clock, k - 1);
      var run := Firings(before, clock, k - 1);
      assert clock(run.reading) == clock(0) by { assert clock(0) <= clock(run.reading); }
      SpinsOn(run.timers, clock(0));
      SpinsInFront(RearmedOne(run.timers[1..], run.timers[0], clock(0)), clock(0));
    }
  }

  lemma StandsStill(before: seq<Timer>, clock: Clock)
    requires Monotone(clock) && !MovesOn(before, clock)
    ensures Spins(before, clock(0))
  {
    var t :| t in before && t.deadline <= clock(0) && t.interval.Some? && clock(1) + t.interval.value <= clock(0);
    assert clock(0) <= clock(1);
    assert t.interval == Some(0);
  }

  lemma SpinsInFront(timers: seq<Timer>, now: nat)
    requires Sorted(timers) && Spins(timers, now)
    ensures FrontDue(timers, now)
  {
  }

  lemma SpinsOn(timers: seq<Timer>, now: nat)
    requires Sorted(timers) && Spins(timers, now) && timers != []
    ensures var after := RearmedOne(timers[1..], timers[0], now); Sorted(after) && Spins(after, now)
  {
    hide Sorted, RearmedOne;
    RearmedSorted(timers, now);
    FrontReplaced(timers, now);
    var t :| t in timers && t.deadline <= now && t.interval == Some(0);
    assert t == timers[0] ==> t.(deadline := now) in RearmedOne(timers[1..], timers[0], now);
  }

  lemma RearmedSorted(timers: seq<Timer>, now: nat)
    requires Sorted(timers) && timers != []
    ensures Sorted(RearmedOne(timers[1..], timers[0], now))
  {
    hide Insert;
    assert Sorted(timers[1..]);
    if timers[0].interval.Some? {
      InsertSorted(timers[1..], timers[0].(deadline := now + timers[0].interval.value));
    }
  }

  lemma InsertSorted(timers: seq<Timer>, timer: Timer)
    requires Sorted(timers)
    ensures Sorted(Insert(timers, timer))
  {
    LaterBehind(timers, timer.deadline);
  }

  lemma PeelDue(before: seq<Timer>, fired: nat, due: nat, future: seq<Timer>)
    requires fired < due <= |before|
    ensures var all := before[fired..due] + future;
      all != [] && all[0] == before[fired] && all[1..] == before[fired + 1..due] + future
  {
  }

  /** Firing one timer, on the specification's side: the rest of the due ones stay in front. */
  lemma FireOne(rest: seq<Timer>, before: seq<Timer>, fired: nat, due: nat, clock: Clock)
    requires Monotone(clock) && MovesOn(before, clock) && fired < due <= |before|
    requires AllAfter(Rearmed(rest, before[..fired], clock), clock(0))
    requires forall i :: 0 <= i < due ==> before[i].deadline <= clock(0)
    ensures var timer, now := before[fired], clock(1 + Readings(before[..fired]));
      && before[fired + 1..due] + Rearmed(rest, before[..fired + 1], clock)
         == RearmedOne(before[fired + 1..due] + Rearmed(rest, before[..fired], clock), timer, now)
      && Readings(before[..fired + 1]) == Readings(before[..fired]) + (if timer.interval.Some? then 1 else 0)
      && AllAfter(Rearmed(rest, before[..fired + 1], clock), clock(0))
  {
    hide Insert, MovesOn, AllAfter;
    var timer, now := before[fired], clock(1 + Readings(before[..fired]));
    assert before[..fired + 1][..fired] == before[..fired] && before[..fired + 1][fired] == timer;
    if timer.interval.Some? {
      var again := timer.(deadline := now + timer.interval.value);
      InsertBehind(before[fired + 1..due], Rearmed(rest, before[..fired], clock), again);
      RearmedLater(before, fired, clock, 1 + Readings(before[..fired]));
      InsertAfter(Rearmed(rest, before[..fired], clock), again, clock(0));
    }
  }

  lemma RearmedLater(before: seq<Timer>, i: nat, clock: Clock, reading: nat)
    requires MovesOn(before, clock) && Monotone(clock) && reading >= 1
    requires i < |before| && before[i].deadline <= clock(0) && before[i].interval.Some?
    ensures clock(reading) + before[i].interval.value > clock(0)
  {
    assert before[i] in before;
    assert clock(1) <= clock(reading);
  }

  lemma InsertAfter(timers: seq<Timer>, timer: Timer, now: nat)
    requires AllAfter(timers, now) && timer.deadline > now
    ensures AllAfter(Insert(timers, timer), now)
  {
    InsertMembers(timers, timer);
  }

  /**
   Firing the front timer leaves one due timer fewer, unless it repeats without an interval and no time has
   passed: exactly then it is due again.
   */
  lemma FiringLeavesExactly(timers: seq<Timer>, start: nat, now: nat)
    requires timers != [] && timers[0].deadline <= start <= now
    ensures var timer, after := timers[0], RearmedOne(timers[1..], timers[0], now);
      if timer.interval == Some(0) && now == start then Position(after, start) == Position(timers, start)
      else Position(after, start) == Position(timers, start) - 1
  {
    hide Insert, Position;
    var timer, others := timers[0], timers[1..];
    PositionFront(timers, start);
    var due := Position(others, start);
    if timer.interval.Some? {
      var again := timer.(deadline := now + timer.interval.value);
      JoinAt(others, due);
      if again.deadline <= start {
        InsertStillDue(others[..due], others[due..], again, start);
      } else {
        InsertNotDue(others[..due], others[due..], again, start);
      }
    }
  }

  lemma PositionFront(timers: seq<Timer>, start: nat)
    requires timers != [] && timers[0].deadline <= start
    ensures Position(timers, start) == 1 + Position(timers[1..], start)
  {
  }

  lemma JoinAt(timers: seq<Timer>, k: nat)
    requires k <= |timers|
    ensures timers == timers[..k] + timers[k..]
  {
  }

  lemma InsertStillDue(due: seq<Timer>, rest: seq<Timer>, again: Timer, start: nat)
    requires forall i :: 0 <= i < |due| ==> due[i].deadline <= start
    requires again.deadline == start && (rest == [] || rest[0].deadline > start)
    ensures Position(Insert(due + rest, again), start) == |due| + 1
  {
    InsertBehind(due, rest, again);
    assert Position(rest, start) == 0;
    assert Insert(rest, again) == [again] + rest;
    PositionBehind([again], rest, start);
    hide Position, Insert;
    PositionBehind(due, [again] + rest, start);
  }

  lemma InsertNotDue(due: seq<Timer>, rest: seq<Timer>, again: Timer, start: nat)
    requires forall i :: 0 <= i < |due| ==> due[i].deadline <= start
    requires again.deadline > start && (rest == [] || rest[0].deadline > start)
    ensures Position(Insert(due + rest, again), start) == |due|
  {
    FrontLater(rest, again, start);
    hide Position, Insert;
    InsertBehind(due, rest, again);
    PositionBehind(due, Insert(rest, again), start);
  }

  lemma FrontLater(timers: seq<Timer>, timer: Timer, start: nat)
    requires (timers == [] || timers[0].deadline > start) && timer.deadline > start
    ensures Position(Insert(timers, timer), start) == 0
  {
  }
}
