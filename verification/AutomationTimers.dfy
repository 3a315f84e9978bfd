/**
 What automation needs from the timer list: at most one automation timer per window, which sends that
 window's tick, and whether it fires early enough for a given instant.
 */
module AutomationTimers {
  import opened Wrappers
  import opened Scheduler

  function TickTimerId(window: nat): TimerId {
    TimerId(Automation, window)
  }

  /** No two automation timers belong to one window. */
  predicate OneEach(timers: seq<Timer>) {
    forall i, j :: 0 <= i < j < |timers| && timers[i].id.topic == Automation ==> timers[i].id != timers[j].id
  }

  /** Automation timers fire once and send their window's tick. */
  predicate SendTicks(timers: seq<Timer>) {
    forall t :: t in timers && t.id.topic == Automation ==> t.event == AutomationTick(t.id.window) && t.interval == None
  }

  predicate NoneFor(timers: seq<Timer>, id: TimerId) {
    forall t :: t in timers ==> t.id != id
  }

  /** A window's tick fires no later than `bound`. */
  ghost predicate Armed(timers: seq<Timer>, window: nat, bound: nat) {
    exists t :: t in timers && t.id == TickTimerId(window) && t.deadline <= bound
  }

  ghost predicate Same(a: seq<Timer>, b: seq<Timer>, except: nat) {
    forall t: Timer :: t.id != TickTimerId(except) ==> (t in a <==> t in b)
  }

  lemma RemoveKeeps(timers: seq<Timer>, id: TimerId)
    requires OneEach(timers) && SendTicks(timers) && id.topic == Automation
    ensures OneEach(Removed(timers, id)) && SendTicks(Removed(timers, id)) && NoneFor(Removed(timers, id), id)
    ensures Same(timers, Removed(timers, id), id.window)
  {
    match Find(timers, id) {
      case None =>
      case Some(i) =>
        var after := timers[..i] + timers[i + 1..];
        forall t | t in timers && t.id != id
          ensures t in after
        {
          var k :| 0 <= k < |timers| && timers[k] == t;
          assert if k < i then after[k] == t else after[k - 1] == t;
        }
    }
  }

  lemma RemoveOtherKeeps(timers: seq<Timer>, id: TimerId)
    requires OneEach(timers) && SendTicks(timers) && id.topic != Automation
    ensures OneEach(Removed(timers, id)) && SendTicks(Removed(timers, id))
    ensures forall t: Timer :: t.id.topic == Automation ==> (t in timers <==> t in Removed(timers, id))
  {
    match Find(timers, id) {
      case None =>
      case Some(i) =>
        var after := timers[..i] + timers[i + 1..];
        forall t | t in timers && t.id.topic == Automation
          ensures t in after
        {
          var k :| 0 <= k < |timers| && timers[k] == t;
          assert if k < i then after[k] == t else after[k - 1] == t;
        }
    }
  }

  lemma InsertKeeps(timers: seq<Timer>, timer: Timer)
    requires OneEach(timers) && SendTicks(timers) && SendTicks([timer])
    requires timer.id.topic == Automation ==> NoneFor(timers, timer.id)
    ensures OneEach(Insert(timers, timer)) && SendTicks(Insert(timers, timer))
    ensures timer in Insert(timers, timer)
    ensures forall t :: t in timers ==> t in Insert(timers, timer)
    ensures forall t :: t in Insert(timers, timer) ==> t == timer || t in timers
  {
    InsertMembers(timers, timer);
    assert timer in [timer];
    var index, after := Position(timers, timer.deadline), Insert(timers, timer);
    forall i, j | 0 <= i < j < |after| && after[i].id.topic == Automation
      ensures after[i].id != after[j].id
    {
      SpliceAt(timers, index, timer, i);
      SpliceAt(timers, index, timer, j);
    }
  }

  /** Repeating timers that re-enter are not automation timers. */
  lemma FireKeeps(timers: seq<Timer>, now: nat)
    requires OneEach(timers) && SendTicks(timers) && timers != []
    ensures var after := RearmedOne(timers[1..], timers[0], now); OneEach(after) && SendTicks(after)
  {
    hide OneEach, SendTicks, Insert;
    FrontSendsTick(timers);
    if timers[0].interval.Some? {
      var again := timers[0].(deadline := now + timers[0].interval.value);
      RepeatingIsOther(timers[0], again);
      InsertKeeps(timers[1..], again);
    }
  }

  lemma FrontSendsTick(timers: seq<Timer>)
    requires OneEach(timers) && SendTicks(timers) && timers != []
    ensures OneEach(timers[1..]) && SendTicks(timers[1..]) && SendTicks([timers[0]])
  {
  }

  lemma RepeatingIsOther(timer: Timer, again: Timer)
    requires SendTicks([timer]) && timer.interval.Some? && again == timer.(deadline := again.deadline)
    ensures timer.id.topic != Automation && SendTicks([again])
  {
    assert timer in [timer];
  }

  lemma {:induction false} FiringsKeep(before: seq<Timer>, clock: Clock, k: nat)
    requires OneEach(before) && SendTicks(before)
    ensures OneEach(Firings(before, clock, k).timers) && SendTicks(Firings(before, clock, k).timers)
    decreases k
  {
    hide OneEach, SendTicks, RearmedOne;
    if k > 0 {
      FiringsKeep(before, clock, k - 1);
      var run := Firings(before, clock, k - 1);
      if FrontDue(run.timers, clock(0)) {
        FireKeeps(run.timers, clock(run.reading));
      }
    }
  }

  /** However many timers have fired, a window's tick is still armed, or it has been sent. */
  lemma {:induction false} ArmedOrSent(before: seq<Timer>, clock: Clock, k: nat, window: nat, bound: nat)
    requires OneEach(before) && SendTicks(before) && Armed(before, window, bound)
    ensures var run := Firings(before, clock, k);
      Armed(run.timers, window, bound) || AutomationTick(window) in Events(run.fired)
    decreases k
  {
    hide OneEach, SendTicks, RearmedOne, Armed, Events;
    if k > 0 {
      ArmedOrSent(before, clock, k - 1, window, bound);
      var run := Firings(before, clock, k - 1);
      if FrontDue(run.timers, clock(0)) {
        FiringsKeep(before, clock, k - 1);
        if Armed(run.timers, window, bound) {
          FireArmedOrSends(run.timers, clock(run.reading), window, bound);
        }
        EventsAppend(run.fired, run.timers[0]);
      }
    }
  }

  lemma FireArmedOrSends(timers: seq<Timer>, now: nat, window: nat, bound: nat)
    requires SendTicks(timers) && timers != [] && Armed(timers, window, bound)
    ensures Armed(RearmedOne(timers[1..], timers[0], now), window, bound) || timers[0].event == AutomationTick(window)
  {
    var t :| t in timers && t.id == TickTimerId(window) && t.deadline <= bound;
    FrontReplaced(timers, now);
  }

  lemma EventsAppend(timers: seq<Timer>, timer: Timer)
    ensures Events(timers + [timer]) == Events(timers) + [timer.event]
  {
  }

  lemma OutsideWindowKeeps(timers: seq<Timer>, window: nat)
    requires OneEach(timers) && SendTicks(timers)
    ensures OneEach(OutsideWindow(timers, window)) && SendTicks(OutsideWindow(timers, window))
    decreases |timers|
  {
    if timers != [] {
      OutsideWindowKeeps(timers[1..], window);
      var rest := OutsideWindow(timers[1..], window);
      forall j | 0 <= j < |rest| && timers[0].id.topic == Automation
        ensures rest[j].id != timers[0].id
      {
        assert rest[j] in timers[1..];
      }
    }
  }
}
