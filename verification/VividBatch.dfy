/**
 Batching of terminal-position events behind one UI notification: neighbouring scrolls of one region
 and direction merge, and a batch that grows too long collapses into a clear.
 */
module VividBatch {
  const MAX_PENDING: nat := 8_192
  const I32_MAX: int := 0x7fff_ffff
  const I32_MIN: int := -0x8000_0000

  type I32 = n: int | I32_MIN <= n <= I32_MAX

  datatype VividEvent =
    | GridScroll(origin: I32, end: I32, lines: I32, historySize: nat)
    | Marker(tag: nat)
    | Clear
    | ScreenSwap(alternate: bool)

  function Signum(n: int): int {
    if n > 0 then 1 else if n < 0 then -1 else 0
  }

  function SaturatingAdd(a: I32, b: I32): I32 {
    if a + b > I32_MAX then I32_MAX else if a + b < I32_MIN then I32_MIN else a + b
  }

  predicate Merges(queue: seq<VividEvent>, event: VividEvent) {
    && queue != [] && queue[|queue| - 1].GridScroll? && event.GridScroll?
    && var last := queue[|queue| - 1];
       last.origin == event.origin && last.end == event.end && Signum(last.lines) == Signum(event.lines)
  }

  function Appended(queue: seq<VividEvent>, event: VividEvent): seq<VividEvent> {
    if Merges(queue, event) then
      var last := queue[|queue| - 1];
      queue[|queue| - 1 := last.(lines := SaturatingAdd(last.lines, event.lines), historySize := event.historySize)]
    else queue + [event]
  }

  predicate Saturated(queue: seq<VividEvent>) {
    |queue| >= MAX_PENDING
  }

  function Pushed(queue: seq<VividEvent>, event: VividEvent): seq<VividEvent> {
    Appended(if Saturated(queue) then [Clear] else queue, event)
  }

  /** The batch behind a run of events. */
  function Batch(events: seq<VividEvent>): seq<VividEvent> {
    if events == [] then [] else Pushed(Batch(events[..|events| - 1]), events[|events| - 1])
  }

  class PendingVividEvents {
    var events: seq<VividEvent>
    var notificationPending: bool
    var overflowed: bool

    /** Everything pushed since the last take, and the notifications not yet taken for. */
    ghost var pushed: seq<VividEvent>
    ghost var notifications: nat

    ghost predicate Valid()
      reads this
    {
      && events == Batch(pushed)
      && notifications == (if notificationPending then 1 else 0)
      && (overflowed <==> EverSaturated(pushed))
    }

    constructor ()
      ensures Valid() && pushed == []
    {
      events, notificationPending, overflowed := [], false, false;
      pushed, notifications := [], 0;
    }

    /** Queue one event and say whether the UI needs a notification. */
    method Push(event: VividEvent) returns (notify: bool)
      requires Valid()
      modifies this
      ensures Valid() && pushed == old(pushed) + [event]
      ensures notifications == old(notifications) + (if notify then 1 else 0) == 1
    {
      hide Batch, EverSaturated;
      BatchStep(pushed, event);
      if |events| >= MAX_PENDING {
        events := [];
        events := events + [Clear];
        if !overflowed {
          overflowed := true;
        }
      }
      var merged := false;
      if events != [] && events[|events| - 1].GridScroll? && event.GridScroll? {
        var last := events[|events| - 1];
        if last.origin == event.origin && last.end == event.end && Signum(last.lines) == Signum(event.lines) {
          last := last.(lines := SaturatingAdd(last.lines, event.lines));
          last := last.(historySize := event.historySize);
          events := events[|events| - 1 := last];
          merged := true;
        }
      }
      if !merged {
        events := events + [event];
      }
      pushed := pushed + [event];
      notify := !notificationPending;
      if notify {
        notifications := notifications + 1;
      }
      notificationPending := true;
    }

    /** The UI takes the whole batch on its notification. */
    method Take() returns (taken: seq<VividEvent>)
      requires Valid()
      modifies this
      ensures Valid() && taken == Batch(old(pushed)) && pushed == [] && notifications == 0
    {
      notificationPending, overflowed := false, false;
      taken := events;
      events := [];
      pushed, notifications := [], 0;
    }
  }

  lemma BatchStep(events: seq<VividEvent>, event: VividEvent)
    ensures Batch(events + [event]) == Pushed(Batch(events), event)
    ensures EverSaturated(events + [event]) <==> EverSaturated(events) || Saturated(Batch(events))
  {
    assert (events + [event])[..|events|] == events;
  }

  // ---------------------------------------------------------------------------------------------
  // Meaning
  // ---------------------------------------------------------------------------------------------

  /** Scrolls line by line; everything else as it is. */
  datatype Unit = ScrollOne(origin: I32, end: I32, direction: int) | Whole(event: VividEvent)

  function Copies(unit: Unit, count: nat): seq<Unit> {
    seq(count, _ => unit)
  }

  function Magnitude(n: int): nat {
    if n < 0 then -n else n
  }

  function UnitsOf(event: VividEvent): seq<Unit> {
    match event
    case GridScroll(origin, end, lines, _) =>
      Copies(ScrollOne(origin, end, Signum(lines)), Magnitude(lines))
    case _ => [Whole(event)]
  }

  function Units(events: seq<VividEvent>): seq<Unit> {
    if events == [] then [] else Units(events[..|events| - 1]) + UnitsOf(events[|events| - 1])
  }

  /** Merging would leave the 32-bit range and be clipped. */
  predicate Clips(queue: seq<VividEvent>, event: VividEvent) {
    Merges(queue, event) && !(I32_MIN <= queue[|queue| - 1].lines + event.lines <= I32_MAX)
  }

  lemma UnitsAppend(events: seq<VividEvent>, event: VividEvent)
    ensures Units(events + [event]) == Units(events) + UnitsOf(event)
  {
    assert (events + [event])[..|events|] == events;
  }

  lemma CopiesAdd(unit: Unit, a: nat, b: nat)
    ensures Copies(unit, a) + Copies(unit, b) == Copies(unit, a + b)
  {
  }

  /** Two events merge exactly when they scroll one region up, or both down, or both by nothing. */
  lemma MergesExactly(queue: seq<VividEvent>, event: VividEvent)
    requires queue != []
    ensures Merges(queue, event) <==>
      match (queue[|queue| - 1], event)
      case (GridScroll(origin, end, a, _), GridScroll(origin', end', b, _)) =>
        origin == origin' && end == end' && ((a > 0 && b > 0) || (a < 0 && b < 0) || (a == 0 && b == 0))
      case _ => false
  {
  }

  /** Line counts add up, or stop at what 32 bits hold. */
  lemma SumExactly(a: I32, b: I32)
    ensures var sum := SaturatingAdd(a, b);
      && -2_147_483_648 <= sum <= 2_147_483_647
      && (-2_147_483_648 <= a + b <= 2_147_483_647 ==> sum == a + b)
      && (a + b > 2_147_483_647 ==> sum == 2_147_483_647)
      && (a + b < -2_147_483_648 ==> sum == -2_147_483_648)
  {
  }

  /** Appending keeps the meaning exactly when no merged line count is clipped. */
  lemma AppendKeepsMeaning(queue: seq<VividEvent>, event: VividEvent)
    ensures Units(Appended(queue, event)) == Units(queue) + UnitsOf(event) <==> !Clips(queue, event)
  {
    hide Copies;
    if Merges(queue, event) {
      var front, last := queue[..|queue| - 1], queue[|queue| - 1];
      var merged := last.(lines := SaturatingAdd(last.lines, event.lines), historySize := event.historySize);
      assert Appended(queue, event) == front + [merged];
      assert queue == front + [last];
      UnitsAppend(front, merged);
      UnitsAppend(front, last);
      MergedUnits(last, event);
      assert (Units(front) + UnitsOf(last)) + UnitsOf(event) == Units(front) + (UnitsOf(last) + UnitsOf(event));
      if Clips(queue, event) {
        assert |Units(front + [merged])| < |Units(queue) + UnitsOf(event)|;
      }
    } else {
      UnitsAppend(queue, event);
    }
  }

  lemma MergedUnits(last: VividEvent, event: VividEvent)
    requires last.GridScroll? && event.GridScroll?
    requires last.origin == event.origin && last.end == event.end && Signum(last.lines) == Signum(event.lines)
    ensures var merged := last.(lines := SaturatingAdd(last.lines, event.lines), historySize := event.historySize);
      if I32_MIN <= last.lines + event.lines <= I32_MAX then UnitsOf(merged) == UnitsOf(last) + UnitsOf(event)
      else |UnitsOf(merged)| < |UnitsOf(last)| + |UnitsOf(event)|
  {
    var unit := ScrollOne(last.origin, last.end, Signum(last.lines));
    CopiesAdd(unit, Magnitude(last.lines), Magnitude(event.lines));
  }

  predicate EverSaturated(events: seq<VividEvent>) {
    events != [] && (EverSaturated(events[..|events| - 1]) || Saturated(Batch(events[..|events| - 1])))
  }

  /** A merged line count has been clipped since the start or the last collapse. */
  predicate Clipped(events: seq<VividEvent>) {
    events != []
    && var queue := Batch(events[..|events| - 1]);
       !Saturated(queue) && (Clipped(events[..|events| - 1]) || Clips(queue, events[|events| - 1]))
  }

  lemma ClippedStep(events: seq<VividEvent>, event: VividEvent)
    ensures Clipped(events + [event]) <==>
      !Saturated(Batch(events)) && (Clipped(events) || Clips(Batch(events), event))
  {
    assert (events + [event])[..|events|] == events;
  }

  /** What the UI should be told: everything, or a clear and everything since the last collapse. */
  function Owed(events: seq<VividEvent>): seq<VividEvent> {
    if events == [] then [] else
      var earlier, last := events[..|events| - 1], events[|events| - 1];
      if Saturated(Batch(earlier)) then [Clear, last] else Owed(earlier) + [last]
  }

  /** The reference is a clear in front of a tail of the events, or all of them when nothing collapsed. */
  lemma {:induction false} OwedIsTail(events: seq<VividEvent>) returns (from: nat)
    ensures from <= |events|
    ensures Owed(events) == if EverSaturated(events) then [Clear] + events[from..] else events
    decreases |events|
  {
    hide Batch, Saturated, Owed, EverSaturated;
    from := 0;
    if events == [] {
      OwedNothing();
    } else {
      var earlier, last := events[..|events| - 1], events[|events| - 1];
      assert events == earlier + [last];
      OwedStep(earlier, last);
      BatchStep(earlier, last);
      from := OwedIsTail(earlier);
      if Saturated(Batch(earlier)) {
        from := |events| - 1;
      }
      JoinTail(earlier, last, from);
    }
  }

  lemma OwedNothing()
    ensures Owed([]) == [] && !EverSaturated([])
  {
  }

  lemma OwedStep(events: seq<VividEvent>, event: VividEvent)
    ensures Owed(events + [event]) == if Saturated(Batch(events)) then [Clear, event] else Owed(events) + [event]
  {
    assert (events + [event])[..|events|] == events;
  }

  lemma JoinTail(events: seq<VividEvent>, event: VividEvent, from: nat)
    requires from <= |events|
    ensures [Clear] + (events + [event])[from..] == [Clear] + events[from..] + [event]
    ensures from == |events| ==> [Clear] + (events + [event])[from..] == [Clear, event]
  {
  }

  lemma AppendNeverLonger(queue: seq<VividEvent>, event: VividEvent)
    ensures |Units(Appended(queue, event))| <= |Units(queue)| + |UnitsOf(event)|
  {
    hide Copies;
    if Merges(queue, event) {
      var front, last := queue[..|queue| - 1], queue[|queue| - 1];
      var merged := last.(lines := SaturatingAdd(last.lines, event.lines), historySize := event.historySize);
      assert Appended(queue, event) == front + [merged] && queue == front + [last];
      UnitsAppend(front, merged);
      UnitsAppend(front, last);
      MergedUnits(last, event);
    } else {
      UnitsAppend(queue, event);
    }
  }

  /**
   Line for line, the batch is what the UI should be told, exactly as long as no merged count has been
   clipped since the last collapse; after a clip lines are missing.
   */
  lemma {:induction false} BatchKeepsMeaningExactly(events: seq<VividEvent>)
    ensures Units(Batch(events)) == Units(Owed(events)) <==> !Clipped(events)
    ensures Clipped(events) ==> |Units(Batch(events))| < |Units(Owed(events))|
    decreases |events|
  {
    hide UnitsOf, Units, Appended, Clips, Batch, Owed, Clipped, Saturated;
    if events == [] {
      NothingOwed();
    } else {
      var earlier, last := events[..|events| - 1], events[|events| - 1];
      assert events == earlier + [last];
      BatchKeepsMeaningExactly(earlier);
      BatchStep(earlier, last);
      OwedStep(earlier, last);
      ClippedStep(earlier, last);
      if Saturated(Batch(earlier)) {
        ClearThen(last);
      } else {
        AppendKeepsMeaning(Batch(earlier), last);
        AppendNeverLonger(Batch(earlier), last);
        UnitsAppend(Owed(earlier), last);
        if Clips(Batch(earlier), last) {
          ClipShortens(Batch(earlier), last);
        }
      }
    }
  }

  lemma NothingOwed()
    ensures Batch([]) == [] == Owed([]) && !Clipped([])
  {
  }

  lemma ClearThen(event: VividEvent)
    ensures Appended([Clear], event) == [Clear, event]
  {
  }

  lemma ClipShortens(queue: seq<VividEvent>, event: VividEvent)
    requires Clips(queue, event)
    ensures |Units(Appended(queue, event))| < |Units(queue)| + |UnitsOf(event)|
  {
    hide Copies;
    var front, last := queue[..|queue| - 1], queue[|queue| - 1];
    var merged := last.(lines := SaturatingAdd(last.lines, event.lines), historySize := event.historySize);
    assert Appended(queue, event) == front + [merged] && queue == front + [last];
    UnitsAppend(front, merged);
    UnitsAppend(front, last);
    MergedUnits(last, event);
  }

  /** Scrolls of one region in one direction, whatever their history sizes. */
  predicate OneWay(events: seq<VividEvent>, origin: I32, end: I32, direction: int) {
    forall i :: 0 <= i < |events| ==>
      events[i].GridScroll? && events[i].origin == origin && events[i].end == end
        && Signum(events[i].lines) == direction
  }

  function TotalLines(events: seq<VividEvent>): int
    requires forall i :: 0 <= i < |events| ==> events[i].GridScroll?
  {
    if events == [] then 0 else TotalLines(events[..|events| - 1]) + events[|events| - 1].lines
  }

  function Clamped(n: int): I32 {
    if n > I32_MAX then I32_MAX else if n < I32_MIN then I32_MIN else n
  }

  /**
   Such a run is one entry of the batch, and has been clipped exactly when its lines add up to more than 32
   bits hold.
  */
  lemma {:induction false} ClippedRunExactly(events: seq<VividEvent>, origin: I32, end: I32, direction: int)
    requires OneWay(events, origin, end, direction)
    ensures Clipped(events) <==> !(-2_147_483_648 <= TotalLines(events) <= 2_147_483_647)
    ensures events == [] ==> TotalLines(events) == 0
    ensures direction >= 0 ==> TotalLines(events) >= 0
    ensures direction <= 0 ==> TotalLines(events) <= 0
    ensures events != [] ==>
      Signum(TotalLines(events)) == direction
      && Batch(events) == [GridScroll(origin, end, Clamped(TotalLines(events)), events[|events| - 1].historySize)]
    decreases |events|
  {
    hide Batch, Clipped;
    if events == [] {
      NothingOwed();
    } else {
      var earlier, last := events[..|events| - 1], events[|events| - 1];
      assert events == earlier + [last];
      ClippedRunExactly(earlier, origin, end, direction);
      BatchStep(earlier, last);
      ClippedStep(earlier, last);
      NothingOwed();
      MergesInto(Batch(earlier), TotalLines(earlier), last);
    }
  }

  /** The next scroll of a run joins the one entry there is. */
  lemma MergesInto(queue: seq<VividEvent>, total: int, event: VividEvent)
    requires event.GridScroll?
    requires queue == [] || exists h :: queue == [GridScroll(event.origin, event.end, Clamped(total), h)]
    requires if queue == [] then total == 0 else Signum(total) == Signum(event.lines)
    ensures !Saturated(queue)
    ensures Appended(queue, event) ==
      [GridScroll(event.origin, event.end, Clamped(total + event.lines), event.historySize)]
    ensures Clips(queue, event) || !(I32_MIN <= total <= I32_MAX) <==> !(I32_MIN <= total + event.lines <= I32_MAX)
  {
  }

  /** Enough one-line scrolls of one region clip: exactly more than 2^31 - 1 of them. */
  lemma ClippingHappens(n: nat, origin: I32, end: I32, historySize: nat)
    ensures Clipped(seq(n, _ => GridScroll(origin, end, 1, historySize))) <==> n > 2_147_483_647
  {
    var events := seq(n, _ => GridScroll(origin, end, 1, historySize));
    ClippedRunExactly(events, origin, end, 1);
    OneEach(events);
  }

  lemma {:induction false} OneEach(events: seq<VividEvent>)
    requires forall i :: 0 <= i < |events| ==> events[i].GridScroll? && events[i].lines == 1
    ensures TotalLines(events) == |events|
    decreases |events|
  {
    if events != [] {
      OneEach(events[..|events| - 1]);
    }
  }

  /** The queue never exceeds its limit. */
  lemma {:induction false} BatchBounded(events: seq<VividEvent>)
    ensures |Batch(events)| <= 8_192
    decreases |events|
  {
    if events != [] {
      BatchBounded(events[..|events| - 1]);
    }
  }

  /** A scroll in the batch carries the history size of the newest scroll merged into it. */
  lemma NewestHistory(events: seq<VividEvent>, event: VividEvent)
    requires event.GridScroll?
    ensures var batch := Batch(events + [event]);
      && batch != [] && var last := batch[|batch| - 1];
      last.GridScroll? && last.origin == event.origin && last.end == event.end && last.historySize == event.historySize
  {
    assert (events + [event])[..|events|] == events;
  }

  /** The batch collapses exactly when an event meets a full queue. */
  lemma {:induction false} CollapsesExactly(events: seq<VividEvent>)
    ensures EverSaturated(events) <==> exists k :: 0 <= k < |events| && |Batch(events[..k])| == 8_192
    decreases |events|
  {
    hide Batch;
    if events != [] {
      var last := |events| - 1;
      var init := events[..last];
      BatchBounded(init);
      CollapsesExactly(init);
      forall k | 0 <= k < last
        ensures events[..k] == init[..k]
      {
      }
    }
  }
}
