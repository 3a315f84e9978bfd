/**
 The event loop's automation handlers for live windows: waits, tracked writes and paced gestures share
 one timer per window, and no request is left without a wake-up.

 A handler sees one frozen instant `now`.  The world it looks at, which connections are alive and which
 conditions hold, is arbitrary.
 */
module AutomationWindows {
  import opened Wrappers
  import opened Scheduler
  import opened AutomationTimers
  import opened AutomationLedger
  import opened GestureHistory
  import PacedGesture

  const MAX_WAIT_TIMEOUT: nat := 86_400_000
  const MAX_INPUT_BYTES: nat := 1024 * 1024
  const WRITE_TIMEOUT: nat := 5_000

  /** What a handler finds outside the automation state. */
  datatype World = World(alive: nat -> bool, satisfied: Key -> bool)

  /** Whether a wait is over, deadline aside. */
  predicate Resolved(window: Window, waiter: Waiter, now: nat, world: World) {
    match waiter.kind
    case ScreenStable(quiet, _) =>
      Eligible(window, waiter) && now >= window.lastScreenChange + quiet
    case Condition(_) => world.satisfied(waiter.key)
  }

  predicate Keeps(window: Window, waiter: Waiter, now: nat, world: World) {
    && world.alive(waiter.key.connection)
    && waiter.deadline > now
    && !Resolved(window, waiter, now, world)
  }

  function Kept(window: Window, waiters: seq<Waiter>, now: nat, world: World): (kept: seq<Waiter>)
    ensures forall w :: w in kept <==> w in waiters && Keeps(window, w, now, world)
  {
    if waiters == [] then [] else
      var earlier, last := Kept(window, waiters[..|waiters| - 1], now, world), waiters[|waiters| - 1];
      assert waiters == waiters[..|waiters| - 1] + [last];
      if Keeps(window, last, now, world) then earlier + [last] else earlier
  }

  /** The requests answered, in order: those of live connections that are over or overdue. */
  function Settled(window: Window, waiters: seq<Waiter>, now: nat, world: World): (settled: seq<Key>)
    ensures forall w :: w in waiters && world.alive(w.key.connection) && !Keeps(window, w, now, world) ==>
      w.key in settled
  {
    if waiters == [] then [] else
      var earlier, last := Settled(window, waiters[..|waiters| - 1], now, world), waiters[|waiters| - 1];
      assert waiters == waiters[..|waiters| - 1] + [last];
      if world.alive(last.key.connection) && !Keeps(window, last, now, world) then earlier + [last.key] else earlier
  }

  /** Nothing a window waits for is lost, except what is over or overdue. */
  ghost predicate StillWaits(before: Window, after: Window, now: nat, world: World) {
    && after.screenSequence == before.screenSequence && after.lastScreenChange == before.lastScreenChange
    && forall w :: w in before.waiters && Keeps(before, w, now, world) ==> w in after.waiters
  }

  /** Every wait of a live connection that is over or overdue has been answered. */
  ghost predicate Served(before: Window, answers: seq<Key>, now: nat, world: World) {
    forall w :: w in before.waiters && world.alive(w.key.connection) && !Keeps(before, w, now, world) ==>
      w.key in answers
  }

  /**
   What a tick makes of a window: exactly the overdue writes go, each answered; every wait of a live connection
   that is over or overdue is answered; every other wait of a live connection stays, and nothing else does.
   */
  ghost predicate Settles(before: Window, after: Window, answers: seq<Key>, now: nat, world: World) {
    && (forall p :: p in after.writes <==> p in before.writes && p.deadline > now)
    && (forall p :: p in before.writes && p.deadline <= now ==> p.key in answers)
    && (forall w :: w in after.waiters ==> Keeps(after, w, now, world))
    && StillWaits(before, after, now, world)
    && Served(before, answers, now, world)
  }

  /**
   A wait of a live connection goes on: it is not overdue, and its condition does not hold, or the screen has not
   yet moved past the change it waits for, or has not been quiet for long enough.
   */
  predicate StaysOpen(window: Window, w: Waiter, now: nat, world: World) {
    w.deadline > now
    && match w.kind
       case Condition(_) => !world.satisfied(w.key)
       case ScreenStable(quiet, after) =>
         (after.Some? && window.screenSequence <= after.value) || now < window.lastScreenChange + quiet
  }

  /** Each wait of a live connection either goes on and stays, unanswered, or is answered and gone. */
  ghost predicate Decided(before: Window, after: seq<Waiter>, answers: seq<Key>, now: nat, world: World) {
    && (forall w :: w in after ==> w in before.waiters && world.alive(w.key.connection))
    && forall w :: w in before.waiters && world.alive(w.key.connection) ==>
         if StaysOpen(before, w, now, world) then w in after && w.key !in answers
         else w !in after && w.key in answers
  }

  lemma KeepsExactly(window: Window, w: Waiter, now: nat, world: World)
    ensures Keeps(window, w, now, world) <==> world.alive(w.key.connection) && StaysOpen(window, w, now, world)
  {
  }

  /** What the books make of an evaluation: a wait that stays is unanswered. */
  lemma DecidedBy(ledger: Ledger, windows: Windows, gestures: Gestures, answers: seq<Key>, id: nat,
                  before: Window, now: nat, world: World)
    requires id in windows && Books(ledger, windows, gestures, answers)
    requires windows[id].waiters == Kept(before, before.waiters, now, world) && Served(before, answers, now, world)
    ensures Decided(before, windows[id].waiters, answers, now, world)
  {
    hide Books, Kept, Keeps, StaysOpen, Held;
    forall w | w in before.waiters
      ensures Keeps(before, w, now, world) <==> world.alive(w.key.connection) && StaysOpen(before, w, now, world)
    {
      KeepsExactly(before, w, now, world);
    }
    forall w | w in windows[id].waiters
      ensures w.key !in answers
    {
      HeldUnanswered(ledger, windows, gestures, answers, id, w);
    }
  }

  lemma HeldUnanswered(ledger: Ledger, windows: Windows, gestures: Gestures, answers: seq<Key>, id: nat, w: Waiter)
    requires id in windows && Books(ledger, windows, gestures, answers) && w in windows[id].waiters
    ensures w.key !in answers
  {
    hide Held;
    WaiterHeld(windows, gestures, id, w);
    assert Held(windows, gestures, id)[w.key] == One(w.key in ledger && ledger[w.key] == Waiting(id));
    assert multiset(answers)[w.key] == One(w.key in ledger && ledger[w.key] == Answered);
    assert w.key in answers <==> w.key in multiset(answers);
  }

  lemma WaiterHeld(windows: Windows, gestures: Gestures, id: nat, w: Waiter)
    requires id in windows && w in windows[id].waiters
    ensures Held(windows, gestures, id)[w.key] > 0
  {
    var keys := WaiterKeys(windows[id].waiters);
    var i :| 0 <= i < |windows[id].waiters| && windows[id].waiters[i] == w;
    assert keys[i] == w.key && w.key in multiset(keys);
  }

  /** A request given up unanswered belongs to a connection that is gone. */
  ghost predicate Excused(ledger: Ledger, gone: set<nat>) {
    forall k :: k in ledger && ledger[k] == Dropped ==> k.connection in gone
  }

  /**
   After a tick: the waits and writes that stay are those not over, unanswered; every other wait of a live
   connection and every other write has been answered.  A wait may have joined, when a gesture has finished.
   */
  ghost predicate TickDecides(before: Window, after: Window, answers: seq<Key>, now: nat, world: World) {
    && (forall w :: w in before.waiters && world.alive(w.key.connection) ==>
          if StaysOpen(before, w, now, world) then w in after.waiters && w.key !in answers
          else w !in after.waiters && w.key in answers)
    && (forall w :: w in after.waiters ==> world.alive(w.key.connection) && StaysOpen(after, w, now, world))
    && (forall p :: p in before.writes ==>
          if p.deadline > now then p in after.writes else p !in after.writes && p.key in answers)
    && (forall p :: p in after.writes ==> p in before.writes)
  }

  lemma TickDecidedBy(ledger: Ledger, windows: Windows, gestures: Gestures, answers: seq<Key>, id: nat,
                      before: Window, now: nat, world: World)
    requires id in windows && Books(ledger, windows, gestures, answers)
    requires Settles(before, windows[id], answers, now, world)
    ensures TickDecides(before, windows[id], answers, now, world)
  {
    hide Books, Keeps, StaysOpen, Held;
    forall w: Waiter
      ensures Keeps(before, w, now, world) <==> world.alive(w.key.connection) && StaysOpen(before, w, now, world)
      ensures Keeps(windows[id], w, now, world) <==>
        world.alive(w.key.connection) && StaysOpen(windows[id], w, now, world)
    {
      KeepsExactly(before, w, now, world);
      KeepsExactly(windows[id], w, now, world);
    }
    forall w | w in windows[id].waiters
      ensures w.key !in answers
    {
      HeldUnanswered(ledger, windows, gestures, answers, id, w);
    }
  }

  /** Only connections found dead are added to those that are gone. */
  ghost predicate FoundDead(before: set<nat>, after: set<nat>, world: World) {
    before <= after && forall c :: c in after ==> c in before || !world.alive(c)
  }

  /** A tick is on its way, or the window's timer fires for every obligation as soon as it can. */
  ghost predicate InTime(timers: seq<Timer>, sent: seq<Event>, handled: nat, obligations: seq<nat>, id: nat, now: nat) {
    || (handled <= |sent| && AutomationTick(id) in sent[handled..])
    || ArmedForAll(timers, obligations, id, now)
  }

  ghost predicate ArmedForAll(timers: seq<Timer>, obligations: seq<nat>, id: nat, now: nat) {
    forall d :: d in obligations ==> Armed(timers, id, Max(d, now))
  }

  /** A window's timer stands at its nearest instant, or at `now` when that has passed. */
  ghost predicate AtNearest(timers: seq<Timer>, obligations: seq<nat>, id: nat, now: nat) {
    forall t :: t in timers && t.id == TickTimerId(id) ==>
      obligations != [] && t.deadline == Max(Nearest(obligations).value, now)
  }

  /** The timer of a window serves every obligation as soon as it can, and stands no earlier than that. */
  ghost predicate OnTime(timers: seq<Timer>, obligations: seq<nat>, id: nat, now: nat) {
    ArmedForAll(timers, obligations, id, now) && AtNearest(timers, obligations, id, now)
  }

  /**
   A window's timer fires for everything it is owed as soon as it can, and stands at one of those instants, or at
   `now` when that has passed.
   */
  ghost predicate TimerServes(timers: seq<Timer>, window: Window, gestures: Gestures, id: nat, now: nat) {
    && (forall d :: Owed(window, gestures, id, d) ==> Armed(timers, id, Max(d, now)))
    && (forall t :: t in timers && t.id == TickTimerId(id) ==>
          exists d :: Owed(window, gestures, id, d) && t.deadline == Max(d, now))
  }

  lemma OnTimeServes(timers: seq<Timer>, window: Window, gestures: Gestures, id: nat, now: nat)
    requires OnTime(timers, Obligations(window, gestures, id), id, now)
    ensures TimerServes(timers, window, gestures, id, now)
    ensures Obligations(window, gestures, id) == [] <==> forall d :: !Owed(window, gestures, id, d)
  {
    hide Owed, Obligations, Armed;
    ObligationsExactly(window, gestures, id);
    var obligations := Obligations(window, gestures, id);
    assert obligations != [] ==> obligations[0] in obligations;
  }

  lemma NearestOwed(window: Window, gestures: Gestures, id: nat)
    ensures var nearest := Nearest(Obligations(window, gestures, id));
      && (nearest.None? <==> forall d :: !Owed(window, gestures, id, d))
      && (nearest.Some? ==> Owed(window, gestures, id, nearest.value)
                            && forall d :: Owed(window, gestures, id, d) ==> nearest.value <= d)
  {
    hide Owed, Obligations;
    ObligationsExactly(window, gestures, id);
    var obligations := Obligations(window, gestures, id);
    assert obligations != [] ==> obligations[0] in obligations;
  }

  /** The wait a finished gesture leaves behind. */
  function Joined(window: Window, request: PacedRequest, now: nat): Window {
    var path := request.gesture.path;
    var deadline := now + if path.waitFrame then path.timeout else WRITE_TIMEOUT;
    window.(waiters := window.waiters + [Waiter(request.key, deadline, Condition(0))])
  }

  /** It may take as long as the path allows for its frame, or five seconds. */
  lemma JoinedExactly(window: Window, request: PacedRequest, now: nat)
    ensures var path, after := request.gesture.path, Joined(window, request, now);
      && after == window.(waiters := after.waiters) && |after.waiters| == |window.waiters| + 1
      && window.waiters <= after.waiters && after.waiters[|window.waiters|].key == request.key
      && after.waiters[|window.waiters|].deadline == (if path.waitFrame then now + path.timeout else now + 5_000)
  {
  }

  /** What one turn makes of the gestures and of what has been written. */
  function Turned(id: nat, gestures: Gestures, tick: PacedGesture.Tick): Gestures
    requires id in gestures && PacedGesture.Valid(gestures[id].gesture)
  {
    match PacedGesture.Advance(gestures[id].gesture, tick).progress
    case Pending(next) => gestures[id := gestures[id].(gesture := next)]
    case _ => gestures - {id}
  }

  /** The request whose gesture this turn completes, if it does. */
  function Ended(id: nat, gestures: Gestures, tick: PacedGesture.Tick): set<Key>
    requires id in gestures && PacedGesture.Valid(gestures[id].gesture)
  {
    if PacedGesture.Advance(gestures[id].gesture, tick).progress.Finished? then {gestures[id].key} else {}
  }

  /** One tick's turn of a window's gesture, if it has one: what it writes, what becomes of it, and its answer. */
  ghost predicate TurnTaken(id: nat, live: bool, before: Gestures, after: Gestures, writtenBefore: seq<Sent>,
                            written: seq<Sent>, completedBefore: set<Key>, completed: set<Key>, answers: seq<Key>,
                            tick: PacedGesture.Tick)
  {
    && after - {id} == before - {id}
    && (!live || id !in before ==> written == writtenBefore && completed == completedBefore)
    && (id !in before ==> after == before)
    && (live && id in before ==>
          && PacedGesture.Valid(before[id].gesture)
          && after == Turned(id, before, tick)
          && written == writtenBefore + TurnWritten(id, before, tick)
          && completed == completedBefore + Ended(id, before, tick)
          && (PacedGesture.Advance(before[id].gesture, tick).progress.Left? ==> before[id].key in answers))
  }

  function TurnWritten(id: nat, gestures: Gestures, tick: PacedGesture.Tick): seq<Sent>
    requires id in gestures && PacedGesture.Valid(gestures[id].gesture)
  {
    Stamped(id, gestures[id].key, PacedGesture.Advance(gestures[id].gesture, tick).written)
  }

  ghost predicate ReleaseReady(order: seq<nat>, gestures: Gestures) {
    forall id :: id in order ==> id in gestures && PacedGesture.Valid(gestures[id].gesture)
  }

  /** The releases of gestures that go because their connection is gone. */
  ghost function Releases(order: seq<nat>, gestures: Gestures, windows: set<nat>, releaseOk: nat -> bool): seq<Sent>
    requires ReleaseReady(order, gestures)
  {
    if order == [] then [] else
      var id := order[|order| - 1];
      assert id in order;
      var turn := PacedGesture.Release(gestures[id].gesture, PacedGesture.Disconnected, releaseOk(id));
      Releases(order[..|order| - 1], gestures, windows, releaseOk)
      + if id in windows then Stamped(id, gestures[id].key, turn.written) else []
  }

  class Processor {
    var windows: Windows
    var gestures: Gestures
    const scheduler: Scheduler

    /** How many of the sent events the loop has handled. */
    var handled: nat

    /** Requests answered so far, and mouse actions written, oldest first. */
    var answers: seq<Key>
    var written: seq<Sent>

    ghost var ledger: Ledger

    /** The connections that have been disconnected or found dead. */
    ghost var gone: set<nat>

    /** The paths of all gestures ever started, and the requests whose gesture ran to its end. */
    ghost var paths: Paths
    ghost var completed: set<Key>

    /** The instant of the last handler. */
    ghost var latest: nat

    constructor ()
      ensures Valid() && windows == map[] && gestures == map[] && ledger == map[] && fresh(scheduler)
      ensures latest == 0 && gone == {} && answers == [] && written == [] && scheduler.timers == []
        && scheduler.sent == [] && handled == 0
    {
      windows, gestures, handled, answers, written := map[], map[], 0, [], [];
      ledger, latest, gone, paths, completed := map[], 0, {}, map[], {};
      scheduler := new Scheduler();
    }

    /** Which gestures were ever started, and which of them ran to their end. */
    ghost function History(): (Paths, set<Key>)
      reads this
    {
      (paths, completed)
    }

    ghost predicate TimersRight()
      reads this, scheduler
    {
      && scheduler.Valid()
      && OneEach(scheduler.timers)
      && SendTicks(scheduler.timers)
      && handled <= |scheduler.sent|
    }

    ghost predicate RequestsRight()
      reads this
    {
      && Books(ledger, windows, gestures, answers)
      && Excused(ledger, gone)
      && paths.Keys <= ledger.Keys
      && Recorded(paths, completed, gestures, written)
    }

    ghost predicate Covered(id: nat)
      requires id in windows
      reads this, scheduler
    {
      InTime(scheduler.timers, scheduler.sent, handled, Obligations(windows[id], gestures, id), id, latest)
    }

    /** No request on a live window is stranded, except perhaps where a handler is at work. */
    ghost predicate ValidBut(busy: set<nat>)
      reads this, scheduler
    {
      && TimersRight()
      && RequestsRight()
      && forall id :: id in windows && id !in busy ==> Covered(id)
    }

    ghost predicate Valid()
      reads this, scheduler
    {
      ValidBut({})
    }

    /** The earliest instant a window needs its timer for. */
    method NearestInstant(id: nat) returns (nearest: Option<nat>)
      requires id in windows
      ensures nearest == Nearest(Obligations(windows[id], gestures, id))
      ensures nearest.None? <==> forall d :: !Owed(windows[id], gestures, id, d)
      ensures nearest.Some? ==> Owed(windows[id], gestures, id, nearest.value)
                                && forall d :: Owed(windows[id], gestures, id, d) ==> nearest.value <= d
    {
      var window := windows[id];
      var deadlines := Deadlines(window, gestures, id);
      nearest := Nearest(deadlines);
      assert deadlines + StableInstants(window, window.waiters[..0]) == deadlines;
      for i := 0 to |window.waiters|
        invariant nearest == Nearest(deadlines + StableInstants(window, window.waiters[..i]))
      {
        var waiter := window.waiters[i];
        assert window.waiters[..i + 1][..i] == window.waiters[..i];
        if Eligible(window, waiter) {
          var stable := StableInstant(window, waiter);
          ghost var before := deadlines + StableInstants(window, window.waiters[..i]);
          NearestAppend(before, stable);
          assert deadlines + StableInstants(window, window.waiters[..i + 1]) == before + [stable];
          nearest := match nearest
            case None => Some(stable)
            case Some(current) => Some(Min(current, stable));
        }
      }
      assert window.waiters[..|window.waiters|] == window.waiters;
      NearestOwed(window, gestures, id);
    }

    /** Replace the window's timer by one at the nearest instant, or by none. */
    method ResetTimer(id: nat, now: nat)
      requires TimersRight()
      modifies scheduler
      ensures TimersRight() && scheduler.sent == old(scheduler.sent)
      ensures Same(old(scheduler.timers), scheduler.timers, id)
      ensures id in windows ==>
        OnTime(scheduler.timers, Obligations(windows[id], gestures, id), id, now)
      ensures (id !in windows || Obligations(windows[id], gestures, id) == []) ==>
        NoneFor(scheduler.timers, TickTimerId(id))
    {
      hide OneEach, SendTicks, Obligations, OnTime, Insert, Removed;
      var timerId := TickTimerId(id);
      RemoveKeeps(scheduler.timers, timerId);
      var _ := scheduler.Unschedule(timerId);
      if id in windows {
        var nearest := NearestInstant(id);
        if nearest.Some? {
          var deadline := nearest.value;
          var delay := if deadline > now then deadline - now else 0;
          ghost var timer := Timer(now + delay, AutomationTick(id), timerId, None);
          TickSends(timer);
          InsertKeeps(scheduler.timers, timer);
          PlacedOnTime(scheduler.timers, Insert(scheduler.timers, timer), timer,
                       Obligations(windows[id], gestures, id), id, now);
          scheduler.Schedule(AutomationTick(id), delay, false, timerId, now);
        } else {
          NothingToServe(scheduler.timers, id, now);
        }
      }
    }

    /** Keep exactly one timer at the nearest instant for this window. */
    method ScheduleTimer(id: nat, now: nat, ghost busy: set<nat>)
      requires ValidBut(busy) && now == latest
      modifies scheduler
      ensures ValidBut(busy - {id}) && scheduler.sent == old(scheduler.sent)
      ensures Same(old(scheduler.timers), scheduler.timers, id)
      ensures id in windows ==>
        TimerServes(scheduler.timers, windows[id], gestures, id, now)
      ensures id !in windows || (forall d :: !Owed(windows[id], gestures, id, d)) ==>
        NoneFor(scheduler.timers, TickTimerId(id))
    {
      hide OneEach, SendTicks, Books, Recorded, Excused, FoundDead, Obligations, ArmedForAll, AtNearest, TimerServes,
           Owed;
      ResetTimer(id, now);
      if id in windows {
        OnTimeServes(scheduler.timers, windows[id], gestures, id, now);
      }
      forall other | other in windows && other !in busy && other != id
        ensures Covered(other)
      {
        assert old(Covered(other));
        InTimeMore(old(scheduler.timers), scheduler.timers, scheduler.sent, handled,
                   Obligations(windows[other], gestures, other), other, latest);
      }
    }

    /** Every handler begins by reading the clock. */
    ghost method Begin(now: nat, busy: set<nat>)
      requires ValidBut(busy) && now >= latest
      modifies this`latest
      ensures ValidBut(busy) && latest == now
    {
      hide OneEach, SendTicks, Books, Recorded, Excused, FoundDead, Obligations, InTime;
      latest := now;
      forall id | id in windows && id !in busy
        ensures Covered(id)
      {
        assert old(Covered(id));
        InTimeLater(scheduler.timers, scheduler.sent, handled, Obligations(windows[id], gestures, id), id,
                    old(latest), now);
      }
    }

    /** A request is over: its connection is told, or it is forgotten. */
    method Finish(key: Key, answered: bool)
      requires Excused(ledger, gone) && (answered || key.connection in gone)
      modifies this`answers, this`ledger
      ensures Excused(ledger, gone)
      ensures ledger == old(ledger)[key := if answered then Answered else Dropped]
      ensures answers == if answered then old(answers) + [key] else old(answers)
    {
      ExcusedOn(ledger, gone, key, if answered then Answered else Dropped);
      ledger := ledger[key := if answered then Answered else Dropped];
      if answered {
        answers := answers + [key];
      }
    }

    /** The loop over a window's waits: answer, forget or keep each. */
    method SettleWaiters(id: nat, now: nat, world: World) returns (kept: seq<Waiter>)
      requires id in windows && Books(ledger, windows, gestures, answers) && Excused(ledger, gone)
      modifies this`answers, this`ledger, this`gone
      ensures Excused(ledger, gone) && FoundDead(old(gone), gone, world)
      ensures kept == Kept(windows[id], windows[id].waiters, now, world)
      ensures answers == old(answers) + Settled(windows[id], windows[id].waiters, now, world)
      ensures Decided(windows[id], kept, answers, now, world)
      ensures Books(ledger, WithWaiters(windows, id, kept), gestures, answers) && ledger.Keys == old(ledger).Keys
    {
      hide Books, Recorded, Excused, FoundDead, Keeps, Kept, Settled, Decided, Served;
      var window := windows[id];
      var waiters := window.waiters;
      kept := [];
      SettleStart(windows, id, now, world);
      NoneFound(gone, world);
      for i := 0 to |waiters|
        invariant Books(ledger, WithWaiters(windows, id, kept + waiters[i..]), gestures, answers)
        invariant kept == Kept(window, waiters[..i], now, world)
        invariant answers == old(answers) + Settled(window, waiters[..i], now, world)
        invariant ledger.Keys == old(ledger).Keys && Excused(ledger, gone) && FoundDead(old(gone), gone, world)
      {
        var waiter := waiters[i];
        SettleStep(ledger, windows, gestures, answers, id, i, now, world);
        if Keeps(window, waiter, now, world) {
          kept := kept + [waiter];
        } else {
          if !world.alive(waiter.key.connection) {
            FoundOne(ledger, old(gone), gone, world, waiter.key.connection);
            gone := gone + {waiter.key.connection};
          }
          Finish(waiter.key, world.alive(waiter.key.connection));
        }
      }
      assert waiters[..|waiters|] == waiters && kept + waiters[|waiters|..] == kept;
      SettledServed(window, window, old(answers), now, world);
      DecidedBy(ledger, WithWaiters(windows, id, kept), gestures, answers, id, window, now, world);
    }

    /** Answer every wait of a window that is over or overdue; forget those of dead connections. */
    method EvaluateWaiters(id: nat, now: nat, world: World, ghost busy: set<nat>)
      requires ValidBut(busy) && id in busy
      modifies this`windows, this`answers, this`ledger, this`gone
      ensures ValidBut(busy) && FoundDead(old(gone), gone, world)
      ensures id in windows <==> id in old(windows)
      ensures id !in windows ==> windows == old(windows) && answers == old(answers)
      ensures id in windows ==> var window := old(windows)[id];
        && windows == WithWaiters(old(windows), id, Kept(window, window.waiters, now, world))
        && answers == old(answers) + Settled(window, window.waiters, now, world)
        && Decided(window, windows[id].waiters, answers, now, world)
      ensures ledger.Keys == old(ledger).Keys
    {
      hide OneEach, SendTicks, Books, Recorded, Excused, FoundDead, Obligations, InTime, Kept, Settled, Decided;
      NoneFound(gone, world);
      if id !in windows { return; }
      var kept := SettleWaiters(id, now, world);
      windows := WithWaiters(windows, id, kept);
      forall other | other in windows && other !in busy
        ensures Covered(other)
      {
        assert old(Covered(other));
      }
    }

    /** Register a wait; it may be answered at once. */
    method RegisterWait(id: nat, key: Key, timeout: nat, kind: WaitKind, now: nat, world: World)
      requires Valid() && now >= latest && key !in ledger && id in windows
      modifies this, scheduler
      ensures handled == old(handled) && scheduler.sent == old(scheduler.sent)
      ensures Same(old(scheduler.timers), scheduler.timers, id)
      ensures Valid() && latest == now && ledger.Keys == old(ledger).Keys + {key}
      ensures gestures == old(gestures) && written == old(written) && History() == old(History())
      ensures FoundDead(old(gone), gone, world)
      ensures !(1 <= timeout <= 86_400_000) ==> windows == old(windows) && answers == old(answers) + [key]
      ensures 1 <= timeout <= 86_400_000 ==>
        var waiters := old(windows)[id].waiters + [Waiter(key, now + timeout, kind)];
        var window := old(windows)[id];
        && windows == WithWaiters(old(windows), id, Kept(window.(waiters := waiters), waiters, now, world))
        && answers == old(answers) + Settled(window.(waiters := waiters), waiters, now, world)
        && Decided(window.(waiters := waiters), windows[id].waiters, answers, now, world)
        && TimerServes(scheduler.timers, windows[id], gestures, id, now)
    {
      hide OneEach, SendTicks, Books, Recorded, Excused, FoundDead, Obligations, InTime, TimerServes, Kept, Settled,
           Same, Decided;
      Begin(now, {});
      NoneFound(gone, world);
      SameTimers(scheduler.timers, id);
      if !(1 <= timeout <= MAX_WAIT_TIMEOUT) {
        Answer(key, {});
        return;
      }
      AddWaiter(id, Waiter(key, now + timeout, kind));
      EvaluateWaiters(id, now, world, {id});
      ScheduleTimer(id, now, {id});
    }

    /** A wait joins a window; its timer is still to be set. */
    method AddWaiter(id: nat, waiter: Waiter)
      requires Valid() && waiter.key !in ledger && id in windows
      modifies this`windows, this`ledger
      ensures ValidBut({id}) && ledger.Keys == old(ledger).Keys + {waiter.key}
      ensures windows == WithWaiters(old(windows), id, old(windows)[id].waiters + [waiter])
    {
      hide OneEach, SendTicks, Books, Recorded, Excused, Obligations, InTime;
      OpenWaiter(ledger, windows, gestures, answers, id, waiter);
      ExcusedOn(ledger, gone, waiter.key, Waiting(id));
      ledger := ledger[waiter.key := Waiting(id)];
      windows := WithWaiters(windows, id, windows[id].waiters + [waiter]);
      forall other | other in windows && other != id
        ensures Covered(other)
      {
        assert old(Covered(other));
      }
    }

    /** Answer a request on the spot. */
    method Answer(key: Key, ghost busy: set<nat>)
      requires ValidBut(busy) && key !in ledger
      modifies this`answers, this`ledger
      ensures ValidBut(busy) && answers == old(answers) + [key] && ledger.Keys == old(ledger).Keys + {key}
    {
      hide OneEach, SendTicks, Books, Recorded, Excused, FoundDead, Obligations, InTime;
      Refuse(ledger, windows, gestures, answers, key);
      ExcusedOn(ledger, gone, key, Answered);
      ledger := ledger[key := Answered];
      answers := answers + [key];
      forall other | other in windows && other !in busy
        ensures Covered(other)
      {
        assert old(Covered(other));
      }
    }

    /** Answer every tracked write whose deadline has passed. */
    method ExpireWrites(id: nat, now: nat, ghost busy: set<nat>)
      requires ValidBut(busy) && id in busy && id in windows
      modifies this`windows, this`answers, this`ledger
      ensures ValidBut(busy) && windows.Keys == old(windows).Keys
      ensures windows == WithWrites(old(windows), id, windows[id].writes)
      ensures forall p :: p in windows[id].writes <==> p in old(windows)[id].writes && p.deadline > now
      ensures forall p :: p in old(windows)[id].writes && p.deadline <= now ==> p.key in answers
      ensures old(answers) <= answers && ledger.Keys == old(ledger).Keys
    {
      hide OneEach, SendTicks, Books, Recorded, Excused, FoundDead, Obligations, InTime, SwapRemove;
      var index := 0;
      assert WithWrites(windows, id, windows[id].writes) == windows;
      while index < |windows[id].writes|
        invariant id in windows && windows == WithWrites(old(windows), id, windows[id].writes)
        invariant RequestsRight() && ledger.Keys == old(ledger).Keys && old(answers) <= answers
        invariant index <= |windows[id].writes|
        invariant forall k :: 0 <= k < index ==> windows[id].writes[k].deadline > now
        invariant forall p :: p in windows[id].writes ==> p in old(windows)[id].writes
        invariant forall p :: p in old(windows)[id].writes ==>
          p in windows[id].writes || (p.deadline <= now && p.key in answers)
        decreases |windows[id].writes| - index
      {
        var writes := windows[id].writes;
        if writes[index].deadline <= now {
          ghost var key := writes[index].key;
          CloseWrite(ledger, windows, gestures, answers, id, index);
          SwapRemoveMembers(writes, index);
          answers := answers + [writes[index].key];
          ExcusedOn(ledger, gone, key, Answered);
          ledger := ledger[key := Answered];
          windows := WithWrites(windows, id, SwapRemove(writes, index));
        } else {
          index := index + 1;
        }
      }
      forall other | other in windows && other !in busy
        ensures Covered(other)
      {
        assert old(Covered(other));
      }
    }

    /** A gesture whose last action is out becomes an ordinary wait for that write. */
    method FinishGesture(id: nat, request: PacedRequest, now: nat, world: World, ghost busy: set<nat>)
      requires TimersRight() && Books(ledger, windows, gestures, answers) && paths.Keys <= ledger.Keys
      requires Excused(ledger, gone)
      requires Recorded(paths, completed, gestures - {id}, written)
      requires forall other :: other in windows && other !in busy ==> Covered(other)
      requires id in busy && now == latest && id in windows && id in gestures && gestures[id] == request
      modifies this`windows, this`gestures, this`answers, this`ledger, this`gone, scheduler
      ensures ValidBut(busy - {id}) && ledger.Keys == old(ledger).Keys
      ensures gestures == old(gestures) - {id} && scheduler.sent == old(scheduler.sent)
      ensures Same(old(scheduler.timers), scheduler.timers, id)
      ensures var window := Joined(old(windows)[id], request, now);
        && windows == WithWaiters(old(windows), id, Kept(window, window.waiters, now, world))
        && answers == old(answers) + Settled(window, window.waiters, now, world)
      ensures StillWaits(old(windows)[id], windows[id], now, world) && Served(old(windows)[id], answers, now, world)
      ensures FoundDead(old(gone), gone, world)
    {
      hide OneEach, SendTicks, Books, Recorded, Excused, FoundDead, Obligations, InTime, TimerServes, Kept, Settled,
           StillWaits;
      var path := request.gesture.path;
      var deadline := now + if path.waitFrame then path.timeout else WRITE_TIMEOUT;
      var waiter := Waiter(request.key, deadline, Condition(0));
      GestureBecomesWaiter(ledger, windows, gestures, answers, id, waiter);
      gestures := gestures - {id};
      windows := WithWaiters(windows, id, windows[id].waiters + [waiter]);
      ObligationsElsewhere(old(windows), windows, old(gestures), gestures, id);
      forall other | other in windows && other !in busy
        ensures Covered(other)
      {
        assert old(Covered(other));
      }
      JoinedServed(old(windows)[id], waiter, now, world);
      JoinedStillWaits(old(windows)[id], waiter, now, world);
      EvaluateWaiters(id, now, world, busy);
      ScheduleTimer(id, now, busy);
    }

    /** Let a gesture of a live window take its turn at `tick.now`. */
    method AdvanceGesture(id: nat, tick: PacedGesture.Tick, world: World, ghost busy: set<nat>)
      requires ValidBut(busy) && id in busy && tick.now == latest
      modifies this`windows, this`gestures, this`answers, this`written, this`ledger, this`completed, this`gone,
               scheduler
      ensures ValidBut(busy) && ledger.Keys == old(ledger).Keys && scheduler.sent == old(scheduler.sent)
      ensures Same(old(scheduler.timers), scheduler.timers, id)
      ensures windows.Keys == old(windows).Keys && windows - {id} == old(windows) - {id}
      ensures old(answers) <= answers
      ensures id in windows ==>
        && StillWaits(old(windows)[id], windows[id], tick.now, world) && windows[id].writes == old(windows)[id].writes
      ensures FoundDead(old(gone), gone, world)
      ensures TurnTaken(id, id in windows, old(gestures), gestures, old(written), written, old(completed), completed,
                        answers, tick)
      ensures id in windows ==> windows == old(windows) || Served(old(windows)[id], answers, tick.now, world)
      ensures id !in old(gestures) ==> answers == old(answers)
      ensures id !in old(gestures) || id !in windows ==> windows == old(windows)
      ensures id in old(gestures) && id in windows ==>
        && PacedGesture.Valid(old(gestures)[id].gesture)
        && var request, window := old(gestures)[id], Joined(old(windows)[id], old(gestures)[id], tick.now);
           match PacedGesture.Advance(request.gesture, tick).progress
           case Pending(_) => windows == old(windows) && answers == old(answers) && gone == old(gone)
           case Left(_, _) => windows == old(windows) && answers == old(answers) + [request.key] && gone == old(gone)
           case Finished =>
             && windows == WithWaiters(old(windows), id, Kept(window, window.waiters, tick.now, world))
             && answers == old(answers) + Settled(window, window.waiters, tick.now, world)
    {
      hide OneEach, SendTicks, Books, Recorded, Excused, FoundDead, Obligations, InTime, TimerServes, StillWaits,
           Served, Same;
      hide PacedGesture.Advance, TurnTaken, Kept, Settled;
      NoneFound(gone, world);
      SameTimers(scheduler.timers, id);
      if id in windows { StillWaitsSame(windows[id], tick.now, world); }
      if id in gestures && id in windows {
        LiveTurn(id, tick, world, busy);
        return;
      }
      NoTurn(id, id in windows, gestures, written, completed, answers, tick);
      // The window is gone: a gesture not yet due waits on, and any other is answered.
      if id in gestures && (gestures[id].gesture.nextDue <= tick.now || gestures[id].gesture.deadline <= tick.now) {
        Goes(paths, completed, gestures, written, id);
        EndGesture(id, busy);
        NoTurn(id, false, old(gestures), written, completed, answers, tick);
      }
    }

    /** The turn of a gesture whose window is there. */
    method LiveTurn(id: nat, tick: PacedGesture.Tick, world: World, ghost busy: set<nat>)
      requires ValidBut(busy) && id in busy && tick.now == latest && id in gestures && id in windows
      modifies this`windows, this`gestures, this`answers, this`written, this`ledger, this`completed, this`gone,
               scheduler
      ensures ValidBut(busy) && ledger.Keys == old(ledger).Keys && scheduler.sent == old(scheduler.sent)
      ensures Same(old(scheduler.timers), scheduler.timers, id) && FoundDead(old(gone), gone, world)
      ensures windows.Keys == old(windows).Keys && windows - {id} == old(windows) - {id}
      ensures TurnTaken(id, true, old(gestures), gestures, old(written), written, old(completed), completed, answers,
                        tick)
      ensures StillWaits(old(windows)[id], windows[id], tick.now, world)
        && windows[id].writes == old(windows)[id].writes
      ensures windows == old(windows) || Served(old(windows)[id], answers, tick.now, world)
      ensures PacedGesture.Valid(old(gestures)[id].gesture)
      ensures var request, window := old(gestures)[id], Joined(old(windows)[id], old(gestures)[id], tick.now);
        match PacedGesture.Advance(request.gesture, tick).progress
        case Pending(_) => windows == old(windows) && answers == old(answers) && gone == old(gone)
        case Left(_, _) => windows == old(windows) && answers == old(answers) + [request.key] && gone == old(gone)
        case Finished =>
          && windows == WithWaiters(old(windows), id, Kept(window, window.waiters, tick.now, world))
          && answers == old(answers) + Settled(window, window.waiters, tick.now, world)
    {
      hide OneEach, SendTicks, Books, Recorded, Excused, FoundDead, Obligations, InTime, TimerServes, StillWaits,
           Served, Same;
      hide PacedGesture.Advance, TurnTaken, Kept, Settled, Stamped, Joined;
      NoneFound(gone, world);
      SameTimers(scheduler.timers, id);
      StillWaitsSame(windows[id], tick.now, world);
      var request := gestures[id];
      Turns(paths, completed, gestures, written, id, PacedGesture.Ticked(tick));
      var turn := PacedGesture.Advance(request.gesture, tick);
      written := written + Stamped(id, request.key, turn.written);
      match turn.progress {
        case Pending(next) =>
          StepGesture(ledger, windows, gestures, answers, id, request.(gesture := next));
          gestures := gestures[id := request.(gesture := next)];
          ObligationsElsewhere(windows, windows, old(gestures), gestures, id);
          forall other | other in windows && other !in busy
            ensures Covered(other)
          {
            assert old(Covered(other));
          }
        case Left(_, _) => EndGesture(id, busy);
        case Finished =>
          completed := completed + {request.key};
          FinishGesture(id, request, tick.now, world, busy);
      }
      TurnMade(id, old(gestures), old(written), old(completed), answers, tick);
    }

    /** Take a gesture out of play and answer its request. */
    method EndGesture(id: nat, ghost busy: set<nat>)
      requires TimersRight() && Books(ledger, windows, gestures, answers) && paths.Keys <= ledger.Keys
      requires Excused(ledger, gone)
      requires Recorded(paths, completed, gestures - {id}, written)
      requires forall other :: other in windows && other !in busy ==> Covered(other)
      requires id in busy && id in gestures
      modifies this`gestures, this`answers, this`ledger
      ensures ValidBut(busy) && ledger.Keys == old(ledger).Keys
      ensures gestures == old(gestures) - {id} && answers == old(answers) + [old(gestures)[id].key]
    {
      hide OneEach, SendTicks, Books, Recorded, Excused, FoundDead, Obligations, InTime;
      CloseGesture(ledger, windows, gestures, answers, id, true);
      ExcusedOn(ledger, gone, gestures[id].key, Answered);
      ledger := ledger[gestures[id].key := Answered];
      answers := answers + [gestures[id].key];
      gestures := gestures - {id};
      ObligationsElsewhere(windows, windows, old(gestures), gestures, id);
      forall other | other in windows && other !in busy
        ensures Covered(other)
      {
        assert old(Covered(other));
      }
    }

    // -------------------------------------------------------------------------------------------
    // Handlers
    // -------------------------------------------------------------------------------------------

    /** Handle the tick at the head of the event queue. */
    method HandleTick(tick: PacedGesture.Tick, world: World)
      requires Valid() && tick.now >= latest
      requires handled < |scheduler.sent| && scheduler.sent[handled].AutomationTick?
      modifies this, scheduler
      ensures scheduler.sent == old(scheduler.sent)
      ensures Same(old(scheduler.timers), scheduler.timers, old(scheduler.sent[handled]).window)
      ensures Valid() && latest == tick.now && handled == old(handled) + 1 && ledger.Keys == old(ledger).Keys
      ensures old(answers) <= answers && windows.Keys == old(windows).Keys && FoundDead(old(gone), gone, world)
      ensures var id := old(scheduler.sent[handled]).window;
        && windows - {id} == old(windows) - {id} && paths == old(paths)
        && TurnTaken(id, id in windows, old(gestures), gestures, old(written), written, old(completed), completed,
                     answers, tick)
      ensures var id := old(scheduler.sent[handled]).window;
        id in windows ==>
          && Settles(old(windows)[id], windows[id], answers, tick.now, world)
          && TickDecides(old(windows)[id], windows[id], answers, tick.now, world)
          && TimerServes(scheduler.timers, windows[id], gestures, id, tick.now)
    {
      hide OneEach, SendTicks, Books, Recorded, Excused, FoundDead, Obligations, TimerServes, Kept, Settled, StillWaits,
           Turned, TurnWritten;
      hide PacedGesture.Advance, Settles, Served, TurnTaken, Same, TickDecides;
      Begin(tick.now, {});
      label began:
      var id := scheduler.sent[handled].window;
      handled := handled + 1;
      forall other | other in windows && other != id
        ensures Covered(other)
      {
        assert old@began(Covered(other));
        assert scheduler.sent[handled - 1..] == [AutomationTick(id)] + scheduler.sent[handled..];
      }
      AdvanceGesture(id, tick, world, {id});
      if id !in windows { return; }
      ghost var window, answered := windows[id], answers;
      ghost var found, timers := gone, scheduler.timers;
      SettleOverdue(id, tick.now, world, {id});
      Longer(old(answers), answered, answers);
      TurnTakenOn(id, true, old(gestures), gestures, old(written), written, old(completed), completed,
                  answered, answers, tick);
      FoundDeadOn(old(gone), found, gone, world);
      SettlesAfterTurn(old(windows)[id], window, windows[id], answered, answers, tick.now, world);
      ScheduleTimer(id, tick.now, {id});
      TickDecidedBy(ledger, windows, gestures, answers, id, old(windows)[id], tick.now, world);
      SameOn(old(scheduler.timers), timers, scheduler.timers, id);
    }

    /** The writes and then the waits of a window whose tick has come. */
    method SettleOverdue(id: nat, now: nat, world: World, ghost busy: set<nat>)
      requires ValidBut(busy) && id in busy && id in windows
      modifies this`windows, this`answers, this`ledger, this`gone
      ensures ValidBut(busy) && id in windows && ledger.Keys == old(ledger).Keys && old(answers) <= answers
      ensures windows.Keys == old(windows).Keys && windows - {id} == old(windows) - {id}
      ensures Settles(old(windows)[id], windows[id], answers, now, world) && FoundDead(old(gone), gone, world)
    {
      hide OneEach, SendTicks, Books, Recorded, Excused, FoundDead, Obligations, InTime, Kept, Settled, StillWaits,
           Served;
      ghost var before := windows[id];
      ExpireWrites(id, now, busy);
      ghost var window, answered := windows[id], answers;
      EvaluateWaiters(id, now, world, busy);
      KeptIsStable(window, now, world);
      SettledStillWaits(before, windows[id], window, now, world);
      SettledServed(before, window, answered, now, world);
    }

    /** Any other event at the head of the queue leaves automation alone. */
    method HandleOtherEvent()
      requires Valid() && handled < |scheduler.sent| && scheduler.sent[handled].OtherEvent?
      modifies this`handled
      ensures Valid() && handled == old(handled) + 1
    {
      hide OneEach, SendTicks, Books, Recorded, Excused, FoundDead, Obligations, TimerServes;
      handled := handled + 1;
      forall id | id in windows
        ensures Covered(id)
      {
        assert old(Covered(id));
        assert scheduler.sent[handled - 1..] == [scheduler.sent[handled - 1]] + scheduler.sent[handled..];
      }
    }

    /**
     Fire what is due, between two handlers.  No request is stranded: whatever a window is owed lies in the
     future with a timer no later, or its tick is on its way.
     */
    method UpdateScheduler(clock: Clock) returns (next: Option<nat>)
      requires Valid() && Monotone(clock) && clock(0) >= latest
      requires MovesOn(scheduler.timers, clock) || TimePasses(clock)
      modifies this`latest, scheduler
      ensures Valid() && latest == clock(0)
      ensures Updated(old(scheduler.timers), old(scheduler.sent), clock, scheduler.timers, scheduler.sent)
      ensures forall id: nat, d: nat :: id in windows && Owed(windows[id], gestures, id, d) ==>
        || AutomationTick(id) in scheduler.sent[handled..]
        || (d > clock(0) && Armed(scheduler.timers, id, d))
    {
      hide OneEach, SendTicks, Books, Recorded, Excused, FoundDead, Obligations, Rearmed, Events, Position, AllAfter,
           Firings, EndsAfter, MovesOn, Owed;
      Begin(clock(0), {});
      label began:
      ghost var before := scheduler.timers;
      next := scheduler.Update(clock);
      ghost var k: nat :| EndsAfter(before, clock, k) && scheduler.timers == Firings(before, clock, k).timers
        && scheduler.sent == old(scheduler.sent) + Events(Firings(before, clock, k).fired);
      FiringsKeep(before, clock, k);
      forall id | id in windows
        ensures Covered(id)
      {
        assert old@began(Covered(id));
        InTimeAfterUpdate(before, clock, k, old(scheduler.sent), handled,
                          Obligations(windows[id], gestures, id), id, latest);
      }
      forall id: nat, d: nat | id in windows && Owed(windows[id], gestures, id, d)
        ensures AutomationTick(id) in scheduler.sent[handled..] || (d > clock(0) && Armed(scheduler.timers, id, d))
      {
        assert Covered(id);
        ObligationsExactly(windows[id], gestures, id);
        if AutomationTick(id) !in scheduler.sent[handled..] {
          ArmedAfter(scheduler.timers, id, d, clock(0));
        }
      }
    }

    /** Timers of other topics come and go without touching automation. */
    method ScheduleOther(event: Event, interval: nat, repeat: bool, id: TimerId, now: nat)
      requires Valid() && id.topic != Automation
      modifies scheduler
      ensures Valid() && scheduler.sent == old(scheduler.sent)
      ensures scheduler.timers ==
        Insert(old(scheduler.timers), Timer(now + interval, event, id, if repeat then Some(interval) else None))
    {
      hide OneEach, SendTicks, Books, Recorded, Excused, FoundDead, Obligations, Insert;
      ghost var timer := Timer(now + interval, event, id, if repeat then Some(interval) else None);
      OtherSendsNoTick(timer);
      InsertKeeps(scheduler.timers, timer);
      scheduler.Schedule(event, interval, repeat, id, now);
      forall w | w in windows
        ensures Covered(w)
      {
        assert old(Covered(w));
        InTimeMore(old(scheduler.timers), scheduler.timers, scheduler.sent, handled,
                   Obligations(windows[w], gestures, w), w, latest);
      }
    }

    method UnscheduleOther(id: TimerId)
      requires Valid() && id.topic != Automation
      modifies scheduler
      ensures Valid() && scheduler.sent == old(scheduler.sent)
      ensures scheduler.timers == Removed(old(scheduler.timers), id)
    {
      hide OneEach, SendTicks, Books, Recorded, Excused, FoundDead, Obligations, Removed;
      RemoveOtherKeeps(scheduler.timers, id);
      var _ := scheduler.Unschedule(id);
      forall w | w in windows
        ensures Covered(w)
      {
        assert old(Covered(w));
        InTimeMore(old(scheduler.timers), scheduler.timers, scheduler.sent, handled,
                   Obligations(windows[w], gestures, w), w, latest);
      }
    }

    /** Start a paced gesture; its first action is due at once. */
    method StartGesture(id: nat, key: Key, path: PacedGesture.Path, interval: nat, tick: PacedGesture.Tick,
                        world: World)
      requires Valid() && tick.now >= latest && key !in ledger && id in windows
      modifies this, scheduler
      ensures handled == old(handled) && scheduler.sent == old(scheduler.sent)
      ensures Same(old(scheduler.timers), scheduler.timers, id)
      ensures Valid() && latest == tick.now && ledger.Keys == old(ledger).Keys + {key} && windows == old(windows)
      ensures gone == old(gone)
      ensures !PacedGesture.WellFormed(path) || id in old(gestures) ==>
        answers == old(answers) + [key] && gestures == old(gestures) && written == old(written)
          && History() == old(History())
      ensures PacedGesture.WellFormed(path) && id !in old(gestures) ==>
        var turn := PacedGesture.Advance(PacedGesture.Start(path, interval, tick.now), tick);
        && written == old(written) + Stamped(id, key, turn.written)
        && paths == old(paths)[key := path] && completed == old(completed)
        && (match turn.progress
            case Pending(next) => gestures == old(gestures)[id := PacedRequest(key, next)] && answers == old(answers)
            case _ => gestures == old(gestures) && answers == old(answers) + [key])
        && TimerServes(scheduler.timers, windows[id], gestures, id, tick.now)
    {
      hide OneEach, SendTicks, Books, Recorded, Excused, FoundDead, Obligations, InTime, TimerServes, Stamped,
           PacedGesture.Advance;
      hide Turned, TurnWritten, Ended, Joined, StillWaits, Served, Kept, Settled, Same;
      Begin(tick.now, {});
      SameTimers(scheduler.timers, id);
      if !PacedGesture.WellFormed(path) || id in gestures {
        Answer(key, {});
        return;
      }
      var request := PacedRequest(key, PacedGesture.Start(path, interval, tick.now));
      PacedGesture.FirstTurn(path, interval, tick);
      StartTurned(gestures, id, request, tick);
      BeginGesture(id, request);
      assert gestures - {id} == old(gestures);
      AdvanceGesture(id, tick, world, {id});
      ghost var timers := scheduler.timers;
      ScheduleTimer(id, tick.now, {id});
      SameOn(old(scheduler.timers), timers, scheduler.timers, id);
    }

    /** Put a gesture that has written nothing yet into play. */
    method BeginGesture(id: nat, request: PacedRequest)
      requires Valid() && request.key !in ledger && id !in gestures
      requires PacedGesture.Valid(request.gesture) && request.gesture.nextAction == 0
      modifies this`gestures, this`ledger, this`paths
      ensures ValidBut({id}) && ledger.Keys == old(ledger).Keys + {request.key}
      ensures gestures == old(gestures)[id := request] && paths == old(paths)[request.key := request.gesture.path]
    {
      hide OneEach, SendTicks, Books, Recorded, Excused, FoundDead, Obligations, InTime;
      OpenGesture(ledger, windows, gestures, answers, id, request);
      Begins(paths, completed, gestures, written, id, request);
      ExcusedOn(ledger, gone, request.key, Waiting(id));
      ledger := ledger[request.key := Waiting(id)];
      paths := paths[request.key := request.gesture.path];
      gestures := gestures[id := request];
      assert gestures - {id} == old(gestures) - {id};
      ObligationsElsewhere(windows, windows, old(gestures), gestures, id);
      forall other | other in windows && other != id
        ensures Covered(other)
      {
        assert old(Covered(other));
      }
    }

    /** Queue terminal input and track its completion. */
    method QueueInput(id: nat, key: Key, length: nat, token: nat, healthy: bool, writeOk: bool, now: nat)
      requires Valid() && now >= latest && key !in ledger
      modifies this, scheduler
      ensures handled == old(handled) && scheduler.sent == old(scheduler.sent)
      ensures Same(old(scheduler.timers), scheduler.timers, id)
      ensures Valid() && latest == now && ledger.Keys == old(ledger).Keys + {key}
      ensures gestures == old(gestures) && written == old(written) && History() == old(History()) && gone == old(gone)
      ensures var queued := 0 < length <= 1_048_592 && id in old(windows) && healthy && writeOk;
        if queued then
          && windows ==
            WithWrites(old(windows), id, old(windows)[id].writes + [PendingWrite(key, token, now + 5_000)])
          && answers == old(answers)
          && TimerServes(scheduler.timers, windows[id], gestures, id, now)
        else windows == old(windows) && answers == old(answers) + [key]
    {
      hide OneEach, SendTicks, Books, Recorded, Excused, FoundDead, Obligations, InTime, TimerServes;
      Begin(now, {});
      if length > MAX_INPUT_BYTES + 16 || length == 0 || id !in windows || !healthy || !writeOk {
        Answer(key, {});
        return;
      }
      label began:
      var write := PendingWrite(key, token, now + WRITE_TIMEOUT);
      OpenWrite(ledger, windows, gestures, answers, id, write);
      ExcusedOn(ledger, gone, key, Waiting(id));
      ledger := ledger[key := Waiting(id)];
      windows := WithWrites(windows, id, windows[id].writes + [write]);
      forall other | other in windows && other != id
        ensures Covered(other)
      {
        assert old@began(Covered(other));
      }
      ScheduleTimer(id, now, {id});
    }

    /** The PTY has taken a tracked write. */
    method CompleteWrite(id: nat, token: nat, now: nat, world: World)
      requires Valid() && now >= latest
      modifies this, scheduler
      ensures handled == old(handled) && scheduler.sent == old(scheduler.sent)
      ensures Same(old(scheduler.timers), scheduler.timers, id)
      ensures Valid() && latest == now && ledger.Keys == old(ledger).Keys
      ensures gestures == old(gestures) && written == old(written) && History() == old(History())
      ensures FoundDead(old(gone), gone, world)
      ensures id in windows <==> id in old(windows)
      ensures id !in windows ==> windows == old(windows) && answers == old(answers)
      ensures id in windows ==> var window := Written(old(windows)[id], token);
        && windows == old(windows)[id := window.(waiters := Kept(window, window.waiters, now, world))]
        && answers == old(answers) + WrittenKeys(old(windows)[id], token) + Settled(window, window.waiters, now, world)
        && Decided(old(windows)[id], windows[id].waiters, answers, now, world)
        && TimerServes(scheduler.timers, windows[id], gestures, id, now)
    {
      hide OneEach, SendTicks, Books, Recorded, Excused, FoundDead, Obligations, InTime, TimerServes, Kept, Settled,
           Decided, Written, WrittenKeys;
      Begin(now, {});
      label began:
      forall other | other in windows && other != id
        ensures Covered(other)
      {
        assert old@began(Covered(other));
      }
      if id in windows {
        TakeWrite(id, token, {id});
      }
      EvaluateWaiters(id, now, world, {id});
      if id in windows {
        WrittenWaits(old(windows)[id], token);
        DecidedSame(old(windows)[id], Written(old(windows)[id], token), windows[id].waiters, answers, now, world);
      }
      ScheduleTimer(id, now, {id});
    }

    /** Answer the write with a token, if there is one. */
    method TakeWrite(id: nat, token: nat, ghost busy: set<nat>)
      requires ValidBut(busy) && id in busy && id in windows
      modifies this`windows, this`answers, this`ledger
      ensures ValidBut(busy) && ledger.Keys == old(ledger).Keys
      ensures windows == old(windows)[id := Written(old(windows)[id], token)]
      ensures answers == old(answers) + WrittenKeys(old(windows)[id], token)
    {
      hide OneEach, SendTicks, Books, Recorded, Excused, FoundDead, Obligations, InTime;
      var writes := windows[id].writes;
      var index := FindToken(writes, token);
      if index.Some? {
        CloseWrite(ledger, windows, gestures, answers, id, index.value);
        answers := answers + [writes[index.value].key];
        ExcusedOn(ledger, gone, writes[index.value].key, Answered);
        ledger := ledger[writes[index.value].key := Answered];
        windows := WithWrites(windows, id, SwapRemove(writes, index.value));
        forall other | other in windows && other !in busy
          ensures Covered(other)
        {
          assert old(Covered(other));
        }
      }
    }

    /** The screen changed: screen-stable waits start over, and others may now be satisfied. */
    method ChangeScreen(id: nat, now: nat, world: World)
      requires Valid() && now >= latest && id in windows
      modifies this, scheduler
      ensures handled == old(handled) && scheduler.sent == old(scheduler.sent)
      ensures Same(old(scheduler.timers), scheduler.timers, id)
      ensures Valid() && latest == now && ledger.Keys == old(ledger).Keys && id in windows
      ensures gestures == old(gestures) && written == old(written) && History() == old(History())
      ensures FoundDead(old(gone), gone, world)
      ensures var window := old(windows)[id].(screenSequence := old(windows)[id].screenSequence + 1,
                                              lastScreenChange := now);
        && windows == old(windows)[id := window.(waiters := Kept(window, window.waiters, now, world))]
        && answers == old(answers) + Settled(window, window.waiters, now, world)
        && Decided(window, windows[id].waiters, answers, now, world)
      ensures forall w :: w in windows[id].waiters ==> Keeps(windows[id], w, now, world)
      ensures TimerServes(scheduler.timers, windows[id], gestures, id, now)
    {
      hide OneEach, SendTicks, Books, Recorded, Excused, FoundDead, Obligations, InTime, TimerServes, Kept, Settled,
           Decided;
      Begin(now, {});
      label began:
      var window := windows[id].(screenSequence := windows[id].screenSequence + 1, lastScreenChange := now);
      SameHoldings(ledger, windows, gestures, answers, id, window);
      windows := windows[id := window];
      forall other | other in windows && other != id
        ensures Covered(other)
      {
        assert old@began(Covered(other));
      }
      EvaluateWaiters(id, now, world, {id});
      KeptIsStable(window, now, world);
      ScheduleTimer(id, now, {id});
    }

    // -------------------------------------------------------------------------------------------
    // Connections and windows that go away
    // -------------------------------------------------------------------------------------------

    /** The loop over a window's waits whose requests are to go, answered or not. */
    method CloseWaiters(id: nat, goes: Key -> bool, answered: bool)
      requires id in windows && Books(ledger, windows, gestures, answers) && Excused(ledger, gone)
      requires answered || forall k :: goes(k) ==> k.connection in gone
      modifies this`answers, this`ledger
      ensures Excused(ledger, gone)
      ensures Books(ledger, WithWaiters(windows, id, StayingWaiters(windows[id].waiters, goes)), gestures, answers)
      ensures ledger.Keys == old(ledger).Keys
      ensures answers == old(answers) + (if answered then GoneWaiters(windows[id].waiters, goes) else [])
    {
      hide Books, Recorded, Excused, FoundDead, StayingWaiters, GoneWaiters, WithWaiters;
      var waiters := windows[id].waiters;
      CloseWaitersStart(windows, id, goes);
      for i := 0 to |waiters|
        invariant Books(ledger, WithWaiters(windows, id, StayingWaiters(waiters[..i], goes) + waiters[i..]), gestures,
                        answers)
        invariant ledger.Keys == old(ledger).Keys && Excused(ledger, gone)
        invariant answers == old(answers) + (if answered then GoneWaiters(waiters[..i], goes) else [])
      {
        CloseWaitersStep(ledger, windows, gestures, answers, id, i, goes, answered);
        if goes(waiters[i].key) {
          Finish(waiters[i].key, answered);
        }
      }
      assert waiters[..|waiters|] == waiters;
      assert StayingWaiters(waiters, goes) + waiters[|waiters|..] == StayingWaiters(waiters, goes);
    }

    /** The same for tracked writes. */
    method CloseWrites(id: nat, goes: Key -> bool, answered: bool)
      requires id in windows && Books(ledger, windows, gestures, answers) && Excused(ledger, gone)
      requires answered || forall k :: goes(k) ==> k.connection in gone
      modifies this`answers, this`ledger
      ensures Excused(ledger, gone)
      ensures Books(ledger, WithWrites(windows, id, StayingWrites(windows[id].writes, goes)), gestures, answers)
      ensures ledger.Keys == old(ledger).Keys
      ensures answers == old(answers) + (if answered then GoneWrites(windows[id].writes, goes) else [])
    {
      hide Books, Recorded, Excused, FoundDead, StayingWrites, GoneWrites, WithWrites;
      var writes := windows[id].writes;
      CloseWritesStart(windows, id, goes);
      for i := 0 to |writes|
        invariant Books(ledger, WithWrites(windows, id, StayingWrites(writes[..i], goes) + writes[i..]), gestures,
                        answers)
        invariant ledger.Keys == old(ledger).Keys && Excused(ledger, gone)
        invariant answers == old(answers) + (if answered then GoneWrites(writes[..i], goes) else [])
      {
        CloseWritesStep(ledger, windows, gestures, answers, id, i, goes, answered);
        if goes(writes[i].key) {
          Finish(writes[i].key, answered);
        }
      }
      assert writes[..|writes|] == writes;
      assert StayingWrites(writes, goes) + writes[|writes|..] == StayingWrites(writes, goes);
    }

    /** Take out of a window everything that is to go. */
    method CancelIn(id: nat, goes: Key -> bool, answered: bool, ghost busy: set<nat>)
      requires ValidBut(busy) && id in busy && id in windows
      requires answered || forall k :: goes(k) ==> k.connection in gone
      modifies this`windows, this`answers, this`ledger
      ensures ValidBut(busy) && ledger.Keys == old(ledger).Keys
      ensures windows == old(windows)[id := Staying(old(windows)[id], goes)]
      ensures answers == old(answers) + if answered then
          GoneWrites(old(windows)[id].writes, goes) + GoneWaiters(old(windows)[id].waiters, goes)
        else []
    {
      hide OneEach, SendTicks, Books, Recorded, Excused, FoundDead, Obligations, InTime, StayingWaiters,
           StayingWrites, GoneWaiters, GoneWrites;
      CloseWrites(id, goes, answered);
      windows := WithWrites(windows, id, StayingWrites(windows[id].writes, goes));
      CloseWaiters(id, goes, answered);
      windows := WithWaiters(windows, id, StayingWaiters(windows[id].waiters, goes));
      forall other | other in windows && other !in busy
        ensures Covered(other)
      {
        assert old(Covered(other));
      }
    }

    /** Let go of every gesture of a connection that is gone, in the order `order`. */
    method DropGestures(connection: nat, releaseOk: nat -> bool, ghost busy: set<nat>) returns (ghost order: seq<nat>)
      requires ValidBut(busy) && windows.Keys <= busy && connection in gone
      modifies this`gestures, this`written, this`ledger
      ensures ValidBut(busy) && ledger.Keys == old(ledger).Keys
      ensures gestures == OfOthers(old(gestures), connection)
      ensures EachOnce(order, old(gestures), connection)
      ensures written == old(written) + Releases(order, old(gestures), windows.Keys, releaseOk)
    {
      hide OneEach, SendTicks, Books, Recorded, Excused, FoundDead, Obligations, InTime, Stamped, Releases, Dropping,
           ReleaseReady;
      var targets := set id | id in gestures && gestures[id].key.connection == connection;
      order := [];
      NoReleases(gestures, windows.Keys, releaseOk);
      NoneDropped(gestures, connection);
      while targets != {}
        invariant ValidBut(busy) && ledger.Keys == old(ledger).Keys
        invariant Dropping(targets, order, gestures, old(gestures), connection) && ReleaseReady(order, old(gestures))
        invariant written == old(written) + Releases(order, old(gestures), windows.Keys, releaseOk)
        decreases targets
      {
        var id :| id in targets;
        DropOne(targets, order, gestures, old(gestures), connection, id);
        Release(id, releaseOk(id), busy);
        ReleasesStep(order, id, old(gestures), windows.Keys, releaseOk);
        targets := targets - {id};
        order := order + [id];
      }
      AllDropped(order, gestures, old(gestures), connection);
    }

    /** Let go of one gesture. */
    method Release(id: nat, releaseOk: bool, ghost busy: set<nat>)
      requires ValidBut(busy) && id in gestures && windows.Keys <= busy && gestures[id].key.connection in gone
      modifies this`gestures, this`written, this`ledger
      ensures ValidBut(busy) && ledger.Keys == old(ledger).Keys && gestures == old(gestures) - {id}
      ensures PacedGesture.Valid(old(gestures)[id].gesture)
      ensures var request := old(gestures)[id];
        var turn := PacedGesture.Release(request.gesture, PacedGesture.Disconnected, releaseOk);
        written == old(written) + if id in windows then Stamped(id, request.key, turn.written) else []
    {
      hide OneEach, SendTicks, Books, Recorded, Excused, FoundDead, Obligations, InTime, Stamped;
      var request := gestures[id];
      Turns(paths, completed, gestures, written, id, PacedGesture.ConnectionLost(releaseOk));
      if id in windows {
        var turn := PacedGesture.Release(request.gesture, PacedGesture.Disconnected, releaseOk);
        written := written + Stamped(id, request.key, turn.written);
      } else {
        Goes(paths, completed, gestures, written, id);
      }
      CloseGesture(ledger, windows, gestures, answers, id, false);
      ExcusedOn(ledger, gone, request.key, Dropped);
      ledger := ledger[request.key := Dropped];
      gestures := gestures - {id};
    }

    /** Take everything of a connection out of every window. */
    method CancelEverywhere(connection: nat, ghost busy: set<nat>)
      requires ValidBut(busy) && busy == windows.Keys && connection in gone
      modifies this`windows, this`answers, this`ledger
      ensures ValidBut(busy) && answers == old(answers) && ledger.Keys == old(ledger).Keys
      ensures windows == map id | id in old(windows) :: Staying(old(windows)[id], OfConnection(connection))
    {
      hide OneEach, SendTicks, Books, Recorded, Excused, FoundDead, Obligations, InTime, StayingWaiters,
           StayingWrites, Staying;
      var goes := OfConnection(connection);
      var left := windows.Keys;
      while left != {}
        invariant ValidBut(busy) && left <= windows.Keys == old(windows).Keys == busy
        invariant answers == old(answers) && ledger.Keys == old(ledger).Keys
        invariant forall id :: id in windows ==>
          windows[id] == if id in left then old(windows)[id] else Staying(old(windows)[id], goes)
        decreases left
      {
        var id :| id in left;
        left := left - {id};
        CancelIn(id, goes, false, busy);
      }
    }

    /** Set the timer of every window anew. */
    method ScheduleAll(now: nat)
      requires ValidBut(windows.Keys) && latest == now
      modifies scheduler
      ensures Valid() && scheduler.sent == old(scheduler.sent)
      ensures OthersStay(old(scheduler.timers), scheduler.timers)
    {
      hide OneEach, SendTicks, Books, Recorded, Excused, FoundDead, Obligations, InTime, TimerServes;
      var left := windows.Keys;
      while left != {}
        invariant ValidBut(left) && left <= windows.Keys && scheduler.sent == old(scheduler.sent)
        invariant OthersStay(old(scheduler.timers), scheduler.timers)
        decreases left
      {
        var id :| id in left;
        ScheduleTimer(id, now, left);
        left := left - {id};
      }
    }

    /** A connection is gone: nothing of it stays, nothing of it is answered, and every timer is set anew. */
    method Disconnect(connection: nat, releaseOk: nat -> bool, now: nat)
      requires Valid() && now >= latest
      modifies this, scheduler
      ensures handled == old(handled) && scheduler.sent == old(scheduler.sent)
      ensures Valid() && latest == now && answers == old(answers) && ledger.Keys == old(ledger).Keys
      ensures windows == map id | id in old(windows) :: Staying(old(windows)[id], OfConnection(connection))
      ensures OthersRemain(old(windows), windows, connection)
      ensures gestures == OfOthers(old(gestures), connection) && History() == old(History())
      ensures gone == old(gone) + {connection} && OthersStay(old(scheduler.timers), scheduler.timers)
      ensures exists order: seq<nat> ::
        && EachOnce(order, old(gestures), connection)
        && written == old(written) + Releases(order, old(gestures), old(windows).Keys, releaseOk)
    {
      hide OneEach, SendTicks, Books, Recorded, Excused, FoundDead, Obligations, InTime, TimerServes, Staying, Releases,
           OthersRemain;
      Begin(now, {});
      GoneMore(ledger, gone, connection);
      gone := gone + {connection};
      ghost var _ := DropGestures(connection, releaseOk, windows.Keys);
      ghost var before := windows;
      CancelEverywhere(connection, windows.Keys);
      StayingExactly(before, windows, connection);
      ScheduleAll(now);
    }

    /** A window closes: everything it held is answered, and its timers go with it. */
    method CloseWindow(id: nat, now: nat)
      requires Valid() && now >= latest && id in windows
      modifies this, scheduler
      ensures handled == old(handled)
      ensures Valid() && latest == now && windows == old(windows) - {id} && ledger.Keys == old(ledger).Keys
      ensures gestures == old(gestures) && written == old(written) && History() == old(History()) && gone == old(gone)
      ensures answers == old(answers) + WriteKeys(old(windows)[id].writes) + WaiterKeys(old(windows)[id].waiters)
      ensures scheduler.timers == OutsideWindow(old(scheduler.timers), id) && scheduler.sent == old(scheduler.sent)
    {
      hide OneEach, SendTicks, Books, Recorded, Excused, FoundDead, Obligations, InTime, WaiterKeys, WriteKeys;
      hide GoneWaiters, GoneWrites, StayingWaiters, StayingWrites, OutsideWindow;
      Begin(now, {});
      label began:
      forall other | other in windows && other != id
        ensures Covered(other)
      {
        assert old@began(Covered(other));
      }
      var everything := (k: Key) => true;
      CancelIn(id, everything, true, {id});
      NothingStays(old(windows)[id], everything);
      EverythingGoes(old(windows)[id], everything);
      EmptyWindow(ledger, windows, gestures, answers, id, windows - {id});
      windows := windows - {id};
      OutsideWindowKeeps(scheduler.timers, id);
      scheduler.UnscheduleWindow(id);
      forall other | other in windows
        ensures Covered(other)
      {
        assert old@began(Covered(other));
        InTimeMore(old(scheduler.timers), scheduler.timers, scheduler.sent, handled,
                   Obligations(windows[other], gestures, other), other, latest);
      }
    }

    method OpenWindow(id: nat, now: nat)
      requires Valid() && now >= latest && id !in windows && id !in gestures
      modifies this`windows, this`latest
      ensures Valid() && latest == now && windows == old(windows)[id := Window(0, now, [], [])]
    {
      hide OneEach, SendTicks, Books, Recorded, Excused, FoundDead, InTime;
      Begin(now, {});
      label began:
      var fresh' := Window(0, now, [], []);
      EmptyWindow(ledger, windows, gestures, answers, id, windows[id := fresh']);
      windows := windows[id := fresh'];
      forall other | other in windows
        ensures Covered(other)
      {
        if other == id {
          NothingOwed(scheduler.timers, scheduler.sent, handled, gestures, id, fresh', latest);
        } else {
          assert old@began(Covered(other));
        }
      }
    }
  }

  /**
   A freshly set timer fires no later than an obligation exactly when that obligation has not already
   passed; one that has is served at once.
   */
  lemma FiresInTimeExactly(timers: seq<Timer>, window: Window, gestures: Gestures, id: nat, now: nat, d: nat)
    requires TimerServes(timers, window, gestures, id, now) && Owed(window, gestures, id, d)
    ensures Armed(timers, id, d) <==> d >= now
  {
    hide Owed;
    assert Armed(timers, id, Max(d, now));
  }

  /**
   An obligation can have passed when the timer is set: the loop was busy when the second action of a gesture
   fell due, and the next handler to set the timer runs later.
   */
  method TimerAfterObligation(id: nat, a: PacedGesture.Point, b: PacedGesture.Point, world: World)
    returns (p: Processor, due: nat)
    ensures p.Valid() && id in p.windows && Owed(p.windows[id], p.gestures, id, due)
    ensures due < p.latest && p.scheduler.sent == []
    ensures !Armed(p.scheduler.timers, id, due)
  {
    hide OneEach, SendTicks, Books, Recorded, TimerServes, Stamped, Same, Obligations, InTime, Kept, Settled,
         PacedGesture.Advance;
    p := new Processor();
    p.OpenWindow(id, 0);
    var path := PacedGesture.Path([a, b], PacedGesture.Application, false, 0, 10);
    var tick := PacedGesture.Tick(0, Some(6), true, true);
    FirstActionOut(path, 5, tick);
    p.StartGesture(id, Key(0, 0), path, 5, tick, world);
    p.ChangeScreen(id, 7, world);
    due := 5;
    FiresInTimeExactly(p.scheduler.timers, p.windows[id], p.gestures, id, 7, due);
  }

  lemma FirstActionOut(path: PacedGesture.Path, interval: nat, tick: PacedGesture.Tick)
    requires PacedGesture.WellFormed(path) && tick.bytes.Some? && tick.writeOk
    ensures var g := PacedGesture.Start(path, interval, tick.now);
      PacedGesture.Advance(g, tick).progress ==
        PacedGesture.Pending(g.(nextAction := 1, nextDue := tick.now + interval))
  {
  }

  // ---------------------------------------------------------------------------------------------
  // What every reachable state promises
  // ---------------------------------------------------------------------------------------------

  /**
   No request on a live window is stranded: its window's tick is on its way, or the window's only timer is
   no later than what the request waits for, or no later than the last handler if that has passed.
   */
  lemma NothingStranded(p: Processor, id: nat, d: nat)
    requires p.Valid() && id in p.windows && Owed(p.windows[id], p.gestures, id, d)
    ensures || AutomationTick(id) in p.scheduler.sent[p.handled..]
            || exists i :: 0 <= i < |p.scheduler.timers| && ServesAlone(p.scheduler.timers, i, id, Max(d, p.latest))
  {
    hide Owed, Obligations;
    assert p.Covered(id);
    ObligationsExactly(p.windows[id], p.gestures, id);
    if AutomationTick(id) !in p.scheduler.sent[p.handled..] {
      OnlyTimer(p.scheduler.timers, id, Max(d, p.latest));
    }
  }

  /** A window is woken by `d`, or at once if that has passed. */
  ghost predicate Woken(p: Processor, id: nat, d: nat)
    requires p.Valid()
    reads p, p.scheduler
  {
    var bound := if d >= p.latest then d else p.latest;
    || AutomationTick(id) in p.scheduler.sent[p.handled..]
    || exists i :: 0 <= i < |p.scheduler.timers| && ServesAlone(p.scheduler.timers, i, id, bound)
  }

  /** The same, request by request: every wait, write, gesture and quiet screen of a live window. */
  lemma EveryRequestWoken(p: Processor, id: nat)
    requires p.Valid() && id in p.windows
    ensures forall w :: w in p.windows[id].waiters ==> Woken(p, id, w.deadline)
    ensures forall write :: write in p.windows[id].writes ==> Woken(p, id, write.deadline)
    ensures id in p.gestures ==>
      var g := p.gestures[id].gesture; Woken(p, id, if g.nextDue <= g.deadline then g.nextDue else g.deadline)
    ensures forall w :: w in p.windows[id].waiters && w.kind.ScreenStable?
                        && (w.kind.afterScreen.Some? ==> p.windows[id].screenSequence > w.kind.afterScreen.value) ==>
              Woken(p, id, p.windows[id].lastScreenChange + w.kind.quiet)
  {
    forall d | Owed(p.windows[id], p.gestures, id, d)
      ensures Woken(p, id, d)
    {
      NothingStranded(p, id, d);
    }
  }

  /** One timer serves a window in time, and no other timer is the window's. */
  ghost predicate ServesAlone(timers: seq<Timer>, i: nat, id: nat, bound: nat)
    requires i < |timers|
  {
    && timers[i].id == TickTimerId(id) && timers[i].deadline <= bound && timers[i].event == AutomationTick(id)
    && forall j :: 0 <= j < |timers| && timers[j].id == TickTimerId(id) ==> j == i
  }

  lemma OnlyTimer(timers: seq<Timer>, id: nat, bound: nat)
    requires OneEach(timers) && SendTicks(timers) && Armed(timers, id, bound)
    ensures exists i :: 0 <= i < |timers| && ServesAlone(timers, i, id, bound)
  {
    var t :| t in timers && t.id == TickTimerId(id) && t.deadline <= bound;
    var i :| 0 <= i < |timers| && timers[i] == t;
    forall j | 0 <= j < |timers| && timers[j].id == TickTimerId(id)
      ensures j == i
    {
      assert !(i < j) && !(j < i);
    }
    assert ServesAlone(timers, i, id, bound);
  }

  /**
   Every request ever made over a connection that is not gone has been answered exactly once and is held no
   more, or is unanswered and held by exactly one window, once.
   */
  lemma EveryRequestServed(p: Processor, k: Key)
    requires p.Valid() && k in p.ledger && k.connection !in p.gone
    ensures || (multiset(p.answers)[k] == 1 && forall id: nat :: Held(p.windows, p.gestures, id)[k] == 0)
            || (multiset(p.answers)[k] == 0 && exists home: nat :: HeldOnlyAt(p.windows, p.gestures, home, k))
  {
    hide Held;
    assert multiset(p.answers)[k] == One(p.ledger[k] == Answered);
    NoneForgotten(p.ledger, p.windows, p.gestures, p.answers, k);
    if p.ledger[k].Waiting? {
      assert HeldOnlyAt(p.windows, p.gestures, p.ledger[k].window, k);
    }
  }

  ghost predicate HeldOnlyAt(windows: Windows, gestures: Gestures, home: nat, k: Key) {
    forall id: nat :: Held(windows, gestures, id)[k] == One(id == home)
  }

  /** No request is answered twice, and one that still waits is unanswered. */
  lemma NothingAnsweredTwice(p: Processor, i: nat, j: nat)
    requires p.Valid() && i < j < |p.answers|
    ensures p.answers[i] != p.answers[j]
  {
    AnsweredAtMostOnce(p.ledger, p.windows, p.gestures, p.answers, i, j);
  }

  /** Whatever interleaves, what was written for a completed gesture is its script, and no gesture lets go twice. */
  lemma GesturesFollowScripts(p: Processor, k: Key)
    requires p.Valid()
    ensures PacedGesture.CountUps(ActionsFor(p.written, k)) <= 1
    ensures k in p.completed ==>
      k in p.paths && p.paths[k].points != [] && ActionsFor(p.written, k) == PacedGesture.Script(p.paths[k])
  {
    hide PacedGesture.Script;
    LetsGoOnce(p.paths, p.completed, p.gestures, p.written, k);
  }

  lemma StartTurned(gestures: Gestures, id: nat, request: PacedRequest, tick: PacedGesture.Tick)
    requires id !in gestures && PacedGesture.Valid(request.gesture)
    ensures Ended(id, gestures[id := request], tick) ==
      if PacedGesture.Advance(request.gesture, tick).progress.Finished? then {request.key} else {}
    ensures var turn := PacedGesture.Advance(request.gesture, tick);
      && Turned(id, gestures[id := request], tick) ==
         (match turn.progress
          case Pending(next) => gestures[id := PacedRequest(request.key, next)]
          case _ => gestures)
      && TurnWritten(id, gestures[id := request], tick) == Stamped(id, request.key, turn.written)
  {
    hide PacedGesture.Advance;
    assert gestures[id := request] - {id} == gestures;
  }

  /** The gestures of all other connections. */
  function OfOthers(gestures: Gestures, connection: nat): Gestures {
    map id | id in gestures && gestures[id].key.connection != connection :: gestures[id]
  }

  /** `order` names the gestures of a connection, each once. */
  ghost predicate EachOnce(order: seq<nat>, gestures: Gestures, connection: nat) {
    && (forall id :: id in order <==> id in gestures && gestures[id].key.connection == connection)
    && (forall i, j :: 0 <= i < j < |order| ==> order[i] != order[j])
    && ReleaseReady(order, gestures)
  }

  /** Half-way through dropping a connection's gestures: some are still to go, the rest are named in order. */
  ghost predicate Dropping(targets: set<nat>, order: seq<nat>, gestures: Gestures, before: Gestures, connection: nat) {
    && (forall id :: id in gestures <==> id in before && id !in order)
    && (forall id :: id in gestures ==> gestures[id] == before[id])
    && (forall id :: id in targets <==> id in gestures && before[id].key.connection == connection)
    && (forall id :: id in order ==> id in before && before[id].key.connection == connection)
    && (forall i, j :: 0 <= i < j < |order| ==> order[i] != order[j])
    && (forall id :: id in order ==> PacedGesture.Valid(before[id].gesture))
  }

  lemma NoneDropped(gestures: Gestures, connection: nat)
    ensures Dropping(set id | id in gestures && gestures[id].key.connection == connection, [], gestures, gestures,
                     connection)
    ensures ReleaseReady([], gestures)
  {
  }

  lemma DropOne(targets: set<nat>, order: seq<nat>, gestures: Gestures, before: Gestures, connection: nat, id: nat)
    requires Dropping(targets, order, gestures, before, connection) && id in targets
    ensures id in gestures && gestures[id] == before[id] && ReleaseReady(order, before)
    ensures PacedGesture.Valid(before[id].gesture) ==>
      Dropping(targets - {id}, order + [id], gestures - {id}, before, connection)
  {
    assert forall x :: x in order + [id] <==> x in order || x == id;
    assert forall x :: x in gestures - {id} <==> x in gestures && x != id;
  }

  lemma AllDropped(order: seq<nat>, gestures: Gestures, before: Gestures, connection: nat)
    requires Dropping({}, order, gestures, before, connection)
    ensures EachOnce(order, before, connection) && gestures == OfOthers(before, connection)
  {
    assert forall id :: id in gestures <==> id in OfOthers(before, connection);
  }

  lemma NoReleases(gestures: Gestures, windows: set<nat>, releaseOk: nat -> bool)
    ensures Releases([], gestures, windows, releaseOk) == []
  {
  }

  lemma ReleasesStep(order: seq<nat>, id: nat, gestures: Gestures, windows: set<nat>, releaseOk: nat -> bool)
    requires ReleaseReady(order, gestures) && id in gestures && PacedGesture.Valid(gestures[id].gesture)
    ensures ReleaseReady(order + [id], gestures)
    ensures var turn := PacedGesture.Release(gestures[id].gesture, PacedGesture.Disconnected, releaseOk(id));
      Releases(order + [id], gestures, windows, releaseOk) == Releases(order, gestures, windows, releaseOk)
        + if id in windows then Stamped(id, gestures[id].key, turn.written) else []
  {
    assert (order + [id])[..|order|] == order;
  }

  /** A timer armed for an obligation, when every timer lies in the future. */
  lemma ArmedAfter(timers: seq<Timer>, id: nat, d: nat, now: nat)
    requires Armed(timers, id, Max(d, now)) && AllAfter(timers, now)
    ensures d > now && Armed(timers, id, d)
  {
  }

  lemma NoKeys()
    ensures WaiterKeys([]) == [] && WriteKeys([]) == []
  {
  }

  lemma WaiterKeysLast(waiters: seq<Waiter>)
    requires waiters != []
    ensures WaiterKeys(waiters) == WaiterKeys(waiters[..|waiters| - 1]) + [waiters[|waiters| - 1].key]
  {
  }

  lemma WriteKeysLast(writes: seq<PendingWrite>)
    requires writes != []
    ensures WriteKeys(writes) == WriteKeys(writes[..|writes| - 1]) + [writes[|writes| - 1].key]
  {
  }

  lemma {:induction false} AllGoneWaiters(waiters: seq<Waiter>, everything: Key -> bool)
    requires forall k :: everything(k)
    ensures GoneWaiters(waiters, everything) == WaiterKeys(waiters)
    decreases |waiters|
  {
    hide WaiterKeys;
    if waiters == [] {
      NoKeys();
    } else {
      AllGoneWaiters(waiters[..|waiters| - 1], everything);
      WaiterKeysLast(waiters);
    }
  }

  lemma {:induction false} AllGoneWrites(writes: seq<PendingWrite>, everything: Key -> bool)
    requires forall k :: everything(k)
    ensures GoneWrites(writes, everything) == WriteKeys(writes)
    decreases |writes|
  {
    hide WriteKeys;
    if writes == [] {
      NoKeys();
    } else {
      AllGoneWrites(writes[..|writes| - 1], everything);
      WriteKeysLast(writes);
    }
  }

  lemma EverythingGoes(window: Window, everything: Key -> bool)
    requires forall k :: everything(k)
    ensures GoneWaiters(window.waiters, everything) == WaiterKeys(window.waiters)
    ensures GoneWrites(window.writes, everything) == WriteKeys(window.writes)
  {
    AllGoneWaiters(window.waiters, everything);
    AllGoneWrites(window.writes, everything);
  }

  lemma TickSends(timer: Timer)
    requires timer.event == AutomationTick(timer.id.window) && timer.interval == None
    ensures SendTicks([timer])
  {
  }

  /** The one timer at the nearest instant, or at `now`, serves every obligation. */
  lemma PlacedOnTime(before: seq<Timer>, after: seq<Timer>, timer: Timer, obligations: seq<nat>, id: nat, now: nat)
    requires NoneFor(before, TickTimerId(id)) && timer.id == TickTimerId(id)
    requires obligations != [] && timer.deadline == Max(Nearest(obligations).value, now)
    requires timer in after && forall t :: t in after ==> t == timer || t in before
    ensures OnTime(after, obligations, id, now)
  {
  }

  lemma NothingToServe(timers: seq<Timer>, id: nat, now: nat)
    requires NoneFor(timers, TickTimerId(id))
    ensures OnTime(timers, [], id, now)
  {
  }

  /** Timers of other topics stay. */
  ghost predicate OthersStay(before: seq<Timer>, after: seq<Timer>) {
    forall t: Timer :: t.id.topic != Automation ==> (t in before <==> t in after)
  }

  function OfConnection(connection: nat): Key -> bool {
    (k: Key) => k.connection == connection
  }

  /** The requests that go, in order. */
  function GoneWaiters(waiters: seq<Waiter>, goes: Key -> bool): (gone: seq<Key>)
    ensures forall w :: w in waiters && goes(w.key) ==> w.key in gone
  {
    if waiters == [] then [] else
      var earlier, last := GoneWaiters(waiters[..|waiters| - 1], goes), waiters[|waiters| - 1];
      assert waiters == waiters[..|waiters| - 1] + [last];
      if goes(last.key) then earlier + [last.key] else earlier
  }

  function StayingWaiters(waiters: seq<Waiter>, goes: Key -> bool): (kept: seq<Waiter>)
    ensures forall w :: w in kept <==> w in waiters && !goes(w.key)
  {
    if waiters == [] then [] else
      var earlier, last := StayingWaiters(waiters[..|waiters| - 1], goes), waiters[|waiters| - 1];
      assert waiters == waiters[..|waiters| - 1] + [last];
      if goes(last.key) then earlier else earlier + [last]
  }

  /** The requests that go, in order. */
  function GoneWrites(writes: seq<PendingWrite>, goes: Key -> bool): (gone: seq<Key>)
    ensures forall p :: p in writes && goes(p.key) ==> p.key in gone
  {
    if writes == [] then [] else
      var earlier, last := GoneWrites(writes[..|writes| - 1], goes), writes[|writes| - 1];
      assert writes == writes[..|writes| - 1] + [last];
      if goes(last.key) then earlier + [last.key] else earlier
  }

  function StayingWrites(writes: seq<PendingWrite>, goes: Key -> bool): (kept: seq<PendingWrite>)
    ensures forall p :: p in kept <==> p in writes && !goes(p.key)
  {
    if writes == [] then [] else
      var earlier, last := StayingWrites(writes[..|writes| - 1], goes), writes[|writes| - 1];
      assert writes == writes[..|writes| - 1] + [last];
      if goes(last.key) then earlier else earlier + [last]
  }

  lemma StayingWaitersStep(waiters: seq<Waiter>, i: nat, goes: Key -> bool)
    requires i < |waiters|
    ensures var kept := StayingWaiters(waiters[..i], goes);
      StayingWaiters(waiters[..i + 1], goes) == if goes(waiters[i].key) then kept else kept + [waiters[i]]
    ensures var gone := GoneWaiters(waiters[..i], goes);
      GoneWaiters(waiters[..i + 1], goes) == if goes(waiters[i].key) then gone + [waiters[i].key] else gone
  {
    assert waiters[..i + 1][..i] == waiters[..i];
  }

  lemma {:induction false} StayingWaitersNone(waiters: seq<Waiter>, everything: Key -> bool)
    requires forall k :: everything(k)
    ensures StayingWaiters(waiters, everything) == []
    decreases |waiters|
  {
    if waiters != [] {
      StayingWaitersNone(waiters[..|waiters| - 1], everything);
    }
  }

  lemma StayingWritesStep(writes: seq<PendingWrite>, i: nat, goes: Key -> bool)
    requires i < |writes|
    ensures var kept := StayingWrites(writes[..i], goes);
      StayingWrites(writes[..i + 1], goes) == if goes(writes[i].key) then kept else kept + [writes[i]]
    ensures var gone := GoneWrites(writes[..i], goes);
      GoneWrites(writes[..i + 1], goes) == if goes(writes[i].key) then gone + [writes[i].key] else gone
  {
    assert writes[..i + 1][..i] == writes[..i];
  }

  lemma {:induction false} StayingWritesNone(writes: seq<PendingWrite>, everything: Key -> bool)
    requires forall k :: everything(k)
    ensures StayingWrites(writes, everything) == []
    decreases |writes|
  {
    if writes != [] {
      StayingWritesNone(writes[..|writes| - 1], everything);
    }
  }

  lemma SettleStart(windows: Windows, id: nat, now: nat, world: World)
    requires id in windows
    ensures var window := windows[id];
      && WithWaiters(windows, id, [] + window.waiters[0..]) == windows
      && Kept(window, window.waiters[..0], now, world) == [] && Settled(window, window.waiters[..0], now, world) == []
  {
    assert [] + windows[id].waiters[0..] == windows[id].waiters;
  }

  lemma SettleStep(ledger: Ledger, windows: Windows, gestures: Gestures, answers: seq<Key>, id: nat,
                   i: nat, now: nat, world: World)
    requires id in windows && i < |windows[id].waiters|
    requires var window := windows[id];
      Books(ledger, WithWaiters(windows, id, Kept(window, window.waiters[..i], now, world) + window.waiters[i..]),
            gestures, answers)
    ensures var window := windows[id];
      var waiters, waiter := window.waiters, window.waiters[i];
      var kept, settled := Kept(window, waiters[..i], now, world), Settled(window, waiters[..i], now, world);
      var stays, answered := Keeps(window, waiter, now, world), world.alive(waiter.key.connection);
      var next := if stays then kept + [waiter] else kept;
      && (!stays ==> waiter.key in ledger)
      && Kept(window, waiters[..i + 1], now, world) == next
      && Settled(window, waiters[..i + 1], now, world) ==
        (if !stays && answered then settled + [waiter.key] else settled)
      && Books(if stays then ledger else ledger[waiter.key := if answered then Answered else Dropped],
               WithWaiters(windows, id, next + waiters[i + 1..]), gestures,
               if !stays && answered then answers + [waiter.key] else answers)
  {
    hide Books, Keeps;
    var window := windows[id];
    var waiters, waiter, rest := window.waiters, window.waiters[i], window.waiters[i + 1..];
    var kept := Kept(window, waiters[..i], now, world);
    assert waiters[..i + 1][..i] == waiters[..i];
    NextInLine(kept, waiters, i);
    if !Keeps(window, waiter, now, world) {
      CloseWaiter(ledger, windows, gestures, answers, id, kept, waiter, rest, world.alive(waiter.key.connection));
    }
  }

  lemma Longer<T>(a: seq<T>, b: seq<T>, c: seq<T>)
    requires a <= b <= c
    ensures a <= c
  {
  }

  lemma NextInLine<T>(kept: seq<T>, all: seq<T>, i: nat)
    requires i < |all|
    ensures kept + all[i..] == kept + [all[i]] + all[i + 1..]
  {
  }

  lemma CloseWaitersStart(windows: Windows, id: nat, goes: Key -> bool)
    requires id in windows
    ensures var waiters := windows[id].waiters;
      WithWaiters(windows, id, StayingWaiters(waiters[..0], goes) + waiters[0..]) == windows
        && GoneWaiters(waiters[..0], goes) == []
  {
    var waiters := windows[id].waiters;
    assert waiters[..0] == [] && [] + waiters[0..] == waiters;
  }

  lemma CloseWaitersStep(ledger: Ledger, windows: Windows, gestures: Gestures, answers: seq<Key>, id: nat,
                         i: nat, goes: Key -> bool, answered: bool)
    requires id in windows && i < |windows[id].waiters|
    requires var waiters := windows[id].waiters;
      Books(ledger, WithWaiters(windows, id, StayingWaiters(waiters[..i], goes) + waiters[i..]), gestures, answers)
    ensures var waiters := windows[id].waiters;
      var key, next := waiters[i].key,
        WithWaiters(windows, id, StayingWaiters(waiters[..i + 1], goes) + waiters[i + 1..]);
      if goes(key) then
        && key in ledger
        && Books(ledger[key := if answered then Answered else Dropped], next, gestures,
                 if answered then answers + [key] else answers)
        && GoneWaiters(waiters[..i + 1], goes) == GoneWaiters(waiters[..i], goes) + [key]
      else
        Books(ledger, next, gestures, answers) && GoneWaiters(waiters[..i + 1], goes) == GoneWaiters(waiters[..i], goes)
  {
    hide Books, StayingWaiters, GoneWaiters;
    var waiters := windows[id].waiters;
    var kept, rest := StayingWaiters(waiters[..i], goes), waiters[i + 1..];
    StayingWaitersStep(waiters, i, goes);
    NextInLine(kept, waiters, i);
    if goes(waiters[i].key) {
      CloseWaiter(ledger, windows, gestures, answers, id, kept, waiters[i], rest, answered);
    }
  }

  lemma CloseWritesStart(windows: Windows, id: nat, goes: Key -> bool)
    requires id in windows
    ensures var writes := windows[id].writes;
      WithWrites(windows, id, StayingWrites(writes[..0], goes) + writes[0..]) == windows
        && GoneWrites(writes[..0], goes) == []
  {
    var writes := windows[id].writes;
    assert writes[..0] == [] && [] + writes[0..] == writes;
  }

  lemma CloseWritesStep(ledger: Ledger, windows: Windows, gestures: Gestures, answers: seq<Key>, id: nat,
                         i: nat, goes: Key -> bool, answered: bool)
    requires id in windows && i < |windows[id].writes|
    requires var writes := windows[id].writes;
      Books(ledger, WithWrites(windows, id, StayingWrites(writes[..i], goes) + writes[i..]), gestures, answers)
    ensures var writes := windows[id].writes;
      var key, next := writes[i].key, WithWrites(windows, id, StayingWrites(writes[..i + 1], goes) + writes[i + 1..]);
      if goes(key) then
        && key in ledger
        && Books(ledger[key := if answered then Answered else Dropped], next, gestures,
                 if answered then answers + [key] else answers)
        && GoneWrites(writes[..i + 1], goes) == GoneWrites(writes[..i], goes) + [key]
      else
        Books(ledger, next, gestures, answers) && GoneWrites(writes[..i + 1], goes) == GoneWrites(writes[..i], goes)
  {
    hide Books, StayingWrites, GoneWrites;
    var writes := windows[id].writes;
    var kept, rest := StayingWrites(writes[..i], goes), writes[i + 1..];
    StayingWritesStep(writes, i, goes);
    NextInLine(kept, writes, i);
    if goes(writes[i].key) {
      CloseWriteInside(ledger, windows, gestures, answers, id, kept, writes[i], rest, answered);
    }
  }

  function Staying(window: Window, goes: Key -> bool): Window {
    window.(waiters := StayingWaiters(window.waiters, goes), writes := StayingWrites(window.writes, goes))
  }

  /** What a lost connection leaves in the windows: the waits and writes of all others, and the screens as they were. */
  ghost predicate OthersRemain(before: Windows, after: Windows, connection: nat) {
    && after.Keys == before.Keys
    && forall id :: id in before ==>
         && (forall w :: w in after[id].waiters <==> w in before[id].waiters && w.key.connection != connection)
         && (forall p :: p in after[id].writes <==> p in before[id].writes && p.key.connection != connection)
         && after[id].screenSequence == before[id].screenSequence
         && after[id].lastScreenChange == before[id].lastScreenChange
  }

  lemma StayingExactly(before: Windows, after: Windows, connection: nat)
    requires after.Keys == before.Keys
    requires forall id :: id in before ==> after[id] == Staying(before[id], OfConnection(connection))
    ensures OthersRemain(before, after, connection)
  {
  }

  lemma NothingStays(window: Window, everything: Key -> bool)
    requires forall k :: everything(k)
    ensures Staying(window, everything).waiters == [] && Staying(window, everything).writes == []
  {
    StayingWaitersNone(window.waiters, everything);
    StayingWritesNone(window.writes, everything);
  }

  function FindToken(writes: seq<PendingWrite>, token: nat): (index: Option<nat>)
    ensures index.Some? ==> index.value < |writes| && writes[index.value].token == token
    ensures index.None? ==> forall p :: p in writes ==> p.token != token
  {
    if writes == [] then None
    else if writes[0].token == token then Some(0)
    else
      var later := FindToken(writes[1..], token);
      if later.None? then None else Some(later.value + 1)
  }

  /** A window whose write with a token is done, and the request that answers. */
  function Written(window: Window, token: nat): Window {
    match FindToken(window.writes, token)
    case Some(i) => window.(writes := SwapRemove(window.writes, i))
    case None => window
  }

  function WrittenKeys(window: Window, token: nat): seq<Key> {
    match FindToken(window.writes, token)
    case Some(i) => [window.writes[i].key]
    case None => []
  }

  lemma WrittenWaits(window: Window, token: nat)
    ensures Written(window, token) == window.(writes := Written(window, token).writes)
  {
  }

  /** Writes make no difference to waits. */
  lemma DecidedSame(before: Window, window: Window, after: seq<Waiter>, answers: seq<Key>, now: nat, world: World)
    requires window == before.(writes := window.writes) && Decided(window, after, answers, now, world)
    ensures Decided(before, after, answers, now, world)
  {
    assert forall w :: StaysOpen(before, w, now, world) <==> StaysOpen(window, w, now, world);
  }

  /** Waits that were kept are still to be kept: evaluation depends on the window's screen only. */
  lemma KeptIsStable(window: Window, now: nat, world: World)
    ensures var kept := Kept(window, window.waiters, now, world);
      forall w :: w in kept ==> Keeps(window.(waiters := kept), w, now, world)
  {
  }

  /** A finished gesture's window: what was over has been answered. */
  lemma JoinedServed(window: Window, waiter: Waiter, now: nat, world: World)
    ensures var joined := window.(waiters := window.waiters + [waiter]);
      forall answers: seq<Key> :: Served(window, answers + Settled(joined, joined.waiters, now, world), now, world)
  {
    hide Settled;
    var joined := window.(waiters := window.waiters + [waiter]);
    forall w | w in window.waiters && world.alive(w.key.connection) && !Keeps(window, w, now, world)
      ensures w.key in Settled(joined, joined.waiters, now, world)
    {
      assert w in joined.waiters && !Keeps(joined, w, now, world);
    }
  }

  /** So does the loop over the waits when the writes have been looked at. */
  lemma SettledServed(before: Window, window: Window, answers: seq<Key>, now: nat, world: World)
    requires window == before.(writes := window.writes)
    ensures Served(before, answers + Settled(window, window.waiters, now, world), now, world)
  {
    hide Settled;
    forall w | w in before.waiters && world.alive(w.key.connection) && !Keeps(before, w, now, world)
      ensures w.key in Settled(window, window.waiters, now, world)
    {
      assert !Keeps(window, w, now, world);
    }
  }

  /** A gesture's turn and then the rest of the tick. */
  lemma SettlesAfterTurn(before: Window, window: Window, after: Window, answered: seq<Key>, answers: seq<Key>,
                         now: nat, world: World)
    requires StillWaits(before, window, now, world) && window.writes == before.writes && answered <= answers
    requires window == before || Served(before, answered, now, world)
    requires Settles(window, after, answers, now, world)
    ensures Settles(before, after, answers, now, world)
  {
    StillWaitsOn(before, window, after, now, world);
  }

  /** A request changes its status without being given up, or belongs to a connection that is gone. */
  lemma ExcusedOn(ledger: Ledger, gone: set<nat>, key: Key, status: Status)
    requires Excused(ledger, gone) && (status != Dropped || key.connection in gone)
    ensures Excused(ledger[key := status], gone)
  {
  }

  lemma GoneMore(ledger: Ledger, gone: set<nat>, connection: nat)
    requires Excused(ledger, gone)
    ensures Excused(ledger, gone + {connection})
  {
  }

  lemma NoneFound(gone: set<nat>, world: World)
    ensures FoundDead(gone, gone, world)
  {
  }

  lemma FoundOne(ledger: Ledger, before: set<nat>, gone: set<nat>, world: World, connection: nat)
    requires Excused(ledger, gone) && FoundDead(before, gone, world) && !world.alive(connection)
    ensures Excused(ledger, gone + {connection}) && FoundDead(before, gone + {connection}, world)
  {
  }

  lemma FoundDeadOn(before: set<nat>, found: set<nat>, after: set<nat>, world: World)
    requires FoundDead(before, found, world) && FoundDead(found, after, world)
    ensures FoundDead(before, after, world)
  {
  }

  lemma SameTimers(timers: seq<Timer>, id: nat)
    ensures Same(timers, timers, id)
  {
  }

  lemma SameOn(before: seq<Timer>, timers: seq<Timer>, after: seq<Timer>, id: nat)
    requires Same(before, timers, id) && Same(timers, after, id)
    ensures Same(before, after, id)
  {
  }

  /** Without a gesture on a live window nothing is written and nothing ends. */
  lemma NoTurn(id: nat, live: bool, gestures: Gestures, written: seq<Sent>, completed: set<Key>, answers: seq<Key>,
               tick: PacedGesture.Tick)
    requires !live || id !in gestures
    ensures TurnTaken(id, live, gestures, gestures, written, written, completed, completed, answers, tick)
    ensures id in gestures ==>
      TurnTaken(id, live, gestures, gestures - {id}, written, written, completed, completed, answers, tick)
  {
    assert (gestures - {id}) - {id} == gestures - {id};
  }

  lemma TurnMade(id: nat, before: Gestures, written: seq<Sent>, completed: set<Key>, answers: seq<Key>,
                 tick: PacedGesture.Tick)
    requires id in before && PacedGesture.Valid(before[id].gesture)
    requires PacedGesture.Advance(before[id].gesture, tick).progress.Left? ==> before[id].key in answers
    ensures var request := before[id];
      var turn := PacedGesture.Advance(request.gesture, tick);
      var after := written + Stamped(id, request.key, turn.written);
      match turn.progress
      case Pending(next) =>
        TurnTaken(id, true, before, before[id := request.(gesture := next)], written, after, completed, completed,
                  answers, tick)
      case Left(_, _) =>
        TurnTaken(id, true, before, before - {id}, written, after, completed, completed, answers, tick)
      case Finished =>
        TurnTaken(id, true, before, before - {id}, written, after, completed, completed + {request.key}, answers, tick)
  {
    hide PacedGesture.Advance, Stamped;
    assert (before - {id}) - {id} == before - {id};
  }

  lemma TurnTakenOn(id: nat, live: bool, before: Gestures, after: Gestures, writtenBefore: seq<Sent>,
                    written: seq<Sent>, completedBefore: set<Key>, completed: set<Key>, answered: seq<Key>,
                    answers: seq<Key>, tick: PacedGesture.Tick)
    requires TurnTaken(id, live, before, after, writtenBefore, written, completedBefore, completed, answered, tick)
    requires answered <= answers
    ensures TurnTaken(id, live, before, after, writtenBefore, written, completedBefore, completed, answers, tick)
  {
  }

  lemma StillWaitsSame(window: Window, now: nat, world: World)
    ensures StillWaits(window, window, now, world)
  {
  }

  /** Another wait joins, and what is over goes. */
  lemma JoinedStillWaits(window: Window, waiter: Waiter, now: nat, world: World)
    ensures var waiters := window.waiters + [waiter];
      StillWaits(window, window.(waiters := Kept(window.(waiters := waiters), waiters, now, world)), now, world)
  {
    hide Kept;
    var waiters := window.waiters + [waiter];
    forall w | w in window.waiters && Keeps(window, w, now, world)
      ensures w in Kept(window.(waiters := waiters), waiters, now, world)
    {
      assert Keeps(window.(waiters := waiters), w, now, world);
    }
  }

  lemma SettledStillWaits(before: Window, after: Window, window: Window, now: nat, world: World)
    requires window == before.(writes := window.writes)
    requires after == window.(waiters := Kept(window, window.waiters, now, world))
    ensures StillWaits(before, after, now, world)
  {
    hide Kept;
    forall w | w in before.waiters && Keeps(before, w, now, world)
      ensures w in after.waiters
    {
      assert Keeps(window, w, now, world);
    }
  }

  lemma StillWaitsOn(before: Window, window: Window, after: Window, now: nat, world: World)
    requires StillWaits(before, window, now, world) && StillWaits(window, after, now, world)
    ensures StillWaits(before, after, now, world)
  {
    forall w | w in before.waiters && Keeps(before, w, now, world)
      ensures w in after.waiters
    {
      assert Keeps(window, w, now, world);
    }
  }

  lemma NothingOwed(timers: seq<Timer>, sent: seq<Event>, handled: nat, gestures: Gestures, id: nat, window: Window,
                    now: nat)
    requires window.waiters == [] && window.writes == [] && id !in gestures
    ensures InTime(timers, sent, handled, Obligations(window, gestures, id), id, now)
  {
    assert Obligations(window, gestures, id) == [];
  }

  lemma OtherSendsNoTick(timer: Timer)
    requires timer.id.topic != Automation
    ensures SendTicks([timer])
  {
  }

  /** Whatever else happens to the list, a window whose own timer stays is woken as before. */
  lemma InTimeMore(before: seq<Timer>, after: seq<Timer>, sent: seq<Event>, handled: nat, obligations: seq<nat>,
                   id: nat, now: nat)
    requires forall t: Timer :: t in before && t.id == TickTimerId(id) ==> t in after
    requires InTime(before, sent, handled, obligations, id, now)
    ensures InTime(after, sent, handled, obligations, id, now)
  {
    forall d | d in obligations && Armed(before, id, Max(d, now))
      ensures Armed(after, id, Max(d, now))
    {
      var t :| t in before && t.id == TickTimerId(id) && t.deadline <= Max(d, now);
      assert t in after;
    }
  }

  lemma InTimeAfterUpdate(before: seq<Timer>, clock: Clock, k: nat, sent: seq<Event>, handled: nat,
                          obligations: seq<nat>, id: nat, now: nat)
    requires OneEach(before) && SendTicks(before) && handled <= |sent|
    requires InTime(before, sent, handled, obligations, id, now)
    ensures var run := Firings(before, clock, k);
      InTime(run.timers, sent + Events(run.fired), handled, obligations, id, now)
  {
    hide OneEach, SendTicks, Firings, Events;
    var after, fired := Firings(before, clock, k).timers, Events(Firings(before, clock, k).fired);
    assert (sent + fired)[handled..] == sent[handled..] + fired;
    if AutomationTick(id) !in sent[handled..] && AutomationTick(id) !in fired {
      forall d | d in obligations
        ensures Armed(after, id, Max(d, now))
      {
        ArmedOrSent(before, clock, k, id, Max(d, now));
      }
    }
  }

  /** One window's waits and gesture are no other window's business. */
  lemma ObligationsElsewhere(windows: Windows, windows': Windows, gestures: Gestures, gestures': Gestures, id: nat)
    requires windows - {id} == windows' - {id} && gestures - {id} == gestures' - {id}
    ensures forall other :: other != id ==> (other in windows <==> other in windows')
    ensures forall other :: other in windows && other != id ==>
      Obligations(windows'[other], gestures', other) == Obligations(windows[other], gestures, other)
  {
    forall other: nat | other != id
      ensures other in windows <==> other in windows'
      ensures other in windows ==>
        Obligations(windows'[other], gestures', other) == Obligations(windows[other], gestures, other)
    {
      assert other in windows <==> other in windows - {id};
      assert other in windows' <==> other in windows' - {id};
      assert other in gestures <==> other in gestures - {id};
      assert other in gestures' <==> other in gestures' - {id};
      if other in windows {
        assert windows'[other] == (windows' - {id})[other] == windows[other];
        if other in gestures {
          assert gestures'[other] == (gestures' - {id})[other] == gestures[other];
        }
      }
    }
  }

  lemma SwapRemoveMembers<T>(s: seq<T>, i: nat)
    requires i < |s|
    ensures forall x :: x in SwapRemove(s, i) ==> x in s
    ensures forall x :: x in s && x != s[i] ==> x in SwapRemove(s, i)
    ensures forall k :: 0 <= k < i ==> k < |SwapRemove(s, i)| && SwapRemove(s, i)[k] == s[k]
    ensures |SwapRemove(s, i)| == |s| - 1
  {
    var last, after := |s| - 1, SwapRemove(s, i);
    forall x | x in s && x != s[i]
      ensures x in after
    {
      var k :| 0 <= k < |s| && s[k] == x;
      assert if k == last then after[i] == x else after[k] == x;
    }
  }

  lemma InTimeLater(timers: seq<Timer>, sent: seq<Event>, handled: nat, obligations: seq<nat>, id: nat, before: nat,
                    now: nat)
    requires before <= now && InTime(timers, sent, handled, obligations, id, before)
    ensures InTime(timers, sent, handled, obligations, id, now)
  {
    forall d | d in obligations && Armed(timers, id, Max(d, before))
      ensures Armed(timers, id, Max(d, now))
    {
    }
  }

  /**
   After a tick has settled a window, everything left lies in the future, except a gesture action that
   is due: a window never asks to be woken again for something its tick could have settled.
   */
  lemma TickMakesProgress(window: Window, gestures: Gestures, id: nat, now: nat, world: World)
    requires forall p :: p in window.writes ==> p.deadline > now
    requires forall w :: w in window.waiters ==> Keeps(window, w, now, world)
    ensures forall d :: d in Obligations(window, gestures, id) ==>
      d > now || (id in gestures && d == GestureInstant(gestures[id]))
  {
    StableInstantsInFuture(window, window.waiters, now, world);
    forall d | d in Deadlines(window, gestures, id)
      ensures d > now || (id in gestures && d == GestureInstant(gestures[id]))
    {
      assert forall i :: 0 <= i < |window.writes| ==> window.writes[i] in window.writes;
      assert forall i :: 0 <= i < |window.waiters| ==> window.waiters[i] in window.waiters;
    }
  }

  lemma {:induction false} StableInstantsInFuture(window: Window, waiters: seq<Waiter>, now: nat, world: World)
    requires forall w :: w in waiters ==> Keeps(window, w, now, world)
    ensures forall d :: d in StableInstants(window, waiters) ==> d > now
    decreases |waiters|
  {
    if waiters != [] {
      StableInstantsInFuture(window, waiters[..|waiters| - 1], now, world);
      assert waiters[|waiters| - 1] in waiters;
    }
  }
}
