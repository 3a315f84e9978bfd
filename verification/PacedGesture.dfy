/**
 A paced mouse gesture: one action per timer tick, Down at the first point, a move or drag per later
 point, Up at the last, and a release when it has to stop half-way.
 */
module PacedGesture {
  import opened Wrappers

  datatype Point = Point(x: int, y: int)

  datatype Route = Application | Ui

  datatype Path = Path(points: seq<Point>, route: Route, waitFrame: bool, timeout: nat, duration: nat)

  datatype Action = Down(at: Point) | Move(at: Point) | Drag(at: Point) | Up(at: Point)

  /** What a request must satisfy before a gesture starts. */
  predicate WellFormed(path: Path) {
    && 2 <= |path.points| <= 1000
    && 1 <= path.duration <= 30_000
    && (path.waitFrame ==> 1 <= path.timeout <= 86_400_000)
  }

  datatype Gesture = Gesture(path: Path, nextAction: nat, interval: nat, nextDue: nat, deadline: nat)

  predicate Valid(g: Gesture) {
    WellFormed(g.path) && g.nextAction <= |g.path.points|
  }

  function Start(path: Path, interval: nat, now: nat): (g: Gesture)
    requires WellFormed(path)
    ensures Valid(g)
  {
    Gesture(path, 0, interval, now, now + path.duration + (if path.waitFrame then path.timeout else 5_000))
  }

  /** The action the counter stands for. */
  function NextAction(g: Gesture): Action
    requires g.path.points != []
  {
    var n := |g.path.points|;
    var point := g.path.points[if g.nextAction < n - 1 then g.nextAction else n - 1];
    if g.nextAction == 0 then Down(point)
    else if g.nextAction == n then Up(point)
    else if g.path.route == Ui then Move(point)
    else Drag(point)
  }

  /** The action that lets go of the button early: the Up of the last point. */
  function ReleaseAction(g: Gesture): Action
    requires g.path.points != []
  {
    NextAction(g.(nextAction := |g.path.points|))
  }

  /**
   What one tick meets: the time, the bytes the action turns into unless that fails, and whether the
   writes of the action and of a possible release succeed.
   */
  datatype Tick = Tick(now: nat, bytes: Option<nat>, writeOk: bool, releaseOk: bool)

  datatype Reason = Timeout | ActionError | WriteError | FinishError | Disconnected

  datatype Progress =
    | Pending(gesture: Gesture)
    | Finished
    | Left(reason: Reason, releaseAttempted: bool)

  datatype Turn = Turn(progress: Progress, written: seq<Action>)

  /** Leaving with a release, which is attempted only once the button is down. */
  function Release(g: Gesture, reason: Reason, releaseOk: bool): Turn
    requires g.path.points != []
  {
    var attempted := g.nextAction != 0;
    Turn(Left(reason, attempted), if attempted && releaseOk then [ReleaseAction(g)] else [])
  }

  /** One call of the tick handler for a gesture of a live window. */
  function Advance(g: Gesture, tick: Tick): (turn: Turn)
    requires Valid(g)
    ensures turn.progress.Pending? ==> Valid(turn.progress.gesture)
  {
    if tick.now >= g.deadline then Release(g, Timeout, tick.releaseOk)
    else if tick.now < g.nextDue then Turn(Pending(g), [])
    else if tick.bytes.None? then Release(g, ActionError, tick.releaseOk)
    else if g.nextAction == |g.path.points| then
      if tick.bytes.value != 0 && !tick.writeOk then Turn(Left(FinishError, false), [])
      else Turn(Finished, [NextAction(g)])
    else if !tick.writeOk then Release(g, WriteError, tick.releaseOk)
    else Turn(Pending(g.(nextAction := g.nextAction + 1, nextDue := g.nextDue + g.interval)), [NextAction(g)])
  }

  /** A gesture that has just started can not be over by completion. */
  lemma FirstTurn(path: Path, interval: nat, tick: Tick)
    requires WellFormed(path)
    ensures !Advance(Start(path, interval, tick.now), tick).progress.Finished?
  {
  }

  // ---------------------------------------------------------------------------------------------
  // Whole runs
  // ---------------------------------------------------------------------------------------------

  /** What happens to a gesture until it is over. */
  datatype Happening = Ticked(tick: Tick) | ConnectionLost(releaseOk: bool)

  function React(g: Gesture, happening: Happening): Turn
    requires Valid(g)
  {
    match happening
    case Ticked(tick) => Advance(g, tick)
    case ConnectionLost(releaseOk) => Release(g, Disconnected, releaseOk)
  }

  /** Progress and everything written, over a run. */
  function Run(g: Gesture, happenings: seq<Happening>): Turn
    requires Valid(g)
    decreases |happenings|
  {
    if happenings == [] then Turn(Pending(g), []) else
      var turn := React(g, happenings[0]);
      match turn.progress
      case Pending(next) =>
        var rest := Run(next, happenings[1..]);
        Turn(rest.progress, turn.written + rest.written)
      case _ => turn
  }

  /** The whole gesture: one action per point and a final Up. */
  function Script(path: Path): seq<Action>
    requires path.points != []
  {
    var n := |path.points|;
    seq(n + 1, i requires 0 <= i <= n =>
      if i == 0 then Down(path.points[0])
      else if i == n then Up(path.points[n - 1])
      else if path.route == Ui then Move(path.points[i])
      else Drag(path.points[i]))
  }

  lemma ScriptAt(g: Gesture)
    requires Valid(g)
    ensures |Script(g.path)| == |g.path.points| + 1
    ensures NextAction(g) == Script(g.path)[g.nextAction]
    ensures ReleaseAction(g) == Script(g.path)[|g.path.points|]
  {
  }

  lemma ScriptLength(path: Path)
    requires path.points != []
    ensures |Script(path)| == |path.points| + 1
  {
  }

  lemma JoinSlices(script: seq<Action>, a: nat, b: nat, c: nat, written: seq<Action>)
    requires a <= b <= c <= |script| && written == script[a..b]
    ensures written + script[b..c] == script[a..c] && written + script[b..] == script[a..]
    ensures forall last :: written + (script[b..c] + [last]) == script[a..c] + [last]
  {
  }

  /** What one turn adds to the script. */
  lemma ReactFollowsScript(g: Gesture, happening: Happening)
    requires Valid(g)
    ensures |Script(g.path)| == |g.path.points| + 1
    ensures var script, turn := Script(g.path), React(g, happening);
      match turn.progress
      case Pending(next) =>
        && Valid(next) && next.path == g.path
        && ((next == g && turn.written == [])
            || (next.nextAction == g.nextAction + 1 && turn.written == [script[g.nextAction]]))
      case Finished => g.nextAction == |g.path.points| && turn.written == [script[g.nextAction]]
      case Left(reason, attempted) =>
        && (attempted <==> g.nextAction != 0 && reason != FinishError)
        && (reason == FinishError ==> g.nextAction == |g.path.points|)
        && (turn.written == [] || (attempted && turn.written == [script[|g.path.points|]]))
  {
    hide Script, NextAction, ReleaseAction;
    ScriptAt(g);
  }

  /** What a run has written and how it stands, when its counter has come to `stop`. */
  ghost predicate Follows(g: Gesture, run: Turn, stop: nat)
    requires Valid(g)
  {
    && g.nextAction <= stop <= |g.path.points| && |Script(g.path)| == |g.path.points| + 1
    && var script := Script(g.path);
       match run.progress
       case Pending(now) =>
         now.path == g.path && now.nextAction == stop && run.written == script[g.nextAction..stop]
       case Finished =>
         run.written == script[g.nextAction..]
       case Left(reason, attempted) =>
         && (attempted <==> stop != 0 && reason != FinishError)
         && (reason == FinishError ==> stop == |g.path.points|)
         && (run.written == script[g.nextAction..stop]
             || (attempted && run.written == script[g.nextAction..stop] + [script[|g.path.points|]]))
  }

  /** One more turn in front of a run. */
  lemma FollowsOn(g: Gesture, next: Gesture, turn: Turn, rest: Turn, stop: nat)
    requires Valid(g) && Valid(next) && next.path == g.path && g.nextAction <= next.nextAction
    requires |Script(g.path)| == |g.path.points| + 1 && turn.written == Script(g.path)[g.nextAction..next.nextAction]
    requires Follows(next, rest, stop)
    ensures Follows(g, Turn(rest.progress, turn.written + rest.written), stop)
  {
    hide Script;
    JoinSlices(Script(g.path), g.nextAction, next.nextAction, stop, turn.written);
  }

  /**
   Whatever happens, what has been written is the script up to the counter, followed by at most one Up.
   The release is attempted exactly when the Down has been passed, unless it was the final Up itself
   whose write failed.
   */
  lemma {:induction false} RunFollowsScript(g: Gesture, happenings: seq<Happening>) returns (stop: nat)
    requires Valid(g)
    ensures Follows(g, Run(g, happenings), stop)
    decreases |happenings|
  {
    hide Script, React;
    stop := g.nextAction;
    ScriptLength(g.path);
    if happenings != [] {
      var turn := React(g, happenings[0]);
      ReactFollowsScript(g, happenings[0]);
      if turn.progress.Pending? {
        hide Follows;
        var next := turn.progress.gesture;
        stop := RunFollowsScript(next, happenings[1..]);
        TurnIsSlice(g, next, turn);
        FollowsOn(g, next, turn, Run(next, happenings[1..]), stop);
      }
    }
  }

  lemma TurnIsSlice(g: Gesture, next: Gesture, turn: Turn)
    requires Valid(g) && Valid(next) && |Script(g.path)| == |g.path.points| + 1
    requires (next == g && turn.written == [])
          || (next.nextAction == g.nextAction + 1 && turn.written == [Script(g.path)[g.nextAction]])
    ensures turn.written == Script(g.path)[g.nextAction..next.nextAction]
  {
  }

  function CountUps(actions: seq<Action>): nat {
    if actions == [] then 0 else (if actions[0].Up? then 1 else 0) + CountUps(actions[1..])
  }

  lemma {:induction false} NoUpsBeforeTheEnd(path: Path, from: nat, upTo: nat)
    requires path.points != [] && from <= upTo <= |path.points|
    ensures CountUps(Script(path)[from..upTo]) == 0
    decreases upTo - from
  {
    if from < upTo {
      NoUpsBeforeTheEnd(path, from + 1, upTo);
      assert Script(path)[from..upTo][1..] == Script(path)[from + 1..upTo];
    }
  }

  lemma {:induction false} CountUpsAppend(actions: seq<Action>, last: Action)
    ensures CountUps(actions + [last]) == CountUps(actions) + (if last.Up? then 1 else 0)
    decreases |actions|
  {
    if actions == [] {
      assert actions + [last] == [last];
    } else {
      assert (actions + [last])[1..] == actions[1..] + [last];
      CountUpsAppend(actions[1..], last);
    }
  }

  /** A gesture that runs to completion writes all of its n + 1 actions, in order. */
  lemma CompletionWritesScript(path: Path, interval: nat, now: nat, happenings: seq<Happening>)
    requires WellFormed(path)
    requires Run(Start(path, interval, now), happenings).progress.Finished?
    ensures Run(Start(path, interval, now), happenings).written == Script(path)
  {
    var _ := RunFollowsScript(Start(path, interval, now), happenings);
  }

  /** However a gesture ends, the button is let go at most once. */
  lemma AtMostOneUp(path: Path, interval: nat, now: nat, happenings: seq<Happening>)
    requires WellFormed(path)
    ensures CountUps(Run(Start(path, interval, now), happenings).written) <= 1
  {
    hide Script, Run, CountUps;
    var g, n, script := Start(path, interval, now), |path.points|, Script(path);
    ScriptLength(path);
    var stop := RunFollowsScript(g, happenings);
    NoUpsBeforeTheEnd(path, 0, stop);
    NoUpsBeforeTheEnd(path, 0, n);
    CountUpsAppend(script[0..stop], script[n]);
    CountUpsAppend(script[0..n], script[n]);
    assert script[0..] == script[0..n] + [script[n]];
  }

  /** The tick on which the final Up is due and has bytes to write, but the write fails. */
  predicate FinalWriteFails(g: Gesture, happening: Happening) {
    && happening.Ticked?
    && g.nextAction == |g.path.points|
    && g.nextDue <= happening.tick.now < g.deadline
    && happening.tick.bytes.Some? && happening.tick.bytes.value != 0
    && !happening.tick.writeOk
  }

  /**
   A gesture that leaves once its Down has been passed attempts a release, except exactly when it leaves
   because the final Up could not be written.
   */
  lemma ReleaseAttemptedExactly(g: Gesture, happening: Happening)
    requires Valid(g) && g.nextAction > 0
    ensures var progress := React(g, happening).progress;
      progress.Left? ==> (progress.releaseAttempted <==> !FinalWriteFails(g, happening))
  {
  }

  /**
   The exception is real: two points over ten instants, so five between actions.  Down and Drag are written,
   the Up is not, the gesture is over, and no Up was tried again.
   */
  lemma ButtonCanStayDown(a: Point, b: Point)
    ensures var path := Path([a, b], Application, false, 0, 10);
      var run := Run(Start(path, 5, 0), [Ticked(Tick(0, Some(6), true, true)), Ticked(Tick(5, Some(6), true, true)),
                                         Ticked(Tick(10, Some(6), false, true))]);
      run == Turn(Left(FinishError, false), [Down(a), Drag(b)])
  {
    var path := Path([a, b], Application, false, 0, 10);
    var first, second := Ticked(Tick(0, Some(6), true, true)), Ticked(Tick(5, Some(6), true, true));
    var third := Ticked(Tick(10, Some(6), false, true));
    var g0 := Start(path, 5, 0);
    var g1 := g0.(nextAction := 1, nextDue := 5);
    var g2 := g0.(nextAction := 2, nextDue := 10);
    assert Run(g2, [third]) == Turn(Left(FinishError, false), []);
    assert [second, third][1..] == [third];
    assert Run(g1, [second, third]) == Turn(Left(FinishError, false), [Drag(b)]);
    assert [first, second, third][1..] == [second, third];
  }

  // ---------------------------------------------------------------------------------------------
  // In time
  // ---------------------------------------------------------------------------------------------

  /** A tick waits, writes the next action, or ends the gesture, and when it does which. */
  lemma TurnsExactly(g: Gesture, tick: Tick)
    requires Valid(g)
    ensures var last := g.nextAction == |g.path.points|;
      var due := g.nextDue <= tick.now < g.deadline;
      var written := tick.bytes.Some? && (tick.writeOk || (last && tick.bytes.value == 0));
      match Advance(g, tick).progress
      case Pending(next) =>
        || (tick.now < g.deadline && tick.now < g.nextDue && next == g && Advance(g, tick).written == [])
        || (due && written && !last && next == g.(nextAction := g.nextAction + 1, nextDue := g.nextDue + g.interval)
            && |Advance(g, tick).written| == 1)
      case Finished => due && written && last && |Advance(g, tick).written| == 1
      case Left(reason, _) =>
        match reason
        case Timeout => tick.now >= g.deadline
        case ActionError => due && tick.bytes.None?
        case WriteError => due && tick.bytes.Some? && !tick.writeOk && !last
        case FinishError => due && tick.bytes.Some? && tick.bytes.value > 0 && !tick.writeOk && last
        case Disconnected => false
  {
  }

  /** When a gesture is given up at the latest: its duration, and then the frame's timeout or five seconds. */
  function GivenUpAt(path: Path, start: nat): nat {
    start + path.duration + (if path.waitFrame then path.timeout else 5_000)
  }

  /** In every run the k-th action falls due k intervals after the start, and the deadline does not move. */
  lemma {:induction false} KeepsSchedule(path: Path, interval: nat, start: nat, happenings: seq<Happening>)
    requires WellFormed(path)
    ensures var progress := Run(Start(path, interval, start), happenings).progress;
      progress.Pending? ==> OnSchedule(progress.gesture, path, interval, start)
  {
    StaysOnSchedule(Start(path, interval, start), path, interval, start, happenings);
  }

  predicate OnSchedule(g: Gesture, path: Path, interval: nat, start: nat) {
    && g.path == path && g.interval == interval && g.nextAction <= |path.points|
    && g.nextDue == start + g.nextAction * interval && g.deadline == GivenUpAt(path, start)
  }

  lemma {:induction false} StaysOnSchedule(g: Gesture, path: Path, interval: nat, start: nat,
                                           happenings: seq<Happening>)
    requires Valid(g) && OnSchedule(g, path, interval, start)
    ensures var progress := Run(g, happenings).progress;
      progress.Pending? ==> OnSchedule(progress.gesture, path, interval, start)
    decreases |happenings|
  {
    hide React, OnSchedule;
    if happenings != [] {
      ReactKeepsSchedule(g, path, interval, start, happenings[0]);
      var turn := React(g, happenings[0]);
      if turn.progress.Pending? {
        StaysOnSchedule(turn.progress.gesture, path, interval, start, happenings[1..]);
      }
    }
  }

  lemma ReactKeepsSchedule(g: Gesture, path: Path, interval: nat, start: nat, happening: Happening)
    requires Valid(g) && OnSchedule(g, path, interval, start)
    ensures var progress := React(g, happening).progress;
      progress.Pending? ==> Valid(progress.gesture) && OnSchedule(progress.gesture, path, interval, start)
  {
    assert (g.nextAction + 1) * interval == g.nextAction * interval + interval;
  }

  /** Ticks that come when actions fall due, before the deadline, and whose writes succeed. */
  predicate InTime(ticks: seq<Tick>, from: nat, path: Path, interval: nat, start: nat) {
    forall k :: 0 <= k < |ticks| ==>
      && start + (from + k) * interval <= ticks[k].now < GivenUpAt(path, start)
      && ticks[k].bytes.Some? && ticks[k].writeOk
  }

  function Ticks(ticks: seq<Tick>): seq<Happening> {
    seq(|ticks|, i requires 0 <= i < |ticks| => Ticked(ticks[i]))
  }

  lemma {:induction false} FinishesFrom(g: Gesture, path: Path, interval: nat, start: nat, ticks: seq<Tick>)
    requires Valid(g) && OnSchedule(g, path, interval, start)
    requires InTime(ticks, g.nextAction, path, interval, start) && |ticks| == |path.points| + 1 - g.nextAction
    ensures Run(g, Ticks(ticks)).progress.Finished?
    decreases |ticks|
  {
    assert ticks[0].now >= start + (g.nextAction + 0) * interval;
    assert Ticks(ticks)[1..] == Ticks(ticks[1..]);
    if g.nextAction < |path.points| {
      var next := g.(nextAction := g.nextAction + 1, nextDue := g.nextDue + g.interval);
      assert (g.nextAction + 1) * interval == g.nextAction * interval + interval;
      forall k | 0 <= k < |ticks[1..]|
        ensures start + (next.nextAction + k) * interval <= ticks[1..][k].now
      {
        assert ticks[1..][k] == ticks[k + 1] && next.nextAction + k == g.nextAction + (k + 1);
      }
      FinishesFrom(next, path, interval, start, ticks[1..]);
    }
  }

  /** A gesture whose ticks and writes are in time completes, with all of its actions written. */
  lemma InTimeCompletes(path: Path, interval: nat, start: nat, ticks: seq<Tick>)
    requires WellFormed(path) && |ticks| == |path.points| + 1 && InTime(ticks, 0, path, interval, start)
    ensures var run := Run(Start(path, interval, start), Ticks(ticks));
      run.progress.Finished? && run.written == Script(path)
  {
    FinishesFrom(Start(path, interval, start), path, interval, start, ticks);
    CompletionWritesScript(path, interval, start, Ticks(ticks));
  }

  /** What a request for a gesture must satisfy, in numbers. */
  lemma WellFormedExactly(path: Path)
    ensures WellFormed(path) <==>
      && |path.points| >= 2 && |path.points| < 1001 && path.duration > 0 && path.duration < 30_001
      && (!path.waitFrame || (path.timeout > 0 && path.timeout < 24 * 60 * 60 * 1000 + 1))
  {
  }
}
