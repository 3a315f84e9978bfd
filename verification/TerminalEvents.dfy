/**
 Coalesced terminal notifications.  Worker threads and the UI thread share a wake flag and one merged
 output range; each atomic operation on them is one step, and steps of different threads interleave
 freely.
 */
module PendingTerminalEvents {
  import opened Wrappers

  datatype Span = Span(start: nat, end: nat)

  function MergedSpan(pending: Option<Span>, span: Span): Span {
    match pending
    case None => span
    case Some(p) => Span(if p.start <= span.start then p.start else span.start,
                         if p.end >= span.end then p.end else span.end)
  }

  /** The flag after raising it, and whether the caller is the one to post. */
  function Raised(flag: bool): (bool, bool) {
    (true, !flag)
  }

  /** The merged range after a report, and whether the caller is the one to post. */
  function Pushed(pending: Option<Span>, span: Span): (Option<Span>, bool) {
    (Some(MergedSpan(pending, span)), pending.None?)
  }

  function TakenOr(pending: Option<Span>, fallback: Span): Span {
    match pending case Some(p) => p case None => fallback
  }

  /** The merged range of a run of reports. */
  function Merged(reported: seq<Span>): Option<Span> {
    if reported == [] then None
    else Some(MergedSpan(Merged(reported[..|reported| - 1]), reported[|reported| - 1]))
  }

  /** The smallest span around all reports: it covers each, and both of its ends are some report's. */
  predicate Spans(whole: Span, reported: seq<Span>) {
    && (forall i :: 0 <= i < |reported| ==> whole.start <= reported[i].start && reported[i].end <= whole.end)
    && (exists i :: 0 <= i < |reported| && reported[i].start == whole.start)
    && (exists i :: 0 <= i < |reported| && reported[i].end == whole.end)
  }

  lemma {:induction false} MergedSpans(reported: seq<Span>)
    requires reported != []
    ensures Merged(reported).Some? && Spans(Merged(reported).value, reported)
    decreases |reported|
  {
    var earlier, last := reported[..|reported| - 1], reported[|reported| - 1];
    assert reported == earlier + [last];
    if earlier != [] {
      MergedSpans(earlier);
      var before, whole := Merged(earlier).value, Merged(reported).value;
      var i :| 0 <= i < |earlier| && earlier[i].start == before.start;
      var j :| 0 <= j < |earlier| && earlier[j].end == before.end;
      assert reported[if whole.start == before.start then i else |earlier|].start == whole.start;
      assert reported[if whole.end == before.end then j else |earlier|].end == whole.end;
    }
  }

  /** The shared state itself: one flag, and one range behind a lock. */
  class PendingTerminalEvents {
    var wakeup: bool
    var output: Option<Span>

    /** Wake-ups raised since the last acknowledgement, posts still unacknowledged, reports since the last take. */
    ghost var raised: nat
    ghost var outstanding: nat
    ghost var reported: seq<Span>

    ghost predicate Valid()
      reads this
    {
      && (wakeup <==> raised > 0)
      && outstanding == (if raised > 0 then 1 else 0)
      && output == Merged(reported)
    }

    constructor ()
      ensures Valid() && raised == 0 && reported == []
    {
      wakeup, output := false, None;
      raised, outstanding, reported := 0, 0, [];
    }

    /** However many wake-ups are raised before the UI acknowledges, exactly the first is posted. */
    method RaiseWakeup() returns (post: bool)
      requires Valid()
      modifies this`wakeup, this`raised, this`outstanding
      ensures Valid() && raised == old(raised) + 1 && (post <==> old(raised) == 0)
      ensures outstanding == old(outstanding) + (if post then 1 else 0) == 1
      ensures (wakeup, post) == Raised(old(wakeup))
    {
      post := !wakeup;
      wakeup := true;
      raised := raised + 1;
      if post {
        outstanding := outstanding + 1;
      }
    }

    /** The UI takes the wake-up; the next one raised is posted again. */
    method AcknowledgeWakeup()
      requires Valid()
      modifies this`wakeup, this`raised, this`outstanding
      ensures Valid() && raised == 0
    {
      wakeup, raised, outstanding := false, 0, 0;
    }

    /** Merge a span under the lock; of all reports before a take, exactly the first is posted. */
    method PushOutput(span: Span) returns (post: bool)
      requires Valid()
      modifies this`output, this`reported
      ensures Valid() && reported == old(reported) + [span] && (post <==> old(reported) == [])
      ensures (output, post) == Pushed(old(output), span)
    {
      assert (reported + [span])[..|reported|] == reported;
      reported := reported + [span];
      if output.Some? {
        var p := output.value;
        output := Some(Span(if p.start <= span.start then p.start else span.start,
                            if p.end >= span.end then p.end else span.end));
        return false;
      }
      output := Some(span);
      return true;
    }

    /** Take the smallest span around everything reported since the last take. */
    method TakeOutput(fallback: Span) returns (span: Span)
      requires Valid()
      modifies this`output, this`reported
      ensures Valid() && reported == []
      ensures if old(reported) == [] then span == fallback else Spans(span, old(reported))
      ensures span == TakenOr(old(output), fallback)
    {
      if reported != [] {
        MergedSpans(reported);
      }
      span := match output case Some(p) => p case None => fallback;
      output := None;
      reported := [];
    }
  }
}

/** Any number of workers wake one UI thread. */
module WakeProtocol {
  import opened Wrappers
  import PendingTerminalEvents

  /** Where a worker stands between changing the model and being done with it. */
  datatype Worker = Idle | HasChanged | MustPost | PostFailed

  datatype Ui = Waiting | Received | Acknowledged

  /** `changes` counts model changes, `seen` those the UI has drawn. */
  datatype State = State(flag: bool, queued: nat, workers: seq<Worker>, ui: Ui, changes: nat, seen: nat, closed: bool)

  datatype Step =
    | Change(worker: nat)
    | RaiseFlag(worker: nat)
    | Post(worker: nat)
    | LowerFlag(worker: nat)
    | Receive
    | Acknowledge
    | Draw
    | CloseLoop

  function Init(workers: nat): State {
    State(false, 0, seq(workers, _ => Idle), Waiting, 0, 0, false)
  }

  predicate At(s: State, i: nat, w: Worker) {
    i < |s.workers| && s.workers[i] == w
  }

  /** The state after a step, if the step can be taken. */
  function Next(s: State, step: Step): Option<State> {
    match step
    case Change(i) =>
      if At(s, i, Idle) then Some(s.(changes := s.changes + 1, workers := s.workers[i := HasChanged])) else None
    case RaiseFlag(i) =>
      if !At(s, i, HasChanged) then None else
        var (flag, post) := PendingTerminalEvents.Raised(s.flag);
        Some(s.(flag := flag, workers := s.workers[i := if post then MustPost else Idle]))
    case Post(i) =>
      if !At(s, i, MustPost) then None
      else if s.closed then Some(s.(workers := s.workers[i := PostFailed]))
      else Some(s.(queued := s.queued + 1, workers := s.workers[i := Idle]))
    case LowerFlag(i) =>
      if At(s, i, PostFailed) then Some(s.(flag := false, workers := s.workers[i := Idle])) else None
    case Receive =>
      if s.ui == Waiting && s.queued > 0 && !s.closed then Some(s.(queued := s.queued - 1, ui := Received)) else None
    case Acknowledge =>
      if s.ui == Received then Some(s.(flag := false, ui := Acknowledged)) else None
    case Draw =>
      if s.ui == Acknowledged then Some(s.(seen := s.changes, ui := Waiting)) else None
    case CloseLoop => Some(s.(closed := true))
  }

  function Run(s: State, steps: seq<Step>): Option<State>
    decreases |steps|
  {
    if steps == [] then Some(s) else
      match Next(s, steps[0])
      case None => None
      case Some(next) => Run(next, steps[1..])
  }

  /** Workers that hold the right to post, or to undo a post that failed. */
  function Posting(workers: seq<Worker>): nat {
    if workers == [] then 0 else
      Posting(workers[..|workers| - 1]) + (if workers[|workers| - 1] in {MustPost, PostFailed} then 1 else 0)
  }

  /** Wake-ups in flight: being posted, queued, or received and not yet acknowledged. */
  function Outstanding(s: State): nat {
    Posting(s.workers) + s.queued + (if s.ui == Received then 1 else 0)
  }

  predicate SomeoneHasChanged(s: State) {
    exists i :: 0 <= i < |s.workers| && s.workers[i] == HasChanged
  }

  /** The flag is up exactly while one wake-up is outstanding, and no change is left unannounced. */
  predicate Safe(s: State) {
    && Outstanding(s) == (if s.flag then 1 else 0)
    && s.seen <= s.changes
    && (forall i :: 0 <= i < |s.workers| && s.workers[i] == PostFailed ==> s.closed)
    && (s.seen < s.changes ==> s.closed || s.flag || s.ui == Acknowledged || SomeoneHasChanged(s))
  }

  lemma {:induction false} PostingUpdate(workers: seq<Worker>, i: nat, w: Worker)
    requires i < |workers|
    ensures Posting(workers[i := w]) + (if workers[i] in {MustPost, PostFailed} then 1 else 0)
            == Posting(workers) + (if w in {MustPost, PostFailed} then 1 else 0)
    decreases |workers|
  {
    var last := |workers| - 1;
    if i == last {
      assert workers[i := w][..last] == workers[..last];
    } else {
      assert workers[i := w][..last] == workers[..last][i := w];
      PostingUpdate(workers[..last], i, w);
    }
  }

  lemma {:induction false} IdleNotPosting(workers: nat)
    ensures Posting(seq(workers, _ => Idle)) == 0
    decreases workers
  {
    if workers > 0 {
      var all := seq(workers, _ => Idle);
      assert all[..workers - 1] == seq(workers - 1, _ => Idle);
      IdleNotPosting(workers - 1);
    }
  }

  lemma StepSafe(s: State, step: Step)
    requires Safe(s) && Next(s, step).Some?
    ensures Safe(Next(s, step).value)
  {
    hide Posting;
    var next := Next(s, step).value;
    match step {
      case Change(i) =>
        PostingUpdate(s.workers, i, HasChanged);
        assert next.workers[i] == HasChanged;
      case RaiseFlag(i) =>
        PostingUpdate(s.workers, i, if s.flag then Idle else MustPost);
      case Post(i) =>
        PostingUpdate(s.workers, i, if s.closed then PostFailed else Idle);
        OneMustPost(s, i);
      case LowerFlag(i) =>
        PostingUpdate(s.workers, i, Idle);
        OneMustPost(s, i);
      case _ =>
    }
    if SomeoneHasChanged(s) { OthersStillHaveChanged(s, step); }
  }

  lemma {:induction false} OneMustPost(s: State, i: nat)
    requires i < |s.workers| && s.workers[i] in {MustPost, PostFailed}
    ensures Posting(s.workers) >= 1
  {
    PostingUpdate(s.workers, i, Idle);
  }

  /** A step of one worker does not touch what another has still to announce. */
  lemma OthersStillHaveChanged(s: State, step: Step)
    requires Next(s, step).Some? && SomeoneHasChanged(s)
    ensures SomeoneHasChanged(Next(s, step).value) || Next(s, step).value.flag
  {
    var next := Next(s, step).value;
    var j :| 0 <= j < |s.workers| && s.workers[j] == HasChanged;
    if step.RaiseFlag? && step.worker == j {
      assert next.flag;
    } else {
      assert next.workers[j] == HasChanged;
    }
  }

  /** In every reachable state the protocol is safe. */
  lemma {:induction false} RunSafe(s: State, steps: seq<Step>)
    requires Safe(s) && Run(s, steps).Some?
    ensures Safe(Run(s, steps).value)
    decreases |steps|
  {
    if steps != [] {
      StepSafe(s, steps[0]);
      RunSafe(Next(s, steps[0]).value, steps[1..]);
    }
  }

  lemma ReachableSafe(workers: nat, steps: seq<Step>)
    requires Run(Init(workers), steps).Some?
    ensures Safe(Run(Init(workers), steps).value)
  {
    IdleNotPosting(workers);
    RunSafe(Init(workers), steps);
  }

  /** Once everything has come to rest, the UI has drawn every change. */
  lemma NothingUnseenAtRest(workers: nat, steps: seq<Step>)
    requires Run(Init(workers), steps).Some?
    ensures var s := Run(Init(workers), steps).value;
      (!s.closed && s.queued == 0 && s.ui == Waiting && forall i :: 0 <= i < |s.workers| ==> s.workers[i] == Idle)
      ==> s.seen == s.changes
  {
    ReachableSafe(workers, steps);
    var s := Run(Init(workers), steps).value;
    if forall i :: 0 <= i < |s.workers| ==> s.workers[i] == Idle {
      assert s.workers == seq(|s.workers|, _ => Idle);
      IdleNotPosting(|s.workers|);
    }
  }

  // ---------------------------------------------------------------------------------------------
  // Nothing gets stuck
  // ---------------------------------------------------------------------------------------------

  predicate AtRest(s: State) {
    s.queued == 0 && s.ui == Waiting && forall i :: 0 <= i < |s.workers| ==> s.workers[i] == Idle
  }

  function Weight(w: Worker): nat {
    match w
    case Idle => 0
    case HasChanged => 7
    case MustPost => 6
    case PostFailed => 1
  }

  function Weights(workers: seq<Worker>): nat {
    if workers == [] then 0 else Weights(workers[..|workers| - 1]) + Weight(workers[|workers| - 1])
  }

  /** What is left to do until everything is at rest. */
  function WorkLeft(s: State): nat {
    Weights(s.workers) + 5 * s.queued + (match s.ui case Waiting => 0 case Received => 2 case Acknowledged => 1)
  }

  lemma {:induction false} WeightsUpdate(workers: seq<Worker>, i: nat, w: Worker)
    requires i < |workers|
    ensures Weights(workers[i := w]) + Weight(workers[i]) == Weights(workers) + Weight(w)
    decreases |workers|
  {
    var last := |workers| - 1;
    if i == last {
      assert workers[i := w][..last] == workers[..last];
    } else {
      assert workers[i := w][..last] == workers[..last][i := w];
      WeightsUpdate(workers[..last], i, w);
    }
  }

  /** While the loop is open and something is left to do, some thread can go on, without a new change. */
  lemma CanGoOn(s: State) returns (step: Step)
    requires Safe(s) && !s.closed && !AtRest(s)
    ensures !step.Change? && !step.CloseLoop?
    ensures Next(s, step).Some? && WorkLeft(Next(s, step).value) < WorkLeft(s)
    ensures var next := Next(s, step).value; !next.closed && next.changes == s.changes
  {
    if s.ui == Received {
      step := Acknowledge;
    } else if s.ui == Acknowledged {
      step := Draw;
    } else if s.queued > 0 {
      step := Receive;
    } else {
      var i :| 0 <= i < |s.workers| && s.workers[i] != Idle;
      step := if s.workers[i] == HasChanged then RaiseFlag(i) else Post(i);
      WeightsUpdate(s.workers, i, if s.workers[i] == HasChanged && !s.flag then MustPost else Idle);
    }
  }

  /** From every safe state of an open loop, the threads can come to rest, and then every change has been drawn. */
  lemma {:induction false} ComesToRest(s: State) returns (steps: seq<Step>)
    requires Safe(s) && !s.closed
    ensures Run(s, steps).Some?
    ensures var end := Run(s, steps).value; AtRest(end) && !end.closed && end.changes == s.changes == end.seen
    decreases WorkLeft(s)
  {
    hide Safe, WorkLeft, Next;
    if AtRest(s) {
      steps := [];
      RestIsDrawn(s);
    } else {
      var step := CanGoOn(s);
      StepSafe(s, step);
      var rest := ComesToRest(Next(s, step).value);
      steps := [step] + rest;
      assert steps[0] == step && steps[1..] == rest;
    }
  }

  lemma RestIsDrawn(s: State)
    requires Safe(s) && !s.closed && AtRest(s)
    ensures s.seen == s.changes
  {
    assert s.workers == seq(|s.workers|, _ => Idle);
    IdleNotPosting(|s.workers|);
  }

  lemma {:induction false} RunSplits(s: State, steps: seq<Step>, more: seq<Step>)
    requires Run(s, steps).Some?
    ensures Run(s, steps + more) == Run(Run(s, steps).value, more)
    decreases |steps|
  {
    if steps == [] {
      assert steps + more == more;
    } else {
      assert (steps + more)[0] == steps[0] && (steps + more)[1..] == steps[1..] + more;
      RunSplits(Next(s, steps[0]).value, steps[1..], more);
    }
  }

  /** The loop is closed only by the step that closes it. */
  lemma {:induction false} ClosedExactly(s: State, steps: seq<Step>)
    requires Run(s, steps).Some?
    ensures Run(s, steps).value.closed <==> s.closed || CloseLoop in steps
    decreases |steps|
  {
    if steps != [] {
      assert steps == [steps[0]] + steps[1..];
      ClosedExactly(Next(s, steps[0]).value, steps[1..]);
    }
  }

  /** Whatever has happened in an open loop, the threads can go on until every change has been drawn. */
  lemma EveryChangeDrawn(workers: nat, steps: seq<Step>) returns (more: seq<Step>)
    requires Run(Init(workers), steps).Some? && CloseLoop !in steps
    ensures Run(Init(workers), steps + more).Some?
    ensures var s, end := Run(Init(workers), steps).value, Run(Init(workers), steps + more).value;
      AtRest(end) && end.seen == end.changes == s.changes
  {
    ReachableSafe(workers, steps);
    ClosedExactly(Init(workers), steps);
    more := ComesToRest(Run(Init(workers), steps).value);
    RunSplits(Init(workers), steps, more);
  }
}

/** The PTY worker reports contiguous spans of output; the UI takes merged ranges. */
module OutputProtocol {
  import opened Wrappers
  import opened PendingTerminalEvents

  /**
   `produced` is the end of everything reported, `taken` the ranges the UI has taken.
   */
  datatype State = State(pending: Option<Span>, posting: Option<Span>, queue: seq<Span>, received: Option<Span>,
                         produced: nat, taken: seq<Span>, closed: bool, undelivered: bool)

  datatype Step = Report(length: nat) | Post | Receive | Take | CloseLoop

  function Init(): State {
    State(None, None, [], None, 0, [], false, false)
  }

  function Next(s: State, step: Step): Option<State> {
    match step
    case Report(length) =>
      if s.posting.Some? then None else
        var span := Span(s.produced, s.produced + length);
        var (pending, post) := Pushed(s.pending, span);
        Some(s.(pending := pending,
                posting := if post then Some(span) else None,
                produced := s.produced + length))
    case Post =>
      if s.posting.None? then None
      else if s.closed then Some(s.(posting := None, undelivered := true))
      else Some(s.(posting := None, queue := s.queue + [s.posting.value]))
    case Receive =>
      if s.received.None? && s.queue != [] && !s.closed then
        Some(s.(received := Some(s.queue[0]), queue := s.queue[1..]))
      else None
    case Take =>
      if s.received.None? then None else
        var range := TakenOr(s.pending, s.received.value);
        Some(s.(pending := None, received := None, taken := s.taken + [range]))
    case CloseLoop => Some(s.(closed := true))
  }

  function Run(s: State, steps: seq<Step>): Option<State>
    decreases |steps|
  {
    if steps == [] then Some(s) else
      match Next(s, steps[0])
      case None => None
      case Some(next) => Run(next, steps[1..])
  }

  function Outstanding(s: State): nat {
    (if s.posting.Some? then 1 else 0) + |s.queue| + (if s.received.Some? then 1 else 0)
  }

  /** Ranges that lie end to end from 0. */
  function TiledEnd(ranges: seq<Span>): Option<nat> {
    if ranges == [] then Some(0) else
      var last := ranges[|ranges| - 1];
      if TiledEnd(ranges[..|ranges| - 1]) == Some(last.start) && last.start <= last.end then Some(last.end) else None
  }

  /**
   The merged range is present exactly while one report is outstanding (or could not be delivered
   because the loop is gone), and taken and pending ranges together partition what was produced.
   */
  predicate Safe(s: State) {
    && Outstanding(s) <= 1
    && (s.pending.Some? <==> Outstanding(s) == 1 || s.undelivered)
    && (s.undelivered ==> Outstanding(s) == 0 && s.closed)
    && TiledEnd(s.taken) == Some(if s.pending.Some? then s.pending.value.start else s.produced)
    && (s.pending.Some? ==> s.pending.value.start <= s.pending.value.end == s.produced)
  }

  lemma StepSafe(s: State, step: Step)
    requires Safe(s) && Next(s, step).Some?
    ensures Safe(Next(s, step).value)
  {
    if step.Take? {
      var next := Next(s, step).value;
      assert next.taken[..|s.taken|] == s.taken;
    }
  }

  lemma {:induction false} RunSafe(s: State, steps: seq<Step>)
    requires Safe(s) && Run(s, steps).Some?
    ensures Safe(Run(s, steps).value)
    decreases |steps|
  {
    if steps != [] {
      StepSafe(s, steps[0]);
      RunSafe(Next(s, steps[0]).value, steps[1..]);
    }
  }

  /** Whatever the interleaving, no span is lost, repeated or taken from the event instead. */
  lemma ReachableSafe(steps: seq<Step>)
    requires Run(Init(), steps).Some?
    ensures Safe(Run(Init(), steps).value)
  {
    RunSafe(Init(), steps);
  }

  /** The UI never has to use the range in the event itself: when it takes, a merged range is there. */
  lemma NeverFallsBack(steps: seq<Step>)
    requires Run(Init(), steps).Some?
    ensures var s := Run(Init(), steps).value;
      s.received.Some? ==> s.pending.Some? && Next(s, Take).value.taken == s.taken + [s.pending.value]
  {
    ReachableSafe(steps);
  }

  /** What it is for ranges to lie end to end from 0 to `end`. */
  lemma {:induction false} TiledExactly(ranges: seq<Span>, end: nat)
    ensures TiledEnd(ranges) == Some(end) <==>
      && (forall i :: 0 <= i < |ranges| ==> ranges[i].start <= ranges[i].end)
      && (forall i :: 0 < i < |ranges| ==> ranges[i - 1].end == ranges[i].start)
      && (if ranges == [] then end == 0 else ranges[0].start == 0 && ranges[|ranges| - 1].end == end)
    decreases |ranges|
  {
    if ranges != [] {
      TiledExactly(ranges[..|ranges| - 1], ranges[|ranges| - 1].start);
    }
  }

  /** Once everything has come to rest, the taken ranges partition everything produced. */
  lemma EverythingTakenAtRest(steps: seq<Step>)
    requires Run(Init(), steps).Some?
    ensures var s := Run(Init(), steps).value;
      (!s.closed && s.posting.None? && s.queue == [] && s.received.None?) ==> TiledEnd(s.taken) == Some(s.produced)
  {
    ReachableSafe(steps);
  }

  // ---------------------------------------------------------------------------------------------
  // Nothing gets stuck
  // ---------------------------------------------------------------------------------------------

  predicate AtRest(s: State) {
    s.posting.None? && s.queue == [] && s.received.None?
  }

  /** What is left to do until everything is at rest. */
  function WorkLeft(s: State): nat {
    (if s.posting.Some? then 3 else 0) + 2 * |s.queue| + (if s.received.Some? then 1 else 0)
  }

  /** While the loop is open and a report is outstanding, some thread can go on, without a new report. */
  lemma CanGoOn(s: State) returns (step: Step)
    requires !s.closed && !AtRest(s)
    ensures !step.Report? && !step.CloseLoop?
    ensures Next(s, step).Some? && WorkLeft(Next(s, step).value) < WorkLeft(s)
    ensures !Next(s, step).value.closed && Next(s, step).value.produced == s.produced
  {
    step := if s.posting.Some? then Post else if s.received.Some? then Take else Receive;
  }

  /** From every safe state of an open loop, everything produced so far can be taken. */
  lemma {:induction false} ComesToRest(s: State) returns (steps: seq<Step>)
    requires Safe(s) && !s.closed
    ensures Run(s, steps).Some?
    ensures var end := Run(s, steps).value;
      AtRest(end) && !end.closed && end.produced == s.produced && TiledEnd(end.taken) == Some(s.produced)
    decreases WorkLeft(s)
  {
    hide WorkLeft, Next, TiledEnd;
    if AtRest(s) {
      steps := [];
    } else {
      var step := CanGoOn(s);
      StepSafe(s, step);
      var rest := ComesToRest(Next(s, step).value);
      steps := [step] + rest;
      assert steps[0] == step && steps[1..] == rest;
    }
  }

  lemma {:induction false} RunSplits(s: State, steps: seq<Step>, more: seq<Step>)
    requires Run(s, steps).Some?
    ensures Run(s, steps + more) == Run(Run(s, steps).value, more)
    decreases |steps|
  {
    if steps == [] {
      assert steps + more == more;
    } else {
      assert (steps + more)[0] == steps[0] && (steps + more)[1..] == steps[1..] + more;
      RunSplits(Next(s, steps[0]).value, steps[1..], more);
    }
  }

  /** The loop is closed only by the step that closes it. */
  lemma {:induction false} ClosedExactly(s: State, steps: seq<Step>)
    requires Run(s, steps).Some?
    ensures Run(s, steps).value.closed <==> s.closed || CloseLoop in steps
    decreases |steps|
  {
    if steps != [] {
      assert steps == [steps[0]] + steps[1..];
      ClosedExactly(Next(s, steps[0]).value, steps[1..]);
    }
  }

  /** Whatever has happened in an open loop, the threads can go on until everything produced has been taken. */
  lemma EverythingTaken(steps: seq<Step>) returns (more: seq<Step>)
    requires Run(Init(), steps).Some? && CloseLoop !in steps
    ensures Run(Init(), steps + more).Some?
    ensures var s, end := Run(Init(), steps).value, Run(Init(), steps + more).value;
      AtRest(end) && end.produced == s.produced && TiledEnd(end.taken) == Some(s.produced)
  {
    ReachableSafe(steps);
    ClosedExactly(Init(), steps);
    more := ComesToRest(Run(Init(), steps).value);
    RunSplits(Init(), steps, more);
  }
}
