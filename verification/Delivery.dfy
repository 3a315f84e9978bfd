/**
 Delivery of events to one subscriber over a connection that may refuse any frame.  Refused events
 are summed up in one overflow range, sent ahead of the next event the connection might accept.
 */
module Delivery {
  import opened Wrappers
  import opened LittleEndian

  datatype Payload =
    | Json(value: string, footprint: nat)
    | Output(startOffset: nat, endOffset: nat, bytes: seq<Byte>)
    | Gap(requested: nat, oldest: nat, current: nat)

  datatype StoredEvent = StoredEvent(sequence: nat, window: Option<nat>, kind: string, payload: Payload, size: nat)

  /** A frame of one subscription, carrying the sequence number the client sees. */
  datatype Frame = EventFrame(event: StoredEvent) | OverflowFrame(first: nat, last: nat)

  function Sequence(frame: Frame): nat {
    match frame
    case EventFrame(event) => event.sequence
    case OverflowFrame(_, last) => last
  }

  datatype Range = Range(first: nat, last: nat)

  /** What a subscription has sent, how often it tried, and what it still owes the client. */
  datatype State = State(overflow: Option<Range>, attempts: nat, delivered: seq<Frame>)

  /** Whether the connection takes a frame, by attempt number: any pattern of refusals. */
  type Acceptance = nat -> bool

  function Offered(state: State, accepts: Acceptance, frame: Frame): State {
    State(state.overflow, state.attempts + 1,
          if accepts(state.attempts) then state.delivered + [frame] else state.delivered)
  }

  /** The state after trying to send one event. */
  function Sent(state: State, accepts: Acceptance, event: StoredEvent): State {
    match state.overflow
    case Some(owed) =>
      var tried := Offered(state, accepts, OverflowFrame(owed.first, owed.last));
      if !accepts(state.attempts) then tried.(overflow := Some(Range(owed.first, event.sequence)))
      else SentClear(tried.(overflow := None), accepts, event)
    case None => SentClear(state, accepts, event)
  }

  function SentClear(state: State, accepts: Acceptance, event: StoredEvent): State {
    var tried := Offered(state, accepts, EventFrame(event));
    if accepts(state.attempts) then tried
    else tried.(overflow := Some(Range(event.sequence, event.sequence)))
  }

  // ---------------------------------------------------------------------------------------------
  // Accounting
  // ---------------------------------------------------------------------------------------------

  predicate Increasing(events: seq<StoredEvent>) {
    forall i, j :: 0 <= i < j < |events| ==> events[i].sequence < events[j].sequence
  }

  /** A range sums up a non-empty tail of the offered events, from the `from`-th on. */
  predicate SumsUp(range: Range, offered: seq<StoredEvent>, from: nat) {
    from < |offered| && offered[from].sequence == range.first && offered[|offered| - 1].sequence == range.last
  }

  /**
   Frames and the pending range, read from the newest back, use up the offered events exactly: an
   event frame accounts for one event, an overflow frame for a run of consecutive offered events.
   */
  ghost predicate Accounts(frames: seq<Frame>, pending: Option<Range>, offered: seq<StoredEvent>)
    decreases |frames|, if pending.Some? then 1 else 0
  {
    match pending
    case Some(range) => exists k: nat :: SumsUp(range, offered, k) && Accounts(frames, None, offered[..k])
    case None =>
      if frames == [] then offered == [] else
        var earlier := frames[..|frames| - 1];
        match frames[|frames| - 1]
        case OverflowFrame(first, last) => Accounts(earlier, Some(Range(first, last)), offered)
        case EventFrame(event) =>
          offered != [] && offered[|offered| - 1] == event && Accounts(earlier, None, offered[..|offered| - 1])
  }

  /** Sending keeps the books balanced, whatever the connection does. */
  lemma SendAccounts(state: State, accepts: Acceptance, offered: seq<StoredEvent>, event: StoredEvent)
    requires Accounts(state.delivered, state.overflow, offered)
    ensures var after := Sent(state, accepts, event);
      Accounts(after.delivered, after.overflow, offered + [event])
  {
    match state.overflow {
      case None => SendClearAccounts(state, accepts, offered, event);
      case Some(owed) =>
        if accepts(state.attempts) {
          var tried := Offered(state, accepts, OverflowFrame(owed.first, owed.last)).(overflow := None);
          assert tried.delivered[..|tried.delivered| - 1] == state.delivered;
          SendClearAccounts(tried, accepts, offered, event);
        } else {
          var k: nat :| SumsUp(owed, offered, k) && Accounts(state.delivered, None, offered[..k]);
          assert (offered + [event])[..k] == offered[..k];
          assert SumsUp(Range(owed.first, event.sequence), offered + [event], k);
        }
    }
  }

  lemma SendClearAccounts(state: State, accepts: Acceptance, offered: seq<StoredEvent>, event: StoredEvent)
    requires state.overflow == None && Accounts(state.delivered, None, offered)
    ensures var after := SentClear(state, accepts, event);
      Accounts(after.delivered, after.overflow, offered + [event])
  {
    var more := offered + [event];
    assert more[..|offered|] == offered;
    if accepts(state.attempts) {
      var frames := state.delivered + [EventFrame(event)];
      assert frames[..|frames| - 1] == state.delivered;
    } else {
      assert SumsUp(Range(event.sequence, event.sequence), more, |offered|);
    }
  }

  // ---------------------------------------------------------------------------------------------
  // What balanced books mean to the client
  // ---------------------------------------------------------------------------------------------

  function Covers(frame: Frame, sequence: nat): nat {
    match frame
    case EventFrame(event) => if event.sequence == sequence then 1 else 0
    case OverflowFrame(first, last) => if first <= sequence <= last then 1 else 0
  }

  /** How many frames speak for a sequence number. */
  function Coverage(frames: seq<Frame>, sequence: nat): nat {
    if frames == [] then 0 else
      Coverage(frames[..|frames| - 1], sequence) + Covers(frames[|frames| - 1], sequence)
  }

  function PendingCoverage(pending: Option<Range>, sequence: nat): nat {
    if pending.Some? && pending.value.first <= sequence <= pending.value.last then 1 else 0
  }

  /** Sequence numbers beyond everything offered are not spoken for. */
  lemma {:induction false} NothingBeyond(frames: seq<Frame>, pending: Option<Range>, offered: seq<StoredEvent>,
                                         sequence: nat)
    requires Accounts(frames, pending, offered) && Increasing(offered)
    requires offered == [] || offered[|offered| - 1].sequence < sequence
    ensures Coverage(frames, sequence) + PendingCoverage(pending, sequence) == 0
    decreases |frames|, if pending.Some? then 1 else 0
  {
    match pending {
      case Some(range) =>
        var k: nat :| SumsUp(range, offered, k) && Accounts(frames, None, offered[..k]);
        NothingBeyond(frames, None, offered[..k], sequence);
      case None =>
        if frames != [] {
          var earlier, newest := frames[..|frames| - 1], frames[|frames| - 1];
          match newest {
            case OverflowFrame(first, last) => NothingBeyond(earlier, Some(Range(first, last)), offered, sequence);
            case EventFrame(event) => NothingBeyond(earlier, None, offered[..|offered| - 1], sequence);
          }
        }
    }
  }

  /**
   Every offered event is exactly one of: delivered, inside one delivered overflow range, or inside
   the pending range.
   */
  lemma {:induction false} ExactlyOnce(frames: seq<Frame>, pending: Option<Range>, offered: seq<StoredEvent>, i: nat)
    requires Accounts(frames, pending, offered) && Increasing(offered) && i < |offered|
    ensures Coverage(frames, offered[i].sequence) + PendingCoverage(pending, offered[i].sequence) == 1
    decreases |frames|, if pending.Some? then 1 else 0
  {
    var sequence := offered[i].sequence;
    match pending {
      case Some(range) =>
        var k: nat :| SumsUp(range, offered, k) && Accounts(frames, None, offered[..k]);
        if i < k {
          ExactlyOnce(frames, None, offered[..k], i);
        } else {
          NothingBeyond(frames, None, offered[..k], sequence);
        }
      case None =>
        var earlier, newest := frames[..|frames| - 1], frames[|frames| - 1];
        match newest {
          case OverflowFrame(first, last) => ExactlyOnce(earlier, Some(Range(first, last)), offered, i);
          case EventFrame(event) =>
            if i < |offered| - 1 {
              ExactlyOnce(earlier, None, offered[..|offered| - 1], i);
            } else {
              NothingBeyond(earlier, None, offered[..|offered| - 1], sequence);
            }
        }
    }
  }

  /** An event frame carries an event that was offered, unchanged. */
  lemma {:induction false} DeliveredWereOffered(frames: seq<Frame>, pending: Option<Range>, offered: seq<StoredEvent>,
                                                i: nat)
    requires Accounts(frames, pending, offered) && i < |frames| && frames[i].EventFrame?
    ensures frames[i].event in offered
    decreases |frames|, if pending.Some? then 1 else 0
  {
    match pending {
      case Some(range) =>
        var k: nat :| SumsUp(range, offered, k) && Accounts(frames, None, offered[..k]);
        DeliveredWereOffered(frames, None, offered[..k], i);
      case None =>
        var earlier, newest := frames[..|frames| - 1], frames[|frames| - 1];
        if i < |earlier| {
          match newest {
            case OverflowFrame(first, last) => DeliveredWereOffered(earlier, Some(Range(first, last)), offered, i);
            case EventFrame(event) => DeliveredWereOffered(earlier, None, offered[..|offered| - 1], i);
          }
        }
    }
  }

  /** No frame is newer than the newest offered event. */
  lemma {:induction false} FramesBounded(frames: seq<Frame>, pending: Option<Range>, offered: seq<StoredEvent>, i: nat)
    requires Accounts(frames, pending, offered) && Increasing(offered) && i < |frames|
    ensures offered != [] && Sequence(frames[i]) <= offered[|offered| - 1].sequence
    ensures pending.Some? ==> Sequence(frames[i]) < pending.value.first
    decreases |frames|, if pending.Some? then 1 else 0
  {
    match pending {
      case Some(range) =>
        var k: nat :| SumsUp(range, offered, k) && Accounts(frames, None, offered[..k]);
        FramesBounded(frames, None, offered[..k], i);
      case None =>
        var earlier, newest := frames[..|frames| - 1], frames[|frames| - 1];
        match newest {
          case OverflowFrame(first, last) =>
            var k: nat :| SumsUp(Range(first, last), offered, k) && Accounts(earlier, None, offered[..k]);
            if i < |earlier| { FramesBounded(earlier, None, offered[..k], i); }
          case EventFrame(event) =>
            if i < |earlier| { FramesBounded(earlier, None, offered[..|offered| - 1], i); }
        }
    }
  }

  /** Frames reach the connection in strictly increasing sequence order. */
  lemma {:induction false} FramesIncrease(frames: seq<Frame>, pending: Option<Range>, offered: seq<StoredEvent>,
                                          i: nat, j: nat)
    requires Accounts(frames, pending, offered) && Increasing(offered) && i < j < |frames|
    ensures Sequence(frames[i]) < Sequence(frames[j])
    decreases |frames|, if pending.Some? then 1 else 0
  {
    match pending {
      case Some(range) =>
        var k: nat :| SumsUp(range, offered, k) && Accounts(frames, None, offered[..k]);
        FramesIncrease(frames, None, offered[..k], i, j);
      case None =>
        var earlier, newest := frames[..|frames| - 1], frames[|frames| - 1];
        match newest {
          case OverflowFrame(first, last) =>
            if j < |earlier| {
              FramesIncrease(earlier, Some(Range(first, last)), offered, i, j);
            } else {
              var k: nat :| SumsUp(Range(first, last), offered, k) && Accounts(earlier, None, offered[..k]);
              FramesBounded(earlier, Some(Range(first, last)), offered, i);
            }
          case EventFrame(event) =>
            if j < |earlier| {
              FramesIncrease(earlier, None, offered[..|offered| - 1], i, j);
            } else {
              FramesBounded(earlier, None, offered[..|offered| - 1], i);
            }
        }
    }
  }

  /** Which frames an event sends, and what is owed afterwards, for each pattern of acceptance. */
  lemma SentExactly(state: State, accepts: Acceptance, event: StoredEvent)
    ensures var after := Sent(state, accepts, event);
      match state.overflow
      case Some(owed) =>
        if accepts(state.attempts) && accepts(state.attempts + 1) then
          after == State(None, state.attempts + 2,
                         state.delivered + [OverflowFrame(owed.first, owed.last), EventFrame(event)])
        else if accepts(state.attempts) then
          after == State(Some(Range(event.sequence, event.sequence)), state.attempts + 2,
                         state.delivered + [OverflowFrame(owed.first, owed.last)])
        else after == State(Some(Range(owed.first, event.sequence)), state.attempts + 1, state.delivered)
      case None =>
        if accepts(state.attempts) then after == State(None, state.attempts + 1, state.delivered + [EventFrame(event)])
        else after == State(Some(Range(event.sequence, event.sequence)), state.attempts + 1, state.delivered)
  {
  }

  lemma IncreasingOn(offered: seq<StoredEvent>, event: StoredEvent)
    requires Increasing(offered) && (offered == [] || offered[|offered| - 1].sequence < event.sequence)
    ensures Increasing(offered + [event])
  {
  }

  /** Every event as its own frame. */
  function Frames(events: seq<StoredEvent>): seq<Frame> {
    seq(|events|, i requires 0 <= i < |events| => EventFrame(events[i]))
  }

  const FRESH: State := State(None, 0, [])

  /** A subscription that has been offered these events, one after the other. */
  function SentAll(state: State, accepts: Acceptance, events: seq<StoredEvent>): State {
    if events == [] then state
    else Sent(SentAll(state, accepts, events[..|events| - 1]), accepts, events[|events| - 1])
  }

  lemma SentOneMore(state: State, accepts: Acceptance, events: seq<StoredEvent>, event: StoredEvent)
    ensures SentAll(state, accepts, events + [event]) == Sent(SentAll(state, accepts, events), accepts, event)
  {
    assert (events + [event])[..|events|] == events;
  }

  lemma {:induction false} SentAllSplits(state: State, accepts: Acceptance, a: seq<StoredEvent>, b: seq<StoredEvent>)
    ensures SentAll(state, accepts, a + b) == SentAll(SentAll(state, accepts, a), accepts, b)
    decreases |b|
  {
    if b == [] {
      assert a + b == a;
    } else {
      assert (a + b)[..|a + b| - 1] == a + b[..|b| - 1];
      SentAllSplits(state, accepts, a, b[..|b| - 1]);
    }
  }

  /** From here on the connection takes every frame. */
  ghost predicate WillingFrom(accepts: Acceptance, attempts: nat) {
    forall n :: n >= attempts ==> accepts(n)
  }

  /** The summary of what is owed, if anything is. */
  function Owed(pending: Option<Range>): seq<Frame> {
    if pending.Some? then [OverflowFrame(pending.value.first, pending.value.last)] else []
  }

  /**
   A connection that has begun to take everything is told once what it missed, with its next event; from then
   on it owes nothing and gets every event as its own frame.
   */
  lemma {:induction false} Recovers(state: State, accepts: Acceptance, events: seq<StoredEvent>)
    requires WillingFrom(accepts, state.attempts) && events != []
    ensures var after := SentAll(state, accepts, events);
      && after.overflow == None && WillingFrom(accepts, after.attempts)
      && after.delivered == state.delivered + Owed(state.overflow) + Frames(events)
    decreases |events|
  {
    var earlier, last := events[..|events| - 1], events[|events| - 1];
    assert Frames(events) == Frames(earlier) + [EventFrame(last)];
    if earlier == [] {
      assert Frames(earlier) == [];
    } else {
      Recovers(state, accepts, earlier);
    }
  }

  // ---------------------------------------------------------------------------------------------
  // The subscriber
  // ---------------------------------------------------------------------------------------------

  class Subscriber {
    const id: nat
    const connectionId: nat
    const window: Option<nat>
    const allWindows: bool
    const kinds: set<string>
    const accepts: Acceptance

    var overflow: Option<Range>
    var attempts: nat
    var delivered: seq<Frame>

    /** Every event ever offered to this subscription. */
    ghost var offered: seq<StoredEvent>

    constructor (id: nat, connectionId: nat, window: Option<nat>, allWindows: bool, kinds: set<string>,
                 accepts: Acceptance)
      ensures Valid() && offered == []
      ensures this.id == id && this.connectionId == connectionId && this.window == window
      ensures this.allWindows == allWindows && this.kinds == kinds && this.accepts == accepts
    {
      this.id, this.connectionId, this.window, this.allWindows := id, connectionId, window, allWindows;
      this.kinds, this.accepts := kinds, accepts;
      overflow, attempts, delivered := None, 0, [];
      offered := [];
    }

    function Current(): State
      reads this
    {
      State(overflow, attempts, delivered)
    }

    ghost predicate Valid()
      reads this
    {
      && Accounts(delivered, overflow, offered) && Increasing(offered)
      && Current() == SentAll(FRESH, accepts, offered)
    }

    /** A filter of kinds lets exactly those through, an empty one every kind; a window's events, or all. */
    predicate Matches(event: StoredEvent): (matches: bool)
      ensures matches && kinds != {} ==> event.kind in kinds
      ensures matches && !allWindows ==> event.window == window
      ensures (kinds == {} || event.kind in kinds) && allWindows ==> matches
      ensures (kinds == {} || event.kind in kinds) && event.window == window ==> matches
    {
      && (kinds != {} ==> event.kind in kinds)
      && (allWindows || event.window == window)
    }

    /** Hand one frame to the connection. */
    method Queue(frame: Frame) returns (ok: bool)
      modifies this`attempts, this`delivered
      ensures ok == accepts(old(attempts))
      ensures Current() == Offered(old(Current()), accepts, frame)
    {
      ok := accepts(attempts);
      attempts := attempts + 1;
      if ok {
        delivered := delivered + [frame];
      }
    }

    method Send(event: StoredEvent)
      requires Valid()
      requires offered == [] || offered[|offered| - 1].sequence < event.sequence
      modifies this
      ensures Valid() && offered == old(offered) + [event]
      ensures Current() == Sent(old(Current()), accepts, event)
      ensures match old(overflow)
              case Some(owed) =>
                if accepts(old(attempts)) && accepts(old(attempts) + 1) then
                  && overflow == None && attempts == old(attempts) + 2
                  && delivered == old(delivered) + [OverflowFrame(owed.first, owed.last), EventFrame(event)]
                else if accepts(old(attempts)) then
                  && overflow == Some(Range(event.sequence, event.sequence)) && attempts == old(attempts) + 2
                  && delivered == old(delivered) + [OverflowFrame(owed.first, owed.last)]
                else
                  && overflow == Some(Range(owed.first, event.sequence)) && attempts == old(attempts) + 1
                  && delivered == old(delivered)
              case None =>
                if accepts(old(attempts)) then
                  && overflow == None && attempts == old(attempts) + 1
                  && delivered == old(delivered) + [EventFrame(event)]
                else
                  && overflow == Some(Range(event.sequence, event.sequence)) && attempts == old(attempts) + 1
                  && delivered == old(delivered)
      ensures old(delivered) <= delivered
    {
      hide Accounts, SentAll, Sent, Increasing;
      ghost var before := Current();
      SendAccounts(before, accepts, offered, event);
      SentOneMore(FRESH, accepts, offered, event);
      SentExactly(before, accepts, event);
      IncreasingOn(offered, event);
      TrySend(event);
      offered := offered + [event];
    }

    /** The summary of what is owed, if anything is, and then the event, as far as the connection takes them. */
    method TrySend(event: StoredEvent)
      modifies this`overflow, this`attempts, this`delivered
      ensures Current() == Sent(old(Current()), accepts, event)
    {
      if overflow.Some? {
        var owed := overflow.value;
        var ok := Queue(OverflowFrame(owed.first, owed.last));
        if !ok {
          overflow := Some(Range(owed.first, event.sequence));
          return;
        }
        overflow := None;
      }
      var ok := Queue(EventFrame(event));
      if !ok {
        overflow := match overflow
          case Some(owed) => Some(Range(owed.first, event.sequence))
          case None => Some(Range(event.sequence, event.sequence));
      }
    }
  }
}
