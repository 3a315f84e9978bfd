/**
 The automation hub: a sequence of events, a replay ring under a count budget and a byte budget,
 and the subscriptions that follow the sequence from some point on.
 */
module EventHub {
  import opened Wrappers
  import opened LittleEndian
  import opened Delivery

  const REPLAY_COUNT: nat := 4096
  const REPLAY_BYTES: nat := 4 * 1024 * 1024
  const OUTPUT_CHUNK: nat := 64 * 1024
  const MAX_SUBSCRIPTIONS: nat := 32

  const EVENT_KINDS: set<string> :=
    {"screen_changed", "output", "frame_presented", "title_changed", "directory_changed", "progress_changed",
     "focus_changed", "resized", "moved", "bell", "child_exit", "window_created", "window_closed",
     "client_fault", "client_recovered", "overflow"}

  datatype HubError = LimitExceeded | UnknownKind | SinceTooNew

  datatype Request = Request(target: Option<nat>, allWindows: bool, kinds: set<string>, since: Option<nat>,
                             accepts: Acceptance)

  /** The memory an event is charged for. */
  function EncodedSize(payload: Payload): nat {
    match payload
    case Json(_, footprint) => footprint
    case Output(_, _, bytes) => (|bytes| + 2) / 3 * 4
    case Gap(_, _, _) => 0
  }

  function EventOf(sequence: nat, window: Option<nat>, kind: string, payload: Payload): StoredEvent {
    StoredEvent(sequence, window, kind, payload, EncodedSize(payload) + |kind| + 128)
  }

  function TotalSize(events: seq<StoredEvent>): nat {
    if events == [] then 0 else events[0].size + TotalSize(events[1..])
  }

  lemma {:induction false} TotalSizeAppend(events: seq<StoredEvent>, event: StoredEvent)
    ensures TotalSize(events + [event]) == TotalSize(events) + event.size
    decreases |events|
  {
    if events == [] {
      assert events + [event] == [event];
    } else {
      assert (events + [event])[1..] == events[1..] + [event];
      TotalSizeAppend(events[1..], event);
    }
  }

  predicate WithinBudget(events: seq<StoredEvent>) {
    |events| <= REPLAY_COUNT && TotalSize(events) <= REPLAY_BYTES
  }

  /** The ring is the longest tail of the log that fits both budgets; `evicted` events are gone. */
  ghost predicate IsReplayOf(replay: seq<StoredEvent>, log: seq<StoredEvent>, evicted: nat) {
    && evicted <= |log|
    && replay == log[evicted..]
    && WithinBudget(replay)
    && forall k :: 0 <= k < evicted ==> !WithinBudget(log[k..])
  }

  /** The n-th event ever emitted has sequence number n. */
  predicate Numbered(log: seq<StoredEvent>) {
    forall i :: 0 <= i < |log| ==> log[i].sequence == i + 1
  }

  /** The events a subscription asked for, in order. */
  function Matching(s: Subscriber, events: seq<StoredEvent>): (matching: seq<StoredEvent>)
    ensures forall e | e in matching :: e in events && s.Matches(e)
  {
    if events == [] then [] else
      var earlier := Matching(s, events[..|events| - 1]);
      if s.Matches(events[|events| - 1]) then earlier + [events[|events| - 1]] else earlier
  }

  lemma MatchingAppend(s: Subscriber, events: seq<StoredEvent>, event: StoredEvent)
    ensures Matching(s, events + [event]) == WithMatch(s, Matching(s, events), event)
  {
    assert (events + [event])[..|events|] == events;
  }

  lemma MatchingNothing(s: Subscriber)
    ensures Matching(s, []) == []
  {
  }

  lemma MatchingIsPast(s: Subscriber, log: seq<StoredEvent>, since: nat, upTo: nat)
    requires Numbered(log) && since <= upTo <= |log|
    ensures var m := Matching(s, log[since..upTo]); m == [] || m[|m| - 1].sequence <= upTo
  {
    var m := Matching(s, log[since..upTo]);
    assert m == [] || m[|m| - 1] in log[since..upTo];
  }

  function WithMatch(s: Subscriber, offered: seq<StoredEvent>, event: StoredEvent): seq<StoredEvent> {
    if s.Matches(event) then offered + [event] else offered
  }

  predicate DistinctIds(subscribers: seq<Subscriber>) {
    forall i, j :: 0 <= i < j < |subscribers| ==> subscribers[i].id != subscribers[j].id
  }

  /** What a new event does to a subscription: the frames it sends and what it owes; earlier frames stay. */
  predicate Receives(s: Subscriber, before: State, after: State, event: StoredEvent) {
    && after == (if s.Matches(event) then Sent(before, s.accepts, event) else before)
    && before.delivered <= after.delivered
  }

  /** Where a subscription started: what it was told first, and the log position it follows from. */
  datatype Start = Start(preamble: seq<StoredEvent>, from: nat)

  /** A subscription has been offered its preamble and then every matching event since its start. */
  ghost predicate Tracks(s: Subscriber, offered: seq<StoredEvent>, start: Start, log: seq<StoredEvent>) {
    && start.from <= |log|
    && offered == start.preamble + Matching(s, log[start.from..])
    && (forall e | e in start.preamble :: e.sequence <= start.from)
  }

  lemma TracksAppend(s: Subscriber, offered: seq<StoredEvent>, start: Start, log: seq<StoredEvent>, event: StoredEvent)
    requires Tracks(s, offered, start, log)
    ensures Tracks(s, WithMatch(s, offered, event), start, log + [event])
  {
    assert (log + [event])[start.from..] == log[start.from..] + [event];
    MatchingAppend(s, log[start.from..], event);
  }

  /** Everything a subscription has been offered so far is in the past. */
  lemma OfferedIsPast(s: Subscriber, offered: seq<StoredEvent>, start: Start, log: seq<StoredEvent>)
    requires Tracks(s, offered, start, log) && Numbered(log)
    ensures forall e | e in offered :: e.sequence <= |log|
  {
    forall e | e in offered
      ensures e.sequence <= |log|
    {
      if e !in start.preamble {
        assert e in Matching(s, log[start.from..]);
        assert e in log;
      }
    }
  }

  /** No longer tail of a longer log fits the budgets either. */
  lemma StillTooLong(log: seq<StoredEvent>, event: StoredEvent, k: nat)
    requires k < |log| && !WithinBudget(log[k..])
    ensures !WithinBudget((log + [event])[k..])
  {
    assert (log + [event])[k..] == log[k..] + [event];
    TotalSizeAppend(log[k..], event);
  }

  class AutomationHub {
    var eventSequence: nat
    var replay: seq<StoredEvent>
    var replayBytes: nat
    var subscribers: seq<Subscriber>
    var nextSubscriptionId: nat

    /** Every event ever emitted. */
    ghost var log: seq<StoredEvent>
    ghost var evicted: nat
    ghost var starts: map<Subscriber, Start>

    constructor ()
      ensures Valid() && log == [] && subscribers == []
    {
      eventSequence, replay, replayBytes, subscribers, nextSubscriptionId := 0, [], 0, [], 0;
      log, evicted, starts := [], 0, map[];
    }

    ghost predicate RingValid()
      reads this
    {
      && eventSequence == |log|
      && Numbered(log)
      && IsReplayOf(replay, log, evicted)
      && replayBytes == TotalSize(replay)
    }

    /** Subscriptions are distinct objects with distinct ids. */
    ghost predicate SubscribersDistinct()
      reads this
    {
      && DistinctIds(subscribers)
      && (forall s | s in subscribers :: s.id <= nextSubscriptionId && s in starts)
      && |subscribers| <= MAX_SUBSCRIPTIONS
    }

    ghost predicate Follows(s: Subscriber)
      requires s in starts
      reads this, s
    {
      s.Valid() && Tracks(s, s.offered, starts[s], log)
    }

    ghost function Members(): set<Subscriber>
      reads this
    {
      set s | s in subscribers
    }

    ghost predicate Valid()
      reads this, subscribers
    {
      && RingValid()
      && SubscribersDistinct()
      && forall s | s in subscribers :: Follows(s)
    }

    /** Offer a new event to every subscription that matches it. */
    method Deliver(event: StoredEvent)
      requires Numbered(log) && SubscribersDistinct() && event.sequence == |log| + 1
      requires forall s | s in subscribers :: Follows(s)
      modifies subscribers
      ensures forall s | s in subscribers :: s.Valid() && s.offered == WithMatch(s, old(s.offered), event)
      ensures forall s | s in subscribers :: Receives(s, old(s.Current()), s.Current(), event)
    {
      hide Receives, Tracks, Subscriber.Valid, WithMatch, Numbered;
      for i := 0 to |subscribers|
        invariant forall k :: 0 <= k < i ==>
          && subscribers[k].Valid()
          && Receives(subscribers[k], old(subscribers[k].Current()), subscribers[k].Current(), event)
          && subscribers[k].offered == WithMatch(subscribers[k], old(subscribers[k].offered), event)
        invariant forall k :: i <= k < |subscribers| ==> unchanged(subscribers[k])
      {
        assert subscribers[i] in subscribers && Follows(subscribers[i]);
        DeliverTo(subscribers[i], event);
      }
    }

    /** Offer a new event to one subscription, if it matches. */
    method DeliverTo(s: Subscriber, event: StoredEvent)
      requires Numbered(log) && event.sequence == |log| + 1 && s in starts && Follows(s)
      modifies s
      ensures s.Valid() && s.offered == WithMatch(s, old(s.offered), event)
      ensures Receives(s, old(s.Current()), s.Current(), event)
    {
      hide Accounts, Sent, SentAll;
      if s.Matches(event) {
        OfferedIsPast(s, s.offered, starts[s], log);
        assert s.offered == [] || s.offered[|s.offered| - 1] in s.offered;
        s.Send(event);
      }
    }

    /** Evict from the front until both budgets hold. */
    method Evict()
      requires evicted <= |log| && replay == log[evicted..] && replayBytes == TotalSize(replay)
      requires forall k :: 0 <= k < evicted ==> !WithinBudget(log[k..])
      modifies this`replay, this`replayBytes, this`evicted
      ensures IsReplayOf(replay, log, evicted) && replayBytes == TotalSize(replay)
    {
      while |replay| > REPLAY_COUNT || replayBytes > REPLAY_BYTES
        invariant evicted <= |log| && replay == log[evicted..] && replayBytes == TotalSize(replay)
        invariant forall k :: 0 <= k < evicted ==> !WithinBudget(log[k..])
        decreases |replay|
      {
        var oldest := replay[0];
        replay := replay[1..];
        replayBytes := replayBytes - oldest.size;
        evicted := evicted + 1;
      }
    }

    /** Move an event into the ring. */
    method Retain(event: StoredEvent)
      requires eventSequence == |log| + 1 == event.sequence && Numbered(log)
      requires IsReplayOf(replay, log, evicted) && replayBytes == TotalSize(replay)
      modifies this`replay, this`replayBytes, this`log, this`evicted
      ensures RingValid() && log == old(log) + [event]
    {
      forall k | 0 <= k < evicted
        ensures !WithinBudget((log + [event])[k..])
      {
        StillTooLong(log, event, k);
      }
      assert (log + [event])[evicted..] == log[evicted..] + [event];
      TotalSizeAppend(replay, event);
      log := log + [event];
      replayBytes := replayBytes + event.size;
      replay := replay + [event];
      Evict();
    }

    /** Deliver an event not yet in the log, then drop the subscriptions of `closed` connections. */
    method Announce(event: StoredEvent, closed: set<nat>)
      requires Numbered(log) && SubscribersDistinct() && event.sequence == |log| + 1
      requires forall s | s in subscribers :: Follows(s)
      modifies this`subscribers, subscribers
      ensures subscribers == Alive(old(subscribers), closed) && SubscribersDistinct()
      ensures forall s | s in subscribers :: s.Valid() && Tracks(s, s.offered, starts[s], log + [event])
      ensures forall s | s in subscribers :: Receives(s, old(s.Current()), s.Current(), event)
    {
      hide Tracks, Subscriber.Valid;
      Deliver(event);
      forall s | s in subscribers
        ensures Tracks(s, s.offered, starts[s], log + [event])
      {
        TracksAppend(s, old(s.offered), starts[s], log, event);
      }
      subscribers := Alive(subscribers, closed);
    }

    /** `closed` are the connections found dead after delivery. */
    method EmitPayload(window: Option<nat>, kind: string, payload: Payload, closed: set<nat>) returns (sequence: nat)
      requires Valid()
      modifies this, Members()
      ensures Valid() && sequence == |log|
      ensures log == old(log) + [EventOf(|old(log)| + 1, window, kind, payload)]
      ensures subscribers == Alive(old(subscribers), closed)
      ensures Members() <= old(Members())
      ensures starts == old(starts) && nextSubscriptionId == old(nextSubscriptionId)
      ensures var event := EventOf(|old(log)| + 1, window, kind, payload);
        forall s | s in subscribers :: Receives(s, old(s.Current()), s.Current(), event)
    {
      hide Tracks, Subscriber.Valid, IsReplayOf;
      eventSequence := eventSequence + 1;
      var event := EventOf(eventSequence, window, kind, payload);
      Announce(event, closed);
      Retain(event);
      sequence := eventSequence;
    }

    /** Split output into bounded events; `closed` gives the dead connections after each chunk. */
    method EmitOutput(window: nat, start: nat, bytes: seq<Byte>, closed: nat -> set<nat>)
      requires Valid()
      modifies this, Members()
      ensures Valid() && log == old(log) + OutputEvents(|old(log)|, window, start, bytes)
      ensures starts == old(starts) && nextSubscriptionId == old(nextSubscriptionId)
      ensures forall s | s in subscribers :: s in old(subscribers) && old(s.delivered) <= s.delivered
      ensures forall s | s in old(subscribers) ::
        s in subscribers <==> forall k :: 0 <= k < |log| - |old(log)| ==> s.connectionId !in closed(k)
    {
      hide Tracks, Subscriber.Valid, IsReplayOf, Numbered, OutputEvents, SubscribersDistinct, EventOf;
      var rest, chunkIndex: nat := bytes, 0;
      ghost var first := |log|;
      while rest != []
        invariant Valid()
        invariant |log| == first + chunkIndex
        invariant log + OutputEvents(|log|, window, start + chunkIndex * OUTPUT_CHUNK, rest)
                  == old(log) + OutputEvents(first, window, start, bytes)
        invariant starts == old(starts) && nextSubscriptionId == old(nextSubscriptionId)
        invariant forall s | s in subscribers :: s in old(subscribers) && old(s.delivered) <= s.delivered
        invariant forall s | s in old(subscribers) ::
          s in subscribers <==> forall k :: 0 <= k < chunkIndex ==> s.connectionId !in closed(k)
        decreases |rest|
      {
        var length := if |rest| < OUTPUT_CHUNK then |rest| else OUTPUT_CHUNK;
        var chunk := rest[..length];
        var chunkStart := start + chunkIndex * OUTPUT_CHUNK;
        FirstChunk(log, window, chunkStart, rest, start + (chunkIndex + 1) * OUTPUT_CHUNK);
        var _ := EmitPayload(Some(window), "output", Output(chunkStart, chunkStart + |chunk|, chunk),
                             closed(chunkIndex));
        rest := rest[length..];
        chunkIndex := chunkIndex + 1;
      }
      NoChunk(log, window, start + chunkIndex * OUTPUT_CHUNK);
    }

    method Subscribe(connectionId: nat, request: Request) returns (result: Result<nat, HubError>)
      requires Valid()
      modifies this`subscribers, this`nextSubscriptionId, this`starts
      ensures Valid()
      ensures |old(subscribers)| >= 32 ==> result == Err(LimitExceeded)
      ensures |old(subscribers)| < 32 && !(request.kinds <= EVENT_KINDS) ==> result == Err(UnknownKind)
      ensures |old(subscribers)| < 32 && request.kinds <= EVENT_KINDS ==>
        result == if request.since.Some? && request.since.value > |log| then Err(SinceTooNew)
                  else Ok(old(nextSubscriptionId) + 1)
      ensures result.Err? ==> unchanged(this)
      ensures result.Ok? ==> |subscribers| == |old(subscribers)| + 1 && old(subscribers) < subscribers
      ensures result.Ok? ==> var s := subscribers[|subscribers| - 1];
        && fresh(s) && s.connectionId == connectionId && s.id == result.value
        && s.window == request.target && s.allWindows == request.allWindows && s.kinds == request.kinds
        && s.accepts == request.accepts
        && s in starts && starts == old(starts)[s := starts[s]]
        && Started(s, s.offered, request.target, request.since, starts[s], log, replay)
    {
      hide Tracks, IsReplayOf, Accounts, Matching, SentAll, StartAt, Started;
      if |subscribers| >= MAX_SUBSCRIPTIONS { return Err(LimitExceeded); }
      if exists kind :: kind in request.kinds && kind !in EVENT_KINDS { return Err(UnknownKind); }
      if request.since.Some? && request.since.value > eventSequence { return Err(SinceTooNew); }

      var s := new Subscriber(nextSubscriptionId + 1, connectionId, request.target, request.allWindows,
                              request.kinds, request.accepts);
      CatchUp(s, request.target, request.since);
      StartExactly(s, s.offered, request.target, request.since, evicted, log, replay);
      nextSubscriptionId := nextSubscriptionId + 1;
      starts := starts[s := StartAt(request.target, request.since, evicted, |log|)];
      subscribers := subscribers + [s];
      return Ok(s.id);
    }

    /** Replay what a new subscription missed, or tell it that some of that is gone. */
    method CatchUp(s: Subscriber, target: Option<nat>, since: Option<nat>)
      requires RingValid() && s !in subscribers
      requires s.Valid() && s.offered == []
      requires since.Some? ==> since.value <= |log|
      modifies s
      ensures s.Valid() && Tracks(s, s.offered, StartAt(target, since, evicted, |log|), log)
    {
      hide Accounts, Tracks, IsReplayOf;
      if since.Some? {
        var after := since.value;
        var oldest := OldestSequence();
        if after + 1 < oldest {
          ReportGap(s, StoredEvent(eventSequence, target, "overflow", Gap(after, oldest, eventSequence), 0));
        } else {
          RingIsTail(replay, log, evicted);
          Replay(s, after);
          TracksFrom(s, s.offered, after, log);
        }
      } else {
        TracksNothing(s, log);
      }
    }

    /** The number of the oldest event still in the ring, or of the next one. */
    method OldestSequence() returns (oldest: nat)
      requires RingValid()
      ensures oldest == evicted + 1
    {
      oldest := if replay == [] then eventSequence + 1 else replay[0].sequence;
    }

    /** Tell a new subscription that events it asked for are gone. */
    method ReportGap(s: Subscriber, gap: StoredEvent)
      requires s !in subscribers && s.Valid() && s.offered == [] && gap.sequence == |log|
      modifies s
      ensures s.Valid() && Tracks(s, s.offered, Start([gap], |log|), log)
    {
      hide Accounts;
      s.Send(gap);
      assert log[|log|..] == [];
    }

    method Replay(s: Subscriber, since: nat)
      requires Numbered(log) && evicted <= since <= |log| && replay == log[evicted..]
      requires s.Valid() && s.offered == []
      modifies s
      ensures s.Valid() && s.offered == Matching(s, log[since..])
    {
      hide Matching, Accounts, SentAll, Sent;
      MatchingNothing(s);
      assert log[since..since] == [];
      for i := 0 to |replay|
        invariant s.Valid() && s.offered == Matching(s, log[since..Max(since, evicted + i)])
      {
        var event := replay[i];
        if event.sequence > since {
          var upTo := evicted + i;
          assert log[since..upTo + 1] == log[since..upTo] + [event];
          MatchingAppend(s, log[since..upTo], event);
          MatchingIsPast(s, log, since, upTo);
          if s.Matches(event) {
            s.Send(event);
          }
        }
      }
      assert log[since..|log|] == log[since..];
    }

    method Unsubscribe(connectionId: nat, subscriptionId: nat) returns (removed: bool)
      requires Valid()
      modifies this`subscribers
      ensures Valid() && subscribers == Without(old(subscribers), connectionId, subscriptionId)
      ensures removed <==> exists s | s in old(subscribers) :: s.connectionId == connectionId && s.id == subscriptionId
    {
      hide Tracks, Subscriber.Valid, IsReplayOf;
      var oldLength := |subscribers|;
      subscribers := Without(subscribers, connectionId, subscriptionId);
      removed := oldLength != |subscribers|;
    }

    method Disconnect(connectionId: nat)
      requires Valid()
      modifies this`subscribers
      ensures Valid() && subscribers == Alive(old(subscribers), {connectionId})
    {
      hide Tracks, Subscriber.Valid, IsReplayOf;
      subscribers := Alive(subscribers, {connectionId});
    }
  }

  lemma RingIsTail(replay: seq<StoredEvent>, log: seq<StoredEvent>, evicted: nat)
    requires IsReplayOf(replay, log, evicted)
    ensures evicted <= |log| && replay == log[evicted..]
  {
  }

  lemma TracksFrom(s: Subscriber, offered: seq<StoredEvent>, from: nat, log: seq<StoredEvent>)
    requires from <= |log| && offered == Matching(s, log[from..])
    ensures Tracks(s, offered, Start([], from), log)
  {
  }

  lemma TracksNothing(s: Subscriber, log: seq<StoredEvent>)
    ensures Tracks(s, [], Start([], |log|), log)
  {
    assert log[|log|..] == [];
  }

  /** A gap is reported exactly when an event newer than `since` has been evicted. */
  function StartAt(target: Option<nat>, since: Option<nat>, evicted: nat, sequence: nat): Start {
    match since
    case None => Start([], sequence)
    case Some(after) =>
      if after < evicted then
        Start([StoredEvent(sequence, target, "overflow", Gap(after, evicted + 1, sequence), 0)], sequence)
      else Start([], after)
  }

  /** Every event newer than `since` is still in the ring. */
  ghost predicate StillRetained(log: seq<StoredEvent>, replay: seq<StoredEvent>, since: nat) {
    forall i :: since <= i < |log| ==> log[i] in replay
  }

  lemma RetainedExactly(log: seq<StoredEvent>, replay: seq<StoredEvent>, evicted: nat, since: nat)
    requires Numbered(log) && IsReplayOf(replay, log, evicted)
    ensures StillRetained(log, replay, since) <==> since >= evicted
    ensures (if replay == [] then |log| + 1 else replay[0].sequence) == evicted + 1
  {
    if since < evicted {
      forall e | e in replay
        ensures e != log[since]
      {
      }
    } else {
      forall i | since <= i < |log|
        ensures log[i] in replay
      {
        assert replay[i - evicted] == log[i];
      }
    }
  }

  /**
   What a new subscription is offered, and where it follows from: nothing and from now; or, while every event
   newer than `since` is retained, exactly the matching ones; or one gap event that says what is still there.
   */
  ghost predicate Started(s: Subscriber, offered: seq<StoredEvent>, target: Option<nat>, since: Option<nat>,
                          start: Start, log: seq<StoredEvent>, replay: seq<StoredEvent>)
  {
    match since
    case None => offered == [] && start == Start([], |log|)
    case Some(a) =>
      if StillRetained(log, replay, a) then a <= |log| && offered == Matching(s, log[a..]) && start == Start([], a)
      else
        var oldest := if replay == [] then |log| + 1 else replay[0].sequence;
        var gap := StoredEvent(|log|, target, "overflow", Gap(a, oldest, |log|), 0);
        offered == [gap] && start == Start([gap], |log|)
  }

  lemma StartExactly(s: Subscriber, offered: seq<StoredEvent>, target: Option<nat>, since: Option<nat>, evicted: nat,
                     log: seq<StoredEvent>, replay: seq<StoredEvent>)
    requires Numbered(log) && IsReplayOf(replay, log, evicted)
    requires Tracks(s, offered, StartAt(target, since, evicted, |log|), log)
    ensures Started(s, offered, target, since, StartAt(target, since, evicted, |log|), log, replay)
  {
    hide IsReplayOf, StillRetained;
    assert log[|log|..] == [];
    if since.Some? {
      RetainedExactly(log, replay, evicted, since.value);
    }
  }

  /** The events of one stretch of output, numbered after `sequence`. */
  function OutputEvents(sequence: nat, window: nat, start: nat, bytes: seq<Byte>): (events: seq<StoredEvent>)
    decreases |bytes|
  {
    if bytes == [] then [] else
      var length := if |bytes| < OUTPUT_CHUNK then |bytes| else OUTPUT_CHUNK;
      [EventOf(sequence + 1, Some(window), "output", Output(start, start + length, bytes[..length]))]
      + OutputEvents(sequence + 1, window, start + length, bytes[length..])
  }

  /** The chunk a turn of the loop emits is the first event still owed. */
  lemma FirstChunk(log: seq<StoredEvent>, window: nat, start: nat, bytes: seq<Byte>, next: nat)
    requires bytes != [] && next == start + OUTPUT_CHUNK
    ensures var length := if |bytes| < OUTPUT_CHUNK then |bytes| else OUTPUT_CHUNK;
      var event := EventOf(|log| + 1, Some(window), "output", Output(start, start + length, bytes[..length]));
      log + OutputEvents(|log|, window, start, bytes)
      == (log + [event]) + OutputEvents(|log| + 1, window, next, bytes[length..])
  {
  }

  lemma NoChunk(log: seq<StoredEvent>, window: nat, start: nat)
    ensures log + OutputEvents(|log|, window, start, []) == log
  {
  }

  /** Output events of one window, numbered on and laid end to end, all full but the last. */
  predicate Contiguous(events: seq<StoredEvent>, sequence: nat, window: nat, start: nat, bytes: seq<Byte>) {
    if events == [] then bytes == [] else
      && events[0].sequence == sequence + 1 && events[0].window == Some(window) && events[0].kind == "output"
      && events[0].payload.Output?
      && var p := events[0].payload;
         && p.startOffset == start && p.endOffset == start + |p.bytes|
         && 0 < |p.bytes| <= 65_536 && (|events| > 1 ==> |p.bytes| == 65_536)
         && p.bytes <= bytes
         && Contiguous(events[1..], sequence + 1, window, p.endOffset, bytes[|p.bytes|..])
  }

  /** Chunking output loses, repeats and reorders no byte. */
  lemma {:induction false} OutputEventsContiguous(sequence: nat, window: nat, start: nat, bytes: seq<Byte>)
    ensures Contiguous(OutputEvents(sequence, window, start, bytes), sequence, window, start, bytes)
    decreases |bytes|
  {
    if bytes != [] {
      var length := if |bytes| < OUTPUT_CHUNK then |bytes| else OUTPUT_CHUNK;
      var events := OutputEvents(sequence, window, start, bytes);
      OutputEventsContiguous(sequence + 1, window, start + length, bytes[length..]);
      assert events[1..] == OutputEvents(sequence + 1, window, start + length, bytes[length..]);
    }
  }

  /**
   Output is charged what a subscriber would receive: four bytes for every started group of three, and so never
   less than it holds; every event is charged its kind and 128 bytes besides.
   */
  lemma ChargedAsEncoded(sequence: nat, window: Option<nat>, kind: string, start: nat, end: nat, bytes: seq<Byte>)
    ensures var charged := EventOf(sequence, window, kind, Output(start, end, bytes)).size - |kind| - 128;
      && charged % 4 == 0 && charged >= |bytes|
      && (charged / 4 - 1) * 3 < |bytes| <= charged / 4 * 3
  {
  }

  function Without(subscribers: seq<Subscriber>, connectionId: nat, id: nat): (kept: seq<Subscriber>)
    ensures forall s | s in kept :: s in subscribers && (s.connectionId != connectionId || s.id != id)
    ensures forall s | s in subscribers && (s.connectionId != connectionId || s.id != id) :: s in kept
    ensures |kept| <= |subscribers|
    ensures |kept| == |subscribers| <==> forall s | s in subscribers :: s.connectionId != connectionId || s.id != id
    ensures DistinctIds(subscribers) ==> DistinctIds(kept)
  {
    if subscribers == [] then [] else
      var rest := Without(subscribers[1..], connectionId, id);
      assert DistinctIds(subscribers) ==> forall s | s in rest :: s.id != subscribers[0].id;
      if subscribers[0].connectionId == connectionId && subscribers[0].id == id then rest else [subscribers[0]] + rest
  }

  /** The subscriptions whose connection is not among `closed`, in order. */
  function Alive(subscribers: seq<Subscriber>, closed: set<nat>): (alive: seq<Subscriber>)
    ensures forall s | s in alive :: s in subscribers && s.connectionId !in closed
    ensures forall s | s in subscribers && s.connectionId !in closed :: s in alive
    ensures |alive| <= |subscribers|
    ensures DistinctIds(subscribers) ==> DistinctIds(alive)
  {
    if subscribers == [] then [] else
      var rest := Alive(subscribers[1..], closed);
      assert DistinctIds(subscribers) ==> forall s | s in rest :: s.id != subscribers[0].id;
      if subscribers[0].connectionId in closed then rest else [subscribers[0]] + rest
  }

  lemma {:induction false} MatchingKeeps(s: Subscriber, events: seq<StoredEvent>, i: nat)
    requires i < |events| && s.Matches(events[i])
    ensures events[i] in Matching(s, events)
    decreases |events|
  {
    if i < |events| - 1 {
      MatchingKeeps(s, events[..|events| - 1], i);
    }
  }

  /**
   In every reachable state, every event a subscription asked for since its start is exactly one of:
   delivered as a frame, inside one delivered overflow range, or inside the range still owed.
   */
  lemma EveryMatchingEventAccounted(hub: AutomationHub, s: Subscriber, sequence: nat)
    requires hub.Valid() && s in hub.subscribers
    requires hub.starts[s].from < sequence <= |hub.log| && s.Matches(hub.log[sequence - 1])
    ensures Coverage(s.delivered, sequence) + PendingCoverage(s.overflow, sequence) == 1
  {
    hide SentAll, Accounts, Coverage, PendingCoverage;
    var start, event := hub.starts[s], hub.log[sequence - 1];
    assert hub.Follows(s);
    MatchingKeeps(s, hub.log[start.from..], sequence - 1 - start.from);
    var m := Matching(s, hub.log[start.from..]);
    var k: nat :| k < |m| && m[k] == event;
    assert s.offered[|start.preamble| + k] == event;
    var i: nat :| i < |s.offered| && s.offered[i] == event;
    ExactlyOnce(s.delivered, s.overflow, s.offered, i);
  }

  /**
   A connection that takes everything from some point of its subscription on owes nothing after the next event it
   is offered, and receives that one and every later one as its own frame, behind one summary of what it missed.
   */
  lemma RecoveredGetsEverything(hub: AutomationHub, s: Subscriber, k: nat)
    requires hub.Valid() && s in hub.subscribers && k < |s.offered|
    requires WillingFrom(s.accepts, SentAll(FRESH, s.accepts, s.offered[..k]).attempts)
    ensures hub.starts[s].from <= |hub.log|
    ensures s.offered == hub.starts[s].preamble + Matching(s, hub.log[hub.starts[s].from..])
    ensures var before := SentAll(FRESH, s.accepts, s.offered[..k]);
      s.overflow == None && s.delivered == before.delivered + Owed(before.overflow) + Frames(s.offered[k..])
  {
    assert hub.Follows(s);
    assert s.offered == s.offered[..k] + s.offered[k..];
    SentAllSplits(FRESH, s.accepts, s.offered[..k], s.offered[k..]);
    Recovers(SentAll(FRESH, s.accepts, s.offered[..k]), s.accepts, s.offered[k..]);
  }

  /** A connection that refuses nothing has received its preamble and every matching event, each as its own frame. */
  lemma WillingGetsEverything(hub: AutomationHub, s: Subscriber)
    requires hub.Valid() && s in hub.subscribers && WillingFrom(s.accepts, 0)
    ensures hub.starts[s].from <= |hub.log|
    ensures s.overflow == None
    ensures s.delivered == Frames(hub.starts[s].preamble + Matching(s, hub.log[hub.starts[s].from..]))
  {
    assert hub.Follows(s);
    if s.offered != [] {
      assert s.offered[..0] == [] && s.offered[0..] == s.offered;
      RecoveredGetsEverything(hub, s, 0);
    }
  }

  /** Nothing a subscription did not ask for, and nothing from before its start, is delivered to it. */
  lemma OnlyMatchingEventsDelivered(hub: AutomationHub, s: Subscriber, i: nat)
    requires hub.Valid() && s in hub.subscribers
    requires i < |s.delivered| && s.delivered[i].EventFrame?
    ensures var event := s.delivered[i].event;
      || event in hub.starts[s].preamble
      || (event in hub.log && s.Matches(event) && event.sequence > hub.starts[s].from)
  {
    assert hub.Follows(s);
    DeliveredWereOffered(s.delivered, s.overflow, s.offered, i);
  }

  /** The ring of every reachable state, in numbers: both budgets, consecutive numbers, and the newest at the end. */
  lemma RingHolds(hub: AutomationHub)
    requires hub.Valid()
    ensures |hub.replay| <= 4_096 && hub.replayBytes == TotalSize(hub.replay) <= 4_194_304
    ensures hub.eventSequence == |hub.log|
    ensures forall i :: 0 <= i < |hub.replay| ==> hub.replay[i].sequence == hub.eventSequence - |hub.replay| + i + 1
    ensures forall k :: 0 <= k < |hub.log| - |hub.replay| ==>
      |hub.log[k..]| > 4_096 || TotalSize(hub.log[k..]) > 4_194_304
  {
    hide Subscriber.Valid, Tracks;
  }
}
