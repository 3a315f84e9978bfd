/**
 The notification worker's table of live tasks: which task belongs to which notification id, and in
 which order tasks are given up when there are too many.

 Tokens are natural numbers; the 64-bit counter is not modelled as wrapping.
 */
module WorkerTable {
  import opened Wrappers

  const MAX_LIVE: nat := 64

  type Id = nat

  datatype Table = Table(live: map<nat, Option<Id>>, byId: map<Id, nat>, order: seq<nat>)

  /** Every index entry names a live task that carries the id; every live task can be evicted. */
  ghost predicate Consistent(t: Table) {
    && (forall id :: id in t.byId ==> t.byId[id] in t.live && t.live[t.byId[id]] == Some(id))
    && (forall token :: token in t.live ==> token in t.order)
  }

  /** Taking a task out also takes out the index entry of its id, whichever task that names. */
  function Without(t: Table, token: nat): (r: Table)
    ensures r.order == t.order && Subtable(r.live, t.live) && token !in r.live
  {
    if token !in t.live then t else
      match t.live[token]
      case None => t.(live := t.live - {token})
      case Some(id) => t.(live := t.live - {token}, byId := t.byId - {id})
  }

  lemma WithoutConsistent(t: Table, token: nat)
    requires Consistent(t)
    ensures Consistent(Without(t, token))
  {
  }

  /** Giving up the task at the front of the order. */
  function FrontEvicted(t: Table): Table
    requires t.order != []
  {
    Without(t, t.order[0]).(order := t.order[1..])
  }

  lemma FrontEvictedConsistent(t: Table, newest: nat)
    requires Consistent(t) && t.order != [] && |t.live| <= MAX_LIVE && NoNewer(t, newest)
    ensures Consistent(FrontEvicted(t)) && |FrontEvicted(t).live| <= MAX_LIVE && NoNewer(FrontEvicted(t), newest)
    ensures Subtable(FrontEvicted(t).live, t.live)
  {
    hide Without;
    WithoutConsistent(t, t.order[0]);
    WithoutSmaller(t, t.order[0], newest);
    assert forall token :: token in t.order ==> token == t.order[0] || token in t.order[1..];
    assert forall token :: token in t.order[1..] ==> token in t.order;
  }

  /** A new task, the newest under its id. */
  function Added(t: Table, token: nat, id: Option<Id>): Table {
    Table(t.live[token := id], if id.Some? then t.byId[id.value := token] else t.byId, t.order + [token])
  }

  lemma AddedConsistent(t: Table, token: nat, id: Option<Id>)
    requires Consistent(t) && |t.live| < MAX_LIVE && token > 0 && NoNewer(t, token - 1)
    ensures token !in t.live
    ensures Consistent(Added(t, token, id)) && |Added(t, token, id).live| <= MAX_LIVE
      && NoNewer(Added(t, token, id), token)
  {
    CountWith(t.live, token, id);
  }

  /** No token is beyond the counter. */
  ghost predicate NoNewer(t: Table, newest: nat) {
    && (forall token :: token in t.order ==> token <= newest)
    && (forall token :: token in t.live ==> token <= newest)
  }

  /** Tasks enter the order as their tokens are given out. */
  ghost predicate Ascending(order: seq<nat>) {
    forall i, j :: 0 <= i < j < |order| ==> order[i] < order[j]
  }

  /** The table after the oldest live task, the first live one in the order, has been given up. */
  ghost predicate OldestGone(t: Table, after: Table, k: nat) {
    && k < |t.order| && t.order[k] in t.live
    && (forall j :: 0 <= j < k ==> t.order[j] !in t.live)
    && after == Without(t, t.order[k]).(order := t.order[k + 1..])
  }

  /** It has been given up and told to close, and nothing else has happened. */
  ghost predicate GaveUpOldest(t: Table, after: Table, closedBefore: seq<nat>, closed: seq<nat>) {
    exists k: nat :: OldestGone(t, after, k) && closed == closedBefore + [t.order[k]]
  }

  /** It is the live task with the smallest token. */
  lemma OldestIsSmallest(t: Table, after: Table, k: nat)
    requires Consistent(t) && Ascending(t.order) && OldestGone(t, after, k)
    ensures forall token :: token in t.live ==> t.order[k] <= token
  {
    forall token | token in t.live
      ensures t.order[k] <= token
    {
      var j :| 0 <= j < |t.order| && t.order[j] == token;
    }
  }

  lemma AscendingRest(order: seq<nat>, k: nat)
    requires Ascending(order) && k <= |order|
    ensures Ascending(order[k..])
  {
  }

  lemma AscendingAdded(t: Table, newest: nat)
    requires Ascending(t.order) && NoNewer(t, newest)
    ensures Ascending(t.order + [newest + 1])
  {
    assert forall i :: 0 <= i < |t.order| ==> t.order[i] in t.order;
  }

  lemma NotYetGiven(t: Table, newest: nat)
    requires NoNewer(t, newest)
    ensures newest + 1 !in t.live
  {
  }

  lemma WithoutSmaller(t: Table, token: nat, newest: nat)
    requires |t.live| <= MAX_LIVE && NoNewer(t, newest)
    ensures |Without(t, token).live| <= MAX_LIVE && NoNewer(Without(t, token), newest)
    ensures token !in Without(t, token).live
  {
    CountWithout(t.live, token);
  }

  /** What is left of a table of tasks is as it was. */
  ghost predicate Subtable(part: map<nat, Option<Id>>, whole: map<nat, Option<Id>>) {
    forall token :: token in part ==> token in whole && part[token] == whole[token]
  }

  lemma NothingLeft(live: map<nat, Option<Id>>, order: seq<nat>)
    requires forall token :: token in live ==> token in order
    ensures order == [] ==> |live| == 0
  {
    if order == [] {
      assert live.Keys == {};
    }
  }

  class NotificationWorker {
    var live: map<nat, Option<Id>>
    var byId: map<Id, nat>
    var order: seq<nat>
    var nextToken: nat

    /** Tasks told to close, oldest first. */
    var closed: seq<nat>

    function Current(): Table
      reads this
    {
      Table(live, byId, order)
    }

    ghost predicate Valid()
      reads this
    {
      && Consistent(Current())
      && |live| <= MAX_LIVE
      && NoNewer(Current(), nextToken)
      && Ascending(order)
    }

    constructor ()
      ensures Valid() && live == map[] && byId == map[] && order == [] && closed == [] && nextToken == 0
    {
      live, byId, order, nextToken, closed := map[], map[], [], 0, [];
    }

    method RemoveTask(token: nat, close: bool)
      requires Consistent(Current())
      modifies this`live, this`byId, this`closed
      ensures Current() == Without(old(Current()), token) && Consistent(Current())
      ensures closed == if close && token in old(live) then old(closed) + [token] else old(closed)
    {
      WithoutConsistent(Current(), token);
      if token in live {
        var id := live[token];
        live := live - {token};
        if id.Some? {
          byId := byId - {id.value};
        }
        if close {
          closed := closed + [token];
        }
      }
    }

    /** Give up the task at the front of the order, if it is still live. */
    method EvictFront()
      requires Valid() && order != []
      modifies this`live, this`byId, this`order, this`closed
      ensures Valid() && Current() == FrontEvicted(old(Current()))
      ensures closed == if old(order)[0] in old(live) then old(closed) + [old(order)[0]] else old(closed)
    {
      hide Consistent, NoNewer, Without, Ascending;
      FrontEvictedConsistent(Current(), nextToken);
      AscendingRest(order, 1);
      var token := order[0];
      RemoveTask(token, true);
      order := order[1..];
    }

    /** At the limit, give up the oldest live task, and no other. */
    method MakeRoom()
      requires Valid()
      modifies this`live, this`byId, this`order, this`closed
      ensures Valid() && |live| < MAX_LIVE
      ensures |old(live)| < MAX_LIVE ==> Current() == old(Current()) && closed == old(closed)
      ensures |old(live)| == MAX_LIVE ==>
        |live| == MAX_LIVE - 1 && GaveUpOldest(old(Current()), Current(), old(closed), closed)
    {
      hide Consistent, NoNewer, Without, Ascending, FrontEvicted, OldestGone;
      ghost var stale := 0;
      NoneStale(Current());
      while |live| >= MAX_LIVE && order != []
        invariant Valid() && stale <= |old(order)|
        invariant |old(live)| < MAX_LIVE ==> Current() == old(Current()) && closed == old(closed)
        invariant |old(live)| == MAX_LIVE && |live| == MAX_LIVE ==>
          AllStale(old(Current()), Current(), stale) && closed == old(closed)
        invariant |old(live)| == MAX_LIVE && |live| != MAX_LIVE ==>
          |live| == MAX_LIVE - 1 && GaveUpOldest(old(Current()), Current(), old(closed), closed)
        decreases |order|
      {
        StaleOrOldest(old(Current()), Current(), stale);
        EvictFront();
        stale := stale + 1;
      }
      LiveInOrder(Current());
    }

    /** `updateOk` says whether a live task for the same id takes the update. */
    method Display(id: Option<Id>, updateOk: bool) returns (token: Option<nat>)
      requires Valid()
      modifies this
      ensures Valid()
      ensures id.Some? && id.value in old(byId) && updateOk ==>
        token == None && Current() == old(Current()) && closed == old(closed) && nextToken == old(nextToken)
      ensures !(id.Some? && id.value in old(byId) && updateOk) ==>
        && token == Some(nextToken) && nextToken == old(nextToken) + 1 && nextToken !in old(live)
        && (|old(live)| < 64 ==> Current() == Added(old(Current()), nextToken, id) && closed == old(closed))
        && (|old(live)| == 64 ==> |live| == 64 && exists room: Table ::
              GaveUpOldest(old(Current()), room, old(closed), closed) && Current() == Added(room, nextToken, id))
    {
      hide Consistent, NoNewer, Ascending, GaveUpOldest, Without, FrontEvicted, Added;
      NotYetGiven(Current(), nextToken);
      if id.Some? && id.value in byId && updateOk {
        return None;
      }
      MakeRoom();
      AddTask(id);
      return Some(nextToken);
    }

    /** Register a new task under the next token. */
    method AddTask(id: Option<Id>)
      requires Valid() && |live| < MAX_LIVE
      modifies this`live, this`byId, this`order, this`nextToken
      ensures Valid() && nextToken == old(nextToken) + 1
      ensures Current() == Added(old(Current()), nextToken, id) && |live| == |old(live)| + 1
    {
      hide Consistent, NoNewer, Ascending;
      NotYetGiven(Current(), nextToken);
      AddedConsistent(Current(), nextToken + 1, id);
      AscendingAdded(Current(), nextToken);
      CountWith(live, nextToken + 1, id);
      nextToken := nextToken + 1;
      if id.Some? {
        byId := byId[id.value := nextToken];
      }
      live := live[nextToken := id];
      order := order + [nextToken];
    }

    method Close(id: Id)
      requires Valid()
      modifies this`live, this`byId, this`closed
      ensures Valid() && id !in byId
      ensures if id in old(byId) then
                Current() == Without(old(Current()), old(byId)[id]) && closed == old(closed) + [old(byId)[id]]
              else Current() == old(Current()) && closed == old(closed)
    {
      hide Consistent, NoNewer, Without, Ascending;
      if id in byId {
        var token := byId[id];
        CloseById(Current(), id);
        WithoutConsistent(Current(), token);
        WithoutSmaller(Current(), token, nextToken);
        byId := byId - {id};
        RemoveTask(token, true);
      }
    }

    /** Every live task is told to close, once, in no particular order. */
    method Clear()
      requires Valid()
      modifies this`live, this`byId, this`order, this`closed
      ensures Valid() && live == map[] && byId == map[] && order == []
      ensures |closed| == |old(closed)| + |old(live)| && old(closed) <= closed
      ensures forall token :: token in old(live) <==> token in closed[|old(closed)|..]
    {
      hide Consistent, NoNewer, Ascending;
      NothingIsConsistent(nextToken);
      ghost var told: seq<nat> := [];
      while live != map[]
        invariant closed == old(closed) + told && |told| + |live| == |old(live)|
        invariant forall token :: token in old(live) <==> token in live || token in told
        invariant forall token :: token in live ==> token !in told
        decreases |live|
      {
        SomeTask(live);
        var token :| token in live;
        CountWithout(live, token);
        closed, told := closed + [token], told + [token];
        live := live - {token};
      }
      byId, order := map[], [];
    }

    lemma SomeTask(live: map<nat, Option<Id>>)
      requires live != map[]
      ensures exists token :: token in live
    {
      assert live.Keys != {};
    }

    /** A task reports that it is done. */
    method Done(token: nat)
      requires Valid()
      modifies this`live, this`byId, this`order, this`closed
      ensures Valid() && token !in live && token !in order && closed == old(closed)
      ensures Current() == Without(old(Current()), token).(order := Except(old(order), token))
    {
      hide Consistent, NoNewer, Without, Ascending;
      WithoutConsistent(Current(), token);
      WithoutSmaller(Current(), token, nextToken);
      ExceptConsistent(Without(Current(), token), token, nextToken);
      ExceptAscending(order, token);
      RemoveTask(token, false);
      order := Except(order, token);
    }
  }

  function Except(order: seq<nat>, token: nat): (rest: seq<nat>)
    ensures forall t :: t in rest <==> t in order && t != token
  {
    if order == [] then [] else
      var rest := Except(order[1..], token);
      if order[0] == token then rest else [order[0]] + rest
  }

  lemma {:induction false} ExceptAscending(order: seq<nat>, token: nat)
    requires Ascending(order)
    ensures Ascending(Except(order, token))
    decreases |order|
  {
    if order != [] {
      ExceptAscending(order[1..], token);
      var rest := Except(order[1..], token);
      assert forall t :: t in order[1..] ==> order[0] < t;
      assert forall j :: 0 <= j < |rest| ==> rest[j] in rest;
    }
  }

  lemma ExceptConsistent(t: Table, token: nat, newest: nat)
    requires Consistent(t) && NoNewer(t, newest) && token !in t.live
    ensures Consistent(t.(order := Except(t.order, token))) && NoNewer(t.(order := Except(t.order, token)), newest)
  {
  }

  lemma NothingIsConsistent(newest: nat)
    ensures Consistent(Table(map[], map[], [])) && NoNewer(Table(map[], map[], []), newest) && Ascending([])
  {
  }

  /** So far only stale tokens have been taken off the order. */
  ghost predicate AllStale(t: Table, now: Table, stale: nat) {
    && stale <= |t.order| && now == t.(order := t.order[stale..])
    && forall j :: 0 <= j < stale ==> t.order[j] !in t.live
  }

  lemma NoneStale(t: Table)
    ensures AllStale(t, t, 0)
  {
  }

  /** Taking off the front either drops one more stale token or gives up the oldest live task. */
  lemma StaleOrOldest(t: Table, now: Table, stale: nat)
    requires AllStale(t, now, stale) && now.order != []
    ensures stale < |t.order| && now.order[0] == t.order[stale]
    ensures if now.order[0] in now.live then
              OldestGone(t, FrontEvicted(now), stale) && |FrontEvicted(now).live| == |now.live| - 1
            else AllStale(t, FrontEvicted(now), stale + 1) && FrontEvicted(now).live == now.live
  {
    assert t.order[stale..][1..] == t.order[stale + 1..];
    CountWithout(now.live, now.order[0]);
  }

  /** Taking the id out of the index first makes no difference. */
  lemma CloseById(t: Table, id: Id)
    requires Consistent(t) && id in t.byId
    ensures var early := t.(byId := t.byId - {id});
      && t.byId[id] in t.live && Consistent(early)
      && Without(early, t.byId[id]) == Without(t, t.byId[id]) && id !in Without(t, t.byId[id]).byId
  {
    assert t.byId - {id} - {id} == t.byId - {id};
  }

  lemma LiveInOrder(t: Table)
    requires Consistent(t)
    ensures t.order == [] ==> |t.live| == 0
  {
    NothingLeft(t.live, t.order);
  }

  lemma CountWithout(live: map<nat, Option<Id>>, token: nat)
    ensures |live - {token}| == if token in live then |live| - 1 else |live|
  {
    var after := live - {token};
    assert after.Keys == live.Keys - {token};
    assert |after| == |after.Keys| && |live| == |live.Keys|;
  }

  lemma CountWith(live: map<nat, Option<Id>>, token: nat, id: Option<Id>)
    requires token !in live
    ensures |live[token := id]| == |live| + 1
  {
    var after := live[token := id];
    assert after.Keys == live.Keys + {token};
    assert |after| == |after.Keys| && |live| == |live.Keys|;
  }

  // ---------------------------------------------------------------------------------------------
  // Can every shown notification still be closed by its id?
  // ---------------------------------------------------------------------------------------------

  /** Every live task with an id can be found through the index under that id. */
  ghost predicate Closable(t: Table) {
    forall token :: token in t.live && t.live[token].Some? ==> t.live[token].value in t.byId
  }

  /** Another live task shows the same notification. */
  ghost predicate Shared(t: Table, token: nat) {
    && token in t.live && t.live[token].Some?
    && exists other :: other in t.live && other != token && t.live[other] == t.live[token]
  }

  /**
   Taking a task out leaves every other shown notification closable exactly when no other live task
   shows the same one.
   */
  lemma RemovalKeepsClosableExactly(t: Table, token: nat)
    requires Consistent(t) && Closable(t)
    ensures Closable(Without(t, token)) <==> !Shared(t, token)
  {
    var after := Without(t, token);
    if Shared(t, token) {
      var other :| other in t.live && other != token && t.live[other] == t.live[token];
      assert other in after.live && after.live[other].value !in after.byId;
    }
  }

  /** Shared notifications are possible: a task that refuses an update is joined by a second one. */
  lemma SharedAfterRefusedUpdate(t: Table, token: nat, id: Id)
    requires Consistent(t) && id in t.byId && token !in t.live
    ensures Shared(Added(t, token, Some(id)), t.byId[id])
  {
    var after := Added(t, token, Some(id));
    assert token in after.live && token != t.byId[id] && after.live[token] == after.live[t.byId[id]];
  }

  /** One live task per id. */
  ghost predicate Unshared(t: Table) {
    forall a, b :: a in t.live && b in t.live && a != b && t.live[a].Some? ==> t.live[a] != t.live[b]
  }

  /** As long as nothing is shared, taking tasks out keeps everything closable and unshared. */
  lemma UnsharedStays(t: Table, token: nat)
    requires Consistent(t) && Closable(t) && Unshared(t)
    ensures Closable(Without(t, token)) && Unshared(Without(t, token))
  {
    RemovalKeepsClosableExactly(t, token);
  }

  /** A new task keeps everything unshared exactly when no live task already has its id. */
  lemma AddingStaysUnsharedExactly(t: Table, token: nat, id: Option<Id>)
    requires Consistent(t) && Closable(t) && Unshared(t) && token !in t.live
    ensures Closable(Added(t, token, id))
    ensures Unshared(Added(t, token, id)) <==> id.None? || id.value !in t.byId
  {
    if id.Some? && id.value in t.byId {
      SharedAfterRefusedUpdate(t, token, id.value);
    }
  }

  /**
   It does happen: a second task joins the first, the first is done, and closing the notification by its id
   reaches nothing although the second task still shows it.
   */
  method CloseReachesNothing(id: Id) returns (w: NotificationWorker)
    ensures fresh(w) && w.Valid() && w.closed == []
    ensures 2 in w.live && w.live[2] == Some(id) && id !in w.byId
  {
    hide Consistent, NoNewer, Ascending, GaveUpOldest;
    w := new NotificationWorker();
    var first := w.Display(Some(id), true);
    assert w.byId == map[id := 1] && w.live == map[1 := Some(id)];
    var second := w.Display(Some(id), false);
    assert w.byId == map[id := 2] && w.live == map[1 := Some(id), 2 := Some(id)];
    w.Done(1);
    w.Close(id);
  }

  /** What taking a task out and putting one in change, entry by entry. */
  lemma TableExactly(t: Table, token: nat, id: Option<Id>)
    ensures var out := Without(t, token);
      && out.order == t.order
      && (forall k :: k in out.live <==> k in t.live && k != token)
      && (forall k :: k in out.live ==> out.live[k] == t.live[k])
      && (forall i :: i in out.byId <==> i in t.byId && !(token in t.live && t.live[token] == Some(i)))
      && (forall i :: i in out.byId ==> out.byId[i] == t.byId[i])
    ensures var more := Added(t, token, id);
      && more.order == t.order + [token]
      && (forall k :: k in more.live <==> k in t.live || k == token) && more.live[token] == id
      && (forall k :: k in t.live && k != token ==> more.live[k] == t.live[k])
      && (forall i :: i in more.byId <==> i in t.byId || id == Some(i))
      && (forall i :: i in more.byId ==> more.byId[i] == if id == Some(i) then token else t.byId[i])
  {
  }
}
