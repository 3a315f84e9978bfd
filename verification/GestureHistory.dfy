/**
 What has been written on behalf of each paced gesture, over a whole run of the event loop: gestures of
 many windows and connections interleave, and each one's own actions follow its script.
 */
module GestureHistory {
  import opened Wrappers
  import opened AutomationLedger
  import opened PacedGesture

  /** One mouse action written to a window for a request. */
  datatype Sent = Sent(window: nat, request: Key, action: Action)

  function Stamped(window: nat, request: Key, actions: seq<Action>): seq<Sent> {
    seq(|actions|, i requires 0 <= i < |actions| => Sent(window, request, actions[i]))
  }

  /** The actions written for one request, in order. */
  function ActionsFor(written: seq<Sent>, request: Key): seq<Action> {
    if written == [] then [] else
      var earlier, last := ActionsFor(written[..|written| - 1], request), written[|written| - 1];
      if last.request == request then earlier + [last.action] else earlier
  }

  type Paths = map<Key, Path>

  /** A stretch of the script from its start, and perhaps an early release. */
  ghost predicate FollowsScript(actions: seq<Action>, path: Path)
    requires path.points != []
  {
    ScriptLength(path);
    exists stop: nat :: stop <= |path.points|
      && (actions == Script(path)[..stop] || actions == Script(path)[..stop] + [Script(path)[|path.points|]])
  }

  /**
   `paths` are those of all gestures ever started, `completed` the requests whose gesture ran to its end.
   A gesture still under way has written its script up to the counter; one that completed, all of it.
   */
  ghost predicate Recorded(paths: Paths, completed: set<Key>, gestures: Gestures, written: seq<Sent>) {
    && Scripted(paths, completed, written)
    && AllUnderWay(paths, completed, gestures, written)
    && DistinctKeys(gestures)
  }

  ghost predicate Scripted(paths: Paths, completed: set<Key>, written: seq<Sent>) {
    && (forall sent :: sent in written ==> sent.request in paths)
    && (forall k :: k in paths ==> WellFormed(paths[k]))
    && (forall k :: k in paths ==> FollowsScript(ActionsFor(written, k), paths[k]))
    && (forall k :: k in completed ==> k in paths && ActionsFor(written, k) == Script(paths[k]))
  }

  ghost predicate AllUnderWay(paths: Paths, completed: set<Key>, gestures: Gestures, written: seq<Sent>) {
    forall id :: id in gestures ==> UnderWay(paths, completed, gestures[id], written)
  }

  ghost predicate DistinctKeys(gestures: Gestures) {
    forall a, b :: a in gestures && b in gestures && a != b ==> gestures[a].key != gestures[b].key
  }

  ghost predicate UnderWay(paths: Paths, completed: set<Key>, request: PacedRequest, written: seq<Sent>) {
    && request.key in paths && paths[request.key] == request.gesture.path
    && request.key !in completed
    && Valid(request.gesture)
    && request.gesture.nextAction <= |Script(request.gesture.path)|
    && ActionsFor(written, request.key) == Script(request.gesture.path)[..request.gesture.nextAction]
  }

  lemma {:induction false} ActionsForAppend(written: seq<Sent>, window: nat, request: Key, actions: seq<Action>, k: Key)
    ensures ActionsFor(written + Stamped(window, request, actions), k)
            == if k == request then ActionsFor(written, k) + actions else ActionsFor(written, k)
    decreases |actions|
  {
    if actions == [] {
      assert written + Stamped(window, request, actions) == written;
    } else {
      var earlier, last := actions[..|actions| - 1], actions[|actions| - 1];
      var more := written + Stamped(window, request, actions);
      assert more[..|more| - 1] == written + Stamped(window, request, earlier);
      assert more[|more| - 1] == Sent(window, request, last);
      ActionsForAppend(written, window, request, earlier, k);
      assert actions == earlier + [last];
    }
  }

  lemma {:induction false} NothingFor(written: seq<Sent>, k: Key)
    requires forall sent :: sent in written ==> sent.request != k
    ensures ActionsFor(written, k) == []
    decreases |written|
  {
    if written != [] {
      NothingFor(written[..|written| - 1], k);
      assert written[|written| - 1] in written;
    }
  }

  /** A gesture begins: nothing has been written for its request. */
  lemma Begins(paths: Paths, completed: set<Key>, gestures: Gestures, written: seq<Sent>, id: nat,
               request: PacedRequest)
    requires Recorded(paths, completed, gestures, written) && id !in gestures && request.key !in paths
    requires Valid(request.gesture) && request.gesture.nextAction == 0
    ensures Recorded(paths[request.key := request.gesture.path], completed, gestures[id := request], written)
  {
    hide FollowsScript;
    var path := request.gesture.path;
    NothingFor(written, request.key);
    ScriptLength(path);
    NothingFollows(path);
    assert Script(path)[..0] == [];
  }

  lemma NothingFollows(path: Path)
    requires path.points != []
    ensures FollowsScript([], path)
  {
    ScriptLength(path);
    assert Script(path)[..0] == [];
  }

  /** What a turn leaves written for its own request. */
  lemma TurnFollows(g: Gesture, happening: Happening, before: seq<Action>)
    requires Valid(g)
    requires g.nextAction <= |Script(g.path)| && before == Script(g.path)[..g.nextAction]
    ensures var turn := React(g, happening);
      var after := before + turn.written;
      && FollowsScript(after, g.path)
      && (turn.progress.Finished? ==> after == Script(g.path))
      && (turn.progress.Pending? ==>
            var next := turn.progress.gesture;
            Valid(next) && next.path == g.path
            && next.nextAction <= |Script(g.path)| && after == Script(g.path)[..next.nextAction])
  {
    hide Script, React;
    ReactFollowsScript(g, happening);
    var script, turn := Script(g.path), React(g, happening);
    var n := |g.path.points|;
    match turn.progress {
      case Pending(next) =>
        assert before + turn.written == script[..next.nextAction];
      case Finished =>
        assert before + turn.written == script[..n] + [script[n]] == script;
      case Left(_, _) =>
        assert before + turn.written == script[..g.nextAction]
            || before + turn.written == script[..g.nextAction] + [script[n]];
    }
    FollowsTo(g.path, before + turn.written,
              if turn.progress.Pending? then turn.progress.gesture.nextAction else g.nextAction);
  }

  lemma FollowsTo(path: Path, actions: seq<Action>, stop: nat)
    requires path.points != [] && |Script(path)| == |path.points| + 1 && stop <= |path.points|
    requires actions == Script(path)[..stop] || actions == Script(path)[..stop] + [Script(path)[|path.points|]]
    ensures FollowsScript(actions, path)
  {
  }

  /** A gesture takes a turn: other requests' actions stay what they were. */
  lemma Turns(paths: Paths, completed: set<Key>, gestures: Gestures, written: seq<Sent>, id: nat, happening: Happening)
    requires Recorded(paths, completed, gestures, written) && id in gestures
    ensures Valid(gestures[id].gesture)
    ensures var request := gestures[id];
      var turn := React(request.gesture, happening);
      var after := written + Stamped(id, request.key, turn.written);
      match turn.progress
      case Pending(next) => Recorded(paths, completed, gestures[id := request.(gesture := next)], after)
      case Finished => Recorded(paths, completed + {request.key}, gestures - {id}, after)
      case Left(_, _) => Recorded(paths, completed, gestures - {id}, after)
  {
    hide FollowsScript, Script, React, Stamped, Scripted;
    var request := gestures[id];
    assert UnderWay(paths, completed, request, written);
    var turn := React(request.gesture, happening);
    var after := written + Stamped(id, request.key, turn.written);
    TurnFollows(request.gesture, happening, ActionsFor(written, request.key));
    TurnAppends(written, id, request.key, turn.written);
    TurnScripted(paths, completed, written, id, request.key, turn.written, turn.progress.Finished?);
    OthersUnderWay(paths, completed, gestures, written, id, after);
  }

  lemma TurnAppends(written: seq<Sent>, id: nat, request: Key, actions: seq<Action>)
    ensures forall k :: ActionsFor(written + Stamped(id, request, actions), k)
                        == if k == request then ActionsFor(written, k) + actions else ActionsFor(written, k)
    ensures forall sent :: sent in Stamped(id, request, actions) ==> sent.request == request
  {
    forall k: Key
      ensures ActionsFor(written + Stamped(id, request, actions), k)
              == if k == request then ActionsFor(written, k) + actions else ActionsFor(written, k)
    {
      ActionsForAppend(written, id, request, actions, k);
    }
  }

  lemma TurnScripted(paths: Paths, completed: set<Key>, written: seq<Sent>, id: nat, request: Key,
                     actions: seq<Action>, finished: bool)
    requires Scripted(paths, completed, written) && request in paths && request !in completed
    requires FollowsScript(ActionsFor(written, request) + actions, paths[request])
    requires finished ==> ActionsFor(written, request) + actions == Script(paths[request])
    ensures Scripted(paths, if finished then completed + {request} else completed,
                     written + Stamped(id, request, actions))
  {
    hide FollowsScript, Script, ActionsFor, Stamped;
    TurnAppends(written, id, request, actions);
  }

  lemma OthersUnderWay(paths: Paths, completed: set<Key>, gestures: Gestures, written: seq<Sent>, id: nat,
                       after: seq<Sent>)
    requires AllUnderWay(paths, completed, gestures, written) && DistinctKeys(gestures) && id in gestures
    requires forall k :: k != gestures[id].key ==> ActionsFor(after, k) == ActionsFor(written, k)
    ensures AllUnderWay(paths, completed, gestures - {id}, after)
    ensures AllUnderWay(paths, completed + {gestures[id].key}, gestures - {id}, after)
    ensures DistinctKeys(gestures - {id})
  {
    forall other | other in gestures - {id}
      ensures UnderWay(paths, completed, gestures[other], after)
      ensures UnderWay(paths, completed + {gestures[id].key}, gestures[other], after)
    {
      assert UnderWay(paths, completed, gestures[other], written);
    }
  }

  /** A gesture goes without having written anything more. */
  lemma Goes(paths: Paths, completed: set<Key>, gestures: Gestures, written: seq<Sent>, id: nat)
    requires Recorded(paths, completed, gestures, written) && id in gestures
    ensures Recorded(paths, completed, gestures - {id}, written)
  {
    hide Scripted, UnderWay;
  }

  /** In every recorded run, no request has let go of the button twice. */
  lemma LetsGoOnce(paths: Paths, completed: set<Key>, gestures: Gestures, written: seq<Sent>, k: Key)
    requires Recorded(paths, completed, gestures, written)
    ensures CountUps(ActionsFor(written, k)) <= 1
  {
    hide Script, CountUps;
    if k in paths {
      var path, n := paths[k], |paths[k].points|;
      ScriptLength(path);
      assert FollowsScript(ActionsFor(written, k), path);
      var stop: nat :| stop <= n && (ActionsFor(written, k) == Script(path)[..stop]
                                     || ActionsFor(written, k) == Script(path)[..stop] + [Script(path)[n]]);
      NoUpsBeforeTheEnd(path, 0, stop);
      assert Script(path)[0..stop] == Script(path)[..stop];
      CountUpsAppend(Script(path)[..stop], Script(path)[n]);
    } else {
      NothingFor(written, k);
      CountNoUps();
    }
  }

  lemma CountNoUps()
    ensures CountUps([]) == 0
  {
  }
}
