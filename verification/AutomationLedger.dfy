/**
 The requests automation owes an answer, where each is held, and the books that show every request is
 held exactly once until it is answered exactly once.
 */
module AutomationLedger {
  import opened Wrappers
  import PacedGesture

  /** One request of one connection. */
  datatype Key = Key(connection: nat, request: nat)

  /** Screen-stable waits are timed; every other condition is decided by the window's state. */
  datatype WaitKind = ScreenStable(quiet: nat, afterScreen: Option<nat>) | Condition(tag: nat)

  datatype Waiter = Waiter(key: Key, deadline: nat, kind: WaitKind)

  datatype PendingWrite = PendingWrite(key: Key, token: nat, deadline: nat)

  datatype PacedRequest = PacedRequest(key: Key, gesture: PacedGesture.Gesture)

  datatype Window = Window(screenSequence: nat, lastScreenChange: nat, waiters: seq<Waiter>, writes: seq<PendingWrite>)

  type Windows = map<nat, Window>
  type Gestures = map<nat, PacedRequest>

  // ---------------------------------------------------------------------------------------------
  // Instants a window has to be woken for
  // ---------------------------------------------------------------------------------------------

  predicate Eligible(window: Window, waiter: Waiter) {
    waiter.kind.ScreenStable?
      && (waiter.kind.afterScreen.None? || window.screenSequence > waiter.kind.afterScreen.value)
  }

  function StableInstant(window: Window, waiter: Waiter): nat
    requires waiter.kind.ScreenStable?
  {
    window.lastScreenChange + waiter.kind.quiet
  }

  function GestureInstant(request: PacedRequest): nat {
    Min(request.gesture.nextDue, request.gesture.deadline)
  }

  /** The instants of eligible screen-stable waits. */
  function StableInstants(window: Window, waiters: seq<Waiter>): seq<nat> {
    if waiters == [] then [] else
      var earlier, last := StableInstants(window, waiters[..|waiters| - 1]), waiters[|waiters| - 1];
      if Eligible(window, last) then earlier + [StableInstant(window, last)] else earlier
  }

  function Deadlines(window: Window, gestures: Gestures, id: nat): seq<nat> {
    seq(|window.writes|, i requires 0 <= i < |window.writes| => window.writes[i].deadline)
    + seq(|window.waiters|, i requires 0 <= i < |window.waiters| => window.waiters[i].deadline)
    + (if id in gestures then [GestureInstant(gestures[id])] else [])
  }

  /** Every instant at which a window needs attention. */
  function Obligations(window: Window, gestures: Gestures, id: nat): seq<nat> {
    Deadlines(window, gestures, id) + StableInstants(window, window.waiters)
  }

  /**
   An instant at which a window has to be woken: when a tracked write or a wait is overdue, when a gesture's next
   action falls due or the gesture is given up, whichever is first, or when a screen that has changed often enough
   has been quiet for long enough.
   */
  ghost predicate Owed(window: Window, gestures: Gestures, id: nat, d: nat) {
    || (exists p :: p in window.writes && p.deadline == d)
    || (exists w :: w in window.waiters && w.deadline == d)
    || (id in gestures && (gestures[id].gesture.nextDue == d || gestures[id].gesture.deadline == d)
        && d <= gestures[id].gesture.nextDue && d <= gestures[id].gesture.deadline)
    || (exists w :: w in window.waiters && w.kind.ScreenStable? && window.lastScreenChange + w.kind.quiet == d
                    && (w.kind.afterScreen.None? || window.screenSequence > w.kind.afterScreen.value))
  }

  lemma ObligationsExactly(window: Window, gestures: Gestures, id: nat)
    ensures forall d :: d in Obligations(window, gestures, id) <==> Owed(window, gestures, id, d)
  {
    forall d: nat
      ensures d in Obligations(window, gestures, id) <==> Owed(window, gestures, id, d)
    {
      DeadlinesExactly(window, gestures, id, d);
      StableInstantsExactly(window, window.waiters, d);
    }
  }

  lemma DeadlinesExactly(window: Window, gestures: Gestures, id: nat, d: nat)
    ensures d in Deadlines(window, gestures, id) <==>
      || (exists p :: p in window.writes && p.deadline == d)
      || (exists w :: w in window.waiters && w.deadline == d)
      || (id in gestures && (gestures[id].gesture.nextDue == d || gestures[id].gesture.deadline == d)
          && d <= gestures[id].gesture.nextDue && d <= gestures[id].gesture.deadline)
  {
    var writes := seq(|window.writes|, i requires 0 <= i < |window.writes| => window.writes[i].deadline);
    var waits := seq(|window.waiters|, i requires 0 <= i < |window.waiters| => window.waiters[i].deadline);
    var gesture := if id in gestures then [GestureInstant(gestures[id])] else [];
    assert Deadlines(window, gestures, id) == writes + waits + gesture;
    assert d in Deadlines(window, gestures, id) <==> d in writes || d in waits || d in gesture;
    if p :| p in window.writes && p.deadline == d {
      var i :| 0 <= i < |window.writes| && window.writes[i] == p;
      assert writes[i] == d;
    }
    if w :| w in window.waiters && w.deadline == d {
      var i :| 0 <= i < |window.waiters| && window.waiters[i] == w;
      assert waits[i] == d;
    }
    if d in writes {
      var i :| 0 <= i < |writes| && writes[i] == d;
      assert window.writes[i] in window.writes;
    }
    if d in waits {
      var i :| 0 <= i < |waits| && waits[i] == d;
      assert window.waiters[i] in window.waiters;
    }
  }

  lemma {:induction false} StableInstantsExactly(window: Window, waiters: seq<Waiter>, d: nat)
    ensures d in StableInstants(window, waiters) <==>
      exists w :: w in waiters && w.kind.ScreenStable? && window.lastScreenChange + w.kind.quiet == d
                  && (w.kind.afterScreen.None? || window.screenSequence > w.kind.afterScreen.value)
    decreases |waiters|
  {
    if waiters != [] {
      var earlier, last := waiters[..|waiters| - 1], waiters[|waiters| - 1];
      assert forall w :: w in waiters <==> w in earlier || w == last;
      StableInstantsExactly(window, earlier, d);
    }
  }

  function Nearest(instants: seq<nat>): (nearest: Option<nat>)
    ensures nearest.None? <==> instants == []
    ensures nearest.Some? ==> nearest.value in instants && forall d :: d in instants ==> nearest.value <= d
  {
    if instants == [] then None else
      var earlier, last := Nearest(instants[..|instants| - 1]), instants[|instants| - 1];
      assert instants == instants[..|instants| - 1] + [last];
      match earlier
      case None => Some(last)
      case Some(d) => Some(Min(d, last))
  }

  lemma NearestAppend(instants: seq<nat>, last: nat)
    ensures Nearest(instants + [last]) == match Nearest(instants)
                                          case None => Some(last)
                                          case Some(d) => Some(Min(d, last))
  {
    assert (instants + [last])[..|instants|] == instants;
  }

  // ---------------------------------------------------------------------------------------------
  // Who holds which request
  // ---------------------------------------------------------------------------------------------

  function WaiterKeys(waiters: seq<Waiter>): seq<Key> {
    seq(|waiters|, i requires 0 <= i < |waiters| => waiters[i].key)
  }

  function WriteKeys(writes: seq<PendingWrite>): seq<Key> {
    seq(|writes|, i requires 0 <= i < |writes| => writes[i].key)
  }

  function WindowKeys(window: Window): multiset<Key> {
    multiset(WaiterKeys(window.waiters)) + multiset(WriteKeys(window.writes))
  }

  /** Everything held for a window id, live or not. */
  function Held(windows: Windows, gestures: Gestures, id: nat): multiset<Key> {
    (if id in windows then WindowKeys(windows[id]) else multiset{})
    + (if id in gestures then multiset{gestures[id].key} else multiset{})
  }

  datatype Status = Waiting(window: nat) | Answered | Dropped

  type Ledger = map<Key, Status>

  function One(holds: bool): nat {
    if holds then 1 else 0
  }

  /**
   A request is held by the window it waits at, once, and by no other; it has been answered once if its
   status says so, and never otherwise.
   */
  ghost predicate Books(ledger: Ledger, windows: Windows, gestures: Gestures, answers: seq<Key>) {
    HoldingsAgree(ledger, windows, gestures) && AnswersAgree(ledger, answers)
  }

  ghost predicate HoldingsAgree(ledger: Ledger, windows: Windows, gestures: Gestures) {
    forall id: nat, k: Key :: Held(windows, gestures, id)[k] == One(k in ledger && ledger[k] == Waiting(id))
  }

  ghost predicate AnswersAgree(ledger: Ledger, answers: seq<Key>) {
    forall k: Key :: multiset(answers)[k] == One(k in ledger && ledger[k] == Answered)
  }

  /** Rearranging what one window holds changes nothing. */
  lemma Rearrange(ledger: Ledger, windows: Windows, gestures: Gestures, answers: seq<Key>, id: nat,
                  windows': Windows, gestures': Gestures)
    requires Books(ledger, windows, gestures, answers)
    requires Held(windows', gestures', id) == Held(windows, gestures, id)
    requires forall other: nat :: other != id ==> Held(windows', gestures', other) == Held(windows, gestures, other)
    ensures Books(ledger, windows', gestures', answers)
  {
    hide Held;
    forall other: nat, k: Key
      ensures Held(windows', gestures', other)[k] == One(k in ledger && ledger[k] == Waiting(other))
    {
      assert Held(windows', gestures', other) == Held(windows, gestures, other);
    }
  }

  /** A new request starts waiting at a window. */
  lemma Open(ledger: Ledger, windows: Windows, gestures: Gestures, answers: seq<Key>, id: nat, key: Key,
             windows': Windows, gestures': Gestures)
    requires Books(ledger, windows, gestures, answers) && key !in ledger
    requires Held(windows', gestures', id) == Held(windows, gestures, id) + multiset{key}
    requires forall other: nat :: other != id ==> Held(windows', gestures', other) == Held(windows, gestures, other)
    ensures Books(ledger[key := Waiting(id)], windows', gestures', answers)
  {
    hide Held;
    var ledger' := ledger[key := Waiting(id)];
    forall other: nat, k: Key
      ensures Held(windows', gestures', other)[k] == One(k in ledger' && ledger'[k] == Waiting(other))
    {
      assert Held(windows, gestures, other)[k] == One(k in ledger && ledger[k] == Waiting(other));
    }
    forall k: Key
      ensures multiset(answers)[k] == One(k in ledger' && ledger'[k] == Answered)
    {
      assert multiset(answers)[k] == One(k in ledger && ledger[k] == Answered);
    }
  }

  /** A waiting request is answered, or dropped because its connection is gone. */
  lemma Close(ledger: Ledger, windows: Windows, gestures: Gestures, answers: seq<Key>, id: nat, key: Key,
              windows': Windows, gestures': Gestures, answered: bool)
    requires Books(ledger, windows, gestures, answers) && key in Held(windows, gestures, id)
    requires Held(windows', gestures', id) == Held(windows, gestures, id) - multiset{key}
    requires forall other: nat :: other != id ==> Held(windows', gestures', other) == Held(windows, gestures, other)
    ensures key in ledger && ledger[key] == Waiting(id)
    ensures Books(ledger[key := if answered then Answered else Dropped], windows', gestures',
                  if answered then answers + [key] else answers)
  {
    hide Held;
    var ledger' := ledger[key := if answered then Answered else Dropped];
    CloseHoldings(ledger, windows, gestures, id, key, ledger', windows', gestures');
    CloseAnswers(ledger, answers, key, answered);
  }

  lemma CloseHoldings(ledger: Ledger, windows: Windows, gestures: Gestures, id: nat, key: Key,
                      ledger': Ledger, windows': Windows, gestures': Gestures)
    requires HoldingsAgree(ledger, windows, gestures) && key in Held(windows, gestures, id)
    requires Held(windows', gestures', id) == Held(windows, gestures, id) - multiset{key}
    requires forall other: nat :: other != id ==> Held(windows', gestures', other) == Held(windows, gestures, other)
    requires key in ledger' && !ledger'[key].Waiting? && ledger' == ledger[key := ledger'[key]]
    ensures key in ledger && ledger[key] == Waiting(id) && HoldingsAgree(ledger', windows', gestures')
  {
    hide Held;
    assert Held(windows, gestures, id)[key] == One(key in ledger && ledger[key] == Waiting(id));
    forall other: nat, k: Key
      ensures Held(windows', gestures', other)[k] == One(k in ledger' && ledger'[k] == Waiting(other))
    {
      assert Held(windows, gestures, other)[k] == One(k in ledger && ledger[k] == Waiting(other));
    }
  }

  lemma CloseAnswers(ledger: Ledger, answers: seq<Key>, key: Key, answered: bool)
    requires AnswersAgree(ledger, answers) && key in ledger && ledger[key].Waiting?
    ensures AnswersAgree(ledger[key := if answered then Answered else Dropped],
                         if answered then answers + [key] else answers)
  {
    var ledger' := ledger[key := if answered then Answered else Dropped];
    var answers' := if answered then answers + [key] else answers;
    forall k: Key
      ensures multiset(answers')[k] == One(k in ledger' && ledger'[k] == Answered)
    {
      assert multiset(answers)[k] == One(k in ledger && ledger[k] == Answered);
      assert multiset(answers')[k] == multiset(answers)[k] + One(answered && k == key);
    }
  }

  /** A request that is answered on the spot. */
  lemma Refuse(ledger: Ledger, windows: Windows, gestures: Gestures, answers: seq<Key>, key: Key)
    requires Books(ledger, windows, gestures, answers) && key !in ledger
    ensures Books(ledger[key := Answered], windows, gestures, answers + [key])
  {
    hide Held;
    var ledger' := ledger[key := Answered];
    forall other: nat, k: Key
      ensures Held(windows, gestures, other)[k] == One(k in ledger' && ledger'[k] == Waiting(other))
    {
      assert Held(windows, gestures, other)[k] == One(k in ledger && ledger[k] == Waiting(other));
    }
    forall k: Key
      ensures multiset(answers + [key])[k] == One(k in ledger' && ledger'[k] == Answered)
    {
      assert multiset(answers)[k] == One(k in ledger && ledger[k] == Answered);
      assert multiset(answers + [key])[k] == multiset(answers)[k] + One(k == key);
    }
  }

  // ---------------------------------------------------------------------------------------------
  // The moves the handlers make
  // ---------------------------------------------------------------------------------------------

  lemma WaiterKeysSplit(a: seq<Waiter>, w: Waiter, b: seq<Waiter>)
    ensures multiset(WaiterKeys(a + [w] + b)) == multiset(WaiterKeys(a + b)) + multiset{w.key}
  {
    assert WaiterKeys(a + [w] + b) == WaiterKeys(a) + [w.key] + WaiterKeys(b);
    assert WaiterKeys(a + b) == WaiterKeys(a) + WaiterKeys(b);
  }

  /** `Vec::swap_remove`. */
  function SwapRemove<T>(s: seq<T>, i: nat): seq<T>
    requires i < |s|
  {
    var last := |s| - 1;
    if i == last then s[..last] else s[..last][i := s[last]]
  }

  lemma WriteKeysSwapRemove(writes: seq<PendingWrite>, i: nat)
    requires i < |writes|
    ensures multiset(WriteKeys(writes)) == multiset(WriteKeys(SwapRemove(writes, i))) + multiset{writes[i].key}
  {
    var last := |writes| - 1;
    var keys := WriteKeys(writes);
    if i == last {
      assert keys == WriteKeys(writes[..last]) + [writes[i].key];
    } else {
      assert keys == keys[..i] + [keys[i]] + keys[i + 1..last] + [keys[last]];
      assert WriteKeys(SwapRemove(writes, i)) == keys[..i] + [keys[last]] + keys[i + 1..last];
    }
  }

  function WithWaiters(windows: Windows, id: nat, waiters: seq<Waiter>): Windows
    requires id in windows
  {
    windows[id := windows[id].(waiters := waiters)]
  }

  function WithWrites(windows: Windows, id: nat, writes: seq<PendingWrite>): Windows
    requires id in windows
  {
    windows[id := windows[id].(writes := writes)]
  }

  /** Exchanging the waits of one window exchanges what it holds, and nothing else. */
  lemma HeldWithWaiters(windows: Windows, gestures: Gestures, id: nat, before: seq<Waiter>, after: seq<Waiter>,
                        key: Key)
    requires id in windows && multiset(WaiterKeys(before)) == multiset(WaiterKeys(after)) + multiset{key}
    ensures var with, without := WithWaiters(windows, id, before), WithWaiters(windows, id, after);
      && key in Held(with, gestures, id)
      && Held(without, gestures, id) == Held(with, gestures, id) - multiset{key}
      && forall other: nat :: other != id ==> Held(without, gestures, other) == Held(with, gestures, other)
  {
  }

  lemma HeldWithWrites(windows: Windows, gestures: Gestures, id: nat, before: seq<PendingWrite>,
                       after: seq<PendingWrite>, key: Key)
    requires id in windows && multiset(WriteKeys(before)) == multiset(WriteKeys(after)) + multiset{key}
    ensures var with, without := WithWrites(windows, id, before), WithWrites(windows, id, after);
      && key in Held(with, gestures, id)
      && Held(without, gestures, id) == Held(with, gestures, id) - multiset{key}
      && forall other: nat :: other != id ==> Held(without, gestures, other) == Held(with, gestures, other)
  {
  }

  lemma CloseWaiter(ledger: Ledger, windows: Windows, gestures: Gestures, answers: seq<Key>, id: nat,
                    a: seq<Waiter>, w: Waiter, b: seq<Waiter>, answered: bool)
    requires id in windows
    requires Books(ledger, WithWaiters(windows, id, a + [w] + b), gestures, answers)
    ensures Books(ledger[w.key := if answered then Answered else Dropped], WithWaiters(windows, id, a + b), gestures,
                  if answered then answers + [w.key] else answers)
    ensures w.key in ledger
  {
    hide Books, Held;
    WaiterKeysSplit(a, w, b);
    HeldWithWaiters(windows, gestures, id, a + [w] + b, a + b, w.key);
    Close(ledger, WithWaiters(windows, id, a + [w] + b), gestures, answers, id, w.key,
          WithWaiters(windows, id, a + b), gestures, answered);
  }

  lemma OpenWaiter(ledger: Ledger, windows: Windows, gestures: Gestures, answers: seq<Key>, id: nat, w: Waiter)
    requires id in windows && w.key !in ledger
    requires Books(ledger, windows, gestures, answers)
    ensures Books(ledger[w.key := Waiting(id)], WithWaiters(windows, id, windows[id].waiters + [w]), gestures, answers)
  {
    WaiterKeysSplit(windows[id].waiters, w, []);
    assert windows[id].waiters + [w] + [] == windows[id].waiters + [w]
      && windows[id].waiters + [] == windows[id].waiters;
    Open(ledger, windows, gestures, answers, id, w.key, WithWaiters(windows, id, windows[id].waiters + [w]), gestures);
  }

  lemma OpenWrite(ledger: Ledger, windows: Windows, gestures: Gestures, answers: seq<Key>, id: nat, p: PendingWrite)
    requires id in windows && p.key !in ledger
    requires Books(ledger, windows, gestures, answers)
    ensures Books(ledger[p.key := Waiting(id)], WithWrites(windows, id, windows[id].writes + [p]), gestures, answers)
  {
    assert WriteKeys(windows[id].writes + [p]) == WriteKeys(windows[id].writes) + [p.key];
    Open(ledger, windows, gestures, answers, id, p.key, WithWrites(windows, id, windows[id].writes + [p]), gestures);
  }

  lemma CloseWrite(ledger: Ledger, windows: Windows, gestures: Gestures, answers: seq<Key>, id: nat, i: nat)
    requires id in windows && i < |windows[id].writes|
    requires Books(ledger, windows, gestures, answers)
    ensures var key := windows[id].writes[i].key;
      key in ledger
      && Books(ledger[key := Answered], WithWrites(windows, id, SwapRemove(windows[id].writes, i)), gestures,
               answers + [key])
  {
    hide Books, SwapRemove, Held;
    WriteKeysSwapRemove(windows[id].writes, i);
    var writes := windows[id].writes;
    HeldWithWrites(windows, gestures, id, writes, SwapRemove(writes, i), writes[i].key);
    assert WithWrites(windows, id, writes) == windows;
    Close(ledger, windows, gestures, answers, id, windows[id].writes[i].key,
          WithWrites(windows, id, SwapRemove(windows[id].writes, i)), gestures, true);
  }

  lemma WriteKeysSplit(a: seq<PendingWrite>, p: PendingWrite, b: seq<PendingWrite>)
    ensures multiset(WriteKeys(a + [p] + b)) == multiset(WriteKeys(a + b)) + multiset{p.key}
  {
    assert WriteKeys(a + [p] + b) == WriteKeys(a) + [p.key] + WriteKeys(b);
    assert WriteKeys(a + b) == WriteKeys(a) + WriteKeys(b);
  }

  lemma CloseWriteInside(ledger: Ledger, windows: Windows, gestures: Gestures, answers: seq<Key>, id: nat,
                         a: seq<PendingWrite>, p: PendingWrite, b: seq<PendingWrite>, answered: bool)
    requires id in windows
    requires Books(ledger, WithWrites(windows, id, a + [p] + b), gestures, answers)
    ensures Books(ledger[p.key := if answered then Answered else Dropped], WithWrites(windows, id, a + b), gestures,
                  if answered then answers + [p.key] else answers)
    ensures p.key in ledger
  {
    hide Books, Held;
    WriteKeysSplit(a, p, b);
    HeldWithWrites(windows, gestures, id, a + [p] + b, a + b, p.key);
    Close(ledger, WithWrites(windows, id, a + [p] + b), gestures, answers, id, p.key,
          WithWrites(windows, id, a + b), gestures, answered);
  }

  lemma OpenGesture(ledger: Ledger, windows: Windows, gestures: Gestures, answers: seq<Key>, id: nat, g: PacedRequest)
    requires id !in gestures && g.key !in ledger
    requires Books(ledger, windows, gestures, answers)
    ensures Books(ledger[g.key := Waiting(id)], windows, gestures[id := g], answers)
  {
    Open(ledger, windows, gestures, answers, id, g.key, windows, gestures[id := g]);
  }

  lemma CloseGesture(ledger: Ledger, windows: Windows, gestures: Gestures, answers: seq<Key>, id: nat, answered: bool)
    requires id in gestures
    requires Books(ledger, windows, gestures, answers)
    ensures var key := gestures[id].key;
      key in ledger
      && Books(ledger[key := if answered then Answered else Dropped], windows, gestures - {id},
               if answered then answers + [key] else answers)
  {
    Close(ledger, windows, gestures, answers, id, gestures[id].key, windows, gestures - {id}, answered);
  }

  lemma StepGesture(ledger: Ledger, windows: Windows, gestures: Gestures, answers: seq<Key>, id: nat, g: PacedRequest)
    requires id in gestures && g.key == gestures[id].key
    requires Books(ledger, windows, gestures, answers)
    ensures Books(ledger, windows, gestures[id := g], answers)
  {
    Rearrange(ledger, windows, gestures, answers, id, windows, gestures[id := g]);
  }

  /** A gesture that has finished waits for its last write like any other wait. */
  lemma GestureBecomesWaiter(ledger: Ledger, windows: Windows, gestures: Gestures, answers: seq<Key>, id: nat,
                             w: Waiter)
    requires id in gestures && id in windows && w.key == gestures[id].key
    requires Books(ledger, windows, gestures, answers)
    ensures Books(ledger, WithWaiters(windows, id, windows[id].waiters + [w]), gestures - {id}, answers)
  {
    WaiterKeysSplit(windows[id].waiters, w, []);
    assert windows[id].waiters + [w] + [] == windows[id].waiters + [w]
      && windows[id].waiters + [] == windows[id].waiters;
    Rearrange(ledger, windows, gestures, answers, id,
              WithWaiters(windows, id, windows[id].waiters + [w]), gestures - {id});
  }

  /** A window's screen moved on; it holds what it held. */
  lemma SameHoldings(ledger: Ledger, windows: Windows, gestures: Gestures, answers: seq<Key>, id: nat, window: Window)
    requires id in windows && window.waiters == windows[id].waiters && window.writes == windows[id].writes
    requires Books(ledger, windows, gestures, answers)
    ensures Books(ledger, windows[id := window], gestures, answers)
  {
    Rearrange(ledger, windows, gestures, answers, id, windows[id := window], gestures);
  }

  /** A window that holds nothing opens or goes away. */
  lemma EmptyWindow(ledger: Ledger, windows: Windows, gestures: Gestures, answers: seq<Key>, id: nat,
                    windows': Windows)
    requires Books(ledger, windows, gestures, answers)
    requires id in windows ==> windows[id].waiters == [] && windows[id].writes == []
    requires id in windows' ==> windows'[id].waiters == [] && windows'[id].writes == []
    requires windows - {id} == windows' - {id}
    ensures Books(ledger, windows', gestures, answers)
  {
    forall other: nat | other != id
      ensures Held(windows', gestures, other) == Held(windows, gestures, other)
    {
      assert other in windows <==> other in windows - {id};
      assert other in windows' <==> other in windows' - {id};
    }
    Rearrange(ledger, windows, gestures, answers, id, windows', gestures);
  }

  lemma TwiceCounts(keys: seq<Key>, i: nat, j: nat)
    requires i < j < |keys|
    ensures keys[i] == keys[j] ==> multiset(keys)[keys[i]] >= 2
  {
    var front, back := keys[..j], keys[j..];
    assert keys == front + back;
    assert front[i] in multiset(front) && back[0] in multiset(back);
  }

  /** What the books say in plain words. */
  lemma AnsweredAtMostOnce(ledger: Ledger, windows: Windows, gestures: Gestures, answers: seq<Key>, i: nat, j: nat)
    requires Books(ledger, windows, gestures, answers) && i < j < |answers|
    ensures answers[i] != answers[j]
  {
    TwiceCounts(answers, i, j);
    assert multiset(answers)[answers[i]] <= 1;
  }

  /** A request that still waits has not been answered, and is held by exactly one window, once. */
  lemma NoneForgotten(ledger: Ledger, windows: Windows, gestures: Gestures, answers: seq<Key>, k: Key)
    requires Books(ledger, windows, gestures, answers) && k in ledger
    ensures match ledger[k]
            case Answered => k in answers && forall id: nat :: Held(windows, gestures, id)[k] == 0
            case Dropped => k !in answers && forall id: nat :: Held(windows, gestures, id)[k] == 0
            case Waiting(home) => k !in answers && forall id: nat :: Held(windows, gestures, id)[k] == One(id == home)
  {
    assert multiset(answers)[k] == One(ledger[k] == Answered);
    assert k in answers <==> k in multiset(answers);
    forall id: nat
      ensures Held(windows, gestures, id)[k] == One(ledger[k] == Waiting(id))
    {
    }
  }
}
