/**
 Reassembly of chunked desktop notifications.  Chunks of many notifications interleave; each is put
 together from exactly its own chunks, within bounds.

 Text is UTF-8, so its length is its byte length.  Instants are milliseconds.
 */
module Notifications {
  import opened Wrappers
  import opened LittleEndian
  import RateLimiter

  const MAX_ASSEMBLED_BYTES: nat := 16 * 1024
  const MAX_PENDING: nat := 64
  const ASSEMBLY_TIMEOUT: nat := 30_000

  type Text = seq<Byte>
  type Id = seq<Byte>

  datatype Occasion = Always | Unfocused | Invisible
  datatype Urgency = Low | Normal | Critical
  datatype Expiry = DefaultExpiry | Never | Milliseconds(ms: nat)
  datatype Sound = System | Silent

  datatype Payload = Title(text: Text) | Body(text: Text) | Close | Query | Unsupported

  datatype Options = Options(focus: Option<bool>, occasion: Option<Occasion>, urgency: Option<Urgency>,
                             expiry: Option<Expiry>, sound: Option<Sound>)

  datatype Request = Request(id: Option<Id>, payload: Payload, done: bool, options: Options)

  datatype Message = Legacy(title: Text) | Kitty(request: Request)

  datatype Settings = Settings(focus: bool, occasion: Occasion, urgency: Urgency, expiry: Expiry, sound: Sound)

  const DEFAULTS: Settings := Settings(true, Always, Normal, DefaultExpiry, System)

  datatype Assembly = Assembly(title: Text, body: Text, settings: Settings, updatedAt: nat)

  datatype Notification = Notification(id: Option<Id>, title: Text, body: Text, settings: Settings)

  datatype WindowState = WindowState(focused: bool, visible: bool, occluded: bool, headless: bool)

  function GetOr<T>(option: Option<T>, default: T): T {
    match option case Some(value) => value case None => default
  }

  /** Later options override earlier ones field by field. */
  function Override(settings: Settings, options: Options): Settings {
    Settings(GetOr(options.focus, settings.focus), GetOr(options.occasion, settings.occasion),
             GetOr(options.urgency, settings.urgency), GetOr(options.expiry, settings.expiry),
             GetOr(options.sound, settings.sound))
  }

  predicate OccasionMatches(occasion: Occasion, state: WindowState) {
    match occasion
    case Always => true
    case Unfocused => !state.focused
    case Invisible => !state.focused && (state.headless || !state.visible || state.occluded)
  }

  // ---------------------------------------------------------------------------------------------
  // What has happened, and what it amounts to for one notification
  // ---------------------------------------------------------------------------------------------

  datatype Happening =
    | Chunk(id: Id, payload: Payload, options: Options, at: nat)
    | Completed(id: Id)
    | Closed(id: Id)
    | Evicted(id: Id)
    | Expired(id: Id)
    | Overflowed(id: Id)
    | Disabled

  predicate Ends(happening: Happening, id: Id) {
    happening.Disabled? || (!happening.Chunk? && happening.id == id)
  }

  /** The chunks of one notification since it last ended. */
  function Since(log: seq<Happening>, id: Id): seq<Happening> {
    if log == [] then [] else
      var last := log[|log| - 1];
      if Ends(last, id) then []
      else if last.Chunk? && last.id == id then Since(log[..|log| - 1], id) + [last]
      else Since(log[..|log| - 1], id)
  }

  function Titles(chunks: seq<Happening>): Text {
    if chunks == [] then [] else
      var last := chunks[|chunks| - 1];
      Titles(chunks[..|chunks| - 1]) + (if last.Chunk? && last.payload.Title? then last.payload.text else [])
  }

  function Bodies(chunks: seq<Happening>): Text {
    if chunks == [] then [] else
      var last := chunks[|chunks| - 1];
      Bodies(chunks[..|chunks| - 1]) + (if last.Chunk? && last.payload.Body? then last.payload.text else [])
  }

  function SettingsOf(chunks: seq<Happening>): Settings {
    if chunks == [] then DEFAULTS else
      var last := chunks[|chunks| - 1];
      var earlier := SettingsOf(chunks[..|chunks| - 1]);
      if last.Chunk? then Override(earlier, last.options) else earlier
  }

  function LastChange(chunks: seq<Happening>): nat {
    if chunks == [] || !chunks[|chunks| - 1].Chunk? then 0 else chunks[|chunks| - 1].at
  }

  /** Exactly the payloads of the chunks, in order, and the latest options. */
  function AssemblyOf(chunks: seq<Happening>): Assembly {
    Assembly(Titles(chunks), Bodies(chunks), SettingsOf(chunks), LastChange(chunks))
  }

  function Size(assembly: Assembly): nat {
    |assembly.title| + |assembly.body|
  }

  /** The pending table is what the log says it should be. */
  ghost predicate Reflects(pending: map<Id, Assembly>, log: seq<Happening>) {
    forall id: Id ::
      && (id in pending <==> Since(log, id) != [])
      && (id in pending ==> pending[id] == AssemblyOf(Since(log, id)))
  }

  ghost predicate Bounded(pending: map<Id, Assembly>) {
    |pending| <= MAX_PENDING && forall id :: id in pending ==> Size(pending[id]) <= MAX_ASSEMBLED_BYTES
  }

  lemma SinceStep(log: seq<Happening>, happening: Happening, id: Id)
    ensures Since(log + [happening], id) ==
      if Ends(happening, id) then []
      else if happening.Chunk? && happening.id == id then Since(log, id) + [happening]
      else Since(log, id)
  {
    assert (log + [happening])[..|log|] == log;
  }

  /** One notification ends. */
  lemma EndReflects(pending: map<Id, Assembly>, log: seq<Happening>, happening: Happening)
    requires Reflects(pending, log) && !happening.Chunk? && !happening.Disabled?
    ensures Reflects(pending - {happening.id}, log + [happening])
  {
    forall id: Id
      ensures id in pending - {happening.id} <==> Since(log + [happening], id) != []
      ensures id in pending - {happening.id} ==>
        (pending - {happening.id})[id] == AssemblyOf(Since(log + [happening], id))
    {
      SinceStep(log, happening, id);
    }
  }

  lemma DisableReflects(log: seq<Happening>)
    ensures Reflects(map[], log + [Disabled])
  {
    forall id: Id
      ensures Since(log + [Disabled], id) == []
    {
      SinceStep(log, Disabled, id);
    }
  }

  lemma AssemblyStep(chunks: seq<Happening>, chunk: Happening)
    requires chunk.Chunk? && (chunk.payload.Title? || chunk.payload.Body?)
    ensures var before := AssemblyOf(chunks);
      AssemblyOf(chunks + [chunk]) ==
        (if chunk.payload.Title? then before.(title := before.title + chunk.payload.text)
         else before.(body := before.body + chunk.payload.text))
        .(settings := Override(before.settings, chunk.options), updatedAt := chunk.at)
  {
    assert (chunks + [chunk])[..|chunks|] == chunks;
    assert forall text: Text :: text + [] == text;
  }

  /** One notification grows by a chunk. */
  lemma ChunkReflects(pending: map<Id, Assembly>, log: seq<Happening>, chunk: Happening, grown: Assembly)
    requires Reflects(pending, log) && chunk.Chunk?
    requires grown == AssemblyOf(Since(log, chunk.id) + [chunk])
    ensures Reflects(pending[chunk.id := grown], log + [chunk])
  {
    forall id: Id
      ensures id in pending[chunk.id := grown] <==> Since(log + [chunk], id) != []
      ensures id in pending[chunk.id := grown] ==>
        pending[chunk.id := grown][id] == AssemblyOf(Since(log + [chunk], id))
    {
      SinceStep(log, chunk, id);
    }
  }

  /** Some pending assembly is no younger than any other. */
  lemma OldestExists(pending: map<Id, Assembly>, ids: set<Id>) returns (oldest: Id)
    requires ids != {} && ids <= pending.Keys
    ensures oldest in ids && forall id :: id in ids ==> pending[oldest].updatedAt <= pending[id].updatedAt
    decreases |ids|
  {
    oldest :| oldest in ids;
    var rest := ids - {oldest};
    if rest != {} {
      var other := OldestExists(pending, rest);
      if pending[other].updatedAt < pending[oldest].updatedAt {
        oldest := other;
      }
    }
  }

  /** What the worker that owns the shown notifications is told. */
  datatype Command = Show(notification: Notification) | CloseById(id: Id) | ClearAll

  /** The id a query without one is answered under. */
  const NO_ID: Id := [0x30]

  /** A request to close reaches the worker whether or not the notification is still being put together. */
  function Withdrawn(request: Request, commands: seq<Command>): seq<Command> {
    if request.payload.Close? && request.id.Some? then commands + [CloseById(request.id.value)] else commands
  }

  function Replied(request: Request, replies: seq<Id>): seq<Id> {
    if request.payload.Query? then replies + [GetOr(request.id, NO_ID)] else replies
  }

  /** A call of `submit`. */
  datatype Submission = Submission(id: Option<Id>, assembly: Assembly)

  function WithIds(submissions: seq<Submission>): seq<Submission> {
    if submissions == [] then [] else
      var earlier, last := WithIds(submissions[..|submissions| - 1]), submissions[|submissions| - 1];
      if last.id.Some? then earlier + [last] else earlier
  }

  /** The notifications a log completes, each from its own chunks since it last ended. */
  function CompletedIn(log: seq<Happening>): seq<Submission> {
    if log == [] then [] else
      var earlier, last := log[..|log| - 1], log[|log| - 1];
      if last.Completed? then CompletedIn(earlier) + [Submission(Some(last.id), AssemblyOf(Since(earlier, last.id)))]
      else CompletedIn(earlier)
  }

  lemma WithIdsStep(submissions: seq<Submission>, submission: Submission)
    ensures WithIds(submissions + [submission]) ==
      if submission.id.Some? then WithIds(submissions) + [submission] else WithIds(submissions)
  {
    assert (submissions + [submission])[..|submissions|] == submissions;
  }

  lemma CompletedStep(log: seq<Happening>, happening: Happening)
    ensures CompletedIn(log + [happening]) ==
      if happening.Completed? then
        CompletedIn(log) + [Submission(Some(happening.id), AssemblyOf(Since(log, happening.id)))]
      else CompletedIn(log)
  {
    assert (log + [happening])[..|log|] == log;
  }

  /** A chunk that completes its notification, or overflows it. */
  lemma CompletedTwice(log: seq<Happening>, chunk: Happening, end: Happening)
    requires chunk.Chunk? && !end.Chunk? && !end.Disabled? && end.id == chunk.id
    ensures CompletedIn(log + [chunk, end]) ==
      if end.Completed? then CompletedIn(log) + [Submission(Some(chunk.id), AssemblyOf(Since(log, chunk.id) + [chunk]))]
      else CompletedIn(log)
  {
    assert log + [chunk] + [end] == log + [chunk, end];
    CompletedStep(log, chunk);
    CompletedStep(log + [chunk], end);
    SinceStep(log, chunk, chunk.id);
  }

  /** What the backend is asked to show: a body without a title becomes the title. */
  function Shown(id: Option<Id>, assembly: Assembly, canFocus: bool): Option<Notification> {
    var (title, body) := if assembly.title == [] then (assembly.body, []) else (assembly.title, assembly.body);
    if title == [] then None
    else Some(Notification(id, title, body, assembly.settings.(focus := assembly.settings.focus && canFocus)))
  }

  class NotificationController {
    var enabled: bool
    const canFocus: bool
    var pending: map<Id, Assembly>
    const limiter: RateLimiter.RateLimiter

    /** Calls of `submit`, and what the worker was told, oldest first. */
    var submitted: seq<Submission>
    var commands: seq<Command>

    /** The ids of the capability queries answered to the terminal, oldest first. */
    var replies: seq<Id>

    ghost var log: seq<Happening>

    ghost predicate PendingRight()
      reads this, limiter
    {
      && Reflects(pending, log)
      && Bounded(pending)
      && RateLimiter.InRange(limiter.Current())
    }

    /** Besides, what has reached `submit` under an id is what the log calls complete, piece by piece. */
    ghost predicate Valid()
      reads this, limiter
    {
      PendingRight() && WithIds(submitted) == CompletedIn(log)
    }

    constructor (enabled: bool, canFocus: bool, now: nat)
      ensures Valid() && log == [] && submitted == [] && commands == [] && replies == [] && pending == map[]
        && fresh(limiter)
      ensures limiter.updatedAt == now as real / 1000.0
    {
      this.enabled, this.canFocus := enabled, canFocus;
      pending, submitted, commands, replies, log := map[], [], [], [], [];
      limiter := new RateLimiter.RateLimiter(now as real / 1000.0);
    }

    method SetEnabled(on: bool)
      requires Valid()
      modifies this`enabled, this`pending, this`log, this`commands
      ensures Valid() && enabled == on
      ensures if old(enabled) && !on then
                pending == map[] && log == old(log) + [Disabled] && commands == old(commands) + [ClearAll]
              else pending == old(pending) && log == old(log) && commands == old(commands)
    {
      hide Reflects, Since, WithIds, CompletedIn, Size;
      if enabled && !on {
        DisableReflects(log);
        CompletedStep(log, Disabled);
        pending := map[];
        log := log + [Disabled];
        commands := commands + [ClearAll];
      }
      enabled := on;
    }

    /** Give up on notifications that have not grown for too long. */
    method ExpirePending(now: nat)
      requires Valid()
      modifies this`pending, this`log
      ensures Valid() && pending == Fresh(old(pending), now)
      ensures old(log) <= log && ExpiredBy(log[|old(log)|..], old(pending), now)
    {
      hide Reflects, Size, Bounded, WithIds, CompletedIn, Expiring;
      var expired := set id | id in pending && !(now < pending[id].updatedAt + ASSEMBLY_TIMEOUT);
      ghost var gone: seq<Happening> := [];
      NoneExpired(pending, now);
      while expired != {}
        invariant Reflects(pending, log) && WithIds(submitted) == CompletedIn(log)
        invariant Expiring(expired, gone, pending, old(pending), now) && log == old(log) + gone
        decreases expired
      {
        var id :| id in expired;
        ExpireOne(expired, gone, pending, old(pending), now, id);
        EndReflects(pending, log, Expired(id));
        CompletedStep(log, Expired(id));
        expired := expired - {id};
        log := log + [Expired(id)];
        gone := gone + [Expired(id)];
        pending := pending - {id};
      }
      AllOverdueExpired(gone, pending, old(pending), now);
      FewerPending(old(pending), pending);
    }

    /** Ask the backend to show an assembly, if its occasion matches and the limiter allows. */
    method Submit(assembly: Assembly, id: Option<Id>, state: WindowState, now: nat)
      requires PendingRight() && now as real / 1000.0 >= limiter.updatedAt
      modifies this`submitted, this`commands, limiter
      ensures PendingRight() && submitted == old(submitted) + [Submission(id, assembly)]
      ensures limiter.updatedAt <= now as real / 1000.0
      ensures (limiter.Current(), commands) ==
        Presented([Submission(id, assembly)], state, now, canFocus, old(limiter.Current()), old(commands))
    {
      hide Reflects;
      submitted := submitted + [Submission(id, assembly)];
      if !OccasionMatches(assembly.settings.occasion, state) {
        return;
      }
      var allowed := limiter.Take(now as real / 1000.0);
      if !allowed {
        return;
      }
      var notification := Shown(id, assembly, canFocus);
      if notification.Some? {
        commands := commands + [Show(notification.value)];
      }
    }

    /** Make room for a new notification by forgetting the one that has waited longest. */
    method MakeRoom(id: Id)
      requires Valid()
      modifies this`pending, this`log
      ensures Valid() && (id in pending || |pending| < MAX_PENDING)
      ensures MadeRoom(old(pending), id, old(log), log)
      ensures id in old(pending) || |old(pending)| < MAX_PENDING ==> pending == old(pending)
      ensures !(id in old(pending) || |old(pending)| < MAX_PENDING) ==>
        exists oldest :: LongestWaiting(old(pending), oldest) && pending == old(pending) - {oldest}
                         && log == old(log) + [Evicted(oldest)]
    {
      hide Reflects, Size, WithIds, CompletedIn;
      if id !in pending && |pending| >= MAX_PENDING {
        assert pending.Keys != {};
        ghost var _ := OldestExists(pending, pending.Keys);
        var oldest :| oldest in pending && forall k :: k in pending ==>
          pending[oldest].updatedAt <= pending[k].updatedAt;
        EndReflects(pending, log, Evicted(oldest));
        CompletedStep(log, Evicted(oldest));
        FewerPending(pending, pending - {oldest});
        log := log + [Evicted(oldest)];
        pending := pending - {oldest};
      }
    }

    /** Take in one title or body chunk of the notification `id`. */
    method AddChunk(id: Id, request: Request, state: WindowState, now: nat)
      requires Valid() && (request.payload.Title? || request.payload.Body?)
      requires id in pending || |pending| < MAX_PENDING
      requires now as real / 1000.0 >= limiter.updatedAt
      modifies this`pending, this`submitted, this`commands, this`log, limiter
      ensures Valid() && limiter.updatedAt <= now as real / 1000.0
      ensures var chunk := Chunk(id, request.payload, request.options, now);
        var grown := AssemblyOf(Since(old(log), id) + [chunk]);
        if Size(grown) > 16_384 then
          log == old(log) + [chunk, Overflowed(id)] && submitted == old(submitted)
        else if request.done then
          log == old(log) + [chunk, Completed(id)] && submitted == old(submitted) + [Submission(Some(id), grown)]
        else
          log == old(log) + [chunk] && submitted == old(submitted)
      ensures old(submitted) <= submitted && (limiter.Current(), commands) ==
        Presented(submitted[|old(submitted)|..], state, now, canFocus, old(limiter.Current()), old(commands))
    {
      hide Reflects, AssemblyOf, Since, WithIds, CompletedIn;
      ghost var chunk := Chunk(id, request.payload, request.options, now);
      CurrentAssembly(pending, log, id);
      AssemblyStep(Since(log, id), chunk);
      var assembly := if id in pending then pending[id] else Assembly([], [], DEFAULTS, 0);
      assembly := assembly.(settings := Override(assembly.settings, request.options), updatedAt := now);
      var text := request.payload.text;
      if |assembly.title| + |assembly.body| + |text| > MAX_ASSEMBLED_BYTES {
        GrowThenEnd(pending, log, chunk, Overflowed(id));
        CompletedTwice(log, chunk, Overflowed(id));
        log := log + [chunk, Overflowed(id)];
        pending := pending - {id};
        FewerPending(old(pending), pending);
        return;
      }
      assembly := if request.payload.Title? then assembly.(title := assembly.title + text)
                  else assembly.(body := assembly.body + text);
      if request.done {
        GrowThenEnd(pending, log, chunk, Completed(id));
        CompletedTwice(log, chunk, Completed(id));
        WithIdsStep(submitted, Submission(Some(id), assembly));
        log := log + [chunk, Completed(id)];
        pending := pending - {id};
        FewerPending(old(pending), pending);
        Submit(assembly, Some(id), state, now);
      } else {
        ChunkReflects(pending, log, chunk, assembly);
        CompletedStep(log, chunk);
        OneMorePending(pending, id, assembly);
        log := log + [chunk];
        pending := pending[id := assembly];
      }
    }

    method HandleKitty(request: Request, state: WindowState, now: nat)
      requires Valid() && now as real / 1000.0 >= limiter.updatedAt
      modifies this`pending, this`submitted, this`commands, this`log, this`replies, limiter
      ensures Valid() && old(log) <= log && limiter.updatedAt <= now as real / 1000.0
      ensures Effect(request, now, old(pending), old(log), log, old(submitted), submitted)
      ensures request.payload.Query? || request.payload.Unsupported? || request.id.None? ==> pending == old(pending)
      ensures request.id.Some? && request.payload.Close? ==> pending == old(pending) - {request.id.value}
      ensures old(submitted) <= submitted && (limiter.Current(), commands) ==
        Presented(submitted[|old(submitted)|..], state, now, canFocus, old(limiter.Current()),
                  Withdrawn(request, old(commands)))
      ensures replies == Replied(request, old(replies))
    {
      hide Reflects, Since, Bounded, Size, WithIds, CompletedIn, TakesIn, Presented;
      NothingPresented(state, now, canFocus, limiter.Current(), commands);
      assert submitted[|submitted|..] == [];
      match request.payload {
        case Query =>
          replies := replies + [GetOr(request.id, NO_ID)];
          return;
        case Unsupported => return;
        case Close =>
          if request.id.Some? {
            Forget(request.id.value);
            NothingPresented(state, now, canFocus, limiter.Current(), commands);
          }
          return;
        case _ =>
      }
      if request.id.None? {
        Single(request, state, now);
        return;
      }
      TakeIn(request, state, now);
    }

    /** The terminal withdraws a notification that is still being put together. */
    method Forget(id: Id)
      requires Valid()
      modifies this`pending, this`log, this`commands
      ensures Valid() && pending == old(pending) - {id} && log == old(log) + [Closed(id)]
      ensures commands == old(commands) + [CloseById(id)]
    {
      hide Reflects, Since, Bounded, Size, WithIds, CompletedIn;
      EndReflects(pending, log, Closed(id));
      CompletedStep(log, Closed(id));
      log := log + [Closed(id)];
      FewerPending(pending, pending - {id});
      pending := pending - {id};
      commands := commands + [CloseById(id)];
    }

    /** Make room if need be, then take in a title or body chunk. */
    method TakeIn(request: Request, state: WindowState, now: nat)
      requires Valid() && request.id.Some? && (request.payload.Title? || request.payload.Body?)
      requires now as real / 1000.0 >= limiter.updatedAt
      modifies this`pending, this`submitted, this`commands, this`log, limiter
      ensures Valid() && old(log) <= log && limiter.updatedAt <= now as real / 1000.0
      ensures exists before: seq<Happening> ::
        TakesIn(old(pending), old(log), before, request, now, log, old(submitted), submitted)
      ensures old(submitted) <= submitted && (limiter.Current(), commands) ==
        Presented(submitted[|old(submitted)|..], state, now, canFocus, old(limiter.Current()), old(commands))
    {
      hide Reflects, Since, Bounded, Size, WithIds, CompletedIn, Presented;
      var id := request.id.value;
      MakeRoom(id);
      ghost var before := log;
      AddChunk(id, request, state, now);
      assert TakesIn(old(pending), old(log), before, request, now, log, old(submitted), submitted);
    }

    /** One request from the terminal: expire first, then a legacy message or a chunk. */
    method Handle(message: Message, state: WindowState, now: nat)
      requires Valid() && now as real / 1000.0 >= limiter.updatedAt
      modifies this`pending, this`submitted, this`commands, this`log, this`replies, limiter
      ensures Valid() && limiter.updatedAt <= now as real / 1000.0
      ensures !enabled ==>
        && pending == old(pending) && log == old(log) && submitted == old(submitted)
        && commands == old(commands) && replies == old(replies)
      ensures enabled && message.Legacy? ==>
        && submitted == old(submitted) + [Submission(None, Assembly(message.title, [], DEFAULTS, 0))]
        && pending == Fresh(old(pending), now)
        && exists expired: seq<Happening> :: ExpiredBy(expired, old(pending), now) && log == old(log) + expired
      ensures enabled && message.Kitty? ==> exists expired: seq<Happening> ::
        && ExpiredBy(expired, old(pending), now)
        && Effect(message.request, now, Fresh(old(pending), now), old(log) + expired, log, old(submitted), submitted)
      ensures old(log) <= log
      ensures old(submitted) <= submitted && (limiter.Current(), commands) ==
        Presented(submitted[|old(submitted)|..], state, now, canFocus, old(limiter.Current()),
                  if enabled && message.Kitty? then Withdrawn(message.request, old(commands)) else old(commands))
      ensures replies == if enabled && message.Kitty? then Replied(message.request, old(replies)) else old(replies)
    {
      hide Reflects, Bounded, WithIds, CompletedIn, Effect, ExpiredBy, Presented, Fresh;
      NothingPresented(state, now, canFocus, limiter.Current(), commands);
      assert submitted[|submitted|..] == [];
      if !enabled {
        return;
      }
      ExpirePending(now);
      ghost var expired := log[|old(log)|..];
      assert log == old(log) + expired;
      match message {
        case Legacy(title) =>
          WithIdsStep(submitted, Submission(None, Assembly(title, [], DEFAULTS, 0)));
          Submit(Assembly(title, [], DEFAULTS, 0), None, state, now);
        case Kitty(request) => HandleKitty(request, state, now);
      }
    }

    /** A notification of the terminal's own, such as a finished long command: only the limiter is asked. */
    method NotifyLocal(title: Text, body: Text, now: nat)
      requires Valid() && now as real / 1000.0 >= limiter.updatedAt
      modifies this`commands, limiter
      ensures Valid() && limiter.updatedAt <= now as real / 1000.0
      ensures var (bucket, allowed) := RateLimiter.Taken(old(limiter.Current()), now as real / 1000.0);
        && limiter.Current() == bucket
        && commands == if !allowed then old(commands) else
             old(commands) + [Show(Notification(None, title, body, DEFAULTS.(focus := canFocus)))]
    {
      hide Reflects, Bounded, WithIds, CompletedIn;
      var allowed := limiter.Take(now as real / 1000.0);
      if allowed {
        commands := commands + [Show(Notification(None, title, body, DEFAULTS.(focus := canFocus)))];
      }
    }

    /** A notification without an id is complete in one chunk or nothing. */
    method Single(request: Request, state: WindowState, now: nat)
      requires Valid() && (request.payload.Title? || request.payload.Body?)
      requires now as real / 1000.0 >= limiter.updatedAt
      modifies this`submitted, this`commands, limiter
      ensures Valid() && limiter.updatedAt <= now as real / 1000.0
      ensures var grown := AssemblyOf([Chunk([], request.payload, request.options, now)]);
        submitted == old(submitted) +
          if request.done && Size(grown) <= MAX_ASSEMBLED_BYTES then [Submission(None, grown)] else []
      ensures old(submitted) <= submitted && (limiter.Current(), commands) ==
        Presented(submitted[|old(submitted)|..], state, now, canFocus, old(limiter.Current()), old(commands))
    {
      hide Reflects, Since, Bounded, WithIds, CompletedIn;
      ghost var chunk := Chunk([], request.payload, request.options, now);
      AssemblyStep([], chunk);
      assert [] + [chunk] == [chunk] && AssemblyOf([]) == Assembly([], [], DEFAULTS, 0);
      if !request.done {
        return;
      }
      var text := request.payload.text;
      var assembly := Assembly([], [], Override(DEFAULTS, request.options), now);
      if |text| > MAX_ASSEMBLED_BYTES {
        return;
      }
      assembly := if request.payload.Title? then assembly.(title := [] + text) else assembly.(body := [] + text);
      WithIdsStep(submitted, Submission(None, assembly));
      Submit(assembly, None, state, now);
    }
  }

  /** What survives when everything that has not grown for too long is given up. */
  function Fresh(pending: map<Id, Assembly>, now: nat): map<Id, Assembly> {
    map id | id in pending && now < pending[id].updatedAt + ASSEMBLY_TIMEOUT :: pending[id]
  }

  /** Exactly the overdue notifications expire, each once. */
  ghost predicate ExpiredBy(expired: seq<Happening>, pending: map<Id, Assembly>, now: nat) {
    && (forall k :: 0 <= k < |expired| ==> expired[k].Expired?)
    && (forall id :: Expired(id) in expired <==> id in pending && id !in Fresh(pending, now))
    && (forall i, j :: 0 <= i < j < |expired| ==> expired[i] != expired[j])
  }

  /** Half-way through expiry: some are still to go, the rest are gone and noted. */
  ghost predicate Expiring(expired: set<Id>, gone: seq<Happening>, pending: map<Id, Assembly>,
                           before: map<Id, Assembly>, now: nat)
  {
    && (forall id :: id in expired <==> id in pending && id !in Fresh(before, now))
    && (forall id :: id in pending <==> id in before && Expired(id) !in gone)
    && (forall id :: id in pending ==> pending[id] == before[id])
    && (forall k :: 0 <= k < |gone| ==> gone[k].Expired?)
    && (forall id :: Expired(id) in gone ==> id in before && id !in Fresh(before, now))
    && (forall i, j :: 0 <= i < j < |gone| ==> gone[i] != gone[j])
  }

  lemma NoneExpired(pending: map<Id, Assembly>, now: nat)
    ensures Expiring(set id | id in pending && !(now < pending[id].updatedAt + ASSEMBLY_TIMEOUT), [], pending,
                     pending, now)
  {
  }

  lemma ExpireOne(expired: set<Id>, gone: seq<Happening>, pending: map<Id, Assembly>, before: map<Id, Assembly>,
                  now: nat, id: Id)
    requires Expiring(expired, gone, pending, before, now) && id in expired
    ensures Expiring(expired - {id}, gone + [Expired(id)], pending - {id}, before, now)
  {
    hide Fresh;
    assert forall h :: h in gone + [Expired(id)] <==> h in gone || h == Expired(id);
    assert forall x :: x in pending - {id} <==> x in pending && x != id;
  }

  lemma AllOverdueExpired(gone: seq<Happening>, pending: map<Id, Assembly>, before: map<Id, Assembly>, now: nat)
    requires Expiring({}, gone, pending, before, now)
    ensures ExpiredBy(gone, before, now) && pending == Fresh(before, now)
    ensures forall id :: id in pending ==> id in before && pending[id] == before[id]
  {
    assert forall id :: id in pending <==> id in Fresh(before, now);
  }

  /** Room for a new notification: nothing goes below the limit; at the limit, one that has waited longest. */
  ghost predicate MadeRoom(pending: map<Id, Assembly>, id: Id, logBefore: seq<Happening>, log: seq<Happening>) {
    if id in pending || |pending| < 64 then log == logBefore
    else exists oldest :: LongestWaiting(pending, oldest) && log == logBefore + [Evicted(oldest)]
  }

  ghost predicate LongestWaiting(pending: map<Id, Assembly>, oldest: Id) {
    oldest in pending && forall k :: k in pending ==> pending[oldest].updatedAt <= pending[k].updatedAt
  }

  /**
   A chunk is taken in after at most one eviction, and what `submit` then receives for its id is exactly
   the chunks since that notification last ended.
   */
  ghost predicate TakesIn(pending: map<Id, Assembly>, logBefore: seq<Happening>, before: seq<Happening>,
                          request: Request, now: nat, log: seq<Happening>,
                          submittedBefore: seq<Submission>, submitted: seq<Submission>)
    requires request.id.Some? && (request.payload.Title? || request.payload.Body?)
  {
    var id := request.id.value;
    var chunk := Chunk(id, request.payload, request.options, now);
    var grown := AssemblyOf(Since(before, id) + [chunk]);
    && MadeRoom(pending, id, logBefore, before)
    && if Size(grown) > 16_384 then
         log == before + [chunk, Overflowed(id)] && submitted == submittedBefore
       else if request.done then
         log == before + [chunk, Completed(id)] && submitted == submittedBefore + [Submission(Some(id), grown)]
       else
         log == before + [chunk] && submitted == submittedBefore
  }

  /** What one request adds to the log and to the submissions. */
  ghost predicate Effect(request: Request, now: nat, pending: map<Id, Assembly>, logBefore: seq<Happening>,
                         log: seq<Happening>, submittedBefore: seq<Submission>, submitted: seq<Submission>)
  {
    match request.payload
    case Query => log == logBefore && submitted == submittedBefore
    case Unsupported => log == logBefore && submitted == submittedBefore
    case Close =>
      && log == logBefore + (if request.id.Some? then [Closed(request.id.value)] else [])
      && submitted == submittedBefore
    case _ =>
      if request.id.None? then
        var grown := AssemblyOf([Chunk([], request.payload, request.options, now)]);
        && log == logBefore
        && submitted == submittedBefore +
             if request.done && Size(grown) <= MAX_ASSEMBLED_BYTES then [Submission(None, grown)] else []
      else
        exists before: seq<Happening> ::
          TakesIn(pending, logBefore, before, request, now, log, submittedBefore, submitted)
  }

  /** What becomes of the limiter and of the worker's commands when at most one notification is submitted. */
  function Presented(submissions: seq<Submission>, state: WindowState, now: nat, canFocus: bool,
                     bucket: RateLimiter.Bucket, commands: seq<Command>): (RateLimiter.Bucket, seq<Command>)
  {
    if submissions == [] || !OccasionMatches(submissions[0].assembly.settings.occasion, state) then (bucket, commands)
    else
      var (after, allowed) := RateLimiter.Taken(bucket, now as real / 1000.0);
      var notification := Shown(submissions[0].id, submissions[0].assembly, canFocus);
      (after, if allowed && notification.Some? then commands + [Show(notification.value)] else commands)
  }

  lemma NothingPresented(state: WindowState, now: nat, canFocus: bool, bucket: RateLimiter.Bucket,
                         commands: seq<Command>)
    ensures Presented([], state, now, canFocus, bucket, commands) == (bucket, commands)
  {
  }

  predicate Concerns(happening: Happening, id: Id) {
    happening.Disabled? || happening.id == id
  }

  /** The part of a log that is about one notification. */
  function About(log: seq<Happening>, id: Id): seq<Happening> {
    if log == [] then [] else
      var last := log[|log| - 1];
      if Concerns(last, id) then About(log[..|log| - 1], id) + [last] else About(log[..|log| - 1], id)
  }

  /** However notifications interleave, one is put together as if it were alone. */
  lemma {:induction false} InterleavingIsInvisible(log: seq<Happening>, id: Id)
    ensures Since(log, id) == Since(About(log, id), id)
    decreases |log|
  {
    if log != [] {
      var earlier, last := log[..|log| - 1], log[|log| - 1];
      InterleavingIsInvisible(earlier, id);
      if Concerns(last, id) {
        SinceStep(About(earlier, id), last, id);
      }
    }
  }

  /** Every notification submitted under an id is exactly its own chunks since it last ended. */
  lemma {:induction false} CompletedAreWhole(log: seq<Happening>, i: nat) returns (k: nat)
    requires i < |CompletedIn(log)|
    ensures k < |log| && log[k].Completed?
    ensures var id := log[k].id;
      CompletedIn(log)[i] == Submission(Some(id), AssemblyOf(Since(About(log[..k], id), id)))
    decreases |log|
  {
    var earlier, last := log[..|log| - 1], log[|log| - 1];
    assert log == earlier + [last];
    CompletedStep(earlier, last);
    if i < |CompletedIn(earlier)| {
      k := CompletedAreWhole(earlier, i);
      assert earlier[..k] == log[..k];
    } else {
      k := |log| - 1;
      InterleavingIsInvisible(earlier, last.id);
    }
  }

  lemma CurrentAssembly(pending: map<Id, Assembly>, log: seq<Happening>, id: Id)
    requires Reflects(pending, log)
    ensures AssemblyOf(Since(log, id)) == if id in pending then pending[id] else Assembly([], [], DEFAULTS, 0)
  {
  }

  lemma GrowThenEnd(pending: map<Id, Assembly>, log: seq<Happening>, chunk: Happening, end: Happening)
    requires Reflects(pending, log) && chunk.Chunk? && !end.Chunk? && !end.Disabled? && end.id == chunk.id
    ensures Reflects(pending - {chunk.id}, log + [chunk, end])
  {
    var grown := AssemblyOf(Since(log, chunk.id) + [chunk]);
    ChunkReflects(pending, log, chunk, grown);
    EndReflects(pending[chunk.id := grown], log + [chunk], end);
    assert log + [chunk] + [end] == log + [chunk, end];
    assert pending[chunk.id := grown] - {chunk.id} == pending - {chunk.id};
  }

  lemma FewerPending(before: map<Id, Assembly>, after: map<Id, Assembly>)
    requires Bounded(before)
    requires forall id :: id in after ==> id in before && after[id] == before[id]
    ensures Bounded(after)
    ensures |after| < |before| || after == before
  {
    assert after.Keys <= before.Keys;
    CountSubset(after.Keys, before.Keys);
    assert |after| == |after.Keys| && |before| == |before.Keys|;
  }

  lemma CountSubset(a: set<Id>, b: set<Id>)
    requires a <= b
    ensures |a| <= |b| && (|a| == |b| ==> a == b)
  {
    assert b == a + (b - a);
  }

  lemma OneMorePending(pending: map<Id, Assembly>, id: Id, assembly: Assembly)
    requires Bounded(pending) && Size(assembly) <= MAX_ASSEMBLED_BYTES
    requires id in pending || |pending| < MAX_PENDING
    ensures Bounded(pending[id := assembly])
  {
    assert pending[id := assembly].Keys == pending.Keys + {id};
  }

  // ---------------------------------------------------------------------------------------------
  // What is shown
  // ---------------------------------------------------------------------------------------------

  /** When a notification may appear: always, only behind other windows, or only where it can not be seen. */
  lemma OccasionExactly(state: WindowState)
    ensures OccasionMatches(Always, state)
    ensures OccasionMatches(Unfocused, state) <==> !state.focused
    ensures OccasionMatches(Invisible, state) ==> OccasionMatches(Unfocused, state)
    ensures !state.focused && state.visible && !state.occluded && !state.headless ==> !OccasionMatches(Invisible, state)
    ensures !state.focused && (!state.visible || state.occluded || state.headless) ==> OccasionMatches(Invisible, state)
  {
  }

  /** Until an option says otherwise, a notification may take the focus, shows always and is nothing special. */
  lemma DefaultsExactly()
    ensures AssemblyOf([]) == Assembly([], [], Settings(true, Always, Normal, DefaultExpiry, System), 0)
  {
  }

  /** An option that is given replaces the one before, and only that one. */
  lemma OverrideExactly(before: Settings, options: Options)
    ensures var after := Override(before, options);
      && (if options.focus.Some? then options.focus == Some(after.focus) else after.focus == before.focus)
      && (if options.occasion.Some? then options.occasion == Some(after.occasion)
          else after.occasion == before.occasion)
      && (if options.urgency.Some? then options.urgency == Some(after.urgency) else after.urgency == before.urgency)
      && (if options.expiry.Some? then options.expiry == Some(after.expiry) else after.expiry == before.expiry)
      && (if options.sound.Some? then options.sound == Some(after.sound) else after.sound == before.sound)
  {
  }

  /** Nothing is shown without text; a body alone becomes the title; and focus needs a desktop that can give it. */
  lemma ShownExactly(id: Option<Id>, title: Text, body: Text, settings: Settings, at: nat, canFocus: bool)
    ensures Shown(id, Assembly([], [], settings, at), canFocus) == None
    ensures title != [] ==> match Shown(id, Assembly(title, body, settings, at), canFocus)
                            case Some(n) => n.id == id && n.title == title && n.body == body
                            case None => false
    ensures body != [] ==> match Shown(id, Assembly([], body, settings, at), canFocus)
                           case Some(n) => n.id == id && n.title == body && n.body == []
                           case None => false
    ensures match Shown(id, Assembly(title, body, settings, at), canFocus)
            case Some(n) =>
              && (n.settings.focus <==> settings.focus && canFocus)
              && n.settings == settings.(focus := n.settings.focus)
            case None => title == [] && body == []
  {
  }

  /** A submission is shown exactly when its occasion is there, the limiter has a token for it, and it has text. */
  lemma PresentedExactly(submission: Submission, state: WindowState, now: nat, canFocus: bool,
                         bucket: RateLimiter.Bucket, commands: seq<Command>)
    ensures var (after, told) := Presented([submission], state, now, canFocus, bucket, commands);
      var asked := OccasionMatches(submission.assembly.settings.occasion, state);
      var token := bucket.tokens + (now as real / 1000.0 - bucket.updatedAt) >= 1.0;
      var text := submission.assembly.title != [] || submission.assembly.body != [];
      && commands <= told
      && (|told| == |commands| + 1 <==> asked && token && text)
      && (told != commands ==>
            told == commands + [Show(Shown(submission.id, submission.assembly, canFocus).value)])
      && (!asked ==> after == bucket)
      && (asked ==> after.updatedAt == now as real / 1000.0)
  {
  }

  /** What a request to close, and a query, tell the worker and the terminal besides. */
  lemma RequestsBesides(request: Request, commands: seq<Command>, replies: seq<Id>)
    ensures Withdrawn(request, commands) != commands <==> request.payload.Close? && request.id.Some?
    ensures request.payload.Close? && request.id.Some? ==>
      Withdrawn(request, commands) == commands + [CloseById(request.id.value)]
    ensures Replied(request, replies) != replies <==> request.payload.Query?
    ensures request.payload.Query? ==>
      Replied(request, replies) == replies + [if request.id.Some? then request.id.value else ['0' as int]]
  {
  }

  /** Exactly the notifications that have not grown for thirty seconds are given up. */
  lemma FreshExactly(pending: map<Id, Assembly>, now: nat)
    ensures forall id :: id in Fresh(pending, now) <==> id in pending && pending[id].updatedAt > now - 30_000
    ensures forall id :: id in Fresh(pending, now) ==> Fresh(pending, now)[id] == pending[id]
  {
  }

  /** The bounds of every reachable state, in numbers. */
  lemma BoundsHold(controller: NotificationController)
    requires controller.Valid()
    ensures |controller.pending| <= 64
    ensures forall id :: id in controller.pending ==>
      |controller.pending[id].title| + |controller.pending[id].body| <= 16_384
  {
    hide Reflects, WithIds, CompletedIn;
  }
}
