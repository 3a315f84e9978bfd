/**
 Capture of OSC bodies from the PTY byte stream (control strings of section 5.6 of ECMA-48, with
 BEL as a second terminator).  The scanner skips inert runs in bulk and stops retaining a body as
 soon as it can not become a message.  It produces the messages of a splitter that does neither.
 */
module OscCapture {
  import opened Wrappers
  import opened LittleEndian

  const MAX_OSC_BYTES: nat := 8 * 1024

  const BEL: Byte := 0x07
  const ESC: Byte := 0x1b
  const SEMICOLON: Byte := 0x3b
  const BACKSLASH: Byte := 0x5c
  const OSC_INTRODUCER: Byte := 0x5d

  /** `P`, `_`, `^` and `X` introduce the control strings that are not OSC. */
  predicate IntroducesOtherString(byte: Byte) {
    byte == 0x50 || byte == 0x5f || byte == 0x5e || byte == 0x58
  }

  // ---------------------------------------------------------------------------------------------
  // The bytewise scanner
  // ---------------------------------------------------------------------------------------------

  datatype CaptureState =
    | Ground
    | Escape
    | OtherString(escape: bool)
    | Osc(raw: seq<Byte>, escape: bool, discarding: bool)

  /** A string that ended may carry the body of an OSC still worth inspecting. */
  datatype Observation = Nothing | Complete(body: Option<seq<Byte>>)

  const PREFIX_7: seq<Byte> := [0x37, SEMICOLON]
  const PREFIX_9: seq<Byte> := [0x39, SEMICOLON]
  const PREFIX_9_4: seq<Byte> := [0x39, SEMICOLON, 0x34, SEMICOLON]
  const PREFIX_99: seq<Byte> := [0x39, 0x39, SEMICOLON]
  const PREFIX_133: seq<Byte> := [0x31, 0x33, 0x33, SEMICOLON]

  predicate AgreesWith(prefix: seq<Byte>, candidate: seq<Byte>) {
    var shared := if |prefix| < |candidate| then |prefix| else |candidate|;
    prefix[..shared] == candidate[..shared]
  }

  /** A body that begins like one of the four kinds of OSC the parser knows, as far as it goes. */
  predicate MayBeCaptured(prefix: seq<Byte>) {
    || AgreesWith(prefix, PREFIX_7)
    || AgreesWith(prefix, PREFIX_9)
    || AgreesWith(prefix, PREFIX_99)
    || AgreesWith(prefix, PREFIX_133)
  }

  function Step(state: CaptureState, byte: Byte): (CaptureState, Observation) {
    match state
    case Ground => (if byte == ESC then Escape else Ground, Nothing)
    case Escape =>
      if byte == OSC_INTRODUCER then (Osc([], false, false), Nothing)
      else if IntroducesOtherString(byte) then (OtherString(false), Nothing)
      else if byte == ESC then (Escape, Nothing)
      else (Ground, Nothing)
    case OtherString(escape) =>
      if escape && byte == BACKSLASH then (Ground, Complete(None)) else (OtherString(byte == ESC), Nothing)
    case Osc(raw, escape, discarding) =>
      if byte == BEL || (escape && byte == BACKSLASH) then
        (Ground, Complete(if discarding then None else Some(raw)))
      else if discarding then (Osc(raw, byte == ESC, true), Nothing)
      else
        var flushed := if escape then raw + [ESC] else raw;
        var more := if byte == ESC then flushed else flushed + [byte];
        if |more| > MAX_OSC_BYTES || !MayBeCaptured(more) then (Osc([], byte == ESC, true), Nothing)
        else (Osc(more, byte == ESC, false), Nothing)
  }

  /** The scanner proper: one byte at a time, in place. */
  class OscCapture {
    var state: CaptureState

    constructor ()
      ensures state == Ground
    {
      state := Ground;
    }

    method Advance(byte: Byte) returns (observation: Observation)
      modifies this
      ensures (state, observation) == Step(old(state), byte)
    {
      observation := Nothing;
      match state {
        case Ground =>
          if byte == ESC { state := Escape; }
        case Escape =>
          if byte == OSC_INTRODUCER {
            state := Osc([], false, false);
          } else if IntroducesOtherString(byte) {
            state := OtherString(false);
          } else if byte != ESC {
            state := Ground;
          }
        case OtherString(escape) =>
          if escape && byte == BACKSLASH {
            state := Ground;
            return Complete(None);
          } else {
            state := OtherString(byte == ESC);
          }
        case Osc(body, wasEscape, wasDiscarding) =>
          var raw, escape, discarding := body, wasEscape, wasDiscarding;
          if byte == BEL || (escape && byte == BACKSLASH) {
            state := Ground;
            return Complete(if discarding then None else Some(raw));
          }
          if discarding {
            state := Osc(raw, byte == ESC, true);
            return;
          }
          if escape { raw := raw + [ESC]; }
          escape := byte == ESC;
          if !escape { raw := raw + [byte]; }
          if |raw| > MAX_OSC_BYTES || !MayBeCaptured(raw) {
            raw := [];
            discarding := true;
          }
          state := Osc(raw, escape, discarding);
      }
    }
  }

  // ---------------------------------------------------------------------------------------------
  // Messages
  // ---------------------------------------------------------------------------------------------

  /**
   The parsers of the individual payloads and the confirmation that a body is a top-level OSC.  They
   are functions of the body alone; nothing else about them matters here.
   */
  datatype Parsers<!M> = Parsers(
    confirm: seq<Byte> -> bool,
    workingDirectory: seq<Byte> -> Option<M>,
    progress: seq<Byte> -> Option<M>,
    legacy: seq<Byte> -> Option<M>,
    shellIntegration: seq<Byte> -> Option<M>,
    kitty: (seq<Byte>, seq<Byte>) -> Option<M>)

  function FindByte(bytes: seq<Byte>, byte: Byte): (index: Option<nat>)
    ensures index.Some? ==> index.value < |bytes| && bytes[index.value] == byte && byte !in bytes[..index.value]
    ensures index.None? ==> byte !in bytes
  {
    if bytes == [] then None
    else if bytes[0] == byte then Some(0)
    else
      var later := FindByte(bytes[1..], byte);
      if later.None? then None else
        assert forall b :: b in bytes[..later.value + 1] ==> b == bytes[0] || b in bytes[1..][..later.value];
        Some(later.value + 1)
  }

  function ParseOsc<M>(raw: seq<Byte>, parsers: Parsers<M>): Option<M> {
    if PREFIX_7 <= raw then parsers.workingDirectory(raw[2..])
    else if PREFIX_9_4 <= raw then parsers.progress(raw[4..])
    else if PREFIX_9 <= raw then parsers.legacy(raw[2..])
    else if PREFIX_133 <= raw then parsers.shellIntegration(raw[4..])
    else if PREFIX_99 <= raw then
      var rest := raw[3..];
      var separator := FindByte(rest, SEMICOLON);
      if separator.None? then None else parsers.kitty(rest[..separator.value], rest[separator.value + 1..])
    else None
  }

  /** A byte string written as characters. */
  function Ascii(text: string): seq<Byte>
    requires forall i :: 0 <= i < |text| ==> text[i] as int < 128
  {
    seq(|text|, i requires 0 <= i < |text| => text[i] as int)
  }

  /** Which parser a body goes to, and what of it that parser sees. */
  lemma PayloadGoesTo<M>(payload: seq<Byte>, metadata: seq<Byte>, parsers: Parsers<M>)
    requires Ascii(";")[0] !in metadata
    ensures ParseOsc(Ascii("7;") + payload, parsers) == parsers.workingDirectory(payload)
    ensures ParseOsc(Ascii("9;4;") + payload, parsers) == parsers.progress(payload)
    ensures !(Ascii("4;") <= payload) ==> ParseOsc(Ascii("9;") + payload, parsers) == parsers.legacy(payload)
    ensures ParseOsc(Ascii("133;") + payload, parsers) == parsers.shellIntegration(payload)
    ensures ParseOsc(Ascii("99;") + (metadata + (Ascii(";") + payload)), parsers) == parsers.kitty(metadata, payload)
    ensures ParseOsc(Ascii("99;") + metadata, parsers) == None
  {
    hide ParseOsc, Ascii;
    Prefixes();
    GoesByNumber(payload, parsers);
    GoesToNine(payload, parsers);
    GoesToKitty(metadata, payload, parsers);
  }

  lemma Prefixes()
    ensures Ascii("7;") == PREFIX_7 && Ascii("9;") == PREFIX_9 && Ascii("9;4;") == PREFIX_9_4
    ensures Ascii("99;") == PREFIX_99 && Ascii("133;") == PREFIX_133
    ensures Ascii(";") == [SEMICOLON] && Ascii("4;") == [0x34, SEMICOLON]
  {
  }

  lemma GoesByNumber<M>(payload: seq<Byte>, parsers: Parsers<M>)
    ensures ParseOsc(PREFIX_7 + payload, parsers) == parsers.workingDirectory(payload)
    ensures ParseOsc(PREFIX_133 + payload, parsers) == parsers.shellIntegration(payload)
  {
    var seven, shell := PREFIX_7 + payload, PREFIX_133 + payload;
    assert seven[2..] == payload && shell[4..] == payload;
    assert shell[0] == 0x31;
  }

  lemma GoesToNine<M>(payload: seq<Byte>, parsers: Parsers<M>)
    ensures ParseOsc(PREFIX_9_4 + payload, parsers) == parsers.progress(payload)
    ensures !([0x34, SEMICOLON] <= payload) ==> ParseOsc(PREFIX_9 + payload, parsers) == parsers.legacy(payload)
  {
    var progress, legacy := PREFIX_9_4 + payload, PREFIX_9 + payload;
    assert progress[4..] == payload && legacy[2..] == payload;
    assert progress[0] == 0x39 && legacy[0] == 0x39 && PREFIX_7[0] == 0x37;
    if PREFIX_9_4 <= legacy {
      assert legacy[2..4] == PREFIX_9_4[2..4] && payload[..2] == legacy[2..4];
    }
  }

  lemma GoesToKitty<M>(metadata: seq<Byte>, payload: seq<Byte>, parsers: Parsers<M>)
    requires SEMICOLON !in metadata
    ensures ParseOsc(PREFIX_99 + (metadata + ([SEMICOLON] + payload)), parsers) == parsers.kitty(metadata, payload)
    ensures ParseOsc(PREFIX_99 + metadata, parsers) == None
  {
    var rest := metadata + ([SEMICOLON] + payload);
    var body, bare := PREFIX_99 + rest, PREFIX_99 + metadata;
    assert body[3..] == rest && bare[3..] == metadata;
    assert body[0] == bare[0] == 0x39 && body[1] == bare[1] == 0x39;
    assert PREFIX_7[0] == 0x37 && PREFIX_9[1] == SEMICOLON && PREFIX_9_4[1] == SEMICOLON && PREFIX_133[0] == 0x31;
    FirstSemicolon(metadata, payload);
  }

  lemma FirstSemicolon(metadata: seq<Byte>, payload: seq<Byte>)
    requires SEMICOLON !in metadata
    ensures var rest := metadata + ([SEMICOLON] + payload);
      && FindByte(rest, SEMICOLON) == Some(|metadata|)
      && rest[..|metadata|] == metadata && rest[|metadata| + 1..] == payload
  {
    var rest := metadata + ([SEMICOLON] + payload);
    assert rest[|metadata|] == SEMICOLON;
    assert forall k :: 0 <= k < |metadata| ==> rest[k] == metadata[k];
  }

  /** A body with none of the four numbers in front is no message. */
  lemma OtherBodiesGiveNothing<M>(body: seq<Byte>, parsers: Parsers<M>)
    requires !(Ascii("7;") <= body) && !(Ascii("9;") <= body) && !(Ascii("133;") <= body) && !(Ascii("99;") <= body)
    ensures ParseOsc(body, parsers) == None
  {
    hide Ascii;
    Prefixes();
    assert PREFIX_9 <= PREFIX_9_4;
  }

  /** The control bytes as characters. */
  lemma ControlBytes(byte: Byte)
    ensures OSC_INTRODUCER == ']' as int && BACKSLASH == '\\' as int && SEMICOLON == ';' as int
    ensures ESC == 27 && BEL == 7
    ensures IntroducesOtherString(byte) <==> byte in {'P' as int, '_' as int, '^' as int, 'X' as int}
  {
  }

  /** The message, if any, of one delimited body. */
  function MessageOf<M>(body: seq<Byte>, parsers: Parsers<M>): seq<M> {
    if !parsers.confirm(body) then [] else
      match ParseOsc(body, parsers)
      case Some(message) => [message]
      case None => []
  }

  /** A body gives a message exactly when it is confirmed and its parser accepts it. */
  lemma ConfirmedExactly<M>(body: seq<Byte>, parsers: Parsers<M>)
    ensures |MessageOf(body, parsers)| <= 1
    ensures MessageOf(body, parsers) != [] <==> parsers.confirm(body) && ParseOsc(body, parsers).Some?
    ensures forall m :: m in MessageOf(body, parsers) ==> ParseOsc(body, parsers) == Some(m)
  {
  }

  function MessagesOf<M>(bodies: seq<seq<Byte>>, parsers: Parsers<M>): seq<M> {
    if bodies == [] then [] else MessageOf(bodies[0], parsers) + MessagesOf(bodies[1..], parsers)
  }

  /** The scanner's state and captured bodies after a byte string. */
  function RunState(state: CaptureState, bytes: seq<Byte>): CaptureState
    decreases |bytes|
  {
    if bytes == [] then state else RunState(Step(state, bytes[0]).0, bytes[1..])
  }

  function Captured(observation: Observation): seq<seq<Byte>> {
    if observation.Complete? && observation.body.Some? then [observation.body.value] else []
  }

  function RunBodies(state: CaptureState, bytes: seq<Byte>): seq<seq<Byte>>
    decreases |bytes|
  {
    if bytes == [] then [] else
      var (next, observation) := Step(state, bytes[0]);
      Captured(observation) + RunBodies(next, bytes[1..])
  }

  // ---------------------------------------------------------------------------------------------
  // The bulk scanner
  // ---------------------------------------------------------------------------------------------

  /** Bytes the scanner may skip without looking at them one by one. */
  predicate Inert(state: CaptureState, byte: Byte) {
    match state
    case Ground => byte != ESC
    case OtherString(escape) => !escape && byte != ESC
    case Osc(_, escape, discarding) => discarding && !escape && byte != BEL && byte != ESC
    case Escape => false
  }

  lemma {:induction false} InertRunChangesNothing(state: CaptureState, run: seq<Byte>, rest: seq<Byte>)
    requires forall byte | byte in run :: Inert(state, byte)
    ensures RunState(state, run + rest) == RunState(state, rest)
    ensures RunBodies(state, run + rest) == RunBodies(state, rest)
    decreases |run|
  {
    if run == [] {
      assert run + rest == rest;
    } else {
      assert (run + rest)[0] == run[0] && (run + rest)[1..] == run[1..] + rest;
      assert Inert(state, run[0]) && Step(state, run[0]) == (state, Nothing);
      InertRunChangesNothing(state, run[1..], rest);
    }
  }

  lemma {:induction false} MessagesConcat<M>(a: seq<seq<Byte>>, b: seq<seq<Byte>>, parsers: Parsers<M>)
    ensures MessagesOf(a + b, parsers) == MessagesOf(a, parsers) + MessagesOf(b, parsers)
    decreases |a|
  {
    if a == [] {
      assert a + b == b;
    } else {
      assert (a + b)[0] == a[0] && (a + b)[1..] == a[1..] + b;
      MessagesConcat(a[1..], b, parsers);
    }
  }

  /** Skipping an inert run and advancing over the byte behind it. */
  lemma SkipAndStep<M>(state: CaptureState, rest: seq<Byte>, index: nat, parsers: Parsers<M>)
    requires index < |rest| && forall byte | byte in rest[..index] :: Inert(state, byte)
    ensures var (next, observation) := Step(state, rest[index]);
      && RunState(state, rest) == RunState(next, rest[index + 1..])
      && MessagesOf(RunBodies(state, rest), parsers)
         == MessagesOf(Captured(observation), parsers) + MessagesOf(RunBodies(next, rest[index + 1..]), parsers)
  {
    hide Step, MessageOf;
    assert rest == rest[..index] + rest[index..];
    InertRunChangesNothing(state, rest[..index], rest[index..]);
    var (next, observation) := Step(state, rest[index]);
    assert rest[index..][1..] == rest[index + 1..];
    MessagesConcat(Captured(observation), RunBodies(next, rest[index + 1..]), parsers);
  }

  class OscNotificationParser<!M> {
    const capture: OscCapture

    constructor ()
      ensures capture.state == Ground && fresh(capture)
    {
      capture := new OscCapture();
    }

    /** Where the next byte the scanner must look at stands. */
    method NextRelevant(rest: seq<Byte>) returns (next: Option<nat>)
      requires rest != []
      ensures next.Some? ==>
        next.value < |rest| && forall byte | byte in rest[..next.value] :: Inert(capture.state, byte)
      ensures next.None? ==> forall byte | byte in rest :: Inert(capture.state, byte)
    {
      match capture.state {
        case Ground => next := FindByte(rest, ESC);
        case OtherString(escape) => next := if !escape then FindByte(rest, ESC) else Some(0);
        case Osc(_, escape, discarding) =>
          if discarding && !escape {
            var bell, esc := FindByte(rest, BEL), FindByte(rest, ESC);
            next := if bell.None? then esc
                    else if esc.None? || bell.value < esc.value then bell
                    else esc;
            if bell.Some? && esc.Some? && esc.value < bell.value {
              assert forall byte | byte in rest[..esc.value] :: byte in rest[..bell.value];
            }
            if bell.Some? && esc.Some? && bell.value < esc.value {
              assert forall byte | byte in rest[..bell.value] :: byte in rest[..esc.value];
            }
          } else {
            next := Some(0);
          }
        case Escape => next := Some(0);
      }
    }

    /** The message, if any, of what the scanner has just observed. */
    method Inspect(observation: Observation, parsers: Parsers<M>) returns (found: seq<M>)
      ensures found == MessagesOf(Captured(observation), parsers)
    {
      found := [];
      if observation.Complete? && observation.body.Some? {
        var raw := observation.body.value;
        assert MessagesOf([raw], parsers) == MessageOf(raw, parsers) + MessagesOf([], parsers);
        if parsers.confirm(raw) {
          var message := ParseOsc(raw, parsers);
          if message.Some? {
            found := [message.value];
          }
        }
      }
    }

    method Advance(bytes: seq<Byte>, parsers: Parsers<M>) returns (messages: seq<M>)
      modifies capture
      ensures capture.state == RunState(old(capture.state), bytes)
      ensures messages == MessagesOf(RunBodies(old(capture.state), bytes), parsers)
    {
      hide Step, MessageOf, Inert, Captured;
      messages := [];
      var rest := bytes;
      while rest != []
        invariant RunState(capture.state, rest) == RunState(old(capture.state), bytes)
        invariant messages + MessagesOf(RunBodies(capture.state, rest), parsers)
                  == MessagesOf(RunBodies(old(capture.state), bytes), parsers)
        decreases |rest|
      {
        var next := NextRelevant(rest);
        if next.None? {
          InertRunChangesNothing(capture.state, rest, []);
          assert rest + [] == rest;
          break;
        }
        var index := next.value;
        SkipAndStep(capture.state, rest, index, parsers);
        var byte := rest[index];
        rest := rest[index + 1..];
        var observation := capture.Advance(byte);
        var found := Inspect(observation, parsers);
        messages := messages + found;
      }
    }
  }

  // ---------------------------------------------------------------------------------------------
  // Chunks
  // ---------------------------------------------------------------------------------------------

  lemma {:induction false} RunConcat(state: CaptureState, a: seq<Byte>, b: seq<Byte>)
    ensures RunState(state, a + b) == RunState(RunState(state, a), b)
    ensures RunBodies(state, a + b) == RunBodies(state, a) + RunBodies(RunState(state, a), b)
    decreases |a|
  {
    hide Step;
    if a == [] {
      assert a + b == b;
    } else {
      assert (a + b)[0] == a[0] && (a + b)[1..] == a[1..] + b;
      RunConcat(Step(state, a[0]).0, a[1..], b);
    }
  }

  function Concat(chunks: seq<seq<Byte>>): seq<Byte> {
    if chunks == [] then [] else chunks[0] + Concat(chunks[1..])
  }

  /** The messages of one chunk after another, as successive calls of `Advance` return them. */
  function MessagesOfChunks<M>(state: CaptureState, chunks: seq<seq<Byte>>, parsers: Parsers<M>): seq<M>
    decreases |chunks|
  {
    if chunks == [] then [] else
      MessagesOf(RunBodies(state, chunks[0]), parsers)
      + MessagesOfChunks(RunState(state, chunks[0]), chunks[1..], parsers)
  }

  lemma {:induction false} ChunkingIsInvisible<M>(state: CaptureState, chunks: seq<seq<Byte>>, parsers: Parsers<M>)
    ensures MessagesOfChunks(state, chunks, parsers) == MessagesOf(RunBodies(state, Concat(chunks)), parsers)
    decreases |chunks|
  {
    if chunks != [] {
      var rest := Concat(chunks[1..]);
      RunConcat(state, chunks[0], rest);
      MessagesConcat(RunBodies(state, chunks[0]), RunBodies(RunState(state, chunks[0]), rest), parsers);
      ChunkingIsInvisible(RunState(state, chunks[0]), chunks[1..], parsers);
    }
  }

  // ---------------------------------------------------------------------------------------------
  // The reference: split first, judge afterwards
  // ---------------------------------------------------------------------------------------------

  /** An ESC right before the terminator belongs to the terminator or is dropped with it. */
  function Body(content: seq<Byte>): seq<Byte> {
    if content != [] && content[|content| - 1] == ESC then content[..|content| - 1] else content
  }

  predicate EndsString(rest: seq<Byte>, t: nat)
    requires t < |rest|
  {
    rest[t] == BACKSLASH && t > 0 && rest[t - 1] == ESC
  }

  predicate EndsOsc(rest: seq<Byte>, t: nat)
    requires t < |rest|
  {
    rest[t] == BEL || EndsString(rest, t)
  }

  /** The first terminator at or after `from`, if any. */
  function FirstEnd(rest: seq<Byte>, osc: bool, from: nat): (end: Option<nat>)
    ensures end.Some? ==> from <= end.value < |rest|
    decreases |rest| - from
  {
    if from >= |rest| then None
    else if (if osc then EndsOsc(rest, from) else EndsString(rest, from)) then Some(from)
    else FirstEnd(rest, osc, from + 1)
  }

  /** All complete OSC bodies of a byte string, in order, however long or irrelevant. */
  function Split(input: seq<Byte>): seq<seq<Byte>>
    decreases |input|, 1
  {
    var escape := FindByte(input, ESC);
    if escape.None? then [] else SplitEscape(input[escape.value + 1..])
  }

  function SplitEscape(rest: seq<Byte>): seq<seq<Byte>>
    decreases |rest|, 2
  {
    if rest == [] then []
    else if rest[0] == OSC_INTRODUCER then SplitOsc(rest[1..])
    else if IntroducesOtherString(rest[0]) then SplitString(rest[1..])
    else if rest[0] == ESC then SplitEscape(rest[1..])
    else Split(rest[1..])
  }

  function SplitOsc(rest: seq<Byte>): seq<seq<Byte>>
    decreases |rest|, 0
  {
    match FirstEnd(rest, true, 0)
    case None => []
    case Some(end) => [Body(rest[..end])] + Split(rest[end + 1..])
  }

  function SplitString(rest: seq<Byte>): seq<seq<Byte>>
    decreases |rest|, 0
  {
    match FirstEnd(rest, false, 0)
    case None => []
    case Some(end) => Split(rest[end + 1..])
  }

  /** Bodies over the limit are dropped only after splitting. */
  function Reference<M>(bodies: seq<seq<Byte>>, parsers: Parsers<M>): seq<M> {
    if bodies == [] then [] else
      (if |bodies[0]| <= 8_192 then MessageOf(bodies[0], parsers) else [])
      + Reference(bodies[1..], parsers)
  }

  // ---------------------------------------------------------------------------------------------
  // Discarding early loses nothing
  // ---------------------------------------------------------------------------------------------

  /** A body that has gone wrong stays wrong however it continues. */
  lemma HopelessForever(prefix: seq<Byte>, body: seq<Byte>)
    requires prefix <= body && MayBeCaptured(body)
    ensures MayBeCaptured(prefix)
  {
    AgreementShrinks(prefix, body, PREFIX_7);
    AgreementShrinks(prefix, body, PREFIX_9);
    AgreementShrinks(prefix, body, PREFIX_99);
    AgreementShrinks(prefix, body, PREFIX_133);
  }

  lemma AgreementShrinks(prefix: seq<Byte>, body: seq<Byte>, candidate: seq<Byte>)
    requires prefix <= body
    ensures AgreesWith(body, candidate) ==> AgreesWith(prefix, candidate)
  {
    if AgreesWith(body, candidate) {
      var shared := if |prefix| < |candidate| then |prefix| else |candidate|;
      assert prefix[..shared] == body[..shared];
    }
  }

  /** The parser accepts only bodies the scanner would have kept. */
  lemma ParsedBodiesWereKept<M>(body: seq<Byte>, parsers: Parsers<M>)
    requires ParseOsc(body, parsers).Some?
    ensures MayBeCaptured(body)
  {
    assert PREFIX_9_4 <= body ==> PREFIX_9_4[..2] == PREFIX_9 && body[..2] == PREFIX_9_4[..2];
  }

  predicate Hopeless(body: seq<Byte>) {
    |body| > MAX_OSC_BYTES || !MayBeCaptured(body)
  }

  lemma HopelessGivesNothing<M>(body: seq<Byte>, parsers: Parsers<M>)
    requires Hopeless(body)
    ensures Reference([body], parsers) == []
  {
    if |body| <= MAX_OSC_BYTES && ParseOsc(body, parsers).Some? {
      ParsedBodiesWereKept(body, parsers);
    }
  }

  /** What the scanner's state says about the bytes since the introducer. */
  predicate Remembers(state: CaptureState, content: seq<Byte>) {
    && state.Osc?
    && state.escape == (content != [] && content[|content| - 1] == ESC)
    && (if state.discarding then Hopeless(Body(content))
        else state.raw == Body(content) && !Hopeless(Body(content)))
  }

  lemma BodyGrows(content: seq<Byte>, byte: Byte)
    ensures Body(content) <= Body(content + [byte])
  {
  }

  /** One byte that does not end the string keeps the scanner's memory right. */
  lemma RemembersStep(state: CaptureState, content: seq<Byte>, byte: Byte)
    requires Remembers(state, content)
    requires byte != BEL && !(state.escape && byte == BACKSLASH)
    ensures Step(state, byte).1 == Nothing && Remembers(Step(state, byte).0, content + [byte])
  {
    var more := content + [byte];
    BodyGrows(content, byte);
    if state.discarding {
      if MayBeCaptured(Body(more)) { HopelessForever(Body(content), Body(more)); }
    } else {
      assert content == if state.escape then state.raw + [ESC] else state.raw;
      assert Body(more) == if byte == ESC then content else more;
    }
  }

  /** A byte that ends the string yields exactly the body the reference cuts out, if it can matter. */
  lemma RemembersEnd<M>(state: CaptureState, content: seq<Byte>, byte: Byte, parsers: Parsers<M>)
    requires Remembers(state, content)
    requires byte == BEL || (state.escape && byte == BACKSLASH)
    ensures Step(state, byte).0 == Ground
    ensures MessagesOf(Captured(Step(state, byte).1), parsers) == Reference([Body(content)], parsers)
  {
    if state.discarding {
      HopelessGivesNothing(Body(content), parsers);
    } else {
      assert Captured(Step(state, byte).1) == [Body(content)];
      assert MessagesOf([Body(content)], parsers) == MessageOf(Body(content), parsers) + MessagesOf([], parsers);
      assert Reference([Body(content)], parsers) == MessageOf(Body(content), parsers) + Reference([], parsers);
    }
  }

  lemma StepMessages<M>(state: CaptureState, bytes: seq<Byte>, parsers: Parsers<M>)
    requires bytes != []
    ensures var (next, observation) := Step(state, bytes[0]);
      MessagesOf(RunBodies(state, bytes), parsers)
      == MessagesOf(Captured(observation), parsers) + MessagesOf(RunBodies(next, bytes[1..]), parsers)
  {
    var (next, observation) := Step(state, bytes[0]);
    MessagesConcat(Captured(observation), RunBodies(next, bytes[1..]), parsers);
  }

  lemma {:induction false} GroundRefines<M>(input: seq<Byte>, parsers: Parsers<M>)
    ensures MessagesOf(RunBodies(Ground, input), parsers) == Reference(Split(input), parsers)
    decreases |input|, 2
  {
    hide MessageOf, SplitEscape;
    if input != [] {
      hide Split;
      StepMessages(Ground, input, parsers);
      SplitOne(input);
      if input[0] == ESC {
        EscapeRefines(input[1..], parsers);
      } else {
        GroundRefines(input[1..], parsers);
      }
    }
  }

  lemma SplitOne(input: seq<Byte>)
    requires input != []
    ensures Split(input) == if input[0] == ESC then SplitEscape(input[1..]) else Split(input[1..])
  {
    hide SplitEscape;
    var later := FindByte(input[1..], ESC);
    assert later.Some? ==> input[1..][later.value + 1..] == input[later.value + 2..];
  }

  lemma {:induction false} EscapeRefines<M>(rest: seq<Byte>, parsers: Parsers<M>)
    ensures MessagesOf(RunBodies(Escape, rest), parsers) == Reference(SplitEscape(rest), parsers)
    decreases |rest|, 3
  {
    if rest != [] {
      StepMessages(Escape, rest, parsers);
      assert rest[1..][0..] == rest[1..];
      if rest[0] == OSC_INTRODUCER {
        OscRefines(Osc([], false, false), rest[1..], 0, parsers);
      } else if IntroducesOtherString(rest[0]) {
        StringRefines(rest[1..], 0, parsers);
      } else if rest[0] == ESC {
        EscapeRefines(rest[1..], parsers);
      } else {
        GroundRefines(rest[1..], parsers);
      }
    }
  }

  /** Inside a string that is not an OSC, at position `at` and before its end. */
  lemma {:induction false} StringRefines<M>(whole: seq<Byte>, at: nat, parsers: Parsers<M>)
    requires at <= |whole| && FirstEnd(whole, false, 0) == FirstEnd(whole, false, at)
    ensures MessagesOf(RunBodies(OtherString(at > 0 && whole[at - 1] == ESC), whole[at..]), parsers)
            == Reference(SplitString(whole), parsers)
    decreases |whole| - at, 1
  {
    if at < |whole| {
      var state := OtherString(at > 0 && whole[at - 1] == ESC);
      StepMessages(state, whole[at..], parsers);
      assert whole[at..][1..] == whole[at + 1..];
      if EndsString(whole, at) {
        GroundRefines(whole[at + 1..], parsers);
      } else {
        StringRefines(whole, at + 1, parsers);
      }
    }
  }

  /** Inside an OSC, at position `at` and before its end. */
  lemma {:induction false} OscRefines<M>(state: CaptureState, whole: seq<Byte>, at: nat, parsers: Parsers<M>)
    requires at <= |whole| && FirstEnd(whole, true, 0) == FirstEnd(whole, true, at)
    requires Remembers(state, whole[..at])
    ensures MessagesOf(RunBodies(state, whole[at..]), parsers) == Reference(SplitOsc(whole), parsers)
    decreases |whole| - at, 1
  {
    hide Step, MessageOf, Remembers;
    if at < |whole| {
      StepMessages(state, whole[at..], parsers);
      assert whole[at..][1..] == whole[at + 1..] && whole[..at + 1] == whole[..at] + [whole[at]];
      EscapeFlag(state, whole[..at]);
      if EndsOsc(whole, at) {
        RemembersEnd(state, whole[..at], whole[at], parsers);
        GroundRefines(whole[at + 1..], parsers);
        ReferenceCons(Body(whole[..at]), Split(whole[at + 1..]), parsers);
      } else {
        RemembersStep(state, whole[..at], whole[at]);
        OscRefines(Step(state, whole[at]).0, whole, at + 1, parsers);
      }
    }
  }

  lemma EscapeFlag(state: CaptureState, content: seq<Byte>)
    requires Remembers(state, content)
    ensures state.Osc? && state.escape == (content != [] && content[|content| - 1] == ESC)
  {
  }

  lemma ReferenceCons<M>(body: seq<Byte>, bodies: seq<seq<Byte>>, parsers: Parsers<M>)
    ensures Reference([body] + bodies, parsers) == Reference([body], parsers) + Reference(bodies, parsers)
  {
    assert ([body] + bodies)[1..] == bodies && [body][1..] == [];
  }

  /**
   For every byte string and every way of cutting it into chunks, the scanner's messages are those of
   the splitter that never discards early and then drops bodies over the limit.
   */
  lemma ScannerRefinesSplitter<M>(chunks: seq<seq<Byte>>, parsers: Parsers<M>)
    ensures MessagesOfChunks(Ground, chunks, parsers) == Reference(Split(Concat(chunks)), parsers)
  {
    ChunkingIsInvisible(Ground, chunks, parsers);
    GroundRefines(Concat(chunks), parsers);
  }
}
