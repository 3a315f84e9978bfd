# Vivido: verified models

Dafny models of the parts of Vivido, a terminal emulator, where state, protocols and bounds matter: the
automation event log and its clients, the timer list and the requests that depend on it, the coalescing of
terminal notifications between threads, the capture and reassembly of notification escapes, and a few byte
and text algorithms. Code that changes state in place is modelled by classes and methods with loops; each is
proved against functions on values, and what the program is for is proved about those functions and about
every reachable state.

| file | what it models |
|---|---|
| `LittleEndian.dfy`, `Crc32.dfy`, `CrcRemainder.dfy`, `StoredZip.dfy` | the stored-ZIP writer of the diagnostic bundle, against a strict reader that follows sections 4.3.7, 4.3.12, 4.3.16 and 4.4.7 of PKWARE's APPNOTE; the CRC of section 8 of RFC 1952, as a remainder of polynomials over one bit |
| `Transcript.dfy` | the rolling PTY transcript and a client that reads along |
| `Delivery.dfy`, `EventHub.dfy` | delivery over connections that refuse frames; the event log, replay ring and subscriptions |
| `OscCapture.dfy` | the bulk OSC scanner (section 5.6 of ECMA-48, BEL added), against a splitter that never discards early |
| `Scheduler.dfy`, `AutomationTimers.dfy` | the timer list; what automation needs from it |
| `PacedGesture.dfy`, `GestureHistory.dfy` | a paced mouse gesture from start to end; what is written for each gesture while many interleave |
| `AutomationLedger.dfy`, `AutomationWindows.dfy` | waits, tracked writes and gestures of live windows; no request stranded or answered twice |
| `TerminalEvents.dfy` | the wake flag and the merged output range as interleaved atomic steps |
| `VividBatch.dfy` | batching of terminal-position events |
| `Notifications.dfy`, `RateLimiter.dfy`, `WorkerTable.dfy` | chunked notifications, the token bucket, the live-task table |
| `Screenshot.dfy`, `Paste.dfy`, `MessageLayout.dfy` | pixel conversion in place, the paste prompt, message wrapping |

`dafny verify dfyconfig.toml` checks everything.

Conventions. Instants are natural numbers of one tick; a handler sees one frozen instant, and a scheduler
update sees a non-decreasing sequence of readings. Whether a connection takes a frame, whether a wait
condition holds, whether a write succeeds and which connections are alive are arbitrary inputs. Fields marked
`ghost` record history (everything appended, emitted, offered or requested) so that invariants can speak about
whole runs.

## What turned out not to hold as stated

- A paced gesture that has pressed the button attempts a release whenever it leaves, except exactly when the
  write of its final Up fails (`PacedGesture.ReleaseAttemptedExactly`, `PacedGesture.ButtonCanStayDown`).
- An automation timer is no later than an obligation exactly when that obligation has not already passed when
  the timer is set; otherwise it fires at once (`AutomationWindows.FiresInTimeExactly`).  It happens when the
  loop is busy while a gesture's next action falls due (`AutomationWindows.TimerAfterObligation`).
- A vivid batch means what was pushed exactly when no merged line count left the 32-bit range since the last
  collapse (`VividBatch.BatchKeepsMeaningExactly`).  A run of scrolls of one region in one direction is clipped
  exactly when its lines add up to more than 32 bits hold, so more than 2^31 - 1 one-line scrolls are
  (`VividBatch.ClippedRunExactly`, `VividBatch.ClippingHappens`).
- The notification worker drops the index entry of an id when any task with that id ends. Every other shown
  notification stays closable exactly when no other live task shows the same id
  (`WorkerTable.RemovalKeepsClosableExactly`), and sharing arises exactly when a task refuses an update
  (`WorkerTable.AddingStaysUnsharedExactly`). `WorkerTable.CloseReachesNothing` is such a run.
- Showing a message can fail. The layout counts columns, but splits a line behind a blank, and cuts the first
  line for the close button, by UTF-8 bytes; exactly when such a cut falls inside a character the program stops
  (`MessageLayout.ShowingFailsExactly`). Four accented letters in eight columns do it
  (`MessageLayout.AccentsFail`), and so does a no-break space in a full line
  (`MessageLayout.NoBreakSpaceFails`). With one column a character, the line with the button is exactly as wide
  as the window exactly when it is ASCII (`MessageLayout.FirstLineExact`).
- A comment says OSC 7, 9 and 99 are captured (`src/osc_notification.rs:307-309`); the code also captures 133, and
  the model follows the code.

Beside these, one limit no caller reaches: an update of the timer list ends exactly when no due timer repeats
without an interval or the clock moves on while it runs (`Scheduler.UpdateEndsExactly`), and each due timer fires
once under the first of the two. The three timers that repeat have positive intervals (`src/event.rs:6463`,
`src/window_context.rs:3321`, `src/input/mod.rs:1351-1356`), so no timer of the program repeats without one.

## Model

| member | source | states |
|---|---|---|
| `LittleEndian.BytesRoundTrip` | src/main.rs:266-316 | a number that fits its field width is recovered from its little-endian bytes |
| `LittleEndian.RecordRoundTrip` | src/main.rs:266-316 | a record written field by field decodes to the same values, whatever bytes follow it |
| `LittleEndian.WordInjective` | src/main.rs:330-340 | byte strings of equal length with the same little-endian value are equal |
| `Crc32.Compute` | src/main.rs:330-340 | the nested loops over bytes and bits compute the checksum function |
| `Crc32.ShiftBitLinear` | src/main.rs:334-337 | one bit step distributes over exclusive or |
| `Crc32.ShiftBitsInjective` | src/main.rs:334-337 | any number of bit steps is one-to-one on 32-bit registers |
| `Crc32.AbsorbByteInjective` | src/main.rs:332-338 | for a fixed byte, absorbing is one-to-one on 32-bit registers |
| `Crc32.AbsorbByteSurjective` | src/main.rs:332-338 | for a fixed byte, every 32-bit register is reached, so the step is a bijection |
| `Crc32.AbsorbIsWordShift` | src/main.rs:330-340 | absorbing a byte string is mixing it in as one number and shifting its bits out |
| `Crc32.BurstDetected` | src/main.rs:330-340 | inputs that differ only inside at most four consecutive bytes never have the same checksum |
| `Crc32.SingleByteDetected` | src/main.rs:330-340 | inputs of equal length that differ in exactly one byte never have the same checksum |
| `CrcRemainder.ChecksumIsRemainder` | src/main.rs:330-340 | the checksum is the complement of the remainder of the message, its first 32 bits complemented, by the generator with exponents 32, 26, 23, 22, 16, 12, 11, 10, 8, 7, 5, 4, 2, 1, 0 |
| `CrcRemainder.ShiftBitReduces` | src/main.rs:334-337 | one bit step multiplies the register by x and reduces by that generator |
| `CrcRemainder.AbsorbReduces` | src/main.rs:332-338 | absorbing a byte string keeps the register congruent to all bits read so far |
| `CrcRemainder.GeneratorBits` | src/main.rs:336-336 | the constant is the generator, bits reversed, without its leading term |
| `StoredZip.Write` | src/main.rs:253-319 | the writer's loop produces the archive or the first error the specification names, in the same order of checks; `StoredZip.RecordsExact` and `StoredZip.EndExact` say what that archive is, field by field |
| `StoredZip.AcceptsExactlyAcceptable` | src/main.rs:258-312 | the writer succeeds if and only if every name, entry, the body, the index and the count fit their fields |
| `StoredZip.LocalFound` | src/main.rs:265-280 | a strict reader, who accepts only stored files with the flags, versions and sizes of section 4.3.7, recovers an entry's name, bytes, size and CRC at its local header, whatever surrounds it |
| `StoredZip.CentralFound` | src/main.rs:282-299 | at a central record every field of section 4.3.12 is where and what it was written to be, and its offset leads to the right local header |
| `StoredZip.IndexFound` | src/main.rs:282-308 | walking the rest of the central directory, and requiring each record to be that of a stored file of the size its local header gives, recovers the remaining entries in order |
| `StoredZip.RoundTrip` | src/main.rs:253-319 | for every accepted entry list, reading from the end record recovers the same names, bytes, sizes and CRCs in order |
| `StoredZip.RecordsExact` | src/main.rs:265-299 | each entry's local header and central record hold exactly these numbers: signature, versions 20, no flags, method 0, no time, CRC, size twice, name length and zeros; name and data stand behind them and the central record points to the local one |
| `StoredZip.EndExact` | src/main.rs:303-317 | the end record gives count twice, size and offset of the central directory, and is the end of the file |
| `StoredZip.Signatures` | src/main.rs:266-304 | the three signatures as bytes |
| `Transcript.Transcript.Append` | src/automation.rs:48-62 | the ring stays exactly the last min(total, 1 MiB) bytes of the full history; the returned offsets address the chunk |
| `Transcript.AppendedRing` | src/automation.rs:48-62 | in each of the three cases, what is kept is the last min(total, 1 MiB) bytes of the longer history |
| `Transcript.Transcript.Range` | src/automation.rs:73-105 | wherever the ring's storage wraps, the result is that slice of the full history, or a gap if it starts before the oldest byte |
| `Transcript.RangeOf` | src/automation.rs:73-105 | a gap, with the oldest and newest offsets, exactly when the start has been evicted; otherwise the history from the start, as long as asked or until its end |
| `Transcript.Transcript.TakeSnapshot` | src/automation.rs:107-126 | a snapshot reports the slice, its offsets and whether something was left out |
| `Transcript.SnapshotExactly` | src/automation.rs:107-126 | after an offset: what the range gives, with all four offsets, marked as cut exactly when something before or behind is missing; without one: the newest bytes, as many as asked or retained |
| `Transcript.FollowTiles` | src/automation.rs:107-126 | a client chaining snapshots, with appends in between, reads pieces that lie end to end and agree with the history; only a reported gap skips bytes |
| `Transcript.UninterruptedIsSlice` | src/automation.rs:107-126 | a client never told of a gap has read one contiguous slice of the history |
| `Delivery.Subscriber.Send` | src/automation.rs:508-538 | for each pattern of acceptance, which of overflow summary and event reach the connection and what is pending then: both, only the summary, or nothing; the books stay balanced |
| `Delivery.SendAccounts` | src/automation.rs:508-538 | whatever the connection refuses, frames and the pending range together use up the offered events, each once and in order |
| `Delivery.Recovers` | src/automation.rs:508-538 | a connection that from some point on refuses nothing is told its pending range and then receives every event as its own frame, and owes nothing |
| `Delivery.SentExactly` | src/automation.rs:508-538 | the specification of sending, pattern by pattern |
| `Delivery.ExactlyOnce` | src/automation.rs:508-538 | every offered event is exactly one of: delivered, inside one delivered overflow range, inside the pending range |
| `Delivery.NothingBeyond` | src/automation.rs:508-538 | no frame or range speaks for a sequence number newer than everything offered |
| `Delivery.DeliveredWereOffered` | src/automation.rs:528-534 | an event frame carries an offered event, unchanged |
| `Delivery.FramesBounded` | src/automation.rs:508-538 | no frame is newer than the newest offered event, and all are older than the pending range |
| `Delivery.FramesIncrease` | src/automation.rs:508-538 | frames reach the connection in strictly increasing sequence order |
| `EventHub.AutomationHub.EmitPayload` | src/automation.rs:587-622 | the log grows by exactly this event under the next number; every invariant of ring and subscriptions survives; exactly the dead connections lose their subscriptions, and each of the others is sent the event, or owes it, as its connection allows |
| `EventHub.AutomationHub.DeliverTo` | src/automation.rs:605-609 | one matching subscription is offered the event; what it sends and owes follows its connection, and earlier frames stay |
| `EventHub.AutomationHub.Evict` | src/automation.rs:615-619 | eviction terminates, even when one event exceeds the budget, and leaves the longest tail of the log within both budgets |
| `EventHub.AutomationHub.Retain` | src/automation.rs:612-619 | after retention numbers are consecutive up to the current one and the byte count is the sum of the retained sizes |
| `EventHub.StillTooLong` | src/automation.rs:615-619 | a tail that was over a budget stays over it when the log grows, so nothing was evicted too early |
| `EventHub.AutomationHub.EmitOutput` | src/automation.rs:572-585 | the log grows by the specified run of output events; subscriptions keep their starts and what they were sent, and exactly those whose connection died on the way go |
| `EventHub.OutputEventsContiguous` | src/automation.rs:572-585 | the events of one output carry its bytes in order, under consecutive numbers and offsets, in full pieces of 65536 and one shorter last piece |
| `EventHub.AutomationHub.Subscribe` | src/automation.rs:624-698 | the three refusals in the code's order; a new subscription is offered every matching event newer than `since` while all of them are retained, otherwise one gap event that names `since`, the oldest retained and the newest number; without `since` it is offered nothing |
| `EventHub.AutomationHub.CatchUp` | src/automation.rs:671-693 | what a new subscription is offered, and from where it follows the log, is what `EventHub.StartExactly` spells out |
| `EventHub.StartExactly` | src/automation.rs:671-693 | where a subscription starts: a gap is reported exactly when an event newer than `since` is no longer in the ring; otherwise all matching newer events are replayed |
| `EventHub.AutomationHub.ReportGap` | src/automation.rs:671-686 | a new subscription that asked for evicted events is offered one gap event and follows the log from here |
| `EventHub.AutomationHub.Replay` | src/automation.rs:687-692 | exactly the matching logged events newer than `since` are offered, in order |
| `EventHub.AutomationHub.Unsubscribe` | src/automation.rs:700-706 | exactly the named subscription of that connection goes, the others keep their order, and the result says whether there was one |
| `EventHub.AutomationHub.Disconnect` | src/automation.rs:708-710 | exactly the subscriptions of that connection go |
| `EventHub.TracksAppend` | src/automation.rs:605-609 | a subscription stays caught up with its preamble and every matching event since its start when the log grows |
| `EventHub.EveryMatchingEventAccounted` | src/automation.rs:497-538 | in every reachable state every matching event since a subscription's start is exactly one of delivered, summed up in one delivered range, or pending |
| `EventHub.WillingGetsEverything` | src/automation.rs:497-538 | in every reachable state a connection that refuses nothing has received its preamble and every matching event, each as its own frame, in order |
| `EventHub.RecoveredGetsEverything` | src/automation.rs:497-538 | in every reachable state a connection that has refused nothing from its k-th event on has received what it was owed then as one range and every later matching event as its own frame |
| `EventHub.RingHolds` | src/automation.rs:612-619 | in every reachable state the ring holds at most 4096 events of 4 MiB, numbered without a gap up to the newest, and no longer tail of the log would fit |
| `EventHub.ChargedAsEncoded` | src/automation.rs:442-442 | an output event is charged the length of its bytes in base64, with padding |
| `EventHub.OnlyMatchingEventsDelivered` | src/automation.rs:498-506 | nothing else is delivered |
| `OscCapture.OscCapture.Advance` | src/osc_notification.rs:257-318 | the in-place step is the step function, branch by branch |
| `OscCapture.OscNotificationParser.NextRelevant` | src/osc_notification.rs:177-190 | every byte skipped in bulk is inert in the current state |
| `OscCapture.InertRunChangesNothing` | src/osc_notification.rs:178-189 | skipping inert bytes changes neither the state nor any later body |
| `OscCapture.OscNotificationParser.Advance` | src/osc_notification.rs:173-202 | the bulk loop yields the messages, and the state, of the bytewise scanner |
| `OscCapture.ChunkingIsInvisible` | src/osc_notification.rs:173-202 | the messages do not depend on how the input is cut into chunks |
| `OscCapture.HopelessForever` | src/osc_notification.rs:326-333 | a body that fails the prefix test fails it however it continues |
| `OscCapture.ParsedBodiesWereKept` | src/osc_notification.rs:335-357 | the parser accepts only bodies that pass the prefix test |
| `OscCapture.PayloadGoesTo` | src/osc_notification.rs:335-357 | which parser a body goes to by what stands in front: 7, 9;4 before 9, 133, 99 with its metadata up to the first semicolon |
| `OscCapture.OtherBodiesGiveNothing` | src/osc_notification.rs:350-350 | no other body gives a message |
| `OscCapture.ConfirmedExactly` | src/osc_notification.rs:191-202 | a body gives a message exactly when it is confirmed and its parser accepts it |
| `OscCapture.ControlBytes` | src/osc_notification.rs:257-300 | which bytes introduce and end strings |
| `OscCapture.RemembersStep` | src/osc_notification.rs:291-318 | retained bytes plus a pending ESC are the bytes since the introducer, or the body is beyond hope |
| `OscCapture.RemembersEnd` | src/osc_notification.rs:291-296 | at the terminator the captured body, without an ESC right before it, gives the message the reference gives |
| `OscCapture.OscRefines` | src/osc_notification.rs:291-318 | from any point inside an OSC, scanner and reference yield the same messages for the rest |
| `OscCapture.GroundRefines` | src/osc_notification.rs:257-318 | from the ground state, scanner and reference yield the same messages |
| `OscCapture.ScannerRefinesSplitter` | src/osc_notification.rs:173-202 | for every byte string and every cut into chunks, the messages are those of a splitter that never discards early and then drops bodies over 8 KiB |
| `Scheduler.Scheduler.Schedule` | src/scheduler.rs:85-99 | a timer enters before the first later deadline, and the list stays sorted with ties in order of entry |
| `Scheduler.Scheduler.Unschedule` | src/scheduler.rs:102-105 | exactly the first timer with the id goes and is returned |
| `Scheduler.Scheduler.UnscheduleWindow` | src/scheduler.rs:116-118 | exactly the window's timers go, the others keep their order |
| `Scheduler.Scheduler.Update` | src/scheduler.rs:67-82 | whenever the loop can end: due timers fire from the front until none is due, no other timer is touched, everything left is in the future and the minimum is returned; unless a due timer repeats without an interval, exactly the timers due at the first reading fire, each once, in order |
| `Scheduler.InsertInOrder` | src/scheduler.rs:86-98 | a newcomer goes behind every timer with the same deadline |
| `Scheduler.InsertBehind` | src/scheduler.rs:88-98 | timers due no later than a newcomer keep their place in front |
| `Scheduler.FireOne` | src/scheduler.rs:70-79 | a repeating timer re-enters behind all timers still due, so the loop does not fire it again |
| `Scheduler.FiringLeavesExactly` | src/scheduler.rs:70-79 | firing the front timer leaves one due timer fewer, except exactly when it repeats with a zero interval and no time has passed |
| `Scheduler.DueFireInTurn` | src/scheduler.rs:70-79 | each turn fires the next of the timers due at the start; those that repeat have re-entered behind the others |
| `Scheduler.UpdateEndsExactly` | src/scheduler.rs:67-82 | an update ends if and only if no due timer repeats without an interval or the clock moves on at some reading |
| `Scheduler.NeverEnds` | src/scheduler.rs:70-79 | otherwise the front timer is due after every turn |
| `Scheduler.FutureStays` | src/scheduler.rs:70-79 | a timer that is not due is never touched |
| `PacedGesture.ScriptAt` | src/event.rs:124-147 | the action the counter stands for is that entry of the whole gesture's script |
| `PacedGesture.WellFormedExactly` | src/event.rs:2681-2684 | which gestures are accepted: 2 to 1000 points, 1 to 30000 ms, and with a frame wait a timeout of at most a day |
| `PacedGesture.TurnsExactly` | src/event.rs:2725-2791 | one tick waits, writes the next action, completes or gives up, and exactly when it does which |
| `PacedGesture.KeepsSchedule` | src/event.rs:2698-2719 | in every run the k-th action is due k intervals after the start, and the deadline stays the start, the duration and the frame timeout or five seconds |
| `PacedGesture.InTimeCompletes` | src/event.rs:2698-2791 | a gesture whose ticks and writes are in time completes, with all of its actions written |
| `PacedGesture.ReactFollowsScript` | src/event.rs:2725-2864 | one tick or disconnect adds nothing, the next scripted action, or a release |
| `PacedGesture.RunFollowsScript` | src/event.rs:2725-2864 | over every run, what is written is the script up to the counter and at most one release behind it; a release is attempted iff Down has been passed and it was not the final write that failed |
| `PacedGesture.CompletionWritesScript` | src/event.rs:2725-2821 | a gesture over n points that completes has written its n+1 actions in order |
| `PacedGesture.AtMostOneUp` | src/event.rs:2725-2864 | however a gesture ends, at most one Up is written |
| `PacedGesture.ReleaseAttemptedExactly` | src/event.rs:2762-2864 | leaving past the Down attempts a release except exactly when the final Up's write fails |
| `PacedGesture.ButtonCanStayDown` | src/event.rs:2793-2806 | that exception with concrete points |
| `GestureHistory.Begins` | src/event.rs:2698-2719 | a gesture starts with nothing written for its request |
| `GestureHistory.TurnFollows` | src/event.rs:2725-2864 | one turn leaves the request with its script up to the counter, all of it, or a stretch and a release |
| `GestureHistory.Turns` | src/event.rs:2725-2864 | a turn of one gesture keeps the record of every gesture: under way, completed or left |
| `GestureHistory.Goes` | src/event.rs:2744-2750 | a gesture dropped without a word leaves the records of all others as they were |
| `GestureHistory.LetsGoOnce` | src/event.rs:2725-2864 | however gestures interleave, at most one Up is written per request |
| `AutomationTimers.RemoveKeeps` | src/event.rs:3096-3097 | cancelling a window's tick leaves none for it and every other timer in place |
| `AutomationTimers.InsertKeeps` | src/event.rs:3130-3135 | setting it keeps at most one automation timer per window |
| `AutomationTimers.FiringsKeep` | src/scheduler.rs:70-79 | however many timers fire and re-enter, at most one automation timer per window is left |
| `AutomationTimers.ArmedOrSent` | src/scheduler.rs:67-82 | however many timers have fired, a window's tick is still armed in time or has been sent |
| `AutomationLedger.Nearest` | src/event.rs:3098-3129 | the nearest of a window's instants, if there is one |
| `AutomationLedger.ObligationsExactly` | src/event.rs:3098-3129 | the instants the timer is computed from are the deadlines of writes and waits, the gesture's next action or deadline, and where an eligible screen-stable wait becomes quiet |
| `AutomationLedger.Open` | src/event.rs:2975-2980 | a new request is held by one window, once |
| `AutomationLedger.Close` | src/event.rs:3517-3520 | a request that stops being held becomes answered, once, or dropped, and the books stay balanced |
| `AutomationLedger.AnsweredAtMostOnce` | src/event.rs:3208-3522 | no request is answered twice |
| `AutomationLedger.NoneForgotten` | src/event.rs:3208-3522 | a request still waiting is unanswered and held by exactly one window, once; one that is over is held by none |
| `AutomationWindows.Processor.ScheduleTimer` | src/event.rs:3095-3136 | afterwards the window's timer is no later than the deadline of each write, wait and gesture and the instant each eligible screen-stable wait becomes quiet, or than now, and is at one of these; there is none when nothing is owed, and never two |
| `AutomationWindows.FiresInTimeExactly` | src/event.rs:3130-3135 | a timer that serves is no later than an instant owed iff that instant has not already passed |
| `AutomationWindows.TimerAfterObligation` | src/event.rs:3095-3136 | a run of the handlers after which an instant owed lies before the only timer |
| `AutomationWindows.NothingStranded` | src/event.rs:3095-3136 | in every reachable state, for every instant a live window owes to a write, a wait, its gesture or a quiet screen, the tick is queued or the window has one timer, no later than that instant or than the last handler |
| `AutomationWindows.EveryRequestWoken` | src/event.rs:3095-3136 | the same request by request: for each write, wait, gesture and screen-stable wait of a live window the tick is queued or the only timer is in time |
| `AutomationWindows.NothingAnsweredTwice` | src/event.rs:3208-3522 | in every reachable state no request has been answered twice |
| `AutomationWindows.EveryRequestServed` | src/event.rs:3208-3522 | in every reachable state a request of a connection that has neither been disconnected nor been found dead is answered exactly once and held no more, or unanswered and held by exactly one window, once |
| `AutomationWindows.GesturesFollowScripts` | src/event.rs:2725-2864 | in every reachable state a completed gesture has written exactly its script and no gesture has let go twice |
| `AutomationWindows.Processor.NearestInstant` | src/event.rs:3098-3129 | the loop over eligible screen-stable waits finds the nearest of all instants owed, and nothing exactly when none is owed |
| `AutomationWindows.Processor.SettleWaiters` | src/event.rs:3208-3522 | a wait of a live connection stays, unanswered, iff its deadline is ahead and its condition does not hold, or its screen has not changed since or has not been quiet for long enough; every other wait of a live connection is answered and gone; only requests of dead connections are given up |
| `AutomationWindows.Processor.EvaluateWaiters` | src/event.rs:3208-3522 | the same on the window map, other windows untouched |
| `AutomationWindows.KeepsExactly` | src/event.rs:3208-3522 | a wait is kept iff its connection lives, its deadline is ahead, and what it waits for has not come: its condition, or a changed screen that has been quiet |
| `AutomationWindows.DecidedBy` | src/event.rs:3517-3521 | so every wait of a live connection is either kept and unanswered or answered and gone |
| `AutomationWindows.TickDecidedBy` | src/event.rs:3070-3091 | and so after a tick, for the waits the window held before it |
| `AutomationWindows.Processor.RegisterWait` | src/event.rs:2960-2982 | bad timeouts are answered; any other wait joins, all waits of the window are decided in the same way, and the timer serves what is left; gestures, other timers and queued ticks stay |
| `AutomationWindows.Processor.ExpireWrites` | src/event.rs:3075-3087 | the swap-remove loop takes out exactly the overdue writes and answers each |
| `AutomationWindows.Processor.SettleOverdue` | src/event.rs:3074-3089 | overdue writes go, each answered; every wait of a live connection that is over or overdue is answered; what is still open stays; other windows are untouched |
| `AutomationWindows.Processor.HandleTick` | src/event.rs:3070-3091 | the gesture takes exactly one turn and is answered if it leaves; exactly the overdue writes go, each answered; every wait of a live connection is decided as it stands after that; other windows and gestures and earlier answers stay; the timer serves everything left |
| `AutomationWindows.TickMakesProgress` | src/event.rs:3070-3091 | after a tick everything left lies in the future, except perhaps the gesture's next action |
| `AutomationWindows.Processor.AdvanceGesture` | src/event.rs:2725-2791 | a gesture takes one turn: it steps, is answered and removed, or becomes a wait; what it writes, answers and leaves is stated for each |
| `AutomationWindows.Processor.LiveTurn` | src/event.rs:2732-2791 | the turn on a live window: due or not, failed or written, last or not |
| `AutomationWindows.Processor.FinishGesture` | src/event.rs:2793-2821 | a finished gesture's request moves to a wait without being answered twice |
| `AutomationWindows.JoinedExactly` | src/event.rs:2807-2818 | that wait lasts as long as the path allows for its frame, or five seconds |
| `AutomationWindows.Processor.StartGesture` | src/event.rs:2674-2722 | malformed paths and a second gesture are refused; otherwise the first action is taken at once, its failure is answered, and the timer covers the rest |
| `AutomationWindows.Processor.QueueInput` | src/event.rs:2867-2910 | empty, oversized or failed input is answered; otherwise a tracked write with a five second deadline is covered by the timer |
| `AutomationWindows.Processor.CompleteWrite` | src/event.rs:4761-4796 | the write with the token is answered and swap-removed, then every wait of the window is decided and the timer serves what is left |
| `AutomationWindows.Processor.TakeWrite` | src/event.rs:4762-4782 | the first write with the token is answered and swap-removed, or nothing happens |
| `AutomationWindows.Processor.ChangeScreen` | src/event.rs:5118-5161 | screen-stable waits count from now, then every wait of the window is decided and the timer serves what is left |
| `AutomationWindows.Processor.Disconnect` | src/event.rs:2913-2943 | in every window exactly the waits and writes of other connections stay and nothing is answered; each of the lost connection's gestures on a live window, in some order, writes its release if it is past the Down; the cover of the other requests, and all other timers, survive |
| `AutomationWindows.Processor.DropGestures` | src/event.rs:2914-2925 | the loop lets go of exactly the connection's gestures, each once |
| `AutomationWindows.Processor.CloseWindow` | src/event.rs:4958-4986 | every write and then every wait the window held is answered, and exactly its timers go |
| `AutomationWindows.Processor.UpdateScheduler` | src/event.rs:5103-5176 | the scheduler's update, after which every instant a window owes lies in the future with a timer no later, or its tick is on its way |
| `AutomationWindows.InTimeAfterUpdate` | src/scheduler.rs:67-82 | a window covered before an update is covered after it, by its timer or by a sent tick |
| `PendingTerminalEvents.PendingTerminalEvents.RaiseWakeup` | src/event.rs:7170-7172 | of all wake-ups raised between two acknowledgements exactly the first is posted, so at most one is outstanding |
| `PendingTerminalEvents.PendingTerminalEvents.PushOutput` | src/event.rs:7183-7198 | of all reports between two takes exactly the first is posted |
| `PendingTerminalEvents.PendingTerminalEvents.TakeOutput` | src/event.rs:7130-7132 | what is taken is the smallest span around every report since the last take; the fallback only when there was none |
| `PendingTerminalEvents.MergedSpans` | src/event.rs:7185-7189 | merging reports one by one gives the smallest span around all of them |
| `WakeProtocol.StepSafe` | src/event.rs:7159-7182 | every atomic step keeps: the flag is up iff exactly one wake-up is being posted, queued or received unacknowledged, and no change is unannounced |
| `WakeProtocol.ReachableSafe` | src/event.rs:7159-7182 | so in every reachable state, for any number of workers |
| `WakeProtocol.NothingUnseenAtRest` | src/event.rs:4711-4715 | once everything has come to rest the UI has drawn every change |
| `WakeProtocol.CanGoOn` | src/event.rs:7159-7182 | until everything is at rest some thread can take a step that leaves less to do |
| `WakeProtocol.ComesToRest` | src/event.rs:7159-7182 | from every safe state of an open loop the threads can come to rest, and then every change has been drawn |
| `WakeProtocol.EveryChangeDrawn` | src/event.rs:7159-7182 | whatever has happened while the loop is open, the threads can go on until every change has been drawn |
| `OutputProtocol.StepSafe` | src/event.rs:7183-7198 | every atomic step keeps: the range is present iff one report is outstanding, and taken and pending ranges partition what was produced |
| `OutputProtocol.ReachableSafe` | src/event.rs:7183-7198 | so in every reachable state |
| `OutputProtocol.EverythingTakenAtRest` | src/event.rs:4744-4757 | once everything has come to rest the taken ranges partition everything produced |
| `OutputProtocol.CanGoOn` | src/event.rs:7183-7198 | until everything is at rest some thread can take a step that leaves less to do |
| `OutputProtocol.ComesToRest` | src/event.rs:7183-7198 | from every safe state of an open loop everything produced so far can be taken |
| `OutputProtocol.EverythingTaken` | src/event.rs:7183-7198 | whatever has happened while the loop is open, the threads can go on until the taken ranges partition everything produced |
| `OutputProtocol.TiledExactly` | src/event.rs:7183-7198 | what partition means here: the ranges lie end to end from 0 to the end |
| `OutputProtocol.NeverFallsBack` | src/event.rs:7130-7132 | in every reachable state in which the UI takes a range, a merged range is there; the one in the event is never used |
| `VividBatch.PendingVividEvents.Push` | src/event.rs:7246-7289 | the queue is the batch of everything pushed since the last take, and exactly one notification is outstanding |
| `VividBatch.PendingVividEvents.Take` | src/event.rs:7292-7297 | the whole batch is taken and no notification is owed |
| `VividBatch.MergesExactly` | src/event.rs:7261-7275 | an event merges exactly when both scroll the same region, both up, both down, or both by nothing |
| `VividBatch.SumExactly` | src/event.rs:7276-7276 | line counts add up, or stop at the bounds of 32 bits |
| `VividBatch.AppendKeepsMeaning` | src/event.rs:7261-7281 | merging keeps the sequence of one-line scrolls iff the count is not clipped |
| `VividBatch.BatchKeepsMeaningExactly` | src/event.rs:7246-7289 | line for line the batch is the pushed sequence, or a clear and what came since, iff nothing was clipped since the last collapse |
| `VividBatch.OwedIsTail` | src/event.rs:7249-7258 | that reference is all events, or a clear in front of a tail of them when the queue has collapsed |
| `VividBatch.CollapsesExactly` | src/event.rs:7249-7258 | the queue collapses exactly when an event meets 8192 entries |
| `VividBatch.ClippingHappens` | src/event.rs:7276-7276 | n one-line scrolls of one region are clipped iff n exceeds 2^31 - 1 |
| `VividBatch.ClippedRunExactly` | src/event.rs:7261-7281 | scrolls of one region in one direction become one entry, clipped iff their lines add up to more than 32 bits hold |
| `VividBatch.BatchBounded` | src/event.rs:7249-7258 | the queue never exceeds 8192 |
| `VividBatch.NewestHistory` | src/event.rs:7277-7277 | a merged scroll carries the newest history size |
| `RateLimiter.RateLimiter.Take` | src/osc_notification.rs:944-956 | tokens stay in [0, 5], refill with time and pay for each accepted call |
| `RateLimiter.StaysInRange` | src/osc_notification.rs:944-956 | so over every run |
| `RateLimiter.RunBound` | src/osc_notification.rs:944-956 | from any state a run of T seconds accepts at most 5 + T calls |
| `RateLimiter.WindowBound` | src/osc_notification.rs:28-29 | in every run, every window of T seconds accepts at most 5 + T calls |
| `RateLimiter.RefusedExactly` | src/osc_notification.rs:944-956 | a call is refused exactly when accepting it would give some window of T seconds more than 5 + T calls |
| `Notifications.NotificationController.Handle` | src/osc_notification.rs:766-784 | a disabled controller does nothing; otherwise exactly the overdue expire, then the request has exactly its effect on the history, on what is submitted, on what the worker is told and on the replies |
| `Notifications.NotificationController.HandleKitty` | src/osc_notification.rs:786-844 | for queries, closes, chunks without an id and chunks with one: what changes in the pending table and the history, what reaches `submit`, what the worker is told and which queries are replied to |
| `Notifications.NotificationController.AddChunk` | src/osc_notification.rs:828-843 | what reaches `submit` is the concatenation of the chunks since the last end; an overflow forgets the notification |
| `Notifications.NotificationController.MakeRoom` | src/osc_notification.rs:816-826 | at the limit, for a new id, one that has waited longest goes |
| `Notifications.NotificationController.ExpirePending` | src/osc_notification.rs:870-877 | exactly those unchanged for thirty seconds go |
| `Notifications.NotificationController.Submit` | src/osc_notification.rs:846-854 | shown iff the occasion matches, the limiter allows it and there is text; the limiter is asked only when the occasion matches |
| `Notifications.NotificationController.SetEnabled` | src/osc_notification.rs:738-744 | switching off forgets everything pending and tells the worker to clear |
| `Notifications.NotificationController.Forget` | src/osc_notification.rs:800-806 | a close forgets what is pending under the id and reaches the worker |
| `Notifications.NotificationController.NotifyLocal` | src/osc_notification.rs:751-764 | a notification of the terminal itself asks the limiter and nothing else |
| `Notifications.AssemblyStep` | src/osc_notification.rs:634-668 | a chunk extends its own half, and later options override earlier ones |
| `Notifications.ChunkReflects` | src/osc_notification.rs:828-834 | the pending table stays what the history of requests says it is |
| `Notifications.EndReflects` | src/osc_notification.rs:816-843 | so when a notification ends, for any reason |
| `Notifications.InterleavingIsInvisible` | src/osc_notification.rs:786-844 | a notification is put together as if no other id existed |
| `Notifications.CompletedAreWhole` | src/osc_notification.rs:786-844 | in every run each submission under an id is exactly that id's own chunks, in order, since it last ended |
| `Notifications.OccasionExactly` | src/osc_notification.rs:880-888 | when each occasion is there |
| `Notifications.DefaultsExactly` | src/osc_notification.rs:618-631 | the settings of a notification until an option says otherwise |
| `Notifications.OverrideExactly` | src/osc_notification.rs:651-667 | an option that is given replaces the one before, and only that one |
| `Notifications.ShownExactly` | src/osc_notification.rs:846-854 | nothing is shown without text, a body alone becomes the title, and focus needs a desktop that can give it |
| `Notifications.PresentedExactly` | src/osc_notification.rs:846-854 | exactly one command iff occasion, token and text are there; the bucket is asked iff the occasion is |
| `Notifications.RequestsBesides` | src/osc_notification.rs:786-814 | what closes and queries tell the worker and the terminal |
| `Notifications.FreshExactly` | src/osc_notification.rs:870-877 | exactly what has not grown for 30 seconds expires |
| `Notifications.BoundsHold` | src/osc_notification.rs:634-643 | in every reachable state at most 64 notifications of at most 16384 bytes are pending |
| `WorkerTable.NotificationWorker.Display` | src/osc_notification.rs:1062-1103 | an update in place, or a new task with a fresh token; below the limit nothing else changes, at the limit exactly the oldest live task is given up and told to close |
| `WorkerTable.NotificationWorker.MakeRoom` | src/osc_notification.rs:1069-1072 | eviction terminates with room for the new task, though the order may hold stale tokens, and gives up exactly the oldest live task |
| `WorkerTable.OldestIsSmallest` | src/osc_notification.rs:1069-1096 | the task given up has the smallest token of all live ones |
| `WorkerTable.StaleOrOldest` | src/osc_notification.rs:1069-1072 | taking off the front of the order drops a stale token or gives up the oldest live task |
| `WorkerTable.TableExactly` | src/osc_notification.rs:1074-1139 | what taking a task out and putting one in change, entry by entry |
| `WorkerTable.NotificationWorker.Close` | src/osc_notification.rs:1104-1108 | the task of the id is told to close and the id is gone |
| `WorkerTable.NotificationWorker.Done` | src/osc_notification.rs:1116-1119 | the task leaves the table and the order without being closed again |
| `WorkerTable.NotificationWorker.Clear` | src/osc_notification.rs:1109-1115 | every live task is told to close, once |
| `WorkerTable.FrontEvictedConsistent` | src/osc_notification.rs:1069-1072 | giving up the front task keeps the table consistent |
| `WorkerTable.AddedConsistent` | src/osc_notification.rs:1074-1094 | adding a task keeps the table consistent and bounded |
| `WorkerTable.RemovalKeepsClosableExactly` | src/osc_notification.rs:1125-1139 | taking a task out leaves every other shown notification closable iff no other live task shows the same id |
| `WorkerTable.SharedAfterRefusedUpdate` | src/osc_notification.rs:1063-1084 | a task that refuses an update is joined by a second one under its id |
| `WorkerTable.UnsharedStays` | src/osc_notification.rs:1125-1139 | while nothing is shared, removals keep everything closable and unshared |
| `WorkerTable.AddingStaysUnsharedExactly` | src/osc_notification.rs:1063-1084 | a new task keeps everything unshared iff no live task had its id |
| `WorkerTable.CloseReachesNothing` | src/osc_notification.rs:1062-1139 | a run in which a second task joins the first, the first is done, and closing by the id reaches nothing |
| `Screenshot.CompactRows` | src/screenshot.rs:96-101 | every pixel byte keeps its row and its place in the row, for every image |
| `Screenshot.StraightenPixel` | src/screenshot.rs:103-114 | one pixel becomes straight, the rest of the buffer is untouched |
| `Screenshot.Unpremultiply` | src/screenshot.rs:103-114 | so for every pixel |
| `Screenshot.Convert` | src/screenshot.rs:67-118 | the two errors change nothing; otherwise pixel (r, c) is the straight form of the padded original's pixel (r, c) |
| `Screenshot.NoOverflow` | src/screenshot.rs:111-111 | the intermediate value fits 16 bits |
| `Screenshot.PremultiplyUndoesStraight` | src/screenshot.rs:110-113 | a premultiplied channel is never clipped, and premultiplying the result gives it back |
| `Screenshot.StraightIsNearest` | src/screenshot.rs:110-113 | the straight channel is the nearest there is, and full where the channel is brighter than its alpha |
| `Screenshot.StraightPixelExactly` | src/screenshot.rs:103-114 | colours become straight one by one, alpha stays, and a pixel that can not be seen becomes black |
| `Screenshot.StagesCompose` | src/screenshot.rs:96-114 | compacting and straightening compose to the conversion |
| `Paste.NewPrompt` | src/clipboard_prompt.rs:85-129 | preview, lines, line breaks and controls are those of the text |
| `Paste.BreaksAreReturns` | src/event.rs:6271-6276 | the prompt's line breaks are the carriage returns the paste writes |
| `Paste.KeysAreWritten` | src/event.rs:6271-6276 | the prompt's controls are the other non-tab controls the paste writes |
| `Paste.OthersAreWritten` | src/event.rs:6271-6276 | apart from line breaks the paste writes the text as it is, and it writes no line feed |
| `Paste.UnsafeExactlyWhenCounted` | src/clipboard_prompt.rs:52-54 | a paste is unsafe iff those two counts are not both zero |
| `Paste.PreviewLength` | src/clipboard_prompt.rs:185-192 | the preview is the first min(lines, 6) lines in order, and every other line is counted as hidden |
| `Paste.ShownExactly` | src/clipboard_prompt.rs:85-129 | a preview line shows the first 256 characters of its line |
| `Paste.VisibleIsHarmless` | src/clipboard_prompt.rs:257-274 | the preview shows controls and directional characters by harmless ones, and any other character as itself |
| `Paste.LinesAndBreaks` | src/clipboard_prompt.rs:98-125 | there are as many lines as breaks, or one more |
| `MessageLayout.Text` | src/message_bar.rs:42-112 | for every text, every width of its characters and every window, the loop, truncation and button produce the specified lines, or stop where a cut falls inside a character |
| `MessageLayout.WrappedKeepsInk` | src/message_bar.rs:54-92 | whatever the text and its widths, wrapping keeps every non-blank character, in order |
| `MessageLayout.WrappingFailsExactly` | src/message_bar.rs:67-73 | wrapping stops exactly when it reaches a full line whose last blank has several bytes |
| `MessageLayout.WrappingSucceeds` | src/message_bar.rs:54-92 | with one-byte blanks it never stops, and lines hold nothing but characters of the text and blanks |
| `MessageLayout.TruncationFailsExactly` | src/message_bar.rs:104-109 | the cut for the button fails exactly when no prefix of the line has its length in bytes |
| `MessageLayout.ShowingFailsExactly` | src/message_bar.rs:42-112 | showing a message fails exactly in these two ways |
| `MessageLayout.AccentsFail` | src/message_bar.rs:104-109 | a message whose first line is cut inside a character |
| `MessageLayout.NoBreakSpaceFails` | src/message_bar.rs:67-73 | a message whose line is split inside a blank |
| `MessageLayout.FirstLineExact` | src/message_bar.rs:104-109 | with one column a character, the first line with the button is as wide as the window iff it is ASCII |
| `MessageLayout.WrappedRecovers` | src/message_bar.rs:54-92 | with one column a character, the lines are the trimmed text: joined with the at most one blank each break swallowed they give it back; no break comes before it has to, and none splits a word that shares its line; room for the button is kept in the first line only |
| `MessageLayout.BreakIsRight` | src/message_bar.rs:60-79 | each break the loop makes is of that kind |
| `MessageLayout.WrappedFits` | src/message_bar.rs:54-92 | with one column a character, full-width lines and room for the button in the first |
| `MessageLayout.OneCellAColumn` | src/message_bar.rs:76-89 | with characters of one or two columns, the line being filled has one character a column, fillers included |
| `MessageLayout.BlankExactly` | src/message_bar.rs:60-66 | the blanks, one by one |
| `MessageLayout.ByteLengthExactly` | src/message_bar.rs:67-69 | a character takes the fewest bytes of UTF-8 that can encode it |
| `MessageLayout.TrimExactly` | src/message_bar.rs:53-53 | trimming takes off blanks at both ends and nothing else |
| `MessageLayout.ShortenedExactly` | src/message_bar.rs:94-102 | lines over the limit go, and the last that is left says so where there is room |
| `MessageLayout.ButtonExactly` | src/message_bar.rs:104-109 | the button ends the first line, what stands before it is a prefix of that line, and the other lines stay |
| `MessageLayout.TextFitsWindow` | src/message_bar.rs:42-112 | ASCII of one column a character is always shown: at most the line limit, and every line exactly the column count |
| `MessageLayout.NoInkLost` | src/message_bar.rs:94-112 | when nothing of it is truncated, every non-blank character is shown in order |

## Left out

- Waits' conditions (screen text, regular expressions, tracks, file drops): an arbitrary oracle per request; only screen-stable waits, whose instants the timer depends on, are modelled.
- Confirmation of resize and focus waits, and frame waits of a finished gesture: they are ordinary conditions here.
- AutomationWindows.Processor.AdvanceGesture: gestures whose window has been removed are only kept in the books; nothing is claimed about when they are woken.
- AutomationWindows.Processor.OpenWindow: a new window is assumed not to reuse the id of one whose gesture is still around.
- AutomationWindows.Processor.HandleTick: one instant per handler; the code reads the clock again in places.
- The texts of answers and errors: an answer is recorded by its request only.
- EventHub.EncodedSize: the footprint of a JSON value is an arbitrary natural number.
- EventHub.AutomationHub.CatchUp: whether the connection accepts the first gap frame is arbitrary; the claim is about what is offered.
- EventHub.AutomationHub.Subscribe: the reply sent ahead of any event is not modelled.
- 64-bit counters (offsets, sequence numbers, subscription ids, tokens) are unbounded; they saturate or wrap only after more events than any run produces.
- OscCapture.ParseOsc: the parsers of individual payloads and the confirmation that a body is one top-level OSC are arbitrary functions of the body.
- WakeProtocol.Next: the event loop refuses a post only once it is closed, and PTY replies and uncoalesced events are not part of this model; on Linux nothing is coalesced.
- Crc32.Compute: the mask of the bit step is written as a branch.
- StoredZip.Write: the temporary file, its permissions and the rename are left out; names are given as UTF-8 bytes.
- RateLimiter.Taken: real numbers instead of 64-bit floating point.
- WorkerTable.NotificationWorker.Display: whether a live task takes an update is arbitrary; starting tasks and the shutdown message are left out.
- Paste.Payload: only a paste that asks for bracketing into an application that has not enabled it; filtering of bracketed pastes and raw pastes would add easy members.
- MessageLayout.Laid: the width of a character is an arbitrary function, and the line limit a given natural number.
- MessageLayout.WrappedFits: characters of two columns can make a line longer than the window; exact widths are claimed for one column a character only.
- `CommandExecutionState`, `MessageBuffer`, capture redactions, progress and shell-integration parsing: they would only add easy members.
- Notifications.NotificationController.HandleKitty: a reply to a query is recorded by its id; the list of capabilities in it is not modelled.
- Windowing, rendering, PTY, sockets, processes, configuration, command line and the update flow.
