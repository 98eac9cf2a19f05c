# ASRSub, modelled in Dafny

ASRSub makes subtitles for a media library. This project models the parts of it that keep promises over
time, and proves those promises for every input, every run or every interleaving:

- **the notification outbox** (`Lane*`, `StateCodec`, `StateReadings`, `StateSchema`): one state machine, a file it is
  persisted to, disk failures before and after the rename, opens that cannot look up or read the file, and
  crashes that replace memory by what the file says;
- **the paired ledgers** (`Ledger*`): a commit to two JSON-lines files under two ordered locks, with torn
  writes, rollback, and any number of interleaved callers;
- **admission** (`Admission`, `TargetLedgerRows`, `TargetPublish`, `PublishTheorems`, `PublishOutcomes`, `AdmissionRuns`,
  `RegistryDelete`): installing a subtitle, committing it, undoing a failed install, the reader that later
  trusts rows and file only together, and the delete that rewrites the registry;
- **reports and their canonical bytes** (`ReportTypes`, `ReportCodec`, `ReportRoundTrip`, `ReportSizes`, `Formats`,
  `PassReports`, `Orders`, `DisplayText`, `DisplayNormal`, `TitleSafety`) over JSON and UTF-8 text (`Json`, `JsonWriter`, `JsonExtension`, `Utf8`, `Decimal`);
- **the digest** (`DigestRows`, `Digest`, `DigestTheorems`, `DigestReadings`, `Notifier`, `CrampedReport`): packing rows into eight lines and
  900 scalars, and the worker that sends attention before completed;
- **pure algorithms**: calendar dates (`CivilDate`), masking of credential-shaped runs (`RunMask`, `CleanText`,
  `Redaction`, `RedactionTheorems`, `RedactionShapes`, `RedactTwice`), language normalization and sidecar lists (`Lang`, `LangReadings`,
  `LangTables`, `SidecarPaths`), and the
  choice of the audio track (`SourceChoice`).

`Wrappers` and `Sorting` are shared helpers. Where the program updates something in place, the model is a
class or a method with a loop (`LaneState.StateLane`, `LedgerCommit.LedgerStore`,
`TargetPublish.TargetPublisher`, `Digest.Render`, `RunMask.MaskTailRuns`, `DisplayText.Sanitize`, ...). Each such method is proved
equal to a specification function, and the properties are proved of that function.

Beside the properties over runs and the round trips, `LaneEffects`, `LedgerOutcomes`, `PublishOutcomes`, `RedactionShapes`, `DigestReadings`,
`Orders`, `LangReadings`, `StateReadings`, `TitleSafety` and `Formats` say of arguments, fields and characters alone what each operation does:
when it goes through, what it answers otherwise, and the whole result.

Things that turned out not to hold, each with a lemma that shows it and the exact condition under which
the code does what is promised:

- one failing read of a good state file at start-up empties the outbox, deadline included, because the file
  is moved away and an empty state is written: an id is lost exactly by an open that gives the file up
  (`LaneTheorems.LostExactlyWhenGivenUp`, `LaneWitnesses.FailedReadLosesReport`,
  `LaneWitnesses.GivenUpFileForgetsDeadline`);
- the title sanitizer is not idempotent: a title survives a restart only if it is in NFC, short and well
  spaced, and one title that is not empties the whole outbox (`DisplayNormal.StableExactlyWhen`,
  `DisplayNormal.DroppedJoinerIsNotStable`, `LaneTheorems.RestartKeepsExactlyStable`);
- a refused enqueue leaves its reports queued under the old generation, so a reservation can capture a
  report its view never showed; exactly then view and reservation differ
  (`LaneTheorems.RenderedViewIsCaptured`, `LaneWitnesses.RefusedEnqueueWidensReservation`);
- a restore neither bounds nor deduplicates the queue of its snapshot
  (`LaneTheorems.RestoreKeepsTidyExactly`, `LaneTheorems.RestoreOfRepeatsIsUntidy`);
- an error row cut inside its line unpairs the ledgers, and a later commit reports success although its
  row cannot be read (`LedgerTheorems.ApplyPairing`, `LedgerTheorems.TornErrorRowSwallowsTarget`);
- a delete from the registry loads its rows outside the lock, so a commit before its rewrite is lost and the
  ledgers are no longer paired (`RegistryDelete.DeleteLosesCommit`, `RegistryDelete.LateRewriteIsSerialExactly`);
- rows without a language verify the target of no language, yet it stays missing
  (`Admission.DroppedExactlyWhenVerified`, `Admission.NamelessStaysMissing`);
- a row of a report with more than six targets becomes a failure when its title is too long, so a pass in
  which nothing failed can be shown as one that needs attention (`DigestRows.RowSeverity`,
  `Notifier.CompletedLooksComplete`, `CrampedReport.LongTitleNeedsAttention`);
- redacting a redacted value masks more of it exactly when the first pass masked the separator that ended the
  host slot (`RedactTwice.TwiceIsOnceExactly`, `RedactTwice.TwiceIsNotOnce`);
- a failed look at the installed file ends `finish_lang` without clean-up
  (`PublishTheorems.FailureRestores`);
- the calendar conversion is wrong from the year 2147483648 on (`CivilDate.UnixToYmdHmsIsExact`).

SHA-256 and the Unicode tables are function parameters; nothing is assumed of a hash, so statements about
equal content say "or the hash collides". Integers carry the widths of the source (`u32`, `i64`, `u64`)
where an operation can overflow.

## Model

| member | source | states |
|---|---|---|
| LaneTheorems.NothingIsLost | src/discord_state_lane.rs:119-152 | In every run in which no open gave up the state file and no restore replaced the queue, with crashes, failing writes and any clock: an id accepted since the last acknowledgement that consumed it is queued in memory and listed in the file. |
| LaneTheorems.LostExactlyWhenGivenUp | src/discord_state_lane.rs:64-86 | The first open that finds the file, does not load it and moves it away or overwrites it loses every such id, in memory and on disk; every other open keeps them all. |
| LaneTheorems.GivesUpExactly | src/discord_state_lane.rs:64-86 | An open gives a written file up exactly when it cannot look it up or read it, or some queued title is unstable, and the file does not simply stay where it was. |
| LaneTheorems.ReadableStableRunIsIntact | src/discord_state_lane.rs:648-668 | No run gives up its file when all enqueued titles are stable and every open can read it. |
| LaneWitnesses.FailedReadLosesReport | src/discord_state_lane.rs:72-82 | A run: one report with a stable title is accepted, the process dies, one read of the intact file fails, and the report is neither in memory nor on disk. |
| LaneWitnesses.GivenUpFileForgetsDeadline | src/discord_state_lane.rs:72-82 | A run with an orderly clock that hands out two attempts at the same time, because the deadline went with the file. |
| LaneTheorems.RestartKeepsExactlyStable | src/discord_state_lane.rs:648-668 | A restart that can read the file brings back all queued ids if every title is stable under the sanitizer, and otherwise none at all, no deadline, and a disabled lane. |
| LaneTheorems.AttemptsAreApart | src/discord_state_lane.rs:154-245 | In every run whose clock samples do not run back and whose file is not given up, any two attempts handed out by reserve or resume start at least 900 s apart, across crashes, failing writes and restores. |
| LaneTheorems.FailuresBackOff | src/discord_state_lane.rs:272-308 | In such a run, after the k-th retryable failure since the last acknowledgement every later attempt waits min(900 * 2^(k-1), 86400) s from the response and the server's Retry-After. |
| LaneTheorems.BackoffClosedForm | src/discord_state_clock.rs:7-13 | k doublings from 900 with the cap are min(900 * 2^(k-1), 86400). |
| LaneTheorems.ReservationIsPrefix | src/discord_state_lane.rs:130-151 | In every state reached by a run whose restores put in place queues with distinct ids within the bound, queue ids are distinct, both queues within 128 and 16, and a live reservation captured a prefix of the queue. |
| LaneTheorems.RestoreKeepsTidyExactly | src/discord_state_lane.rs:375-397 | That condition on a restore is exact: from a lane with these properties it leaves one with them if and only if it holds. |
| LaneTheorems.RestoreOfRepeatsIsUntidy | src/discord_state_lane.rs:375-397 | The canonical bytes of a queue that lists one report twice are restored, and its id is then queued twice. |
| LaneTheorems.AcknowledgeIsExact | src/discord_state_lane.rs:248-270 | In every state of such a run a matching acknowledgement leaves precisely the later arrivals, in order, and the blocked reports. |
| LaneTheorems.RenderedViewIsCaptured | src/discord_state_lane.rs:154-208 | In a run with such restores, a view of a generation below the last one that is accepted when it comes back rendered shows exactly the reports the reservation captures if and only if no refused enqueue in between left reports in the queue. |
| LaneWitnesses.RefusedEnqueueWidensReservation | src/discord_state_lane.rs:130-150 | A run: with 127 reports queued a batch of 18 is refused for capacity, its first report stays queued under the same generation, and the reservation of the view rendered before captures it. |
| LaneTheorems.RunFromIsSameOrNewer | src/discord_state_lane.rs:433-440 | Without a crash generations only grow, and while one lasts the queue only grows, and changes exactly when a refused enqueue leaves reports. |
| LaneTheorems.NothingPassesFence | src/discord_state_lane.rs:399-424 | After a fence no number of later operations, but reset, restore and a restart, changes memory or disk. |
| LaneTheorems.RestoreReplacesQueueAlone | src/discord_state_lane.rs:375-397 | A restore that succeeds replaces the queue by constructed reports with stable titles, drops the reservation and leaves blocked reports, deadlines, backoff and the disabled flag alone. |
| LaneSteps.RunKeeps | src/discord_state_lane.rs:119-416 | Every state a run reaches, in memory and on disk, satisfies the outbox invariant, each part of it as long as nothing happened that the flags of the history name for it. |
| LaneSteps.StepKeeps | src/discord_state_lane.rs:119-416 | Each single operation, crash and restart keeps that invariant whatever the disk and the clock do. |
| LaneEffects.InspectExactly | src/discord_state_lane.rs:89-117 | A view is handed out exactly on an open, enabled lane with a synchronized clock that knows its boot, reports, no reservation, and a deadline that has come; else the answer names what is missing. |
| LaneEffects.ReserveExactly | src/discord_state_lane.rs:154-209 | When a view is reserved, what is answered otherwise, and the whole new state: id, payload, captured ids, start, and the next attempt at exactly now + 900 s. |
| LaneEffects.ResumeExactly | src/discord_state_lane.rs:211-246 | When a reservation is handed out again and the whole new state, the overflow included. |
| LaneEffects.AcknowledgeExactly | src/discord_state_lane.rs:248-270 | An acknowledgement is taken exactly for the id and payload hash of the live reservation, and drops it, the captured reports and the backoff. |
| LaneEffects.FailureExactly | src/discord_state_lane.rs:272-308 | A permanent response, a disabled fault and a corrupt fault disable the lane and move neither backoff nor deadline; every other cause keeps it enabled and sets backoff b to 900 from 0, else min(2 * previous, 86400), and the next attempt to exactly max(now + 900 s, now + b s, now + Retry-After); an overflow releases the reservation alone. |
| LaneEffects.HandedOutPairIsTaken | src/discord_state_lane.rs:189-270 | After a reservation an acknowledgement acts if it names the id and hash that were handed out, and is refused for any other pair. |
| LaneEffects.ResumedPairIsTaken | src/discord_state_lane.rs:211-270 | The same after a resumption, for its id and the hash of its payload. |
| LaneEffects.ReservationIdIdentifies | src/discord_state_lane.rs:178-186 | Two reservations have one id only for one generation and payload, unless the hash collides. |
| LaneEffects.PushOneExactly | src/discord_state_lane.rs:134-148 | What enqueueing one report does: error without id, skipped if queued, one of 128 places, one of 16 blocked, or an error. |
| LaneEffects.PushAllConcat | src/discord_state_lane.rs:134-148 | A batch is its reports one after another, up to the first error. |
| LaneEffects.EnqueueExactly | src/discord_state_lane.rs:119-152 | What was pushed before an error stays in memory unsaved; a batch without error is saved; an empty one changes nothing. |
| LaneEffects.PromoteExactly | src/discord_state_lane.rs:318-330 | The oldest blocked reports are taken while the queue has fewer than 128; those whose id is listed are dropped, the others appended in order and counted. |
| LaneEffects.RetryExactly | src/discord_state_lane.rs:310-346 | A promotion is saved exactly when it moved something. |
| LaneEffects.ResetExactly | src/discord_state_lane.rs:348-358 | A reset enables the lane exactly when it names the hash of the state file's bytes, fenced or not. |
| LaneEffects.RestoreExactly | src/discord_state_lane.rs:375-397 | A restore goes through exactly when it names hash and generation and the snapshot is a state, and the whole new state. |
| LaneEffects.SnapshotGivesItsQueue | src/discord_state_lane.rs:375-397 | The bytes of any writable state restore its own queue, generation methods apart, exactly when its titles are stable. |
| LaneEffects.FenceExactly | src/discord_state_lane.rs:399-415 | A fence closes the lane in memory alone and counts itself. |
| LaneEffects.OpenExactly | src/discord_state_lane.rs:64-86 | What every open leaves in memory and on disk, for every look, quarantine and disk outcome. |
| LaneEffects.GenerationOfText | src/discord_state_lane.rs:648-655 | A text with a generation keeps it whatever else is wrong with it; any other has generation 0. |
| LaneEffects.CommitSaves | src/discord_state_lane.rs:433-526 | A save counts the generation up, makes the file the new bytes if the write got to the rename, and receipts exactly those bytes; at the last generation it is refused. |
| LaneEffects.DisabledUntilReset | src/discord_state_lane.rs:89-117 | Once disabled, a lane hands out no view over any steps until a reset or a restart. |
| LaneQueues.PushAllAppends | src/discord_state_lane.rs:130-150 | The enqueue loop only appends, never an id `reports` has nor to a full queue, and without an error queues every id of the batch. |
| LaneQueues.PushAllFills | src/discord_state_lane.rs:130-150 | A batch of new ids fills the queue, then the blocked queue, and is refused exactly when both are full, with what fits left in place. |
| LaneQueues.PromoteAllMoves | src/discord_state_lane.rs:310-346 | Promotion of blocked reports only appends to the queue and loses no id. |
| LaneQueues.UncapturedPrefix | src/discord_state_lane.rs:262-269 | Dropping captured ids from a queue with distinct ids removes exactly that prefix. |
| LaneState.StateLane.OpenFile | src/discord_state_lane.rs:51-87 | Opening a lane loads the file; starts afresh without one or when it cannot be looked up; and starts empty and disabled, writing that state, when it cannot be read or does not load, whether or not moving it away works. |
| LaneState.StateLane.PersistState | src/discord_state_lane.rs:504-526 | A persist leaves the old or the new bytes in the file, and reports an error also when only the directory sync failed. |
| LaneState.StateLane.CommitState | src/discord_state_lane.rs:433-440 | A commit advances the generation and then persists; a failing persist does not undo the memory. |
| LaneState.StateLane.EnqueueReports | src/discord_state_lane.rs:119-152 | The loop in place does what the specification of enqueue says, including what a refusal leaves behind. |
| LaneState.StateLane.InspectWhenDue | src/discord_state_lane.rs:89-117 | Nothing unless idle, due and enabled; else the view of the queue with its generation. |
| LaneState.StateLane.ReserveRendered | src/discord_state_lane.rs:154-209 | A reservation for a rendered view captures all queued ids and sets the next deadline a window ahead. |
| LaneState.StateLane.ResumeReservation | src/discord_state_lane.rs:211-246 | Resuming a live reservation whose deadline has passed restarts its attempt and moves the deadline. |
| LaneState.StateLane.AcknowledgeDelivery | src/discord_state_lane.rs:248-270 | An acknowledgement that matches id and payload hash removes the captured reports and the backoff. |
| LaneState.StateLane.RecordAttemptFailure | src/discord_state_lane.rs:272-308 | A permanent failure disables the lane; another doubles the backoff and sets the deadline; a sum that overflows leaves only the reservation released. |
| LaneState.StateLane.RetryBlockedReports | src/discord_state_lane.rs:310-346 | The promotion loop in place moves blocked reports while there is room and commits if any moved. |
| LaneState.StateLane.ResetDeliveryState | src/discord_state_lane.rs:348-358 | Re-enabling the lane needs the expected state hash. |
| LaneState.StateLane.RestoreSnapshot | src/discord_state_lane.rs:375-397 | A restore replaces the queue alone and drops the reservation. |
| LaneState.StateLane.FenceLane | src/discord_state_lane.rs:399-415 | A fence stops later operations and counts itself. |
| StateCodec.WriteState | src/discord_state_lane.rs:454-502 | The hand-written output is the canonical JSON of the state. |
| StateCodec.StateMembers | src/discord_state_lane.rs:454-502 | What each member of the state file holds. |
| StateCodec.ReservationMembers | src/discord_state_lane.rs:480-500 | What each member of a stored reservation holds. |
| StateCodec.LoadWritten | src/discord_state_lane.rs:528-668 | Loading what was written recovers generation, queues up to generation methods, reservation, flags, deadlines and backoff exactly when all titles are stable. |
| StateCodec.ReadWrittenReservation | src/discord_state_lane.rs:568-634 | A written reservation reads back as itself. |
| StateReadings.StateExactly | src/discord_state_lane.rs:528-635 | Which documents are states, and what is read from one: schema, lists of reports, reservation, and what a missing member stands for. |
| StateReadings.ReservationExactly | src/discord_state_lane.rs:572-630 | Which objects are reservations, and what stands in for a missing start or deadline, saturating at 0 and at 64 bits. |
| DisplayText.Sanitize | src/discord_text.rs:19-86 | The two loops compute the sanitized title. |
| DisplayText.PlainShape | src/discord_text.rs:19-70 | The plain text holds only copied characters and single spaces and is no longer than the input. |
| TitleSafety.TitleIsSafe | src/discord_text.rs:19-86 | No title holds anything invisible, white space but inner spaces, or a character that starts a mention, a code span, a heading, a quotation or a link; every formatting mark is escaped. |
| TitleSafety.MiddleBecomes | src/discord_text.rs:19-70 | Between two letters an unseen character disappears, a letter stays, and anything else becomes one space. |
| TitleSafety.WhiteRunIsOneSpace | src/discord_text.rs:19-70 | However much white space stands together, it counts as one. |
| TitleSafety.TooLongExactly | src/discord_text.rs:19-30 | A title is refused exactly with more than 512 scalars in NFC. |
| DisplayNormal.StableExactlyWhen | src/discord_text.rs:19-86 | A sanitized title is a fixed point exactly when it is in NFC, short enough and its plain text is well spaced, given three laws of NFC. |
| DisplayNormal.DroppedJoinerIsNotStable | src/discord_text.rs:19-70 | Dropping a zero-width space joins a letter and its accent: the output is short and well spaced, but not in NFC and not stable. |
| DisplayText.NormalTitleIsStable | src/discord_text.rs:19-86 | For a title in NFC the rest of the condition is exact without any law of NFC. |
| DisplayText.UnderscoreIsNotStable | src/discord_text.rs:76-84 | One underscore makes a title unstable. |
| DisplayText.TitleSize | src/discord_text.rs:19-86 | A title has at most 1024 scalars and takes at most 2048 bytes inside canonical JSON. |
| ReportTypes.ParseLanguage | src/discord_types.rs:75-86 | An accepted language is valid, and a valid one is kept as it is. |
| ReportTypes.BoundTargetsIsValid | src/discord_types.rs:274-293 | An accepted target list is a sorted permutation of the given one within its bound. |
| ReportTypes.SeverityLanguageUnique | src/discord_types.rs:281-289 | No (severity, language) pair repeats in an accepted list. |
| Orders.TargetsInOrder | src/discord_types.rs:274-293 | An accepted target list has failed and missing languages first, then warnings, then clean ones, each by language. |
| Orders.BoundTargetsExactly | src/discord_types.rs:274-293 | A list is accepted exactly with 1 to 32 targets and no equal neighbours after sorting; which error otherwise. |
| Orders.AggregateExactly | src/discord_types.rs:355-374 | When a report is complete, complete with a warning, partial, or failed. |
| ReportCodec.EncodeReport | src/discord_state_codec.rs:66-113 | The buffer-appending writer produces exactly the canonical bytes. |
| ReportCodec.TryNewIsIdentified | src/discord_types.rs:345-396 | A report `try_new` returns carries the commit id of its own canonical bytes. |
| Formats.CommitIdReads | src/discord_types.rs:303-310 | A commit id is a fixed beginning and 64 small hexadecimal digits, those of the hash of the tagged canonical bytes. |
| ReportCodec.EncodedIgnoresMethods | src/discord_state_codec.rs:66-113 | Generation methods and the commit id are not part of the canonical bytes. |
| Formats.MembersInOrder | src/discord_state_codec.rs:66-113 | The members of the stored report, target, state and reservation, in the order they are written. |
| Formats.WordsAre | src/discord_state_codec.rs:115-158 | The words for kinds, outcomes, item failures and dispositions. |
| ReportRoundTrip.ReportMembers | src/discord_state_codec.rs:66-113 | What each member of a stored report holds. |
| ReportRoundTrip.TargetMembers | src/discord_state_codec.rs:80-100 | What each member of a stored target holds. |
| ReportRoundTrip.DecodeEncoded | src/discord_state_codec.rs:160-294 | Decoding encoded bytes gives the report back, up to generation methods, exactly when its title is stable. |
| ReportRoundTrip.AcceptedIsCanonical | src/discord_state_codec.rs:160-294 | Whatever the decoder accepts is the canonical form of what it returns. |
| ReportRoundTrip.AcceptsExactly | src/discord_state_codec.rs:160-294 | The decoder accepts exactly the canonical bytes of constructed reports with stable titles. |
| ReportRoundTrip.EncodedInjective | src/discord_state_codec.rs:13-113 | Equal canonical bytes mean equal content: strings, numbers and lists end where they say (section 7 of RFC 8259). |
| ReportRoundTrip.CommitIdIdentifiesContent | src/discord_types.rs:303-310 | Equal commit ids mean equal content, unless the hash collides on the two encodings. |
| ReportSizes.ReportFitsLimit | src/discord_types.rs:345-396 | Every constructed report encodes within 16 KiB, so the size check never fires. |
| PassReports.BoundReports | src/discord_types.rs:438-468 | The bounding loop in place computes what is kept and how many are omitted. |
| PassReports.FromReportsKeepsFirst | src/discord_types.rs:438-468 | Exactly the first min(n, 128) reports in report order are kept, the rest counted; neither byte limit is met. |
| Orders.ReportLeExactly | src/discord_types.rs:481-498 | The report order: series before films, then item, season, episode, title and bytes, none before some; the first that differs decides. |
| Orders.KeptInOrder | src/discord_types.rs:438-468 | What is kept of a pass is in that order, and nothing left out comes before anything kept. |
| PassReports.PartitionIsTotal | src/discord_notifier.rs:34-45 | The split never fails, loses and duplicates nothing, and keeps the order. |
| PassReports.ReduceFailsOnlyOnTargets | src/pipeline_reports.rs:38-80 | Reducing outcomes fails exactly when the target list itself is refused, and keeps every target. |
| Json.RoundTrip | src/discord_state_codec.rs:13-64 | Parsing printed JSON gives the value back, for the canonical writer and for serde's. |
| JsonWriter.EncodeString | src/discord_state_codec.rs:13-33 | The escaping loop writes the canonical JSON string. |
| Formats.CanonicalEscapes | src/discord_state_codec.rs:13-33 | What the hand-written writer makes of every character. |
| Formats.SerdeEscapes | src/pipeline_commit.rs:95-99 | What the library's writer makes of every character. |
| JsonExtension.TwoDocumentsDoNotParse | src/pipeline_commit.rs:330-336 | A document directly followed by an object is no document. |
| Utf8.RoundTrip | src/discord_state_codec.rs:160-170 | UTF-8 decoding inverts encoding (RFC 3629). |
| Utf8.DecodedIsEncoded | src/discord_state_codec.rs:160-170 | Only what encoding makes is decoded: over-long forms, surrogates and stray bytes are refused. |
| Decimal.HexRoundTrip | src/discord_state_lane.rs:637-646 | Hexadecimal decoding inverts encoding. |
| LedgerText.RowsAfterAppend | src/pipeline_commit.rs:319-358 | A row appended to a readable ledger is read back exactly when the file ended in a newline; otherwise the ledger is unreadable from then on. |
| LedgerText.RowsAfterTornAppend | src/pipeline_commit.rs:325-338 | A row torn off just before its newline still reads as a row, and leaves the file without newline. |
| LedgerCommit.LedgerStore.FindRow | src/pipeline_commit.rs:325-344 | The reading loop finds the last row of an identity or the first unreadable line's error. |
| LedgerCommit.LedgerStore.AppendRow | src/pipeline_commit.rs:319-358 | Append if absent, under every write fault. |
| LedgerCommit.LedgerStore.RestoreLedger | src/pipeline_commit.rs:266-288 | A restore gives back the snapshot, or reports that it could not. |
| LedgerCommit.LedgerStore.Commit | src/pipeline_commit.rs:105-148 | The two appends, and both rollbacks after any error, in place. |
| LedgerTheorems.FailureChangesNothing | src/pipeline_commit.rs:124-138 | Any error whose restores work leaves both files byte-identical, torn appends included. |
| LedgerTheorems.SuccessLeavesRows | src/pipeline_commit.rs:105-148 | After success each ledger has a readable row equal to the given one up to `ts`, exactly when it had one or its file ended in a newline. |
| LedgerOutcomes.RepeatExactly | src/pipeline_commit.rs:307-358 | Repeating a commit whose rows have the same members but for `ts` succeeds and writes nothing, and with any other difference in either row is a contradiction, if each ledger had the row before or ended in a newline. |
| LedgerOutcomes.CommitSucceedsExactly | src/pipeline_commit.rs:105-148 | A commit succeeds exactly when both rows are of the identity, locks and snapshots work, and each ledger holds its row but for `ts`, or has none of the identity and takes the write; and what it then has written. |
| LedgerOutcomes.CommitError | src/pipeline_commit.rs:105-148 | Which error a failing commit answers: bad input, contradiction, or input and output. |
| LedgerOutcomes.FailedRestoreIsTold | src/pipeline_commit.rs:124-138 | A restore that fails after a failed append turns the error into an input or output error. |
| LedgerOutcomes.AppendExactly | src/pipeline_commit.rs:319-358 | When one append goes through, what the file then is, and the error otherwise. |
| LedgerOutcomes.IdentityExactly | src/pipeline_commit.rs:359-386 | What a row has to say to be of an identity: number, kind, language and digest, under either name. |
| LedgerOutcomes.LastMatchExactly | src/pipeline_commit.rs:325-344 | The row found is the last one of the identity. |
| LedgerOutcomes.SameRowExactly | src/pipeline_commit.rs:307-317 | Two rows count as the same exactly when every member but `ts` is. |
| LedgerTheorems.ApplyPairing | src/state.rs:129-147 | From paired ledgers one call keeps them paired exactly when it is not an error row cut inside its line. |
| LedgerTheorems.RunKeepsPaired | src/pipeline_commit.rs:105-148 | Over any run with any write faults and working restores in commits, interleaved with error rows none of which is cut inside its line, both ledgers list the same identities, each once. |
| LedgerTheorems.RunFromNothingIsPaired | src/pipeline_commit.rs:105-148 | In particular after any such run from no ledgers at all. |
| LedgerTheorems.TornErrorRowSwallowsTarget | src/state.rs:129-147 | After an error row cut before its newline, a commit reports success while the state ledger becomes unreadable. |
| LedgerConcurrency.BodyIsCommitPair | src/pipeline_commit.rs:105-148 | The small steps of one caller, run to their end, are the paired commit. |
| LedgerConcurrency.IterateProgress | src/pipeline_commit.rs:105-148 | Every small step of a body moves it towards its end. |
| LedgerSchedule.NoDeadlock | src/pipeline_commit.rs:112-122 | While any caller is unfinished, some caller can step: locks are taken in one order. |
| LedgerSchedule.StepKeeps | src/pipeline_commit.rs:112-138 | Each step of any caller keeps locks exclusive and the files those of a serial order. |
| LedgerSchedule.EverybodyCanFinish | src/pipeline_commit.rs:112-122 | However far a schedule has got, it can be continued until every caller is finished. |
| LedgerSchedule.StepProgresses | src/pipeline_commit.rs:112-138 | Every step that can be taken reduces the total work left, so no schedule runs for ever. |
| LedgerSchedule.ActsAsSerial | src/pipeline_commit.rs:112-138 | For any number of interleaved commits, appends and rewrites there is one serial order of the locked bodies with the same files and the same result for each caller. |
| Admission.LoadedAreRows | src/state.rs:109-125 | On a ledger every line of which is a row, the lenient reader sees what the strict one sees. |
| Admission.VerifiedExactly | src/pipeline_targets.rs:62-112 | A key is verified exactly when some registry row admits it, and then as its last such row says. |
| Admission.VerifiedMeansAgreement | src/pipeline_targets.rs:62-112 | A key is verified exactly when a registry row, a done row and the bytes on disk agree on it. |
| Admission.DroppedExactlyWhenVerified | src/pipeline.rs:356-412 | `discover` drops a wanted language exactly when it is verified; the look at done rows decides nothing but for the name of no language, which needs a done row that spells it out. |
| Admission.NamelessStaysMissing | src/pipeline.rs:376-412 | Rows without a language verify the target of no language, and it stays missing all the same. |
| Admission.BadLineIsSkipped | src/state.rs:108-125 | A line that is no row is skipped wherever it stands, and the rows before and behind it are kept. |
| Admission.NoTextNoRows | src/state.rs:112-114 | A file that is not text, or is not there, has no rows. |
| Admission.ReadRegistryExactly | src/state.rs:32-53 | Which registry rows are read, and what their language, episode, path and kind are. |
| Admission.ReadStateExactly | src/state.rs:13-27 | The same for state rows. |
| TargetLedgerRows.RowsCarryIdentity | src/episode_commit.rs:213-287 | Both rows of a target carry its identity, given an idempotent normalizer. |
| TargetLedgerRows.RegistryReads | src/episode_commit.rs:213-287 | The typed reader takes a row equal to ours up to `ts` exactly when its `ts` is missing, null or a string. |
| TargetLedgerRows.StateReads | src/episode_commit.rs:213-287 | The same for the state row, which reads as done. |
| TargetLedgerRows.RowsSayTheRest | src/episode_commit.rs:213-287 | The members no reader looks at: media path, source language and stream, detail and time. |
| TargetPublish.TargetPublisher.InstallSidecar | src/episode_commit.rs:111-135 | Write a temporary file and rename it, under every fault, remembering what was there. |
| TargetPublish.TargetPublisher.RollbackIfUnchanged | src/episode_commit.rs:148-187 | Give back or remove only while the target still holds this install, also when somebody meddles between the looks. |
| TargetPublish.TargetPublisher.CleanupFailedInstall | src/episode_commit.rs:289-301 | Undo an install unless rows already verify its digest. |
| TargetPublish.TargetPublisher.FinishLang | src/episode_target.rs:204-308 | Install, upload, look again, make the rows, commit, and clean up on failure, in this order. |
| PublishOutcomes.FinishSucceedsExactly | src/episode_target.rs:204-308 | Finishing succeeds exactly when install and look work, the target still holds bytes of the digest after the upload, rows can be made, their commit succeeds, and the language is a tag; and which error ends it otherwise. |
| PublishOutcomes.UndisturbedFinishIsTrusted | src/episode_target.rs:204-308 | With no fault, no interference and no contradicting row, a language is finished, its file is in place, and the next pass takes it as delivered. |
| PublishOutcomes.FinishInstalls | src/episode_commit.rs:111-135 | Undisturbed, the target gets the new bytes and no other file changes but a left-over temporary one. |
| PublishOutcomes.RollbackExactly | src/episode_commit.rs:148-187 | Undoing never touches foreign bytes, gives back what was there or removes what was not, and leaves every other path alone. |
| PublishOutcomes.CleanupExactly | src/episode_commit.rs:289-301 | An install that rows verify stays; any other is undone; the ledgers are never touched. |
| PublishOutcomes.LanguageExactly | src/discord_types.rs:75-86 | A tag is a language exactly with 1 to 32 ASCII letters and digits, and its capitals are made small. |
| PublishTheorems.FinishAdmits | src/episode_target.rs:204-308 | Once committed to ledgers that each had the row, with a `ts` the typed readers take, or ended in a newline, the key is verified for as long as the target holds bytes of the committed digest; a new row is the one that is verified. |
| AdmissionRuns.FinishStaysAdmitted | src/episode_target.rs:204-308 | If both ledgers were readable and ended in a newline before the call, and an older row of the identity has a `ts` the typed readers take, it stays verified over any later run of commits, with any write faults and working restores, and of error rows that are not cut. |
| AdmissionRuns.AdmissionLasts | src/pipeline_targets.rs:62-112 | From ledgers that are readable and end in a newline, so does every verified key while its file keeps its digest; whatever path then wins holds the digest it is listed with. |
| RegistryDelete.DeleteRemovesExactly | src/state.rs:219-259 | A delete nobody interferes with leaves exactly the rows it did not ask for, as every typed reader sees them, and reports whether one went. |
| RegistryDelete.DeletesExactly | src/state.rs:229-246 | A row goes exactly if it is readable, its language has the normal form of the one named, and it has the stem or the episode named. |
| RegistryDelete.KeptExactly | src/state.rs:229-250 | Wherever a row stands, it is written back exactly if it can be read and is not asked for; the others keep their order. |
| RegistryDelete.DeleteLosesCommit | src/state.rs:219-259 | A commit between the load and the rewrite succeeds, and afterwards the state ledger has its row and the registry does not. |
| RegistryDelete.LateRewriteIsSerialExactly | src/state.rs:219-259 | With any rows appended in between, the late rewrite does what a delete under the lock would have done exactly when that would have removed, or skipped, all of them too. |
| PublishTheorems.FailureRestores | src/episode_target.rs:225-297 | With working rollbacks and no interference, a failure before the commit leaves both ledgers as they were, and the target too, unless the install worked and the look at it failed or rows already verified the new file. |
| PublishTheorems.ReplacementSurvives | src/episode_commit.rs:137-187 | A replacement made by somebody else during the upload is never overwritten, removed or committed. |
| DigestRows.TruncateTitle | src/discord_renderer.rs:99-111 | A cut title has exactly the capacity and ends in the marker. |
| DigestRows.MakeRowExactly | src/discord_renderer.rs:162-233 | A report has a row exactly when its title fits whole or the rest takes at most 158 scalars; rows have at most 160; the inner length and emptiness errors are dead. |
| DigestRows.RowSeverity | src/discord_renderer.rs:179-232 | A row's severity is the report's, except that a cut title beside more than six targets counts as a failure. |
| DigestRows.ShownAreWorst | src/discord_renderer.rs:117-160 | The row names the first six targets, none it leaves out is more severe, and it says how many it leaves out. |
| Digest.PopRow | src/discord_renderer.rs:356-362 | One pop removes the last row in the order attention before completed. |
| Digest.FitRows | src/discord_renderer.rs:349-363 | The first loop keeps the most rows that fit the eight lines with their markers. |
| Digest.FitText | src/discord_renderer.rs:375-393 | The second loop goes on, from there down, to the most rows whose text fits. |
| Digest.LineCount | src/discord_renderer.rs:293-320 | Lines are summaries, kept rows and a marker per class with something left out. |
| Digest.WritePayload | src/discord_renderer.rs:402-411 | The payload bytes are the canonical JSON of the digest, with an empty list of allowed mentions. |
| Digest.Render | src/discord_renderer.rs:322-413 | The whole of `render`, loops and early errors included, computes its specification. |
| DigestTheorems.RenderExactly | src/discord_renderer.rs:322-413 | A digest exists exactly when every report has a row and there is a report or a counter; `CannotFit` for lack of either is the only error. |
| DigestTheorems.PackedExactly | src/discord_renderer.rs:340-393 | The loops keep the largest number of rows for which both limits hold; their error exits are dead. |
| DigestTheorems.DigestShows | src/discord_renderer.rs:328-413 | Shown are a prefix of the rows in severity order, attention before completed, each class with the exact count left out, within 8 lines, 900 scalars and 65,536 bytes. |
| DigestReadings.RowsInOrder | src/discord_renderer.rs:328-328 | Rows stand by severity, worst first, and within one by their text, scalar by scalar. |
| DigestReadings.NothingWorseIsLeftOut | src/discord_renderer.rs:328-413 | The rows shown are the first n in that order, as lines, within 8 lines and 900 scalars; none left out is more severe; one more would break a limit. |
| DigestReadings.RowSeverityExactly | src/discord_renderer.rs:162-233 | A row is a failure for an item failure, a failed or missing language, or more than six targets beside a cut title; a warning if only a target warns; else clean. |
| DigestReadings.OutcomeExactly | src/discord_renderer.rs:277-291 | Name, picture and colour of the digest from the outcomes of all its reports and its counters. |
| DigestReadings.TokensTellOutcomes | src/discord_renderer.rs:39-66 | Different outcomes have different tokens, whose first letters say how bad they are. |
| DigestReadings.RowReads | src/discord_renderer.rs:83-113 | How every row reads: kind, title, number, item failure and named targets. |
| DigestReadings.EntryReads | src/discord_renderer.rs:122-137 | How the entry of a target reads. |
| DigestReadings.JoinExactly | src/discord_renderer.rs:112-113 | Parts are joined with the separator in front of every one but the first. |
| DigestReadings.EpisodeRowReads | src/discord_renderer.rs:83-113 | The row of an episode with one finished target, letter by letter. |
| DigestReadings.FilmRowReads | src/discord_renderer.rs:73-160 | The row of a film with an item failure and a target that warns and says how it was made, letter by letter. |
| DigestReadings.NumbersRead | src/discord_renderer.rs:83-97 | Season and episode have at least two digits, and none is a question mark. |
| DigestReadings.MethodReads | src/discord_renderer.rs:126-136 | The dot and the arrow of a method become plain characters. |
| DigestReadings.SummaryReads | src/discord_renderer.rs:235-275 | The summary lines and markers, letter by letter, one for each counter that is not zero. |
| DigestReadings.PayloadReads | src/discord_renderer.rs:402-411 | Read back, a payload has exactly its four members: name, picture, one embed with text and colour, and an empty list of allowed mentions. |
| DigestTheorems.FewerRowsFewerLines | src/discord_renderer.rs:375-393 | A pop never adds a line, although it can add a marker. |
| DigestTheorems.SplitIsWhole | src/discord_renderer.rs:328-339 | Splitting off attention rows keeps the severity order. |
| DigestTheorems.PayloadBound | src/discord_renderer.rs:402-412 | The payload limit is never met. |
| DigestTheorems.OutcomeCountsEveryReport | src/discord_renderer.rs:277-291 | Colour and name come from all reports, shown or not. |
| Notifier.HandlePass | src/discord_notifier.rs:66-105 | One round of the worker sends the payloads of the pass's views in order. |
| Notifier.PassIsSplit | src/discord_notifier.rs:34-105 | At most two digests, attention first; each report in exactly one; a report without row costs only the digest of its class. |
| Notifier.ViewsExactly | src/discord_notifier.rs:82-103 | The two views, member by member: only the attention view counts the omitted reports. |
| Notifier.RawPassIsSplit | src/discord_notifier.rs:34-105 | From the raw reports of a pass to its digests: the first 128 in report order are split over the two views, the rest counted in the attention view, and shown and counted add up to all of them. |
| Notifier.AttentionNeverLooksComplete | src/discord_notifier.rs:82-93 | The attention digest never carries the colour of a complete one. |
| Notifier.CompletedLooksComplete | src/discord_notifier.rs:94-103 | The completed digest looks complete exactly when none of its reports has a cut title beside more than six targets. |
| CrampedReport.LongTitleNeedsAttention | src/discord_renderer.rs:179-232 | A complete report of seven clean languages with a title of n letters has a digest, shown as complete up to 78 letters and as needing attention from 79 on. |
| CivilDate.YearOfEraBounds | src/state.rs:284-287 | The year-of-era formula finds the year whose days contain the day of the era. |
| CivilDate.CivilIsExact | src/state.rs:280-294 | The converted date is a Gregorian date whose day number, counted year by year and month by month, is the one converted. |
| CivilDate.UnixToYmdHmsIsExact | src/state.rs:280-295 | The six fields are valid and name their second (section 5.7 of RFC 3339) exactly before the year 2147483648. |
| CivilDate.EveryTimeIsReached | src/state.rs:280-295 | Every valid time of a 32-bit year from 1970 is the conversion of the second it names. |
| CivilDate.LaterIsLater | src/state.rs:280-295 | Later seconds give lexicographically later tuples. |
| RunMask.MaskTailRuns | src/config.rs:660-745 | The loop over segments computes the masked tail. |
| RunMask.MaskCovers | src/config.rs:660-733 | A segment with evidence past the floor is masked from a boundary; the masked part holds a literal colon if the part past the floor does; no token that hides a colon is left in front of it. |
| RunMask.MaskedExactly | src/config.rs:684-710 | A segment is masked exactly when a run from a boundary to its end, or one token, gives evidence. |
| CleanText.MaskStartsExactly | src/config.rs:684-733 | Where the mask of a segment starts: at the leftmost token that hides a colon, else at the last start whose run gives evidence, moved left to the nearest start from which a literal colon follows if it has none. |
| CleanText.StartsExactly | src/config.rs:684-700 | A run may start at the floor and behind every slash, question mark and hash. |
| CleanText.SegmentBecomes | src/config.rs:725-735 | The text from there on becomes `***:***`; the rest stays. |
| RunMask.MaskTailStable | src/config.rs:660-745 | Without a separator in front of the floor, masking a masked tail changes nothing; every `@` and the text after the last one are kept. |
| CleanText.MaskBeforeFloorIsNotStable | src/config.rs:660-745 | With a separator in front of the floor a second pass can change a masked tail: `/x:y@` with floor 4. |
| RunMask.FloorKept | src/config.rs:674-690 | Text in front of the floor without separator and `@` stays verbatim. |
| RunMask.FloorPastExactly | src/config.rs:720-742 | Behind an `@` a position is past the floor exactly when it was before. |
| CleanText.RunsAreClean | src/config.rs:660-745 | In masked text every segment in front of an `@` carries no evidence, or ends in the mask from a boundary on with no hidden colon left of it; nothing is masked exactly when every segment was without evidence. |
| RedactionShapes.OnlyMaskIsLogged | src/config.rs:829-970 | What is logged of a value with an `@`, unless it is exempt: userinfo masked or without evidence, a host slot that is neither a plain name nor a bracketed address masked if it has evidence, a readable one shown, and every run in front of a further `@` masked or without evidence. |
| RedactionShapes.CredentialInHostIsMasked | src/config.rs:849-912 | If a percent sign, an ampersand or a full-width or small colon stands in front of the first colon of the slot and it carries evidence without its colons, or it is bracketed, has a colon and is no address, then `***:***` follows the `@`. |
| RedactionShapes.HostIsShown | src/config.rs:606-635 | A plain name or a bracketed address, with or without a numeric port, stays readable. |
| RedactionShapes.LiteralColonIsShown | src/config.rs:860-870 | A slot with nothing but literal colons is no credential, whatever its port. |
| RedactionShapes.WithoutExactly | src/config.rs:870-872 | Dropping the colons drops nothing else. |
| RedactionShapes.CutExactly | src/config.rs:829-850 | Where a value is cut: behind a scheme word and at the last `@` of the authority, or of all if that has none. |
| RedactionShapes.HostEndsExactly | src/config.rs:407-432 | The slot ends at the first slash, question mark, or hash outside an entity. |
| RedactionShapes.FrontExactly | src/config.rs:908-969 | What stands in front of the `@` of a masked value. |
| RedactionShapes.ExemptExactly | src/config.rs:936-946 | Which values with evidence in their userinfo are kept: the eight scheme words, in front of a host without colon and credential. |
| RedactionTheorems.LeftAloneExactly | src/config.rs:829-970 | The exact list of values left alone: no `@`; a listed opaque scheme; an `@` in the path with no evidence in front of it; or no evidence in userinfo, host slot and every later run. |
| RedactTwice.TwiceIsOnceExactly | src/config.rs:829-970 | Logging what was logged changes nothing exactly when the value is left alone, has no further `@` behind the chosen one, or has a host slot that is not hidden and a first mask that starts past the separator ending it; for all rules in which a colon is evidence, bare stars and nothing are not, and trimming is trimming. |
| RedactTwice.TwiceIsNotOnce | src/config.rs:829-970 | `@:/@` is such a value: its mask swallows the separator, and what is logged of it is masked further. |
| RedactionTheorems.HostHasNoAt | src/config.rs:838-856 | The host slot behind the chosen `@` never holds another one, entities across the cut included. |
| RedactionTheorems.RedactedShowsHost | src/config.rs:606-635 | A `#`-free `host[:port]` accepted by `is_host_port` stays verbatim behind the `@`. |
| Lang.StripTrailingQualifier | src/lang.rs:535-551 | What is left is a beginning of the trimmed text, ends in no bracket group and no white space, and what was removed is nothing but groups and white space. |
| LangReadings.GroupExactly | src/lang.rs:539-545 | What counts as a closing group: the last place a bracket of the kind that ends the text opens. |
| Lang.NormalShape | src/lang.rs:620-672 | Every normal form is plain, and every table that knows it maps it to itself. |
| Lang.NormalizationIsIdempotent | src/lang.rs:620-672 | Both normalizers are fixed on their own results, for every text and all tables meeting `TablesOk`. |
| LangReadings.NormalExactly | src/lang.rs:620-630 | How a tag is normalized: an alias of its letters and digits decides; else the language its head names; else the letters and digits. |
| LangReadings.ReportedExactly | src/lang.rs:645-672 | How a reported language is read: any table first, in their order, then its head. |
| LangTables.TablesAreOk | src/lang.rs:29-523 | The program's four tables meet `TablesOk`. |
| LangTables.ProgramNormalizesIdempotently | src/lang.rs:620-672 | So with them both normalizers are idempotent over all texts. |
| SidecarPaths.CanonicalCode | src/lang.rs:876-885 | The bounded loop reaches the code that stands for itself whenever any number of alias steps does, and always with good tables. |
| SidecarPaths.BoundIsEnough | src/lang.rs:876-885 | As many steps as there are alias rows are enough: a longer chain would come back to a code it passed. |
| SidecarPaths.CanonicalIsNormal | src/lang.rs:876-885 | For a table spelling that code is its normal form. |
| SidecarPaths.ReplaceableTargetSidecarPaths | src/lang.rs:913-935 | The pushing loops compute the list. |
| SidecarPaths.ReplaceableExactly | src/lang.rs:842-935 | The list starts with the canonical path, repeats nothing, and holds exactly the two files of every spelling of the language; tags with the same normal form share it. |
| SourceChoice.PickedIsMinimum | src/asr.rs:203-252 | The staged search returns the earliest stream of the lowest class (target, original, ja, untagged or en, other, commentary). |
| SourceChoice.ChoiceIsUnique | src/asr.rs:203-252 | There is only one such stream. |
| SourceChoice.ChoiceExactly | src/asr.rs:253-266 | No translation exactly from the target's own track; commentary only if every stream is; a track naming the target is never translated. |

## Left out

- SHA-256, NFC, the Unicode classes, lower-casing and IPv6 parsing: function parameters; only the facts named in a `requires` are used.
- JSON beyond what the program writes: fractions, exponents, `-0` and the nesting limit are refused or absent; order of members of a ledger row is one fixed order.
- `Admission.LoadRows`: trims only white space that JSON itself allows around a row, and a row that repeats a declared member is read by its last value instead of being skipped.
- Locks, directories, permissions, symbolic links and inode aliases: opening may fail as one fault, and the two ledger paths are taken to be two files.
- How the quarantine name is chosen, and partial reads: a read of the state file gives all its bytes or fails.
- Errors while reading a ledger other than unreadable text: not distinguished from a failing snapshot.
- `commit_one` (the commit of an error marker to one ledger), the witness hash of a commit and `consume_actions`: not modelled. A delete is not one of the calls of a `LedgerTheorems` run: it takes the registry row and leaves the state row.
- `LaneTheorems.NothingIsLost`: nothing is claimed after an open gave up the file or a restore replaced the queue; `LostExactlyWhenGivenUp` says the first is exact.
- `LaneTheorems.AttemptsAreApart`: nothing is claimed once a clock sample ran back or the file was given up; `LaneWitnesses.GivenUpFileForgetsDeadline` shows the second is needed.
- `LaneTheorems.RenderedViewIsCaptured`: excludes the last generation number of 64 bits, after which the program refuses commits.
- `LedgerTheorems.RunKeepsPaired`: requires that no error row is cut inside its line; `ApplyPairing` says that this condition is exact for one call.
- `LedgerSchedule.ActsAsSerial`: callers name the two ledgers by one fixed spelling of their paths; opening the lock files outside the locks is not a step.
- `PublishTheorems.FailureRestores`: assumes working rollbacks and no interference; with interference only `ReplacementSurvives` is claimed.
- `RunMask.MaskTailStable`: requires no separator in front of the floor, which holds for the host slots the program passes without `#`; `CleanText.RunsAreClean` and `RedactTwice.TwiceIsOnceExactly` do not.
- `RedactionTheorems.OnlyMaskIsShown`: speaks of the run directly in front of each `@`; a run further left, ended by a separator, stays as the source means it to.
- `PublishTheorems.FinishAdmits`: requires that an older row of the identity, if any, has a `ts` the typed readers take.
- Details of `carries_credential_colon`: an abstract test that is true of a literal colon and false of nothing (and, where a redaction is repeated, of bare stars); percent and entity decoding are not modelled.
- Byte offsets: text is a sequence of scalars, so a floor is counted in scalars.
- `SourceChoice`: `is_commentary` and `identity_accepts` are parameters; `wire_lang` and `check_pinned_lang` are not modelled.
- The queue between pass and notifier, transport results, timeouts and retries: only which payloads are handed over, and in what order.
- The display text of a generation method is a given string; how model names are joined into it is not modelled.
- HTTP clients, ffmpeg and ffprobe children, translation, subtitle timing, providers, deployment and the web interface.
