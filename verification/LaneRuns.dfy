/** Whole runs of the outbox, with crashes and disk failures anywhere. */
module LaneRuns {
  import opened Wrappers
  import opened DisplayText
  import opened ReportTypes
  import opened StateSchema
  import opened ReportCodec
  import opened StateCodec
  import opened LaneSpec
  import opened LaneQueues

  /* ---- History ---- */

  /** What a run has promised: attempts handed out, failures recorded, acknowledgements taken. */
  datatype Event =
    | Attempt(start: int)
    | FailedAt(at: int, retryAfter: nat)
    | Acked

  /**
    What has happened so far. `owed` are the ids accepted since the last acknowledgement of a
    reservation that captured them. The flags say what has not happened: no clock sample before an earlier one
    (`ordered`), no enqueued title that the sanitizer changes (`stable`), no open that gave up a
    file (`intact`), no restore (`unrestored`), none of a queue with repeated ids or too many
    reports (`tidy`).
   */
  datatype History = History(
    owed: set<string>,
    clock: nat,
    log: seq<Event>,
    ordered: bool,
    stable: bool,
    intact: bool,
    unrestored: bool,
    tidy: bool
  )

  const START: (Sys, History) := (Sys(None, None), History({}, 0, [], true, true, true, true, true))

  /** Retryable failures since the last acknowledgement. */
  function Failures(log: seq<Event>): nat {
    if log == [] then 0
    else
      var before := Failures(log[..|log| - 1]);
      match log[|log| - 1]
      case Attempt(_) => before
      case FailedAt(_, _) => before + 1
      case Acked => 0
  }

  /** 900 s doubled with every failure after the first, up to a day. */
  function Backoff(k: nat): nat {
    if k == 0 then 0 else if k == 1 then 900 else Min(2 * Backoff(k - 1), MAX_BACKOFF_SECONDS)
  }

  /** The earliest time of a next attempt that event `i` allows. */
  function Bound(log: seq<Event>, i: nat): int
    requires i < |log|
  {
    match log[i]
    case Attempt(start) => start + ATTEMPT_WINDOW_NS
    case FailedAt(at, retryAfter) => at + NS_PER_SECOND * Max(Backoff(Failures(log[..i + 1])), retryAfter)
    case Acked => 0
  }

  /** Every attempt waits for all the bounds of the events before it. */
  predicate Spaced(log: seq<Event>) {
    forall i, j :: 0 <= i < j < |log| && log[j].Attempt? ==> Bound(log, i) <= log[j].start
  }

  function ClockOf(op: Op): Option<ClockSample> {
    match op
    case OpEnqueue(_, now, _) => Some(now)
    case OpInspectDue(now) => Some(now)
    case OpReserve(now, _, _, _) => Some(now)
    case OpResume(now, _) => Some(now)
    case OpFail(_, _, now, _, _) => Some(now)
    case OpRetryBlocked(now, _) => Some(now)
    case _ => None
  }

  function Tick(h: History, op: Op): History {
    match ClockOf(op)
    case None => h
    case Some(now) => h.(clock := Max(h.clock, now.epochNs), ordered := h.ordered && h.clock <= now.epochNs)
  }

  /** An acknowledgement the lane acts on, whether or not the disk then takes it. */
  predicate Acknowledges(env: Env, s: Sys, op: Op) {
    op.OpAcknowledge? && s.lane.Some? && !s.lane.value.fenced && Matches(env, s.lane.value.data, op.id, op.payloadHash)
  }

  function IdSet(ids: seq<string>): set<string> {
    set id | id in ids
  }

  /** The open does not load the file it found, and no longer leaves it where it was. */
  predicate GivesUp(env: Env, s: Sys, op: Op) {
    && op.OpOpen? && s.lane.None? && s.disk.Some?
    && !(op.look.Readable? && LoadState(env, s.disk.value).Some?)
    && ((op.quarantined && !op.look.StatFails?) || !op.io.FailedBeforeRename?)
  }

  /** The queue a restore would put in place. */
  function RestoredQueue(env: Env, op: Op): Option<seq<Report>>
    requires op.OpRestore?
  {
    var v :- Document(op.snapshot);
    var parsed :- ParseState(env, v);
    Some(parsed.reports)
  }

  /** A restore that replaces the queue, whether or not the disk then takes it. */
  predicate Restores(env: Env, s: Sys, op: Op) {
    && op.OpRestore? && s.lane.Some?
    && StateHash(env, s.lane.value.data) == op.expected && s.lane.value.data.generation == op.generation
    && RestoredQueue(env, op).Some?
  }

  /** Distinct ids within the bound; at the last generation, where the reservation stays, also its captured prefix. */
  predicate RestoresTidily(env: Env, d: LaneData, op: Op)
    requires op.OpRestore? && RestoredQueue(env, op).Some?
  {
    var reports := RestoredQueue(env, op).value;
    && Distinct(Ids(reports)) && |reports| <= MAX_REPORTS
    && (d.generation < U64_LIMIT - 1 || d.reservation.None? || d.reservation.value.captured <= Ids(reports))
  }

  predicate AllTitlesStable(env: Env, rs: seq<Report>) {
    forall i :: 0 <= i < |rs| ==> Stable(env.unicode, rs[i].title)
  }

  /** The flags an operation leaves. */
  function Flagged(env: Env, s: Sys, h: History, op: Op): History {
    var t := Tick(h, op);
    if op.OpEnqueue? then t.(stable := t.stable && AllTitlesStable(env, op.batch))
    else if op.OpOpen? then t.(intact := t.intact && !GivesUp(env, s, op))
    else if Restores(env, s, op) then
      t.(unrestored := false, tidy := t.tidy && RestoresTidily(env, s.lane.value.data, op))
    else t
  }

  function Record(env: Env, s: Sys, h: History, op: Op, reply: Reply): History {
    var t := Flagged(env, s, h, op);
    if op.OpEnqueue? && reply.Committed? then t.(owed := t.owed + IdSet(Ids(op.batch)))
    else if reply.Reserved? || reply.Resumed? then
      if ClockOf(op).Some? then t.(log := t.log + [Attempt(ClockOf(op).value.epochNs)]) else t
    else if op.OpFail? && reply.Committed? && !Permanent(op.cause) then
      t.(log := t.log + [FailedAt(op.now.epochNs, op.retryAfter.GetOr(0))])
    else if Acknowledges(env, s, op) then
      t.(owed := t.owed - IdSet(s.lane.value.data.reservation.value.captured), log := t.log + [Acked])
    else t
  }

  function Run(env: Env, ops: seq<Op>): (Sys, History) {
    if ops == [] then START
    else
      var (s, h) := Run(env, ops[..|ops| - 1]);
      var op := ops[|ops| - 1];
      var (s', reply) := Step(env, s, op);
      (s', Record(env, s, h, op, reply))
  }

  /* ---- What callers guarantee ---- */

  /** Reports are constructed, and keep or have lost their commit id. */
  ghost predicate BatchOk(env: Env, batch: seq<Report>) {
    forall r :: r in batch ==> Constructed(env, r) && (r.commitId.Some? ==> Identified(env, r))
  }

  /** Arguments of the right types. */
  ghost predicate OpOk(env: Env, op: Op) {
    && (op.OpEnqueue? ==> BatchOk(env, op.batch))
    && (op.OpReserve? ==> ValidPayload(op.payload))
  }

  ghost predicate RunOk(env: Env, ops: seq<Op>) {
    forall i :: 0 <= i < |ops| ==> OpOk(env, ops[i])
  }

  /* ---- Invariants of the data in memory and of the data on disk ---- */

  ghost predicate Sound(env: Env, d: LaneData) {
    && (forall r :: r in d.reports + d.blocked ==> Identified(env, r))
    && (d.reservation.Some? ==> ValidPayload(d.reservation.value.payload))
    && (d.backoffSeconds == 0 || 900 <= d.backoffSeconds <= MAX_BACKOFF_SECONDS)
  }

  predicate Steady(env: Env, d: LaneData) {
    forall r :: r in d.reports + d.blocked ==> Stable(env.unicode, r.title)
  }

  /** No event allows an attempt later than `t`. */
  predicate Covers(log: seq<Event>, t: int) {
    forall i :: 0 <= i < |log| ==> Bound(log, i) <= t
  }

  /** The deadline covers every event, and while a reservation lives the bounds are at most a window away. */
  predicate Timed(d: LaneData, clock: nat, log: seq<Event>) {
    && Covers(log, d.nextAttemptNs.GetOr(0))
    && (d.reservation.Some? ==> Covers(log, clock + ATTEMPT_WINDOW_NS))
    && Backoff(Failures(log)) <= d.backoffSeconds
  }

  /** Distinct ids within bounds; a reservation captured a prefix of them. */
  predicate Tidy(d: LaneData) {
    && QueuesOk(d.reports, d.blocked)
    && (d.reservation.Some? ==> d.reservation.value.captured <= Ids(d.reports))
  }

  /** Owed ids are queued. */
  predicate Keeps(d: LaneData, owed: set<string>) {
    forall id :: id in owed ==> id in Ids(d.reports) || id in Ids(d.blocked)
  }

  /** The clock never ran back and no deadline was given up. */
  predicate OnTime(h: History) {
    h.ordered && h.intact
  }

  /** No queue was given up or replaced. */
  predicate NoLoss(h: History) {
    h.intact && h.unrestored
  }

  /** Each part of the invariant holds as long as nothing happened that breaks it. */
  ghost predicate DataInv(env: Env, d: LaneData, h: History) {
    && Sound(env, d)
    && (h.stable ==> Steady(env, d))
    && (OnTime(h) ==> Timed(d, h.clock, h.log))
    && (h.tidy ==> Tidy(d))
    && (NoLoss(h) ==> Keeps(d, h.owed))
  }

  ghost predicate DiskInv(env: Env, disk: Option<seq<byte>>, h: History) {
    if disk.None? then h.intact ==> h.owed == {} && h.log == []
    else exists d :: disk == Some(CanonicalState(d)) && DataInv(env, d, h)
  }

  ghost predicate Inv(env: Env, s: Sys, h: History) {
    && (OnTime(h) ==> Spaced(h.log))
    && DiskInv(env, s.disk, h)
    && (s.lane.Some? ==> s.disk.Some? && DataInv(env, s.lane.value.data, h))
  }

  /* ---- Events ---- */

  lemma PrefixBound(log: seq<Event>, e: Event, i: nat)
    requires i < |log|
    ensures Bound(log + [e], i) == Bound(log, i)
  {
    assert (log + [e])[..i + 1] == log[..i + 1];
  }

  lemma LastBound(log: seq<Event>, e: Event)
    ensures Failures(log + [e]) == match e case Attempt(_) => Failures(log) case FailedAt(_, _) => Failures(log) + 1 case Acked => 0
    ensures Bound(log + [e], |log|) == match e
                                       case Attempt(start) => start + ATTEMPT_WINDOW_NS
                                       case FailedAt(at, retry) => at + NS_PER_SECOND * Max(Backoff(Failures(log) + 1), retry)
                                       case Acked => 0
  {
    assert (log + [e])[..|log|] == log && (log + [e])[..|log| + 1] == log + [e];
  }

  lemma CoversSnoc(log: seq<Event>, e: Event, t: int)
    requires Covers(log, t) && Bound(log + [e], |log|) <= t
    ensures Covers(log + [e], t)
  {
    forall i | 0 <= i < |log + [e]|
      ensures Bound(log + [e], i) <= t
    {
      if i < |log| {
        PrefixBound(log, e, i);
      }
    }
  }

  lemma SpacedSnoc(log: seq<Event>, e: Event)
    requires Spaced(log) && (e.Attempt? ==> Covers(log, e.start))
    ensures Spaced(log + [e])
  {
    forall i, j | 0 <= i < j < |log + [e]| && (log + [e])[j].Attempt?
      ensures Bound(log + [e], i) <= (log + [e])[j].start
    {
      PrefixBound(log, e, i);
    }
  }

  /* ---- Keeping the invariant through a commit ---- */

  /** `h2` is `h1` with time passed, perhaps one more acknowledgement and fewer ids owed, and perhaps fewer guarantees. */
  predicate Follows(h1: History, h2: History) {
    && h2.owed <= h1.owed && h1.clock <= h2.clock
    && (h2.log == h1.log || h2.log == h1.log + [Acked])
    && (h2.ordered ==> h1.ordered) && (h2.stable ==> h1.stable) && (h2.intact ==> h1.intact)
    && (h2.unrestored ==> h1.unrestored) && (h2.tidy ==> h1.tidy)
  }

  lemma TimedFollows(d: LaneData, h1: History, h2: History)
    requires Timed(d, h1.clock, h1.log) && Follows(h1, h2)
    ensures Timed(d, h2.clock, h2.log)
  {
    if h2.log != h1.log {
      LastBound(h1.log, Acked);
      CoversSnoc(h1.log, Acked, d.nextAttemptNs.GetOr(0));
      if d.reservation.Some? {
        CoversSnoc(h1.log, Acked, h1.clock + ATTEMPT_WINDOW_NS);
      }
    }
  }

  lemma DataFollows(env: Env, d: LaneData, h1: History, h2: History)
    requires DataInv(env, d, h1) && Follows(h1, h2)
    ensures DataInv(env, d, h2)
  {
    hide Sound, Steady, Timed, Tidy;
    if OnTime(h2) {
      TimedFollows(d, h1, h2);
    }
  }

  lemma DiskFollows(env: Env, disk: Option<seq<byte>>, h1: History, h2: History)
    requires disk.Some? && DiskInv(env, disk, h1) && Follows(h1, h2)
    ensures DiskInv(env, disk, h2)
  {
    hide DataInv, CanonicalState;
    var d :| disk == Some(CanonicalState(d)) && DataInv(env, d, h1);
    DataFollows(env, d, h1, h2);
  }

  lemma GenerationIsFree(env: Env, d: LaneData, g: u64, h: History)
    requires DataInv(env, d, h)
    ensures DataInv(env, d.(generation := g), h)
  {
  }

  /** If the data is fine under both histories, so is the system after a commit of it. */
  lemma CommitKeeps(env: Env, s: Sys, lane: Lane, io: DiskOutcome, refused: History, committed: History)
    requires s.disk.Some? && DiskInv(env, s.disk, refused)
    requires DataInv(env, lane.data, refused) && DataInv(env, lane.data, committed)
    requires (OnTime(refused) ==> Spaced(refused.log)) && (OnTime(committed) ==> Spaced(committed.log))
    ensures var (s', reply) := Commit(env, s.disk, lane, io);
      && (reply.Committed? || reply.Refused?)
      && Inv(env, s', if reply.Committed? then committed else refused)
  {
    hide CanonicalState, StateHash, DataInv, Spaced;
    match CheckedAdd(lane.data.generation, 1) {
      case None =>
      case Some(g) =>
        GenerationIsFree(env, lane.data, g, refused);
        GenerationIsFree(env, lane.data, g, committed);
    }
  }
}
