/** What holds of every run of the outbox. */
module LaneTheorems {
  import opened Wrappers
  import opened Sorting
  import opened DisplayText
  import opened ReportTypes
  import opened StateSchema
  import opened ReportCodec
  import opened StateCodec
  import opened PassReports
  import opened LaneSpec
  import opened LaneQueues
  import opened LaneRuns
  import opened LaneSteps

  /* ---- No loss ---- */

  predicate InQueue(d: LaneData, id: string) {
    id in Ids(d.reports) || id in Ids(d.blocked)
  }

  /** The state file is one that lists the id. */
  ghost predicate Listed(env: Env, disk: Option<seq<byte>>, id: string) {
    exists d :: disk == Some(CanonicalState(d)) && Writable(env, d) && InQueue(d, id)
  }

  /**
    As long as no open gave up the state file and no restore replaced the queue, an id accepted by
    a successful enqueue is queued in memory and listed on disk until a matching acknowledgement
    consumes a reservation that captured it, and again once it is accepted anew. Crashes, disk
    failures, unsynchronized clocks and refused calls may come anywhere.
   */
  lemma NothingIsLost(env: Env, ops: seq<Op>, id: string)
    requires RunOk(env, ops)
    requires var h := Run(env, ops).1; h.intact && h.unrestored && id in h.owed
    ensures var s := Run(env, ops).0;
      (s.lane.Some? ==> InQueue(s.lane.value.data, id)) && Listed(env, s.disk, id)
  {
    hide Sound, Steady, Timed, Spaced, CanonicalState, Run, Tidy, Writable, Ids;
    var (s, h) := Run(env, ops);
    RunKeeps(env, ops);
    var d :| s.disk == Some(CanonicalState(d)) && DataInv(env, d, h);
    SoundIsWritable(env, d);
  }

  /** Canonical bytes of a state with stable titles determine its ids. */
  lemma BytesDetermineIds(env: Env, d: LaneData, e: LaneData)
    requires Writable(env, d) && Writable(env, e) && CanonicalState(d) == CanonicalState(e)
    requires AllStable(env.unicode, d.reports + d.blocked)
    ensures Ids(d.reports) == Ids(e.reports) && Ids(d.blocked) == Ids(e.blocked)
  {
    hide CanonicalState, LoadState, LoadedGeneration, Writable, AllStable, ReloadedAll, Ids;
    LoadWritten(env, d);
    LoadWritten(env, e);
    assert ReloadedLane(d) == ReloadedLane(e);
    ReloadedIds(d.reports);
    ReloadedIds(d.blocked);
    ReloadedIds(e.reports);
    ReloadedIds(e.blocked);
  }

  lemma EmptyIsNotListed(env: Env, g: u64, disabled: bool, id: string)
    ensures !Listed(env, Some(CanonicalState(EMPTY_LANE.(generation := g, disabled := disabled))), id)
  {
    hide CanonicalState;
    var empty := EMPTY_LANE.(generation := g, disabled := disabled);
    forall d | CanonicalState(empty) == CanonicalState(d) && Writable(env, d)
      ensures !InQueue(d, id)
    {
      BytesDetermineIds(env, empty, d);
    }
  }

  /** What a lane that gave up its file starts with: nothing queued, no deadline, no backoff. */
  predicate Emptied(d: LaneData) {
    d.reports == [] && d.blocked == [] && d.reservation == None && d.nextAttemptNs == None && d.backoffSeconds == 0
  }

  lemma GivenUp(env: Env, s: Sys, op: Op) returns (g: u64, disabled: bool)
    requires GivesUp(env, s, op)
    ensures var s' := Step(env, s, op).0;
      && (s'.disk == None || s'.disk == Some(CanonicalState(EMPTY_LANE.(generation := g, disabled := disabled))))
      && (s'.lane.Some? ==> Emptied(s'.lane.value.data))
  {
    hide CanonicalState, LoadState, LoadedGeneration;
    g := if op.look.Readable? then LoadedGeneration(s.disk.value) else 0;
    disabled := !op.look.StatFails?;
  }

  /**
    Exactly what loses an id: an open that finds the file and cannot look it up, read it, or load
    it, and then moves it away or writes over it. After every other open the file still lists it.
   */
  lemma LostExactlyWhenGivenUp(env: Env, ops: seq<Op>, op: Op, id: string)
    requires RunOk(env, ops) && op.OpOpen? && Run(env, ops).0.lane.None?
    requires var h := Run(env, ops).1; h.intact && h.unrestored && id in h.owed
    ensures var s := Run(env, ops).0;
      var s' := Step(env, s, op).0;
      && (Listed(env, s'.disk, id) <==> !GivesUp(env, s, op))
      && (s'.lane.Some? ==> (InQueue(s'.lane.value.data, id) <==> !GivesUp(env, s, op)))
  {
    hide Sound, Steady, Timed, Spaced, CanonicalState, Run, Tidy, Writable, Ids, Step, Record, Listed, DataInv;
    var (s, h) := Run(env, ops);
    NothingIsLost(env, ops, id);
    RunKeeps(env, ops);
    OpenKeeps(env, s, h, op);
    if GivesUp(env, s, op) {
      var g, disabled := GivenUp(env, s, op);
      EmptyIsNotListed(env, g, disabled, id);
      NothingListedNowhere(env, id);
    } else {
      OpenedKeeps(env, s, h, op, id);
    }
  }

  lemma NothingListedNowhere(env: Env, id: string)
    ensures !Listed(env, None, id)
  {
  }

  lemma OpenedKeeps(env: Env, s: Sys, h: History, op: Op, id: string)
    requires Inv(env, s, h) && op.OpOpen? && s.lane.None? && !GivesUp(env, s, op)
    requires NoLoss(h) && id in h.owed
    ensures var s' := Step(env, s, op).0; s'.lane.Some? ==> InQueue(s'.lane.value.data, id)
  {
    hide Sound, Steady, Timed, Spaced, CanonicalState, Tidy, Ids, LoadState, Open;
    OpenKeeps(env, s, h, op);
  }

  /** The exact condition in terms of the file: readable, all titles stable, or left where it is. */
  lemma GivesUpExactly(env: Env, d: LaneData, op: Op)
    requires Writable(env, d) && op.OpOpen?
    ensures GivesUp(env, Sys(None, Some(CanonicalState(d))), op) <==>
      && !(op.look.Readable? && AllStable(env.unicode, d.reports + d.blocked))
      && ((op.quarantined && !op.look.StatFails?) || !op.io.FailedBeforeRename?)
  {
    hide CanonicalState, LoadState, Writable, AllStable;
    LoadWritten(env, d);
  }

  lemma GivesUpOnlyOnOpen(env: Env, s: Sys, op: Op)
    ensures GivesUp(env, s, op) ==> op.OpOpen?
  {
  }

  lemma RecordKeepsFlags(env: Env, s: Sys, h: History, op: Op, reply: Reply)
    ensures var t, r := Flagged(env, s, h, op), Record(env, s, h, op, reply);
      r.stable == t.stable && r.intact == t.intact
  {
    hide Flagged, Acknowledges, ClockOf, Permanent, Ids, Matches;
  }

  lemma TickKeepsFlags(h: History, op: Op)
    ensures Tick(h, op).stable == h.stable && Tick(h, op).intact == h.intact
  {
    hide ClockOf;
  }

  lemma FlagsOnlyFall(env: Env, s: Sys, h: History, op: Op, reply: Reply)
    ensures var r := Record(env, s, h, op, reply);
      (r.stable ==> h.stable) && (r.intact <==> h.intact && !GivesUp(env, s, op))
  {
    hide AllTitlesStable, Restores, RestoresTidily, Record, GivesUp, ClockOf, Tick;
    TickKeepsFlags(h, op);
    RecordKeepsFlags(env, s, h, op, reply);
    GivesUpOnlyOnOpen(env, s, op);
  }

  /** So no run gives up a file in which every enqueued title is stable and every open can read the file. */
  lemma {:induction false} ReadableStableRunIsIntact(env: Env, ops: seq<Op>)
    requires RunOk(env, ops) && Run(env, ops).1.stable
    requires forall i :: 0 <= i < |ops| && ops[i].OpOpen? ==> ops[i].look.Readable?
    ensures Run(env, ops).1.intact
    decreases |ops|
  {
    hide Step, Inv, OpOk, Record, GivesUp;
    if ops != [] {
      var before, op := ops[..|ops| - 1], ops[|ops| - 1];
      var (s, h) := Run(env, before);
      FlagsOnlyFall(env, s, h, op, Step(env, s, op).1);
      ReadableStableRunIsIntact(env, before);
      RunKeeps(env, before);
      GivesUpOnlyOnOpen(env, s, op);
      if op.OpOpen? {
        OpenKeeps(env, s, h, op);
      }
    }
  }

  /**
    Whatever writable state was persisted, a readable restart brings back all its queued ids
    exactly when every title is stable; one unstable title empties the whole outbox, deadline included.
   */
  lemma RestartKeepsExactlyStable(env: Env, d: LaneData, quarantined: bool, io: DiskOutcome)
    requires Writable(env, d) && d.reports + d.blocked != []
    ensures var s := Open(env, Sys(None, Some(CanonicalState(d))), Readable, quarantined, io);
      if AllStable(env.unicode, d.reports + d.blocked)
      then s.lane.Some? && Ids(s.lane.value.data.reports) == Ids(d.reports) && Ids(s.lane.value.data.blocked) == Ids(d.blocked)
      else s.lane.Some? ==> Emptied(s.lane.value.data) && s.lane.value.data.disabled
  {
    hide CanonicalState, LoadState, LoadedGeneration, Writable, AllStable;
    LoadWritten(env, d);
    ReloadedIds(d.reports);
    ReloadedIds(d.blocked);
  }

  /* ---- Spacing ---- */

  function Pow2(k: nat): nat {
    if k == 0 then 1 else 2 * Pow2(k - 1)
  }

  lemma {:induction false} Pow2Grows(k: nat)
    ensures Pow2(k) >= 1
  {
    if k > 0 {
      Pow2Grows(k - 1);
    }
  }

  lemma {:induction false} BackoffClosedForm(k: nat)
    requires k >= 1
    ensures Backoff(k) == Min(900 * Pow2(k - 1), MAX_BACKOFF_SECONDS)
  {
    if k > 1 {
      BackoffClosedForm(k - 1);
      Pow2Grows(k - 2);
    }
  }

  /**
    As long as the clock does not run back and no open gave up the file, two attempts handed out
    start at least 900 seconds apart, restores, crashes and disk failures included.
   */
  lemma AttemptsAreApart(env: Env, ops: seq<Op>, i: nat, j: nat)
    requires RunOk(env, ops) && OnTime(Run(env, ops).1)
    requires var log := Run(env, ops).1.log; i < j < |log| && log[i].Attempt? && log[j].Attempt?
    ensures var log := Run(env, ops).1.log; log[j].start >= log[i].start + ATTEMPT_WINDOW_NS
  {
    hide DiskInv, DataInv, Run;
    RunKeeps(env, ops);
    var log := Run(env, ops).1.log;
    assert Bound(log, i) <= log[j].start;
  }

  /**
    After the k-th retryable failure in a row since the last acknowledgement, every later
    attempt waits min(900 * 2^(k-1), 86400) seconds from the response, and the server's
    Retry-After.
   */
  lemma FailuresBackOff(env: Env, ops: seq<Op>, i: nat, j: nat)
    requires RunOk(env, ops) && OnTime(Run(env, ops).1)
    requires var log := Run(env, ops).1.log; i < j < |log| && log[i].FailedAt? && log[j].Attempt?
    ensures var log := Run(env, ops).1.log;
      var k := Failures(log[..i + 1]);
      && k >= 1
      && log[j].start >= log[i].at + NS_PER_SECOND * Min(900 * Pow2(k - 1), MAX_BACKOFF_SECONDS)
      && log[j].start >= log[i].at + NS_PER_SECOND * log[i].retryAfter
  {
    hide DiskInv, DataInv, Run;
    RunKeeps(env, ops);
    var log := Run(env, ops).1.log;
    assert Bound(log, i) <= log[j].start;
    assert log[..i + 1][|log[..i + 1]| - 1] == log[i];
    BackoffClosedForm(Failures(log[..i + 1]));
  }

  lemma RunSnoc(env: Env, ops: seq<Op>, op: Op)
    ensures var (s, h) := Run(env, ops);
      var (s', reply) := Step(env, s, op);
      Run(env, ops + [op]) == (s', Record(env, s, h, op, reply))
  {
    hide Step, Record;
    assert (ops + [op])[..|ops|] == ops;
  }

  /* ---- Exact acknowledgement ---- */

  /**
    In every state a run reaches the queue has distinct ids, both queues keep their bounds, and a
    live reservation captured a prefix of the queue, as long as every restore put in place a
    queue with distinct ids within the bound.
   */
  lemma ReservationIsPrefix(env: Env, ops: seq<Op>)
    requires RunOk(env, ops) && Run(env, ops).1.tidy && Run(env, ops).0.lane.Some?
    ensures var d := Run(env, ops).0.lane.value.data;
      && Distinct(Ids(d.reports)) && |Ids(d.reports)| == |d.reports| <= MAX_REPORTS && |d.blocked| <= MAX_BLOCKED
      && (d.reservation.Some? ==> d.reservation.value.captured <= Ids(d.reports))
  {
    hide DiskInv, Timed, Spaced, Run, Keeps, Identified, Steady;
    RunKeeps(env, ops);
    var d := Run(env, ops).0.lane.value.data;
    SoundIsNamed(env, d);
    IdsOfNamed(d.reports);
  }

  /** The restore condition is exact: from a tidy lane, a restore leaves a tidy one if and only if it holds. */
  lemma RestoreKeepsTidyExactly(env: Env, s: Sys, op: Op)
    requires op.OpRestore? && Restores(env, s, op) && Tidy(s.lane.value.data)
    ensures var s' := Step(env, s, op).0;
      s'.lane.Some? && (Tidy(s'.lane.value.data) <==> RestoresTidily(env, s.lane.value.data, op))
  {
    hide CanonicalState, StateHash, ParseState, Document, Ids;
    var lane := s.lane.value;
    var restored := lane.data.(reports := RestoredQueue(env, op).value);
    CommitInMemory(env, s.disk, lane.(data := restored.(reservation := None)), op.io);
  }

  /** The canonical bytes of a queue that lists one report twice restore, and leave its id queued twice. */
  lemma RestoreOfRepeatsIsUntidy(env: Env, lane: Lane, disk: Option<seq<byte>>, r: Report)
    requires Identified(env, r) && Stable(env.unicode, r.title) && lane.data.generation < U64_LIMIT - 1
    ensures var snapshot := CanonicalState(EMPTY_LANE.(reports := [r, r]));
      var op := OpRestore(snapshot, StateHash(env, lane.data), lane.data.generation, Written);
      var (s', reply) := Step(env, Sys(Some(lane), disk), op);
      && reply.Committed? && s'.lane.Some? && Ids(s'.lane.value.data.reports) == [r.commitId.value, r.commitId.value]
      && !Distinct(Ids(s'.lane.value.data.reports))
  {
    hide CanonicalState, StateHash, Identified, Stable, LoadState, ParseState, Document;
    var d := EMPTY_LANE.(reports := [r, r]);
    var snapshot := CanonicalState(d);
    assert r.commitId.Some? by {
      IdentifiedIsNamed(env, r);
    }
    assert d.reports + d.blocked == [r, r];
    LoadWritten(env, d);
    LoadedQueue(env, snapshot);
    var reloaded := ReloadedAll([r, r]);
    ReloadedIds([r, r]);
    TwoIds(r);
    var op := OpRestore(snapshot, StateHash(env, lane.data), lane.data.generation, Written);
    assert RestoredQueue(env, op) == Some(reloaded);
    CommitInMemory(env, disk, lane.(data := lane.data.(reports := reloaded, reservation := None)), Written);
  }

  lemma IdentifiedIsNamed(env: Env, r: Report)
    requires Identified(env, r)
    ensures r.commitId.Some?
  {
  }

  lemma TwoIds(r: Report)
    requires r.commitId.Some?
    ensures Ids([r, r]) == [r.commitId.value, r.commitId.value] && !Distinct(Ids([r, r]))
  {
    assert [r, r][1..] == [r] && [r][1..] == [];
    assert Ids([r]) == [r.commitId.value];
    var ids := Ids([r, r]);
    assert ids[0] == ids[1];
  }

  /** What loads was parsed. */
  lemma LoadedQueue(env: Env, bytes: seq<byte>)
    requires LoadState(env, bytes).Some?
    ensures Document(bytes).Some? && ParseState(env, Document(bytes).value).Some?
    ensures ParseState(env, Document(bytes).value).value.reports == LoadState(env, bytes).value.reports
  {
    hide Document, ParseState;
  }

  /** A matching acknowledgement removes exactly the captured prefix: later arrivals stay, in order. */
  lemma AcknowledgeIsExact(env: Env, ops: seq<Op>, op: Op)
    requires RunOk(env, ops) && Run(env, ops).1.tidy && op.OpAcknowledge?
    requires Acknowledges(env, Run(env, ops).0, op)
    ensures var s := Run(env, ops).0;
      var d, s' := s.lane.value.data, Step(env, s, op).0;
      && s'.lane.Some?
      && |d.reservation.value.captured| <= |d.reports|
      && s'.lane.value.data.reports == d.reports[|d.reservation.value.captured|..]
      && s'.lane.value.data.blocked == d.blocked
      && s'.lane.value.data.reservation == None
  {
    hide DiskInv, Timed, Spaced, Run, Keeps, Sound, Steady, Tidy, CanonicalState, StateHash, Commit, Uncaptured, PayloadHash;
    RunKeeps(env, ops);
    var s := Run(env, ops).0;
    var lane := s.lane.value;
    var captured := lane.data.reservation.value.captured;
    CapturedPrefix(env, lane.data);
    var kept := lane.data.(reservation := None, reports := Uncaptured(lane.data.reports, captured), backoffSeconds := 0);
    CommitInMemory(env, s.disk, lane.(data := kept), op.io);
  }

  lemma CapturedPrefix(env: Env, d: LaneData)
    requires Sound(env, d) && Tidy(d) && d.reservation.Some?
    ensures var captured := d.reservation.value.captured;
      |captured| <= |d.reports| && Uncaptured(d.reports, captured) == d.reports[|captured|..]
  {
    hide Sound, Uncaptured;
    SoundIsNamed(env, d);
    IdsOfNamed(d.reports);
    var captured := d.reservation.value.captured;
    assert captured == Ids(d.reports)[..|captured|];
    UncapturedPrefix(d.reports, |captured|);
  }

  /** Whatever the disk does, a commit leaves its data in memory, one generation on unless that overflows. */
  lemma CommitInMemory(env: Env, disk: Option<seq<byte>>, lane: Lane, io: DiskOutcome)
    ensures var s' := Commit(env, disk, lane, io).0;
      var g := lane.data.generation;
      && s'.lane.Some?
      && s'.lane.value.data == lane.data.(generation := if g < U64_LIMIT - 1 then g + 1 else g)
  {
    hide CanonicalState, StateHash;
  }

  /** Steps from a given state. */
  function RunFrom(env: Env, s: Sys, ops: seq<Op>): Sys
    decreases |ops|
  {
    if ops == [] then s else RunFrom(env, Step(env, s, ops[0]).0, ops[1..])
  }

  predicate NoCrash(ops: seq<Op>) {
    forall i :: 0 <= i < |ops| ==> !ops[i].OpCrash?
  }

  /** A refused enqueue that left reports in the queue. */
  predicate LeavesReports(env: Env, s: Sys, op: Op) {
    var (s', reply) := Step(env, s, op);
    && op.OpEnqueue? && reply.Refused?
    && s.lane.Some? && s'.lane.Some? && s'.lane.value.data.reports != s.lane.value.data.reports
  }

  /** One of the steps is such an enqueue. */
  predicate SomeLeavesReports(env: Env, s: Sys, ops: seq<Op>)
    decreases |ops|
  {
    ops != [] && (LeavesReports(env, s, ops[0]) || SomeLeavesReports(env, Step(env, s, ops[0]).0, ops[1..]))
  }

  /** Generations only grow, and while one lasts the queue only grows. */
  predicate SameOrNewer(before: LaneData, after: LaneData) {
    before.generation <= after.generation
    && (after.generation == before.generation < U64_LIMIT - 1 ==> before.reports <= after.reports)
  }

  lemma CommitsAreNewer(env: Env, s: Sys)
    ensures forall lane, io :: var s' := Commit(env, s.disk, lane, io).0;
      s'.lane.Some? && (s'.lane.value.data.generation == lane.data.generation + 1
                        || s'.lane.value.data.generation == lane.data.generation == U64_LIMIT - 1)
  {
    forall lane, io
      ensures var s' := Commit(env, s.disk, lane, io).0;
        s'.lane.Some? && (s'.lane.value.data.generation == lane.data.generation + 1
                          || s'.lane.value.data.generation == lane.data.generation == U64_LIMIT - 1)
    {
      CommitInMemory(env, s.disk, lane, io);
    }
  }

  /** While the generation lasts, only a refused enqueue changes the queue, and it only appends. */
  lemma StepIsSameOrNewer(env: Env, s: Sys, op: Op)
    requires s.lane.Some? && !op.OpCrash?
    ensures var s' := Step(env, s, op).0;
      && s'.lane.Some? && SameOrNewer(s.lane.value.data, s'.lane.value.data)
      && (s'.lane.value.data.generation == s.lane.value.data.generation < U64_LIMIT - 1 && !LeavesReports(env, s, op) ==>
            s'.lane.value.data.reports == s.lane.value.data.reports)
  {
    hide Commit, StateHash, Ids, Uncaptured, PushAll, NextBackoff, NextDeadline, InspectDue, ReservationId, PayloadHash, Matches,
         PromoteAll, ParseState, Document;
    CommitsAreNewer(env, s);
    match op {
      case OpRetryBlocked(_, _) => PromotionCounts(s.lane.value.data.reports, s.lane.value.data.blocked, 0);
      case OpEnqueue(batch, _, _) => PushAllAppends(s.lane.value.data.reports, s.lane.value.data.blocked, batch);
      case OpReserve(_, _, _, _) =>
      case OpResume(_, _) =>
      case OpFail(_, _, _, _, _) =>
      case _ =>
    }
  }

  lemma {:induction false} PromotionCounts(reports: seq<Report>, blocked: seq<Report>, count: nat)
    ensures PromoteAll(reports, blocked, count).count >= count
    ensures PromoteAll(reports, blocked, count).count == count ==> PromoteAll(reports, blocked, count).reports == reports
    decreases |blocked|
  {
    if |reports| < MAX_REPORTS && blocked != [] {
      if HasId(reports, blocked[0].commitId) {
        PromotionCounts(reports, blocked[1..], count);
      } else {
        PromotionCounts(reports + [blocked[0]], blocked[1..], count + 1);
      }
    }
  }

  /** Over steps without a crash that keep the generation, the queue changes exactly when a refused enqueue leaves reports. */
  lemma {:induction false} RunFromIsSameOrNewer(env: Env, s: Sys, ops: seq<Op>)
    requires s.lane.Some? && NoCrash(ops)
    ensures var s' := RunFrom(env, s, ops);
      && s'.lane.Some? && SameOrNewer(s.lane.value.data, s'.lane.value.data)
      && (s'.lane.value.data.generation == s.lane.value.data.generation < U64_LIMIT - 1 ==>
            (s'.lane.value.data.reports == s.lane.value.data.reports <==> !SomeLeavesReports(env, s, ops)))
    decreases |ops|
  {
    hide Step;
    if ops != [] {
      var s1 := Step(env, s, ops[0]).0;
      StepIsSameOrNewer(env, s, ops[0]);
      RunFromIsSameOrNewer(env, s1, ops[1..]);
    }
  }

  /**
    A view that is still accepted when it comes back rendered shows exactly the reports the
    reservation captures if and only if no refused enqueue left reports in the queue in between.
   */
  lemma RenderedViewIsCaptured(env: Env, ops: seq<Op>, seen: ClockSample, between: seq<Op>, op: Op)
    requires RunOk(env, ops) && Run(env, ops).1.tidy && op.OpReserve?
    requires Run(env, ops).0.lane.Some? && NoCrash(between)
    requires InspectDue(Run(env, ops).0.lane.value, seen) == Ready(op.view)
    requires op.view.stateGeneration < U64_LIMIT - 1
    requires Step(env, RunFrom(env, Run(env, ops).0, between), op).1.Reserved?
    ensures var s := RunFrom(env, Run(env, ops).0, between);
      var s' := Step(env, s, op).0;
      && s'.lane.Some? && s'.lane.value.data.reservation.Some?
      && s'.lane.value.data.reservation.value.captured == Ids(s'.lane.value.data.reports)
      && (multiset(op.view.reports) == multiset(s'.lane.value.data.reports) <==>
            !SomeLeavesReports(env, Run(env, ops).0, between))
  {
    hide DiskInv, Timed, Spaced, Keeps, Run, CanonicalState, StateHash, Identified, Steady, RunFrom, SomeLeavesReports,
         ReservationId, PayloadHash, Ids, FromReports;
    RunKeeps(env, ops);
    var d := Run(env, ops).0.lane.value.data;
    RunFromIsSameOrNewer(env, Run(env, ops).0, between);
    ViewShowsQueue(env, d);
    var e := RunFrom(env, Run(env, ops).0, between).lane.value.data;
    PrefixMultiset(d.reports, e.reports);
  }

  lemma PrefixMultiset(a: seq<Report>, b: seq<Report>)
    requires a <= b
    ensures multiset(a) == multiset(b) <==> a == b
  {
    assert b == a + b[|a|..];
    assert |multiset(b)| == |b| && |multiset(a)| == |a|;
  }

  /** The view of a sound queue within its bound shows all of it. */
  lemma ViewShowsQueue(env: Env, d: LaneData)
    requires Sound(env, d) && |d.reports| <= MAX_REPORTS
    ensures multiset(FromReports(d.reports).0) == multiset(d.reports)
  {
    hide FromReports, Constructed, SortBy, ReportLe;
    forall i | 0 <= i < |d.reports|
      ensures Constructed(env, d.reports[i])
    {
      assert d.reports[i] in d.reports + d.blocked;
    }
    FromReportsKeepsFirst(env, d.reports);
    var sorted := SortBy(ReportLe, d.reports);
    assert sorted[..|d.reports|] == sorted;
    assert multiset(sorted) == multiset(d.reports) by {
      SortedReports(d.reports);
    }
  }

  /* ---- Fence and restore ---- */

  /** Operations a fence does not stop. */
  predicate PassesFence(op: Op) {
    op.OpReset? || op.OpRestore? || op.OpCrash?
  }

  /** On a fenced lane every other operation is refused and changes neither memory nor disk. */
  lemma FencedLaneRefuses(env: Env, s: Sys, op: Op)
    requires s.lane.Some? && s.lane.value.fenced && !PassesFence(op)
    ensures var (s', reply) := Step(env, s, op);
      && s'.disk == s.disk && s'.lane.Some? && s'.lane.value.fenced && s'.lane.value.data == s.lane.value.data
      && (!op.OpFence? && !op.OpOpen? ==> s' == s && reply == Refused(NotificationStateError.Fenced))
  {
    hide StateHash, Commit, Matches;
  }

  /** So nothing that arrives after a fence, in any number, is written or kept. */
  lemma {:induction false} NothingPassesFence(env: Env, s: Sys, ops: seq<Op>)
    requires s.lane.Some? && s.lane.value.fenced && forall i :: 0 <= i < |ops| ==> !PassesFence(ops[i])
    ensures var s' := RunFrom(env, s, ops);
      s'.disk == s.disk && s'.lane.Some? && s'.lane.value.fenced && s'.lane.value.data == s.lane.value.data
    decreases |ops|
  {
    hide Step;
    if ops != [] {
      FencedLaneRefuses(env, s, ops[0]);
      NothingPassesFence(env, Step(env, s, ops[0]).0, ops[1..]);
    }
  }

  ghost predicate QueueReplaced(env: Env, before: LaneData, after: LaneData) {
    && after.generation == before.generation + 1 && after.reservation == None
    && after.blocked == before.blocked && after.disabled == before.disabled && after.backoffSeconds == before.backoffSeconds
    && after.lastAttemptNs == before.lastAttemptNs && after.nextAttemptNs == before.nextAttemptNs
    && AllIdentified(env, after.reports) && AllStable(env.unicode, after.reports)
  }

  /**
    A restore that succeeds replaces the queue by reports of the snapshot, drops the reservation,
    and leaves blocked reports, deadlines, backoff and the disabled flag alone.
   */
  lemma RestoreReplacesQueueAlone(env: Env, s: Sys, op: Op)
    requires s.lane.Some? && op.OpRestore? && Step(env, s, op).1.Committed?
    ensures var s' := Step(env, s, op).0;
      && s'.lane.Some? && QueueReplaced(env, s.lane.value.data, s'.lane.value.data)
      && s'.disk == Some(CanonicalState(s'.lane.value.data))
  {
    hide StateHash, CanonicalState, Identified, Stable, ParseState, Document;
    var v := Document(op.snapshot).value;
    ParsedStateSound(env, v);
    var reports := ParseState(env, v).value.reports;
    forall i | 0 <= i < |reports|
      ensures Identified(env, reports[i]) && Stable(env.unicode, reports[i].title)
    {
      assert reports[i] in reports;
    }
  }
}
