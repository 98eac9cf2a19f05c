/** Every operation of the outbox keeps the invariant of its runs. */
module LaneSteps {
  import opened Wrappers
  import opened Json
  import opened DisplayText
  import opened ReportTypes
  import opened StateSchema
  import opened ReportCodec
  import opened StateCodec
  import opened LaneSpec
  import opened LaneQueues
  import opened LaneRuns
  import ReportRoundTrip

  /** The lane of `s` is up and everything holds; what each operation lemma starts from. */
  ghost predicate Up(env: Env, s: Sys, h: History) {
    Inv(env, s, h) && s.lane.Some?
  }

  lemma InvTicks(env: Env, s: Sys, h: History, t: History)
    requires Up(env, s, h) && Follows(h, t) && (OnTime(t) ==> Spaced(t.log))
    ensures Inv(env, s, t)
  {
    hide DataInv, DiskInv, Spaced;
    DataFollows(env, s.lane.value.data, h, t);
    DiskFollows(env, s.disk, h, t);
  }

  /* ---- Queues ---- */

  lemma IdsPrefix(a: seq<Report>, b: seq<Report>)
    requires a <= b
    ensures Ids(a) <= Ids(b)
  {
    assert b == a + b[|a|..];
    IdsConcat(a, b[|a|..]);
  }

  lemma {:induction false} IdOfMember(rs: seq<Report>, r: Report)
    requires r in rs && r.commitId.Some?
    ensures r.commitId.value in Ids(rs)
  {
    var i :| 0 <= i < |rs| && rs[i] == r;
    assert HasId(rs, r.commitId);
    HasIdIffListed(rs, r.commitId.value);
  }

  lemma {:induction false} MemberOfId(rs: seq<Report>, id: string) returns (r: Report)
    requires id in Ids(rs)
    ensures r in rs && r.commitId == Some(id)
  {
    HasIdIffListed(rs, id);
    var i :| 0 <= i < |rs| && rs[i].commitId == Some(id);
    r := rs[i];
  }

  /** Queues that only grow keep every id, and a reservation's captured prefix. */
  lemma GrownQueuesKeep(d: LaneData, q: Queues, owed: set<string>)
    requires d.reports <= q.reports && d.blocked <= q.blocked
    ensures var d' := d.(reports := q.reports, blocked := q.blocked);
      && (Tidy(d) && QueuesOk(q.reports, q.blocked) ==> Tidy(d'))
      && (Keeps(d, owed) ==> Keeps(d', owed))
  {
    IdsPrefix(d.reports, q.reports);
    IdsPrefix(d.blocked, q.blocked);
    var i, j := Ids(d.reports), Ids(q.reports);
    forall id | id in i
      ensures id in j
    {
      var k :| 0 <= k < |i| && i[k] == id;
      assert j[k] == id;
    }
    forall id | id in Ids(d.blocked)
      ensures id in Ids(q.blocked)
    {
      var k :| 0 <= k < |Ids(d.blocked)| && Ids(d.blocked)[k] == id;
      assert Ids(q.blocked)[k] == id;
    }
  }

  /** After an enqueue without error, the ids of the batch are queued. */
  lemma BatchIsQueued(reports: seq<Report>, blocked: seq<Report>, batch: seq<Report>, id: string)
    requires PushAll(reports, blocked, batch).error.None? && id in Ids(batch)
    ensures var q := PushAll(reports, blocked, batch); id in Ids(q.reports) || id in Ids(q.blocked)
  {
    PushAllAppends(reports, blocked, batch);
    var q := PushAll(reports, blocked, batch);
    var r := MemberOfId(batch, id);
    if HasId(q.reports, r.commitId) {
      HasIdIffListed(q.reports, id);
    } else {
      IdOfMember(q.blocked, r);
    }
  }

  lemma PushedSteady(env: Env, d: LaneData, batch: seq<Report>)
    requires Steady(env, d) && AllTitlesStable(env, batch)
    ensures var q := PushAll(d.reports, d.blocked, batch); Steady(env, d.(reports := q.reports, blocked := q.blocked))
  {
    hide Stable, PushAll, QueuesOk;
    PushAllAppends(d.reports, d.blocked, batch);
    var q := PushAll(d.reports, d.blocked, batch);
    forall r | r in q.reports + q.blocked
      ensures Stable(env.unicode, r.title)
    {
      if r !in d.reports + d.blocked {
        var i :| 0 <= i < |batch| && batch[i] == r;
      }
    }
  }

  lemma PushedData(env: Env, d: LaneData, batch: seq<Report>, t: History)
    requires DataInv(env, d, t) && BatchOk(env, batch)
    ensures var q := PushAll(d.reports, d.blocked, batch);
      var d' := d.(reports := q.reports, blocked := q.blocked);
      var t' := t.(stable := t.stable && AllTitlesStable(env, batch));
      && DataInv(env, d', t')
      && (q.error.None? ==> DataInv(env, d', t'.(owed := t.owed + IdSet(Ids(batch)))))
  {
    hide Identified, AllTitlesStable, Constructed, Ids, PushAll, QueuesOk, Steady;
    var q := PushAll(d.reports, d.blocked, batch);
    PushAllAppends(d.reports, d.blocked, batch);
    if t.stable && AllTitlesStable(env, batch) {
      PushedSteady(env, d, batch);
    }
    GrownQueuesKeep(d, q, t.owed);
    if q.error.None? {
      forall id | id in IdSet(Ids(batch))
        ensures id in Ids(q.reports) || id in Ids(q.blocked)
      {
        BatchIsQueued(d.reports, d.blocked, batch, id);
      }
    }
  }

  lemma EnqueueKeeps(env: Env, s: Sys, h: History, op: Op)
    requires Up(env, s, h) && op.OpEnqueue? && OpOk(env, op)
    ensures var (s', reply) := Step(env, s, op); Inv(env, s', Record(env, s, h, op, reply))
  {
    hide DataInv, DiskInv, Spaced, BatchOk, PushAll, CanonicalState, Ids, StateHash, AllTitlesStable;
    var lane := s.lane.value;
    var t := Flagged(env, s, h, op);
    InvTicks(env, s, h, t);
    if !lane.fenced && ClockOk(op.now) {
      var q := PushAll(lane.data.reports, lane.data.blocked, op.batch);
      var pushed := lane.(data := lane.data.(reports := q.reports, blocked := q.blocked));
      var accepted := t.(owed := t.owed + IdSet(Ids(op.batch)));
      if op.batch == [] {
        NoIds();
        assert accepted == t;
      } else {
        var u := Tick(h, op);
        InvTicks(env, s, h, u);
        PushedData(env, lane.data, op.batch, u);
        if q.error.None? {
          CommitKeeps(env, s, pushed, op.io, t, accepted);
        }
      }
    }
  }

  lemma NoIds()
    ensures IdSet(Ids([])) == {}
  {
  }

  lemma PromotedKeep(d: LaneData, owed: set<string>)
    requires AllNamed(d.blocked)
    ensures var p := PromoteAll(d.reports, d.blocked, 0);
      var d' := d.(reports := p.reports, blocked := p.blocked);
      (Tidy(d) ==> Tidy(d')) && (Keeps(d, owed) ==> Keeps(d', owed))
  {
    hide PromoteAll, QueuesOk;
    PromoteAllMoves(d.reports, d.blocked, 0);
    var p := PromoteAll(d.reports, d.blocked, 0);
    IdsPrefix(d.reports, p.reports);
    forall id | id in Ids(d.reports)
      ensures id in Ids(p.reports)
    {
      var k :| 0 <= k < |Ids(d.reports)| && Ids(d.reports)[k] == id;
      assert Ids(p.reports)[k] == id;
    }
    forall id | id in Ids(d.blocked)
      ensures id in Ids(p.reports) || id in Ids(p.blocked)
    {
      var r := MemberOfId(d.blocked, id);
      if HasId(p.reports, r.commitId) {
        HasIdIffListed(p.reports, id);
      } else {
        IdOfMember(p.blocked, r);
      }
    }
  }

  lemma PromotedData(env: Env, d: LaneData, t: History)
    requires DataInv(env, d, t)
    ensures var p := PromoteAll(d.reports, d.blocked, 0);
      DataInv(env, d.(reports := p.reports, blocked := p.blocked), t)
  {
    hide Stable, Constructed, Ids, PromoteAll, QueuesOk, Tidy, Keeps;
    assert AllNamed(d.blocked) by {
      forall i | 0 <= i < |d.blocked|
        ensures d.blocked[i].commitId.Some?
      {
        assert d.blocked[i] in d.reports + d.blocked;
      }
    }
    PromoteAllMoves(d.reports, d.blocked, 0);
    PromotedKeep(d, t.owed);
  }

  lemma RetryBlockedKeeps(env: Env, s: Sys, h: History, op: Op)
    requires Up(env, s, h) && op.OpRetryBlocked? && OpOk(env, op)
    ensures var (s', reply) := Step(env, s, op); Inv(env, s', Record(env, s, h, op, reply))
  {
    hide DataInv, DiskInv, Spaced, PromoteAll, CanonicalState, StateHash;
    var lane := s.lane.value;
    var t := Tick(h, op);
    InvTicks(env, s, h, t);
    if !lane.fenced && ClockOk(op.now) {
      var p := PromoteAll(lane.data.reports, lane.data.blocked, 0);
      PromotedData(env, lane.data, t);
      CommitKeeps(env, s, lane.(data := lane.data.(reports := p.reports, blocked := p.blocked)), op.io, t, t);
    }
  }

  /* ---- Attempts ---- */

  /** Starting an attempt now, when the deadline has passed, covers everything before it. */
  lemma AttemptTimes(d: LaneData, d': LaneData, t: History, now: int, next: u64)
    requires Timed(d, t.clock, t.log) && d.nextAttemptNs.GetOr(0) <= now <= t.clock && next == now + ATTEMPT_WINDOW_NS
    requires d'.nextAttemptNs == Some(next) && d'.backoffSeconds == d.backoffSeconds
    ensures Timed(d', t.clock, t.log) && Timed(d', t.clock, t.log + [Attempt(now)])
    ensures Covers(t.log, now)
  {
    LastBound(t.log, Attempt(now));
    CoversSnoc(t.log, Attempt(now), next);
    CoversSnoc(t.log, Attempt(now), t.clock + ATTEMPT_WINDOW_NS);
  }

  /** Data with the same queues, a live reservation on a captured prefix, and a fresh attempt. */
  lemma AttemptData(env: Env, d: LaneData, r: Reservation, t: History, now: u64, next: u64)
    requires DataInv(env, d, t) && ValidPayload(r.payload)
    requires d.nextAttemptNs.GetOr(0) <= now <= t.clock && next == now + ATTEMPT_WINDOW_NS
    requires t.tidy ==> r.captured <= Ids(d.reports)
    ensures var d' := d.(reservation := Some(r), lastAttemptNs := Some(now), nextAttemptNs := Some(next));
      DataInv(env, d', t) && DataInv(env, d', t.(log := t.log + [Attempt(now)]))
  {
    hide Identified, Stable, Ids, QueuesOk, Backoff, Failures, Bound;
    if OnTime(t) {
      AttemptTimes(d, d.(reservation := Some(r), lastAttemptNs := Some(now), nextAttemptNs := Some(next)), t, now, next);
    }
  }

  lemma AttemptSpaced(d: LaneData, t: History, now: int)
    requires OnTime(t) ==> Timed(d, t.clock, t.log) && Spaced(t.log)
    requires d.nextAttemptNs.GetOr(0) <= now
    ensures OnTime(t) ==> Spaced(t.log + [Attempt(now)])
  {
    hide Bound;
    if OnTime(t) {
      SpacedSnoc(t.log, Attempt(now));
    }
  }

  lemma ReserveKeeps(env: Env, s: Sys, h: History, op: Op)
    requires Up(env, s, h) && op.OpReserve? && OpOk(env, op)
    ensures var (s', reply) := Step(env, s, op); Inv(env, s', Record(env, s, h, op, reply))
  {
    hide Sound, Steady, Tidy, Keeps, Timed, DiskInv, Spaced, CanonicalState, Ids, StateHash, ReservationId, PayloadHash;
    var lane := s.lane.value;
    var d := lane.data;
    var t := Tick(h, op);
    InvTicks(env, s, h, t);
    var next := CheckedAdd(op.now.epochNs, ATTEMPT_WINDOW_NS);
    if !lane.fenced && ClockOk(op.now) && d.reservation.None? && op.view.stateGeneration == d.generation
       && !NotDue(d, op.now) && next.Some?
    {
      var now := op.now.epochNs;
      var r := Reservation(ReservationId(env, d.generation, op.payload), op.payload, Ids(d.reports), now,
                           op.now.monotonicNs, next.value);
      var reserved := lane.(data :=
        d.(reservation := Some(r), lastAttemptNs := Some(now), nextAttemptNs := Some(next.value)));
      AttemptData(env, d, r, t, now, next.value);
      AttemptSpaced(d, t, now);
      CommitKeeps(env, s, reserved, op.io, t, t.(log := t.log + [Attempt(now)]));
    }
  }

  /** Moving the start of a live reservation touches nothing the invariant looks at. */
  lemma RestartedData(env: Env, d: LaneData, r: Reservation, t: History)
    requires DataInv(env, d, t) && d.reservation.Some?
    requires r.payload == d.reservation.value.payload && r.captured == d.reservation.value.captured
    ensures DataInv(env, d.(reservation := Some(r)), t)
    ensures ValidPayload(r.payload) && (t.tidy ==> r.captured <= Ids(d.reports))
  {
    hide Identified, Stable, Ids, QueuesOk, Backoff, Failures, Covers;
  }

  lemma ResumeKeeps(env: Env, s: Sys, h: History, op: Op)
    requires Up(env, s, h) && op.OpResume? && OpOk(env, op)
    ensures var (s', reply) := Step(env, s, op); Inv(env, s', Record(env, s, h, op, reply))
  {
    hide Sound, Steady, Tidy, Keeps, Timed, DiskInv, Spaced, CanonicalState, Ids, StateHash;
    var lane := s.lane.value;
    var d := lane.data;
    var t := Tick(h, op);
    InvTicks(env, s, h, t);
    if !lane.fenced && ClockOk(op.now) && !NotDue(d, op.now) && d.reservation.Some? {
      var now := op.now.epochNs;
      var next := CheckedAdd(now, ATTEMPT_WINDOW_NS);
      var r := d.reservation.value.(startedEpochNs := now, startedMonotonicNs := op.now.monotonicNs);
      RestartedData(env, d, r, t);
      if next.Some? {
        var r2 := r.(reservedNextNs := next.value);
        var resumed := lane.(data :=
          d.(reservation := Some(r2), lastAttemptNs := Some(now), nextAttemptNs := Some(next.value)));
        AttemptData(env, d, r2, t, now, next.value);
        AttemptSpaced(d, t, now);
        CommitKeeps(env, s, resumed, op.io, t, t.(log := t.log + [Attempt(now)]));
      }
    }
  }

  /* ---- Acknowledgement and failure ---- */

  lemma AcknowledgedTidy(d: LaneData)
    requires Tidy(d) && d.reservation.Some? && AllNamed(d.reports)
    ensures var captured := d.reservation.value.captured;
      Tidy(d.(reservation := None, reports := Uncaptured(d.reports, captured), backoffSeconds := 0))
  {
    var ids := Ids(d.reports);
    var k := |d.reservation.value.captured|;
    IdsOfNamed(d.reports);
    assert d.reservation.value.captured == ids[..k];
    UncapturedPrefix(d.reports, k);
    var kept := d.reports[k..];
    assert AllNamed(kept);
    IdsOfNamed(kept);
    assert Ids(kept) == ids[k..];
  }

  lemma AcknowledgedKeep(d: LaneData, owed: set<string>)
    requires Keeps(d, owed) && d.reservation.Some?
    ensures var captured := d.reservation.value.captured;
      var d' := d.(reservation := None, reports := Uncaptured(d.reports, captured), backoffSeconds := 0);
      Keeps(d', owed - IdSet(captured))
  {
    hide Ids, Uncaptured;
    var captured := d.reservation.value.captured;
    UncapturedMembers(d.reports, captured);
    forall id | id in Ids(d.reports)
      ensures id in Ids(Uncaptured(d.reports, captured)) || id in IdSet(captured)
    {
      var r := MemberOfId(d.reports, id);
      if id !in captured {
        IdOfMember(Uncaptured(d.reports, captured), r);
      }
    }
  }

  lemma AcknowledgedData(env: Env, d: LaneData, t: History)
    requires DataInv(env, d, t) && d.reservation.Some?
    ensures var captured := d.reservation.value.captured;
      var d' := d.(reservation := None, reports := Uncaptured(d.reports, captured), backoffSeconds := 0);
      var t' := t.(owed := t.owed - IdSet(captured), log := t.log + [Acked]);
      DataInv(env, d', t') && Follows(t, t') && (OnTime(t) && Spaced(t.log) ==> Spaced(t'.log))
  {
    hide Stable, Constructed, Ids, QueuesOk, Tidy, Keeps, Uncaptured, Bound;
    var captured := d.reservation.value.captured;
    UncapturedMembers(d.reports, captured);
    if OnTime(t) {
      LastBound(t.log, Acked);
      CoversSnoc(t.log, Acked, d.nextAttemptNs.GetOr(0));
      if Spaced(t.log) {
        SpacedSnoc(t.log, Acked);
      }
    }
    if t.tidy {
      SoundIsNamed(env, d);
      AcknowledgedTidy(d);
    }
    if NoLoss(t) {
      AcknowledgedKeep(d, t.owed);
    }
  }

  lemma SoundIsNamed(env: Env, d: LaneData)
    requires Sound(env, d)
    ensures AllNamed(d.reports)
  {
    hide Constructed;
    forall i | 0 <= i < |d.reports|
      ensures d.reports[i].commitId.Some?
    {
      assert d.reports[i] in d.reports + d.blocked;
    }
  }

  lemma AcknowledgeKeeps(env: Env, s: Sys, h: History, op: Op)
    requires Up(env, s, h) && op.OpAcknowledge? && OpOk(env, op)
    ensures var (s', reply) := Step(env, s, op); Inv(env, s', Record(env, s, h, op, reply))
  {
    hide DataInv, DiskInv, Spaced, CanonicalState, Uncaptured, StateHash, PayloadHash;
    var lane := s.lane.value;
    if Acknowledges(env, s, op) {
      var captured := lane.data.reservation.value.captured;
      var h' := h.(owed := h.owed - IdSet(captured), log := h.log + [Acked]);
      var kept := lane.(data := lane.data.(reservation := None, reports := Uncaptured(lane.data.reports, captured),
                                           backoffSeconds := 0));
      AcknowledgedData(env, lane.data, h);
      DiskFollows(env, s.disk, h, h');
      CommitKeeps(env, s, kept, op.io, h', h');
    }
  }

  /** Without its reservation, data keeps everything. */
  lemma ReleasedData(env: Env, d: LaneData, disabled: bool, t: History)
    requires DataInv(env, d, t)
    ensures DataInv(env, d.(reservation := None, disabled := disabled), t)
  {
    hide Identified, Stable, Ids, QueuesOk, Backoff, Failures, Covers;
  }

  lemma BackoffInRange(previous: u64)
    requires previous == 0 || 900 <= previous <= MAX_BACKOFF_SECONDS
    ensures NextBackoff(previous).Some? && 900 <= NextBackoff(previous).value <= MAX_BACKOFF_SECONDS
  {
  }

  lemma BackoffGrows(previous: u64, k: nat)
    requires Backoff(k) <= previous && (previous == 0 || 900 <= previous <= MAX_BACKOFF_SECONDS)
    ensures NextBackoff(previous).Some? && Backoff(k + 1) <= NextBackoff(previous).value
    ensures 900 <= NextBackoff(previous).value <= MAX_BACKOFF_SECONDS
  {
    assert Backoff(1) == 900;
  }

  lemma FailedTimes(d: LaneData, d': LaneData, t: History, at: u64, retryAfter: nat, backoff: nat, deadline: u64)
    requires Timed(d, t.clock, t.log) && d.reservation.Some? && t.clock <= at
    requires Backoff(Failures(t.log) + 1) <= backoff
    requires deadline >= at + ATTEMPT_WINDOW_NS && deadline >= at + NS_PER_SECOND * backoff
    requires deadline >= at + NS_PER_SECOND * retryAfter
    requires d'.reservation.None? && d'.nextAttemptNs == Some(deadline) && d'.backoffSeconds == backoff
    requires Backoff(Failures(t.log)) <= backoff
    ensures Timed(d', t.clock, t.log) && Timed(d', t.clock, t.log + [FailedAt(at, retryAfter)])
  {
    var e := FailedAt(at, retryAfter);
    LastBound(t.log, e);
    assert Covers(t.log, t.clock + ATTEMPT_WINDOW_NS);
    CoversSnoc(t.log, e, deadline);
  }

  lemma BackoffMonotonic(k: nat)
    ensures Backoff(k) <= Backoff(k + 1)
  {
  }

  lemma FailedData(env: Env, d: LaneData, t: History, sample: u64, retryAfter: Option<u64>)
    requires DataInv(env, d, t) && d.reservation.Some? && (t.ordered ==> t.clock <= sample)
    requires NextBackoff(d.backoffSeconds).Some?
    requires NextDeadline(sample, sample, NextBackoff(d.backoffSeconds).value, retryAfter).Some?
    ensures var backoff := NextBackoff(d.backoffSeconds).value;
      var deadline := NextDeadline(sample, sample, backoff, retryAfter);
      var d' := d.(reservation := None, backoffSeconds := backoff, lastAttemptNs := Some(sample), nextAttemptNs := deadline);
      DataInv(env, d', t) && DataInv(env, d', t.(log := t.log + [FailedAt(sample, retryAfter.GetOr(0))]))
  {
    hide Identified, Stable, Ids, QueuesOk, Covers, Backoff, Failures;
    var backoff := NextBackoff(d.backoffSeconds).value;
    var deadline := NextDeadline(sample, sample, backoff, retryAfter);
    var d' := d.(reservation := None, backoffSeconds := backoff, lastAttemptNs := Some(sample), nextAttemptNs := deadline);
    BackoffInRange(d.backoffSeconds);
    if OnTime(t) {
      BackoffGrows(d.backoffSeconds, Failures(t.log));
      BackoffMonotonic(Failures(t.log));
      FailedTimes(d, d', t, sample, retryAfter.GetOr(0), backoff, deadline.value);
    }
  }

  lemma FailedSpaced(t: History, e: Event)
    requires (OnTime(t) ==> Spaced(t.log)) && e.FailedAt?
    ensures OnTime(t) ==> Spaced(t.log + [e])
  {
    if OnTime(t) {
      SpacedSnoc(t.log, e);
    }
  }

  lemma FailKeeps(env: Env, s: Sys, h: History, op: Op)
    requires Up(env, s, h) && op.OpFail? && OpOk(env, op)
    ensures var (s', reply) := Step(env, s, op); Inv(env, s', Record(env, s, h, op, reply))
  {
    hide DataInv, DiskInv, Spaced, CanonicalState, NextBackoff, NextDeadline, StateHash;
    var lane := s.lane.value;
    var d := lane.data;
    var t := Tick(h, op);
    InvTicks(env, s, h, t);
    if !lane.fenced && d.reservation.Some? && d.reservation.value.id == op.id && ClockOk(op.now) {
      var sample := op.now.epochNs;
      ReleasedData(env, d, d.disabled, t);
      if Permanent(op.cause) {
        ReleasedData(env, d, true, t);
        CommitKeeps(env, s, lane.(data := d.(reservation := None, disabled := true)), op.io, t, t);
      } else {
        var backoff := NextBackoff(d.backoffSeconds);
        if backoff.Some? {
          var deadline := NextDeadline(sample, sample, backoff.value, op.retryAfter);
          if deadline.Some? {
            var failed := t.(log := t.log + [FailedAt(sample, op.retryAfter.GetOr(0))]);
            FailedData(env, d, t, sample, op.retryAfter);
            FailedSpaced(t, FailedAt(sample, op.retryAfter.GetOr(0)));
            CommitKeeps(env, s, lane.(data := d.(reservation := None, backoffSeconds := backoff.value,
                                                 lastAttemptNs := Some(sample), nextAttemptNs := deadline)),
                        op.io, t, failed);
          }
        }
      }
    }
  }

  /* ---- Reset, restore, fence, restart ---- */

  lemma ResetKeeps(env: Env, s: Sys, h: History, op: Op)
    requires Up(env, s, h) && op.OpReset?
    ensures var (s', reply) := Step(env, s, op); Inv(env, s', Record(env, s, h, op, reply))
  {
    hide DiskInv, Spaced, CanonicalState, StateHash, Sound, Steady, Tidy, Keeps, Timed;
    var lane := s.lane.value;
    EnabledData(env, lane.data, h);
    CommitKeeps(env, s, lane.(data := lane.data.(disabled := false)), op.io, h, h);
  }

  lemma EnabledData(env: Env, d: LaneData, h: History)
    requires DataInv(env, d, h)
    ensures DataInv(env, d.(disabled := false), h)
  {
    hide Identified, Stable, Ids, QueuesOk, Covers;
  }

  lemma {:induction false} ReadReportsSound(env: Env, vs: seq<Value>)
    requires ReadReports(env, vs).Some?
    ensures forall r :: r in ReadReports(env, vs).value ==> Identified(env, r) && Stable(env.unicode, r.title)
  {
    hide DecodeReport, Identified, Stable;
    if vs != [] {
      var text :- assert vs[0].AsStr();
      var bytes :- assert Decimal.DecodeHex(text);
      ReportRoundTrip.AcceptedIsCanonical(env, bytes);
      ReadReportsSound(env, vs[1..]);
    }
  }

  lemma ParsedStateSound(env: Env, v: Value)
    requires ParseState(env, v).Some?
    ensures forall r :: r in ParseState(env, v).value.reports ==> Identified(env, r) && Stable(env.unicode, r.title)
  {
    hide ReadReports, ReadReservationAt, Identified, Stable;
    var reportsValue :- assert v.Get("reports");
    var reportValues :- assert reportsValue.AsArray();
    ReadReportsSound(env, reportValues);
  }

  lemma RestoredData(env: Env, d: LaneData, reports: seq<Report>, t: History, tidy: bool)
    requires DataInv(env, d, t)
    requires forall r :: r in reports ==> Identified(env, r) && Stable(env.unicode, r.title)
    requires tidy ==> Distinct(Ids(reports)) && |reports| <= MAX_REPORTS
    ensures var t' := t.(unrestored := false, tidy := t.tidy && tidy);
      && DataInv(env, d.(reports := reports, reservation := None), t')
      && ((t'.tidy && d.reservation.Some? ==> d.reservation.value.captured <= Ids(reports)) ==>
            DataInv(env, d.(reports := reports), t'))
  {
    hide Identified, Stable, Covers;
  }

  lemma RestoreKeeps(env: Env, s: Sys, h: History, op: Op)
    requires Up(env, s, h) && op.OpRestore?
    ensures var (s', reply) := Step(env, s, op); Inv(env, s', Record(env, s, h, op, reply))
  {
    hide DataInv, DiskInv, Spaced, CanonicalState, StateHash, ParseState, Identified, Stable, Document;
    var lane := s.lane.value;
    if Restores(env, s, op) {
      var t := Flagged(env, s, h, op);
      var reports := RestoredQueue(env, op).value;
      ParsedStateSound(env, Document(op.snapshot).value);
      RestoredData(env, lane.data, reports, h, RestoresTidily(env, lane.data, op));
      DiskFollows(env, s.disk, h, t);
      CommitKeeps(env, s, lane.(data := lane.data.(reports := reports, reservation := None)), op.io, t, t);
    }
  }

  lemma FenceKeeps(env: Env, s: Sys, h: History, op: Op)
    requires Up(env, s, h) && op.OpFence?
    ensures var (s', reply) := Step(env, s, op); Inv(env, s', Record(env, s, h, op, reply))
  {
    hide DataInv, DiskInv, Spaced, CanonicalState, StateHash;
  }

  lemma InspectKeeps(env: Env, s: Sys, h: History, op: Op)
    requires Up(env, s, h) && op.OpInspectDue? && OpOk(env, op)
    ensures var (s', reply) := Step(env, s, op); Inv(env, s', Record(env, s, h, op, reply))
  {
    hide DataInv, DiskInv, Spaced, CanonicalState;
    InvTicks(env, s, h, Tick(h, op));
  }

  lemma {:induction false} ReloadedIds(rs: seq<Report>)
    ensures Ids(ReloadedAll(rs)) == Ids(rs)
  {
    if rs != [] {
      ReloadedIds(rs[1..]);
      assert ReloadedAll(rs)[1..] == ReloadedAll(rs[1..]);
    }
  }

  lemma ReloadedIsIdentified(env: Env, r: Report)
    requires Identified(env, r)
    ensures Identified(env, Reloaded(r))
  {
    hide Encoded, CommitIdOf, Sanitized, ValidTargets, ExpectedAggregate;
    var s := Reloaded(r);
    assert Content(s) == Content(r) by {
      assert StripMethods(StripMethods(r.targets)) == StripMethods(r.targets);
    }
    EncodedIgnoresMethods(r);
    EncodedIgnoresMethods(s);
    ReportRoundTrip.StripKeepsValid(r.targets);
    StripKeepsAggregate(r.targets, r.itemFailure);
  }

  lemma ReloadedAreSound(env: Env, rs: seq<Report>)
    requires forall r :: r in rs ==> Identified(env, r)
    ensures forall r :: r in ReloadedAll(rs) ==> Identified(env, r)
  {
    hide Identified;
    forall r | r in ReloadedAll(rs)
      ensures Identified(env, r)
    {
      var i :| 0 <= i < |rs| && ReloadedAll(rs)[i] == r;
      assert rs[i] in rs;
      ReloadedIsIdentified(env, rs[i]);
    }
  }

  lemma SoundIsWritable(env: Env, d: LaneData)
    requires Sound(env, d)
    ensures Writable(env, d)
    ensures Steady(env, d) <==> AllStable(env.unicode, d.reports + d.blocked)
  {
    hide Identified, Stable;
    forall i | 0 <= i < |d.reports|
      ensures Identified(env, d.reports[i])
    {
      assert d.reports[i] in d.reports + d.blocked;
    }
    forall i | 0 <= i < |d.blocked|
      ensures Identified(env, d.blocked[i])
    {
      assert d.blocked[i] in d.reports + d.blocked;
    }
    var all := d.reports + d.blocked;
    assert forall i :: 0 <= i < |all| ==> all[i] in all;
  }

  /** Reloading changes no title and no id. */
  lemma ReloadedSteady(env: Env, d: LaneData)
    requires Steady(env, d)
    ensures Steady(env, ReloadedLane(d))
  {
    hide Stable;
    forall r | r in ReloadedLane(d).reports + ReloadedLane(d).blocked
      ensures Stable(env.unicode, r.title)
    {
      if r in ReloadedAll(d.reports) {
        var i :| 0 <= i < |d.reports| && ReloadedAll(d.reports)[i] == r;
        assert d.reports[i] in d.reports + d.blocked;
      } else {
        var i :| 0 <= i < |d.blocked| && ReloadedAll(d.blocked)[i] == r;
        assert d.blocked[i] in d.reports + d.blocked;
      }
    }
  }

  lemma ReloadedData(env: Env, d: LaneData, h: History)
    requires DataInv(env, d, h)
    ensures DataInv(env, ReloadedLane(d), h)
    ensures LoadState(env, CanonicalState(d)) == if Steady(env, d) then Some(ReloadedLane(d)) else None
  {
    hide Identified, Covers, LoadState, CanonicalState, Ids, Steady, ReloadedAll, Writable;
    ReloadedIds(d.reports);
    ReloadedIds(d.blocked);
    ReloadedAreSound(env, d.reports);
    ReloadedAreSound(env, d.blocked);
    if Steady(env, d) {
      ReloadedSteady(env, d);
    }
    SoundIsWritable(env, d);
    LoadWritten(env, d);
  }

  /** Data that has lost everything is fine once the history says so. */
  lemma EmptyData(env: Env, g: u64, disabled: bool, h: History)
    requires h.intact ==> h.owed == {} && h.log == []
    ensures DataInv(env, EMPTY_LANE.(generation := g, disabled := disabled), h)
  {
  }

  /** Starting over is fine once the history says that the old file is given up, or there was none. */
  lemma StartOverKeeps(env: Env, disk: Option<seq<byte>>, d: LaneData, io: DiskOutcome, t: History)
    requires DataInv(env, d, t) && (OnTime(t) ==> Spaced(t.log)) && DiskInv(env, disk, t)
    ensures Inv(env, StartOver(disk, d, io), t)
  {
    hide DataInv, CanonicalState, Spaced;
  }

  /** A start over that does not touch the file: the process stays down. */
  lemma LeftAlone(env: Env, s: Sys, op: Op, d: LaneData)
    requires op.OpOpen? && op.io.FailedBeforeRename?
    ensures StartOver(s.disk, d, op.io) == Sys(None, s.disk)
  {
  }

  /** Opening over an existing file. */
  lemma OpenFileKeeps(env: Env, s: Sys, h: History, op: Op, d: LaneData)
    requires op.OpOpen? && s.lane.None? && s.disk == Some(CanonicalState(d)) && DataInv(env, d, h)
    requires OnTime(h) ==> Spaced(h.log)
    ensures Inv(env, Open(env, s, op.look, op.quarantined, op.io), Flagged(env, s, h, op))
    ensures !GivesUp(env, s, op) ==> Open(env, s, op.look, op.quarantined, op.io).disk == s.disk
    ensures h.stable && op.look.Readable? ==> !GivesUp(env, s, op)
  {
    hide DataInv, CanonicalState, LoadState, Spaced, LoadedGeneration, StartOver;
    var t := Flagged(env, s, h, op);
    ReloadedData(env, d, h);
    SteadyWhenStable(env, d, h);
    DataFollows(env, d, h, t);
    if op.look.Readable? && LoadState(env, s.disk.value).Some? {
      DataFollows(env, ReloadedLane(d), h, t);
    } else {
      var g := if op.look.Readable? then LoadedGeneration(s.disk.value) else 0;
      var disk := if op.quarantined && !op.look.StatFails? then None else s.disk;
      var empty := EMPTY_LANE.(generation := g, disabled := !op.look.StatFails?);
      assert Open(env, s, op.look, op.quarantined, op.io) == StartOver(disk, empty, op.io);
      if GivesUp(env, s, op) {
        EmptyData(env, g, !op.look.StatFails?, t);
        StartOverKeeps(env, disk, empty, op.io, t);
      } else {
        LeftAlone(env, s, op, empty);
      }
    }
  }

  lemma OpenKeeps(env: Env, s: Sys, h: History, op: Op)
    requires Inv(env, s, h) && op.OpOpen?
    ensures var (s', reply) := Step(env, s, op); Inv(env, s', Record(env, s, h, op, reply))
    ensures s.lane.None? && s.disk.Some? && !GivesUp(env, s, op) ==> Step(env, s, op).0.disk == s.disk
    ensures h.stable && op.look.Readable? ==> !GivesUp(env, s, op)
  {
    hide DataInv, CanonicalState, LoadState, Spaced, LoadedGeneration;
    if s.lane.None? {
      if s.disk.None? {
        EmptyData(env, 0, false, h);
      } else {
        var d :| s.disk == Some(CanonicalState(d)) && DataInv(env, d, h);
        OpenFileKeeps(env, s, h, op, d);
      }
    }
  }

  lemma SteadyWhenStable(env: Env, d: LaneData, h: History)
    requires DataInv(env, d, h)
    ensures h.stable ==> Steady(env, d)
  {
  }

  /** One step of any kind. */
  lemma StepKeeps(env: Env, s: Sys, h: History, op: Op)
    requires Inv(env, s, h) && OpOk(env, op)
    ensures var (s', reply) := Step(env, s, op); Inv(env, s', Record(env, s, h, op, reply))
  {
    hide Inv, Step, Record, OpOk;
    match op {
      case OpOpen(_, _, _) => OpenKeeps(env, s, h, op);
      case _ =>
        if op.OpCrash? || s.lane.None? {
          DownKeeps(env, s, h, op);
        } else {
          match op {
            case OpEnqueue(_, _, _) => EnqueueKeeps(env, s, h, op);
            case OpInspectDue(_) => InspectKeeps(env, s, h, op);
            case OpReserve(_, _, _, _) => ReserveKeeps(env, s, h, op);
            case OpResume(_, _) => ResumeKeeps(env, s, h, op);
            case OpAcknowledge(_, _, _) => AcknowledgeKeeps(env, s, h, op);
            case OpFail(_, _, _, _, _) => FailKeeps(env, s, h, op);
            case OpRetryBlocked(_, _) => RetryBlockedKeeps(env, s, h, op);
            case OpReset(_, _) => ResetKeeps(env, s, h, op);
            case OpRestore(_, _, _, _) => RestoreKeeps(env, s, h, op);
            case OpFence => FenceKeeps(env, s, h, op);
          }
        }
    }
  }

  /** A crash, and a call while the process is down. */
  lemma DownKeeps(env: Env, s: Sys, h: History, op: Op)
    requires Inv(env, s, h) && !op.OpOpen? && (op.OpCrash? || s.lane.None?)
    ensures var (s', reply) := Step(env, s, op); Inv(env, s', Record(env, s, h, op, reply))
  {
    hide DataInv, CanonicalState, LoadState, Spaced, DiskInv, Enqueue, Reserve, Resume, Acknowledge, RecordFailure, RetryBlocked,
         ResetDelivery, Restore, Fence, InspectDue, Open, AllTitlesStable;
    if !op.OpCrash? {
      DownTicks(env, s, h, Flagged(env, s, h, op));
    }
  }

  lemma DownTicks(env: Env, s: Sys, h: History, t: History)
    requires Inv(env, s, h) && s.lane.None? && Follows(h, t) && t.log == h.log
    ensures Inv(env, s, t)
  {
    hide DataInv, CanonicalState, Spaced;
    if s.disk.Some? {
      DiskFollows(env, s.disk, h, t);
    }
  }

  /** Every state a run reaches satisfies the invariant. */
  lemma {:induction false} RunKeeps(env: Env, ops: seq<Op>)
    requires RunOk(env, ops)
    ensures var (s, h) := Run(env, ops); Inv(env, s, h)
    decreases |ops|
  {
    hide DataInv, CanonicalState, Spaced, Step, Record, OpOk;
    if ops == [] {
      StartInv(env);
    } else {
      var before := ops[..|ops| - 1];
      RunKeeps(env, before);
      var (s, h) := Run(env, before);
      StepKeeps(env, s, h, ops[|ops| - 1]);
    }
  }

  lemma StartInv(env: Env)
    ensures Inv(env, START.0, START.1)
  {
  }
}
