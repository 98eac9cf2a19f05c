/** Runs of the outbox that show why its promises carry the conditions they do. */
module LaneWitnesses {
  import opened Wrappers
  import opened DisplayText
  import opened ReportTypes
  import opened StateSchema
  import opened ReportCodec
  import opened StateCodec
  import opened PassReports
  import opened LaneSpec
  import opened LaneQueues
  import opened LaneRuns
  import opened LaneTheorems

  const OPEN: Op := OpOpen(Readable, false, Written)

  /** A process that has opened a new file. */
  lemma FreshRun(env: Env)
    ensures Run(env, [OPEN]) == (Sys(Some(Lane(EMPTY_LANE, false, 0)), Some(CanonicalState(EMPTY_LANE))), START.1)
  {
    hide CanonicalState, LoadState;
    assert [OPEN][..0] == [];
    assert Run(env, []) == START;
  }

  /** ... and then enqueued a first batch that fits. */
  lemma EnqueuedRun(env: Env, queued: seq<Report>, now: ClockSample)
    requires ClockOk(now) && 0 < |queued| <= MAX_REPORTS && AllNamed(queued) && Distinct(Ids(queued))
    requires AllTitlesStable(env, queued)
    ensures var d := EMPTY_LANE.(reports := queued, generation := 1);
      Run(env, [OPEN] + [OpEnqueue(queued, now, Written)]) ==
        (Sys(Some(Lane(d, false, 0)), Some(CanonicalState(d))),
         History(IdSet(Ids(queued)), now.epochNs, [], true, true, true, true, true))
  {
    hide CanonicalState, LoadState, StateHash, Ids, PushAll, AllTitlesStable;
    FreshRun(env);
    RunSnoc(env, [OPEN], OpEnqueue(queued, now, Written));
    assert [] + queued == queued;
    PushAllFills([], [], queued);
    assert {} + IdSet(Ids(queued)) == IdSet(Ids(queued));
  }

  lemma AllAreNamed(env: Env, rs: seq<Report>)
    requires forall i :: 0 <= i < |rs| ==> Identified(env, rs[i])
    ensures AllNamed(rs)
  {
  }

  /**
    With 127 reports queued, a batch of 18 new ones is refused for capacity. Its first report fills
    the queue, the generation stays, and the reservation for the view rendered before captures it.
   */
  lemma RefusedEnqueueWidensReservation(env: Env, queued: seq<Report>, batch: seq<Report>, now: ClockSample, payload: seq<byte>)
    returns (s: Sys, view: DeliveryView, s1: Sys, s2: Sys, reply: Reply)
    requires |queued| == 127 && |batch| == 18 && Distinct(Ids(queued + batch))
    requires forall i :: 0 <= i < |queued| ==> Identified(env, queued[i]) && Stable(env.unicode, queued[i].title)
    requires forall i :: 0 <= i < |batch| ==> Identified(env, batch[i])
    requires ClockOk(now) && now.epochNs < U64_LIMIT - ATTEMPT_WINDOW_NS && ValidPayload(payload)
    ensures RunOk(env, [OPEN] + [OpEnqueue(queued, now, Written)]) && s == Run(env, [OPEN] + [OpEnqueue(queued, now, Written)]).0
    ensures Step(env, s, OpInspectDue(now)) == (s, Ready(view)) && multiset(view.reports) == multiset(queued)
    ensures Step(env, s, OpEnqueue(batch, now, Written)) == (s1, Refused(Capacity))
    ensures Step(env, s1, OpReserve(now, view, payload, Written)) == (s2, reply) && reply.Reserved?
    ensures s2.lane.Some? && s2.lane.value.data.reservation.Some? && batch[0].commitId.Some?
    ensures s2.lane.value.data.reservation.value.captured == Ids(queued) + [batch[0].commitId.value]
  {
    hide CanonicalState, StateHash, ReservationId, PayloadHash, Ids, FromReports, Identified, Stable, PushAll, Run, Filled;
    AllAreNamed(env, queued);
    AllAreNamed(env, batch);
    FirstPart(queued, batch);
    EnqueuedRun(env, queued, now);
    IdentifiedBatch(env, queued);
    ViewOfQueued(env, queued);
    PushAllFills(queued, [], batch);
    FilledByOne(queued, batch);
    IdsConcat(queued, [batch[0]]);
    OneId(batch[0]);
    s := Run(env, [OPEN] + [OpEnqueue(queued, now, Written)]).0;
    view := DeliveryView(1, NO_OVERFLOW, FromReports(queued).0);
    s1 := Step(env, s, OpEnqueue(batch, now, Written)).0;
    var (s', answer) := Step(env, s1, OpReserve(now, view, payload, Written));
    s2, reply := s', answer;
  }

  lemma FilledByOne(queued: seq<Report>, batch: seq<Report>)
    requires |queued| == 127 && |batch| == 18
    ensures Filled(queued, [], batch) == Queues(queued + [batch[0]], batch[1..17], Some(Capacity))
  {
    assert batch[..1] == [batch[0]] && [] + batch[1..17] == batch[1..17];
  }

  lemma OneId(r: Report)
    requires r.commitId.Some?
    ensures Ids([r]) == [r.commitId.value]
  {
    assert [r][1..] == [];
  }

  lemma FirstPart(a: seq<Report>, b: seq<Report>)
    requires AllNamed(a) && AllNamed(b) && Distinct(Ids(a + b))
    ensures Distinct(Ids(a))
  {
    hide Ids;
    IdsConcat(a, b);
    var i, j := Ids(a), Ids(a + b);
    assert forall k :: 0 <= k < |i| ==> i[k] == j[k];
  }

  lemma IdentifiedBatch(env: Env, rs: seq<Report>)
    requires forall i :: 0 <= i < |rs| ==> Identified(env, rs[i])
    ensures BatchOk(env, rs)
  {
    hide CommitIdOf, Encoded;
    forall r | r in rs
      ensures Identified(env, r)
    {
      var i :| 0 <= i < |rs| && rs[i] == r;
    }
  }

  lemma ViewOfQueued(env: Env, rs: seq<Report>)
    requires |rs| <= MAX_REPORTS && forall i :: 0 <= i < |rs| ==> Identified(env, rs[i])
    ensures multiset(FromReports(rs).0) == multiset(rs)
  {
    hide Identified, FromReports;
    var d := EMPTY_LANE.(reports := rs);
    forall r | r in d.reports + d.blocked
      ensures Identified(env, r)
    {
      var i :| 0 <= i < |rs| && rs[i] == r;
    }
    ViewShowsQueue(env, d);
  }

  /* ---- A file that could not be read ---- */

  /** An accepted report with a stable title is gone after a restart whose read of the intact file fails. */
  lemma FailedReadLosesReport(env: Env, r: Report, now: ClockSample) returns (ops: seq<Op>)
    requires Identified(env, r) && Stable(env.unicode, r.title) && ClockOk(now)
    ensures RunOk(env, ops) && ops == [OPEN, OpEnqueue([r], now, Written), OpCrash, OpOpen(ReadFails, true, Written)]
    ensures var (s, h) := Run(env, ops);
      && r.commitId.Some? && r.commitId.value in h.owed && h.stable && h.unrestored
      && s.lane.Some? && Emptied(s.lane.value.data) && !Listed(env, s.disk, r.commitId.value)
  {
    hide CanonicalState, StateHash, LoadState, Identified, Stable, Run, RunOk, Listed;
    var enqueue, lost := OpEnqueue([r], now, Written), OpOpen(ReadFails, true, Written);
    IdentifiedIsNamed(env, r);
    OneId(r);
    assert BatchOk(env, [r]) by {
      IdentifiedBatch(env, [r]);
    }
    EnqueuedRun(env, [r], now);
    assert r.commitId.value in Ids([r]);
    FreshRunIsOk(env);
    ops := [OPEN] + [enqueue];
    RunIsOk(env, [OPEN], enqueue);
    RunSnoc(env, ops, OpCrash);
    RunIsOk(env, ops, OpCrash);
    ops := ops + [OpCrash];
    LostExactlyWhenGivenUp(env, ops, lost, r.commitId.value);
    RunSnoc(env, ops, lost);
    RunIsOk(env, ops, lost);
    ops := ops + [lost];
  }

  lemma FreshRunIsOk(env: Env)
    ensures RunOk(env, [OPEN])
  {
  }

  /* ---- A given-up file and its deadline ---- */

  lemma {:induction false} RunIsOk(env: Env, ops: seq<Op>, op: Op)
    requires RunOk(env, ops) && OpOk(env, op)
    ensures RunOk(env, ops + [op])
  {
    hide OpOk;
    var all := ops + [op];
    forall i | 0 <= i < |all|
      ensures OpOk(env, all[i])
    {
      assert i < |ops| ==> all[i] == ops[i];
    }
  }

  /** From a fresh or reopened lane, one enqueue and one reserve hand out an attempt. */
  lemma Attempted(env: Env, ops: seq<Op>, g: u64, r: Report, now: ClockSample, payload: seq<byte>) returns (next: seq<Op>)
    requires RunOk(env, ops) && Run(env, ops).0.lane == Some(Lane(EMPTY_LANE.(generation := g), false, 0))
    requires g < U64_LIMIT - 2 && Identified(env, r) && ValidPayload(payload)
    requires ClockOk(now) && Run(env, ops).1.clock <= now.epochNs < U64_LIMIT - ATTEMPT_WINDOW_NS
    ensures RunOk(env, next) && Run(env, next).0.disk.Some?
    ensures var (h, h') := (Run(env, ops).1, Run(env, next).1);
      h'.log == h.log + [Attempt(now.epochNs)] && h'.ordered == h.ordered && h'.clock == now.epochNs
  {
    hide CanonicalState, StateHash, ReservationId, PayloadHash, Identified, Run, RunOk, ValidPayload, AllTitlesStable, Constructed;
    var enqueue := OpEnqueue([r], now, Written);
    var reserve := OpReserve(now, DeliveryView(g + 1, NO_OVERFLOW, [r]), payload, Written);
    IdentifiedIsNamed(env, r);
    assert BatchOk(env, [r]) by {
      IdentifiedBatch(env, [r]);
    }
    PushAllOne(r);
    next := ops + [enqueue];
    RunIsOk(env, ops, enqueue);
    RunSnoc(env, ops, enqueue);
    RunIsOk(env, next, reserve);
    RunSnoc(env, next, reserve);
    next := next + [reserve];
  }

  lemma PushAllOne(r: Report)
    requires r.commitId.Some?
    ensures PushAll([], [], [r]) == Queues([r], [], None)
  {
    assert [r][1..] == [] && [] + [r] == [r];
  }

  /** A crash, an open that cannot read the file, and a reset leave an enabled, empty lane. */
  lemma Reopened(env: Env, ops: seq<Op>) returns (next: seq<Op>)
    requires RunOk(env, ops) && Run(env, ops).0.disk.Some?
    ensures RunOk(env, next) && Run(env, next).0.lane == Some(Lane(EMPTY_LANE.(generation := 1), false, 0))
    ensures var (h, h') := (Run(env, ops).1, Run(env, next).1);
      h'.log == h.log && h'.ordered == h.ordered && h'.clock == h.clock && !h'.intact
  {
    hide CanonicalState, StateHash, LoadState, LoadedGeneration, Run, RunOk;
    var lost := OpOpen(ReadFails, true, Written);
    var reset := OpReset(StateHash(env, EMPTY_LANE.(disabled := true)), Written);
    next := ops + [OpCrash];
    RunIsOk(env, ops, OpCrash);
    RunSnoc(env, ops, OpCrash);
    RunIsOk(env, next, lost);
    RunSnoc(env, next, lost);
    next := next + [lost];
    RunIsOk(env, next, reset);
    RunSnoc(env, next, reset);
    next := next + [reset];
  }

  /**
    A process hands out an attempt, dies, and cannot read its file when it is back. After a reset
    and an enqueue it hands out the next attempt at the very same time, though the clock never ran
    back: the deadline went with the file.
   */
  lemma GivenUpFileForgetsDeadline(env: Env, r: Report, now: ClockSample, payload: seq<byte>) returns (ops: seq<Op>)
    requires Identified(env, r) && ClockOk(now) && now.epochNs < U64_LIMIT - ATTEMPT_WINDOW_NS && ValidPayload(payload)
    ensures RunOk(env, ops) && Run(env, ops).1.ordered
    ensures Run(env, ops).1.log == [Attempt(now.epochNs), Attempt(now.epochNs)]
  {
    hide CanonicalState, Identified, Run, ValidPayload;
    FreshRun(env);
    ops := Attempted(env, [OPEN], 0, r, now, payload);
    ops := Reopened(env, ops);
    ops := Attempted(env, ops, 1, r, now, payload);
  }
}
