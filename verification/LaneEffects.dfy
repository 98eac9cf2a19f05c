/**
  What each operation of the outbox does, said of its arguments and of the fields of the lane: when it
  goes through, what it answers, and the whole new state in memory and on disk.
 */
module LaneEffects {
  import opened Wrappers
  import opened ReportTypes
  import opened StateSchema
  import opened StateCodec
  import opened PassReports
  import opened LaneSpec
  import opened LaneTheorems
  import opened Json
  import opened JsonWriter
  import Utf8

  const LAST: int := 0xFFFF_FFFF_FFFF_FFFF
  const SECOND: int := 1_000_000_000

  /* ---- The three hashes ---- */

  /** Of the bytes of the state file. */
  function ReceiptFor(env: Env, d: LaneData): Digest {
    env.sha(Utf8.Encode("asrsub-state-v1\0") + CanonicalState(d))
  }

  /** Of a payload. */
  function HashFor(env: Env, payload: seq<byte>): Digest {
    env.sha(Utf8.Encode("asrsub-payload-v1\0") + payload)
  }

  /** Of a generation, in eight bytes, and a payload. */
  function IdFor(env: Env, generation: u64, payload: seq<byte>): Digest {
    env.sha(Utf8.Encode("asrsub-reservation-v1\0") + LittleEndian(generation, 8) + payload)
  }

  lemma HashesAre(env: Env, d: LaneData, payload: seq<byte>)
    ensures StateHash(env, d) == ReceiptFor(env, d) && PayloadHash(env, payload) == HashFor(env, payload)
    ensures ReservationId(env, d.generation, payload) == IdFor(env, d.generation, payload)
  {
    hide Utf8.Encode, CanonicalState;
  }

  /* ---- Saving ---- */

  /**
    `d` replaces the data of the lane. Unless the generation is the last one it is counted up and
    the file becomes the new bytes, if the write got as far as the rename; the receipt is for
    exactly those bytes.
   */
  predicate Saved(env: Env, disk: Option<seq<byte>>, lane: Lane, d: LaneData, io: DiskOutcome, after: Sys, receipt: Option<(u64, Digest)>) {
    if d.generation == LAST then after == Sys(Some(lane.(data := d)), disk) && receipt == None
    else
      var next := d.(generation := d.generation + 1);
      && after == Sys(Some(lane.(data := next)), if io == FailedBeforeRename then disk else Some(CanonicalState(next)))
      && receipt == if io == Written then Some((next.generation, ReceiptFor(env, next)))
                    else None
  }

  /** What is answered when the save itself fails. */
  function SaveError(d: LaneData): Reply {
    Refused(if d.generation == LAST then Capacity else Io)
  }

  lemma CommitSaves(env: Env, disk: Option<seq<byte>>, lane: Lane, d: LaneData, io: DiskOutcome)
    ensures var (after, reply) := Commit(env, disk, lane.(data := d), io);
      && Saved(env, disk, lane, d, io, after, if reply.Committed? then Some((reply.generation, reply.hash)) else None)
      && (reply.Committed? <==> d.generation < LAST && io == Written)
      && (reply.Committed? || reply == SaveError(d))
  {
    hide Utf8.Encode, CanonicalState;
  }

  /** A call reaches the operation of a lane that is up. */
  lemma Calls(env: Env, s: Sys, op: Op)
    requires s.lane.Some?
    ensures var lane := s.lane.value;
      match op
      case OpReserve(now, view, payload, io) => Step(env, s, op) == Reserve(env, s, lane, now, view, payload, io)
      case OpResume(now, io) => Step(env, s, op) == Resume(env, s, lane, now, io)
      case OpAcknowledge(id, hash, io) => Step(env, s, op) == Acknowledge(env, s, lane, id, hash, io)
      case OpEnqueue(batch, now, io) => Step(env, s, op) == Enqueue(env, s, lane, batch, now, io)
      case OpRetryBlocked(now, io) => Step(env, s, op) == RetryBlocked(env, s, lane, now, io)
      case OpReset(expected, io) => Step(env, s, op) == ResetDelivery(env, s, lane, expected, io)
      case OpRestore(snapshot, expected, generation, io) =>
        Step(env, s, op) == Restore(env, s, lane, snapshot, expected, generation, io)
      case OpFence => Step(env, s, op) == Fence(env, s, lane)
      case OpFail(id, cause, now, retryAfter, io) => Step(env, s, op) == RecordFailure(env, s, lane, id, cause, now, retryAfter, io)
      case _ => true
  {
    hide Reserve, Resume, Acknowledge, RecordFailure, Open, Enqueue, InspectDue, RetryBlocked, ResetDelivery, Restore, Fence;
  }

  /** The clock is synchronized and knows its boot. */
  predicate Trusted(now: ClockSample) {
    now.synchronized && now.bootId != ""
  }

  /** No deadline, or one that has come. */
  predicate Due(d: LaneData, now: ClockSample) {
    d.nextAttemptNs == None || d.nextAttemptNs.value <= now.epochNs
  }

  /* ---- Attempts ---- */

  /** A view is handed out exactly on an open, enabled lane with a trusted clock, reports, no reservation, and a deadline that has come. */
  lemma InspectExactly(env: Env, s: Sys, now: ClockSample)
    requires s.lane.Some?
    ensures var lane := s.lane.value;
      var d := lane.data;
      var (after, reply) := Step(env, s, OpInspectDue(now));
      && after == s
      && (reply.Ready? <==> !lane.fenced && !d.disabled && Trusted(now) && d.reports != [] && d.reservation == None && Due(d, now))
      && (reply.Ready? ==> reply.view.stateGeneration == d.generation && reply.view.reports == FromReports(d.reports).0
                           && reply.view.overflow == OverflowSummary(0, 0, 0, 0, 0, 0))
      && (!reply.Ready? ==>
            reply == if lane.fenced then Refused(NotificationStateError.Fenced)
                     else if d.disabled then Refused(Disabled)
                     else if !Trusted(now) then Refused(Clock)
                     else Idle)
  {
    hide FromReports;
  }

  /**
    A rendered view is reserved exactly when the lane is open and holds no reservation, the clock is
    trusted, the generation is still the view's, the deadline has come, and neither a sum nor the
    save fails. The attempt then counts from now and the next one is due 900 seconds later.
   */
  lemma ReserveExactly(env: Env, s: Sys, now: ClockSample, view: DeliveryView, payload: seq<byte>, io: DiskOutcome)
    requires s.lane.Some?
    ensures var lane := s.lane.value;
      var d := lane.data;
      var (after, reply) := Step(env, s, OpReserve(now, view, payload, io));
      var open := !lane.fenced && Trusted(now) && d.reservation == None && view.stateGeneration == d.generation
                  && Due(d, now) && now.epochNs + 900 * SECOND <= LAST;
      && (reply.Reserved? <==> open && d.generation < LAST && io == Written)
      && (!open ==> after == s && reply == Refused(if lane.fenced then NotificationStateError.Fenced
                                                  else if Trusted(now) && (d.reservation != None || view.stateGeneration != d.generation)
                                                  then StaleView else Clock))
      && (open ==>
            var r := Reservation(IdFor(env, d.generation, payload), payload, Ids(d.reports), now.epochNs, now.monotonicNs, now.epochNs + 900 * SECOND);
            var reserved := d.(reservation := Some(r), lastAttemptNs := Some(now.epochNs),
                               nextAttemptNs := Some(now.epochNs + 900 * SECOND));
            && Saved(env, s.disk, lane, reserved, io, after, if reply.Reserved? then Some((reply.generation, reply.hash)) else None)
            && (if reply.Reserved?
                then reply.id == r.id && reply.payloadHash == HashFor(env, payload)
                else reply == SaveError(d)))
  {
    hide Utf8.Encode, CanonicalState, Commit, Ids, LittleEndian, Saved, PayloadHash, ReservationId, HashFor, IdFor, Step;
    var lane := s.lane.value;
    var d := lane.data;
    Calls(env, s, OpReserve(now, view, payload, io));
    HashesAre(env, d, payload);
    if now.epochNs + 900 * SECOND <= LAST {
      var id := IdFor(env, d.generation, payload);
      var next: u64 := now.epochNs + 900 * SECOND;
      var r := Reservation(id, payload, Ids(d.reports), now.epochNs, now.monotonicNs, next);
      CommitSaves(env, s.disk, lane, d.(reservation := Some(r), lastAttemptNs := Some(now.epochNs), nextAttemptNs := Some(next)), io);
    }
  }

  /**
    A live reservation is handed out again exactly on an open lane with a trusted clock once its deadline has
    come; it keeps its id, payload and captured ids. Where the sum overflows only its start moves.
   */
  lemma ResumeExactly(env: Env, s: Sys, now: ClockSample, io: DiskOutcome)
    requires s.lane.Some?
    ensures var lane := s.lane.value;
      var d := lane.data;
      var (after, reply) := Step(env, s, OpResume(now, io));
      var open := !lane.fenced && Trusted(now) && d.reservation != None && Due(d, now);
      && (reply.Resumed? <==> open && now.epochNs + 900 * SECOND <= LAST && d.generation < LAST && io == Written)
      && (!open ==> after == s && reply == if lane.fenced then Refused(NotificationStateError.Fenced)
                                           else if !Trusted(now) then Refused(Clock) else NothingToResume)
      && (open ==>
            var r := d.reservation.value.(startedEpochNs := now.epochNs, startedMonotonicNs := now.monotonicNs);
            if now.epochNs + 900 * SECOND > LAST
            then after == s.(lane := Some(lane.(data := d.(reservation := Some(r))))) && reply == Refused(Clock)
            else
              var next: u64 := now.epochNs + 900 * SECOND;
              var resumed := d.(reservation := Some(r.(reservedNextNs := next)), lastAttemptNs := Some(now.epochNs),
                                nextAttemptNs := Some(next));
              && Saved(env, s.disk, lane, resumed, io, after, if reply.Resumed? then Some((reply.generation, reply.hash)) else None)
              && (if reply.Resumed? then reply.id == r.id && reply.payload == r.payload else reply == SaveError(d)))
  {
    hide Utf8.Encode, CanonicalState, Commit, Saved, Step;
    var lane := s.lane.value;
    var d := lane.data;
    Calls(env, s, OpResume(now, io));
    if d.reservation.Some? && now.epochNs + 900 * SECOND <= LAST && !lane.fenced && Trusted(now) && Due(d, now) {
      var next: u64 := now.epochNs + 900 * SECOND;
      var r := d.reservation.value.(startedEpochNs := now.epochNs, startedMonotonicNs := now.monotonicNs);
      var resumed := d.(reservation := Some(r.(reservedNextNs := next)), lastAttemptNs := Some(now.epochNs), nextAttemptNs := Some(next));
      CommitSaves(env, s.disk, lane, resumed, io);
    }
  }

  /* ---- Outcomes of an attempt ---- */

  /**
    An acknowledgement is taken exactly on an open lane whose reservation has this id and a payload of
    this hash. It drops the reservation, the reports it captured, and the backoff.
   */
  lemma AcknowledgeExactly(env: Env, s: Sys, id: Digest, hash: Digest, io: DiskOutcome)
    requires s.lane.Some?
    ensures var lane := s.lane.value;
      var d := lane.data;
      var (after, reply) := Step(env, s, OpAcknowledge(id, hash, io));
      var open := !lane.fenced && d.reservation != None && d.reservation.value.id == id
                  && HashFor(env, d.reservation.value.payload) == hash;
      && (reply.Committed? <==> open && d.generation < LAST && io == Written)
      && (!open ==> after == s && reply == Refused(if lane.fenced then NotificationStateError.Fenced else InvalidInput))
      && (open ==>
            var left := d.(reservation := None, reports := Uncaptured(d.reports, d.reservation.value.captured), backoffSeconds := 0);
            && Saved(env, s.disk, lane, left, io, after, if reply.Committed? then Some((reply.generation, reply.hash)) else None)
            && (reply.Committed? || reply == SaveError(d)))
  {
    hide Utf8.Encode, CanonicalState, Commit, Uncaptured, Saved, PayloadHash, HashFor, Step;
    var lane := s.lane.value;
    var d := lane.data;
    Calls(env, s, OpAcknowledge(id, hash, io));
    if d.reservation.Some? {
      HashesAre(env, d, d.reservation.value.payload);
      var left := d.(reservation := None, reports := Uncaptured(d.reports, d.reservation.value.captured), backoffSeconds := 0);
      CommitSaves(env, s.disk, lane, left, io);
    }
  }

  /** Seconds to back off after one more failure. */
  function Doubled(previous: u64): int {
    if previous == 0 then 900 else if 2 * previous < 86_400 then 2 * previous else 86_400
  }

  /** The latest of: a window from now, the backoff from now, and what the server asked for from now. */
  function RetryTime(now: u64, backoff: int, retryAfter: Option<u64>): int {
    var floor, retry := now + 900 * SECOND, now + backoff * SECOND;
    var header := if retryAfter.Some? then now + retryAfter.value * SECOND else now;
    if header >= floor && header >= retry then header else if retry >= floor then retry else floor
  }

  /** Every sum on the way stays within 64 bits. */
  predicate RetryFits(now: u64, previous: u64, retryAfter: Option<u64>) {
    && 2 * previous <= LAST && RetryTime(now, Doubled(previous), retryAfter) <= LAST
  }

  /**
    A failure is recorded exactly on an open lane whose reservation has this id, with a trusted clock. A permanent
    response, a disabled fault and a corrupt fault disable the lane and move neither backoff nor deadline; every
    other cause keeps it as it is and sets both. Where a sum overflows only the reservation goes.
   */
  lemma FailureExactly(env: Env, s: Sys, id: Digest, cause: SafeDeliveryError, now: ClockSample, retryAfter: Option<u64>, io: DiskOutcome)
    requires s.lane.Some?
    ensures var lane := s.lane.value;
      var d := lane.data;
      var (after, reply) := Step(env, s, OpFail(id, cause, now, retryAfter, io));
      var open := !lane.fenced && d.reservation != None && d.reservation.value.id == id && Trusted(now);
      && (!open ==> after == s && reply == Refused(if lane.fenced then NotificationStateError.Fenced
                                                  else if d.reservation == None || d.reservation.value.id != id then InvalidInput else Clock))
      && (open ==>
            var released := d.(reservation := None);
            if cause !in {PermanentResponse, DisabledFault, CorruptFault} && !RetryFits(now.epochNs, d.backoffSeconds, retryAfter)
            then after == s.(lane := Some(lane.(data := released))) && reply == Refused(Clock)
            else
              var failed :=
                if cause in {PermanentResponse, DisabledFault, CorruptFault} then released.(disabled := true)
                else released.(backoffSeconds := Doubled(d.backoffSeconds), lastAttemptNs := Some(now.epochNs),
                               nextAttemptNs := Some(RetryTime(now.epochNs, Doubled(d.backoffSeconds), retryAfter)));
              && Saved(env, s.disk, lane, failed, io, after, if reply.Committed? then Some((reply.generation, reply.hash)) else None)
              && (reply.Committed? || reply == SaveError(d)))
  {
    hide Utf8.Encode, CanonicalState, Commit, Saved, NextBackoff, NextDeadline, RetryFits, RetryTime, Doubled, Permanent, Step;
    var lane := s.lane.value;
    var d := lane.data;
    Calls(env, s, OpFail(id, cause, now, retryAfter, io));
    var released := d.(reservation := None);
    CommitSaves(env, s.disk, lane, released.(disabled := true), io);
    RetryArithmetic(now.epochNs, d.backoffSeconds, retryAfter);
    if RetryFits(now.epochNs, d.backoffSeconds, retryAfter) {
      var planned := released.(backoffSeconds := Doubled(d.backoffSeconds), lastAttemptNs := Some(now.epochNs),
                               nextAttemptNs := Some(RetryTime(now.epochNs, Doubled(d.backoffSeconds), retryAfter)));
      CommitSaves(env, s.disk, lane, planned, io);
    }
    PermanentCauses(cause);
  }

  lemma PermanentCauses(cause: SafeDeliveryError)
    ensures Permanent(cause) <==> cause in {PermanentResponse, DisabledFault, CorruptFault}
  {
  }

  /** The checked sums of the program are these. */
  lemma RetryArithmetic(now: u64, previous: u64, retryAfter: Option<u64>)
    ensures RetryFits(now, previous, retryAfter) <==>
      NextBackoff(previous).Some? && NextDeadline(now, now, NextBackoff(previous).value, retryAfter).Some?
    ensures RetryFits(now, previous, retryAfter) ==>
      NextBackoff(previous) == Some(Doubled(previous))
      && NextDeadline(now, now, NextBackoff(previous).value, retryAfter) == Some(RetryTime(now, Doubled(previous), retryAfter))
  {
  }

  /* ---- The pair handed out is the pair taken back ---- */

  /**
    After a reservation, and after a resumption of it, an acknowledgement acts if it names the id and the
    payload hash that were handed out, and is refused for any other pair.
   */
  lemma HandedOutPairIsTaken(env: Env, s: Sys, now: ClockSample, view: DeliveryView, payload: seq<byte>, id: Digest, hash: Digest)
    requires s.lane.Some?
    ensures var (reserved, reply) := Step(env, s, OpReserve(now, view, payload, Written));
      reply.Reserved? && reply.generation < LAST ==>
        var (after, answer) := Step(env, reserved, OpAcknowledge(id, hash, Written));
        && (answer.Committed? <==> id == reply.id && hash == reply.payloadHash)
        && (!answer.Committed? ==> after == reserved && answer == Refused(InvalidInput))
        && (answer.Committed? ==> after.lane.Some? && after.lane.value.data.reservation == None
                                  && after.lane.value.data.reports == Uncaptured(s.lane.value.data.reports, Ids(s.lane.value.data.reports)))
  {
    hide Utf8.Encode, CanonicalState, Step, Uncaptured, Ids, LittleEndian;
    ReserveExactly(env, s, now, view, payload, Written);
    var reserved := Step(env, s, OpReserve(now, view, payload, Written)).0;
    if reserved.lane.Some? {
      AcknowledgeExactly(env, reserved, id, hash, Written);
    }
  }

  lemma ResumedPairIsTaken(env: Env, s: Sys, now: ClockSample, id: Digest, hash: Digest)
    requires s.lane.Some?
    ensures var (resumed, reply) := Step(env, s, OpResume(now, Written));
      reply.Resumed? && reply.generation < LAST ==>
        var answer := Step(env, resumed, OpAcknowledge(id, hash, Written)).1;
        answer.Committed? <==> id == reply.id && hash == HashFor(env, reply.payload)
  {
    hide Utf8.Encode, CanonicalState, Step, Uncaptured;
    ResumeExactly(env, s, now, Written);
    var resumed := Step(env, s, OpResume(now, Written)).0;
    if resumed.lane.Some? {
      AcknowledgeExactly(env, resumed, id, hash, Written);
    }
  }

  /** Eight bytes, lowest first, determine the number. */
  lemma {:induction false} LittleEndianInjective(x: nat, y: nat, n: nat)
    requires LittleEndian(x, n) == LittleEndian(y, n) && x < Power256(n) && y < Power256(n)
    ensures x == y
  {
    if n > 0 {
      var a, b := LittleEndian(x, n), LittleEndian(y, n);
      assert a[0] == x % 256 && b[0] == y % 256;
      assert a[1..] == LittleEndian(x / 256, n - 1) && b[1..] == LittleEndian(y / 256, n - 1);
      LittleEndianInjective(x / 256, y / 256, n - 1);
    }
  }

  function Power256(n: nat): nat {
    if n == 0 then 1 else 256 * Power256(n - 1)
  }

  lemma LittleEndianLength(x: nat, n: nat)
    ensures |LittleEndian(x, n)| == n
  {
  }

  lemma SameParts(tag: seq<byte>, a: seq<byte>, p: seq<byte>, b: seq<byte>, q: seq<byte>)
    requires |a| == |b| && tag + a + p == tag + b + q
    ensures a == b && p == q
  {
    var x, y := tag + a + p, tag + b + q;
    assert x[|tag|..|tag| + |a|] == a && y[|tag|..|tag| + |b|] == b;
    assert x[|tag| + |a|..] == p && y[|tag| + |b|..] == q;
  }

  /** Two reservations have the same id only for the same generation and payload, unless the hash collides. */
  lemma ReservationIdIdentifies(env: Env, g: u64, payload: seq<byte>, h: u64, other: seq<byte>)
    requires IdFor(env, g, payload) == IdFor(env, h, other)
    ensures (g == h && payload == other) || exists x, y :: x != y && env.sha(x) == env.sha(y)
  {
    hide LittleEndian, Utf8.Encode;
    var tag := Utf8.Encode("asrsub-reservation-v1\0");
    var x, y := tag + LittleEndian(g, 8) + payload, tag + LittleEndian(h, 8) + other;
    LittleEndianLength(g, 8);
    LittleEndianLength(h, 8);
    if x == y {
      SameParts(tag, LittleEndian(g, 8), payload, LittleEndian(h, 8), other);
      assert Power256(8) == 0x1_0000_0000_0000_0000;
      LittleEndianInjective(g, h, 8);
    }
  }

  /* ---- Queueing ---- */

  /**
    One report: without an id it is an error; with an id the queue has it is skipped; otherwise it takes one of
    128 places in the queue, else one of 16 among the blocked, else it is an error. Only the queue is looked
    through, so a blocked report can be blocked again.
   */
  lemma PushOneExactly(reports: seq<Report>, blocked: seq<Report>, r: Report)
    ensures PushAll(reports, blocked, [r]) ==
      if r.commitId == None then Queues(reports, blocked, Some(InvalidInput))
      else if exists i :: 0 <= i < |reports| && reports[i].commitId == r.commitId then Queues(reports, blocked, None)
      else if |reports| < 128 then Queues(reports + [r], blocked, None)
      else if |blocked| < 16 then Queues(reports, blocked + [r], None)
      else Queues(reports, blocked, Some(Capacity))
  {
    assert [r][1..] == [];
  }

  /** A batch is its reports one after another, up to the first error. */
  lemma {:induction false} PushAllConcat(reports: seq<Report>, blocked: seq<Report>, a: seq<Report>, b: seq<Report>)
    ensures var q := PushAll(reports, blocked, a);
      PushAll(reports, blocked, a + b) == if q.error != None then q else PushAll(q.reports, q.blocked, b)
    decreases |a|
  {
    if a == [] {
      assert a + b == b;
    } else {
      assert (a + b)[0] == a[0] && (a + b)[1..] == a[1..] + b;
      if a[0].commitId.Some? {
        if HasId(reports, a[0].commitId) {
          PushAllConcat(reports, blocked, a[1..], b);
        } else if |reports| < MAX_REPORTS {
          PushAllConcat(reports + [a[0]], blocked, a[1..], b);
        } else if |blocked| < MAX_BLOCKED {
          PushAllConcat(reports, blocked + [a[0]], a[1..], b);
        }
      }
    }
  }

  /** What was pushed before an error stays in memory and is not saved; a batch without error is saved; an empty one changes nothing. */
  lemma EnqueueExactly(env: Env, s: Sys, batch: seq<Report>, now: ClockSample, io: DiskOutcome)
    requires s.lane.Some?
    ensures var lane := s.lane.value;
      var d, q := lane.data, PushAll(lane.data.reports, lane.data.blocked, batch);
      var (after, reply) := Step(env, s, OpEnqueue(batch, now, io));
      var pushed := d.(reports := q.reports, blocked := q.blocked);
      if lane.fenced || !Trusted(now)
      then after == s && reply == Refused(if lane.fenced then NotificationStateError.Fenced else Clock)
      else if batch == [] then after == s && reply == Committed(d.generation, ReceiptFor(env, d))
      else if q.error != None then after == s.(lane := Some(lane.(data := pushed))) && reply == Refused(q.error.value)
      else
        && Saved(env, s.disk, lane, pushed, io, after, if reply.Committed? then Some((reply.generation, reply.hash)) else None)
        && (reply.Committed? <==> d.generation < LAST && io == Written) && (reply.Committed? || reply == SaveError(d))
  {
    hide Utf8.Encode, CanonicalState, Commit, Saved, PushAll, Step, StateHash, ReceiptFor;
    var lane := s.lane.value;
    var q := PushAll(lane.data.reports, lane.data.blocked, batch);
    Calls(env, s, OpEnqueue(batch, now, io));
    HashesAre(env, lane.data, []);
    CommitSaves(env, s.disk, lane, lane.data.(reports := q.reports, blocked := q.blocked), io);
  }

  /** Whether the queue lists the id of a report. */
  predicate Lists(reports: seq<Report>, r: Report) {
    exists i :: 0 <= i < |reports| && reports[i].commitId == r.commitId
  }

  /**
    Promotion takes the oldest blocked reports, one by one, as long as the queue has fewer than 128: one whose
    id the queue lists is dropped, any other is appended and counted.
   */
  lemma {:induction false} PromoteExactly(reports: seq<Report>, blocked: seq<Report>, count: nat) returns (k: nat)
    ensures var p := PromoteAll(reports, blocked, count);
      && k <= |blocked| && p.blocked == blocked[k..] && (k == |blocked| || |p.reports| >= 128)
      && p.count == count + |p.reports| - |reports| && reports <= p.reports
      && (p.reports == reports || |p.reports| <= 128)
      && (forall i :: 0 <= i < k ==> Lists(p.reports, blocked[i]))
      && (forall i :: |reports| <= i < |p.reports| ==> p.reports[i] in blocked[..k] && !Lists(p.reports[..i], p.reports[i]))
    decreases |blocked|
  {
    if |reports| >= MAX_REPORTS || blocked == [] {
      k := 0;
    } else {
      var b, rest := blocked[0], blocked[1..];
      if HasId(reports, b.commitId) {
        k := PromoteExactly(reports, rest, count);
        k := k + 1;
      } else {
        k := PromoteExactly(reports + [b], rest, count + 1);
        k := k + 1;
        assert PromoteAll(reports, blocked, count).reports[|reports|] == b;
      }
    }
  }

  /** Promotion is saved exactly when it moved something; what it only dropped is dropped in memory. */
  lemma RetryExactly(env: Env, s: Sys, now: ClockSample, io: DiskOutcome)
    requires s.lane.Some?
    ensures var lane := s.lane.value;
      var d, p := lane.data, PromoteAll(lane.data.reports, lane.data.blocked, 0);
      var (after, reply) := Step(env, s, OpRetryBlocked(now, io));
      var moved := d.(reports := p.reports, blocked := p.blocked);
      if lane.fenced || !Trusted(now)
      then after == s && reply == Refused(if lane.fenced then NotificationStateError.Fenced else Clock)
      else if p.count == 0
      then after == s.(lane := Some(lane.(data := moved))) && reply == Promoted(d.generation, ReceiptFor(env, moved), 0)
      else
        && Saved(env, s.disk, lane, moved, io, after, if reply.Promoted? then Some((reply.generation, reply.hash)) else None)
        && (reply.Promoted? <==> d.generation < LAST && io == Written)
        && (if reply.Promoted? then reply.count == p.count else reply == SaveError(d))
  {
    hide Utf8.Encode, CanonicalState, Commit, Saved, PromoteAll, Step, StateHash, ReceiptFor;
    var lane := s.lane.value;
    var p := PromoteAll(lane.data.reports, lane.data.blocked, 0);
    var moved := lane.data.(reports := p.reports, blocked := p.blocked);
    Calls(env, s, OpRetryBlocked(now, io));
    HashesAre(env, moved, []);
    CommitSaves(env, s.disk, lane, moved, io);
  }

  /* ---- Administration ---- */

  /** A reset enables the lane exactly when it names the hash of the state as it is, fenced or not. */
  lemma ResetExactly(env: Env, s: Sys, expected: Digest, io: DiskOutcome)
    requires s.lane.Some?
    ensures var lane := s.lane.value;
      var (after, reply) := Step(env, s, OpReset(expected, io));
      if expected != ReceiptFor(env, lane.data) then after == s && reply == Refused(InvalidInput)
      else
        && Saved(env, s.disk, lane, lane.data.(disabled := false), io, after,
                 if reply.Committed? then Some((reply.generation, reply.hash)) else None)
        && (reply.Committed? <==> lane.data.generation < LAST && io == Written) && (reply.Committed? || reply == SaveError(lane.data))
  {
    hide Utf8.Encode, CanonicalState, Commit, Saved, Step, StateHash, ReceiptFor;
    Calls(env, s, OpReset(expected, io));
    HashesAre(env, s.lane.value.data, []);
    CommitSaves(env, s.disk, s.lane.value, s.lane.value.data.(disabled := false), io);
  }

  /** The queue a snapshot holds, if it is the text of a state. */
  function QueueOf(env: Env, snapshot: seq<byte>): Option<seq<Report>> {
    match Document(snapshot)
    case None => None
    case Some(v) => match ParseState(env, v) case None => None case Some(state) => Some(state.reports)
  }

  /**
    A restore goes through exactly when it names the hash and the generation of the state as it is and the snapshot is a
    state. Memory then has the snapshot's queue; the reservation goes too unless the generation is the last.
   */
  lemma RestoreExactly(env: Env, s: Sys, snapshot: seq<byte>, expected: Digest, generation: u64, io: DiskOutcome)
    requires s.lane.Some?
    ensures var lane := s.lane.value;
      var d := lane.data;
      var (after, reply) := Step(env, s, OpRestore(snapshot, expected, generation, io));
      if expected != ReceiptFor(env, d) || generation != d.generation then after == s && reply == Refused(StaleView)
      else if QueueOf(env, snapshot) == None then after == s && reply == Refused(Corrupt)
      else
        var restored := d.(reports := QueueOf(env, snapshot).value);
        if d.generation == LAST then after == s.(lane := Some(lane.(data := restored))) && reply == Refused(Capacity)
        else
          && Saved(env, s.disk, lane, restored.(reservation := None), io, after,
                   if reply.Committed? then Some((reply.generation, reply.hash)) else None)
          && (reply.Committed? <==> io == Written) && (reply.Committed? || reply == Refused(Io))
  {
    hide Utf8.Encode, CanonicalState, Commit, Saved, Step, StateHash, ReceiptFor, Document, ParseState;
    var d := s.lane.value.data;
    Calls(env, s, OpRestore(snapshot, expected, generation, io));
    HashesAre(env, d, []);
    if QueueOf(env, snapshot).Some? {
      CommitSaves(env, s.disk, s.lane.value, d.(reports := QueueOf(env, snapshot).value, reservation := None), io);
    }
  }

  /** The bytes of any state that could be written give its own queue back, generation methods apart, exactly when its titles are stable. */
  lemma SnapshotGivesItsQueue(env: Env, d: LaneData)
    requires Writable(env, d)
    ensures QueueOf(env, CanonicalState(d)) == if AllStable(env.unicode, d.reports + d.blocked) then Some(ReloadedAll(d.reports)) else None
  {
    hide Utf8.Encode, CanonicalState, Document, ParseState, AllStable, ReloadedAll, Writable;
    LoadWritten(env, d);
    LoadsWhatItParses(env, CanonicalState(d));
    WrittenIsNumbered(env, d);
  }

  /** What loads is what parses, as long as the text has a generation. */
  lemma LoadsWhatItParses(env: Env, bytes: seq<byte>)
    ensures LoadState(env, bytes).Some? ==> QueueOf(env, bytes) == Some(LoadState(env, bytes).value.reports)
    ensures LoadState(env, bytes).None? && Document(bytes).Some? && U64At(Document(bytes).value, "state_generation").Some? ==>
      QueueOf(env, bytes) == None
  {
    hide Document, ParseState;
  }

  lemma WrittenIsNumbered(env: Env, d: LaneData)
    ensures Document(CanonicalState(d)).Some? && U64At(Document(CanonicalState(d)).value, "state_generation").Some?
  {
    hide StateFields, ToValue, ReportTrees;
    BytesRoundTrip(Obj(StateFields(d)));
    StateMembers(d);
  }

  /** A fence closes the lane in memory alone and counts itself; only the count can overflow. */
  lemma FenceExactly(env: Env, s: Sys)
    requires s.lane.Some?
    ensures var lane := s.lane.value;
      var (after, reply) := Step(env, s, OpFence);
      if lane.operationId == LAST then after == s.(lane := Some(lane.(fenced := true))) && reply == Refused(Capacity)
      else
        && after == s.(lane := Some(lane.(fenced := true, operationId := lane.operationId + 1)))
        && reply == Reply.Fenced(lane.operationId + 1, lane.data.generation, ReceiptFor(env, lane.data))
  {
    hide Utf8.Encode, CanonicalState, Step, StateHash, ReceiptFor;
    Calls(env, s, OpFence);
    HashesAre(env, s.lane.value.data, []);
  }

  /* ---- Opening ---- */

  /** What is in memory when nothing was loaded. */
  function Fresh(generation: u64, disabled: bool): LaneData {
    LaneData(generation, [], [], None, disabled, None, None, 0)
  }

  /**
    Without a file, or one that cannot be looked up, the lane starts enabled and empty; with one that cannot be read or does
    not load, disabled and empty, at the generation its text has if it has one. Both are written at once, and without
    that write there is no lane. A file that loads is left as it is.
   */
  lemma OpenExactly(env: Env, s: Sys, look: Look, quarantined: bool, io: DiskOutcome)
    requires s.lane == None
    ensures var after := Step(env, s, OpOpen(look, quarantined, io)).0;
      if s.disk != None && look == Readable && LoadState(env, s.disk.value) != None
      then after == s.(lane := Some(Lane(LoadState(env, s.disk.value).value, false, 0)))
      else
        var found := s.disk != None && look != StatFails;
        var d := Fresh(if found && look == Readable then LoadedGeneration(s.disk.value) else 0, found);
        && after.lane == (if io == Written then Some(Lane(d, false, 0)) else None)
        && after.disk == if io != FailedBeforeRename then Some(CanonicalState(d)) else if found && quarantined then None else s.disk
  {
    hide Utf8.Encode, CanonicalState, LoadState, LoadedGeneration;
  }

  /** A text with a generation keeps it whatever else is wrong with it; any other text has generation 0. */
  lemma GenerationOfText(env: Env, bytes: seq<byte>)
    ensures LoadedGeneration(bytes) ==
      if Document(bytes) != None && U64At(Document(bytes).value, "state_generation") != None
      then U64At(Document(bytes).value, "state_generation").value else 0
  {
    hide Document;
  }

  /* ---- A permanent failure ---- */

  lemma StaysDisabled(env: Env, s: Sys, op: Op)
    requires s.lane.Some? && s.lane.value.data.disabled && !op.OpCrash? && !op.OpReset?
    ensures var s' := Step(env, s, op).0; s'.lane.Some? && s'.lane.value.data.disabled
  {
    hide Commit, StateHash, Ids, Uncaptured, PushAll, NextBackoff, NextDeadline, InspectDue, ReservationId, PayloadHash, Matches,
         PromoteAll, ParseState, Document, ClockOk, NotDue;
    CommitsKeepFlag(env, s.disk);
  }

  lemma CommitsKeepFlag(env: Env, disk: Option<seq<byte>>)
    ensures forall lane, io :: var s' := Commit(env, disk, lane, io).0; s'.lane.Some? && s'.lane.value.data.disabled == lane.data.disabled
  {
    hide CanonicalState, StateHash;
  }

  /** After a permanent failure no view is handed out over any steps, until a reset or a restart. */
  lemma {:induction false} DisabledUntilReset(env: Env, s: Sys, ops: seq<Op>, now: ClockSample)
    requires s.lane.Some? && s.lane.value.data.disabled
    requires forall i :: 0 <= i < |ops| ==> !ops[i].OpCrash? && !ops[i].OpReset?
    ensures var s' := RunFrom(env, s, ops);
      s'.lane.Some? && s'.lane.value.data.disabled && !Step(env, s', OpInspectDue(now)).1.Ready?
    decreases |ops|
  {
    hide Step;
    if ops == [] {
      InspectExactly(env, s, now);
    } else {
      StaysDisabled(env, s, ops[0]);
      DisabledUntilReset(env, Step(env, s, ops[0]).0, ops[1..], now);
    }
  }
}
