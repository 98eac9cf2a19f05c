/**
  The outbox lane with its fields updated in place and its file beside it. Each method
  is proved to do, step by step, what `LaneSpec` says.
 */
module LaneState {
  import opened Wrappers
  import opened ReportTypes
  import opened StateSchema
  import opened StateCodec
  import opened PassReports
  import opened LaneSpec

  class StateLane {
    const env: Env
    var generation: u64
    var reports: seq<Report>
    var blocked: seq<Report>
    var reservation: Option<Reservation>
    var disabled: bool
    var fenced: bool
    var operationId: u64
    var lastAttemptNs: Option<u64>
    var nextAttemptNs: Option<u64>
    var backoffSeconds: u64
    /** Contents of the state file. */
    var disk: Option<seq<byte>>

    function Data(): LaneData
      reads this
    {
      LaneData(generation, reports, blocked, reservation, disabled, lastAttemptNs, nextAttemptNs, backoffSeconds)
    }

    ghost function Current(): Lane
      reads this
    {
      Lane(Data(), fenced, operationId)
    }

    ghost function System(): Sys
      reads this
    {
      Sys(Some(Current()), disk)
    }

    method Fill(d: LaneData)
      modifies this
      ensures Current() == Lane(d, false, 0) && disk == old(disk)
    {
      generation, reports, blocked, reservation := d.generation, d.reports, d.blocked, d.reservation;
      disabled, lastAttemptNs, nextAttemptNs, backoffSeconds := d.disabled, d.lastAttemptNs, d.nextAttemptNs, d.backoffSeconds;
      fenced, operationId := false, 0;
    }

    constructor (env: Env, file: Option<seq<byte>>)
      ensures this.env == env && disk == file && Current() == Lane(EMPTY_LANE, false, 0)
    {
      this.env := env;
      disk := file;
      generation, reports, blocked, reservation := 0, [], [], None;
      disabled, lastAttemptNs, nextAttemptNs, backoffSeconds := false, None, None, 0;
      fenced, operationId := false, 0;
    }

    /** `open` on a lane just constructed over the file it found. */
    method OpenFile(look: Look, quarantined: bool, io: DiskOutcome) returns (ok: bool)
      requires Current() == Lane(EMPTY_LANE, false, 0)
      modifies this
      ensures ok <==> Open(env, Sys(None, old(disk)), look, quarantined, io).lane.Some?
      ensures disk == Open(env, Sys(None, old(disk)), look, quarantined, io).disk
      ensures ok ==> System() == Open(env, Sys(None, old(disk)), look, quarantined, io)
    {
      hide CanonicalState, LoadState, LoadedGeneration;
      if disk.None? || look.StatFails? {
        ok := PersistState(io);
        return;
      }
      var loaded := if look.ReadFails? then None else LoadState(env, disk.value);
      if loaded.Some? {
        Fill(loaded.value);
        return true;
      }
      if look.Readable? {
        generation := LoadedGeneration(disk.value);
      }
      if quarantined {
        disk := None;
      }
      disabled := true;
      ok := PersistState(io);
    }

    method PersistState(io: DiskOutcome) returns (ok: bool)
      modifies `disk
      ensures ok == io.Written?
      ensures disk == Persist(old(disk), Data(), io)
    {
      hide CanonicalState;
      var bytes := WriteState(Data());
      if io.FailedBeforeRename? {
        return false;
      }
      disk := Some(bytes);
      ok := io.Written?;
    }

    method CommitState(io: DiskOutcome) returns (reply: Reply)
      modifies `generation, `disk
      ensures (System(), reply) == Commit(env, old(disk), old(Current()), io)
    {
      hide CanonicalState, StateHash;
      var next := CheckedAdd(generation, 1);
      if next.None? {
        return Refused(Capacity);
      }
      generation := next.value;
      var ok := PersistState(io);
      reply := if ok then Committed(generation, StateHash(env, Data())) else Refused(Io);
    }

    method EnqueueReports(batch: seq<Report>, now: ClockSample, io: DiskOutcome) returns (reply: Reply)
      modifies this
      ensures (System(), reply) == Enqueue(env, old(System()), old(Current()), batch, now, io)
    {
      hide Commit, CanonicalState, StateHash;
      if fenced {
        return Refused(NotificationStateError.Fenced);
      }
      if !ClockOk(now) {
        return Refused(Clock);
      }
      if batch == [] {
        return Committed(generation, StateHash(env, Data()));
      }
      ghost var goal := PushAll(reports, blocked, batch);
      var i := 0;
      while i < |batch|
        invariant i <= |batch| && PushAll(reports, blocked, batch[i..]) == goal
        invariant Current() == old(Current()).(data := old(Data()).(reports := reports, blocked := blocked))
        invariant disk == old(disk)
      {
        var report := batch[i];
        assert batch[i..][0] == report && batch[i..][1..] == batch[i + 1..];
        i := i + 1;
        if report.commitId.None? {
          return Refused(InvalidInput);
        }
        if HasId(reports, report.commitId) {
          continue;
        }
        if |reports| >= MAX_REPORTS {
          if |blocked| >= MAX_BLOCKED {
            return Refused(Capacity);
          }
          blocked := blocked + [report];
          continue;
        }
        reports := reports + [report];
      }
      assert batch[i..] == [];
      reply := CommitState(io);
    }

    method InspectWhenDue(now: ClockSample) returns (reply: Reply)
      ensures reply == InspectDue(Current(), now)
    {
      if fenced {
        return Refused(NotificationStateError.Fenced);
      }
      if disabled {
        return Refused(Disabled);
      }
      if !ClockOk(now) {
        return Refused(Clock);
      }
      if reservation.Some? || reports == [] {
        return Idle;
      }
      if NotDue(Data(), now) {
        return Idle;
      }
      var shown, omitted := BoundReports(reports);
      reply := Ready(DeliveryView(generation, NO_OVERFLOW, shown));
    }

    method ReserveRendered(now: ClockSample, view: DeliveryView, payload: seq<byte>, io: DiskOutcome) returns (reply: Reply)
      modifies this
      ensures (System(), reply) == Reserve(env, old(System()), old(Current()), now, view, payload, io)
    {
      hide Commit, CanonicalState, StateHash, Ids, ReservationId, PayloadHash;
      if fenced {
        return Refused(NotificationStateError.Fenced);
      }
      if !ClockOk(now) {
        return Refused(Clock);
      }
      if reservation.Some? || view.stateGeneration != generation {
        return Refused(StaleView);
      }
      if NotDue(Data(), now) {
        return Refused(Clock);
      }
      var id := ReservationId(env, generation, payload);
      var next := CheckedAdd(now.epochNs, ATTEMPT_WINDOW_NS);
      if next.None? {
        return Refused(Clock);
      }
      reservation := Some(Reservation(id, payload, Ids(reports), now.epochNs, now.monotonicNs, next.value));
      lastAttemptNs := Some(now.epochNs);
      nextAttemptNs := Some(reservation.value.reservedNextNs);
      reply := CommitState(io);
      if reply.Committed? {
        reply := Reserved(reply.generation, reply.hash, id, PayloadHash(env, payload));
      }
    }

    method ResumeReservation(now: ClockSample, io: DiskOutcome) returns (reply: Reply)
      modifies this
      ensures (System(), reply) == Resume(env, old(System()), old(Current()), now, io)
    {
      hide Commit, CanonicalState, StateHash;
      if fenced {
        return Refused(NotificationStateError.Fenced);
      }
      if !ClockOk(now) {
        return Refused(Clock);
      }
      if NotDue(Data(), now) {
        return NothingToResume;
      }
      if reservation.None? {
        return NothingToResume;
      }
      reservation := Some(reservation.value.(startedEpochNs := now.epochNs));
      reservation := Some(reservation.value.(startedMonotonicNs := now.monotonicNs));
      var next := CheckedAdd(now.epochNs, ATTEMPT_WINDOW_NS);
      if next.None? {
        return Refused(Clock);
      }
      reservation := Some(reservation.value.(reservedNextNs := next.value));
      var id, payload := reservation.value.id, reservation.value.payload;
      lastAttemptNs := Some(now.epochNs);
      nextAttemptNs := next;
      reply := CommitState(io);
      if reply.Committed? {
        reply := Resumed(reply.generation, reply.hash, id, payload);
      }
    }

    method AcknowledgeDelivery(id: Digest, payloadHash: Digest, io: DiskOutcome) returns (reply: Reply)
      modifies this
      ensures (System(), reply) == Acknowledge(env, old(System()), old(Current()), id, payloadHash, io)
    {
      hide Commit, CanonicalState, StateHash, Uncaptured, PayloadHash;
      if fenced {
        return Refused(NotificationStateError.Fenced);
      }
      if reservation.None? {
        return Refused(InvalidInput);
      }
      var taken := reservation.value;
      reservation := None;
      if taken.id != id || PayloadHash(env, taken.payload) != payloadHash {
        reservation := Some(taken);
        return Refused(InvalidInput);
      }
      reports := Uncaptured(reports, taken.captured);
      backoffSeconds := 0;
      reply := CommitState(io);
    }

    /** Back off further and set the next attempt, unless a sum overflows. */
    method PlanRetry(sample: ClockSample, retryAfter: Option<u64>) returns (ok: bool)
      modifies `backoffSeconds, `lastAttemptNs, `nextAttemptNs
      ensures var backoff := NextBackoff(old(backoffSeconds));
        var deadline := if backoff.None? then None
                        else NextDeadline(sample.epochNs, sample.epochNs, backoff.value, retryAfter);
        && ok == deadline.Some?
        && (ok ==> backoffSeconds == backoff.value && lastAttemptNs == Some(sample.epochNs) && nextAttemptNs == deadline)
        && (!ok ==> unchanged(this))
    {
      hide NextBackoff, NextDeadline;
      var backoff := NextBackoff(backoffSeconds);
      if backoff.None? {
        return false;
      }
      var deadline := NextDeadline(sample.epochNs, sample.epochNs, backoff.value, retryAfter);
      if deadline.None? {
        return false;
      }
      backoffSeconds := backoff.value;
      lastAttemptNs := Some(sample.epochNs);
      nextAttemptNs := deadline;
      ok := true;
    }

    /** Give up on the reserved attempt for good. */
    method DisableReserved(io: DiskOutcome) returns (reply: Reply)
      modifies this
      ensures (System(), reply) ==
        Commit(env, old(disk), old(Current()).(data := old(Data()).(reservation := None, disabled := true)), io)
    {
      hide Commit, CanonicalState, StateHash;
      reservation := None;
      disabled := true;
      reply := CommitState(io);
    }

    /** Release the reserved attempt and plan the next one. */
    method ReleaseReserved(sample: ClockSample, retryAfter: Option<u64>, io: DiskOutcome) returns (reply: Reply)
      modifies this
      ensures (System(), reply) == RetryLater(env, old(disk), old(Current()), sample, retryAfter, io)
    {
      hide Commit, CanonicalState, StateHash, NextBackoff, NextDeadline;
      reservation := None;
      var planned := PlanRetry(sample, retryAfter);
      if !planned {
        return Refused(Clock);
      }
      reply := CommitState(io);
    }

    method RecordAttemptFailure(id: Digest, cause: SafeDeliveryError, sample: ClockSample, retryAfter: Option<u64>,
                                io: DiskOutcome) returns (reply: Reply)
      modifies this
      ensures (System(), reply) == RecordFailure(env, old(System()), old(Current()), id, cause, sample, retryAfter, io)
    {
      if fenced {
        return Refused(NotificationStateError.Fenced);
      }
      if reservation.None? || reservation.value.id != id {
        return Refused(InvalidInput);
      }
      if !ClockOk(sample) {
        return Refused(Clock);
      }
      hide Commit, RetryLater, ClockOk, Permanent;
      if Permanent(cause) {
        reply := DisableReserved(io);
      } else {
        reply := ReleaseReserved(sample, retryAfter, io);
      }
    }

    method RetryBlockedReports(now: ClockSample, io: DiskOutcome) returns (reply: Reply)
      modifies this
      ensures (System(), reply) == RetryBlocked(env, old(System()), old(Current()), now, io)
    {
      hide Commit, CanonicalState, StateHash;
      if fenced {
        return Refused(NotificationStateError.Fenced);
      }
      if !ClockOk(now) {
        return Refused(Clock);
      }
      var promoted: nat := 0;
      ghost var goal := PromoteAll(reports, blocked, 0);
      while |reports| < MAX_REPORTS && blocked != []
        invariant PromoteAll(reports, blocked, promoted) == goal
        invariant Current() == old(Current()).(data := old(Data()).(reports := reports, blocked := blocked))
        invariant disk == old(disk)
        decreases |blocked|
      {
        var report := blocked[0];
        blocked := blocked[1..];
        if HasId(reports, report.commitId) {
          continue;
        }
        reports := reports + [report];
        promoted := promoted + 1;
      }
      if promoted > 0 {
        reply := CommitState(io);
        if reply.Committed? {
          reply := Promoted(reply.generation, reply.hash, promoted);
        }
      } else {
        reply := Promoted(generation, StateHash(env, Data()), 0);
      }
    }

    method ResetDeliveryState(expected: Digest, io: DiskOutcome) returns (reply: Reply)
      modifies this
      ensures (System(), reply) == ResetDelivery(env, old(System()), old(Current()), expected, io)
    {
      hide Commit, CanonicalState, StateHash;
      if StateHash(env, Data()) != expected {
        return Refused(InvalidInput);
      }
      disabled := false;
      reply := CommitState(io);
    }

    method RestoreSnapshot(snapshot: seq<byte>, expected: Digest, expectedGeneration: u64, io: DiskOutcome)
      returns (reply: Reply)
      modifies this
      ensures (System(), reply)
           == Restore(env, old(System()), old(Current()), snapshot, expected, expectedGeneration, io)
    {
      hide CanonicalState, StateHash, ParseState, Document;
      if StateHash(env, Data()) != expected || generation != expectedGeneration {
        return Refused(StaleView);
      }
      var document := Document(snapshot);
      if document.None? {
        return Refused(Corrupt);
      }
      var parsed := ParseState(env, document.value);
      if parsed.None? {
        return Refused(Corrupt);
      }
      reports := parsed.value.reports;
      var next := CheckedAdd(generation, 1);
      if next.None? {
        return Refused(Capacity);
      }
      generation := next.value;
      reservation := None;
      var ok := PersistState(io);
      reply := if ok then Committed(generation, StateHash(env, Data())) else Refused(Io);
    }

    method FenceLane() returns (reply: Reply)
      modifies this
      ensures (System(), reply) == Fence(env, old(System()), old(Current()))
    {
      hide CanonicalState, StateHash;
      fenced := true;
      var next := CheckedAdd(operationId, 1);
      if next.None? {
        return Refused(Capacity);
      }
      operationId := next.value;
      reply := Reply.Fenced(operationId, generation, StateHash(env, Data()));
    }
  }
}
