/**
  The notification outbox as a transition system: what every operation does to the
  lane in memory and to the file on disk.
 */
module LaneSpec {
  import opened Wrappers
  import opened ReportTypes
  import opened StateSchema
  import opened StateCodec
  import opened PassReports
  import Utf8

  const MAX_BACKOFF_SECONDS: int := 86_400
  const NS_PER_SECOND: int := 1_000_000_000
  const MAX_REPORTS: nat := 128
  const MAX_BLOCKED: nat := 16

  /** How far `persist` got: the rename is what makes the new file current. */
  datatype DiskOutcome = Written | FailedBeforeRename | FailedAfterRename

  datatype Lane = Lane(data: LaneData, fenced: bool, operationId: u64)

  /** `lane` is absent while the process is down. */
  datatype Sys = Sys(lane: Option<Lane>, disk: Option<seq<byte>>)

  datatype Reply =
    | Refused(error: NotificationStateError)
    | Committed(generation: u64, hash: Digest)
    | Idle
    | Ready(view: DeliveryView)
    | Reserved(generation: u64, hash: Digest, id: Digest, payloadHash: Digest)
    | NothingToResume
    | Resumed(generation: u64, hash: Digest, id: Digest, payload: seq<byte>)
    | Promoted(generation: u64, hash: Digest, count: nat)
    | Fenced(operationId: u64, generation: u64, hash: Digest)

  /* ---- Clock arithmetic ---- */

  function NextBackoff(previous: u64): Option<u64> {
    if previous == 0 then Some(900)
    else
      var doubled :- CheckedMul(previous, 2);
      Some(Min(doubled, MAX_BACKOFF_SECONDS))
  }

  function NextDeadline(attemptStart: u64, response: u64, backoff: u64, retryAfter: Option<u64>): Option<u64> {
    var floor :- CheckedAdd(attemptStart, ATTEMPT_WINDOW_NS);
    var backoffNs :- CheckedMul(backoff, NS_PER_SECOND);
    var retry :- CheckedAdd(response, backoffNs);
    var headerNs :- CheckedMul(retryAfter.GetOr(0), NS_PER_SECOND);
    var header :- CheckedAdd(headerNs, response);
    Some(Max(Max(floor, retry), header))
  }

  predicate ClockOk(now: ClockSample) {
    now.synchronized && now.bootId != ""
  }

  predicate NotDue(d: LaneData, now: ClockSample) {
    d.nextAttemptNs.Some? && now.epochNs < d.nextAttemptNs.value
  }

  /* ---- Hashes ---- */

  function StateHash(env: Env, d: LaneData): Digest {
    env.sha(Utf8.Encode("asrsub-state-v1\0") + CanonicalState(d))
  }

  function PayloadHash(env: Env, payload: seq<byte>): Digest {
    env.sha(Utf8.Encode("asrsub-payload-v1\0") + payload)
  }

  /** `to_le_bytes` of the lowest `n` bytes. */
  function LittleEndian(x: nat, n: nat): seq<byte> {
    if n == 0 then [] else [x % 256] + LittleEndian(x / 256, n - 1)
  }

  function ReservationId(env: Env, generation: u64, payload: seq<byte>): Digest {
    env.sha(Utf8.Encode("asrsub-reservation-v1\0") + LittleEndian(generation, 8) + payload)
  }

  /* ---- Committing ---- */

  /** `persist`: the whole state goes to a temporary file that is renamed over the current one. */
  function Persist(disk: Option<seq<byte>>, d: LaneData, io: DiskOutcome): Option<seq<byte>> {
    if io.FailedBeforeRename? then disk else Some(CanonicalState(d))
  }

  /** `commit`: count the generation up, then persist; memory keeps the change whatever the disk does. */
  function Commit(env: Env, disk: Option<seq<byte>>, lane: Lane, io: DiskOutcome): (Sys, Reply) {
    match CheckedAdd(lane.data.generation, 1)
    case None => (Sys(Some(lane), disk), Refused(Capacity))
    case Some(g) =>
      var next := lane.(data := lane.data.(generation := g));
      (Sys(Some(next), Persist(disk, next.data, io)),
       if io.Written? then Committed(g, StateHash(env, next.data)) else Refused(Io))
  }

  /* ---- Operations on a running lane ---- */

  function Ids(rs: seq<Report>): (ids: seq<string>)
    ensures |ids| <= |rs|
  {
    if rs == [] then []
    else (if rs[0].commitId.Some? then [rs[0].commitId.value] else []) + Ids(rs[1..])
  }

  predicate HasId(rs: seq<Report>, id: Option<string>) {
    exists i :: 0 <= i < |rs| && rs[i].commitId == id
  }

  datatype Queues = Queues(reports: seq<Report>, blocked: seq<Report>, error: Option<NotificationStateError>)

  /** The enqueue loop; what was pushed before an error stays. */
  function PushAll(reports: seq<Report>, blocked: seq<Report>, batch: seq<Report>): Queues
    decreases |batch|
  {
    if batch == [] then Queues(reports, blocked, None)
    else if batch[0].commitId.None? then Queues(reports, blocked, Some(InvalidInput))
    else if HasId(reports, batch[0].commitId) then PushAll(reports, blocked, batch[1..])
    else if |reports| < MAX_REPORTS then PushAll(reports + [batch[0]], blocked, batch[1..])
    else if |blocked| >= MAX_BLOCKED then Queues(reports, blocked, Some(Capacity))
    else PushAll(reports, blocked + [batch[0]], batch[1..])
  }

  function Enqueue(env: Env, s: Sys, lane: Lane, batch: seq<Report>, now: ClockSample, io: DiskOutcome): (Sys, Reply) {
    if lane.fenced then (s, Refused(NotificationStateError.Fenced))
    else if !ClockOk(now) then (s, Refused(Clock))
    else if batch == [] then (s, Committed(lane.data.generation, StateHash(env, lane.data)))
    else
      var q := PushAll(lane.data.reports, lane.data.blocked, batch);
      var pushed := lane.(data := lane.data.(reports := q.reports, blocked := q.blocked));
      if q.error.Some? then (s.(lane := Some(pushed)), Refused(q.error.value))
      else Commit(env, s.disk, pushed, io)
  }

  function InspectDue(lane: Lane, now: ClockSample): Reply {
    if lane.fenced then Refused(NotificationStateError.Fenced)
    else if lane.data.disabled then Refused(Disabled)
    else if !ClockOk(now) then Refused(Clock)
    else if lane.data.reservation.Some? || lane.data.reports == [] then Idle
    else if NotDue(lane.data, now) then Idle
    else Ready(DeliveryView(lane.data.generation, NO_OVERFLOW, FromReports(lane.data.reports).0))
  }

  function Reserve(env: Env, s: Sys, lane: Lane, now: ClockSample, view: DeliveryView, payload: seq<byte>, io: DiskOutcome)
    : (Sys, Reply)
  {
    var d := lane.data;
    if lane.fenced then (s, Refused(NotificationStateError.Fenced))
    else if !ClockOk(now) then (s, Refused(Clock))
    else if d.reservation.Some? || view.stateGeneration != d.generation then (s, Refused(StaleView))
    else if NotDue(d, now) then (s, Refused(Clock))
    else
      var id := ReservationId(env, d.generation, payload);
      match CheckedAdd(now.epochNs, ATTEMPT_WINDOW_NS)
      case None => (s, Refused(Clock))
      case Some(next) =>
        var r := Reservation(id, payload, Ids(d.reports), now.epochNs, now.monotonicNs, next);
        var reserved := lane.(data :=
          d.(reservation := Some(r), lastAttemptNs := Some(now.epochNs), nextAttemptNs := Some(next)));
        var (s', reply) := Commit(env, s.disk, reserved, io);
        (s', if reply.Committed? then Reserved(reply.generation, reply.hash, id, PayloadHash(env, payload)) else reply)
  }

  function Resume(env: Env, s: Sys, lane: Lane, now: ClockSample, io: DiskOutcome): (Sys, Reply) {
    var d := lane.data;
    if lane.fenced then (s, Refused(NotificationStateError.Fenced))
    else if !ClockOk(now) then (s, Refused(Clock))
    else if NotDue(d, now) || d.reservation.None? then (s, NothingToResume)
    else
      var r := d.reservation.value.(startedEpochNs := now.epochNs, startedMonotonicNs := now.monotonicNs);
      match CheckedAdd(now.epochNs, ATTEMPT_WINDOW_NS)
      case None => (s.(lane := Some(lane.(data := d.(reservation := Some(r))))), Refused(Clock))
      case Some(next) =>
        var resumed := lane.(data :=
          d.(reservation := Some(r.(reservedNextNs := next)), lastAttemptNs := Some(now.epochNs), nextAttemptNs := Some(next)));
        var (s', reply) := Commit(env, s.disk, resumed, io);
        (s', if reply.Committed? then Resumed(reply.generation, reply.hash, r.id, r.payload) else reply)
  }

  /** Reports whose id was not captured; a report without an id stays. */
  function Uncaptured(rs: seq<Report>, captured: seq<string>): seq<Report> {
    if rs == [] then []
    else (if rs[0].commitId.Some? && rs[0].commitId.value in captured then [] else [rs[0]]) + Uncaptured(rs[1..], captured)
  }

  predicate Matches(env: Env, d: LaneData, id: Digest, payloadHash: Digest) {
    d.reservation.Some? && d.reservation.value.id == id && PayloadHash(env, d.reservation.value.payload) == payloadHash
  }

  function Acknowledge(env: Env, s: Sys, lane: Lane, id: Digest, payloadHash: Digest, io: DiskOutcome): (Sys, Reply) {
    var d := lane.data;
    if lane.fenced then (s, Refused(NotificationStateError.Fenced))
    else if !Matches(env, d, id, payloadHash) then (s, Refused(InvalidInput))
    else
      var kept := Uncaptured(d.reports, d.reservation.value.captured);
      Commit(env, s.disk, lane.(data := d.(reservation := None, reports := kept, backoffSeconds := 0)), io)
  }

  predicate Permanent(cause: SafeDeliveryError) {
    cause.PermanentResponse? || cause.DisabledFault? || cause.CorruptFault?
  }

  /** Release the reservation, back off further, and set the next attempt unless a sum overflows. */
  function RetryLater(env: Env, disk: Option<seq<byte>>, lane: Lane, sample: ClockSample, retryAfter: Option<u64>,
                      io: DiskOutcome): (Sys, Reply)
  {
    var released := lane.data.(reservation := None);
    var backoff := NextBackoff(released.backoffSeconds);
    var deadline := if backoff.None? then None
                    else NextDeadline(sample.epochNs, sample.epochNs, backoff.value, retryAfter);
    if deadline.None? then (Sys(Some(lane.(data := released)), disk), Refused(Clock))
    else
      var planned := released.(backoffSeconds := backoff.value, lastAttemptNs := Some(sample.epochNs), nextAttemptNs := deadline);
      Commit(env, disk, lane.(data := planned), io)
  }

  function RecordFailure(env: Env, s: Sys, lane: Lane, id: Digest, cause: SafeDeliveryError, sample: ClockSample,
                         retryAfter: Option<u64>, io: DiskOutcome): (Sys, Reply)
  {
    var d := lane.data;
    if lane.fenced then (s, Refused(NotificationStateError.Fenced))
    else if d.reservation.None? || d.reservation.value.id != id then (s, Refused(InvalidInput))
    else if !ClockOk(sample) then (s, Refused(Clock))
    else if Permanent(cause) then Commit(env, s.disk, lane.(data := d.(reservation := None, disabled := true)), io)
    else RetryLater(env, s.disk, lane, sample, retryAfter, io)
  }

  datatype Promotion = Promotion(reports: seq<Report>, blocked: seq<Report>, count: nat)

  /** The retry loop: the oldest blocked report moves over while there is room; a duplicate is dropped. */
  function PromoteAll(reports: seq<Report>, blocked: seq<Report>, count: nat): Promotion
    decreases |blocked|
  {
    if |reports| >= MAX_REPORTS || blocked == [] then Promotion(reports, blocked, count)
    else if HasId(reports, blocked[0].commitId) then PromoteAll(reports, blocked[1..], count)
    else PromoteAll(reports + [blocked[0]], blocked[1..], count + 1)
  }

  function RetryBlocked(env: Env, s: Sys, lane: Lane, now: ClockSample, io: DiskOutcome): (Sys, Reply) {
    if lane.fenced then (s, Refused(NotificationStateError.Fenced))
    else if !ClockOk(now) then (s, Refused(Clock))
    else
      var p := PromoteAll(lane.data.reports, lane.data.blocked, 0);
      var moved := lane.(data := lane.data.(reports := p.reports, blocked := p.blocked));
      if p.count > 0 then
        var (s', reply) := Commit(env, s.disk, moved, io);
        (s', if reply.Committed? then Promoted(reply.generation, reply.hash, p.count) else reply)
      else (s.(lane := Some(moved)), Promoted(moved.data.generation, StateHash(env, moved.data), 0))
  }

  function ResetDelivery(env: Env, s: Sys, lane: Lane, expected: Digest, io: DiskOutcome): (Sys, Reply) {
    if StateHash(env, lane.data) != expected then (s, Refused(InvalidInput))
    else Commit(env, s.disk, lane.(data := lane.data.(disabled := false)), io)
  }

  /** Only the reports of the snapshot are taken over, and the reservation is dropped. */
  function Restore(env: Env, s: Sys, lane: Lane, snapshot: seq<byte>, expected: Digest, generation: u64, io: DiskOutcome)
    : (Sys, Reply)
  {
    var d := lane.data;
    if StateHash(env, d) != expected || d.generation != generation then (s, Refused(StaleView))
    else
      var document := Document(snapshot);
      var parsed := if document.None? then None else ParseState(env, document.value);
      if parsed.None? then (s, Refused(Corrupt))
      else
        var restored := d.(reports := parsed.value.reports);
        match CheckedAdd(d.generation, 1)
        case None => (s.(lane := Some(lane.(data := restored))), Refused(Capacity))
        case Some(_) => Commit(env, s.disk, lane.(data := restored.(reservation := None)), io)
  }

  function Fence(env: Env, s: Sys, lane: Lane): (Sys, Reply) {
    var fenced := lane.(fenced := true);
    match CheckedAdd(lane.operationId, 1)
    case None => (s.(lane := Some(fenced)), Refused(Capacity))
    case Some(n) =>
      (s.(lane := Some(fenced.(operationId := n))), Reply.Fenced(n, lane.data.generation, StateHash(env, lane.data)))
  }

  /* ---- Opening ---- */

  /** How far `open` sees a file that is there: `exists` and `read` can both fail. */
  datatype Look = Readable | ReadFails | StatFails

  /** A lane without contents is persisted where the file was, or still is. */
  function StartOver(disk: Option<seq<byte>>, d: LaneData, io: DiskOutcome): Sys {
    Sys(if io.Written? then Some(Lane(d, false, 0)) else None, Persist(disk, d, io))
  }

  /**
    `open`: load the file if there is one. A file that cannot be read or does not load is moved
    away, if that works, and an empty, disabled lane is written in its place; a file that cannot
    even be looked up is taken for none and written over.
   */
  function Open(env: Env, s: Sys, look: Look, quarantined: bool, io: DiskOutcome): Sys {
    if s.disk.None? || look.StatFails? then StartOver(s.disk, EMPTY_LANE, io)
    else
      var loaded := if look.ReadFails? then None else LoadState(env, s.disk.value);
      match loaded
      case Some(d) => s.(lane := Some(Lane(d, false, 0)))
      case None =>
        var generation := if look.ReadFails? then 0 else LoadedGeneration(s.disk.value);
        StartOver(if quarantined then None else s.disk, EMPTY_LANE.(generation := generation, disabled := true), io)
  }

  /* ---- Steps ---- */

  datatype Op =
    | OpOpen(look: Look, quarantined: bool, io: DiskOutcome)
    | OpCrash
    | OpEnqueue(batch: seq<Report>, now: ClockSample, io: DiskOutcome)
    | OpInspectDue(now: ClockSample)
    | OpReserve(now: ClockSample, view: DeliveryView, payload: seq<byte>, io: DiskOutcome)
    | OpResume(now: ClockSample, io: DiskOutcome)
    | OpAcknowledge(id: Digest, payloadHash: Digest, io: DiskOutcome)
    | OpFail(id: Digest, cause: SafeDeliveryError, now: ClockSample, retryAfter: Option<u64>, io: DiskOutcome)
    | OpRetryBlocked(now: ClockSample, io: DiskOutcome)
    | OpReset(expected: Digest, io: DiskOutcome)
    | OpRestore(snapshot: seq<byte>, expected: Digest, generation: u64, io: DiskOutcome)
    | OpFence

  function Step(env: Env, s: Sys, op: Op): (Sys, Reply) {
    match op
    case OpCrash => (s.(lane := None), Idle)
    case OpOpen(look, quarantined, io) =>
      if s.lane.Some? then (s, Idle) else (Open(env, s, look, quarantined, io), Idle)
    case _ =>
      if s.lane.None? then (s, Refused(Missing))
      else
        var lane := s.lane.value;
        match op
        case OpEnqueue(batch, now, io) => Enqueue(env, s, lane, batch, now, io)
        case OpInspectDue(now) => (s, InspectDue(lane, now))
        case OpReserve(now, view, payload, io) => Reserve(env, s, lane, now, view, payload, io)
        case OpResume(now, io) => Resume(env, s, lane, now, io)
        case OpAcknowledge(id, hash, io) => Acknowledge(env, s, lane, id, hash, io)
        case OpFail(id, cause, now, retryAfter, io) => RecordFailure(env, s, lane, id, cause, now, retryAfter, io)
        case OpRetryBlocked(now, io) => RetryBlocked(env, s, lane, now, io)
        case OpReset(expected, io) => ResetDelivery(env, s, lane, expected, io)
        case OpRestore(snapshot, expected, generation, io) => Restore(env, s, lane, snapshot, expected, generation, io)
        case OpFence => Fence(env, s, lane)
  }
}
