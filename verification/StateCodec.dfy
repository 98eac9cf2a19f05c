/** The outbox file: what `canonical_state` writes and `load_state` reads back. */
module StateCodec {
  import opened Wrappers
  import opened Decimal
  import opened Json
  import opened JsonWriter
  import opened DisplayText
  import opened ReportTypes
  import opened StateSchema
  import opened ReportCodec
  import ReportRoundTrip
  import Utf8

  /** 900 seconds. */
  const ATTEMPT_WINDOW_NS: int := 900 * 1_000_000_000

  datatype Reservation = Reservation(
    id: Digest,
    payload: seq<byte>,
    captured: seq<string>,
    startedEpochNs: u64,
    startedMonotonicNs: u64,
    reservedNextNs: u64
  )

  /** The part of the lane that is written to disk. */
  datatype LaneData = LaneData(
    generation: u64,
    reports: seq<Report>,
    blocked: seq<Report>,
    reservation: Option<Reservation>,
    disabled: bool,
    lastAttemptNs: Option<u64>,
    nextAttemptNs: Option<u64>,
    backoffSeconds: u64
  )

  const EMPTY_LANE: LaneData := LaneData(0, [], [], None, false, None, None, 0)

  /* ---- Writing ---- */

  function OptionalTree(n: Option<int>): Json {
    if n.Some? then Num(n.value) else Null
  }

  function ReportTrees(rs: seq<Report>): (r: seq<Json>)
    ensures |r| == |rs|
    ensures forall i :: 0 <= i < |rs| ==> r[i] == Str(Hex(Encoded(rs[i])))
  {
    if rs == [] then [] else [Str(Hex(Encoded(rs[0])))] + ReportTrees(rs[1..])
  }

  function StringTrees(ss: seq<string>): (r: seq<Json>)
    ensures |r| == |ss|
    ensures forall i :: 0 <= i < |ss| ==> r[i] == Str(ss[i])
  {
    if ss == [] then [] else [Str(ss[0])] + StringTrees(ss[1..])
  }

  function ReservationFields(r: Reservation): seq<Field> {
    [ Field("id", Str(Hex(r.id))),
      Field("payload", Str(Hex(r.payload))),
      Field("captured", Arr(StringTrees(r.captured))),
      Field("attempt_started_epoch_ns", Num(r.startedEpochNs)),
      Field("attempt_started_monotonic_ns", Num(r.startedMonotonicNs)),
      Field("reserved_next_attempt_epoch_ns", Num(r.reservedNextNs)) ]
  }

  function ReservationTree(r: Option<Reservation>): Json {
    if r.Some? then Obj(ReservationFields(r.value)) else Null
  }

  function StateFields(d: LaneData): seq<Field> {
    [ Field("schema", Str("state-v1")),
      Field("state_generation", Num(d.generation)),
      Field("disabled", Bool(d.disabled)),
      Field("last_attempt_epoch_ns", OptionalTree(d.lastAttemptNs)),
      Field("next_attempt_epoch_ns", OptionalTree(d.nextAttemptNs)),
      Field("backoff_seconds", Num(d.backoffSeconds)),
      Field("reports", Arr(ReportTrees(d.reports))),
      Field("blocked", Arr(ReportTrees(d.blocked))),
      Field("reservation", ReservationTree(d.reservation)) ]
  }

  function CanonicalState(d: LaneData): seq<byte> {
    Bytes(Obj(StateFields(d)))
  }

  method WriteReports(rs: seq<Report>) returns (out: seq<byte>)
    ensures out == Bytes(Arr(ReportTrees(rs)))
  {
    hide Encoded, Hex, Print, PrintItems;
    out := StartArray();
    ghost var trees := ReportTrees(rs);
    var i := 0;
    while i < |rs|
      invariant i <= |rs| && OpenArray(out, trees[..i])
    {
      var encoded := EncodeReport(rs[i]);
      var v := EncodeString(Hex(encoded));
      out := PushItem(out, i == 0, trees[..i], v, trees[i]);
      assert trees[..i] + [trees[i]] == trees[..i + 1];
      i := i + 1;
    }
    assert trees[..i] == trees;
    out := CloseArray(out, trees);
  }

  method WriteStrings(ss: seq<string>) returns (out: seq<byte>)
    ensures out == Bytes(Arr(StringTrees(ss)))
  {
    hide Print, PrintItems;
    out := StartArray();
    ghost var trees := StringTrees(ss);
    var i := 0;
    while i < |ss|
      invariant i <= |ss| && OpenArray(out, trees[..i])
    {
      var v := EncodeString(ss[i]);
      out := PushItem(out, i == 0, trees[..i], v, trees[i]);
      assert trees[..i] + [trees[i]] == trees[..i + 1];
      i := i + 1;
    }
    assert trees[..i] == trees;
    out := CloseArray(out, trees);
  }

  method WriteReservation(r: Option<Reservation>) returns (out: seq<byte>)
    ensures out == Bytes(ReservationTree(r))
  {
    if r.None? {
      return Utf8.Encode("null");
    }
    ghost var fs := [];
    out := StartObject();
    out, fs := PushString(out, true, fs, "id", Some(Hex(r.value.id)));
    out, fs := PushString(out, false, fs, "payload", Some(Hex(r.value.payload)));
    var captured := WriteStrings(r.value.captured);
    out, fs := PushMember(out, false, fs, "captured", captured, Arr(StringTrees(r.value.captured)));
    out, fs := PushNumber(out, false, fs, "attempt_started_epoch_ns", Some(r.value.startedEpochNs));
    out, fs := PushNumber(out, false, fs, "attempt_started_monotonic_ns", Some(r.value.startedMonotonicNs));
    out, fs := PushNumber(out, false, fs, "reserved_next_attempt_epoch_ns", Some(r.value.reservedNextNs));
    assert fs == ReservationFields(r.value);
    out := CloseObject(out, fs);
  }

  method WriteHead(d: LaneData) returns (out: seq<byte>, ghost fs: seq<Field>)
    ensures OpenObject(out, fs) && fs == StateFields(d)[..6]
  {
    hide OpenObject, ReportTrees, ReservationTree;
    fs := [];
    out := StartObject();
    out, fs := PushString(out, true, fs, "schema", Some("state-v1"));
    out, fs := PushNumber(out, false, fs, "state_generation", Some(d.generation));
    out, fs := PushMember(out, false, fs, "disabled", Utf8.Encode(if d.disabled then "true" else "false"), Bool(d.disabled));
    out, fs := PushNumber(out, false, fs, "last_attempt_epoch_ns", d.lastAttemptNs);
    out, fs := PushNumber(out, false, fs, "next_attempt_epoch_ns", d.nextAttemptNs);
    out, fs := PushNumber(out, false, fs, "backoff_seconds", Some(d.backoffSeconds));
  }

  /** `canonical_state`. */
  method WriteState(d: LaneData) returns (out: seq<byte>)
    ensures out == CanonicalState(d)
  {
    ghost var fs;
    out, fs := WriteHead(d);
    var reports := WriteReports(d.reports);
    out, fs := PushMember(out, false, fs, "reports", reports, Arr(ReportTrees(d.reports)));
    var blocked := WriteReports(d.blocked);
    out, fs := PushMember(out, false, fs, "blocked", blocked, Arr(ReportTrees(d.blocked)));
    var reservation := WriteReservation(d.reservation);
    out, fs := PushMember(out, false, fs, "reservation", reservation, ReservationTree(d.reservation));
    assert fs == StateFields(d);
    out := CloseObject(out, fs);
  }

  /* ---- Reading ---- */

  function ReadReport(env: Env, v: Value): Option<Report> {
    var text :- v.AsStr();
    var bytes :- DecodeHex(text);
    match DecodeReport(env, bytes)
    case Failure(_) => None
    case Success(r) => Some(r)
  }

  function ReadReports(env: Env, vs: seq<Value>): Option<seq<Report>> {
    if vs == [] then Some([])
    else
      var first :- ReadReport(env, vs[0]);
      var rest :- ReadReports(env, vs[1..]);
      Some([first] + rest)
  }

  /** Items that are strings; others are skipped. */
  function ReadStrings(vs: seq<Value>): seq<string> {
    if vs == [] then []
    else (if vs[0].VStr? then [vs[0].s] else []) + ReadStrings(vs[1..])
  }

  function U64At(v: Value, key: string): Option<u64> {
    var member :- v.Get(key);
    member.AsU64()
  }

  function HexAt(v: Value, key: string): Option<seq<byte>> {
    var member :- v.Get(key);
    var text :- member.AsStr();
    DecodeHex(text)
  }

  function SaturatingSub(a: u64, b: u64): u64 {
    if a < b then 0 else a - b
  }

  function SaturatingAdd(a: u64, b: u64): u64 {
    Min(a + b, U64_LIMIT - 1)
  }

  /** A reservation object; missing numbers fall back on the deadline. */
  function ReadReservation(v: Value, next: Option<u64>): Option<Reservation> {
    var o :- v.AsObject();
    var id :- HexAt(v, "id");
    if |id| != 32 then None
    else
      var payload :- HexAt(v, "payload");
      if !ValidPayload(payload) then None
      else
        var captured := match v.Get("captured") case Some(VArr(items)) => ReadStrings(items) case _ => [];
        var started := U64At(v, "attempt_started_epoch_ns").GetOr(SaturatingSub(next.GetOr(0), ATTEMPT_WINDOW_NS));
        var monotonic := U64At(v, "attempt_started_monotonic_ns").GetOr(0);
        var reserved := U64At(v, "reserved_next_attempt_epoch_ns").GetOr(next.GetOr(SaturatingAdd(started, ATTEMPT_WINDOW_NS)));
        Some(Reservation(id, payload, captured, started, monotonic, reserved))
  }

  function ReadReservationAt(v: Value, next: Option<u64>): Option<Option<Reservation>> {
    match v.Get("reservation")
    case None => Some(None)
    case Some(VNull) => Some(None)
    case Some(member) =>
      var r :- ReadReservation(member, next);
      Some(Some(r))
  }

  datatype ParsedState = ParsedState(
    reports: seq<Report>, disabled: bool, reservation: Option<Reservation>, blocked: seq<Report>)

  /** `parse_state_bytes` on a parsed document; `None` is every error exit. */
  function ParseState(env: Env, v: Value): Option<ParsedState> {
    var o :- v.AsObject();
    var schema :- v.Get("schema");
    if schema.AsStr() != Some("state-v1") then None
    else
      var disabled := match v.Get("disabled") case Some(VBool(b)) => b case _ => false;
      var reportsValue :- v.Get("reports");
      var reportValues :- reportsValue.AsArray();
      var reports :- ReadReports(env, reportValues);
      var blocked :- (match v.Get("blocked") case Some(VArr(items)) => ReadReports(env, items) case _ => Some([]));
      var reservation :- ReadReservationAt(v, U64At(v, "next_attempt_epoch_ns"));
      Some(ParsedState(reports, disabled, reservation, blocked))
  }

  function Document(bytes: seq<byte>): Option<Value> {
    var text :- Utf8.Decode(bytes);
    Parse(text)
  }

  /** `load_state`. */
  function LoadState(env: Env, bytes: seq<byte>): Option<LaneData> {
    var v :- Document(bytes);
    var generation :- U64At(v, "state_generation");
    var p :- ParseState(env, v);
    Some(LaneData(generation, p.reports, p.blocked, p.reservation, p.disabled,
                  U64At(v, "last_attempt_epoch_ns"), U64At(v, "next_attempt_epoch_ns"),
                  U64At(v, "backoff_seconds").GetOr(0)))
  }

  /** The generation a failed load leaves behind in memory. */
  function LoadedGeneration(bytes: seq<byte>): u64 {
    match Document(bytes)
    case None => 0
    case Some(v) => U64At(v, "state_generation").GetOr(0)
  }

  /* ---- Round trip ---- */

  /** What a report looks like after a reload: notification-only methods are gone. */
  function Reloaded(r: Report): Report {
    r.(targets := StripMethods(r.targets))
  }

  function ReloadedAll(rs: seq<Report>): (r: seq<Report>)
    ensures |r| == |rs|
    ensures forall i :: 0 <= i < |rs| ==> r[i] == Reloaded(rs[i])
  {
    if rs == [] then [] else [Reloaded(rs[0])] + ReloadedAll(rs[1..])
  }

  function ReloadedLane(d: LaneData): LaneData {
    d.(reports := ReloadedAll(d.reports), blocked := ReloadedAll(d.blocked))
  }

  ghost predicate AllIdentified(env: Env, rs: seq<Report>) {
    forall i :: 0 <= i < |rs| ==> Identified(env, rs[i])
  }

  predicate AllStable(u: UnicodeTable, rs: seq<Report>) {
    forall i :: 0 <= i < |rs| ==> Stable(u, rs[i].title)
  }

  /** States the lane can be in: reports from the constructor, a payload within its bounds. */
  ghost predicate Writable(env: Env, d: LaneData) {
    && AllIdentified(env, d.reports) && AllIdentified(env, d.blocked)
    && (d.reservation.Some? ==> ValidPayload(d.reservation.value.payload))
  }

  lemma ReadWrittenReport(env: Env, r: Report)
    requires Identified(env, r)
    ensures ReadReport(env, VStr(Hex(Encoded(r)))) == if Stable(env.unicode, r.title) then Some(Reloaded(r)) else None
  {
    HexRoundTrip(Encoded(r));
    ReportRoundTrip.DecodeEncoded(env, r);
  }

  lemma {:induction false} ReadWrittenReports(env: Env, rs: seq<Report>)
    requires AllIdentified(env, rs)
    ensures ReadReports(env, ToValues(ReportTrees(rs))) == if AllStable(env.unicode, rs) then Some(ReloadedAll(rs)) else None
  {
    hide Encoded, Stable, Identified, Reloaded, Hex;
    if rs != [] {
      var rest := rs[1..];
      ReadWrittenReport(env, rs[0]);
      ReadWrittenReports(env, rest);
      assert ReportTrees(rs)[1..] == ReportTrees(rest);
      assert ToValues(ReportTrees(rs)) == [VStr(Hex(Encoded(rs[0])))] + ToValues(ReportTrees(rest));
      assert forall i :: 0 <= i < |rest| ==> rest[i] == rs[i + 1];
      assert AllStable(env.unicode, rs) <==> Stable(env.unicode, rs[0].title) && AllStable(env.unicode, rest);
    }
  }

  lemma {:induction false} ReadWrittenStrings(ss: seq<string>)
    ensures ReadStrings(ToValues(StringTrees(ss))) == ss
  {
    if ss != [] {
      ReadWrittenStrings(ss[1..]);
      assert StringTrees(ss)[1..] == StringTrees(ss[1..]);
      assert ToValues(StringTrees(ss)) == [VStr(ss[0])] + ToValues(StringTrees(ss[1..]));
      assert [ss[0]] + ss[1..] == ss;
    }
  }

  lemma ReservationMembers(r: Reservation)
    ensures var v := ToValue(Obj(ReservationFields(r)));
      && v.Get("id") == Some(VStr(Hex(r.id)))
      && v.Get("payload") == Some(VStr(Hex(r.payload)))
      && v.Get("captured") == Some(VArr(ToValues(StringTrees(r.captured))))
      && v.Get("attempt_started_epoch_ns") == Some(VNum(r.startedEpochNs))
      && v.Get("attempt_started_monotonic_ns") == Some(VNum(r.startedMonotonicNs))
      && v.Get("reserved_next_attempt_epoch_ns") == Some(VNum(r.reservedNextNs))
  {
    var fs := ReservationFields(r);
    assert DistinctKeys(fs);
    ToMapAt(fs, 0);
    ToMapAt(fs, 1);
    ToMapAt(fs, 2);
    ToMapAt(fs, 3);
    ToMapAt(fs, 4);
    ToMapAt(fs, 5);
  }

  lemma ReadWrittenReservation(r: Reservation, next: Option<u64>)
    requires ValidPayload(r.payload)
    ensures ReadReservation(ToValue(Obj(ReservationFields(r))), next) == Some(r)
  {
    ReservationMembers(r);
    HexRoundTrip(r.id);
    HexRoundTrip(r.payload);
    ReadWrittenStrings(r.captured);
  }

  lemma StateKeysDistinct(d: LaneData)
    ensures DistinctKeys(StateFields(d))
  {
  }

  lemma StateMembers(d: LaneData)
    ensures var v := ToValue(Obj(StateFields(d)));
      && v.Get("schema") == Some(VStr("state-v1"))
      && v.Get("state_generation") == Some(VNum(d.generation))
      && v.Get("disabled") == Some(VBool(d.disabled))
      && v.Get("last_attempt_epoch_ns") == Some(ToValue(OptionalTree(d.lastAttemptNs)))
      && v.Get("next_attempt_epoch_ns") == Some(ToValue(OptionalTree(d.nextAttemptNs)))
      && v.Get("backoff_seconds") == Some(VNum(d.backoffSeconds))
      && v.Get("reports") == Some(VArr(ToValues(ReportTrees(d.reports))))
      && v.Get("blocked") == Some(VArr(ToValues(ReportTrees(d.blocked))))
      && v.Get("reservation") == Some(ToValue(ReservationTree(d.reservation)))
  {
    var fs := StateFields(d);
    StateKeysDistinct(d);
    ToMapAt(fs, 0);
    ToMapAt(fs, 1);
    ToMapAt(fs, 2);
    ToMapAt(fs, 3);
    ToMapAt(fs, 4);
    ToMapAt(fs, 5);
    ToMapAt(fs, 6);
    ToMapAt(fs, 7);
    ToMapAt(fs, 8);
  }

  lemma ReadWrittenNumber(v: Value, key: string, n: Option<u64>)
    requires v.Get(key) == Some(ToValue(OptionalTree(n)))
    ensures U64At(v, key) == n
  {
  }

  lemma ReadWrittenReservationAt(d: LaneData, next: Option<u64>)
    requires d.reservation.Some? ==> ValidPayload(d.reservation.value.payload)
    ensures ReadReservationAt(ToValue(Obj(StateFields(d))), next) == Some(d.reservation)
  {
    StateMembers(d);
    if d.reservation.Some? {
      ReadWrittenReservation(d.reservation.value, next);
    }
  }

  lemma ParseWritten(env: Env, d: LaneData)
    requires Writable(env, d)
    ensures ParseState(env, ToValue(Obj(StateFields(d))))
         == if AllStable(env.unicode, d.reports + d.blocked)
            then Some(ParsedState(ReloadedAll(d.reports), d.disabled, d.reservation, ReloadedAll(d.blocked)))
            else None
  {
    hide StateFields, ToValue, ToValues, ReportTrees, ReadReports, ReadReservationAt, ReservationTree, AllStable, ReloadedAll,
         Identified;
    StateMembers(d);
    ReadWrittenReports(env, d.reports);
    ReadWrittenReports(env, d.blocked);
    ReadWrittenReservationAt(d, U64At(ToValue(Obj(StateFields(d))), "next_attempt_epoch_ns"));
    StableConcat(env.unicode, d.reports, d.blocked);
  }

  lemma StableConcat(u: UnicodeTable, a: seq<Report>, b: seq<Report>)
    ensures AllStable(u, a + b) <==> AllStable(u, a) && AllStable(u, b)
  {
    if AllStable(u, a + b) {
      assert forall i :: 0 <= i < |a| ==> (a + b)[i] == a[i];
      assert forall i :: 0 <= i < |b| ==> (a + b)[|a| + i] == b[i];
    }
  }

  /**
    Loading what was written recovers the whole state, up to notification-only
    methods, exactly when every title in it is stable; otherwise nothing is loaded.
   */
  lemma LoadWritten(env: Env, d: LaneData)
    requires Writable(env, d)
    ensures LoadState(env, CanonicalState(d))
         == if AllStable(env.unicode, d.reports + d.blocked) then Some(ReloadedLane(d)) else None
    ensures LoadedGeneration(CanonicalState(d)) == d.generation
  {
    hide StateFields, ToValues, ReportTrees, ReservationTree, AllStable, ReloadedAll, ParseState, Identified;
    var v := ToValue(Obj(StateFields(d)));
    BytesRoundTrip(Obj(StateFields(d)));
    assert Document(CanonicalState(d)) == Some(v);
    StateMembers(d);
    ReadWrittenNumber(v, "last_attempt_epoch_ns", d.lastAttemptNs);
    ReadWrittenNumber(v, "next_attempt_epoch_ns", d.nextAttemptNs);
    ParseWritten(env, d);
  }
}
