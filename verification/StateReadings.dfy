/** What a state file is read as, whoever wrote it: which files are states, and what stands in for members that are missing. */
module StateReadings {
  import opened Wrappers
  import opened Decimal
  import opened Json
  import opened ReportTypes
  import opened StateSchema
  import opened ReportCodec
  import opened StateCodec

  const LAST: int := 0xFFFF_FFFF_FFFF_FFFF
  const WINDOW: int := 900_000_000_000

  /** The member is a number of 64 bits without sign. */
  predicate HasNumber(v: Value, key: string) {
    v.Get(key).Some? && v.Get(key).value.VNum? && 0 <= v.Get(key).value.n <= LAST
  }

  function NumberOr(v: Value, key: string, other: int): int {
    if HasNumber(v, key) then v.Get(key).value.n else other
  }

  lemma NumbersRead(v: Value, key: string)
    ensures U64At(v, key) == if HasNumber(v, key) then Some(v.Get(key).value.n) else None
  {
  }

  /** The member is a text of hexadecimal digits for these bytes. */
  predicate HasBytes(v: Value, key: string, bytes: seq<byte>) {
    v.Get(key).Some? && v.Get(key).value.VStr? && DecodeHex(v.Get(key).value.s) == Some(bytes)
  }

  /** The texts of an array, in order; what is no text is left out. */
  function TextsOf(items: seq<Value>): seq<string> {
    if items == [] then []
    else if items[|items| - 1].VStr? then TextsOf(items[..|items| - 1]) + [items[|items| - 1].s]
    else TextsOf(items[..|items| - 1])
  }

  lemma Regrouped(a: seq<string>, b: seq<string>, c: seq<string>)
    ensures a + (b + c) == a + b + c
  {
  }

  lemma {:induction false} ReadStringsSnoc(items: seq<Value>, v: Value)
    ensures ReadStrings(items + [v]) == ReadStrings(items) + if v.VStr? then [v.s] else []
  {
    if items == [] {
      assert items + [v] == [v] && [v][1..] == [];
    } else {
      assert (items + [v])[0] == items[0] && (items + [v])[1..] == items[1..] + [v];
      ReadStringsSnoc(items[1..], v);
      var first, last := if items[0].VStr? then [items[0].s] else [], if v.VStr? then [v.s] else [];
      Regrouped(first, ReadStrings(items[1..]), last);
    }
  }

  lemma {:induction false} StringsRead(items: seq<Value>)
    ensures ReadStrings(items) == TextsOf(items)
    decreases |items|
  {
    if items != [] {
      var n := |items| - 1;
      StringsRead(items[..n]);
      ReadStringsSnoc(items[..n], items[n]);
      assert items == items[..n] + [items[n]];
    }
  }

  /**
    A reservation is read exactly from an object with an id of 32 bytes and a payload of 1 to 65,536. A start that is missing is a window
    before the deadline of the file, at least 0; a monotonic start is 0; a deadline that is missing is that of the file, or a window
    after the start, at most the last number; captured ids are the texts of a list, if there is one.
   */
  lemma ReservationExactly(v: Value, next: Option<u64>)
    ensures ReadReservation(v, next).Some? <==>
      v.VObj? && (exists id :: HasBytes(v, "id", id) && |id| == 32)
      && exists payload :: HasBytes(v, "payload", payload) && 1 <= |payload| <= 65_536
    ensures ReadReservation(v, next).Some? ==>
      var r := ReadReservation(v, next).value;
      var deadline := if next == None then 0 else next.value;
      && HasBytes(v, "id", r.id) && HasBytes(v, "payload", r.payload)
      && r.captured == (match v.Get("captured") case Some(VArr(items)) => TextsOf(items) case _ => [])
      && r.startedEpochNs == NumberOr(v, "attempt_started_epoch_ns", if deadline < WINDOW then 0 else deadline - WINDOW)
      && r.startedMonotonicNs == NumberOr(v, "attempt_started_monotonic_ns", 0)
      && r.reservedNextNs == NumberOr(v, "reserved_next_attempt_epoch_ns",
           if next != None then next.value else if r.startedEpochNs + WINDOW > LAST then LAST else r.startedEpochNs + WINDOW)
  {
    hide DecodeHex, ReadStrings, TextsOf, HasNumber, U64At;
    NumbersRead(v, "attempt_started_epoch_ns");
    NumbersRead(v, "attempt_started_monotonic_ns");
    NumbersRead(v, "reserved_next_attempt_epoch_ns");
    BytesRead(v, "id");
    BytesRead(v, "payload");
    match v.Get("captured") {
      case Some(VArr(items)) => StringsRead(items);
      case _ =>
    }
  }

  lemma BytesRead(v: Value, key: string)
    ensures HexAt(v, key).Some? ==> HasBytes(v, key, HexAt(v, key).value)
    ensures forall bytes :: HasBytes(v, key, bytes) ==> HexAt(v, key) == Some(bytes)
  {
    hide DecodeHex;
  }

  /** The value is the hexadecimal text of the canonical bytes of a report. */
  predicate IsReport(env: Env, v: Value, r: Report) {
    v.VStr? && DecodeHex(v.s).Some? && DecodeReport(env, DecodeHex(v.s).value) == Success(r)
  }

  lemma {:induction false} ReportsRead(env: Env, vs: seq<Value>)
    ensures ReadReports(env, vs).Some? <==> forall i :: 0 <= i < |vs| ==> ReadReport(env, vs[i]).Some?
    ensures ReadReports(env, vs).Some? ==>
      |ReadReports(env, vs).value| == |vs| && forall i :: 0 <= i < |vs| ==> IsReport(env, vs[i], ReadReports(env, vs).value[i])
  {
    hide DecodeReport, DecodeHex;
    if vs != [] {
      ReportsRead(env, vs[1..]);
      assert forall i :: 0 < i < |vs| ==> vs[i] == vs[1..][i - 1];
      assert forall i :: 0 <= i < |vs[1..]| ==> vs[1..][i] == vs[i + 1];
    }
  }

  ghost predicate SomeReport(env: Env, v: Value) {
    exists r :: IsReport(env, v, r)
  }

  /** Every item of the list is a report. */
  ghost predicate AllReports(env: Env, vs: seq<Value>) {
    forall i :: 0 <= i < |vs| ==> SomeReport(env, vs[i])
  }

  lemma ReportReads(env: Env, v: Value)
    ensures ReadReport(env, v).Some? <==> SomeReport(env, v)
  {
    hide DecodeReport, DecodeHex;
    if ReadReport(env, v).Some? {
      assert IsReport(env, v, ReadReport(env, v).value);
    }
  }

  /**
    A document is a state exactly if it is an object that names the schema, has a list of reports, a list of blocked reports unless that
    member is no list, and a reservation unless that is missing or `null`. It is disabled only if it says so.
   */
  lemma StateExactly(env: Env, v: Value)
    ensures ParseState(env, v).Some? <==>
      && v.VObj? && v.Get("schema") == Some(VStr("state-v1"))
      && v.Get("reports").Some? && v.Get("reports").value.VArr? && AllReports(env, v.Get("reports").value.items)
      && (v.Get("blocked").Some? && v.Get("blocked").value.VArr? ==> AllReports(env, v.Get("blocked").value.items))
      && (v.Get("reservation").Some? && v.Get("reservation") != Some(VNull) ==>
            ReadReservation(v.Get("reservation").value, U64At(v, "next_attempt_epoch_ns")).Some?)
    ensures ParseState(env, v).Some? ==>
      var state := ParseState(env, v).value;
      && (state.disabled <==> v.Get("disabled") == Some(VBool(true)))
      && |state.reports| == |v.Get("reports").value.items|
      && (forall i :: 0 <= i < |state.reports| ==> IsReport(env, v.Get("reports").value.items[i], state.reports[i]))
      && (if v.Get("blocked").Some? && v.Get("blocked").value.VArr?
          then |state.blocked| == |v.Get("blocked").value.items|
               && forall i :: 0 <= i < |state.blocked| ==> IsReport(env, v.Get("blocked").value.items[i], state.blocked[i])
          else state.blocked == [])
      && state.reservation == (if v.Get("reservation") == None || v.Get("reservation") == Some(VNull) then None
                               else ReadReservation(v.Get("reservation").value, U64At(v, "next_attempt_epoch_ns")))
  {
    hide ReadReports, ReadReport, IsReport, ReadReservation, U64At;
    if v.Get("reports").Some? && v.Get("reports").value.VArr? {
      ListReads(env, v.Get("reports").value.items);
    }
    if v.Get("blocked").Some? && v.Get("blocked").value.VArr? {
      ListReads(env, v.Get("blocked").value.items);
    }
  }

  lemma ListReads(env: Env, vs: seq<Value>)
    ensures ReadReports(env, vs).Some? <==> AllReports(env, vs)
    ensures ReadReports(env, vs).Some? ==>
      |ReadReports(env, vs).value| == |vs| && forall i :: 0 <= i < |vs| ==> IsReport(env, vs[i], ReadReports(env, vs).value[i])
  {
    hide ReadReport, IsReport, ReadReports;
    ReportsRead(env, vs);
    forall i | 0 <= i < |vs|
      ensures ReadReport(env, vs[i]).Some? <==> SomeReport(env, vs[i])
    {
      ReportReads(env, vs[i]);
    }
  }
}
