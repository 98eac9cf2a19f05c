/**
  Deleting a sidecar's rows from the registry: the rows are loaded outside the lock and written
  back inside it, so a commit in between is lost.
 */
module RegistryDelete {
  import opened Wrappers
  import opened Json
  import opened LedgerText
  import opened LedgerCommit
  import opened LedgerTheorems
  import opened Admission
  import opened AdmissionRuns

  /** Which rows to delete: those of the language with this stem, or this episode. */
  datatype Request = Request(stem: Option<string>, episodeId: Option<i64>, lang: string)

  predicate Deletes(norm: string -> string, q: Request, v: Value) {
    ReadRegistry(v).Some? &&
    var row := ReadRegistry(v).value;
    && norm(row.lang.GetOr("")) == norm(q.lang)
    && ((q.stem.Some? && OptionalString(v, "stem") == Some(q.stem)) || (q.episodeId.Some? && row.episodeId == q.episodeId))
  }

  /** The text of a member that may be missing or `null`, which count as empty. */
  function TextOr(v: Value, key: string): string
    requires v.VObj?
  {
    if key in v.fields && v.fields[key].VStr? then v.fields[key].s else ""
  }

  /**
    A row is asked for if the typed reader takes it, its language has the normal form of the one named, and it has
    the stem, or the episode, that is named.
   */
  predicate AskedFor(norm: string -> string, q: Request, v: Value) {
    && ReadRegistry(v).Some? && v.VObj?
    && norm(TextOr(v, "lang")) == norm(q.lang)
    && (|| (q.stem.Some? && v.Get("stem") == Some(VStr(q.stem.value)))
        || (q.episodeId.Some? && v.Get("episode_id") == Some(VNum(q.episodeId.value))))
  }

  lemma DeletesExactly(norm: string -> string, q: Request, v: Value)
    ensures Deletes(norm, q, v) <==> AskedFor(norm, q, v)
  {
  }

  /** The rows the typed reader takes. */
  function Typed(rows: seq<Value>): (r: seq<Value>)
    ensures |r| <= |rows|
  {
    if rows == [] then [] else (if ReadRegistry(rows[0]).Some? then [rows[0]] else []) + Typed(rows[1..])
  }

  function Kept(norm: string -> string, q: Request, rows: seq<Value>): (r: seq<Value>)
    ensures |r| <= |rows|
  {
    if rows == [] then [] else (if Deletes(norm, q, rows[0]) then [] else [rows[0]]) + Kept(norm, q, rows[1..])
  }

  /** One row at a time. */
  lemma KeptCons(norm: string -> string, q: Request, rows: seq<Value>)
    requires rows != []
    ensures var v := rows[0];
      && Typed(rows) == (if ReadRegistry(v).Some? then [v] else []) + Typed(rows[1..])
      && |Typed(rows)| == (if ReadRegistry(v).Some? then 1 else 0) + |Typed(rows[1..])|
      && Kept(norm, q, Typed(rows)) ==
           (if ReadRegistry(v).Some? && !Deletes(norm, q, v) then [v] else []) + Kept(norm, q, Typed(rows[1..]))
  {
    hide ReadRegistry, Deletes;
    var v, rest := rows[0], Typed(rows[1..]);
    if ReadRegistry(v).Some? {
      assert ([v] + rest)[1..] == rest;
    } else {
      assert [] + rest == rest && [] + Kept(norm, q, rest) == Kept(norm, q, rest);
    }
  }

  /** What is to be written back, if any row goes. */
  function PlanDelete(norm: string -> string, file: File, q: Request): Option<seq<Value>> {
    var rows := Typed(LoadRows(file));
    var kept := Kept(norm, q, rows);
    if |kept| == |rows| then None else Some(kept)
  }

  const DECLARED: map<string, Value> :=
    map["stem" := VNull, "lang" := VNull, "episode_id" := VNull, "source" := VNull, "source_kind" := VNull,
        "source_path" := VNull, "target_path" := VNull, "ts" := VNull]

  /** A row as the typed writer has it: every declared member is there, if only as `null`. */
  function Serialized(v: Value): Value
    requires v.VObj?
  {
    VObj(DECLARED + v.fields)
  }

  /** The order of the other members is that of a hash map; any writer with this property may be it. */
  ghost predicate Writes(write: Value -> Json) {
    forall v: Value :: v.VObj? ==> write(v).Obj? && ToValue(write(v)) == Serialized(v)
  }

  function RowsText(write: Value -> Json, rows: seq<Value>): seq<byte>
    decreases |rows|
  {
    if rows == [] then [] else RowsText(write, rows[..|rows| - 1]) + RowLine(write(rows[|rows| - 1]))
  }

  /** The second half: what was planned replaces whatever the file holds now, unless the rewrite fails. */
  function FinishDelete(write: Value -> Json, now: File, plan: Option<seq<Value>>, rewriteFails: bool): (File, bool) {
    if plan.None? || rewriteFails then (now, false) else (Present(RowsText(write, plan.value)), true)
  }

  /* ---- Reading back what was written ---- */

  predicate AllObjects(rows: seq<Value>) {
    forall i :: 0 <= i < |rows| ==> rows[i].VObj?
  }

  function SerializedAll(rows: seq<Value>): (r: seq<Value>)
    requires AllObjects(rows)
    ensures |r| == |rows| && forall i :: 0 <= i < |r| ==> r[i] == Serialized(rows[i])
  {
    seq(|rows|, i requires 0 <= i < |rows| => Serialized(rows[i]))
  }

  lemma {:induction false} RewrittenRows(write: Value -> Json, rows: seq<Value>)
    requires Writes(write) && AllObjects(rows)
    ensures Rows(RowsText(write, rows)) == Success(SerializedAll(rows)) && LineEnded(RowsText(write, rows))
    decreases |rows|
  {
    hide Rows, LineEnded, RowLine, Serialized;
    if rows == [] {
      EmptyRows();
      NothingIsEnded();
    } else {
      var before, last := rows[..|rows| - 1], rows[|rows| - 1];
      RewrittenRows(write, before);
      RowsAfterAppend(RowsText(write, before), write(last));
      assert SerializedAll(before) + [Serialized(last)] == SerializedAll(rows);
    }
  }

  lemma {:induction false} KeptAreObjects(norm: string -> string, q: Request, rows: seq<Value>)
    ensures AllObjects(Kept(norm, q, Typed(rows)))
  {
    if rows != [] {
      KeptAreObjects(norm, q, rows[1..]);
      KeptCons(norm, q, rows);
    }
  }

  /** A row that was written back is read as it was. */
  lemma SerializedReads(v: Value)
    requires v.VObj?
    ensures ReadRegistry(Serialized(v)) == ReadRegistry(v)
  {
    hide Serialized, OptionalString, OptionalI64, ArtifactOf;
    SerializedMember(v, "stem");
    SerializedMember(v, "lang");
    SerializedMember(v, "episode_id");
    SerializedMember(v, "source");
    SerializedMember(v, "source_kind");
    SerializedMember(v, "source_path");
    SerializedMember(v, "target_path");
    SerializedMember(v, "ts");
    SerializedMember(v, "kind");
    SerializedDigest(v);
  }

  lemma SerializedMember(v: Value, key: string)
    requires v.VObj?
    ensures var w := Serialized(v);
      && w.VObj? && OptionalString(w, key) == OptionalString(v, key) && OptionalI64(w, key) == OptionalI64(v, key)
      && (key == "kind" ==> w.Get(key) == v.Get(key))
  {
  }

  lemma SerializedDigest(v: Value)
    requires v.VObj?
    ensures ArtifactOf(Serialized(v)) == ArtifactOf(v)
  {
    hide ParseDigest;
    assert Serialized(v).Get("artifact_sha256") == v.Get("artifact_sha256");
  }

  lemma {:induction false} SerializedCollect(rows: seq<Value>)
    requires AllObjects(rows)
    ensures Collect(ReadRegistry, SerializedAll(rows)) == Collect(ReadRegistry, rows)
  {
    hide ReadRegistry, Serialized;
    if rows != [] {
      SerializedReads(rows[0]);
      SerializedCollect(rows[1..]);
      assert SerializedAll(rows)[1..] == SerializedAll(rows[1..]);
    }
  }

  /**
    A delete nobody interferes with leaves, to every typed reader, exactly the rows it did not
    ask for, in order, and leaves a ledger that ends its last line.
   */
  lemma DeleteRemovesExactly(norm: string -> string, write: Value -> Json, file: File, q: Request)
    requires Writes(write)
    ensures var (after, deleted) := FinishDelete(write, file, PlanDelete(norm, file, q), false);
      && RegistryRows(after) == Collect(ReadRegistry, Kept(norm, q, Typed(LoadRows(file))))
      && (deleted ==> Sturdy(after))
      && (deleted <==> exists i :: 0 <= i < |LoadRows(file)| && Deletes(norm, q, LoadRows(file)[i]))
  {
    hide ReadRegistry, LoadRows, Rows, LineEnded, Deletes;
    var kept := Kept(norm, q, Typed(LoadRows(file)));
    SomethingDeleted(norm, q, LoadRows(file));
    if PlanDelete(norm, file, q).Some? {
      KeptAreObjects(norm, q, LoadRows(file));
      RewrittenRows(write, kept);
      SerializedCollect(kept);
      LoadedAreRows(RowsText(write, kept));
    } else {
      KeptWhole(norm, q, Typed(LoadRows(file)));
      TypedCollect(LoadRows(file));
    }
  }

  lemma {:induction false} KeptWhole(norm: string -> string, q: Request, rows: seq<Value>)
    requires |Kept(norm, q, rows)| == |rows|
    ensures Kept(norm, q, rows) == rows
  {
    hide Deletes;
    if rows != [] {
      KeptWhole(norm, q, rows[1..]);
    }
  }

  lemma {:induction false} TypedCollect(rows: seq<Value>)
    ensures Collect(ReadRegistry, Typed(rows)) == Collect(ReadRegistry, rows)
  {
    hide ReadRegistry;
    if rows != [] {
      var v, rest := rows[0], Typed(rows[1..]);
      TypedCollect(rows[1..]);
      assert ([v] + rest)[1..] == rest && [] + rest == rest;
    }
  }

  lemma KeptAtMost(norm: string -> string, q: Request, rows: seq<Value>)
    ensures |Kept(norm, q, Typed(rows))| <= |Typed(rows)|
    ensures forall v :: Deletes(norm, q, v) ==> ReadRegistry(v).Some?
  {
  }

  lemma {:induction false} SomethingDeleted(norm: string -> string, q: Request, rows: seq<Value>)
    ensures |Kept(norm, q, Typed(rows))| < |Typed(rows)| <==> exists i :: 0 <= i < |rows| && Deletes(norm, q, rows[i])
  {
    if rows != [] {
      SomethingDeleted(norm, q, rows[1..]);
      KeptCons(norm, q, rows);
      KeptAtMost(norm, q, rows[1..]);
      assert forall i :: 0 < i < |rows| ==> rows[i] == rows[1..][i - 1];
      assert forall i :: 0 <= i < |rows[1..]| ==> rows[1..][i] == rows[i + 1];
    }
  }

  /* ---- A commit in between ---- */

  /** Writing a row back gives it no identity it did not have. */
  lemma SerializedIdentity(norm: string -> string, v: Value, id: LedgerIdentity)
    requires v.VObj? && RowIdentity(norm, Serialized(v)) == Some(id)
    ensures RowIdentity(norm, v) == Some(id)
  {
    var w := Serialized(v);
    assert w.Get("episode_id") == if v.Get("episode_id").Some? then v.Get("episode_id") else Some(VNull);
    assert w.Get("lang") == if v.Get("lang").Some? then v.Get("lang") else Some(VNull);
    assert w.Get("language") == v.Get("language") && w.Get("kind") == v.Get("kind");
    assert w.Get("artifact_sha256") == v.Get("artifact_sha256");
  }

  lemma {:induction false} NoMatchBack(norm: string -> string, rows: seq<Value>, id: LedgerIdentity)
    requires AllObjects(rows) && forall i :: 0 <= i < |rows| ==> RowIdentity(norm, rows[i]) != Some(id)
    ensures LastMatch(norm, SerializedAll(rows), id) == None
    decreases |rows|
  {
    hide RowIdentity, Serialized;
    if rows != [] {
      var n := |rows| - 1;
      NoMatchBack(norm, rows[..n], id);
      if RowIdentity(norm, Serialized(rows[n])) == Some(id) {
        SerializedIdentity(norm, rows[n], id);
      }
      assert SerializedAll(rows)[..n] == SerializedAll(rows[..n]);
    }
  }

  lemma {:induction false} NoMatchMeans(norm: string -> string, rows: seq<Value>, id: LedgerIdentity)
    requires LastMatch(norm, rows, id) == None
    ensures forall i :: 0 <= i < |rows| ==> RowIdentity(norm, rows[i]) != Some(id)
    decreases |rows|
  {
    hide RowIdentity;
    if rows != [] {
      NoMatchMeans(norm, rows[..|rows| - 1], id);
    }
  }

  lemma {:induction false} KeptFrom(norm: string -> string, q: Request, rows: seq<Value>, v: Value)
    requires v in Kept(norm, q, Typed(rows))
    ensures v in rows
  {
    hide ReadRegistry, Deletes;
    if rows != [] {
      KeptCons(norm, q, rows);
      if v != rows[0] {
        KeptFrom(norm, q, rows[1..], v);
      }
    }
  }

  /**
    A target is committed after the delete has loaded its rows and before it writes them back. Both
    report success, and the registry has lost the row the state ledger still has: the ledgers
    are no longer paired.
   */
  lemma DeleteLosesCommit(norm: string -> string, write: Value -> Json, files: Files, q: Request, id: LedgerIdentity,
                          registryRow: Json, stateRow: Json, faults: Faults)
    requires Writes(write) && Paired(norm, files) && !HasRow(norm, files.registry, id)
    requires PlanDelete(norm, files.registry, q).Some?
    requires CommitPair(norm, files, id, registryRow, stateRow, faults).1.None?
    ensures var committed := CommitPair(norm, files, id, registryRow, stateRow, faults).0;
      var (registry, deleted) := FinishDelete(write, committed.registry, PlanDelete(norm, files.registry, q), false);
      var after := committed.(registry := registry);
      && deleted && HasRow(norm, committed.registry, id) && HasRow(norm, after.state, id)
      && !HasRow(norm, after.registry, id) && !Paired(norm, after)
  {
    hide RowIdentity, AppendIfAbsent, EndsLine, SameRow, LastMatch, RowLine, Identities, Rows, LoadRows, Deletes, CommitPair, LineEnded;
    var committed := CommitPair(norm, files, id, registryRow, stateRow, faults).0;
    SuccessLeavesRows(norm, files, id, registryRow, stateRow, faults, Registry);
    SuccessLeavesRows(norm, files, id, registryRow, stateRow, faults, State);
    var kept := PlanDelete(norm, files.registry, q).value;
    var loaded := LoadRows(files.registry);
    LoadedWhenReadable(files.registry);
    KeptAreObjects(norm, q, loaded);
    RewrittenRows(write, kept);
    NoMatchMeans(norm, loaded, id);
    forall i | 0 <= i < |kept|
      ensures RowIdentity(norm, kept[i]) != Some(id)
    {
      KeptFrom(norm, q, loaded, kept[i]);
    }
    NoMatchBack(norm, kept, id);
    var after := committed.(registry := Present(RowsText(write, kept)));
    assert ReadableRows(after.registry) == Some(SerializedAll(kept));
    MatchIffListed(norm, SerializedAll(kept), id);
    MatchIffListed(norm, ReadableRows(after.state).value, id);
  }

  lemma {:induction false} KeptConcat(norm: string -> string, q: Request, a: seq<Value>, b: seq<Value>)
    ensures Kept(norm, q, Typed(a + b)) == Kept(norm, q, Typed(a)) + Kept(norm, q, Typed(b))
  {
    hide Deletes, ReadRegistry, Kept, Typed;
    var rest := Kept(norm, q, Typed(b));
    if a == [] {
      assert a + b == b && [] + rest == rest;
      KeptNone(norm, q);
    } else {
      assert (a + b)[1..] == a[1..] + b;
      KeptConcat(norm, q, a[1..], b);
      KeptCons(norm, q, a);
      KeptCons(norm, q, a + b);
      var first := if ReadRegistry(a[0]).Some? && !Deletes(norm, q, a[0]) then [a[0]] else [];
      Regrouped(first, Kept(norm, q, Typed(a[1..])), rest);
    }
  }

  lemma KeptNone(norm: string -> string, q: Request)
    ensures Kept(norm, q, Typed([])) == []
  {
  }

  lemma Regrouped(a: seq<Value>, b: seq<Value>, c: seq<Value>)
    ensures a + (b + c) == a + b + c
  {
  }

  /** Wherever a row stands, it is written back exactly if it can be read and is not asked for; the others keep their order. */
  lemma KeptExactly(norm: string -> string, q: Request, a: seq<Value>, v: Value, b: seq<Value>)
    ensures Kept(norm, q, Typed(a + [v] + b)) ==
      Kept(norm, q, Typed(a)) + (if ReadRegistry(v).Some? && !AskedFor(norm, q, v) then [v] else []) + Kept(norm, q, Typed(b))
    ensures Kept(norm, q, Typed([])) == []
  {
    hide Deletes, ReadRegistry, Kept, Typed, AskedFor;
    KeptConcat(norm, q, a + [v], b);
    KeptConcat(norm, q, a, [v]);
    KeptNone(norm, q);
    KeptCons(norm, q, [v]);
    assert [v][1..] == [];
    DeletesExactly(norm, q, v);
  }

  /** A delete would remove each of these rows, or the typed reader skips it. */
  predicate AllGo(norm: string -> string, q: Request, rows: seq<Value>) {
    forall i :: 0 <= i < |rows| ==> ReadRegistry(rows[i]).Some? ==> Deletes(norm, q, rows[i])
  }

  lemma {:induction false} NothingKept(norm: string -> string, q: Request, rows: seq<Value>)
    ensures Kept(norm, q, Typed(rows)) == [] <==> AllGo(norm, q, rows)
  {
    hide Deletes, ReadRegistry;
    if rows != [] {
      NothingKept(norm, q, rows[1..]);
      KeptCons(norm, q, rows);
      assert forall i :: 0 < i < |rows| ==> rows[i] == rows[1..][i - 1];
      assert forall i :: 0 <= i < |rows[1..]| ==> rows[1..][i] == rows[i + 1];
    }
  }

  /** The lines of more rows at the end of a file. */
  function WithLines(b: seq<byte>, rows: seq<Json>): seq<byte>
    decreases |rows|
  {
    if rows == [] then b else WithLines(b, rows[..|rows| - 1]) + RowLine(rows[|rows| - 1])
  }

  function Values(rows: seq<Json>): (r: seq<Value>)
    ensures |r| == |rows| && forall i :: 0 <= i < |r| ==> r[i] == ToValue(rows[i])
  {
    seq(|rows|, i requires 0 <= i < |rows| => ToValue(rows[i]))
  }

  lemma {:induction false} LinesAreRows(b: seq<byte>, rows: seq<Json>)
    requires Rows(b).Success? && LineEnded(b) && forall i :: 0 <= i < |rows| ==> rows[i].Obj?
    ensures Rows(WithLines(b, rows)) == Success(Rows(b).value + Values(rows)) && LineEnded(WithLines(b, rows))
    decreases |rows|
  {
    hide Rows, LineEnded, RowLine;
    if rows == [] {
      assert Rows(b).value + [] == Rows(b).value;
    } else {
      var before, last := rows[..|rows| - 1], rows[|rows| - 1];
      LinesAreRows(b, before);
      RowsAfterAppend(WithLines(b, before), last);
      assert Rows(b).value + Values(before) + [ToValue(last)] == Rows(b).value + Values(rows);
    }
  }

  lemma {:induction false} MoreRowsMoreText(write: Value -> Json, a: seq<Value>, b: seq<Value>)
    requires b != []
    ensures |RowsText(write, a + b)| > |RowsText(write, a)|
    decreases |b|
  {
    hide RowLine;
    var last := b[|b| - 1];
    RowLineIsNotEmpty(write(last));
    assert (a + b)[..|a + b| - 1] == a + b[..|b| - 1];
    if |b| > 1 {
      MoreRowsMoreText(write, a, b[..|b| - 1]);
    } else {
      assert a + b[..0] == a;
    }
  }

  /**
    After any rows were appended in between, the late rewrite does what a delete under the lock
    would have done exactly when that delete would have removed, or skipped, all of them too.
   */
  lemma LateRewriteIsSerialExactly(norm: string -> string, write: Value -> Json, file: File, q: Request, rows: seq<Json>)
    requires Sturdy(file) && PlanDelete(norm, file, q).Some?
    requires forall i :: 0 <= i < |rows| ==> rows[i].Obj?
    ensures var now := Present(WithLines(Content(file), rows));
      AllGo(norm, q, Values(rows)) <==>
        FinishDelete(write, now, PlanDelete(norm, file, q), false) == FinishDelete(write, now, PlanDelete(norm, now, q), false)
  {
    hide ReadRegistry, LoadRows, Rows, LineEnded, Deletes, RowLine, AllGo, WithLines, Kept, Typed;
    var now := Present(WithLines(Content(file), rows));
    var loaded, values := LoadRows(file), Values(rows);
    var kept, more := Kept(norm, q, Typed(loaded)), Kept(norm, q, Typed(values));
    SturdyContent(file);
    LinesAreRows(Content(file), rows);
    LoadedWhenReadable(file);
    LoadedWhenReadable(now);
    KeptConcat(norm, q, loaded, values);
    NothingKept(norm, q, values);
    SomethingDeleted(norm, q, loaded);
    SomethingDeleted(norm, q, loaded + values);
    assert forall i :: 0 <= i < |loaded| ==> (loaded + values)[i] == loaded[i];
    assert PlanDelete(norm, now, q) == Some(kept + more);
    if more == [] {
      assert kept + more == kept;
    } else {
      MoreRowsMoreText(write, kept, more);
    }
  }

  lemma SturdyContent(file: File)
    requires Sturdy(file)
    ensures Rows(Content(file)) == Success(ReadableRows(file).value) && LineEnded(Content(file))
  {
    EmptyRows();
    NothingIsEnded();
  }

  lemma RowLineIsNotEmpty(row: Json)
    ensures |RowLine(row)| >= 1
  {
  }
}
