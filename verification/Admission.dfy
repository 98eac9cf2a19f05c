/** Which targets a pass takes as already delivered: rows of both ledgers and the file must agree. */
module Admission {
  import opened Wrappers
  import opened Json
  import opened LedgerText
  import opened LedgerCommit
  import Utf8

  /* ---- Reading a ledger leniently ---- */

  function KeepRows(lines: seq<seq<byte>>): seq<Value> {
    if lines == [] then []
    else
      match ParseLine(lines[0])
      case Failure(_) => KeepRows(lines[1..])
      case Success(v) => [v] + KeepRows(lines[1..])
  }

  predicate AllText(lines: seq<seq<byte>>) {
    forall i :: 0 <= i < |lines| ==> Utf8.Decode(lines[i]).Some?
  }

  /** `load_jsonl` up to the row type: a file that is not text has no rows, a bad line is skipped. */
  function LoadRows(file: File): seq<Value> {
    if !file.Present? || !AllText(Lines(file.bytes)) then [] else KeepRows(Lines(file.bytes))
  }

  lemma {:induction false} KeepAll(lines: seq<seq<byte>>)
    requires ParseLines(lines).Success?
    ensures AllText(lines) && KeepRows(lines) == ParseLines(lines).value
  {
    if lines != [] {
      KeepAll(lines[1..]);
      assert forall i :: 0 < i < |lines| ==> lines[i] == lines[1..][i - 1];
    }
  }

  lemma {:induction false} KeepRowsConcat(a: seq<seq<byte>>, b: seq<seq<byte>>)
    ensures KeepRows(a + b) == KeepRows(a) + KeepRows(b)
  {
    if a == [] {
      assert a + b == b;
    } else {
      assert (a + b)[0] == a[0] && (a + b)[1..] == a[1..] + b;
      KeepRowsConcat(a[1..], b);
    }
  }

  /** A line that is no row is skipped, wherever it stands: the rows before and behind it are kept. */
  lemma BadLineIsSkipped(file: File, before: seq<seq<byte>>, line: seq<byte>, after: seq<seq<byte>>)
    requires file.Present? && Lines(file.bytes) == before + [line] + after && AllText(Lines(file.bytes))
    ensures LoadRows(file) == KeepRows(before) + (if ParseLine(line).Success? then [ParseLine(line).value] else []) + KeepRows(after)
  {
    hide ParseLine, Lines, KeepRows, AllText;
    KeepRowsConcat(before + [line], after);
    KeepRowsConcat(before, [line]);
    KeepOne(line);
  }

  lemma KeepOne(line: seq<byte>)
    ensures KeepRows([line]) == if ParseLine(line).Success? then [ParseLine(line).value] else []
  {
    hide ParseLine;
    assert [line][1..] == [];
  }

  /** A file with a line that is not text has no rows at all. */
  lemma NoTextNoRows(bytes: seq<byte>, i: nat)
    requires i < |Lines(bytes)| && Utf8.Decode(Lines(bytes)[i]).None?
    ensures LoadRows(Present(bytes)) == [] && LoadRows(Missing) == [] && LoadRows(Other) == []
  {
  }

  /** On a ledger every line of which is a row, the lenient reader sees what the strict one sees. */
  lemma LoadedAreRows(bytes: seq<byte>)
    requires Rows(bytes).Success?
    ensures LoadRows(Present(bytes)) == Rows(bytes).value
  {
    KeepAll(Lines(bytes));
  }

  /* ---- Typed rows ---- */

  /** An optional string member: missing and `null` are nothing, another type is an error. */
  function OptionalString(v: Value, key: string): Option<Option<string>> {
    match v.Get(key)
    case None => Some(None)
    case Some(VNull) => Some(None)
    case Some(VStr(s)) => Some(Some(s))
    case Some(_) => None
  }

  function OptionalI64(v: Value, key: string): Option<Option<i64>> {
    match v.Get(key)
    case None => Some(None)
    case Some(VNull) => Some(None)
    case Some(w) => if w.AsI64().Some? then Some(w.AsI64()) else None
  }

  datatype RegistryRow = RegistryRow(
    lang: Option<string>,
    episodeId: Option<i64>,
    targetPath: Option<string>,
    kind: string,
    artifact: Option<seq<byte>>
  )

  datatype StateEntry = StateEntry(
    episodeId: Option<i64>,
    language: Option<string>,
    status: Option<string>,
    kind: Option<string>,
    artifact: Option<seq<byte>>
  )

  /** `parse_digest` of a member of `extra`. */
  function ArtifactOf(v: Value): Option<seq<byte>> {
    var text :- StringOf(v.Get("artifact_sha256"));
    ParseDigest(text)
  }

  /** A registry row; every declared member must have its type, used or not. */
  function ReadRegistry(v: Value): Option<RegistryRow> {
    if !v.VObj? then None
    else
      var stem :- OptionalString(v, "stem");
      var lang :- OptionalString(v, "lang");
      var episodeId :- OptionalI64(v, "episode_id");
      var source :- OptionalString(v, "source");
      var sourceKind :- OptionalString(v, "source_kind");
      var sourcePath :- OptionalString(v, "source_path");
      var targetPath :- OptionalString(v, "target_path");
      var ts :- OptionalString(v, "ts");
      Some(RegistryRow(lang, episodeId, targetPath, StringOf(v.Get("kind")).GetOr("series"), ArtifactOf(v)))
  }

  function ReadState(v: Value): Option<StateEntry> {
    if !v.VObj? then None
    else
      var episodeId :- OptionalI64(v, "sonarrEpisodeId");
      var language :- OptionalString(v, "language");
      var status :- OptionalString(v, "status");
      var kind :- OptionalString(v, "kind");
      var ts :- OptionalString(v, "ts");
      Some(StateEntry(episodeId, language, status, kind, ArtifactOf(v)))
  }

  /** A member that is missing, `null`, or a text. */
  predicate TextOrNothing(v: Value, key: string) {
    v.Get(key) == None || v.Get(key) == Some(VNull) || v.Get(key).value.VStr?
  }

  /** A member that is missing, `null`, or a number of 64 bits. */
  predicate NumberOrNothing(v: Value, key: string) {
    v.Get(key) == None || v.Get(key) == Some(VNull)
    || (v.Get(key).value.VNum? && -0x8000_0000_0000_0000 <= v.Get(key).value.n < 0x8000_0000_0000_0000)
  }

  /** A row of the registry is read exactly if it is an object whose declared members have their types, one of another kind included. */
  lemma ReadRegistryExactly(v: Value)
    ensures ReadRegistry(v).Some? <==>
      && v.VObj? && TextOrNothing(v, "stem") && TextOrNothing(v, "lang") && NumberOrNothing(v, "episode_id")
      && TextOrNothing(v, "source") && TextOrNothing(v, "source_kind") && TextOrNothing(v, "source_path")
      && TextOrNothing(v, "target_path") && TextOrNothing(v, "ts")
    ensures ReadRegistry(v).Some? ==> var row := ReadRegistry(v).value;
      && (forall l :: row.lang == Some(l) <==> v.Get("lang") == Some(VStr(l)))
      && (forall n :: row.episodeId == Some(n) <==> v.Get("episode_id") == Some(VNum(n)))
      && (forall p :: row.targetPath == Some(p) <==> v.Get("target_path") == Some(VStr(p)))
      && row.kind == (if v.Get("kind").Some? && v.Get("kind").value.VStr? then v.Get("kind").value.s else "series")
  {
    hide ParseDigest;
  }

  lemma ReadStateExactly(v: Value)
    ensures ReadState(v).Some? <==>
      && v.VObj? && NumberOrNothing(v, "sonarrEpisodeId") && TextOrNothing(v, "language") && TextOrNothing(v, "status")
      && TextOrNothing(v, "kind") && TextOrNothing(v, "ts")
    ensures ReadState(v).Some? ==> var row := ReadState(v).value;
      && (forall l :: row.language == Some(l) <==> v.Get("language") == Some(VStr(l)))
      && (forall n :: row.episodeId == Some(n) <==> v.Get("sonarrEpisodeId") == Some(VNum(n)))
      && (forall x :: row.status == Some(x) <==> v.Get("status") == Some(VStr(x)))
      && (forall k :: row.kind == Some(k) <==> v.Get("kind") == Some(VStr(k)))
  {
    hide ParseDigest;
  }

  /** Rows that could be read, in order. */
  function Collect<T>(read: Value -> Option<T>, rows: seq<Value>): seq<T> {
    if rows == [] then []
    else
      match read(rows[0])
      case None => Collect(read, rows[1..])
      case Some(t) => [t] + Collect(read, rows[1..])
  }

  function RegistryRows(file: File): seq<RegistryRow> {
    Collect(ReadRegistry, LoadRows(file))
  }

  function StateRows(file: File): seq<StateEntry> {
    Collect(ReadState, LoadRows(file))
  }

  lemma {:induction false} Collected<T>(read: Value -> Option<T>, rows: seq<Value>, i: nat) returns (j: nat)
    requires i < |rows| && read(rows[i]).Some?
    ensures j < |Collect(read, rows)| && Collect(read, rows)[j] == read(rows[i]).value
    ensures i == |rows| - 1 ==> j == |Collect(read, rows)| - 1
  {
    if i == 0 {
      j := 0;
      if |rows| == 1 {
        assert Collect(read, rows[1..]) == [];
      }
    } else {
      var k := Collected(read, rows[1..], i - 1);
      j := if read(rows[0]).Some? then k + 1 else k;
    }
  }

  /* ---- Verified targets ---- */

  datatype TargetKey = TargetKey(kind: string, episodeId: i64, language: string)

  datatype VerifiedTarget = VerifiedTarget(path: string, artifact: seq<byte>)

  /** Sidecar files by path. */
  type Sidecars = map<string, seq<byte>>

  datatype Env = Env(norm: string -> string, sha: seq<byte> -> seq<byte>)

  function RegistryKey(env: Env, row: RegistryRow): Option<TargetKey> {
    var id :- row.episodeId;
    Some(TargetKey(row.kind, id, env.norm(row.lang.GetOr(""))))
  }

  function StateKey(env: Env, entry: StateEntry): Option<TargetKey> {
    var id :- entry.episodeId;
    Some(TargetKey(entry.kind.GetOr("series"), id, env.norm(entry.language.GetOr(""))))
  }

  /** The key and digest of a done row. */
  function DoneOf(env: Env, entry: StateEntry): Option<(TargetKey, seq<byte>)> {
    if entry.status != Some("done") then None
    else
      var key :- StateKey(env, entry);
      var digest :- entry.artifact;
      Some((key, digest))
  }

  predicate IsDone(env: Env, states: seq<StateEntry>, key: TargetKey, digest: seq<byte>) {
    exists i :: 0 <= i < |states| && DoneOf(env, states[i]) == Some((key, digest))
  }

  /** What one registry row admits. */
  function Admitted(env: Env, files: Sidecars, states: seq<StateEntry>, row: RegistryRow): Option<(TargetKey, VerifiedTarget)> {
    var path :- row.targetPath;
    if path !in files then None
    else
      var key :- RegistryKey(env, row);
      var digest :- row.artifact;
      if env.sha(files[path]) != digest || !IsDone(env, states, key, digest) then None
      else Some((key, VerifiedTarget(path, digest)))
  }

  /** `verified_targets`: later rows replace earlier ones of the same key. */
  function VerifiedTargets(env: Env, files: Sidecars, registry: seq<RegistryRow>, states: seq<StateEntry>)
    : map<TargetKey, VerifiedTarget>
    decreases |registry|
  {
    if registry == [] then map[]
    else
      var before := VerifiedTargets(env, files, registry[..|registry| - 1], states);
      match Admitted(env, files, states, registry[|registry| - 1])
      case None => before
      case Some(entry) => before[entry.0 := entry.1]
  }

  /** The row admits a target for the key. */
  predicate Admits(env: Env, files: Sidecars, states: seq<StateEntry>, row: RegistryRow, key: TargetKey) {
    Admitted(env, files, states, row).Some? && Admitted(env, files, states, row).value.0 == key
  }

  /** Row `i` is the last one that admits a target for the key. */
  ghost predicate LastFor(env: Env, files: Sidecars, registry: seq<RegistryRow>, states: seq<StateEntry>, key: TargetKey, i: nat)
    requires i < |registry|
  {
    && Admits(env, files, states, registry[i], key)
    && forall j :: i < j < |registry| ==> !Admits(env, files, states, registry[j], key)
  }

  /** A key is verified exactly when some row admits it, and then as its last such row says. */
  lemma {:induction false} VerifiedExactly(env: Env, files: Sidecars, registry: seq<RegistryRow>, states: seq<StateEntry>,
                                           key: TargetKey)
    ensures key in VerifiedTargets(env, files, registry, states) <==>
      exists i :: 0 <= i < |registry| && LastFor(env, files, registry, states, key, i)
    ensures forall i :: 0 <= i < |registry| && LastFor(env, files, registry, states, key, i) ==>
      VerifiedTargets(env, files, registry, states)[key] == Admitted(env, files, states, registry[i]).value.1
    decreases |registry|
  {
    hide Admitted;
    if registry != [] {
      var n := |registry| - 1;
      var before := registry[..n];
      VerifiedExactly(env, files, before, states, key);
      var last := Admitted(env, files, states, registry[n]);
      if last.Some? && last.value.0 == key {
        assert LastFor(env, files, registry, states, key, n);
        assert forall i :: 0 <= i < n ==> !LastFor(env, files, registry, states, key, i);
      } else {
        assert forall i :: 0 <= i < n ==>
          (LastFor(env, files, registry, states, key, i) <==> LastFor(env, files, before, states, key, i));
      }
    }
  }

  /** The language of a row, or the empty text for none, has this normal form. */
  predicate SpellsOf(env: Env, language: Option<string>, normal: string) {
    normal == env.norm(if language == None then "" else language.value)
  }

  /** A registry row, a done row and the file on disk that agree on a key and a digest. */
  predicate Agree(env: Env, files: Sidecars, row: RegistryRow, entry: StateEntry, key: TargetKey, target: VerifiedTarget) {
    && row.targetPath == Some(target.path) && target.path in files && env.sha(files[target.path]) == target.artifact
    && row.episodeId == Some(key.episodeId) && row.kind == key.kind && SpellsOf(env, row.lang, key.language)
    && row.artifact == Some(target.artifact)
    && entry.status == Some("done") && entry.artifact == Some(target.artifact)
    && entry.episodeId == Some(key.episodeId) && SpellsOf(env, entry.language, key.language)
    && (entry.kind == Some(key.kind) || (entry.kind == None && key.kind == "series"))
  }

  lemma {:induction false} SomeLast(env: Env, files: Sidecars, registry: seq<RegistryRow>, states: seq<StateEntry>,
                                    key: TargetKey, i: nat) returns (last: nat)
    requires i < |registry| && Admits(env, files, states, registry[i], key)
    ensures i <= last < |registry| && LastFor(env, files, registry, states, key, last)
    decreases |registry| - i
  {
    hide Admitted;
    if j :| i < j < |registry| && Admits(env, files, states, registry[j], key) {
      last := SomeLast(env, files, registry, states, key, j);
    } else {
      last := i;
    }
  }

  /** A key is verified exactly when a registry row, a done row and a file agree on it. */
  lemma VerifiedMeansAgreement(env: Env, files: Sidecars, registry: seq<RegistryRow>, states: seq<StateEntry>, key: TargetKey)
    ensures key in VerifiedTargets(env, files, registry, states) <==>
      (exists i, j, target :: 0 <= i < |registry| && 0 <= j < |states| && Agree(env, files, registry[i], states[j], key, target))
  {
    hide VerifiedTargets;
    VerifiedExactly(env, files, registry, states, key);
    if key in VerifiedTargets(env, files, registry, states) {
      var i :| 0 <= i < |registry| && LastFor(env, files, registry, states, key, i);
      var target := Admitted(env, files, states, registry[i]).value.1;
      var j :| 0 <= j < |states| && DoneOf(env, states[j]) == Some((key, target.artifact));
      assert Agree(env, files, registry[i], states[j], key, target);
    }
    if i, j, target :| 0 <= i < |registry| && 0 <= j < |states| && Agree(env, files, registry[i], states[j], key, target) {
      assert DoneOf(env, states[j]) == Some((key, target.artifact));
      var last := SomeLast(env, files, registry, states, key, i);
    }
  }

  /* ---- Discovery ---- */

  predicate NamesDone(env: Env, entry: StateEntry, key: TargetKey) {
    entry.status == Some("done") && entry.language.Some? && StateKey(env, entry) == Some(key)
  }

  /** Keys that `discover` takes as done; unlike above, a row without language is no such row. */
  predicate MarkedDone(env: Env, states: seq<StateEntry>, key: TargetKey) {
    exists i :: 0 <= i < |states| && NamesDone(env, states[i], key)
  }

  /** Languages that stay missing. */
  function StillMissing(env: Env, files: Sidecars, registry: seq<RegistryRow>, states: seq<StateEntry>, kind: string, id: i64,
                        wanted: seq<string>): seq<string> {
    if wanted == [] then []
    else
      var key := TargetKey(kind, id, wanted[0]);
      (if MarkedDone(env, states, key) && key in VerifiedTargets(env, files, registry, states) then [] else [wanted[0]])
      + StillMissing(env, files, registry, states, kind, id, wanted[1..])
  }

  /**
    A wanted language is dropped exactly when a registry row, a done row and the file agree on
    it; the separate look at done rows decides nothing, except for the name of no language,
    which also takes a done row that spells it out.
   */
  lemma {:induction false} DroppedExactlyWhenVerified(env: Env, files: Sidecars, registry: seq<RegistryRow>,
                                                      states: seq<StateEntry>, kind: string, id: i64,
                                                      wanted: seq<string>, l: string)
    ensures var key := TargetKey(kind, id, l);
      l in StillMissing(env, files, registry, states, kind, id, wanted) <==>
        l in wanted && !(key in VerifiedTargets(env, files, registry, states) && (l != env.norm("") || MarkedDone(env, states, key)))
  {
    hide VerifiedTargets;
    if wanted != [] {
      DroppedExactlyWhenVerified(env, files, registry, states, kind, id, wanted[1..], l);
      var key := TargetKey(kind, id, l);
      VerifiedMeansAgreement(env, files, registry, states, key);
      if key in VerifiedTargets(env, files, registry, states) && l != env.norm("") {
        var i, j, target :| 0 <= i < |registry| && 0 <= j < |states| && Agree(env, files, registry[i], states[j], key, target);
        assert NamesDone(env, states[j], key);
      }
    }
  }

  /** Rows without a language verify the target of no language, and it stays missing all the same. */
  lemma NamelessStaysMissing(env: Env, path: string, bytes: seq<byte>, kind: string, id: i64)
    ensures var files, key := map[path := bytes], TargetKey(kind, id, env.norm(""));
      var registry := [RegistryRow(None, Some(id), Some(path), kind, Some(env.sha(bytes)))];
      var states := [StateEntry(Some(id), None, Some("done"), Some(kind), Some(env.sha(bytes)))];
      && key in VerifiedTargets(env, files, registry, states)
      && env.norm("") in StillMissing(env, files, registry, states, kind, id, [env.norm("")])
  {
    hide VerifiedTargets;
    var files, key := map[path := bytes], TargetKey(kind, id, env.norm(""));
    var registry := [RegistryRow(None, Some(id), Some(path), kind, Some(env.sha(bytes)))];
    var states := [StateEntry(Some(id), None, Some("done"), Some(kind), Some(env.sha(bytes)))];
    assert Agree(env, files, registry[0], states[0], key, VerifiedTarget(path, env.sha(bytes)));
    VerifiedMeansAgreement(env, files, registry, states, key);
    DroppedExactlyWhenVerified(env, files, registry, states, kind, id, [env.norm("")], env.norm(""));
  }
}
