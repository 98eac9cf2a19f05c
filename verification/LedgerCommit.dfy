/**
  The paired commit of one target to the registry and state ledgers: append to both or
  roll both back, with any write able to fail part-way.
 */
module LedgerCommit {
  import opened Wrappers
  import opened Decimal
  import opened Json
  import opened LedgerText

  /** A path: nothing there, a file, or something that is no file (a directory). */
  datatype File = Missing | Present(bytes: seq<byte>) | Other

  datatype Which = Registry | State

  datatype Files = Files(registry: File, state: File) {
    function At(w: Which): File {
      if w.Registry? then registry else state
    }

    function With(w: Which, f: File): Files {
      if w.Registry? then this.(registry := f) else this.(state := f)
    }
  }

  datatype LedgerIdentity = LedgerIdentity(kind: string, episodeId: i64, language: string, artifact: seq<byte>)

  /** An append can fail on opening, after some bytes, or after all of them. */
  datatype AppendFault = AppendOk | OpenFails | Torn(written: nat) | SyncFails

  /** A failing restore leaves anything behind. */
  datatype RestoreFault = RestoreOk | RestoreFails(left: File)

  datatype Faults = Faults(
    locksFail: bool,
    snapshotFails: bool,
    registryAppend: AppendFault,
    stateAppend: AppendFault,
    registryRestore: RestoreFault,
    stateRestore: RestoreFault
  )

  /* ---- Rows ---- */

  /** `parse_hex`: exactly 64 characters. */
  function ParseDigest(s: string): Option<seq<byte>> {
    if |s| == 64 then DecodeHex(s) else None
  }

  function FirstOf(v: Value, key: string, fallback: string): Option<Value> {
    if v.Get(key).Some? then v.Get(key) else v.Get(fallback)
  }

  function StringOf(v: Option<Value>): Option<string> {
    if v.Some? then v.value.AsStr() else None
  }

  /** `row_identity`; `norm` is `normalize_lang`. */
  function RowIdentity(norm: string -> string, v: Value): Option<LedgerIdentity> {
    var o :- v.AsObject();
    var idValue :- FirstOf(v, "episode_id", "sonarrEpisodeId");
    var id :- idValue.AsI64();
    var language := match StringOf(FirstOf(v, "language", "lang")) case Some(l) => norm(l) case None => "";
    var digestText :- StringOf(v.Get("artifact_sha256"));
    var digest :- ParseDigest(digestText);
    Some(LedgerIdentity(StringOf(v.Get("kind")).GetOr("series"), id, language, digest))
  }

  function WithoutTimestamp(v: Value): Value {
    if v.VObj? then VObj(v.fields - {"ts"}) else v
  }

  /** `rows_equal_ignoring_timestamp`. */
  predicate SameRow(a: Value, b: Value) {
    WithoutTimestamp(a) == WithoutTimestamp(b)
  }

  /** The last row with an identity. */
  function LastMatch(norm: string -> string, rows: seq<Value>, id: LedgerIdentity): Option<Value>
    decreases |rows|
  {
    if rows == [] then None
    else if RowIdentity(norm, rows[|rows| - 1]) == Some(id) then Some(rows[|rows| - 1])
    else LastMatch(norm, rows[..|rows| - 1], id)
  }

  /* ---- Append if absent ---- */

  function Existing(norm: string -> string, file: File, id: LedgerIdentity): Result<Option<Value>, CommitLedgerError> {
    match file
    case Missing => Success(None)
    case Other => Failure(Io)
    case Present(bytes) =>
      match Rows(bytes)
      case Failure(e) => Failure(e)
      case Success(rows) => Success(LastMatch(norm, rows, id))
  }

  function Content(file: File): seq<byte> {
    if file.Present? then file.bytes else []
  }

  function AppendLine(file: File, line: seq<byte>, fault: AppendFault): (File, Option<CommitLedgerError>) {
    if file.Other? then (file, Some(Io))
    else
      match fault
      case OpenFails => (file, Some(Io))
      case Torn(n) => (Present(Content(file) + line[..Min(n, |line|)]), Some(Io))
      case SyncFails => (Present(Content(file) + line), Some(Io))
      case AppendOk => (Present(Content(file) + line), None)
  }

  function AppendIfAbsent(norm: string -> string, file: File, id: LedgerIdentity, row: Json, fault: AppendFault)
    : (File, Option<CommitLedgerError>)
  {
    match Existing(norm, file, id)
    case Failure(e) => (file, Some(e))
    case Success(Some(v)) =>
      if v == ToValue(row) || SameRow(v, ToValue(row)) then (file, None) else (file, Some(Contradiction))
    case Success(None) => AppendLine(file, RowLine(row), fault)
  }

  /** A snapshot of something that is no file is not restored. */
  function Restored(now: File, snapshot: File, fault: RestoreFault): (File, bool) {
    if snapshot.Other? then (now, true)
    else if fault.RestoreFails? then (fault.left, false)
    else (snapshot, true)
  }

  /** `commit_pair` under both locks; the paths are taken not to alias. */
  function CommitPair(norm: string -> string, files: Files, id: LedgerIdentity, registryRow: Json, stateRow: Json, faults: Faults)
    : (Files, Option<CommitLedgerError>)
  {
    if RowIdentity(norm, ToValue(registryRow)) != Some(id) || RowIdentity(norm, ToValue(stateRow)) != Some(id) then
      (files, Some(InvalidInput))
    else if faults.locksFail || faults.snapshotFails then (files, Some(Io))
    else
      var r := AppendIfAbsent(norm, files.registry, id, registryRow, faults.registryAppend);
      var s := if r.1.Some? then (files.state, r.1) else AppendIfAbsent(norm, files.state, id, stateRow, faults.stateAppend);
      if s.1.None? then (Files(r.0, s.0), None)
      else
        var registry := Restored(r.0, files.registry, faults.registryRestore);
        var state := Restored(s.0, files.state, faults.stateRestore);
        (Files(registry.0, state.0), if registry.1 && state.1 then s.1 else Some(Io))
  }

  /* ---- The commit as it runs ---- */

  class LedgerStore {
    const norm: string -> string
    var files: Files

    constructor (norm: string -> string, files: Files)
      ensures this.norm == norm && this.files == files
    {
      this.norm := norm;
      this.files := files;
    }

    /** Read a ledger line by line and remember the last row with the identity. */
    method FindRow(bytes: seq<byte>, id: LedgerIdentity) returns (found: Result<Option<Value>, CommitLedgerError>)
      ensures found == Existing(norm, Present(bytes), id)
    {
      hide Lines, RowIdentity, ParseLine;
      var lines := Lines(bytes);
      var last: Option<Value> := None;
      ghost var rows: seq<Value> := [];
      var i := 0;
      assert lines[..0] == [];
      while i < |lines|
        invariant i <= |lines|
        invariant ParseLines(lines[..i]) == Success(rows) && last == LastMatch(norm, rows, id)
      {
        var line := ParseLine(lines[i]);
        assert lines == lines[..i] + lines[i..] && lines[..i + 1] == lines[..i] + [lines[i]];
        ParseLinesConcat(lines[..i], lines[i..]);
        ParseLinesConcat(lines[..i], [lines[i]]);
        ParseOne(lines[i]);
        if line.Failure? {
          assert ParseLines(lines[i..]) == Failure(line.error);
          return Failure(line.error);
        }
        if RowIdentity(norm, line.value) == Some(id) {
          last := Some(line.value);
        }
        assert (rows + [line.value])[..|rows|] == rows;
        rows := rows + [line.value];
        i := i + 1;
      }
      assert lines[..i] == lines;
      found := Success(last);
    }

    method AppendRow(w: Which, id: LedgerIdentity, row: Json, fault: AppendFault) returns (error: Option<CommitLedgerError>)
      modifies this
      ensures var (file, e) := AppendIfAbsent(norm, old(files).At(w), id, row, fault);
        files == old(files).With(w, file) && error == e
    {
      hide Rows, RowLine, LastMatch, RowIdentity;
      var file := files.At(w);
      var found := Success(None);
      if file.Present? {
        found := FindRow(file.bytes, id);
      } else if file.Other? {
        return Some(Io);
      }
      if found.Failure? {
        return Some(found.error);
      }
      if found.value.Some? {
        var v := found.value.value;
        if v == ToValue(row) || SameRow(v, ToValue(row)) {
          return None;
        }
        return Some(Contradiction);
      }
      if fault.OpenFails? {
        return Some(Io);
      }
      var line := RowLine(row);
      var before := Content(file);
      if fault.Torn? {
        files := files.With(w, Present(before + line[..Min(fault.written, |line|)]));
        return Some(Io);
      }
      files := files.With(w, Present(before + line));
      error := if fault.SyncFails? then Some(Io) else None;
    }

    method RestoreLedger(w: Which, snapshot: File, fault: RestoreFault) returns (ok: bool)
      modifies this
      ensures files == old(files).With(w, Restored(old(files).At(w), snapshot, fault).0)
      ensures ok == Restored(old(files).At(w), snapshot, fault).1
    {
      if snapshot.Other? {
        return true;
      }
      if fault.RestoreFails? {
        files := files.With(w, fault.left);
        return false;
      }
      files := files.With(w, snapshot);
      ok := true;
    }

    method Commit(id: LedgerIdentity, registryRow: Json, stateRow: Json, faults: Faults) returns (error: Option<CommitLedgerError>)
      modifies this
      ensures (files, error) == CommitPair(norm, old(files), id, registryRow, stateRow, faults)
    {
      hide RowIdentity, AppendIfAbsent;
      if RowIdentity(norm, ToValue(registryRow)) != Some(id) || RowIdentity(norm, ToValue(stateRow)) != Some(id) {
        return Some(InvalidInput);
      }
      if faults.locksFail || faults.snapshotFails {
        return Some(Io);
      }
      var registrySnapshot, stateSnapshot := files.registry, files.state;
      error := AppendRow(Registry, id, registryRow, faults.registryAppend);
      if error.None? {
        error := AppendRow(State, id, stateRow, faults.stateAppend);
      }
      if error.Some? {
        var registryBack := RestoreLedger(Registry, registrySnapshot, faults.registryRestore);
        var stateBack := RestoreLedger(State, stateSnapshot, faults.stateRestore);
        if !registryBack || !stateBack {
          error := Some(Io);
        }
      }
    }
  }
}
