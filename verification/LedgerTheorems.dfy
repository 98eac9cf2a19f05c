/** All-or-nothing, idempotence and the pairing of the two ledgers over whole runs. */
module LedgerTheorems {
  import opened Wrappers
  import opened Json
  import opened LedgerText
  import opened LedgerCommit
  import Utf8

  predicate RestoresWork(faults: Faults) {
    faults.registryRestore.RestoreOk? && faults.stateRestore.RestoreOk?
  }

  /* ---- All or nothing ---- */

  lemma AppendToOther(norm: string -> string, file: File, id: LedgerIdentity, row: Json, fault: AppendFault)
    requires file.Other?
    ensures AppendIfAbsent(norm, file, id, row, fault) == (file, Some(Io))
  {
  }

  /** A commit that fails leaves both ledgers as they were, torn appends included, if the restores work. */
  lemma FailureChangesNothing(norm: string -> string, files: Files, id: LedgerIdentity, registryRow: Json, stateRow: Json,
                              faults: Faults)
    requires RestoresWork(faults)
    requires CommitPair(norm, files, id, registryRow, stateRow, faults).1.Some?
    ensures CommitPair(norm, files, id, registryRow, stateRow, faults).0 == files
  {
    hide RowIdentity, AppendIfAbsent;
    if files.registry.Other? {
      AppendToOther(norm, files.registry, id, registryRow, faults.registryAppend);
    }
    if files.state.Other? {
      AppendToOther(norm, files.state, id, stateRow, faults.stateAppend);
    }
  }

  /* ---- What success means ---- */

  function ReadableRows(file: File): Option<seq<Value>> {
    match file
    case Missing => Some([])
    case Other => None
    case Present(bytes) => match Rows(bytes) case Success(rows) => Some(rows) case Failure(_) => None
  }

  predicate HasRow(norm: string -> string, file: File, id: LedgerIdentity) {
    ReadableRows(file).Some? && LastMatch(norm, ReadableRows(file).value, id).Some?
  }

  predicate EndsLine(file: File) {
    file.Present? ==> LineEnded(file.bytes)
  }

  lemma EmptyRows()
    ensures Rows([]) == Success([])
  {
  }

  lemma AppendedRows(file: File, row: Json)
    requires ReadableRows(file).Some? && row.Obj?
    ensures var after := Present(Content(file) + RowLine(row));
      && EndsLine(after)
      && ReadableRows(after) == if EndsLine(file) then Some(ReadableRows(file).value + [ToValue(row)]) else None
  {
    hide Rows, LineEnded, RowLine;
    EmptyRows();
    RowsAfterAppend(Content(file), row);
    if file.Missing? {
      NothingIsEnded();
    }
  }

  lemma NothingIsEnded()
    ensures LineEnded([])
  {
  }

  lemma LastMatchSnoc(norm: string -> string, rows: seq<Value>, v: Value, id: LedgerIdentity)
    ensures LastMatch(norm, rows + [v], id)
         == if RowIdentity(norm, v) == Some(id) then Some(v) else LastMatch(norm, rows, id)
  {
    hide RowIdentity;
    assert (rows + [v])[..|rows|] == rows;
  }

  lemma IdentityIsObject(norm: string -> string, row: Json)
    requires RowIdentity(norm, ToValue(row)).Some?
    ensures row.Obj?
  {
  }

  /** An append that succeeds found a row that differs at most in its time, or wrote this one. */
  lemma AppendedOrFound(norm: string -> string, file: File, id: LedgerIdentity, row: Json, fault: AppendFault)
    requires RowIdentity(norm, ToValue(row)) == Some(id)
    requires AppendIfAbsent(norm, file, id, row, fault).1.None?
    ensures var after := AppendIfAbsent(norm, file, id, row, fault).0;
      && ReadableRows(file).Some?
      && (HasRow(norm, file, id) ==> after == file)
      && (!HasRow(norm, file, id) ==> after == Present(Content(file) + RowLine(row)))
      && (HasRow(norm, after, id) <==> HasRow(norm, file, id) || EndsLine(file))
      && (HasRow(norm, after, id) ==> SameRow(LastMatch(norm, ReadableRows(after).value, id).value, ToValue(row)))
      && (HasRow(norm, after, id) ==> EndsLine(file) ==> EndsLine(after))
  {
    hide Rows, RowIdentity, RowLine, LastMatch, LineEnded;
    EmptyMatch(norm, id);
    if !HasRow(norm, file, id) {
      IdentityIsObject(norm, row);
      AppendedRows(file, row);
      LastMatchSnoc(norm, ReadableRows(file).value, ToValue(row), id);
    }
  }

  lemma EmptyMatch(norm: string -> string, id: LedgerIdentity)
    ensures LastMatch(norm, [], id) == None
  {
  }

  /**
    After a commit that succeeds, each ledger has a readable row of the identity that
    matches the given one up to its time, exactly when it had one before or its file
    ended in a newline. A ledger left with a torn last line swallows the row.
   */
  lemma SuccessLeavesRows(norm: string -> string, files: Files, id: LedgerIdentity, registryRow: Json, stateRow: Json,
                          faults: Faults, w: Which)
    requires CommitPair(norm, files, id, registryRow, stateRow, faults).1.None?
    ensures var after := CommitPair(norm, files, id, registryRow, stateRow, faults).0.At(w);
      var row := if w.Registry? then registryRow else stateRow;
      && ReadableRows(files.At(w)).Some?
      && (HasRow(norm, after, id) <==> HasRow(norm, files.At(w), id) || EndsLine(files.At(w)))
      && (HasRow(norm, after, id) ==> SameRow(LastMatch(norm, ReadableRows(after).value, id).value, ToValue(row)))
  {
    hide RowIdentity, AppendIfAbsent, HasRow, EndsLine, ReadableRows, SameRow, LastMatch;
    AppendedOrFound(norm, files.registry, id, registryRow, faults.registryAppend);
    AppendedOrFound(norm, files.state, id, stateRow, faults.stateAppend);
  }

  /**
    Such a ledger comes from an error row whose append lost only its newline: the next target
    commit reports success, and from then on the state ledger is unreadable.
   */
  lemma TornErrorRowSwallowsTarget(norm: string -> string, files: Files, errorRow: Json, id: LedgerIdentity,
                                   registryRow: Json, stateRow: Json, faults: Faults)
    requires ReadableRows(files.registry).Some? && ReadableRows(files.state).Some? && EndsLine(files.state)
    requires !HasRow(norm, files.registry, id) && !HasRow(norm, files.state, id)
    requires RowIdentity(norm, ToValue(errorRow)) == None
    requires RowIdentity(norm, ToValue(registryRow)) == Some(id) && RowIdentity(norm, ToValue(stateRow)) == Some(id)
    requires !faults.locksFail && !faults.snapshotFails && faults.registryAppend.AppendOk? && faults.stateAppend.AppendOk?
    ensures var torn := files.(state := Present(Content(files.state) + Utf8.Encode(RowText(errorRow))));
      var (after, error) := CommitPair(norm, torn, id, registryRow, stateRow, faults);
      && torn.state.bytes < Content(files.state) + RowLine(errorRow)
      && error == None && ReadableRows(after.state) == None
  {
    hide Rows, RowIdentity, RowLine, LastMatch, LineEnded, RowText;
    EmptyRows();
    NothingIsEnded();
    EmptyMatch(norm, id);
    RowsAfterTornAppend(Content(files.state), errorRow);
    var torn := Present(Content(files.state) + Utf8.Encode(RowText(errorRow)));
    LastMatchSnoc(norm, ReadableRows(files.state).value, ToValue(errorRow), id);
    IdentityIsObject(norm, stateRow);
    AppendedRows(torn, stateRow);
    TornIsPrefix(Content(files.state), errorRow);
  }

  lemma TornIsPrefix(b: seq<byte>, row: Json)
    ensures b + Utf8.Encode(RowText(row)) < b + RowLine(row)
  {
    var text := Utf8.Encode(RowText(row));
    assert b + RowLine(row) == b + text + [NEWLINE];
  }

  /* ---- Whole runs ---- */

  datatype LedgerOp =
    | TargetCommit(id: LedgerIdentity, registryRow: Json, stateRow: Json, faults: Faults)
    | ErrorRow(row: Json, fault: AppendFault)

  /** A target commit, or `append_jsonl` of a row without identity to the state ledger. */
  function Apply(norm: string -> string, files: Files, op: LedgerOp): Files {
    match op
    case TargetCommit(id, registryRow, stateRow, faults) => CommitPair(norm, files, id, registryRow, stateRow, faults).0
    case ErrorRow(row, fault) => files.(state := AppendLine(files.state, RowLine(row), fault).0)
  }

  function ApplyAll(norm: string -> string, files: Files, ops: seq<LedgerOp>): Files
    decreases |ops|
  {
    if ops == [] then files else ApplyAll(norm, Apply(norm, files, ops[0]), ops[1..])
  }

  predicate OpAllowed(norm: string -> string, op: LedgerOp) {
    match op
    case TargetCommit(_, _, _, faults) => RestoresWork(faults)
    case ErrorRow(row, _) => row.Obj? && RowIdentity(norm, ToValue(row)).None?
  }

  /** The identities of a ledger's rows, in order. */
  function Identities(norm: string -> string, rows: seq<Value>): seq<LedgerIdentity>
    decreases |rows|
  {
    if rows == [] then []
    else
      var before := Identities(norm, rows[..|rows| - 1]);
      match RowIdentity(norm, rows[|rows| - 1])
      case None => before
      case Some(id) => before + [id]
  }

  predicate NoRepeats(ids: seq<LedgerIdentity>) {
    forall i, j :: 0 <= i < j < |ids| ==> ids[i] != ids[j]
  }

  /** Both ledgers are readable, end in a newline, and list the same identities, each once. */
  predicate Paired(norm: string -> string, files: Files) {
    && EndsLine(files.registry) && EndsLine(files.state)
    && ReadableRows(files.registry).Some? && ReadableRows(files.state).Some?
    && var ids := Identities(norm, ReadableRows(files.registry).value);
       ids == Identities(norm, ReadableRows(files.state).value) && NoRepeats(ids)
  }

  lemma IdentitiesSnoc(norm: string -> string, rows: seq<Value>, v: Value)
    ensures Identities(norm, rows + [v])
         == Identities(norm, rows) + (match RowIdentity(norm, v) case None => [] case Some(id) => [id])
  {
    hide RowIdentity;
    assert (rows + [v])[..|rows|] == rows;
  }

  lemma {:induction false} MatchIffListed(norm: string -> string, rows: seq<Value>, id: LedgerIdentity)
    ensures LastMatch(norm, rows, id).Some? <==> id in Identities(norm, rows)
    decreases |rows|
  {
    hide RowIdentity;
    if rows != [] {
      MatchIffListed(norm, rows[..|rows| - 1], id);
    }
  }

  lemma AppendedIdentities(norm: string -> string, file: File, row: Json)
    requires ReadableRows(file).Some? && EndsLine(file) && row.Obj?
    ensures var after := Present(Content(file) + RowLine(row));
      && EndsLine(after) && ReadableRows(after).Some?
      && Identities(norm, ReadableRows(after).value)
      == Identities(norm, ReadableRows(file).value)
         + (match RowIdentity(norm, ToValue(row)) case None => [] case Some(id) => [id])
  {
    hide RowIdentity, ReadableRows, EndsLine, RowLine, Identities;
    AppendedRows(file, row);
    IdentitiesSnoc(norm, ReadableRows(file).value, ToValue(row));
  }

  lemma CommitKeepsPaired(norm: string -> string, files: Files, id: LedgerIdentity, registryRow: Json, stateRow: Json,
                          faults: Faults)
    requires Paired(norm, files) && RestoresWork(faults)
    ensures Paired(norm, CommitPair(norm, files, id, registryRow, stateRow, faults).0)
  {
    hide RowIdentity, AppendIfAbsent, ReadableRows, EndsLine, SameRow, LastMatch, RowLine, Identities;
    if CommitPair(norm, files, id, registryRow, stateRow, faults).1.Some? {
      FailureChangesNothing(norm, files, id, registryRow, stateRow, faults);
    } else {
      AppendedOrFound(norm, files.registry, id, registryRow, faults.registryAppend);
      AppendedOrFound(norm, files.state, id, stateRow, faults.stateAppend);
      MatchIffListed(norm, ReadableRows(files.registry).value, id);
      MatchIffListed(norm, ReadableRows(files.state).value, id);
      if !HasRow(norm, files.registry, id) {
        IdentityIsObject(norm, registryRow);
        IdentityIsObject(norm, stateRow);
        AppendedIdentities(norm, files.registry, registryRow);
        AppendedIdentities(norm, files.state, stateRow);
      }
    }
  }

  /** The one append without rollback is cut inside its line. */
  predicate Cuts(op: LedgerOp) {
    op.ErrorRow? && op.fault.Torn? && 0 < op.fault.written < |RowLine(op.row)|
  }

  lemma TornIsUnended(b: seq<byte>, row: Json, n: nat)
    requires 0 < n < |RowLine(row)|
    ensures !LineEnded(b + RowLine(row)[..n])
  {
    hide RowText, LineEnded;
    RowBytesAreOneLine(row);
    var line := Utf8.Encode(RowText(row));
    assert RowLine(row)[..n] == line[..n];
    Unended(b, line[..n]);
  }

  lemma WholeOrNothing(b: seq<byte>, line: seq<byte>)
    ensures b + line[..0] == b && line[..|line|] == line
  {
  }

  /** An append of a row without identity keeps the ledgers paired exactly when it is not cut. */
  lemma ErrorRowPairing(norm: string -> string, files: Files, op: LedgerOp)
    requires Paired(norm, files) && OpAllowed(norm, op) && op.ErrorRow?
    ensures Paired(norm, Apply(norm, files, op)) <==> !Cuts(op)
  {
    hide RowIdentity, Rows, LineEnded, RowLine, Identities;
    var b, line := Content(files.state), RowLine(op.row);
    WholeOrNothing(b, line);
    AppendedIdentities(norm, files.state, op.row);
    EmptyRows();
    NothingIsEnded();
    if Cuts(op) {
      TornIsUnended(b, op.row, op.fault.written);
    }
  }

  /** One call keeps the ledgers paired exactly when it is no error row cut inside its line. */
  lemma ApplyPairing(norm: string -> string, files: Files, op: LedgerOp)
    requires Paired(norm, files) && OpAllowed(norm, op)
    ensures Paired(norm, Apply(norm, files, op)) <==> !Cuts(op)
  {
    hide RowIdentity, ReadableRows, EndsLine, RowLine, Identities, CommitPair;
    match op {
      case TargetCommit(id, registryRow, stateRow, faults) =>
        CommitKeepsPaired(norm, files, id, registryRow, stateRow, faults);
      case ErrorRow(_, _) =>
        ErrorRowPairing(norm, files, op);
    }
  }

  /**
    From paired ledgers (such as none at all), after any sequence of target commits with
    any write faults and working restores, interleaved with error rows none of which is cut
    inside its line, registry and state list the same identities in the same order, none twice.
   */
  lemma {:induction false} RunKeepsPaired(norm: string -> string, files: Files, ops: seq<LedgerOp>)
    requires Paired(norm, files) && forall i :: 0 <= i < |ops| ==> OpAllowed(norm, ops[i]) && !Cuts(ops[i])
    ensures Paired(norm, ApplyAll(norm, files, ops))
    decreases |ops|
  {
    hide Paired, Apply, OpAllowed, Cuts;
    if ops != [] {
      ApplyPairing(norm, files, ops[0]);
      RunKeepsPaired(norm, Apply(norm, files, ops[0]), ops[1..]);
    }
  }

  /** In particular from no ledgers at all. */
  lemma RunFromNothingIsPaired(norm: string -> string, ops: seq<LedgerOp>)
    requires forall i :: 0 <= i < |ops| ==> OpAllowed(norm, ops[i]) && !Cuts(ops[i])
    ensures Paired(norm, ApplyAll(norm, Files(Missing, Missing), ops))
  {
    RunKeepsPaired(norm, Files(Missing, Missing), ops);
  }
}
