/**
  Any number of callers on the two ledgers: each takes its locks in one fixed order and
  then works on the files in small steps that interleave with everybody else's.
 */
module LedgerConcurrency {
  import opened Wrappers
  import opened Json
  import opened LedgerText
  import opened LedgerCommit

  /** A call in flight: the two-ledger commit, an append, or a rewrite of one ledger. */
  datatype Call =
    | PairCall(id: LedgerIdentity, registryRow: Json, stateRow: Json, faults: Faults)
    | AppendCall(which: Which, row: Json, fault: AppendFault)
    | RewriteCall(target: Which, contents: seq<byte>, renameFails: bool)

  /** Local variables of a body; `pc` counts to `END`. */
  datatype Locals = Locals(pc: nat, snapRegistry: File, snapState: File, error: Option<CommitLedgerError>)

  const END: nat := 8
  const ENTRY: Locals := Locals(0, Missing, Missing, None)

  /** `append_if_absent` up to the decision to write. */
  datatype Decision = Write | Skip | Abort(error: CommitLedgerError)

  function Decide(norm: string -> string, file: File, id: LedgerIdentity, row: Json): Decision {
    match Existing(norm, file, id)
    case Failure(e) => Abort(e)
    case Success(None) => Write
    case Success(Some(v)) => if v == ToValue(row) || SameRow(v, ToValue(row)) then Skip else Abort(Contradiction)
  }

  /** One small step of a body that holds its locks. */
  function Micro(norm: string -> string, call: Call, files: Files, l: Locals): (Files, Locals) {
    match call
    case AppendCall(w, row, fault) =>
      if l.pc >= END then (files, l)
      else
        var (f, e) := AppendLine(files.At(w), RowLine(row), fault);
        (files.With(w, f), l.(pc := END, error := e))
    case RewriteCall(w, bytes, fails) =>
      if l.pc >= END then (files, l)
      else if fails then (files, l.(pc := END, error := Some(Io)))
      else (files.With(w, Present(bytes)), l.(pc := END))
    case PairCall(id, registryRow, stateRow, faults) =>
      if l.pc == 0 then
        if RowIdentity(norm, ToValue(registryRow)) != Some(id) || RowIdentity(norm, ToValue(stateRow)) != Some(id)
        then (files, l.(pc := END, error := Some(InvalidInput)))
        else if faults.locksFail || faults.snapshotFails then (files, l.(pc := END, error := Some(Io)))
        else (files, l.(pc := 1, snapRegistry := files.registry))
      else if l.pc == 1 then (files, l.(pc := 2, snapState := files.state))
      else if l.pc == 2 then
        match Decide(norm, files.registry, id, registryRow)
        case Write => (files, l.(pc := 3))
        case Skip => (files, l.(pc := 4))
        case Abort(e) => (files, l.(pc := 6, error := Some(e)))
      else if l.pc == 3 then
        var (f, e) := AppendLine(files.registry, RowLine(registryRow), faults.registryAppend);
        (files.(registry := f), l.(pc := if e.Some? then 6 else 4, error := e))
      else if l.pc == 4 then
        match Decide(norm, files.state, id, stateRow)
        case Write => (files, l.(pc := 5))
        case Skip => (files, l.(pc := END))
        case Abort(e) => (files, l.(pc := 6, error := Some(e)))
      else if l.pc == 5 then
        var (f, e) := AppendLine(files.state, RowLine(stateRow), faults.stateAppend);
        (files.(state := f), l.(pc := if e.Some? then 6 else END, error := e))
      else if l.pc == 6 then
        var (f, ok) := Restored(files.registry, l.snapRegistry, faults.registryRestore);
        (files.(registry := f), l.(pc := 7, error := if ok then l.error else Some(Io)))
      else if l.pc == 7 then
        var (f, ok) := Restored(files.state, l.snapState, faults.stateRestore);
        (files.(state := f), l.(pc := END, error := if ok then l.error else Some(Io)))
      else (files, l)
  }

  /** `k` small steps in a row. */
  function Iterate(norm: string -> string, call: Call, files: Files, k: nat): (Files, Locals) {
    if k == 0 then (files, ENTRY)
    else
      var (f, l) := Iterate(norm, call, files, k - 1);
      Micro(norm, call, f, l)
  }

  /** The whole locked body. */
  function Body(norm: string -> string, call: Call, files: Files): (Files, Option<CommitLedgerError>) {
    var (f, l) := Iterate(norm, call, files, END);
    (f, l.error)
  }

  lemma {:induction false} IterateProgress(norm: string -> string, call: Call, files: Files, k: nat)
    ensures var l := Iterate(norm, call, files, k).1; l.pc >= Min(k, END) && l.pc <= END
  {
    hide RowIdentity, Decide, AppendLine, RowLine, Restored;
    if k > 0 {
      IterateProgress(norm, call, files, k - 1);
    }
  }

  /** A finished body does not move any more. */
  lemma {:induction false} IterateStops(norm: string -> string, call: Call, files: Files, k: nat, m: nat)
    requires k <= m && Iterate(norm, call, files, k).1.pc == END
    ensures Iterate(norm, call, files, m) == Iterate(norm, call, files, k)
    decreases m
  {
    hide RowIdentity, Decide, AppendLine, RowLine, Restored;
    if k < m {
      IterateStops(norm, call, files, k, m - 1);
    }
  }

  /** The steps of a paired commit, run to their end, are `CommitPair`. */
  lemma BodyIsCommitPair(norm: string -> string, files: Files, id: LedgerIdentity, registryRow: Json, stateRow: Json,
                         faults: Faults)
    ensures Body(norm, PairCall(id, registryRow, stateRow, faults), files)
         == CommitPair(norm, files, id, registryRow, stateRow, faults)
  {
    hide RowIdentity, Existing, AppendLine, RowLine, Restored, SameRow, ToValue;
    var call := PairCall(id, registryRow, stateRow, faults);
    var s0 := Iterate(norm, call, files, 0);
    var s1 := Iterate(norm, call, files, 1);
    var s2 := Iterate(norm, call, files, 2);
    var s3 := Iterate(norm, call, files, 3);
    var s4 := Iterate(norm, call, files, 4);
    var s5 := Iterate(norm, call, files, 5);
    var s6 := Iterate(norm, call, files, 6);
    var s7 := Iterate(norm, call, files, 7);
    var s8 := Iterate(norm, call, files, 8);
    assert s1 == Micro(norm, call, s0.0, s0.1);
    assert s2 == Micro(norm, call, s1.0, s1.1);
    assert s3 == Micro(norm, call, s2.0, s2.1);
    assert s4 == Micro(norm, call, s3.0, s3.1);
    assert s5 == Micro(norm, call, s4.0, s4.1);
    assert s6 == Micro(norm, call, s5.0, s5.1);
    assert s7 == Micro(norm, call, s6.0, s6.1);
    assert s8 == Micro(norm, call, s7.0, s7.1);
  }
}
