/** What was admitted stays admitted while the ledgers go on growing. */
module AdmissionRuns {
  import opened Wrappers
  import opened Json
  import opened LedgerText
  import opened LedgerCommit
  import opened LedgerTheorems
  import opened Admission
  import opened TargetLedgerRows
  import opened TargetPublish
  import opened PublishTheorems

  /** Every line is a row and ends in a newline. */
  predicate Sturdy(file: File) {
    EndsLine(file) && ReadableRows(file).Some?
  }

  predicate BothSturdy(files: Files) {
    Sturdy(files.registry) && Sturdy(files.state)
  }

  /** The rows of `after` start with those of `before`. */
  predicate Grows(before: File, after: File) {
    ReadableRows(before).Some? && ReadableRows(after).Some? && ReadableRows(before).value <= ReadableRows(after).value
  }

  lemma AppendGrows(norm: string -> string, file: File, id: LedgerIdentity, row: Json, fault: AppendFault)
    requires Sturdy(file) && RowIdentity(norm, ToValue(row)) == Some(id)
    requires AppendIfAbsent(norm, file, id, row, fault).1.None?
    ensures var after := AppendIfAbsent(norm, file, id, row, fault).0; Sturdy(after) && Grows(file, after)
  {
    hide RowIdentity, AppendIfAbsent, EndsLine, ReadableRows, SameRow, LastMatch, RowLine;
    AppendedOrFound(norm, file, id, row, fault);
    if !HasRow(norm, file, id) {
      IdentityIsObject(norm, row);
      AppendedRows(file, row);
    }
  }

  /** A commit with working restores, and an error row that is not cut, only add rows. */
  lemma ApplyGrows(norm: string -> string, files: Files, op: LedgerOp)
    requires BothSturdy(files) && OpAllowed(norm, op) && !Cuts(op)
    ensures var after := Apply(norm, files, op);
      BothSturdy(after) && Grows(files.registry, after.registry) && Grows(files.state, after.state)
  {
    hide RowIdentity, AppendIfAbsent, EndsLine, ReadableRows, RowLine;
    match op {
      case TargetCommit(id, registryRow, stateRow, faults) =>
        if CommitPair(norm, files, id, registryRow, stateRow, faults).1.Some? {
          FailureChangesNothing(norm, files, id, registryRow, stateRow, faults);
        } else {
          CommitMadeBoth(norm, files, id, registryRow, stateRow, faults);
          AppendGrows(norm, files.registry, id, registryRow, faults.registryAppend);
          AppendGrows(norm, files.state, id, stateRow, faults.stateAppend);
        }
      case ErrorRow(row, fault) =>
        ErrorRowGrows(files.state, row, fault);
    }
  }

  lemma ErrorRowGrows(file: File, row: Json, fault: AppendFault)
    requires Sturdy(file) && row.Obj? && !Cuts(ErrorRow(row, fault))
    ensures var after := AppendLine(file, RowLine(row), fault).0; Sturdy(after) && Grows(file, after)
  {
    hide Rows, LineEnded, RowLine;
    WholeOrNothing(Content(file), RowLine(row));
    AppendedRows(file, row);
    EmptyRows();
    NothingIsEnded();
  }

  lemma {:induction false} RunGrows(norm: string -> string, files: Files, ops: seq<LedgerOp>)
    requires BothSturdy(files) && forall i :: 0 <= i < |ops| ==> OpAllowed(norm, ops[i]) && !Cuts(ops[i])
    ensures var after := ApplyAll(norm, files, ops);
      BothSturdy(after) && Grows(files.registry, after.registry) && Grows(files.state, after.state)
    decreases |ops|
  {
    hide Sturdy, Apply, OpAllowed, Cuts, ReadableRows;
    ReadableWhenSturdy(files);
    if ops != [] {
      ApplyGrows(norm, files, ops[0]);
      RunGrows(norm, Apply(norm, files, ops[0]), ops[1..]);
    }
  }

  lemma ReadableWhenSturdy(files: Files)
    requires BothSturdy(files)
    ensures ReadableRows(files.registry).Some? && ReadableRows(files.state).Some?
  {
  }

  /* ---- The typed rows grow with the file ---- */

  lemma {:induction false} CollectConcat<T>(read: Value -> Option<T>, a: seq<Value>, b: seq<Value>)
    ensures Collect(read, a + b) == Collect(read, a) + Collect(read, b)
  {
    if a == [] {
      assert a + b == b;
    } else {
      assert (a + b)[1..] == a[1..] + b;
      CollectConcat(read, a[1..], b);
    }
  }

  lemma LoadedWhenReadable(file: File)
    requires ReadableRows(file).Some?
    ensures LoadRows(file) == ReadableRows(file).value
  {
    if file.Present? {
      LoadedAreRows(file.bytes);
    }
  }

  lemma CollectedGrow<T>(read: Value -> Option<T>, before: File, after: File)
    requires Grows(before, after)
    ensures Collect(read, LoadRows(before)) <= Collect(read, LoadRows(after))
  {
    hide LoadRows, ReadableRows, Collect;
    LoadedWhenReadable(before);
    LoadedWhenReadable(after);
    var a, b := LoadRows(before), LoadRows(after);
    assert b == a + b[|a|..];
    CollectConcat(read, a, b[|a|..]);
  }

  /**
    A key that is verified stays verified over any run of commits, whatever their write faults,
    and of error rows that are not cut, as long as the file that verified it keeps its digest.
    Whatever else happens to other files, the path that wins holds the digest it is listed with.
   */
  lemma AdmissionLasts(env: Env, w: World, key: TargetKey, ops: seq<LedgerOp>, sidecars: Sidecars)
    requires BothSturdy(w.ledgers) && forall i :: 0 <= i < |ops| ==> OpAllowed(env.norm, ops[i]) && !Cuts(ops[i])
    requires key in Verified(env, w)
    requires var v := Verified(env, w)[key]; v.path in sidecars && env.sha(sidecars[v.path]) == v.artifact
    ensures var verified := Verified(env, World(ApplyAll(env.norm, w.ledgers, ops), sidecars));
      && key in verified
      && verified[key].path in sidecars && env.sha(sidecars[verified[key].path]) == verified[key].artifact
      && (verified[key].path == Verified(env, w)[key].path ==> verified[key] == Verified(env, w)[key])
  {
    hide VerifiedTargets, RegistryRows, StateRows, ApplyAll, Agree, Grows, OpAllowed, Cuts, Sturdy, IsDone;
    var after := ApplyAll(env.norm, w.ledgers, ops);
    RunGrows(env.norm, w.ledgers, ops);
    RowsGrow(w.ledgers, after);
    var i, j, target := VerifiedAgrees(env, w.sidecars, RegistryRows(w.ledgers.registry), StateRows(w.ledgers.state), key);
    var registry, states := RegistryRows(after.registry), StateRows(after.state);
    assert registry[i] == RegistryRows(w.ledgers.registry)[i] && states[j] == StateRows(w.ledgers.state)[j];
    assert Agree(env, sidecars, registry[i], states[j], key, target) by {
      KeepsAgreeing(env, w.sidecars, sidecars, registry[i], states[j], key, target);
    }
    VerifiedMeansAgreement(env, sidecars, registry, states, key);
    var i', j', target' := VerifiedAgrees(env, sidecars, registry, states, key);
    AgreedDigest(env, sidecars, registry[i'], states[j'], key, target');
  }

  lemma RowsGrow(before: Files, after: Files)
    requires Grows(before.registry, after.registry) && Grows(before.state, after.state)
    ensures RegistryRows(before.registry) <= RegistryRows(after.registry) && StateRows(before.state) <= StateRows(after.state)
  {
    CollectedGrow(ReadRegistry, before.registry, after.registry);
    CollectedGrow(ReadState, before.state, after.state);
  }

  lemma KeepsAgreeing(env: Env, before: Sidecars, after: Sidecars, row: RegistryRow, entry: StateEntry, key: TargetKey,
                      target: VerifiedTarget)
    requires Agree(env, before, row, entry, key, target)
    requires target.path in after && env.sha(after[target.path]) == target.artifact
    ensures Agree(env, after, row, entry, key, target)
  {
  }

  lemma AgreedDigest(env: Env, sidecars: Sidecars, row: RegistryRow, entry: StateEntry, key: TargetKey, target: VerifiedTarget)
    requires Agree(env, sidecars, row, entry, key, target)
    ensures target.path in sidecars && env.sha(sidecars[target.path]) == target.artifact
  {
  }

  /** The rows and the file behind a verified target. */
  lemma VerifiedAgrees(env: Env, sidecars: Sidecars, registry: seq<RegistryRow>, states: seq<StateEntry>, key: TargetKey)
    returns (i: nat, j: nat, target: VerifiedTarget)
    requires key in VerifiedTargets(env, sidecars, registry, states)
    ensures i < |registry| && j < |states| && target == VerifiedTargets(env, sidecars, registry, states)[key]
    ensures Agree(env, sidecars, registry[i], states[j], key, target)
  {
    hide VerifiedTargets;
    VerifiedExactly(env, sidecars, registry, states, key);
    i :| 0 <= i < |registry| && LastFor(env, sidecars, registry, states, key, i);
    target := Admitted(env, sidecars, states, registry[i]).value.1;
    j :| 0 <= j < |states| && DoneOf(env, states[j]) == Some((key, target.artifact));
  }

  /**
    So a finished target is not taken up again: its key stays verified over any later run while
    the target holds bytes of the committed digest.
   */
  lemma FinishStaysAdmitted(env: Env, w: World, c: Commit, bytes: seq<byte>, ts: string, f: FinishFaults,
                            ops: seq<LedgerOp>, sidecars: Sidecars)
    requires |env.sha(bytes)| == 32 && env.norm(env.norm(c.lang)) == env.norm(c.lang)
    requires CommitHappened(Finish(env, w, c, bytes, ts, f).1) && BothSturdy(w.ledgers)
    requires OldTimeReads(env, w.ledgers.registry, IdOf(env, c, bytes)) && OldTimeReads(env, w.ledgers.state, IdOf(env, c, bytes))
    requires forall i :: 0 <= i < |ops| ==> OpAllowed(env.norm, ops[i]) && !Cuts(ops[i])
    requires Target(env, c) in sidecars && env.sha(sidecars[Target(env, c)]) == env.sha(bytes)
    ensures var after := ApplyAll(env.norm, Finish(env, w, c, bytes, ts, f).0.ledgers, ops);
      var verified := Verified(env, World(after, sidecars));
      && KeyOf(env, c) in verified
      && (verified[KeyOf(env, c)].path == Target(env, c) ==> verified[KeyOf(env, c)].artifact == env.sha(bytes))
  {
    hide RowIdentity, AppendIfAbsent, EndsLine, HasRow, ReadableRows, RegistryFields, StateFields, CanonicalSidecar, CommitPair,
         Finish, Verified, OldTimeReads, ApplyAll, OpAllowed, Cuts;
    var (id, registryRow, stateRow) := TargetRows(env, c, env.sha(bytes), ts);
    var done := Finish(env, w, c, bytes, ts, f).0.(sidecars := sidecars);
    FinishCommitted(env, w, c, bytes, ts, f);
    CommitMadeBoth(env.norm, w.ledgers, id, registryRow, stateRow, f.ledger);
    AppendGrows(env.norm, w.ledgers.registry, id, registryRow, f.ledger.registryAppend);
    AppendGrows(env.norm, w.ledgers.state, id, stateRow, f.ledger.stateAppend);
    FinishAdmits(env, w, c, bytes, ts, f, sidecars);
    VerifiedHolds(env, done, KeyOf(env, c));
    AdmissionLasts(env, done, KeyOf(env, c), ops, sidecars);
  }

  lemma VerifiedHolds(env: Env, w: World, key: TargetKey)
    requires key in Verified(env, w)
    ensures var v := Verified(env, w)[key]; v.path in w.sidecars && env.sha(w.sidecars[v.path]) == v.artifact
  {
    hide VerifiedTargets, RegistryRows, StateRows;
    var i, j, target := VerifiedAgrees(env, w.sidecars, RegistryRows(w.ledgers.registry), StateRows(w.ledgers.state), key);
  }
}
