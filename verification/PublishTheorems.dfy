/** A finished target is admitted; a failed one leaves the file it found. */
module PublishTheorems {
  import opened Wrappers
  import opened Decimal
  import opened Json
  import opened ReportTypes
  import opened LedgerText
  import opened LedgerCommit
  import opened LedgerTheorems
  import opened Admission
  import opened TargetLedgerRows
  import opened TargetPublish

  function Target(env: Env, c: Commit): string {
    CanonicalSidecar(env, c.stem, c.lang)
  }

  /** The identity `finish_lang` commits for these bytes. */
  function IdOf(env: Env, c: Commit, bytes: seq<byte>): LedgerIdentity {
    TargetRows(env, c, env.sha(bytes), "").0
  }

  /* ---- Success admits ---- */

  lemma {:induction false} LastMatchIn(norm: string -> string, rows: seq<Value>, id: LedgerIdentity) returns (i: nat)
    requires LastMatch(norm, rows, id).Some?
    ensures i < |rows| && rows[i] == LastMatch(norm, rows, id).value
    ensures RowIdentity(norm, rows[|rows| - 1]) == Some(id) ==> i == |rows| - 1
    decreases |rows|
  {
    hide RowIdentity;
    if RowIdentity(norm, rows[|rows| - 1]) == Some(id) {
      i := |rows| - 1;
    } else {
      i := LastMatchIn(norm, rows[..|rows| - 1], id);
    }
  }

  /** A row of the identity that was there before the commit has a time the typed readers take. */
  predicate OldTimeReads(env: Env, file: File, id: LedgerIdentity) {
    HasRow(env.norm, file, id) ==> TimeReads(LastMatch(env.norm, ReadableRows(file).value, id).value)
  }

  lemma RowsAreLoaded(norm: string -> string, file: File, id: LedgerIdentity)
    requires HasRow(norm, file, id)
    ensures LoadRows(file) == ReadableRows(file).value
  {
    hide Rows, LastMatch;
    EmptyMatch(norm, id);
    if file.Present? {
      LoadedAreRows(file.bytes);
    }
  }

  /** After an append that succeeds, the row the typed reader has to read is ours up to a readable time. */
  lemma AppendedReads(env: Env, file: File, id: LedgerIdentity, row: Json, fault: AppendFault)
    requires RowIdentity(env.norm, ToValue(row)) == Some(id) && TimeReads(ToValue(row))
    requires AppendIfAbsent(env.norm, file, id, row, fault).1.None?
    requires (HasRow(env.norm, file, id) || EndsLine(file)) && OldTimeReads(env, file, id)
    ensures var after := AppendIfAbsent(env.norm, file, id, row, fault).0;
      && HasRow(env.norm, after, id) && ReadableRows(after).Some?
      && var v := LastMatch(env.norm, ReadableRows(after).value, id).value;
         && SameRow(v, ToValue(row)) && TimeReads(v)
         && (!HasRow(env.norm, file, id) ==> ReadableRows(after).value == ReadableRows(file).value + [ToValue(row)])
  {
    hide Rows, RowIdentity, RowLine, LastMatch, LineEnded, AppendIfAbsent, SameRow, TimeReads;
    AppendedOrFound(env.norm, file, id, row, fault);
    if !HasRow(env.norm, file, id) {
      IdentityIsObject(env.norm, row);
      AppendedRows(file, row);
      LastMatchSnoc(env.norm, ReadableRows(file).value, ToValue(row), id);
    }
  }

  lemma OurTimesRead(env: Env, c: Commit, digest: seq<byte>, ts: string)
    ensures TimeReads(ToValue(Obj(RegistryFields(env, c, digest, ts))))
    ensures TimeReads(ToValue(Obj(StateFields(env, c, digest, ts))))
  {
    hide Hex, CanonicalSidecar, OptionalText, DistinctKeys;
    var rs, ss := RegistryFields(env, c, digest, ts), StateFields(env, c, digest, ts);
    RegistryKeysDistinct(env, c, digest, ts);
    StateKeysDistinct(env, c, digest, ts);
    assert rs[|rs| - 1] == ss[|ss| - 1] == Field("ts", Str(ts));
    MemberIs(rs, rs[|rs| - 1]);
    MemberIs(ss, ss[|ss| - 1]);
  }

  /** The state row makes the key done with its digest. */
  lemma StateRowIsDone(env: Env, file: File, c: Commit, digest: seq<byte>, ts: string, id: LedgerIdentity)
    requires |digest| == 32 && env.norm(env.norm(c.lang)) == env.norm(c.lang) && HasRow(env.norm, file, id)
    requires var v := LastMatch(env.norm, ReadableRows(file).value, id).value;
      TimeReads(v) && SameRow(v, ToValue(Obj(StateFields(env, c, digest, ts))))
    ensures IsDone(env, StateRows(file), KeyOf(env, c), digest)
  {
    hide StateFields, LastMatch, ReadState, ReadableRows, LoadRows, SameRow, TimeReads;
    var rows := ReadableRows(file).value;
    var i := LastMatchIn(env.norm, rows, id);
    RowsAreLoaded(env.norm, file, id);
    StateReads(env, c, digest, ts, rows[i]);
    var j := Collected(ReadState, rows, i);
    assert DoneOf(env, StateRows(file)[j]) == Some((KeyOf(env, c), digest));
  }

  /** The registry row admits the file it names. */
  lemma RegistryRowAdmits(env: Env, files: Sidecars, file: File, states: seq<StateEntry>, c: Commit, digest: seq<byte>,
                          ts: string, id: LedgerIdentity) returns (j: nat)
    requires |digest| == 32 && env.norm(env.norm(c.lang)) == env.norm(c.lang) && HasRow(env.norm, file, id)
    requires var v := LastMatch(env.norm, ReadableRows(file).value, id).value;
      TimeReads(v) && SameRow(v, ToValue(Obj(RegistryFields(env, c, digest, ts))))
    requires IsDone(env, states, KeyOf(env, c), digest)
    requires Target(env, c) in files && env.sha(files[Target(env, c)]) == digest
    ensures j < |RegistryRows(file)|
    ensures Admitted(env, files, states, RegistryRows(file)[j]) == Some((KeyOf(env, c), VerifiedTarget(Target(env, c), digest)))
    ensures var rows := ReadableRows(file).value;
      RowIdentity(env.norm, rows[|rows| - 1]) == Some(id) ==> j == |RegistryRows(file)| - 1
  {
    hide RegistryFields, LastMatch, ReadRegistry, ReadableRows, LoadRows, SameRow, TimeReads, CanonicalSidecar, IsDone, RowIdentity;
    var rows := ReadableRows(file).value;
    var i := LastMatchIn(env.norm, rows, id);
    RowsAreLoaded(env.norm, file, id);
    RegistryReads(env, c, digest, ts, rows[i]);
    j := Collected(ReadRegistry, rows, i);
  }

  /** Each commit that succeeds made both appends. */
  lemma CommitMadeBoth(norm: string -> string, files: Files, id: LedgerIdentity, registryRow: Json, stateRow: Json, faults: Faults)
    requires CommitPair(norm, files, id, registryRow, stateRow, faults).1.None?
    ensures RowIdentity(norm, ToValue(registryRow)) == Some(id) && RowIdentity(norm, ToValue(stateRow)) == Some(id)
    ensures AppendIfAbsent(norm, files.registry, id, registryRow, faults.registryAppend).1.None?
    ensures AppendIfAbsent(norm, files.state, id, stateRow, faults.stateAppend).1.None?
    ensures CommitPair(norm, files, id, registryRow, stateRow, faults).0 ==
      Files(AppendIfAbsent(norm, files.registry, id, registryRow, faults.registryAppend).0,
            AppendIfAbsent(norm, files.state, id, stateRow, faults.stateAppend).0)
  {
    hide RowIdentity, AppendIfAbsent;
  }

  /** What a success, and the late language error after a commit, have in common. */
  predicate CommitHappened(r: Result<seq<byte>, FinishError>) {
    r.Success? || r.error.BadLanguage?
  }

  lemma FinishCommitted(env: Env, w: World, c: Commit, bytes: seq<byte>, ts: string, f: FinishFaults)
    requires CommitHappened(Finish(env, w, c, bytes, ts, f).1)
    ensures var (id, registryRow, stateRow) := TargetRows(env, c, env.sha(bytes), ts);
      && CommitPair(env.norm, w.ledgers, id, registryRow, stateRow, f.ledger).1.None?
      && Finish(env, w, c, bytes, ts, f).0.ledgers == CommitPair(env.norm, w.ledgers, id, registryRow, stateRow, f.ledger).0
      && (Finish(env, w, c, bytes, ts, f).1.Success? ==> Finish(env, w, c, bytes, ts, f).1.value == env.sha(bytes))
  {
    hide CommitPair, Cleanup, RegistryFields, StateFields, ParseLanguage, StillCurrent;
  }

  /**
    Admission follows commit. Once `finish_lang` has committed, its key is verified for as long
    as the target holds bytes of the committed digest. The verified file is this one if the row
    is new; an older row of the same key that comes later in the registry can only win for
    another path.
   */
  lemma FinishAdmits(env: Env, w: World, c: Commit, bytes: seq<byte>, ts: string, f: FinishFaults, sidecars: Sidecars)
    requires |env.sha(bytes)| == 32 && env.norm(env.norm(c.lang)) == env.norm(c.lang)
    requires CommitHappened(Finish(env, w, c, bytes, ts, f).1)
    requires HasRow(env.norm, w.ledgers.registry, IdOf(env, c, bytes)) || EndsLine(w.ledgers.registry)
    requires HasRow(env.norm, w.ledgers.state, IdOf(env, c, bytes)) || EndsLine(w.ledgers.state)
    requires OldTimeReads(env, w.ledgers.registry, IdOf(env, c, bytes)) && OldTimeReads(env, w.ledgers.state, IdOf(env, c, bytes))
    requires Target(env, c) in sidecars && env.sha(sidecars[Target(env, c)]) == env.sha(bytes)
    ensures var verified := Verified(env, Finish(env, w, c, bytes, ts, f).0.(sidecars := sidecars));
      && KeyOf(env, c) in verified
      && (verified[KeyOf(env, c)].path == Target(env, c) ==> verified[KeyOf(env, c)].artifact == env.sha(bytes))
      && (!HasRow(env.norm, w.ledgers.registry, IdOf(env, c, bytes)) ==>
            verified[KeyOf(env, c)] == VerifiedTarget(Target(env, c), env.sha(bytes)))
  {
    hide RowIdentity, AppendIfAbsent, EndsLine, HasRow, LastMatch, SameRow, TimeReads, RegistryFields, StateFields, Hex,
      CanonicalSidecar, CommitPair, Finish, ReadableRows, RegistryRows, StateRows, Admitted, VerifiedTargets, OldTimeReads, IsDone;
    var digest := env.sha(bytes);
    var (id, registryRow, stateRow) := TargetRows(env, c, digest, ts);
    var after := Finish(env, w, c, bytes, ts, f).0.ledgers;
    FinishCommitted(env, w, c, bytes, ts, f);
    CommitMadeBoth(env.norm, w.ledgers, id, registryRow, stateRow, f.ledger);
    OurTimesRead(env, c, digest, ts);
    AppendedReads(env, w.ledgers.registry, id, registryRow, f.ledger.registryAppend);
    AppendedReads(env, w.ledgers.state, id, stateRow, f.ledger.stateAppend);
    StateRowIsDone(env, after.state, c, digest, ts, id);
    var states, registry := StateRows(after.state), RegistryRows(after.registry);
    var j := RegistryRowAdmits(env, sidecars, after.registry, states, c, digest, ts, id);
    VerifiedHere(env, sidecars, registry, states, KeyOf(env, c), j, VerifiedTarget(Target(env, c), digest));
    if !HasRow(env.norm, w.ledgers.registry, id) {
      var rows := ReadableRows(after.registry).value;
      assert rows[|rows| - 1] == ToValue(registryRow);
    }
  }

  /** A row that admits a target makes its key verified. */
  lemma VerifiedHere(env: Env, files: Sidecars, registry: seq<RegistryRow>, states: seq<StateEntry>, key: TargetKey, j: nat,
                     target: VerifiedTarget)
    requires j < |registry| && Admitted(env, files, states, registry[j]) == Some((key, target))
    ensures var verified := VerifiedTargets(env, files, registry, states);
      && key in verified
      && (verified[key].path == target.path ==> verified[key].artifact == target.artifact)
      && (j == |registry| - 1 ==> verified[key] == target)
  {
    hide VerifiedTargets;
    VerifiedExactly(env, files, registry, states, key);
    var last := SomeLast(env, files, registry, states, key, j);
    assert VerifiedTargets(env, files, registry, states)[key] == Admitted(env, files, states, registry[last]).value.1;
  }

  /* ---- Failure restores ---- */

  /** The disk obeys and nobody else touches the target. */
  predicate Undisturbed(f: FinishFaults) {
    && f.duringUpload.Untouched? && f.beforeCommit.Untouched? && f.duringRollback.Untouched? && f.rollback.RollbackOk?
    && RestoresWork(f.ledger)
  }

  /** The install stays because rows of another commit already verify its digest. */
  predicate KeptAsVerified(env: Env, w: World, c: Commit, bytes: seq<byte>) {
    var placed := w.(sidecars := w.sidecars[Target(env, c) := bytes] - {InstallTmp(Target(env, c))});
    KeyOf(env, c) in Verified(env, placed) && Verified(env, placed)[KeyOf(env, c)].artifact == env.sha(bytes)
  }

  lemma TmpNamesDiffer(target: string)
    ensures InstallTmp(target) != target && RollbackTmp(target) != target
  {
    assert |InstallTmp(target)| > |target| && |RollbackTmp(target)| > |target|;
  }

  /** Undoing an install that nobody touched gives back what the target held. */
  lemma RollbackRestores(env: Env, s: Sidecars, target: string, bytes: seq<byte>)
    ensures var (placed, i) := Install(env, s, target, bytes, InstallOk);
      i.Some? && Lookup(Rollback(env, placed, i.value, RollbackOk, Untouched), target) == Lookup(s, target)
  {
    TmpNamesDiffer(target);
  }

  /**
    When `finish_lang` fails before its commit, both ledgers are as before, and so is the target
    unless the install worked and either the look at it failed, as that exit has no clean-up, or
    rows of another commit verify the new file already.
   */
  lemma FailureRestores(env: Env, w: World, c: Commit, bytes: seq<byte>, ts: string, f: FinishFaults)
    requires Undisturbed(f) && !CommitHappened(Finish(env, w, c, bytes, ts, f).1)
    ensures var (after, r) := Finish(env, w, c, bytes, ts, f);
      && after.ledgers == w.ledgers
      && Lookup(after.sidecars, Target(env, c)) ==
           if f.install.InstallOk? && (f.currentUnreadable || KeptAsVerified(env, w, c, bytes)) then Some(bytes)
           else Lookup(w.sidecars, Target(env, c))
  {
    hide CommitPair, RegistryFields, StateFields, ParseLanguage, CanonicalSidecar, Verified, Rollback;
    var target := Target(env, c);
    TmpNamesDiffer(target);
    RollbackRestores(env, w.sidecars, target, bytes);
    var (id, registryRow, stateRow) := TargetRows(env, c, env.sha(bytes), ts);
    if CommitPair(env.norm, w.ledgers, id, registryRow, stateRow, f.ledger).1.Some? {
      FailureChangesNothing(env.norm, w.ledgers, id, registryRow, stateRow, f.ledger);
    }
    var placed := Install(env, w.sidecars, target, bytes, InstallOk).0;
    assert placed == w.sidecars[target := bytes] - {InstallTmp(target)};
  }

  /** A replacement made during the upload is never overwritten, removed or committed. */
  lemma ReplacementSurvives(env: Env, w: World, c: Commit, bytes: seq<byte>, ts: string, f: FinishFaults, theirs: seq<byte>)
    requires f.install.InstallOk? && f.duringUpload == Replaced(theirs) && env.sha(theirs) != env.sha(bytes)
    requires f.duringRollback.Untouched?
    ensures var (after, r) := Finish(env, w, c, bytes, ts, f);
      && r.Failure? && after.ledgers == w.ledgers && Lookup(after.sidecars, Target(env, c)) == Some(theirs)
  {
    hide CommitPair, RegistryFields, StateFields, ParseLanguage, CanonicalSidecar, Verified;
  }
}
