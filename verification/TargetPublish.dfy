/** Installing a finished subtitle, committing it to the ledgers, and undoing a failed install. */
module TargetPublish {
  import opened Wrappers
  import opened ReportTypes
  import opened LedgerText
  import opened LedgerCommit
  import opened Admission
  import opened TargetLedgerRows

  /** The two ledgers and the sidecar files. */
  datatype World = World(ledgers: Files, sidecars: Sidecars)

  datatype Installed = Installed(target: string, previous: Option<seq<byte>>, artifact: seq<byte>)

  /** What somebody else does to the target: nothing, delete it, or replace it. */
  datatype Meddling = Untouched | Deleted | Replaced(bytes: seq<byte>)

  datatype InstallFault = InstallOk | PreviousUnreadable | WriteFails(written: Option<nat>) | RenameFails

  /** `written` bytes reach the temporary file when writing it fails; nothing when it cannot be created. */
  datatype RollbackFault = RollbackOk | TargetUnreadable | RollbackWriteFails(written: Option<nat>) | LastStepFails

  datatype FinishFaults = FinishFaults(
    install: InstallFault,
    duringUpload: Meddling,
    currentUnreadable: bool,
    rowsFail: bool,
    beforeCommit: Meddling,
    ledger: Faults,
    rollback: RollbackFault,
    duringRollback: Meddling
  )

  datatype FinishError = InstallFailed | CurrentUnknown | TargetReplaced | RowsFailed | LedgerFailed(error: CommitLedgerError) | BadLanguage

  function Meddle(s: Sidecars, path: string, m: Meddling): Sidecars {
    match m
    case Untouched => s
    case Deleted => s - {path}
    case Replaced(b) => s[path := b]
  }

  function Lookup(s: Sidecars, path: string): Option<seq<byte>> {
    if path in s then Some(s[path]) else None
  }

  function InstallTmp(target: string): string {
    target + ".direct.tmp"
  }

  function RollbackTmp(target: string): string {
    target + ".rollback.tmp"
  }

  /** A failed write of a temporary file. */
  function TornWrite(s: Sidecars, path: string, bytes: seq<byte>, written: Option<nat>): Sidecars {
    match written
    case None => s
    case Some(n) => s[path := bytes[..Min(n, |bytes|)]]
  }

  /** `install_sidecar`: write a temporary file and rename it over the target. */
  function Install(env: Env, s: Sidecars, target: string, bytes: seq<byte>, fault: InstallFault): (Sidecars, Option<Installed>) {
    match fault
    case PreviousUnreadable => (s, None)
    case WriteFails(n) => (TornWrite(s, InstallTmp(target), bytes, n), None)
    case RenameFails => (s - {InstallTmp(target)}, None)
    case InstallOk => ((s - {InstallTmp(target)})[target := bytes], Some(Installed(target, Lookup(s, target), env.sha(bytes))))
  }

  /** `still_current`. */
  predicate StillCurrent(env: Env, s: Sidecars, i: Installed) {
    i.target in s && env.sha(s[i.target]) == i.artifact
  }

  /** `rollback_if_unchanged`; its error is only logged. */
  function Rollback(env: Env, s: Sidecars, i: Installed, fault: RollbackFault, during: Meddling): Sidecars {
    if fault.TargetUnreadable? || !StillCurrent(env, s, i) then s
    else
      match i.previous
      case Some(previous) =>
        var tmp := RollbackTmp(i.target);
        if fault.RollbackWriteFails? then TornWrite(s, tmp, previous, fault.written)
        else
          var written := Meddle(s[tmp := previous], i.target, during);
          if !StillCurrent(env, written, i) || fault.LastStepFails? then written - {tmp}
          else (written - {tmp})[i.target := previous]
      case None =>
        var now := Meddle(s, i.target, during);
        if !StillCurrent(env, now, i) || fault.LastStepFails? then now else now - {i.target}
  }

  function Verified(env: Env, w: World): map<TargetKey, VerifiedTarget> {
    VerifiedTargets(env, w.sidecars, RegistryRows(w.ledgers.registry), StateRows(w.ledgers.state))
  }

  function KeyOf(env: Env, c: Commit): TargetKey {
    TargetKey(KindText(c.isMovie), c.episodeId, env.norm(c.lang))
  }

  /** `cleanup_failed_install`: an install that some rows already verify stays. */
  function Cleanup(env: Env, w: World, key: TargetKey, i: Installed, fault: RollbackFault, during: Meddling): World {
    if key in Verified(env, w) && Verified(env, w)[key].artifact == i.artifact then w
    else w.(sidecars := Rollback(env, w.sidecars, i, fault, during))
  }

  /** `finish_lang` after the text is made: install, upload, look again, commit, and clean up on failure. */
  function Finish(env: Env, w: World, c: Commit, bytes: seq<byte>, ts: string, f: FinishFaults)
    : (World, Result<seq<byte>, FinishError>)
  {
    var target := CanonicalSidecar(env, c.stem, c.lang);
    var (placed, installed) := Install(env, w.sidecars, target, bytes, f.install);
    if installed.None? then (w.(sidecars := placed), Failure(InstallFailed))
    else
      var i := installed.value;
      var w1 := w.(sidecars := Meddle(placed, target, f.duringUpload));
      if f.currentUnreadable then (w1, Failure(CurrentUnknown))
      else if !StillCurrent(env, w1.sidecars, i) then
        (Cleanup(env, w1, KeyOf(env, c), i, f.rollback, f.duringRollback), Failure(TargetReplaced))
      else if f.rowsFail then
        (Cleanup(env, w1, KeyOf(env, c), i, f.rollback, f.duringRollback), Failure(RowsFailed))
      else
        var (id, registryRow, stateRow) := TargetRows(env, c, i.artifact, ts);
        var (ledgers, error) := CommitPair(env.norm, w1.ledgers, id, registryRow, stateRow, f.ledger);
        var w2 := World(ledgers, Meddle(w1.sidecars, target, f.beforeCommit));
        if error.Some? then
          (Cleanup(env, w2, KeyOf(env, c), i, f.rollback, f.duringRollback), Failure(LedgerFailed(error.value)))
        else if ParseLanguage(c.lang).Failure? then (w2, Failure(BadLanguage))
        else (w2, Success(i.artifact))
  }

  /* ---- The steps in place ---- */

  class TargetPublisher {
    const env: Env
    const store: LedgerStore
    var sidecars: Sidecars

    constructor (env: Env, store: LedgerStore, sidecars: Sidecars)
      requires store.norm == env.norm
      ensures Valid() && this.env == env && this.store == store && this.sidecars == sidecars
    {
      this.env := env;
      this.store := store;
      this.sidecars := sidecars;
    }

    ghost predicate Valid() {
      store.norm == env.norm
    }

    ghost function Contents(): World
      reads this, store
    {
      World(store.files, sidecars)
    }

    method InstallSidecar(target: string, bytes: seq<byte>, fault: InstallFault) returns (installed: Option<Installed>)
      modifies this
      ensures (sidecars, installed) == Install(env, old(sidecars), target, bytes, fault)
    {
      if fault.PreviousUnreadable? {
        return None;
      }
      var previous := Lookup(sidecars, target);
      var tmp := InstallTmp(target);
      if fault.WriteFails? {
        sidecars := TornWrite(sidecars, tmp, bytes, fault.written);
        return None;
      }
      sidecars := sidecars[tmp := bytes];
      if fault.RenameFails? {
        sidecars := sidecars - {tmp};
        assert sidecars == old(sidecars) - {tmp};
        return None;
      }
      sidecars := sidecars - {tmp};
      assert sidecars == old(sidecars) - {tmp};
      sidecars := sidecars[target := bytes];
      installed := Some(Installed(target, previous, env.sha(bytes)));
    }

    /** The `during` change is made by somebody else between the two looks at the target. */
    method RollbackIfUnchanged(i: Installed, fault: RollbackFault, during: Meddling)
      modifies this
      ensures sidecars == Rollback(env, old(sidecars), i, fault, during)
    {
      if fault.TargetUnreadable? || i.target !in sidecars || env.sha(sidecars[i.target]) != i.artifact {
        return;
      }
      if i.previous.Some? {
        var tmp := RollbackTmp(i.target);
        if fault.RollbackWriteFails? {
          sidecars := TornWrite(sidecars, tmp, i.previous.value, fault.written);
          return;
        }
        sidecars := sidecars[tmp := i.previous.value];
        sidecars := Meddle(sidecars, i.target, during);
        var current := StillCurrent(env, sidecars, i);
        sidecars := sidecars - {tmp};
        if current && !fault.LastStepFails? {
          sidecars := sidecars[i.target := i.previous.value];
        }
      } else {
        sidecars := Meddle(sidecars, i.target, during);
        if StillCurrent(env, sidecars, i) && !fault.LastStepFails? {
          sidecars := sidecars - {i.target};
        }
      }
    }

    method CleanupFailedInstall(key: TargetKey, i: Installed, fault: RollbackFault, during: Meddling)
      requires Valid()
      modifies this
      ensures Contents() == Cleanup(env, old(Contents()), key, i, fault, during)
    {
      hide Rollback, RegistryRows, StateRows;
      var verified := VerifiedTargets(env, sidecars, RegistryRows(store.files.registry), StateRows(store.files.state));
      if key in verified && verified[key].artifact == i.artifact {
        return;
      }
      RollbackIfUnchanged(i, fault, during);
    }

    method FinishLang(c: Commit, bytes: seq<byte>, ts: string, f: FinishFaults) returns (r: Result<seq<byte>, FinishError>)
      requires Valid()
      modifies this, store
      ensures (Contents(), r) == Finish(env, old(Contents()), c, bytes, ts, f)
    {
      hide Install, Cleanup, CommitPair, RegistryFields, StateFields, ParseLanguage;
      var target := CanonicalSidecar(env, c.stem, c.lang);
      var installed := InstallSidecar(target, bytes, f.install);
      if installed.None? {
        return Failure(InstallFailed);
      }
      var i := installed.value;
      sidecars := Meddle(sidecars, target, f.duringUpload);
      if f.currentUnreadable {
        return Failure(CurrentUnknown);
      }
      if !StillCurrent(env, sidecars, i) {
        CleanupFailedInstall(KeyOf(env, c), i, f.rollback, f.duringRollback);
        return Failure(TargetReplaced);
      }
      if f.rowsFail {
        CleanupFailedInstall(KeyOf(env, c), i, f.rollback, f.duringRollback);
        return Failure(RowsFailed);
      }
      var (id, registryRow, stateRow) := TargetRows(env, c, i.artifact, ts);
      var error := store.Commit(id, registryRow, stateRow, f.ledger);
      sidecars := Meddle(sidecars, target, f.beforeCommit);
      if error.Some? {
        CleanupFailedInstall(KeyOf(env, c), i, f.rollback, f.duringRollback);
        return Failure(LedgerFailed(error.value));
      }
      if ParseLanguage(c.lang).Failure? {
        return Failure(BadLanguage);
      }
      r := Success(i.artifact);
    }
  }
}
