/** Exactly when finishing a language succeeds, what ends it otherwise, and that an undisturbed success is trusted. */
module PublishOutcomes {
  import opened Wrappers
  import opened Json
  import opened ReportTypes
  import opened LedgerCommit
  import opened LedgerTheorems
  import opened LedgerOutcomes
  import opened Admission
  import opened TargetLedgerRows
  import opened TargetPublish
  import opened PublishTheorems

  /** Letters and digits of ASCII in either case, 1 to 32 of them. */
  predicate LanguageTag(l: string) {
    1 <= |l| <= 32 && forall i :: 0 <= i < |l| ==> 'a' <= l[i] <= 'z' || 'A' <= l[i] <= 'Z' || '0' <= l[i] <= '9'
  }

  /** A tag is a language exactly when it is of that shape, and then its letters are made small. */
  lemma LanguageExactly(l: string)
    ensures ParseLanguage(l).Success? <==> LanguageTag(l)
    ensures LanguageTag(l) ==> |ParseLanguage(l).value| == |l| && forall i :: 0 <= i < |l| ==>
      ParseLanguage(l).value[i] == if 'A' <= l[i] <= 'Z' then (l[i] as int + 32) as char else l[i]
  {
    LowerAll(l);
    var a := AsciiLower(l);
    forall i | 0 <= i < |l|
      ensures LanguageChar(a[i]) <==> 'a' <= l[i] <= 'z' || 'A' <= l[i] <= 'Z' || '0' <= l[i] <= '9'
    {
    }
  }

  lemma {:induction false} LowerAll(l: string)
    ensures forall i :: 0 <= i < |l| ==> AsciiLower(l)[i] == if 'A' <= l[i] <= 'Z' then (l[i] as int + 32) as char else l[i]
  {
    if l != "" {
      LowerAll(l[1..]);
      assert AsciiLower(l)[1..] == AsciiLower(l[1..]);
      forall i | 0 < i < |l|
        ensures AsciiLower(l)[i] == if 'A' <= l[i] <= 'Z' then (l[i] as int + 32) as char else l[i]
      {
        assert AsciiLower(l)[i] == AsciiLower(l)[1..][i - 1] && l[i] == l[1..][i - 1];
      }
    }
  }

  /** After the upload the target still holds bytes of the digest. */
  predicate SameAfterUpload(env: Env, bytes: seq<byte>, during: Meddling) {
    during == Untouched || (during.Replaced? && env.sha(during.bytes) == env.sha(bytes))
  }

  /** The two rows and their identity are committed without error. */
  predicate CommitWorks(env: Env, w: World, c: Commit, bytes: seq<byte>, ts: string, f: FinishFaults) {
    var (id, registryRow, stateRow) := TargetRows(env, c, env.sha(bytes), ts);
    CommitPair(env.norm, w.ledgers, id, registryRow, stateRow, f.ledger).1 == None
  }

  /**
    Finishing a language succeeds exactly when the install and the look at it work, the target still holds bytes of the
    digest after the upload, the rows can be made, their commit succeeds, and the language is a tag. The first of
    these that fails names the error, and only the last two leave ledgers that may have changed.
   */
  lemma FinishSucceedsExactly(env: Env, w: World, c: Commit, bytes: seq<byte>, ts: string, f: FinishFaults)
    ensures var (after, r) := Finish(env, w, c, bytes, ts, f);
      && (r == Success(env.sha(bytes)) <==>
            f.install == InstallOk && !f.currentUnreadable && SameAfterUpload(env, bytes, f.duringUpload) && !f.rowsFail
            && CommitWorks(env, w, c, bytes, ts, f) && LanguageTag(c.lang))
      && (r.Success? ==> r.value == env.sha(bytes))
      && (f.install != InstallOk ==> r == Failure(InstallFailed) && after.ledgers == w.ledgers)
      && (f.install == InstallOk && f.currentUnreadable ==> r == Failure(CurrentUnknown) && after.ledgers == w.ledgers)
      && (f.install == InstallOk && !f.currentUnreadable && !SameAfterUpload(env, bytes, f.duringUpload) ==>
            r == Failure(TargetReplaced) && after.ledgers == w.ledgers)
      && (f.install == InstallOk && !f.currentUnreadable && SameAfterUpload(env, bytes, f.duringUpload) ==>
            if f.rowsFail then r == Failure(RowsFailed) && after.ledgers == w.ledgers
            else if !CommitWorks(env, w, c, bytes, ts, f) then r.Failure? && r.error.LedgerFailed?
            else !LanguageTag(c.lang) ==> r == Failure(BadLanguage))
  {
    hide CommitPair, Cleanup, RegistryFields, StateFields, ParseLanguage, CanonicalSidecar, LanguageTag, Verified;
    LanguageExactly(c.lang);
    PlacedIsCurrent(env, w.sidecars, CanonicalSidecar(env, c.stem, c.lang), bytes, f.duringUpload);
    CleanupLeavesLedgers(env, KeyOf(env, c), f);
  }

  /** After the install, the target holds bytes of the digest exactly if nobody changed that. */
  lemma PlacedIsCurrent(env: Env, s: Sidecars, target: string, bytes: seq<byte>, during: Meddling)
    ensures var (placed, i) := Install(env, s, target, bytes, InstallOk);
      i.Some? && i.value.artifact == env.sha(bytes)
      && (StillCurrent(env, Meddle(placed, target, during), i.value) <==> SameAfterUpload(env, bytes, during))
  {
  }

  lemma CleanupLeavesLedgers(env: Env, key: TargetKey, f: FinishFaults)
    ensures forall w, i :: Cleanup(env, w, key, i, f.rollback, f.duringRollback).ledgers == w.ledgers
  {
    hide Verified, Rollback;
  }

  /** Where the subtitle of a language goes. */
  function TargetPath(env: Env, c: Commit): string {
    c.stem + "." + env.norm(c.lang) + ".hi.srt"
  }

  lemma PathIsCanonical(env: Env, c: Commit)
    ensures PublishTheorems.Target(env, c) == CanonicalSidecar(env, c.stem, c.lang) == TargetPath(env, c)
  {
  }

  /** Nothing fails and nobody interferes. */
  predicate Faultless(f: FinishFaults) {
    && f.install == InstallOk && f.duringUpload == Untouched && !f.currentUnreadable && !f.rowsFail && f.beforeCommit == Untouched
    && !f.ledger.locksFail && !f.ledger.snapshotFails && f.ledger.registryAppend == AppendOk && f.ledger.stateAppend == AppendOk
  }

  /** The ledger is readable, has no row of the identity that says anything else, and takes a row on a line of its own. */
  ghost predicate Receptive(env: Env, file: File, id: LedgerIdentity, row: Json) {
    && EndsLine(file) && (LacksIdentity(env.norm, file, id) || Holds(env.norm, file, id, ToValue(row))) && OldTimeReads(env, file, id)
  }

  /**
    Undisturbed, with ledgers that have no contradicting row, a language with a good tag is finished: the new subtitle is in place,
    each ledger has its row, and the next pass takes the target as delivered, as this file if its row is new.
   */
  lemma UndisturbedFinishIsTrusted(env: Env, w: World, c: Commit, bytes: seq<byte>, ts: string, f: FinishFaults)
    requires |env.sha(bytes)| == 32 && env.norm(env.norm(c.lang)) == env.norm(c.lang) && LanguageTag(c.lang) && Faultless(f)
    requires var (id, registryRow, stateRow) := TargetRows(env, c, env.sha(bytes), ts);
      Receptive(env, w.ledgers.registry, id, registryRow) && Receptive(env, w.ledgers.state, id, stateRow)
    ensures var (after, r) := Finish(env, w, c, bytes, ts, f);
      && r == Success(env.sha(bytes))
      && Lookup(after.sidecars, TargetPath(env, c)) == Some(bytes)
      && KeyOf(env, c) in Verified(env, after)
      && (LacksIdentity(env.norm, w.ledgers.registry, IdOf(env, c, bytes)) ==>
            Verified(env, after)[KeyOf(env, c)] == VerifiedTarget(TargetPath(env, c), env.sha(bytes)))
  {
    hide RowIdentity, AppendIfAbsent, EndsLine, HasRow, LastMatch, RegistryFields, StateFields, Finish, CanonicalSidecar,
         CommitPair, ReadableRows, Verified, OldTimeReads, Holds, LacksIdentity, ToValue, ParseLanguage, Install;
    var digest := env.sha(bytes);
    var (id, registryRow, stateRow) := TargetRows(env, c, digest, ts);
    PathIsCanonical(env, c);
    RowsCarryIdentity(env, c, digest, ts);
    CommitSucceedsExactly(env.norm, w.ledgers, id, registryRow, stateRow, f.ledger);
    FinishSucceedsExactly(env, w, c, bytes, ts, f);
    var after := Finish(env, w, c, bytes, ts, f).0;
    FinishInstalls(env, w, c, bytes, ts, f);
    LackingHasNoRow(env.norm, w.ledgers.registry, id);
    assert after.(sidecars := after.sidecars) == after;
    FinishAdmits(env, w, c, bytes, ts, f, after.sidecars);
  }

  lemma LackingHasNoRow(norm: string -> string, file: File, id: LedgerIdentity)
    ensures LacksIdentity(norm, file, id) ==> !HasRow(norm, file, id)
  {
    hide RowIdentity, ReadableRows;
    if ReadableRows(file).Some? {
      LastMatchExactly(norm, ReadableRows(file).value, id);
    }
  }

  /** Undisturbed, the only file that changes is the target, which has the new bytes; a left-over temporary file goes. */
  lemma FinishInstalls(env: Env, w: World, c: Commit, bytes: seq<byte>, ts: string, f: FinishFaults)
    requires Faultless(f) && CommitWorks(env, w, c, bytes, ts, f)
    ensures Finish(env, w, c, bytes, ts, f).0.sidecars == (w.sidecars - {TargetPath(env, c) + ".direct.tmp"})[TargetPath(env, c) := bytes]
  {
    hide CommitPair, RegistryFields, StateFields, ParseLanguage, Cleanup, Install;
    var target := TargetPath(env, c);
    assert CanonicalSidecar(env, c.stem, c.lang) == target;
    PlacedIsCurrent(env, w.sidecars, target, bytes, Untouched);
    InstallPlaces(env, w.sidecars, target, bytes);
  }

  lemma InstallPlaces(env: Env, s: Sidecars, target: string, bytes: seq<byte>)
    ensures Install(env, s, target, bytes, InstallOk).0 == (s - {target + ".direct.tmp"})[target := bytes]
  {
  }

  /* ---- Undoing an install ---- */

  /**
    Undoing never touches a target that holds other bytes, before or after the meddling in between. Undisturbed, it gives a
    target that still holds the install what it held before, or removes it if there was nothing.
   */
  lemma RollbackExactly(env: Env, s: Sidecars, i: Installed, fault: RollbackFault, during: Meddling)
    requires i.target + ".rollback.tmp" != i.target
    ensures var after := Rollback(env, s, i, fault, during);
      && (!(i.target in s && env.sha(s[i.target]) == i.artifact) ==> after == s)
      && (i.target in s && env.sha(s[i.target]) == i.artifact && !fault.TargetUnreadable? && !fault.RollbackWriteFails?
          && during.Replaced? && env.sha(during.bytes) != i.artifact
          ==> Lookup(after, i.target) == Some(during.bytes))
      && (i.target in s && env.sha(s[i.target]) == i.artifact && fault == RollbackOk && during == Untouched ==>
            Lookup(after, i.target) == i.previous)
      && (fault.TargetUnreadable? ==> after == s)
      && (forall path :: path != i.target && path != i.target + ".rollback.tmp" ==> Lookup(after, path) == Lookup(s, path))
  {
  }

  /** An install that rows already verify with its digest is kept as it is; any other is undone. */
  lemma CleanupExactly(env: Env, w: World, key: TargetKey, i: Installed, fault: RollbackFault, during: Meddling)
    ensures var after := Cleanup(env, w, key, i, fault, during);
      && after.ledgers == w.ledgers
      && after.sidecars == if key in Verified(env, w) && Verified(env, w)[key].artifact == i.artifact then w.sidecars
                           else Rollback(env, w.sidecars, i, fault, during)
  {
    hide Verified, Rollback;
  }
}
