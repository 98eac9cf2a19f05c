/** Exactly when a commit to the two ledgers succeeds, what it answers otherwise, and what it writes, said of the rows themselves. */
module LedgerOutcomes {
  import opened Wrappers
  import opened Json
  import opened LedgerText
  import opened LedgerCommit
  import opened LedgerTheorems

  /* ---- Rows ---- */

  /** The two objects have the same members with the same values, but for the member `ts`. */
  ghost predicate SameButTime(a: Value, b: Value) {
    a.VObj? && b.VObj? && forall key :: key != "ts" ==> a.Get(key) == b.Get(key)
  }

  lemma SameRowExactly(a: Value, b: Value)
    requires a.VObj? && b.VObj?
    ensures SameRow(a, b) <==> SameButTime(a, b)
  {
    var x, y := a.fields - {"ts"}, b.fields - {"ts"};
    if SameRow(a, b) {
      forall key | key != "ts"
        ensures a.Get(key) == b.Get(key)
      {
        assert key in a.fields <==> key in x;
        assert key in b.fields <==> key in y;
      }
    }
    if SameButTime(a, b) {
      forall key
        ensures key in x <==> key in y
        ensures key in x ==> x[key] == y[key]
      {
        assert key != "ts" ==> a.Get(key) == b.Get(key);
      }
      assert x == y;
    }
  }

  /**
    What a row has to say to be of an identity: an episode number under either of two names, a digest of 64
    hexadecimal digits, a kind or none for a series, and a language under either of two names, whose
    normal form counts, or none.
   */
  predicate SaysIdentity(norm: string -> string, v: Value, id: LedgerIdentity) {
    && v.VObj?
    && (if "episode_id" in v.fields then v.fields["episode_id"] == VNum(id.episodeId)
        else "sonarrEpisodeId" in v.fields && v.fields["sonarrEpisodeId"] == VNum(id.episodeId))
    && -0x8000_0000_0000_0000 <= id.episodeId < 0x8000_0000_0000_0000
    && (var kind := v.Get("kind"); id.kind == if kind.Some? && kind.value.VStr? then kind.value.s else "series")
    && (var l := if "language" in v.fields then Some(v.fields["language"]) else v.Get("lang");
        id.language == if l.Some? && l.value.VStr? then norm(l.value.s) else "")
    && (var d := v.Get("artifact_sha256"); d.Some? && d.value.VStr? && |d.value.s| == 64 && ParseDigest(d.value.s) == Some(id.artifact))
  }

  lemma IdentityExactly(norm: string -> string, v: Value, id: LedgerIdentity)
    ensures RowIdentity(norm, v) == Some(id) <==> SaysIdentity(norm, v, id)
  {
    hide ParseDigest;
    DigestLength();
  }

  lemma DigestLength()
    ensures forall s :: ParseDigest(s).Some? ==> |s| == 64
  {
  }

  /** Row `i` is the last one of the identity. */
  predicate LastOf(norm: string -> string, rows: seq<Value>, id: LedgerIdentity, i: nat) {
    && i < |rows| && RowIdentity(norm, rows[i]) == Some(id)
    && forall j :: i < j < |rows| ==> RowIdentity(norm, rows[j]) != Some(id)
  }

  lemma {:induction false} LastMatchExactly(norm: string -> string, rows: seq<Value>, id: LedgerIdentity)
    ensures LastMatch(norm, rows, id) == None <==> forall i :: 0 <= i < |rows| ==> RowIdentity(norm, rows[i]) != Some(id)
    ensures forall i :: 0 <= i < |rows| && LastOf(norm, rows, id, i) ==> LastMatch(norm, rows, id) == Some(rows[i])
    ensures LastMatch(norm, rows, id).Some? ==> exists i :: 0 <= i < |rows| && LastOf(norm, rows, id, i)
    decreases |rows|
  {
    hide RowIdentity;
    if rows != [] {
      var n := |rows| - 1;
      LastMatchExactly(norm, rows[..n], id);
      if RowIdentity(norm, rows[n]) == Some(id) {
        assert LastOf(norm, rows, id, n);
      } else {
        assert forall i :: 0 <= i < n ==> (LastOf(norm, rows, id, i) <==> LastOf(norm, rows[..n], id, i));
      }
    }
  }

  /* ---- One ledger ---- */

  /** The ledger already holds the row, but for its time: it is what the last row of the identity says. */
  ghost predicate Holds(norm: string -> string, file: File, id: LedgerIdentity, row: Value) {
    && ReadableRows(file).Some?
    && exists i :: 0 <= i < |ReadableRows(file).value| && LastOf(norm, ReadableRows(file).value, id, i)
                   && SameButTime(ReadableRows(file).value[i], row)
  }

  /** No row of the ledger is of the identity. */
  predicate LacksIdentity(norm: string -> string, file: File, id: LedgerIdentity) {
    && ReadableRows(file).Some?
    && forall i :: 0 <= i < |ReadableRows(file).value| ==> RowIdentity(norm, ReadableRows(file).value[i]) != Some(id)
  }

  /** An append of a row goes through exactly when it is held already, or no row is of its identity and the write works. */
  lemma AppendExactly(norm: string -> string, file: File, id: LedgerIdentity, row: Json, fault: AppendFault)
    requires RowIdentity(norm, ToValue(row)) == Some(id)
    ensures var (after, error) := AppendIfAbsent(norm, file, id, row, fault);
      && (error == None <==> Holds(norm, file, id, ToValue(row)) || (LacksIdentity(norm, file, id) && fault == AppendOk))
      && (Holds(norm, file, id, ToValue(row)) ==> after == file)
      && (LacksIdentity(norm, file, id) && fault == AppendOk ==> after == Present(Content(file) + RowLine(row)))
      && (LacksIdentity(norm, file, id) && fault != AppendOk ==> error == Some(Io))
      && (ReadableRows(file).Some? && !Holds(norm, file, id, ToValue(row)) && !LacksIdentity(norm, file, id) ==>
            error == Some(Contradiction) && after == file)
      && (ReadableRows(file) == None ==> error in {Some(Io), Some(Storage)} && after == file)
  {
    hide RowIdentity, Rows, RowLine, LastMatch, ToValue;
    NoRowOfMissing(norm, id);
    UnreadableErrors(norm, file, id);
    if ReadableRows(file).Some? {
      var rows := ReadableRows(file).value;
      LastMatchExactly(norm, rows, id);
      ExistingIsMatch(norm, file, id);
      if LastMatch(norm, rows, id).Some? {
        var i :| 0 <= i < |rows| && LastOf(norm, rows, id, i);
        OnlyLast(norm, rows, id, i);
        ObjectOfIdentity(norm, rows[i], id);
        ObjectOfIdentity(norm, ToValue(row), id);
        SameRowExactly(rows[i], ToValue(row));
        assert !LacksIdentity(norm, file, id);
        assert Holds(norm, file, id, ToValue(row)) <==> SameButTime(rows[i], ToValue(row));
      }
    }
  }

  lemma NoRowOfMissing(norm: string -> string, id: LedgerIdentity)
    ensures LastMatch(norm, [], id) == None
  {
  }

  lemma ExistingIsMatch(norm: string -> string, file: File, id: LedgerIdentity)
    requires ReadableRows(file).Some?
    ensures Existing(norm, file, id) == Success(LastMatch(norm, ReadableRows(file).value, id))
  {
    hide Rows, RowIdentity;
  }

  lemma UnreadableErrors(norm: string -> string, file: File, id: LedgerIdentity)
    ensures ReadableRows(file).None? ==> Existing(norm, file, id).Failure? && Existing(norm, file, id).error in {Io, Storage}
  {
    hide Lines, RowIdentity;
    if file.Present? && Rows(file.bytes).Failure? {
      LineErrors(Lines(file.bytes));
    }
  }

  lemma {:induction false} LineErrors(lines: seq<seq<byte>>)
    ensures ParseLines(lines).Failure? ==> ParseLines(lines).error in {Io, Storage}
  {
    if lines != [] {
      LineErrors(lines[1..]);
    }
  }

  lemma OnlyLast(norm: string -> string, rows: seq<Value>, id: LedgerIdentity, i: nat)
    requires LastOf(norm, rows, id, i)
    ensures forall j :: 0 <= j < |rows| && LastOf(norm, rows, id, j) ==> j == i
  {
  }

  lemma ObjectOfIdentity(norm: string -> string, v: Value, id: LedgerIdentity)
    requires RowIdentity(norm, v) == Some(id)
    ensures v.VObj?
  {
  }

  /* ---- Both ledgers ---- */

  /** The ledger takes the row, writing it or not. */
  ghost predicate Takes(norm: string -> string, file: File, id: LedgerIdentity, row: Json, fault: AppendFault) {
    Holds(norm, file, id, ToValue(row)) || (LacksIdentity(norm, file, id) && fault == AppendOk)
  }

  /** The ledger has a row of the identity, and the last one says something else. */
  ghost predicate Contradicts(norm: string -> string, file: File, id: LedgerIdentity, row: Json) {
    ReadableRows(file).Some? && !Holds(norm, file, id, ToValue(row)) && !LacksIdentity(norm, file, id)
  }

  /**
    A commit succeeds exactly when both rows are of the identity, the locks and snapshots work, and each ledger takes its row.
    It then has added each row to the ledger that had none of its identity, and nothing else.
   */
  lemma CommitSucceedsExactly(norm: string -> string, files: Files, id: LedgerIdentity, registryRow: Json, stateRow: Json, faults: Faults)
    ensures var (after, error) := CommitPair(norm, files, id, registryRow, stateRow, faults);
      && (error == None <==>
            && RowIdentity(norm, ToValue(registryRow)) == Some(id) && RowIdentity(norm, ToValue(stateRow)) == Some(id)
            && !faults.locksFail && !faults.snapshotFails
            && Takes(norm, files.registry, id, registryRow, faults.registryAppend)
            && Takes(norm, files.state, id, stateRow, faults.stateAppend))
      && (error == None ==>
            && after.registry == (if LacksIdentity(norm, files.registry, id) then Present(Content(files.registry) + RowLine(registryRow)) else files.registry)
            && after.state == if LacksIdentity(norm, files.state, id) then Present(Content(files.state) + RowLine(stateRow)) else files.state)
  {
    hide RowIdentity, AppendIfAbsent, RowLine, ToValue, ReadableRows, SameButTime;
    if RowIdentity(norm, ToValue(registryRow)) == Some(id) && RowIdentity(norm, ToValue(stateRow)) == Some(id) {
      AppendExactly(norm, files.registry, id, registryRow, faults.registryAppend);
      AppendExactly(norm, files.state, id, stateRow, faults.stateAppend);
      HeldIsNotLacking(norm, files.registry, id, ToValue(registryRow));
      HeldIsNotLacking(norm, files.state, id, ToValue(stateRow));
    }
  }

  lemma HeldIsNotLacking(norm: string -> string, file: File, id: LedgerIdentity, row: Value)
    ensures !(Holds(norm, file, id, row) && LacksIdentity(norm, file, id))
  {
    hide RowIdentity, ReadableRows, SameButTime;
  }

  /** Which error a failing commit answers when its restores work. */
  lemma CommitError(norm: string -> string, files: Files, id: LedgerIdentity, registryRow: Json, stateRow: Json, faults: Faults)
    requires faults.registryRestore.RestoreOk? && faults.stateRestore.RestoreOk?
    ensures var error := CommitPair(norm, files, id, registryRow, stateRow, faults).1;
      var ours := RowIdentity(norm, ToValue(registryRow)) == Some(id) && RowIdentity(norm, ToValue(stateRow)) == Some(id);
      && (error == Some(InvalidInput) <==> !ours)
      && (ours && (faults.locksFail || faults.snapshotFails) ==> error == Some(Io))
      && (error == Some(Contradiction) ==>
            Contradicts(norm, files.registry, id, registryRow) || Contradicts(norm, files.state, id, stateRow))
      && (ours && !faults.locksFail && !faults.snapshotFails && Contradicts(norm, files.registry, id, registryRow) ==>
            error == Some(Contradiction))
      && (ours && !faults.locksFail && !faults.snapshotFails && Takes(norm, files.registry, id, registryRow, faults.registryAppend)
          && Contradicts(norm, files.state, id, stateRow)
          ==> error == Some(Contradiction))
  {
    hide RowIdentity, AppendIfAbsent, RowLine, ToValue, ReadableRows, SameButTime, Holds, LacksIdentity;
    if RowIdentity(norm, ToValue(registryRow)) == Some(id) && RowIdentity(norm, ToValue(stateRow)) == Some(id) {
      AppendExactly(norm, files.registry, id, registryRow, faults.registryAppend);
      AppendExactly(norm, files.state, id, stateRow, faults.stateAppend);
    }
  }

  /** If a restore after a failed append does not work, the answer is an input or output error whatever failed before. */
  lemma FailedRestoreIsTold(norm: string -> string, files: Files, id: LedgerIdentity, registryRow: Json, stateRow: Json, faults: Faults)
    requires RowIdentity(norm, ToValue(registryRow)) == Some(id) && RowIdentity(norm, ToValue(stateRow)) == Some(id)
    requires CommitPair(norm, files, id, registryRow, stateRow, faults).1 != None && !faults.locksFail && !faults.snapshotFails
    requires (faults.registryRestore.RestoreFails? && !files.registry.Other?) || (faults.stateRestore.RestoreFails? && !files.state.Other?)
    ensures CommitPair(norm, files, id, registryRow, stateRow, faults).1 == Some(Io)
  {
    hide RowIdentity, AppendIfAbsent, ToValue;
  }

  /**
    Committing again with rows that differ from the committed ones only in `ts` succeeds and writes nothing; with any other
    difference in either row it is a contradiction.
   */
  lemma RepeatExactly(norm: string -> string, files: Files, id: LedgerIdentity, registryRow: Json, stateRow: Json, faults: Faults,
                      registryAgain: Json, stateAgain: Json, again: Faults)
    requires CommitPair(norm, files, id, registryRow, stateRow, faults).1 == None
    requires HasRow(norm, files.registry, id) || EndsLine(files.registry)
    requires HasRow(norm, files.state, id) || EndsLine(files.state)
    requires RowIdentity(norm, ToValue(registryAgain)) == Some(id) && RowIdentity(norm, ToValue(stateAgain)) == Some(id)
    requires !again.locksFail && !again.snapshotFails && RestoresWork(again)
    ensures var after := CommitPair(norm, files, id, registryRow, stateRow, faults).0;
      CommitPair(norm, after, id, registryAgain, stateAgain, again) ==
        (after, if SameButTime(ToValue(registryAgain), ToValue(registryRow)) && SameButTime(ToValue(stateAgain), ToValue(stateRow))
                then None else Some(Contradiction))
  {
    hide RowIdentity, AppendIfAbsent, HasRow, EndsLine, ReadableRows, LastMatch, ToValue, SameButTime, CommitPair, Holds, LacksIdentity, SameRow;
    var after := CommitPair(norm, files, id, registryRow, stateRow, faults).0;
    CommitSucceedsExactly(norm, files, id, registryRow, stateRow, faults);
    SuccessLeavesRows(norm, files, id, registryRow, stateRow, faults, Registry);
    SuccessLeavesRows(norm, files, id, registryRow, stateRow, faults, State);
    HeldExactly(norm, after.registry, id, ToValue(registryRow), ToValue(registryAgain));
    HeldExactly(norm, after.state, id, ToValue(stateRow), ToValue(stateAgain));
    CommitSucceedsExactly(norm, after, id, registryAgain, stateAgain, again);
    CommitError(norm, after, id, registryAgain, stateAgain, again);
    if CommitPair(norm, after, id, registryAgain, stateAgain, again).1.Some? {
      FailureChangesNothing(norm, after, id, registryAgain, stateAgain, again);
    }
  }

  /** A ledger whose last row of the identity is `row`, but for its time, holds exactly what is `row` but for its time. */
  lemma HeldExactly(norm: string -> string, file: File, id: LedgerIdentity, row: Value, again: Value)
    requires HasRow(norm, file, id) && SameRow(LastMatch(norm, ReadableRows(file).value, id).value, row)
    requires RowIdentity(norm, row) == Some(id) && RowIdentity(norm, again) == Some(id)
    ensures ReadableRows(file).Some? && !LacksIdentity(norm, file, id)
    ensures Holds(norm, file, id, again) <==> SameButTime(again, row)
  {
    hide RowIdentity, ReadableRows, LastMatch, SameRow;
    var rows := ReadableRows(file).value;
    LastMatchExactly(norm, rows, id);
    var i :| 0 <= i < |rows| && LastOf(norm, rows, id, i);
    OnlyLast(norm, rows, id, i);
    ObjectOfIdentity(norm, rows[i], id);
    ObjectOfIdentity(norm, row, id);
    SameRowExactly(rows[i], row);
  }
}
