/** The stored texts, letter by letter: what a reader of the files finds. */
module Formats {
  import opened Wrappers
  import opened Decimal
  import opened Json
  import opened ReportTypes
  import opened ReportCodec
  import opened StateSchema
  import opened StateCodec
  import Utf8

  /* ---- Strings ---- */

  /** A control as four small hexadecimal digits. */
  function Control(n: int): string
    requires 0 <= n < 0x20
  {
    if n < 0x10 then "\\u000" + ["0123456789abcdef"[n]] else "\\u001" + ["0123456789abcdef"[n - 0x10]]
  }

  lemma ControlExactly(n: int)
    requires 0 <= n < 0x20
    ensures Escape4(n) == Control(n)
  {
    assert n / 4096 == 0 && n / 256 % 16 == 0 && n / 16 % 16 == n / 16;
    assert HexChar(0) == '0' && HexChar(1) == '1';
  }

  lemma SeparatorsExactly()
    ensures Escape4(0x2028) == "\\u2028" && Escape4(0x2029) == "\\u2029"
  {
    hide HexChar;
    DigitsOf(2);
    DigitsOf(0);
    DigitsOf(8);
    DigitsOf(9);
    var a, b := 0x2028, 0x2029;
    assert a / 4096 == 2 && a / 256 % 16 == 0 && a / 16 % 16 == 2 && a % 16 == 8;
    assert b / 4096 == 2 && b / 256 % 16 == 0 && b / 16 % 16 == 2 && b % 16 == 9;
  }

  lemma DigitsOf(d: int)
    requires 0 <= d < 10
    ensures HexChar(d) == '0' + d as char
  {
  }

  /** The hand-written writer escapes quotes, backslashes, controls and the two separators. */
  lemma CanonicalEscapes(c: char)
    ensures EscapeChar(Canonical, c) ==
      if c == '"' then "\\\"" else if c == '\\' then "\\\\"
      else if c as int == 0x2028 then "\\u2028" else if c as int == 0x2029 then "\\u2029"
      else if c as int < 0x20 then Control(c as int) else [c]
  {
    hide Escape4, Control;
    SeparatorsExactly();
    if c as int < 0x20 {
      ControlExactly(c as int);
    }
  }

  /** The library's writer has short escapes for five controls and leaves the separators alone. */
  lemma SerdeEscapes(c: char)
    ensures EscapeChar(Serde, c) ==
      if c == '"' then "\\\"" else if c == '\\' then "\\\\"
      else if c as int == 8 then "\\b" else if c as int == 9 then "\\t" else if c as int == 10 then "\\n"
      else if c as int == 12 then "\\f" else if c as int == 13 then "\\r"
      else if c as int < 0x20 then Control(c as int) else [c]
  {
    hide Escape4, Control;
    if c as int < 0x20 {
      ControlExactly(c as int);
    }
  }

  /* ---- Words ---- */

  /** The words for kinds, outcomes, item failures and dispositions. */
  lemma WordsAre()
    ensures KindToken(Series) == "series" && KindToken(Movie) == "movie"
    ensures StatusToken(Completed(None)) == "ok" && StatusToken(MissingLanguage) == "fail-language"
    ensures StatusToken(Completed(Some(UploadWarning))) == "warn-upload" && StatusToken(Completed(Some(UnknownWarning))) == "warn-unknown"
    ensures StatusToken(Failed(SourceFailure)) == "fail-source" && StatusToken(Failed(TranscriptionFailure)) == "fail-transcription"
    ensures StatusToken(Failed(TranslationFailure)) == "fail-translation" && StatusToken(Failed(StorageFailure)) == "fail-storage"
    ensures StatusToken(Failed(UnknownFailure)) == "fail-unknown"
    ensures ItemToken(SourceItem) == "source" && ItemToken(StorageItem) == "storage" && ItemToken(UnknownItem) == "unknown"
    ensures AggregateToken(Complete) == "complete" && AggregateToken(CompleteWithWarning) == "complete-with-warning"
    ensures AggregateToken(Partial) == "partial" && AggregateToken(AllFailed) == "failed"
  {
  }

  /** A commit id is a fixed beginning and the small hexadecimal digits of the hash of the tagged bytes of its report. */
  lemma CommitIdReads(env: Env, r: Report)
    requires Identified(env, r)
    ensures r.commitId == Some("asrsub-pipeline-v1-" + Hex(env.sha(Utf8.Encode("asrsub-pipeline-v1\0") + Encoded(r))))
    ensures |r.commitId.value| == 83 && LowerHex(r.commitId.value[19..])
  {
    hide Encoded, Utf8.Encode, Constructed, Hex;
    var digits := Hex(env.sha(Utf8.Encode("asrsub-pipeline-v1\0") + Encoded(r)));
    HexIsLower(env.sha(Utf8.Encode("asrsub-pipeline-v1\0") + Encoded(r)));
    assert |"asrsub-pipeline-v1-"| == 19 && r.commitId.value[19..] == digits;
  }

  /* ---- Members ---- */

  function Keys(fields: seq<Field>): (r: seq<string>)
    ensures |r| == |fields| && forall i :: 0 <= i < |r| ==> r[i] == fields[i].key
  {
    seq(|fields|, i requires 0 <= i < |fields| => fields[i].key)
  }

  /** The members of the stored objects, in the order they are written, which is the order the bytes and the hashes depend on. */
  lemma MembersInOrder(r: Report, t: Target, d: LaneData, v: Reservation)
    ensures Keys(ReportFields(r)) == ["schema", "kind", "episode_id", "title", "season", "episode", "targets", "item_failure", "aggregate"]
    ensures Keys(TargetFields(t)) == ["language", "status", "artifact_sha256"]
    ensures Keys(StateFields(d)) == ["schema", "state_generation", "disabled", "last_attempt_epoch_ns", "next_attempt_epoch_ns",
                                     "backoff_seconds", "reports", "blocked", "reservation"]
    ensures Keys(ReservationFields(v)) == ["id", "payload", "captured", "attempt_started_epoch_ns", "attempt_started_monotonic_ns",
                                           "reserved_next_attempt_epoch_ns"]
  {
  }
}
