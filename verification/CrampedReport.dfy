/** A clean report of seven languages that turns its digest to attention only because its title is long. */
module CrampedReport {
  import opened Wrappers
  import opened Decimal
  import opened Sorting
  import opened DisplayText
  import opened ReportTypes
  import opened StateSchema
  import opened ReportCodec
  import opened PassReports
  import opened DigestRows
  import opened Digest
  import opened DigestTheorems
  import opened Notifier

  /** "aa" to "ag". */
  function Language(i: nat): string
    requires i < 7
  {
    ['a', 'a' + i as char]
  }

  function CleanTarget(i: nat, digest: ReportTypes.Digest): Target
    requires i < 7
  {
    Target(Language(i), Completed(None), Some(digest), None)
  }

  function CleanTargets(digest: ReportTypes.Digest): seq<Target> {
    seq(7, i requires 0 <= i < 7 => CleanTarget(i, digest))
  }

  /** A film with a title of `n` letters. */
  function Film(n: nat, digest: ReportTypes.Digest): Report {
    Report(Movie, 1, seq(n, _ => 'a'), None, None, CleanTargets(digest), None, Complete, None)
  }

  lemma LanguagesInOrder(i: nat, j: nat)
    requires i < j < 7
    ensures SeqLe(Codes(Language(i)), Codes(Language(j))) && Language(i) != Language(j)
  {
    var a, b := Codes(Language(i)), Codes(Language(j));
    assert a[0] == b[0] && a[1..][0] < b[1..][0];
  }

  lemma {:induction false} AllComplete(ts: seq<Target>)
    requires forall i :: 0 <= i < |ts| ==> ts[i].status == Completed(None)
    ensures CompletedCount(ts) == |ts| && !AnyWarning(ts)
  {
    if ts != [] {
      AllComplete(ts[1..]);
    }
  }

  lemma TargetsAreValid(digest: ReportTypes.Digest)
    ensures ValidTargets(CleanTargets(digest)) && ExpectedAggregate(CleanTargets(digest), None) == Complete
  {
    var ts := CleanTargets(digest);
    forall i, j | 0 <= i < j < |ts|
      ensures TargetLe(ts[i], ts[j]) && ts[i].language != ts[j].language
    {
      LanguagesInOrder(i, j);
    }
    AllComplete(ts);
  }

  /* ---- The title ---- */

  lemma {:induction false} ScanLetters(u: UnicodeTable, n: nat, plain: string)
    ensures ScanFrom(u, seq(n, _ => 'a'), plain, false) == plain + seq(n, _ => 'a')
    decreases n
  {
    if n > 0 {
      var s := seq(n, _ => 'a');
      assert s[1..] == seq(n - 1, _ => 'a') && s == ['a'] + s[1..];
      assert !IsWhitespace(u, 'a') && !IsDropped('a') && IsWord(u, 'a');
      ScanLetters(u, n - 1, plain + ['a']);
    }
  }

  lemma {:induction false} EscapeLetters(n: nat)
    ensures EscapeMarkdown(seq(n, _ => 'a')) == seq(n, _ => 'a')
    decreases n
  {
    if n > 0 {
      var s := seq(n, _ => 'a');
      assert s[1..] == seq(n - 1, _ => 'a') && s == ['a'] + s[1..];
      EscapeLetters(n - 1);
    }
  }

  lemma FilmIsConstructed(env: Env, n: nat, digest: ReportTypes.Digest)
    requires n <= MAX_SAFE_TITLE_SCALARS && env.unicode.nfc(seq(n, _ => 'a')) == seq(n, _ => 'a')
    ensures Constructed(env, Film(n, digest))
  {
    var title := seq(n, _ => 'a');
    ScanLetters(env.unicode, n, []);
    EscapeLetters(n);
    assert [] + title == title;
    assert Sanitized(env.unicode, title) == Success(title);
    TargetsAreValid(digest);
  }

  /* ---- The row ---- */

  lemma CleanEntry(i: nat, digest: ReportTypes.Digest)
    requires i < 7
    ensures |TargetEntry(CleanTarget(i, digest))| == 5
  {
  }

  lemma {:induction false} JoinedLength(parts: seq<string>)
    requires parts != [] && forall i :: 0 <= i < |parts| - 1 ==> |parts[i]| == 5
    ensures |Join(" | ", parts)| == 8 * (|parts| - 1) + |parts[|parts| - 1]|
  {
    if |parts| > 1 {
      JoinedLength(parts[1..]);
    }
  }

  lemma FilmOverhead(n: nat, digest: ReportTypes.Digest)
    ensures Overhead(Film(n, digest)) == 82 && OmittedTargets(Film(n, digest).targets) == 1
  {
    hide TargetEntry;
    var ts := CleanTargets(digest);
    TargetsAreValid(digest);
    SortedIsFixed(TargetLe, ts);
    var shown := ts[..6];
    forall i | 0 <= i < 6
      ensures |TargetEntries(shown)[i]| == 5
    {
      TargetEntriesAt(shown, i);
      CleanEntry(i, digest);
    }
    var parts := Entries(Film(n, digest));
    assert parts == TargetEntries(shown) + ["+" + Digits(1) + " more targets"];
    JoinedLength(parts);
  }

  /**
    Seven languages done and a title of 79 to 512 letters: the report is complete and has a row, yet its
    digest is shown as one that needs attention. One letter less and it is shown as complete.
   */
  lemma LongTitleNeedsAttention(env: Env, n: nat, digest: ReportTypes.Digest)
    requires 1 <= n <= MAX_SAFE_TITLE_SCALARS && env.unicode.nfc(seq(n, _ => 'a')) == seq(n, _ => 'a')
    ensures var r := Film(n, digest);
      var view := CompletedView([r]);
      && Constructed(env, r) && IsComplete(r) && Rendered(view).Success?
      && OutcomeOf(view.overflow, ShownOrder(view)) == if n > 78 then ATTENTION else COMPLETE
  {
    hide Constructed, ShownOrder, OutcomeOf, Rendered, MakeRows;
    var r := Film(n, digest);
    FilmIsConstructed(env, n, digest);
    FilmOverhead(n, digest);
    assert RowFits(r) && (Cramped(r) <==> n > 78);
    MakeRowsExactly([r]);
    RenderExactly(CompletedView([r]));
    CompletedLooksComplete(env, [r]);
    assert [r][0] == r;
  }
}
