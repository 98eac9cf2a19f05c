/** Run reports and the bounds their constructors enforce. */
module ReportTypes {
  import opened Wrappers
  import opened Sorting

  const MAX_TARGETS_PER_REPORT: nat := 32
  const MAX_PASS_REPORTS: nat := 128
  const MAX_PASS_REPORT_BYTES: nat := 2 * 1024 * 1024
  const MAX_REPORT_BYTES: nat := 16 * 1024

  type Digest = d: seq<byte> | |d| == 32 witness seq(32, _ => 0)

  datatype EpisodeKind = Series | Movie

  datatype ItemFailure = SourceItem | StorageItem | UnknownItem

  datatype WarningClass = UploadWarning | UnknownWarning

  datatype FailureClass =
    | SourceFailure | TranscriptionFailure | TranslationFailure | StorageFailure | UnknownFailure

  datatype TargetStatus =
    | Completed(warning: Option<WarningClass>)
    | Failed(cause: FailureClass)
    | MissingLanguage

  datatype AggregateDisposition = Complete | CompleteWithWarning | Partial | AllFailed

  /** `method` is the display text of the notification-only generation method. */
  datatype Target = Target(
    language: string,
    status: TargetStatus,
    artifact: Option<Digest>,
    generationMethod: Option<string>
  )

  datatype Report = Report(
    kind: EpisodeKind,
    episodeId: i64,
    title: string,
    season: Option<u32>,
    episode: Option<u32>,
    targets: seq<Target>,
    itemFailure: Option<ItemFailure>,
    aggregate: AggregateDisposition,
    commitId: Option<string>
  )

  datatype ReportError =
    | TooManyTargets | InvalidLanguage | InvalidArtifactDigest | InvalidStatusCombination | InvalidTitle | CounterOverflow

  predicate LanguageChar(c: char) {
    'a' <= c <= 'z' || '0' <= c <= '9'
  }

  /** What `TargetLanguage::parse` leaves: 1 to 32 lower-case letters or digits. */
  predicate ValidLanguage(l: string) {
    1 <= |l| <= 32 && forall i :: 0 <= i < |l| ==> LanguageChar(l[i])
  }

  /** `to_ascii_lowercase`. */
  function AsciiLower(s: string): (r: string)
    ensures |r| == |s|
    ensures ValidLanguage(s) ==> r == s
  {
    if s == [] then []
    else [if 'A' <= s[0] <= 'Z' then s[0] - 'A' + 'a' else s[0]] + AsciiLower(s[1..])
  }

  function ParseLanguage(raw: string): (r: Result<string, ReportError>)
    ensures ValidLanguage(raw) ==> r == Success(raw)
    ensures r.Success? ==> ValidLanguage(r.value)
  {
    if ValidLanguage(AsciiLower(raw)) then Success(AsciiLower(raw)) else Failure(InvalidLanguage)
  }

  /** `TargetRunResult::try_new_with_method` accepts a digest exactly for completed targets. */
  predicate ValidTarget(t: Target) {
    ValidLanguage(t.language) && (t.status.Completed? <==> t.artifact.Some?)
  }

  function Severity(status: TargetStatus): nat {
    match status
    case Failed(_) => 0
    case MissingLanguage => 0
    case Completed(Some(_)) => 1
    case Completed(None) => 2
  }

  predicate TargetLe(a: Target, b: Target) {
    KeyLe(Severity(a.status), Codes(a.language), Severity(b.status), Codes(b.language))
  }

  lemma TargetLeIsOrder()
    ensures TotalPreorder(TargetLe)
  {
    forall a: Target, b: Target
      ensures TargetLe(a, b) || TargetLe(b, a)
    {
      SeqLeTotal(Codes(a.language), Codes(b.language));
    }
    forall a: Target, b: Target, c: Target | TargetLe(a, b) && TargetLe(b, c)
      ensures TargetLe(a, c)
    {
      if Severity(a.status) == Severity(b.status) == Severity(c.status) {
        SeqLeTransitive(Codes(a.language), Codes(b.language), Codes(c.language));
      }
    }
  }

  predicate NeighboursDiffer(ts: seq<Target>) {
    forall i :: 0 < i < |ts| ==> ts[i - 1].language != ts[i].language
  }

  /** `BoundedTargets::try_from`. */
  function BoundTargets(values: seq<Target>): Result<seq<Target>, ReportError> {
    if values == [] || |values| > MAX_TARGETS_PER_REPORT then Failure(TooManyTargets)
    else
      var sorted := SortBy(TargetLe, values);
      if NeighboursDiffer(sorted) then Success(sorted) else Failure(InvalidLanguage)
  }

  predicate ValidTargets(ts: seq<Target>) {
    && 1 <= |ts| <= MAX_TARGETS_PER_REPORT && Sorted(TargetLe, ts) && NeighboursDiffer(ts)
    && forall i :: 0 <= i < |ts| ==> ValidTarget(ts[i])
  }

  lemma BoundTargetsIsValid(values: seq<Target>)
    requires forall i :: 0 <= i < |values| ==> ValidTarget(values[i])
    ensures var r := BoundTargets(values);
      r.Success? ==> ValidTargets(r.value) && multiset(r.value) == multiset(values)
  {
    TargetLeIsOrder();
    SortByIsSort(TargetLe, values);
    var sorted := SortBy(TargetLe, values);
    forall i | 0 <= i < |sorted|
      ensures ValidTarget(sorted[i])
    {
      assert sorted[i] in multiset(values);
    }
  }

  lemma BoundTargetsKeepsValid(ts: seq<Target>)
    requires ValidTargets(ts)
    ensures BoundTargets(ts) == Success(ts)
  {
    SortedIsFixed(TargetLe, ts);
  }

  /** In a bounded list no (severity, language) pair occurs twice; a language may, at two severities. */
  lemma SeverityLanguageUnique(ts: seq<Target>, i: nat, j: nat)
    requires ValidTargets(ts) && i < j < |ts|
    ensures Severity(ts[i].status) != Severity(ts[j].status) || ts[i].language != ts[j].language
  {
    assert TargetLe(ts[i], ts[i + 1]) && ts[i].language != ts[i + 1].language;
    if i + 1 < j {
      assert TargetLe(ts[i + 1], ts[j]);
      SeqLeTotal(Codes(ts[i].language), Codes(ts[i + 1].language));
      if Codes(ts[i].language) == Codes(ts[i + 1].language) {
        CodesInjective(ts[i].language, ts[i + 1].language);
      }
    }
  }

  function CompletedCount(ts: seq<Target>): (n: nat)
    ensures n <= |ts|
  {
    if ts == [] then 0 else (if ts[0].status.Completed? then 1 else 0) + CompletedCount(ts[1..])
  }

  predicate AnyWarning(ts: seq<Target>) {
    exists i :: 0 <= i < |ts| && ts[i].status.Completed? && ts[i].status.warning.Some?
  }

  /** The disposition the targets and the item failure call for. */
  function ExpectedAggregate(ts: seq<Target>, item: Option<ItemFailure>): AggregateDisposition {
    var completed := CompletedCount(ts);
    if completed == |ts| && item.None? then
      if AnyWarning(ts) then CompleteWithWarning else Complete
    else if completed > 0 then Partial
    else AllFailed
  }

  /** Two reports with the same content; notification-only fields are not content. */
  function Content(r: Report): Report {
    r.(targets := StripMethods(r.targets), commitId := None)
  }

  function StripMethods(ts: seq<Target>): (r: seq<Target>)
    ensures |r| == |ts|
    ensures forall i :: 0 <= i < |ts| ==> r[i] == ts[i].(generationMethod := None)
  {
    if ts == [] then [] else [ts[0].(generationMethod := None)] + StripMethods(ts[1..])
  }

  lemma {:induction false} StripKeepsAggregate(ts: seq<Target>, item: Option<ItemFailure>)
    ensures CompletedCount(StripMethods(ts)) == CompletedCount(ts)
    ensures ExpectedAggregate(StripMethods(ts), item) == ExpectedAggregate(ts, item)
  {
    if ts != [] {
      StripKeepsAggregate(ts[1..], item);
      assert StripMethods(ts)[1..] == StripMethods(ts[1..]);
    }
    var s := StripMethods(ts);
    assert forall i :: 0 <= i < |ts| ==> s[i].status == ts[i].status;
  }
}
