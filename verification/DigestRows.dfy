/** One line of the notification digest per report. */
module DigestRows {
  import opened Wrappers
  import opened Decimal
  import opened Sorting
  import opened ReportTypes

  const MAX_ROW_SCALARS: nat := 160
  const MAX_TITLE_SCALARS: nat := 120
  const MAX_TARGET_ENTRIES: nat := 6
  const TRUNCATED: string := "\U{2026}[truncated]"

  datatype RenderError = TooLarge | CannotFit

  datatype Row = Row(text: string, severity: nat, attention: bool)

  function RowToken(status: TargetStatus): string {
    match status
    case Completed(None) => "ok"
    case Completed(Some(UploadWarning)) => "warn-upload"
    case Completed(Some(UnknownWarning)) => "warn-unknown"
    case Failed(SourceFailure) => "fail-source"
    case Failed(TranscriptionFailure) => "fail-transcription"
    case Failed(TranslationFailure) => "fail-translation"
    case Failed(StorageFailure) => "fail-storage"
    case Failed(UnknownFailure) => "fail-unknown"
    case MissingLanguage => "fail-language"
  }

  function ItemEntry(item: ItemFailure): string {
    match item
    case SourceItem => "item:source"
    case StorageItem => "item:storage"
    case UnknownItem => "item:unknown"
  }

  function KindName(kind: EpisodeKind): string {
    if kind.Series? then "series" else "movie"
  }

  /** `{n:02}`, or a question mark. */
  function Numbered(n: Option<u32>): string {
    match n
    case None => "?"
    case Some(v) => if v < 10 then "0" + Digits(v) else Digits(v)
  }

  function Metadata(r: Report): string {
    if r.kind.Movie? then "movie" else "S" + Numbered(r.season) + "E" + Numbered(r.episode)
  }

  /** Text cut to `capacity` scalars, ending in the marker when something was cut. */
  function TruncateTitle(title: string, capacity: nat): (r: string)
    ensures |r| == Min(|title|, capacity)
    ensures |title| <= capacity ==> r == title
    ensures |TRUNCATED| < capacity < |title| ==> r == title[..capacity - |TRUNCATED|] + TRUNCATED
  {
    if |title| <= capacity then title
    else if capacity <= |TRUNCATED| then TRUNCATED[..capacity]
    else title[..capacity - |TRUNCATED|] + TRUNCATED
  }

  /** `join`. */
  function Join(separator: string, parts: seq<string>): string {
    if parts == [] then ""
    else if |parts| == 1 then parts[0]
    else parts[0] + separator + Join(separator, parts[1..])
  }

  /** `replace`: occurrences from the left, not overlapping. */
  function Replace(s: string, from: string, to: string): string
    requires from != ""
    decreases |s|
  {
    if |s| < |from| then s
    else if s[..|from|] == from then to + Replace(s[|from|..], from, to)
    else [s[0]] + Replace(s[1..], from, to)
  }

  function FormattedRow(kind: string, title: string, meta: string, entries: seq<string>): (r: string)
    ensures |r| == |title| + |kind| + |meta| + |Join(" | ", entries)| + 9
    ensures |r| > 2 && r[..2] == "**"
  {
    "**" + kind + " " + title + " " + meta + "** - " + Join(" | ", entries)
  }

  function TargetEntry(t: Target): string {
    t.language + ":" + RowToken(t.status)
    + match t.generationMethod
      case None => ""
      case Some(m) => " | " + Replace(Replace(m, " \U{00B7} ", " | "), " \U{2192} ", " -> ")
  }

  function TargetEntries(ts: seq<Target>): (r: seq<string>)
    ensures |r| == |ts|
  {
    if ts == [] then [] else [TargetEntry(ts[0])] + TargetEntries(ts[1..])
  }

  function OmittedTargets(ts: seq<Target>): nat {
    if |ts| > MAX_TARGET_ENTRIES then |ts| - MAX_TARGET_ENTRIES else 0
  }

  /** The most severe targets, then a count of the rest. */
  function TargetRows(ts: seq<Target>): seq<string> {
    var sorted := SortBy(TargetLe, ts);
    var omitted := OmittedTargets(ts);
    TargetEntries(if |sorted| > MAX_TARGET_ENTRIES then sorted[..MAX_TARGET_ENTRIES] else sorted)
    + if omitted > 0 then ["+" + Digits(omitted) + " more targets"] else []
  }

  function Entries(r: Report): seq<string> {
    (if r.itemFailure.Some? then [ItemEntry(r.itemFailure.value)] else []) + TargetRows(r.targets)
  }

  /** Least severity number, two when there are no targets. */
  function WorstSeverity(ts: seq<Target>): (n: nat)
    ensures n <= 2
    ensures forall i :: 0 <= i < |ts| ==> n <= Severity(ts[i].status)
    ensures n < 2 ==> exists i :: 0 <= i < |ts| && n == Severity(ts[i].status)
  {
    if ts == [] then 2
    else
      var rest := WorstSeverity(ts[1..]);
      assert forall i :: 0 < i < |ts| ==> ts[i] == ts[1..][i - 1];
      Min(Severity(ts[0].status), rest)
  }

  function ShownTitle(r: Report): string {
    if r.title == "" then "Untitled" else r.title
  }

  function TextWith(r: Report, title: string): string {
    FormattedRow(KindName(r.kind), title, Metadata(r), Entries(r))
  }

  /** Scalars of the row that are not title. */
  function Overhead(r: Report): nat {
    |TextWith(r, "")|
  }

  predicate AnyUnclean(ts: seq<Target>) {
    exists i :: 0 <= i < |ts| && Severity(ts[i].status) < 2
  }

  function MakeRow(r: Report): Result<Row, RenderError> {
    if Entries(r) == [] then Failure(CannotFit)
    else
      var title := ShownTitle(r);
      var text := TextWith(r, title);
      var worst := if r.itemFailure.Some? then 0 else WorstSeverity(r.targets);
      var unclean := r.itemFailure.Some? || AnyUnclean(r.targets);
      if |text| <= MAX_ROW_SCALARS then Success(Row(text, worst, unclean))
      else
        var budget := Max(MAX_ROW_SCALARS - (|TextWith(r, "")| + 1), 0);
        if budget == 0 then Failure(CannotFit)
        else
          var short := TextWith(r, TruncateTitle(title, Min(budget, MAX_TITLE_SCALARS)));
          if |short| > MAX_ROW_SCALARS then Failure(CannotFit)
          else
            var omitted := OmittedTargets(r.targets) > 0;
            Success(Row(short, if omitted then 0 else worst, omitted || unclean))
  }

  /* ---- When a report has a row ---- */

  predicate RowFits(r: Report) {
    |ShownTitle(r)| + Overhead(r) <= MAX_ROW_SCALARS || Overhead(r) <= MAX_ROW_SCALARS - 2
  }

  lemma TextWithLength(r: Report, title: string)
    ensures |TextWith(r, title)| == |title| + Overhead(r)
  {
  }

  predicate GoodRow(row: Row) {
    2 < |row.text| <= MAX_ROW_SCALARS && row.text[..2] == "**" && (row.attention <==> row.severity < 2)
  }

  /** A report has a row exactly when its title fits whole or the rest leaves a title at least one scalar. */
  lemma MakeRowExactly(r: Report)
    requires r.targets != []
    ensures MakeRow(r).Success? <==> RowFits(r)
    ensures MakeRow(r).Failure? ==> MakeRow(r).error == CannotFit
    ensures MakeRow(r).Success? ==> GoodRow(MakeRow(r).value)
  {
    hide FormattedRow, Metadata, KindName;
    EntriesPresent(r);
    TextWithLength(r, ShownTitle(r));
    var budget := Max(MAX_ROW_SCALARS - (Overhead(r) + 1), 0);
    TextWithLength(r, TruncateTitle(ShownTitle(r), Min(budget, MAX_TITLE_SCALARS)));
  }

  lemma EntriesPresent(r: Report)
    requires r.targets != []
    ensures Entries(r) != []
  {
    TargetLeIsOrder();
    SortByIsSort(TargetLe, r.targets);
  }

  /** What a row says about a report with a fitting title: an item failure, else its worst target. */
  function PlainSeverity(r: Report): (n: nat)
    ensures n <= 2
  {
    if r.itemFailure.Some? then 0 else WorstSeverity(r.targets)
  }

  predicate TitleFits(r: Report) {
    |ShownTitle(r)| + Overhead(r) <= MAX_ROW_SCALARS
  }

  /**
    The severity of a row is that of the report, except that a report with more than six
    targets whose title has to be cut counts as failed. So a longer title alone can turn a
    clean report into one that needs attention.
   */
  lemma RowSeverity(r: Report)
    requires MakeRow(r).Success?
    ensures MakeRow(r).value.severity == if OmittedTargets(r.targets) > 0 && !TitleFits(r) then 0 else PlainSeverity(r)
    ensures TitleFits(r) ==> MakeRow(r).value.text == TextWith(r, ShownTitle(r))
    ensures !TitleFits(r) ==>
      var budget := Min(MAX_ROW_SCALARS - 1 - Overhead(r), MAX_TITLE_SCALARS);
      MakeRow(r).value.text == TextWith(r, TruncateTitle(ShownTitle(r), budget))
  {
    hide FormattedRow, Metadata, KindName, Entries;
    TextWithLength(r, ShownTitle(r));
  }

  lemma {:induction false} TargetEntriesAt(ts: seq<Target>, i: nat)
    requires i < |ts|
    ensures TargetEntries(ts)[i] == TargetEntry(ts[i])
  {
    if i > 0 {
      TargetEntriesAt(ts[1..], i - 1);
    }
  }

  /** The targets a row names are the first six, and none it leaves out is more severe. */
  lemma ShownAreWorst(ts: seq<Target>, shown: nat, left: nat)
    requires ValidTargets(ts) && shown < Min(|ts|, MAX_TARGET_ENTRIES)
    ensures |TargetRows(ts)| == if |ts| > MAX_TARGET_ENTRIES then MAX_TARGET_ENTRIES + 1 else |ts|
    ensures TargetRows(ts)[shown] == TargetEntry(ts[shown])
    ensures MAX_TARGET_ENTRIES <= left < |ts| ==> Severity(ts[shown].status) <= Severity(ts[left].status)
    ensures |ts| > MAX_TARGET_ENTRIES ==>
      TargetRows(ts)[MAX_TARGET_ENTRIES..] == ["+" + Digits(|ts| - MAX_TARGET_ENTRIES) + " more targets"]
  {
    SortedIsFixed(TargetLe, ts);
    var named := if |ts| > MAX_TARGET_ENTRIES then ts[..MAX_TARGET_ENTRIES] else ts;
    TargetEntriesAt(named, shown);
    if MAX_TARGET_ENTRIES <= left < |ts| {
      assert TargetLe(ts[shown], ts[left]);
    }
  }
}
