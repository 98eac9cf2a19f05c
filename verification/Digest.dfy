/** The notification digest: which rows are kept, and the payload around them. */
module Digest {
  import opened Wrappers
  import opened Decimal
  import opened Sorting
  import opened Json
  import opened JsonWriter
  import opened ReportTypes
  import opened StateSchema
  import opened DigestRows

  const MAX_ROWS: nat := 8
  const MAX_FIELD_VALUE_SCALARS: nat := 900
  const MAX_EMBED_TEXT_SCALARS: nat := 4000

  /** Everything that could be shown: pinned summary lines and the texts of the episode rows. */
  datatype Content = Content(
    attention: seq<string>,
    completed: seq<string>,
    attentionRows: seq<string>,
    completedRows: seq<string>
  )

  function Line(head: string, n: nat, tail: string): string {
    head + Digits(n) + tail
  }

  /** A summary line when its counter is not zero. */
  function LineIf(n: nat, head: string, tail: string): seq<string> {
    if n > 0 then [Line(head, n, tail)] else []
  }

  function AttentionLines(o: OverflowSummary): seq<string> {
    LineIf(o.attentionReports, "**Attention:** at least ", " additional attention reports")
    + LineIf(o.warningReports, "**Warning:** at least ", " additional warning reports")
    + LineIf(o.blockedAdmissions, "**Blocked:** at least ", " committed reports awaiting capacity")
    + LineIf(o.targetOutcomes, "**Targets:** at least ", " additional target outcomes")
    + LineIf(o.preAdmissionDrops, "**State capacity:** at least ", " reports rejected by state capacity")
  }

  function CompletedLines(o: OverflowSummary): seq<string> {
    LineIf(o.completedReports, "**Completed:** at least ", " additional completed reports")
  }

  function AttentionMarker(omitted: nat): seq<string> {
    LineIf(omitted, "_+", " more attention episodes_")
  }

  function CompletedMarker(omitted: nat): seq<string> {
    LineIf(omitted, "_+", " more completed episodes_")
  }

  function ResultLines(attention: seq<string>, attentionRows: seq<string>, completed: seq<string>,
                       completedRows: seq<string>, omittedAttention: nat, omittedCompleted: nat): seq<string> {
    attention + attentionRows + AttentionMarker(omittedAttention)
    + completed + completedRows + CompletedMarker(omittedCompleted)
  }

  /* ---- Packing ---- */

  function Total(d: Content): nat {
    |d.attentionRows| + |d.completedRows|
  }

  /** Attention rows kept when `n` rows are kept in all. */
  function KeptAttention(d: Content, n: nat): nat {
    if n < |d.attentionRows| then n else |d.attentionRows|
  }

  function KeptCompleted(d: Content, n: nat): nat {
    if n < |d.attentionRows| then 0 else n - |d.attentionRows|
  }

  /** The lines shown when the first `n` rows, attention before completed, are kept. */
  function LinesAt(d: Content, n: nat): seq<string>
    requires n <= Total(d)
  {
    ResultLines(d.attention, d.attentionRows[..KeptAttention(d, n)], d.completed, d.completedRows[..KeptCompleted(d, n)],
                |d.attentionRows| - KeptAttention(d, n), |d.completedRows| - KeptCompleted(d, n))
  }

  predicate RowsFit(d: Content, n: nat)
    requires n <= Total(d)
  {
    |LinesAt(d, n)| <= MAX_ROWS
  }

  predicate TextFits(d: Content, n: nat)
    requires n <= Total(d)
  {
    |Join("\n", LinesAt(d, n))| <= MAX_FIELD_VALUE_SCALARS
  }

  /** Greatest number of rows, at most `n`, within the row limit. */
  function LargestRows(d: Content, n: nat): (r: Option<nat>)
    requires n <= Total(d)
    ensures r.Some? ==> r.value <= n && RowsFit(d, r.value) && forall m :: r.value < m <= n ==> !RowsFit(d, m)
    ensures r.None? ==> forall m :: 0 <= m <= n ==> !RowsFit(d, m)
  {
    if RowsFit(d, n) then Some(n) else if n == 0 then None else LargestRows(d, n - 1)
  }

  /** Greatest number of rows, at most `n`, within the text limit. */
  function LargestText(d: Content, n: nat): (r: Option<nat>)
    requires n <= Total(d)
    ensures r.Some? ==> r.value <= n && TextFits(d, r.value) && forall m :: r.value < m <= n ==> !TextFits(d, m)
    ensures r.None? ==> forall m :: 0 <= m <= n ==> !TextFits(d, m)
  {
    if TextFits(d, n) then Some(n) else if n == 0 then None else LargestText(d, n - 1)
  }

  /** How many rows are kept: first the row limit, then, from there down, the text limit. */
  function Packed(d: Content): (r: Result<nat, RenderError>)
    ensures r.Success? ==> r.value <= Total(d)
  {
    if |d.attention| + |d.completed| > MAX_ROWS then Failure(CannotFit)
    else
      match LargestRows(d, Total(d))
      case None => Failure(CannotFit)
      case Some(n) =>
        if LinesAt(d, n) == [] then Failure(CannotFit)
        else LargestText(d, n).OkOr(TooLarge)
  }

  /** The rows still kept when `n` are. */
  ghost predicate Keeps(d: Content, n: nat, attentionRows: seq<string>, completedRows: seq<string>) {
    && n <= Total(d)
    && attentionRows == d.attentionRows[..KeptAttention(d, n)]
    && completedRows == d.completedRows[..KeptCompleted(d, n)]
  }

  /** Drop the last completed row, or when there is none the last attention row. */
  method PopRow(attentionRows: seq<string>, completedRows: seq<string>, ghost d: Content, ghost n: nat)
    returns (attentionLeft: seq<string>, completedLeft: seq<string>)
    requires Keeps(d, n, attentionRows, completedRows) && |attentionRows| + |completedRows| > 0
    ensures n > 0 && Keeps(d, n - 1, attentionLeft, completedLeft)
  {
    attentionLeft, completedLeft := attentionRows, completedRows;
    if completedRows != [] {
      completedLeft := completedRows[..|completedRows| - 1];
    } else {
      attentionLeft := attentionRows[..|attentionRows| - 1];
    }
  }

  /** How many lines there are. */
  lemma LineCount(d: Content, n: nat)
    requires n <= Total(d)
    ensures |LinesAt(d, n)| == |d.attention| + |d.completed| + n
      + (if KeptAttention(d, n) < |d.attentionRows| then 1 else 0) + (if KeptCompleted(d, n) < |d.completedRows| then 1 else 0)
  {
    hide Line;
  }

  /** The first packing loop: drop rows until they and the markers fit the free slots. */
  method FitRows(d: Content, slots: nat) returns (r: Option<(seq<string>, seq<string>)>, ghost n: nat)
    requires |d.attention| + |d.completed| + slots == MAX_ROWS
    ensures r.Some? <==> LargestRows(d, Total(d)).Some?
    ensures r.Some? ==> LargestRows(d, Total(d)) == Some(n) && Keeps(d, n, r.value.0, r.value.1)
  {
    hide LinesAt;
    var attentionRows, completedRows := d.attentionRows, d.completedRows;
    n := Total(d);
    while true
      invariant Keeps(d, n, attentionRows, completedRows)
      invariant LargestRows(d, n) == LargestRows(d, Total(d))
      decreases n
    {
      var markers := (if |d.attentionRows| > |attentionRows| then 1 else 0)
                     + (if |d.completedRows| > |completedRows| then 1 else 0);
      LineCount(d, n);
      if |attentionRows| + |completedRows| + markers <= slots {
        return Some((attentionRows, completedRows)), n;
      }
      if |attentionRows| + |completedRows| == 0 {
        return None, n;
      }
      attentionRows, completedRows := PopRow(attentionRows, completedRows, d, n);
      n := n - 1;
    }
  }

  /** The second packing loop: drop rows until the joined text fits. */
  method FitText(d: Content, attention: seq<string>, completed: seq<string>, ghost top: nat)
    returns (r: Result<seq<string>, RenderError>)
    requires Keeps(d, top, attention, completed)
    ensures r == match LargestText(d, top) case None => Failure(TooLarge) case Some(n) => Success(LinesAt(d, n))
  {
    hide ResultLines, Join;
    var attentionRows, completedRows := attention, completed;
    ghost var n: nat := top;
    var results := LinesOf(d, attentionRows, completedRows);
    while |Join("\n", results)| > MAX_FIELD_VALUE_SCALARS
      invariant n <= top && Keeps(d, n, attentionRows, completedRows)
      invariant results == LinesAt(d, n)
      invariant LargestText(d, n) == LargestText(d, top)
      decreases n
    {
      if |attentionRows| + |completedRows| == 0 {
        return Failure(TooLarge);
      }
      attentionRows, completedRows := PopRow(attentionRows, completedRows, d, n);
      n := n - 1;
      results := LinesOf(d, attentionRows, completedRows);
    }
    r := Success(results);
  }

  /** The lines for the rows at hand. */
  function LinesOf(d: Content, attentionRows: seq<string>, completedRows: seq<string>): seq<string>
    requires |attentionRows| <= |d.attentionRows| && |completedRows| <= |d.completedRows|
  {
    ResultLines(d.attention, attentionRows, d.completed, completedRows,
                |d.attentionRows| - |attentionRows|, |d.completedRows| - |completedRows|)
  }

  /** The packing part of `render`. */
  method Pack(d: Content) returns (r: Result<seq<string>, RenderError>)
    ensures r == match Packed(d) case Failure(e) => Failure(e) case Success(n) => Success(LinesAt(d, n))
  {
    hide ResultLines, Join, LargestRows, LargestText;
    var mandatory := |d.attention| + |d.completed|;
    if mandatory > MAX_ROWS {
      return Failure(CannotFit);
    }
    var rows, n := FitRows(d, MAX_ROWS - mandatory);
    if rows.None? {
      return Failure(CannotFit);
    }
    var (attentionRows, completedRows) := rows.value;
    if LinesOf(d, attentionRows, completedRows) == [] {
      return Failure(CannotFit);
    }
    r := FitText(d, attentionRows, completedRows, n);
  }

  /* ---- The digest ---- */

  datatype Outcome = Outcome(username: string, avatarUrl: string, color: nat)

  const ATTENTION: Outcome := Outcome("ASRSub \U{00B7} Attention", "https://emojiapi.dev/api/v1/274c/128.png", 0xED4245)
  const PARTIAL: Outcome := Outcome("ASRSub \U{00B7} Partial", "https://emojiapi.dev/api/v1/26a0/128.png", 0xFEE75C)
  const COMPLETE: Outcome := Outcome("ASRSub \U{00B7} Complete", "https://emojiapi.dev/api/v1/2705/128.png", 0x57F287)

  predicate AnyOfSeverity(rows: seq<Row>, severity: nat) {
    exists i :: 0 <= i < |rows| && rows[i].severity == severity
  }

  function OutcomeOf(o: OverflowSummary, rows: seq<Row>): Outcome {
    if || o.attentionReports > 0 || o.targetOutcomes > 0 || o.preAdmissionDrops > 0 || o.blockedAdmissions > 0
       || AnyOfSeverity(rows, 0)
    then ATTENTION
    else if o.warningReports > 0 || AnyOfSeverity(rows, 1) then PARTIAL
    else COMPLETE
  }

  predicate RowLe(a: Row, b: Row) {
    KeyLe(a.severity, Codes(a.text), b.severity, Codes(b.text))
  }

  /** One row per report; the first report without one fails the digest. */
  function MakeRows(reports: seq<Report>): (r: Result<seq<Row>, RenderError>)
    ensures r.Success? ==> |r.value| == |reports|
  {
    if reports == [] then Success([])
    else
      var row :- MakeRow(reports[0]);
      var rest :- MakeRows(reports[1..]);
      Success([row] + rest)
  }

  function Texts(rows: seq<Row>): (r: seq<string>)
    ensures |r| == |rows|
    ensures forall i :: 0 <= i < |rows| ==> r[i] == rows[i].text
  {
    if rows == [] then [] else [rows[0].text] + Texts(rows[1..])
  }

  function NeedsCare(): Row -> bool {
    (row: Row) => row.attention
  }

  function IsDone(): Row -> bool {
    (row: Row) => !row.attention
  }

  function ContentOf(o: OverflowSummary, sorted: seq<Row>): Content {
    Content(AttentionLines(o), CompletedLines(o), Texts(Filter(NeedsCare(), sorted)), Texts(Filter(IsDone(), sorted)))
  }

  function PayloadTree(outcome: Outcome, text: string): Json {
    Obj([
      Field("username", Str(outcome.username)),
      Field("avatar_url", Str(outcome.avatarUrl)),
      Field("embeds", Arr([Obj([Field("description", Str(text)), Field("color", Num(outcome.color))])])),
      Field("allowed_mentions", Obj([Field("parse", Arr([]))]))
    ])
  }

  /** The payload for joined lines, after the last guards. */
  function Payload(outcome: Outcome, text: string): Result<seq<byte>, RenderError> {
    if text == "" || text == "none" then Failure(CannotFit)
    else if |text| > MAX_EMBED_TEXT_SCALARS then Failure(TooLarge)
    else
      var bytes := Bytes(PayloadTree(outcome, text));
      if ValidPayload(bytes) then Success(bytes) else Failure(TooLarge)
  }

  /** What `render` returns. */
  function Rendered(view: DeliveryView): Result<seq<byte>, RenderError> {
    var rows :- MakeRows(view.reports);
    var sorted := SortBy(RowLe, rows);
    var content := ContentOf(view.overflow, sorted);
    var n :- Packed(content);
    Payload(OutcomeOf(view.overflow, sorted), Join("\n", LinesAt(content, n)))
  }

  /** The embed object inside the payload. */
  function EmbedTree(text: string, color: nat): Json {
    Obj([Field("description", Str(text)), Field("color", Num(color))])
  }

  method WriteEmbeds(text: string, color: nat) returns (bytes: seq<byte>)
    ensures bytes == Bytes(Arr([EmbedTree(text, color)]))
  {
    hide Bytes, OpenObject, OpenArray;
    var out := StartObject();
    ghost var fields: seq<Field>;
    out, fields := PushString(out, true, [], "description", Some(text));
    out, fields := PushNumber(out, false, fields, "color", Some(color));
    assert fields == [Field("description", Str(text)), Field("color", Num(color))];
    out := CloseObject(out, fields);
    var list := StartArray();
    list := PushItem(list, true, [], out, EmbedTree(text, color));
    bytes := CloseArray(list, [] + [EmbedTree(text, color)]);
    assert [] + [EmbedTree(text, color)] == [EmbedTree(text, color)];
  }

  /** No mention in the text pings anybody: the list of allowed mention kinds is empty. */
  method WriteMentions() returns (bytes: seq<byte>)
    ensures bytes == Bytes(Obj([Field("parse", Arr([]))]))
  {
    hide Bytes, OpenObject, OpenArray;
    var list := StartArray();
    list := CloseArray(list, []);
    var out := StartObject();
    ghost var fields: seq<Field>;
    out, fields := PushMember(out, true, [], "parse", list, Arr([]));
    assert fields == [Field("parse", Arr([]))];
    bytes := CloseObject(out, fields);
  }

  method WritePayload(outcome: Outcome, text: string) returns (bytes: seq<byte>)
    ensures bytes == Bytes(PayloadTree(outcome, text))
  {
    hide Bytes, OpenObject, OpenArray;
    var embeds := WriteEmbeds(text, outcome.color);
    var mentions := WriteMentions();
    var out := StartObject();
    ghost var fields: seq<Field>;
    out, fields := PushString(out, true, [], "username", Some(outcome.username));
    out, fields := PushString(out, false, fields, "avatar_url", Some(outcome.avatarUrl));
    out, fields := PushMember(out, false, fields, "embeds", embeds, Arr([EmbedTree(text, outcome.color)]));
    out, fields := PushMember(out, false, fields, "allowed_mentions", mentions, Obj([Field("parse", Arr([]))]));
    assert Obj(fields) == PayloadTree(outcome, text);
    bytes := CloseObject(out, fields);
  }

  /** `render`. */
  method Render(view: DeliveryView) returns (r: Result<seq<byte>, RenderError>)
    ensures r == Rendered(view)
  {
    hide MakeRows, Packed, Bytes, Join, OutcomeOf, PayloadTree, LinesAt, SortBy;
    var rows :- MakeRows(view.reports);
    var sorted := SortBy(RowLe, rows);
    var content := ContentOf(view.overflow, sorted);
    var lines :- Pack(content);
    var text := Join("\n", lines);
    if text == "" || text == "none" {
      return Failure(CannotFit);
    }
    var outcome := OutcomeOf(view.overflow, sorted);
    if |text| > MAX_EMBED_TEXT_SCALARS {
      return Failure(TooLarge);
    }
    var bytes := WritePayload(outcome, text);
    r := if ValidPayload(bytes) then Success(bytes) else Failure(TooLarge);
  }
}
