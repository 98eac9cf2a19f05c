/** What a reader of a digest finds in it: which rows first, which colour, which texts, and which members of the payload. */
module DigestReadings {
  import opened Wrappers
  import opened Decimal
  import opened Sorting
  import opened Json
  import opened JsonWriter
  import opened ReportTypes
  import opened StateSchema
  import opened StateCodec
  import opened DigestRows
  import opened Digest
  import opened DigestTheorems
  import opened Orders

  /* ---- Order ---- */

  /** Rows stand by severity, worst first, and rows of one severity by their text. */
  lemma RowsInOrder(view: DeliveryView, i: nat, j: nat)
    requires ViewOk(view) && MakeRows(view.reports).Success? && i < j < |ShownOrder(view)|
    ensures var rows := ShownOrder(view);
      rows[i].severity < rows[j].severity || (rows[i].severity == rows[j].severity && TextBefore(rows[i].text, rows[j].text))
  {
    hide MakeRows, SortBy;
    var rows := ShownOrder(view);
    MakeRowsExactly(view.reports);
    SortedRows(MakeRows(view.reports).value);
    assert RowLe(rows[i], rows[j]);
    TextLeExactly(rows[i].text, rows[j].text);
  }

  /** They are the rows of the reports, each once. */
  lemma RowsAreTheReports(view: DeliveryView)
    requires ViewOk(view) && MakeRows(view.reports).Success?
    ensures |ShownOrder(view)| == |view.reports| && multiset(ShownOrder(view)) == multiset(MakeRows(view.reports).value)
    ensures forall i :: 0 <= i < |view.reports| ==> MakeRow(view.reports[i]) == Success(MakeRows(view.reports).value[i])
  {
    hide MakeRows, SortBy, MakeRow;
    MakeRowsExactly(view.reports);
    SortedRows(MakeRows(view.reports).value);
  }

  /** The lines that would be there with the first `m` rows. */
  function ViewLines(view: DeliveryView, m: nat): seq<string>
    requires MakeRows(view.reports).Success?
  {
    var d := ViewContent(view);
    if m <= Total(d) then LinesAt(d, m) else []
  }

  /**
    The digest shows the first `n` rows in that order, each as a line of its own, as many as eight lines and 900 scalars allow: no
    row left out is more severe than a row shown.
   */
  lemma NothingWorseIsLeftOut(view: DeliveryView) returns (n: nat, lines: seq<string>)
    requires ViewOk(view) && Rendered(view).Success?
    ensures MakeRows(view.reports).Success? && n <= |ShownOrder(view)|
    ensures forall i, j :: 0 <= i < n <= j < |ShownOrder(view)| ==> ShownOrder(view)[i].severity <= ShownOrder(view)[j].severity
    ensures forall i :: 0 <= i < n ==> ShownOrder(view)[i].text in lines
    ensures |lines| <= 8 && |Join("\n", lines)| <= 900
    ensures forall m :: n < m <= |ShownOrder(view)| ==>
      |ViewLines(view, m)| > 8 || |Join("\n", ViewLines(view, m))| > 900
    ensures Rendered(view) == Success(Bytes(PayloadTree(OutcomeOf(view.overflow, ShownOrder(view)), Join("\n", lines))))
  {
    hide MakeRows, Rendered, OutcomeOf, PayloadTree, Bytes, LongestFit, ShownOrder, ViewContent, Texts, ViewLines, ViewOk;
    n, lines := ShownLines(view);
    var rows := ShownOrder(view);
    RowsAreTheReports(view);
    NoMoreRowsFit(view, n);
    forall i, j | 0 <= i < n <= j < |rows|
      ensures rows[i].severity <= rows[j].severity
    {
      RowsInOrder(view, i, j);
    }
    forall i | 0 <= i < n
      ensures rows[i].text in lines
    {
      TextAt(rows, i);
    }
  }

  lemma ShownLines(view: DeliveryView) returns (n: nat, lines: seq<string>)
    requires ViewOk(view) && Rendered(view).Success?
    ensures MakeRows(view.reports).Success? && n <= |Texts(ShownOrder(view))| && LongestFit(ViewContent(view), n)
    ensures forall i :: 0 <= i < n ==> Texts(ShownOrder(view))[i] in lines
    ensures |lines| <= 8 && |Join("\n", lines)| <= 900
    ensures Rendered(view) == Success(Bytes(PayloadTree(OutcomeOf(view.overflow, ShownOrder(view)), Join("\n", lines))))
  {
    hide MakeRows, Rendered, OutcomeOf, PayloadTree, Bytes, AttentionLines, CompletedLines, AttentionMarker, CompletedMarker,
         LongestFit, ShownOrder, ViewContent, Texts, LinesAt;
    n, lines := DigestShows(view);
    var d, o, texts := ViewContent(view), view.overflow, Texts(ShownOrder(view));
    var total, a, c := |d.attentionRows|, KeptAttention(d, n), KeptCompleted(d, n);
    CutsAreIn(AttentionLines(o), texts, a, AttentionMarker(total - a) + CompletedLines(o), total, c,
              CompletedMarker(|texts| - total - c), lines);
  }

  /** Of two cuts of a list put into another, every element of the first `a + c` is in that. */
  lemma CutsAreIn(p: seq<string>, texts: seq<string>, a: nat, q: seq<string>, total: nat, c: nat, r: seq<string>, lines: seq<string>)
    requires a <= total && total + c <= |texts| && (c > 0 ==> a == total)
    requires lines == p + texts[..a] + q + texts[total..total + c] + r
    ensures forall i :: 0 <= i < a + c ==> texts[i] in lines
  {
    forall i | 0 <= i < a + c
      ensures texts[i] in lines
    {
      if i < a {
        assert lines[|p| + i] == texts[..a][i] == texts[i];
      } else {
        assert lines[|p| + a + |q| + i - total] == texts[total..total + c][i - total] == texts[i];
      }
    }
  }

  lemma NoMoreRowsFit(view: DeliveryView, n: nat)
    requires ViewOk(view) && MakeRows(view.reports).Success? && LongestFit(ViewContent(view), n)
    ensures forall m :: n < m <= |ShownOrder(view)| ==> |ViewLines(view, m)| > 8 || |Join("\n", ViewLines(view, m))| > 900
  {
    hide MakeRows, LinesAt, ShownOrder, ViewContent;
    ViewContentOk(view);
    RowsAreTheReports(view);
    var d := ViewContent(view);
    forall m | n < m <= |ShownOrder(view)|
      ensures |ViewLines(view, m)| > 8 || |Join("\n", ViewLines(view, m))| > 900
    {
      assert !(RowsFit(d, m) && TextFits(d, m));
    }
  }

  lemma TextAt(rows: seq<Row>, i: nat)
    requires i < |rows|
    ensures Texts(rows)[i] == rows[i].text
  {
  }

  /* ---- Name and colour ---- */

  /** A failed report: something failed or has no language, or more than six targets stand beside a title that has to be cut. */
  predicate Fails(r: Report) {
    || r.itemFailure != None
    || (exists i :: 0 <= i < |r.targets| && (r.targets[i].status.Failed? || r.targets[i].status.MissingLanguage?))
    || (|r.targets| > 6 && |(if r.title == "" then "Untitled" else r.title)| + Overhead(r) > 160)
  }

  predicate Warns(r: Report) {
    exists i :: 0 <= i < |r.targets| && r.targets[i].status.Completed? && r.targets[i].status.warning.Some?
  }

  lemma SeverityExactly(status: TargetStatus)
    ensures Severity(status) == Rank(status)
  {
  }

  /** The severity of a row: 0 for a failed report, 1 for one that only warns, 2 for a clean one. */
  lemma RowSeverityExactly(r: Report)
    requires MakeRow(r).Success?
    ensures MakeRow(r).value.severity == if Fails(r) then 0 else if Warns(r) then 1 else 2
  {
    hide MakeRow, Overhead;
    RowSeverity(r);
    WorstExactly(r.targets);
  }

  lemma WorstExactly(ts: seq<Target>)
    ensures WorstSeverity(ts) == 0 <==> exists i :: 0 <= i < |ts| && (ts[i].status.Failed? || ts[i].status.MissingLanguage?)
    ensures WorstSeverity(ts) <= 1 <==>
      exists i :: 0 <= i < |ts| && (!ts[i].status.Completed? || ts[i].status.warning.Some?)
  {
    hide WorstSeverity;
    var worst := WorstSeverity(ts);
    forall i | 0 <= i < |ts|
      ensures Severity(ts[i].status) == Rank(ts[i].status)
    {
      SeverityExactly(ts[i].status);
    }
    if worst < 2 {
      var i :| 0 <= i < |ts| && worst == Severity(ts[i].status);
      assert worst == 1 ==> ts[i].status.Completed? && ts[i].status.warning.Some?;
      assert worst == 0 ==> ts[i].status.Failed? || ts[i].status.MissingLanguage?;
    }
  }

  /**
    The digest is named and coloured for attention if any report failed, shown or not, or a counter of failures, target outcomes, rejected or
    blocked reports is not zero; as partial if otherwise one warns or is counted; and as complete else.
   */
  lemma OutcomeExactly(view: DeliveryView)
    requires ViewOk(view) && MakeRows(view.reports).Success?
    ensures var o := view.overflow;
      OutcomeOf(o, ShownOrder(view)) ==
        if o.attentionReports > 0 || o.targetOutcomes > 0 || o.preAdmissionDrops > 0 || o.blockedAdmissions > 0
           || exists i :: 0 <= i < |view.reports| && Fails(view.reports[i])
        then Outcome("ASRSub \U{00B7} Attention", "https://emojiapi.dev/api/v1/274c/128.png", 0xED4245)
        else if o.warningReports > 0 || exists i :: 0 <= i < |view.reports| && Warns(view.reports[i])
        then Outcome("ASRSub \U{00B7} Partial", "https://emojiapi.dev/api/v1/26a0/128.png", 0xFEE75C)
        else Outcome("ASRSub \U{00B7} Complete", "https://emojiapi.dev/api/v1/2705/128.png", 0x57F287)
  {
    hide MakeRows, MakeRow, ShownOrder, Fails, Warns, AnyOfSeverity;
    OutcomeCountsEveryReport(view, 0);
    OutcomeCountsEveryReport(view, 1);
    RowsAreTheReports(view);
    forall i | 0 <= i < |view.reports|
      ensures MakeRow(view.reports[i]).Success?
      ensures MakeRow(view.reports[i]).value.severity == if Fails(view.reports[i]) then 0 else if Warns(view.reports[i]) then 1 else 2
    {
      RowSeverityExactly(view.reports[i]);
    }
  }

  /* ---- Texts ---- */

  /** Different outcomes have different tokens, and the first letters say how bad they are. */
  lemma TokensTellOutcomes(a: TargetStatus, b: TargetStatus)
    ensures RowToken(a) == RowToken(b) <==> a == b
    ensures |RowToken(a)| >= 2 && RowToken(a)[..2] == if Rank(a) == 0 then "fa" else if Rank(a) == 1 then "wa" else "ok"
  {
    assert RowToken(Completed(None)) == "ok" && |RowToken(Completed(Some(UploadWarning)))| == 11;
    TokenLengths(a);
    TokenLengths(b);
  }

  lemma TokenLengths(a: TargetStatus)
    ensures RowToken(a) == match a
      case Completed(None) => "ok"
      case Completed(Some(UploadWarning)) => "warn-upload"
      case Completed(Some(UnknownWarning)) => "warn-unknown"
      case Failed(SourceFailure) => "fail-source"
      case Failed(TranscriptionFailure) => "fail-transcription"
      case Failed(TranslationFailure) => "fail-translation"
      case Failed(StorageFailure) => "fail-storage"
      case Failed(UnknownFailure) => "fail-unknown"
      case MissingLanguage => "fail-language"
    ensures |RowToken(a)| >= 2
  {
  }

  /** How the entry of a target reads: language, token, and how it was made. */
  lemma EntryReads(t: ReportTypes.Target)
    ensures TargetEntry(t) == t.language + ":" + RowToken(t.status) +
      match t.generationMethod
      case None => ""
      case Some(m) => " | " + Replace(Replace(m, " \U{00B7} ", " | "), " \U{2192} ", " -> ")
  {
  }

  /** Parts are joined by putting the separator in front of every one but the first. */
  lemma {:induction false} JoinExactly(separator: string, parts: seq<string>, last: string)
    ensures Join(separator, []) == "" && Join(separator, [last]) == last
    ensures parts != [] ==> Join(separator, parts + [last]) == Join(separator, parts) + separator + last
  {
    if |parts| == 1 {
      assert (parts + [last])[1..] == [last];
    } else if |parts| > 1 {
      JoinExactly(separator, parts[1..], last);
      assert (parts + [last])[1..] == parts[1..] + [last];
      assert parts[0] + separator + (Join(separator, parts[1..]) + separator + last)
          == parts[0] + separator + Join(separator, parts[1..]) + separator + last;
    }
  }

  /** How every row reads: kind, title and number, then the item failure and the targets that are named. */
  lemma RowReads(r: Report, title: string)
    ensures TextWith(r, title) ==
      "**" + (if r.kind == Series then "series" else "movie") + " " + title + " "
      + (if r.kind == Movie then "movie" else "S" + Numbered(r.season) + "E" + Numbered(r.episode)) + "** - "
      + Join(" | ", (if r.itemFailure == None then [] else [ItemEntry(r.itemFailure.value)]) + TargetRows(r.targets))
    ensures ShownTitle(r) == if r.title == "" then "Untitled" else r.title
  {
    hide Numbered, Join, TargetRows;
  }

  /** The row of an episode with one target, as a reader sees it. */
  lemma EpisodeRowReads(title: string, digest: ReportTypes.Digest)
    requires 1 <= |title| <= 120
    ensures var r := Report(Series, 7, title, Some(1), Some(12), [ReportTypes.Target("id", Completed(None), Some(digest), None)], None, Complete, None);
      MakeRow(r) == Success(Row("**series " + title + " S01E12** - id:ok", 2, false))
  {
    hide TextWith, MakeRow, WorstSeverity;
    var target := ReportTypes.Target("id", Completed(None), Some(digest), None);
    var r := Report(Series, 7, title, Some(1), Some(12), [target], None, Complete, None);
    EpisodeText(r, title);
    TextWithLength(r, title);
    assert ShownTitle(r) == title;
    MakeRowExactly(r);
    RowSeverity(r);
    RowSeverityExactly(r);
  }

  lemma EpisodeText(r: Report, title: string)
    requires r.kind == Series && r.season == Some(1) && r.episode == Some(12) && r.itemFailure == None && |r.targets| == 1
    requires r.targets[0].language == "id" && r.targets[0].status == Completed(None) && r.targets[0].generationMethod == None
    ensures TextWith(r, title) == "**series " + title + " S01E12** - id:ok" && Overhead(r) == 26
  {
    hide Digits;
    OneEntry(r.targets[0]);
    assert r.targets == [r.targets[0]];
    OneAndTwelve();
    assert Metadata(r) == "S01E12" && TargetEntry(r.targets[0]) == "id:ok" && Entries(r) == ["id:ok"];
    assert TextWith(r, title) == "**" + "series" + " " + title + " " + "S01E12" + "** - " + "id:ok";
    EpisodeWords(title);
  }

  lemma EpisodeWords(title: string)
    ensures "**" + "series" + " " + title + " " + "S01E12" + "** - " + "id:ok" == "**series " + title + " S01E12** - id:ok"
  {
  }

  /** Season and episode numbers have at least two digits, and none is a question mark. */
  lemma NumbersRead(n: Option<u32>)
    ensures Numbered(n) == match n
      case None => "?"
      case Some(v) => if v <= 9 then ['0', '0' + v as char] else Digits(v)
  {
  }

  lemma OneAndTwelve()
    ensures Digits(1) == "1" && Digits(12) == "12"
  {
    assert Digits(12) == Digits(1) + [DigitChar(2)];
  }

  /** The row of a film with an item failure, a target that warns and says how it was made, letter by letter. */
  lemma FilmRowReads(title: string, digest: ReportTypes.Digest, item: ItemFailure)
    requires 1 <= |title| <= 60
    ensures var target := ReportTypes.Target("en", Completed(Some(UploadWarning)), Some(digest), Some("a \U{00B7} b"));
      var r := Report(Movie, 7, title, None, None, [target], Some(item), Partial, None);
      var name := match item case SourceItem => "item:source" case StorageItem => "item:storage" case UnknownItem => "item:unknown";
      MakeRow(r) == Success(Row("**movie " + title + " movie** - " + name + " | en:warn-upload | a | b", 0, true))
  {
    hide TextWith, MakeRow, WorstSeverity;
    var target := ReportTypes.Target("en", Completed(Some(UploadWarning)), Some(digest), Some("a \U{00B7} b"));
    var r := Report(Movie, 7, title, None, None, [target], Some(item), Partial, None);
    FilmText(r, title, item);
    TextWithLength(r, title);
    assert ShownTitle(r) == title;
    MakeRowExactly(r);
    RowSeverity(r);
    RowSeverityExactly(r);
  }

  lemma FilmText(r: Report, title: string, item: ItemFailure)
    requires r.kind == Movie && r.itemFailure == Some(item) && |r.targets| == 1
    requires r.targets[0].language == "en" && r.targets[0].status == Completed(Some(UploadWarning))
    requires r.targets[0].generationMethod == Some("a \U{00B7} b")
    ensures var name := match item case SourceItem => "item:source" case StorageItem => "item:storage" case UnknownItem => "item:unknown";
      TextWith(r, title) == "**movie " + title + " movie** - " + name + " | en:warn-upload | a | b"
    ensures Overhead(r) <= 60
  {
    hide Replace;
    var name := match item case SourceItem => "item:source" case StorageItem => "item:storage" case UnknownItem => "item:unknown";
    OneEntry(r.targets[0]);
    assert r.targets == [r.targets[0]];
    MethodReads();
    assert TargetEntry(r.targets[0]) == "en:warn-upload | a | b";
    assert Entries(r) == [name, "en:warn-upload | a | b"];
    assert [name, "en:warn-upload | a | b"][1..] == ["en:warn-upload | a | b"];
    assert Join(" | ", Entries(r)) == name + " | " + "en:warn-upload | a | b";
    FilmWords(title, name);
  }

  lemma FilmWords(title: string, name: string)
    ensures "**" + "movie" + " " + title + " " + "movie" + "** - " + (name + " | " + "en:warn-upload | a | b")
         == "**movie " + title + " movie** - " + name + " | en:warn-upload | a | b"
  {
  }

  /** The dot and the arrow of a method become a bar and two characters. */
  lemma MethodReads()
    ensures Replace(Replace("a \U{00B7} b", " \U{00B7} ", " | "), " \U{2192} ", " -> ") == "a | b"
    ensures Replace("a \U{2192} b", " \U{2192} ", " -> ") == "a -> b"
  {
    ReplaceOnce("a", "b", " \U{00B7} ", " | ");
    ReplaceOnce("a", "b", " \U{2192} ", " -> ");
    ReplaceNothing("a | b", " \U{2192} ", " -> ");
    assert "a" + " \U{00B7} " + "b" == "a \U{00B7} b" && "a" + " | " + "b" == "a | b";
    assert "a" + " \U{2192} " + "b" == "a \U{2192} b" && "a" + " -> " + "b" == "a -> b";
  }

  /** With one occurrence, that is replaced. */
  lemma ReplaceOnce(a: string, b: string, from: string, to: string)
    requires |a| == 1 && |b| == 1 && |from| == 3 && from[0] == ' ' && from[1] != ' ' && a[0] != ' '
    ensures Replace(a + from + b, from, to) == a + to + b
  {
    var s := a + from + b;
    assert s[..3][0] == a[0];
    assert s[1..] == from + b && s[1..][..3] == from && s[1..][3..] == b;
    assert Replace(b, from, to) == b;
  }

  lemma {:induction false} ReplaceNothing(s: string, from: string, to: string)
    requires |from| == 3 && forall i :: 0 <= i < |s| ==> s[i] != from[1]
    ensures Replace(s, from, to) == s
  {
    if |s| >= 3 {
      assert s[..3][1] == s[1];
      ReplaceNothing(s[1..], from, to);
    }
  }

  lemma OneEntry(t: ReportTypes.Target)
    ensures TargetRows([t]) == [TargetEntry(t)]
  {
    assert SortBy(TargetLe, [t]) == [t] by {
      SortedIsFixed(TargetLe, [t]);
    }
    assert [t][1..] == [];
  }

  /** The summary lines of a view: one for each counter that is not zero, in this order. */
  lemma SummaryReads(o: OverflowSummary)
    ensures AttentionLines(o) ==
      (if o.attentionReports > 0 then ["**Attention:** at least " + Digits(o.attentionReports) + " additional attention reports"] else [])
      + (if o.warningReports > 0 then ["**Warning:** at least " + Digits(o.warningReports) + " additional warning reports"] else [])
      + (if o.blockedAdmissions > 0 then ["**Blocked:** at least " + Digits(o.blockedAdmissions) + " committed reports awaiting capacity"] else [])
      + (if o.targetOutcomes > 0 then ["**Targets:** at least " + Digits(o.targetOutcomes) + " additional target outcomes"] else [])
      + (if o.preAdmissionDrops > 0
         then ["**State capacity:** at least " + Digits(o.preAdmissionDrops) + " reports rejected by state capacity"] else [])
    ensures CompletedLines(o) ==
      if o.completedReports > 0 then ["**Completed:** at least " + Digits(o.completedReports) + " additional completed reports"] else []
    ensures forall n: nat :: AttentionMarker(n) == if n > 0 then ["_+" + Digits(n) + " more attention episodes_"] else []
    ensures forall n: nat :: CompletedMarker(n) == if n > 0 then ["_+" + Digits(n) + " more completed episodes_"] else []
  {
    hide Digits;
  }

  /* ---- The payload ---- */

  lemma MemberOf(fields: seq<Field>, i: nat)
    requires i < |fields| && DistinctKeys(fields)
    ensures ToValue(Obj(fields)).Get(fields[i].key) == Some(ToValue(fields[i].value))
  {
    ToMapAt(fields, i);
  }

  /** Read back, a payload has its name, its picture, one embed with the text and the colour, and allows no mention of anybody. */
  lemma PayloadReads(outcome: Outcome, text: string)
    ensures var v := Document(Bytes(PayloadTree(outcome, text)));
      && v.Some? && v.value.VObj?
      && (forall key :: key in v.value.fields <==> key in {"username", "avatar_url", "embeds", "allowed_mentions"})
      && v.value.Get("username") == Some(VStr(outcome.username)) && v.value.Get("avatar_url") == Some(VStr(outcome.avatarUrl))
      && v.value.Get("allowed_mentions") == Some(VObj(map["parse" := VArr([])]))
      && v.value.Get("embeds") == Some(VArr([VObj(map["description" := VStr(text), "color" := VNum(outcome.color)])]))
  {
    hide ToValue, ToMap, PayloadTree;
    var tree := PayloadTree(outcome, text);
    PayloadFields(outcome, text);
    var fields := tree.fields;
    BytesRoundTrip(tree);
    assert Document(Bytes(tree)) == Some(ToValue(tree));
    ObjectReads(fields);
    ObjectIsMap(fields);
    MemberOf(fields, 0);
    MemberOf(fields, 1);
    MemberOf(fields, 2);
    MemberOf(fields, 3);
    EmbedReads(text, outcome.color);
    MentionsRead();
    TextsRead(outcome);
  }

  lemma PayloadFields(outcome: Outcome, text: string)
    ensures var tree := PayloadTree(outcome, text);
      && tree.Obj? && DistinctKeys(tree.fields)
      && tree.fields == [Field("username", Str(outcome.username)), Field("avatar_url", Str(outcome.avatarUrl)),
                         Field("embeds", Arr([EmbedTree(text, outcome.color)])),
                         Field("allowed_mentions", Obj([Field("parse", Arr([]))]))]
  {
  }

  lemma TextsRead(outcome: Outcome)
    ensures ToValue(Str(outcome.username)) == VStr(outcome.username) && ToValue(Str(outcome.avatarUrl)) == VStr(outcome.avatarUrl)
  {
  }

  lemma ObjectIsMap(fields: seq<Field>)
    ensures ToValue(Obj(fields)) == VObj(ToMap(fields))
  {
  }

  lemma ObjectReads(fields: seq<Field>)
    requires |fields| == 4
    ensures forall key :: key in ToMap(fields) <==> key in {fields[0].key, fields[1].key, fields[2].key, fields[3].key}
  {
    forall key
      ensures key in ToMap(fields) <==> key in {fields[0].key, fields[1].key, fields[2].key, fields[3].key}
    {
      ToMapKeys(fields, key);
      assert fields[0].key == key || fields[1].key == key || fields[2].key == key || fields[3].key == key ==> HasKey(fields, key);
    }
  }

  lemma EmbedReads(text: string, color: nat)
    ensures ToValue(Arr([EmbedTree(text, color)])) == VArr([VObj(map["description" := VStr(text), "color" := VNum(color)])])
  {
    var d, c := Field("description", Str(text)), Field("color", Num(color));
    assert [d, c][1..] == [c] && [c][1..] == [];
    assert ToMap([]) == map[];
    assert ToMap([c]) == map["color" := VNum(color)];
    assert ToMap([d, c]) == map["description" := VStr(text), "color" := VNum(color)];
    assert ToValue(EmbedTree(text, color)) == VObj(ToMap([d, c]));
    OneItem(EmbedTree(text, color));
  }

  lemma OneItem(j: Json)
    ensures ToValue(Arr([j])) == VArr([ToValue(j)])
  {
    assert [j][1..] == [];
    assert ToValues([j]) == [ToValue(j)] + ToValues([]) && ToValues([]) == [];
  }

  lemma MentionsRead()
    ensures ToValue(Obj([Field("parse", Arr([]))])) == VObj(map["parse" := VArr([])])
  {
    var fs := [Field("parse", Arr([]))];
    assert fs[1..] == [] && ToMap(fs[1..]) == map[];
  }
}
