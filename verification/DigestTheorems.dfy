/** When a digest exists, how large it is, and which rows it keeps. */
module DigestTheorems {
  import opened Wrappers
  import opened Decimal
  import opened Sorting
  import opened Json
  import opened JsonWriter
  import opened ReportTypes
  import opened ReportSizes
  import opened StateSchema
  import opened DigestRows
  import opened Digest
  import Utf8

  /** What the types of the source guarantee of a view: a bounded list, and targets in every report. */
  predicate ViewOk(view: DeliveryView) {
    |view.reports| <= MAX_PASS_REPORTS && forall i :: 0 <= i < |view.reports| ==> view.reports[i].targets != []
  }

  /* ---- Rows ---- */

  lemma {:induction false} MakeRowsExactly(reports: seq<Report>)
    requires forall i :: 0 <= i < |reports| ==> reports[i].targets != []
    ensures MakeRows(reports).Success? <==> forall i :: 0 <= i < |reports| ==> RowFits(reports[i])
    ensures MakeRows(reports).Failure? ==> MakeRows(reports).error == CannotFit
    ensures MakeRows(reports).Success? ==> forall i :: 0 <= i < |reports| ==>
      MakeRow(reports[i]) == Success(MakeRows(reports).value[i]) && GoodRow(MakeRows(reports).value[i])
  {
    hide MakeRow, RowFits, GoodRow;
    if reports != [] {
      var rest := reports[1..];
      MakeRowExactly(reports[0]);
      assert forall i :: 0 <= i < |rest| ==> rest[i] == reports[i + 1];
      MakeRowsExactly(rest);
      assert forall i :: 0 < i < |reports| ==> reports[i] == rest[i - 1];
      assert (forall i :: 0 <= i < |rest| ==> RowFits(rest[i])) ==> forall i :: 0 < i < |reports| ==> RowFits(reports[i]);
      if MakeRows(reports).Success? {
        var rows := MakeRows(reports).value;
        assert forall i :: 0 < i < |reports| ==> rows[i] == MakeRows(rest).value[i - 1];
      }
    }
  }

  lemma RowLeIsOrder()
    ensures TotalPreorder(RowLe)
  {
    forall a: Row, b: Row
      ensures RowLe(a, b) || RowLe(b, a)
    {
      SeqLeTotal(Codes(a.text), Codes(b.text));
    }
    forall a: Row, b: Row, c: Row | RowLe(a, b) && RowLe(b, c)
      ensures RowLe(a, c)
    {
      if a.severity == b.severity == c.severity {
        SeqLeTransitive(Codes(a.text), Codes(b.text), Codes(c.text));
      }
    }
  }

  ghost predicate GoodRows(rows: seq<Row>) {
    forall i :: 0 <= i < |rows| ==> GoodRow(rows[i])
  }

  lemma SortedRows(rows: seq<Row>)
    requires GoodRows(rows)
    ensures var sorted := SortBy(RowLe, rows);
      Sorted(RowLe, sorted) && multiset(sorted) == multiset(rows) && |sorted| == |rows| && GoodRows(sorted)
  {
    hide GoodRow;
    RowLeIsOrder();
    SortByIsSort(RowLe, rows);
    var sorted := SortBy(RowLe, rows);
    forall i | 0 <= i < |sorted|
      ensures GoodRow(sorted[i])
    {
      assert sorted[i] in multiset(rows);
    }
  }

  lemma {:induction false} FilterNone<T(!new)>(keep: T -> bool, s: seq<T>)
    requires forall i :: 0 <= i < |s| ==> !keep(s[i])
    ensures Filter(keep, s) == []
  {
    if s != [] {
      FilterNone(keep, s[1..]);
    }
  }

  lemma {:induction false} FilterAll<T(!new)>(keep: T -> bool, s: seq<T>)
    requires forall i :: 0 <= i < |s| ==> keep(s[i])
    ensures Filter(keep, s) == s
  {
    if s != [] {
      FilterAll(keep, s[1..]);
    }
  }

  /** In severity order the attention rows come first, so splitting them off keeps the order. */
  lemma {:induction false} SplitIsWhole(rows: seq<Row>)
    requires Sorted(RowLe, rows) && GoodRows(rows)
    ensures Filter(NeedsCare(), rows) + Filter(IsDone(), rows) == rows
  {
    hide Codes, SeqLe, Filter;
    if rows == [] {
      FilterNone(NeedsCare(), rows);
      FilterNone(IsDone(), rows);
    } else if rows[0].attention {
      SplitIsWhole(rows[1..]);
      SplitHead(rows);
    } else {
      forall i | 0 <= i < |rows|
        ensures !rows[i].attention
      {
        assert i > 0 ==> RowLe(rows[0], rows[i]);
        assert GoodRow(rows[0]) && GoodRow(rows[i]);
      }
      FilterNone(NeedsCare(), rows);
      FilterAll(IsDone(), rows);
      assert [] + rows == rows;
    }
  }

  lemma {:induction false} SplitHead(rows: seq<Row>)
    requires rows != [] && rows[0].attention
    requires Filter(NeedsCare(), rows[1..]) + Filter(IsDone(), rows[1..]) == rows[1..]
    ensures Filter(NeedsCare(), rows) + Filter(IsDone(), rows) == rows
  {
    var a, b := Filter(NeedsCare(), rows[1..]), Filter(IsDone(), rows[1..]);
    assert [rows[0]] + a + b == [rows[0]] + (a + b) == rows;
  }

  lemma {:induction false} TextsConcat(a: seq<Row>, b: seq<Row>)
    ensures Texts(a + b) == Texts(a) + Texts(b)
  {
    assert forall i :: 0 <= i < |a + b| ==> Texts(a + b)[i] == (Texts(a) + Texts(b))[i];
  }

  /* ---- Lines ---- */

  const MAX_SUMMARY_SCALARS: nat := 100

  predicate Marked(line: string) {
    line != "" && (line[0] == '*' || line[0] == '_')
  }

  /** What `render` hands to the packing loops. */
  ghost predicate ContentOk(d: Content) {
    && |d.attention| <= 5 && |d.completed| <= 1 && Total(d) <= MAX_PASS_REPORTS
    && (forall i :: 0 <= i < |d.attention| ==> Marked(d.attention[i]) && |d.attention[i]| <= MAX_SUMMARY_SCALARS)
    && (forall i :: 0 <= i < |d.completed| ==> Marked(d.completed[i]) && |d.completed[i]| <= MAX_SUMMARY_SCALARS)
    && (forall i :: 0 <= i < |d.attentionRows| ==> Marked(d.attentionRows[i]))
    && (forall i :: 0 <= i < |d.completedRows| ==> Marked(d.completedRows[i]))
  }

  lemma CounterDigits(n: u64)
    ensures |Digits(n)| <= 20
  {
    I64Digits();
    assert Pow10(20) == 10 * Pow10(19);
    DigitsLength(n, 20);
  }

  lemma LineIfOk(n: u64, head: string, tail: string)
    requires Marked(head) && |head| + |tail| <= 80
    ensures forall i :: 0 <= i < |LineIf(n, head, tail)| ==>
      Marked(LineIf(n, head, tail)[i]) && |LineIf(n, head, tail)[i]| <= MAX_SUMMARY_SCALARS
  {
    CounterDigits(n);
  }

  lemma SummariesOk(o: OverflowSummary)
    ensures |AttentionLines(o)| <= 5 && |CompletedLines(o)| <= 1
    ensures forall i :: 0 <= i < |AttentionLines(o)| ==>
      Marked(AttentionLines(o)[i]) && |AttentionLines(o)[i]| <= MAX_SUMMARY_SCALARS
    ensures forall i :: 0 <= i < |CompletedLines(o)| ==>
      Marked(CompletedLines(o)[i]) && |CompletedLines(o)[i]| <= MAX_SUMMARY_SCALARS
    ensures AttentionLines(o) == [] && CompletedLines(o) == [] <==> o == NO_OVERFLOW
  {
    hide Line, Digits;
    LineIfOk(o.attentionReports, "**Attention:** at least ", " additional attention reports");
    LineIfOk(o.warningReports, "**Warning:** at least ", " additional warning reports");
    LineIfOk(o.blockedAdmissions, "**Blocked:** at least ", " committed reports awaiting capacity");
    LineIfOk(o.targetOutcomes, "**Targets:** at least ", " additional target outcomes");
    LineIfOk(o.preAdmissionDrops, "**State capacity:** at least ", " reports rejected by state capacity");
    LineIfOk(o.completedReports, "**Completed:** at least ", " additional completed reports");
  }

  /** Joined lines take at most their own length and one separator each. */
  lemma {:induction false} JoinBound(lines: seq<string>, k: nat)
    requires forall i :: 0 <= i < |lines| ==> |lines[i]| <= k
    ensures |Join("\n", lines)| <= |lines| * (k + 1)
  {
    if |lines| > 1 {
      JoinBound(lines[1..], k);
      assert |lines| * (k + 1) == |lines[1..]| * (k + 1) + (k + 1);
    }
  }

  /** With no episode row kept, the summaries and markers alone are within both limits. */
  lemma NothingKeptFits(d: Content)
    requires ContentOk(d)
    ensures RowsFit(d, 0) && TextFits(d, 0)
  {
    hide Join, Line;
    var a, c: u64 := |d.attentionRows|, |d.completedRows|;
    LineIfOk(a, "_+", " more attention episodes_");
    LineIfOk(c, "_+", " more completed episodes_");
    var lines := LinesAt(d, 0);
    assert lines == d.attention + AttentionMarker(a) + d.completed + CompletedMarker(c);
    forall i | 0 <= i < |lines|
      ensures |lines[i]| <= MAX_SUMMARY_SCALARS
    {
    }
    assert |lines| <= 8;
    JoinBound(lines, MAX_SUMMARY_SCALARS);
    assert |lines| * (MAX_SUMMARY_SCALARS + 1) <= 8 * (MAX_SUMMARY_SCALARS + 1);
  }

  /** Keeping fewer rows never adds a line, though it can add a marker. */
  lemma FewerRowsFewerLines(d: Content, m: nat, n: nat)
    requires m <= n <= Total(d)
    ensures |LinesAt(d, m)| <= |LinesAt(d, n)|
  {
    hide LinesAt;
    LineCount(d, m);
    LineCount(d, n);
  }

  /** Both limits hold for as many rows as the two loops leave, and for no larger number. */
  ghost predicate LongestFit(d: Content, n: nat) {
    n <= Total(d) && RowsFit(d, n) && TextFits(d, n) && forall m :: n < m <= Total(d) ==> !(RowsFit(d, m) && TextFits(d, m))
  }

  /** Packing fails exactly when there is nothing to show, and otherwise keeps the most rows both limits allow. */
  lemma PackedExactly(d: Content)
    requires ContentOk(d)
    ensures Packed(d).Success? <==> d.attention != [] || d.completed != [] || Total(d) > 0
    ensures Packed(d).Failure? ==> Packed(d).error == CannotFit
    ensures Packed(d).Success? ==> LongestFit(d, Packed(d).value) && LinesAt(d, Packed(d).value) != []
  {
    hide Join, LinesAt;
    NothingKeptFits(d);
    var n := LargestRows(d, Total(d)).value;
    LineCount(d, n);
    var k := LargestText(d, n).value;
    FewerRowsFewerLines(d, k, n);
    LineCount(d, k);
  }

  /* ---- The whole digest ---- */

  /** The rows of a view in the order they are shown. */
  function ShownOrder(view: DeliveryView): seq<Row>
    requires MakeRows(view.reports).Success?
  {
    SortBy(RowLe, MakeRows(view.reports).value)
  }

  function ViewContent(view: DeliveryView): Content
    requires MakeRows(view.reports).Success?
  {
    ContentOf(view.overflow, ShownOrder(view))
  }

  lemma ViewContentOk(view: DeliveryView)
    requires ViewOk(view) && MakeRows(view.reports).Success?
    ensures ContentOk(ViewContent(view)) && Total(ViewContent(view)) == |view.reports|
    ensures ViewContent(view).attention == AttentionLines(view.overflow)
    ensures ViewContent(view).completed == CompletedLines(view.overflow)
    ensures ViewContent(view).attentionRows + ViewContent(view).completedRows == Texts(ShownOrder(view))
  {
    hide MakeRows, AttentionLines, CompletedLines, SortBy, Filter, Sorted, RowLe, Marked;
    var sorted, d := ShownOrder(view), ViewContent(view);
    MakeRowsExactly(view.reports);
    SortedRows(MakeRows(view.reports).value);
    SplitIsWhole(sorted);
    SummariesOk(view.overflow);
    var a, c := Filter(NeedsCare(), sorted), Filter(IsDone(), sorted);
    TextsConcat(a, c);
    RowsAreMarked(sorted, a);
    RowsAreMarked(sorted, c);
  }

  lemma RowsAreMarked(sorted: seq<Row>, part: seq<Row>)
    requires GoodRows(sorted) && forall row :: row in part ==> row in sorted
    ensures forall i :: 0 <= i < |part| ==> Marked(Texts(part)[i])
  {
    forall i | 0 <= i < |part|
      ensures Marked(part[i].text)
    {
      assert part[i] in sorted;
      var j :| 0 <= j < |sorted| && sorted[j] == part[i];
      assert GoodRow(sorted[j]);
      assert part[i].text[0] == part[i].text[..2][0];
    }
  }

  lemma {:induction false} JoinStart(lines: seq<string>)
    requires lines != [] && Marked(lines[0])
    ensures Marked(Join("\n", lines))
  {
  }

  lemma FirstLineMarked(d: Content, n: nat)
    requires ContentOk(d) && n <= Total(d) && LinesAt(d, n) != []
    ensures Marked(LinesAt(d, n)[0])
  {
    hide Digits;
  }

  lemma EmbedBound(text: string, color: nat)
    requires |text| <= MAX_FIELD_VALUE_SCALARS && color < 100_000_000
    ensures Size(EmbedTree(text, color)) <= 5_600
  {
    hide Size;
    assert Pow10(8) == 100_000_000;
    StringBound(text, MAX_FIELD_VALUE_SCALARS);
    NumberBound(color, 8);
    EmbedMembers([Field("description", Str(text)), Field("color", Num(color))]);
  }

  lemma EmbedMembers(fs: seq<Field>)
    requires |fs| == 2 && |fs[0].key| <= 11 && |fs[1].key| <= 5 && Size(fs[0].value) <= 5_402 && Size(fs[1].value) <= 9
    ensures Size(Obj(fs)) <= 5_600
  {
    MemberBound(fs, 0, 11, 5_402);
    MemberBound(fs, 1, 5, 9);
    assert fs[0..] == fs && fs[2..] == [];
    ObjectSize(fs);
  }

  lemma ArraySize(item: Json)
    ensures Size(Arr([item])) == Size(item) + 2
  {
    EncodeConcat3("[", Print(Canonical, item), "]");
    assert PrintItems(Canonical, [item]) == Print(Canonical, item);
  }

  lemma MentionsBound()
    ensures Size(Obj([Field("parse", Arr([]))])) <= 60
  {
    var fs := [Field("parse", Arr([]))];
    assert Bytes(Arr([])) == Utf8.Encode("[]") by {
      assert "[" + PrintItems(Canonical, []) + "]" == "[]";
    }
    Utf8.EncodedLength("[]");
    MemberBound(fs, 0, 5, 8);
    assert fs[0..] == fs && fs[1..] == [];
    ObjectSize(fs);
  }

  /** The payload of a text within the field limit is far below the payload limit. */
  lemma PayloadBound(outcome: Outcome, text: string)
    requires |text| <= MAX_FIELD_VALUE_SCALARS
    requires outcome in {ATTENTION, PARTIAL, COMPLETE}
    ensures ValidPayload(Bytes(PayloadTree(outcome, text)))
  {
    hide Size;
    assert |outcome.username| <= 20 && |outcome.avatarUrl| <= 50;
    StringBound(outcome.username, 20);
    StringBound(outcome.avatarUrl, 50);
    EmbedBound(text, outcome.color);
    ArraySize(EmbedTree(text, outcome.color));
    MentionsBound();
    PayloadMembers(PayloadTree(outcome, text).fields);
  }

  lemma PayloadMembers(fs: seq<Field>)
    requires |fs| == 4 && |fs[0].key| <= 8 && |fs[1].key| <= 10 && |fs[2].key| <= 6 && |fs[3].key| <= 16
    requires Size(fs[0].value) <= 122 && Size(fs[1].value) <= 302 && Size(fs[2].value) <= 5_602 && Size(fs[3].value) <= 60
    ensures ValidPayload(Bytes(Obj(fs)))
  {
    MemberBound(fs, 0, 8, 122);
    MemberBound(fs, 1, 10, 302);
    MemberBound(fs, 2, 6, 5_602);
    MemberBound(fs, 3, 16, 60);
    assert fs[0..] == fs && fs[4..] == [];
    ObjectSize(fs);
    EncodeConcat3("{", PrintFields(Canonical, fs), "}");
    Utf8.EncodedLength("{");
  }

  /**
    A digest exists exactly when every report has a row and there is a report or a counter
    to show; the only error is `CannotFit`, so every other exit of `render` is dead.
   */
  lemma RenderExactly(view: DeliveryView)
    requires ViewOk(view)
    ensures Rendered(view).Success? <==>
      && (forall i :: 0 <= i < |view.reports| ==> RowFits(view.reports[i]))
      && (view.reports != [] || view.overflow != NO_OVERFLOW)
    ensures Rendered(view).Failure? ==> Rendered(view).error == CannotFit
  {
    hide MakeRows, Packed, OutcomeOf, PayloadTree, LinesAt, ContentOk, RowFits, SortBy, Join, LongestFit, AttentionLines,
      CompletedLines;
    MakeRowsExactly(view.reports);
    if MakeRows(view.reports).Success? {
      var d := ViewContent(view);
      ViewContentOk(view);
      SummariesOk(view.overflow);
      PackedExactly(d);
      if Packed(d).Success? {
        DigestText(view, d);
      }
    }
  }

  /** The joined text passes every later guard. */
  lemma DigestText(view: DeliveryView, d: Content)
    requires MakeRows(view.reports).Success? && d == ViewContent(view) && ContentOk(d) && Packed(d).Success?
    ensures var lines := LinesAt(d, Packed(d).value);
      && |lines| <= MAX_ROWS && |Join("\n", lines)| <= MAX_FIELD_VALUE_SCALARS
      && Rendered(view) == Success(Bytes(PayloadTree(OutcomeOf(view.overflow, ShownOrder(view)), Join("\n", lines))))
      && ValidPayload(Rendered(view).value)
  {
    hide MakeRows, Packed, LinesAt, ContentOk, SortBy, Join, Bytes, PayloadTree;
    PackedExactly(d);
    var n := Packed(d).value;
    FirstLineMarked(d, n);
    JoinStart(LinesAt(d, n));
    PayloadBound(OutcomeOf(view.overflow, ShownOrder(view)), Join("\n", LinesAt(d, n)));
  }

  /** The colour and the name come from all reports, shown or not. */
  lemma OutcomeCountsEveryReport(view: DeliveryView, k: nat)
    requires ViewOk(view) && MakeRows(view.reports).Success?
    ensures AnyOfSeverity(ShownOrder(view), k) <==>
      exists i :: 0 <= i < |view.reports| && MakeRow(view.reports[i]).Success? && MakeRow(view.reports[i]).value.severity == k
  {
    hide MakeRow, SortBy, MakeRows, RowLe;
    var rows, sorted := MakeRows(view.reports).value, ShownOrder(view);
    MakeRowsExactly(view.reports);
    SortedRows(rows);
    if i :| 0 <= i < |sorted| && sorted[i].severity == k {
      assert sorted[i] in multiset(rows);
      var j :| 0 <= j < |rows| && rows[j] == sorted[i];
      assert MakeRow(view.reports[j]) == Success(rows[j]);
    }
    forall i | 0 <= i < |view.reports| && MakeRow(view.reports[i]).Success? && MakeRow(view.reports[i]).value.severity == k
      ensures AnyOfSeverity(sorted, k)
    {
      assert rows[i] in multiset(sorted);
      var j :| 0 <= j < |sorted| && sorted[j] == rows[i];
    }
  }

  /**
    A digest shows, in severity order, the longest prefix of the rows that the eight-line and
    900-scalar limits allow: attention rows before completed ones, so no attention row is left
    out while a completed one is shown. Each class is followed by the exact number left out.
   */
  lemma DigestShows(view: DeliveryView) returns (n: nat, lines: seq<string>)
    requires ViewOk(view) && Rendered(view).Success?
    ensures MakeRows(view.reports).Success?
    ensures var d, o := ViewContent(view), view.overflow;
      var total := |d.attentionRows|;
      var texts := Texts(ShownOrder(view));
      var a, c := KeptAttention(d, n), KeptCompleted(d, n);
      && |texts| == |view.reports| && n == a + c <= |texts| && (c > 0 ==> a == total)
      && texts == d.attentionRows + d.completedRows
      && lines == AttentionLines(o) + texts[..a] + AttentionMarker(total - a)
           + CompletedLines(o) + texts[total..total + c] + CompletedMarker(|texts| - total - c)
      && |lines| <= MAX_ROWS && |Join("\n", lines)| <= MAX_FIELD_VALUE_SCALARS
      && LongestFit(d, n)
      && Rendered(view) == Success(Bytes(PayloadTree(OutcomeOf(o, ShownOrder(view)), Join("\n", lines))))
      && ValidPayload(Rendered(view).value)
  {
    hide MakeRows, Packed, OutcomeOf, PayloadTree, ContentOk, Join, LongestFit, AttentionLines, CompletedLines, ShownOrder,
      ViewContent, Texts, LinesAt, Rendered, Bytes;
    assert MakeRows(view.reports).Success? && Packed(ViewContent(view)).Success? by {
      RenderedMeansPacked(view);
    }
    var d := ViewContent(view);
    ViewContentOk(view);
    PackedExactly(d);
    DigestText(view, d);
    n := Packed(d).value;
    lines := LinesAt(d, n);
    LinesByTexts(d, n, Texts(ShownOrder(view)));
  }

  lemma RenderedMeansPacked(view: DeliveryView)
    requires Rendered(view).Success?
    ensures MakeRows(view.reports).Success? && Packed(ViewContent(view)).Success?
  {
    hide Packed, SortBy, MakeRows;
  }

  /** The lines, cut from the list of all row texts. */
  lemma LinesByTexts(d: Content, n: nat, texts: seq<string>)
    requires n <= Total(d) && texts == d.attentionRows + d.completedRows
    ensures var total, a, c := |d.attentionRows|, KeptAttention(d, n), KeptCompleted(d, n);
      LinesAt(d, n) == d.attention + texts[..a] + AttentionMarker(total - a)
        + d.completed + texts[total..total + c] + CompletedMarker(|texts| - total - c)
  {
    hide Line;
    var a, c := KeptAttention(d, n), KeptCompleted(d, n);
    assert texts[..a] == d.attentionRows[..a];
    assert texts[|d.attentionRows|..|d.attentionRows| + c] == d.completedRows[..c];
  }
}
