/** One pass of the notifier: attention before completed, each in its own digest. */
module Notifier {
  import opened Wrappers
  import opened Sorting
  import opened ReportTypes
  import opened StateSchema
  import opened ReportCodec
  import opened PassReports
  import opened DigestRows
  import opened Digest
  import opened DigestTheorems

  function AttentionView(attention: seq<Report>, omitted: u64): DeliveryView {
    DeliveryView(0, NO_OVERFLOW.(preAdmissionDrops := omitted), attention)
  }

  function CompletedView(completed: seq<Report>): DeliveryView {
    DeliveryView(0, NO_OVERFLOW, completed)
  }

  /** The views of a pass, in the order they are delivered. */
  function Views(reports: seq<Report>, omitted: u64): seq<DeliveryView> {
    match Partition(reports)
    case None => []
    case Some((attention, completed)) =>
      (if attention != [] || omitted > 0 then [AttentionView(attention, omitted)] else [])
      + (if completed != [] then [CompletedView(completed)] else [])
  }

  /** Payloads handed to the transport; a view that does not render is skipped. */
  function Sent(views: seq<DeliveryView>): seq<seq<byte>> {
    if views == [] then []
    else (if Rendered(views[0]).Success? then [Rendered(views[0]).value] else []) + Sent(views[1..])
  }

  /** One round of the worker. */
  method HandlePass(reports: seq<Report>, omitted: u64) returns (sent: seq<seq<byte>>)
    ensures sent == Sent(Views(reports, omitted))
  {
    hide Partition, Rendered;
    sent := [];
    if |reports| == 0 && omitted == 0 {
      NothingToPartition();
      return;
    }
    var parts := Partition(reports);
    if parts.None? {
      return;
    }
    var (attention, completed) := parts.value;
    ghost var views: seq<DeliveryView> := [];
    if |attention| > 0 || omitted > 0 {
      var payload := Render(AttentionView(attention, omitted));
      if payload.Success? {
        sent := sent + [payload.value];
      }
      views := [AttentionView(attention, omitted)];
      assert views[1..] == [];
    }
    if |completed| > 0 {
      var payload := Render(CompletedView(completed));
      SentSnoc(views, CompletedView(completed));
      if payload.Success? {
        sent := sent + [payload.value];
      }
      views := views + [CompletedView(completed)];
    }
    assert views == Views(reports, omitted);
  }

  lemma NothingToPartition()
    ensures Views([], 0) == []
  {
    assert SortBy(ReportLe, []) == [];
  }

  lemma {:induction false} SentSnoc(views: seq<DeliveryView>, v: DeliveryView)
    ensures Sent(views + [v]) == Sent(views) + (if Rendered(v).Success? then [Rendered(v).value] else [])
  {
    hide Rendered;
    if views == [] {
      assert [v][1..] == [];
    } else {
      assert (views + [v])[1..] == views[1..] + [v];
      SentSnoc(views[1..], v);
    }
  }

  /* ---- What a pass delivers ---- */

  lemma {:induction false} AllCompleted(ts: seq<Target>)
    ensures CompletedCount(ts) == |ts| <==> forall i :: 0 <= i < |ts| ==> ts[i].status.Completed?
  {
    if ts != [] {
      AllCompleted(ts[1..]);
      assert forall i :: 0 < i < |ts| ==> ts[i] == ts[1..][i - 1];
      assert forall i :: 0 <= i < |ts[1..]| ==> ts[1..][i] == ts[i + 1];
    }
  }

  /** A constructed report is complete exactly when nothing in it is worse than a clean target. */
  lemma CompleteMeansClean(env: Env, r: Report)
    requires Constructed(env, r)
    ensures IsComplete(r) <==> PlainSeverity(r) == 2
  {
    AllCompleted(r.targets);
    var worst := WorstSeverity(r.targets);
    if worst < 2 {
      var i :| 0 <= i < |r.targets| && worst == Severity(r.targets[i].status);
    }
  }

  /** A title too long for its row beside more than six targets. */
  predicate Cramped(r: Report) {
    OmittedTargets(r.targets) > 0 && !TitleFits(r)
  }

  lemma PartsAreConstructed(env: Env, reports: seq<Report>, keep: Report -> bool)
    requires BoundedPass(env, reports)
    ensures var part := Filter(keep, reports);
      && |part| <= MAX_PASS_REPORTS && AllConstructed(env, part)
      && forall i :: 0 <= i < |part| ==> keep(part[i]) && part[i].targets != []
  {
    var part := Filter(keep, reports);
    forall i | 0 <= i < |part|
      ensures keep(part[i]) && Constructed(env, part[i])
    {
      assert part[i] in reports;
    }
  }

  /**
    A pass yields at most two digests, attention first. Every report is in exactly one of them,
    each has something to show, and each is delivered exactly when its own reports have rows: a
    report whose row cannot be made costs the digest of its class, never the other one.
   */
  lemma PassIsSplit(env: Env, reports: seq<Report>, omitted: u64)
    requires BoundedPass(env, reports)
    ensures var attention, completed := Filter(NeedsAttention, reports), Filter(IsComplete, reports);
      && multiset(attention) + multiset(completed) == multiset(reports)
      && Views(reports, omitted) ==
           (if attention != [] || omitted > 0 then [AttentionView(attention, omitted)] else [])
           + (if completed != [] then [CompletedView(completed)] else [])
      && forall i :: 0 <= i < |Views(reports, omitted)| ==>
           var view := Views(reports, omitted)[i];
           Rendered(view).Success? <==> forall j :: 0 <= j < |view.reports| ==> RowFits(view.reports[j])
  {
    hide Rendered, RowFits, Constructed;
    PartitionIsTotal(env, reports);
    PartsAreConstructed(env, reports, NeedsAttention);
    PartsAreConstructed(env, reports, IsComplete);
    forall i | 0 <= i < |Views(reports, omitted)|
      ensures var view := Views(reports, omitted)[i];
        Rendered(view).Success? <==> forall j :: 0 <= j < |view.reports| ==> RowFits(view.reports[j])
    {
      RenderExactly(Views(reports, omitted)[i]);
    }
  }

  /** What the two views are: the attention view carries the number of omitted reports and no other counter, and neither names a state. */
  lemma ViewsExactly(reports: seq<Report>, omitted: u64)
    ensures AttentionView(reports, omitted) == DeliveryView(0, OverflowSummary(0, 0, 0, 0, omitted, 0), reports)
    ensures CompletedView(reports) == DeliveryView(0, OverflowSummary(0, 0, 0, 0, 0, 0), reports)
  {
  }

  /** Reports shown in the views, and those their counters mention. */
  function Accounted(views: seq<DeliveryView>): nat {
    if views == [] then 0
    else |views[0].reports| + views[0].overflow.preAdmissionDrops + Accounted(views[1..])
  }

  /**
    From the raw reports of a pass to its digests: the first 128 in report order are split over the
    two views, the rest are counted in the attention view, and neither is ever lost in between.
   */
  lemma RawPassIsSplit(env: Env, raw: seq<Report>)
    requires AllConstructed(env, raw) && |raw| < U64_LIMIT
    ensures var (reports, omitted) := FromReports(raw);
      var attention, completed := Filter(NeedsAttention, reports), Filter(IsComplete, reports);
      && |SortBy(ReportLe, raw)| == |raw| && reports == SortBy(ReportLe, raw)[..Min(|raw|, MAX_PASS_REPORTS)]
      && omitted == |raw| - |reports| && Accounted(Views(reports, omitted)) == |raw|
      && Views(reports, omitted) ==
           (if attention != [] || omitted > 0 then [AttentionView(attention, omitted)] else [])
           + (if completed != [] then [CompletedView(completed)] else [])
      && multiset(attention) + multiset(completed) == multiset(reports)
      && forall i :: 0 <= i < |Views(reports, omitted)| ==>
           var view := Views(reports, omitted)[i];
           Rendered(view).Success? <==> forall j :: 0 <= j < |view.reports| ==> RowFits(view.reports[j])
  {
    hide Rendered, RowFits, Constructed, Partition, FromReports, SortBy;
    FromReportsIsBounded(env, raw);
    FromReportsKeepsFirst(env, raw);
    var (reports, omitted) := FromReports(raw);
    PassIsSplit(env, reports, omitted);
    AccountedSplit(Filter(NeedsAttention, reports), Filter(IsComplete, reports), omitted);
    SplitSizes(reports, Filter(NeedsAttention, reports), Filter(IsComplete, reports));
  }

  lemma SplitSizes(all: seq<Report>, a: seq<Report>, b: seq<Report>)
    requires multiset(a) + multiset(b) == multiset(all)
    ensures |a| + |b| == |all|
  {
    assert |multiset(a)| == |a| && |multiset(b)| == |b| && |multiset(all)| == |all|;
  }

  lemma AccountedSplit(attention: seq<Report>, completed: seq<Report>, omitted: u64)
    ensures Accounted((if attention != [] || omitted > 0 then [AttentionView(attention, omitted)] else [])
                      + (if completed != [] then [CompletedView(completed)] else []))
         == |attention| + |completed| + omitted
  {
    var a := if attention != [] || omitted > 0 then [AttentionView(attention, omitted)] else [];
    var c := if completed != [] then [CompletedView(completed)] else [];
    AccountedConcat(a, c);
    if a != [] {
      assert a[1..] == [];
    }
    if c != [] {
      assert c[1..] == [];
    }
  }

  lemma {:induction false} AccountedConcat(a: seq<DeliveryView>, b: seq<DeliveryView>)
    ensures Accounted(a + b) == Accounted(a) + Accounted(b)
  {
    if a == [] {
      assert a + b == b;
    } else {
      assert (a + b)[1..] == a[1..] + b;
      AccountedConcat(a[1..], b);
    }
  }

  /** Anything to attend to, among the rows or the counters, keeps the outcome from being complete. */
  lemma UncleanOutcome(o: OverflowSummary, rows: seq<Row>, k: nat)
    requires o.preAdmissionDrops > 0 || (k < 2 && AnyOfSeverity(rows, k))
    ensures OutcomeOf(o, rows).color != COMPLETE.color
  {
  }

  /** The attention digest is never shown as complete. */
  lemma AttentionNeverLooksComplete(env: Env, attention: seq<Report>, omitted: u64)
    requires |attention| <= MAX_PASS_REPORTS && AllConstructed(env, attention)
    requires forall i :: 0 <= i < |attention| ==> NeedsAttention(attention[i])
    requires attention != [] || omitted > 0
    requires ViewOk(AttentionView(attention, omitted)) && MakeRows(attention).Success?
    ensures var view := AttentionView(attention, omitted); OutcomeOf(view.overflow, ShownOrder(view)).color != COMPLETE.color
  {
    hide Constructed, MakeRows, MakeRow, PlainSeverity, ShownOrder, OutcomeOf, AnyOfSeverity, OmittedTargets, TitleFits;
    var view := AttentionView(attention, omitted);
    if omitted > 0 {
      UncleanOutcome(view.overflow, ShownOrder(view), 0);
    } else {
      MakeRowsExactly(attention);
      RowSeverity(attention[0]);
      CompleteMeansClean(env, attention[0]);
      var k := MakeRow(attention[0]).value.severity;
      OutcomeCountsEveryReport(view, k);
      UncleanOutcome(view.overflow, ShownOrder(view), k);
    }
  }

  /**
    The completed digest is shown as complete exactly when none of its reports is cramped; one
    that is turns the whole digest to attention although nothing failed.
   */
  lemma CompletedLooksComplete(env: Env, completed: seq<Report>)
    requires |completed| <= MAX_PASS_REPORTS && AllConstructed(env, completed)
    requires forall i :: 0 <= i < |completed| ==> IsComplete(completed[i])
    requires ViewOk(CompletedView(completed)) && MakeRows(completed).Success?
    ensures var view := CompletedView(completed);
      OutcomeOf(view.overflow, ShownOrder(view)) ==
        if exists i :: 0 <= i < |completed| && Cramped(completed[i]) then ATTENTION else COMPLETE
  {
    hide Constructed, MakeRows, MakeRow, PlainSeverity, ShownOrder, TitleFits;
    var view := CompletedView(completed);
    MakeRowsExactly(completed);
    OutcomeCountsEveryReport(view, 0);
    OutcomeCountsEveryReport(view, 1);
    forall i | 0 <= i < |completed|
      ensures MakeRow(completed[i]).Success?
      ensures MakeRow(completed[i]).value.severity == if Cramped(completed[i]) then 0 else 2
    {
      RowSeverity(completed[i]);
      CompleteMeansClean(env, completed[i]);
    }
  }
}
