/** Bounding, ordering and splitting the reports of one pass. */
module PassReports {
  import opened Wrappers
  import opened Sorting
  import opened DisplayText
  import opened ReportTypes
  import opened StateSchema
  import opened ReportCodec
  import ReportSizes

  function OptionRank(n: Option<u32>): int {
    if n.Some? then n.value else -1
  }

  /** The comparison tuple of `report_order`, flattened; -1 ends the title. */
  function ReportKey(r: Report): seq<int> {
    [if r.kind.Series? then 0 else 1, r.episodeId, OptionRank(r.season), OptionRank(r.episode)]
      + Codes(r.title) + [-1] + Encoded(r)
  }

  predicate ReportLe(a: Report, b: Report) {
    SeqLe(ReportKey(a), ReportKey(b))
  }

  lemma ReportLeIsOrder()
    ensures TotalPreorder(ReportLe)
  {
    forall a: Report, b: Report
      ensures ReportLe(a, b) || ReportLe(b, a)
    {
      SeqLeTotal(ReportKey(a), ReportKey(b));
    }
    forall a: Report, b: Report, c: Report | ReportLe(a, b) && ReportLe(b, c)
      ensures ReportLe(a, c)
    {
      SeqLeTransitive(ReportKey(a), ReportKey(b), ReportKey(c));
    }
  }

  predicate Skips(size: nat, count: nat, bytes: nat) {
    size > MAX_REPORT_BYTES || count == MAX_PASS_REPORTS || bytes + size > MAX_PASS_REPORT_BYTES
  }

  /** What the bounding loop keeps of the values still ahead, and how many it omits. */
  function Bounded<T>(sizeOf: T -> nat, values: seq<T>, count: nat, bytes: nat): (r: (seq<T>, nat))
    ensures |r.0| + r.1 == |values|
  {
    if values == [] then ([], 0)
    else
      var size := sizeOf(values[0]);
      if Skips(size, count, bytes) then
        var r := Bounded(sizeOf, values[1..], count, bytes);
        (r.0, r.1 + 1)
      else
        var r := Bounded(sizeOf, values[1..], count + 1, bytes + size);
        ([values[0]] + r.0, r.1)
  }

  function EncodedSize(r: Report): nat {
    |Encoded(r)|
  }

  function FromReports(reports: seq<Report>): (seq<Report>, nat) {
    Bounded(EncodedSize, SortBy(ReportLe, reports), 0, 0)
  }

  /** `kept`, `omitted` and `bytes` are the loop's variables when `values` is still ahead. */
  ghost predicate Reaches<T>(sizeOf: T -> nat, values: seq<T>, kept: seq<T>, omitted: nat, bytes: nat, goal: (seq<T>, nat)) {
    var ahead := Bounded(sizeOf, values, |kept|, bytes);
    goal == (kept + ahead.0, omitted + ahead.1)
  }

  lemma {:induction false} BoundedStep<T>(sizeOf: T -> nat, values: seq<T>, i: nat, kept: seq<T>, omitted: nat, bytes: nat,
                                          goal: (seq<T>, nat))
    requires i < |values| && Reaches(sizeOf, values[i..], kept, omitted, bytes, goal)
    ensures var size := sizeOf(values[i]);
      if Skips(size, |kept|, bytes) then Reaches(sizeOf, values[i + 1..], kept, omitted + 1, bytes, goal)
      else Reaches(sizeOf, values[i + 1..], kept + [values[i]], omitted, bytes + size, goal)
  {
    assert values[i..][0] == values[i] && values[i..][1..] == values[i + 1..];
    var size := sizeOf(values[i]);
    if !Skips(size, |kept|, bytes) {
      var next := Bounded(sizeOf, values[i + 1..], |kept| + 1, bytes + size);
      assert kept + ([values[i]] + next.0) == kept + [values[i]] + next.0;
    }
  }

  /** The bounding loop over sorted reports. */
  method BoundSorted(values: seq<Report>) returns (kept: seq<Report>, omitted: nat)
    ensures (kept, omitted) == Bounded(EncodedSize, values, 0, 0)
  {
    hide Encoded;
    kept, omitted := [], 0;
    var bytes: nat := 0;
    var i := 0;
    ghost var goal := Bounded(EncodedSize, values, 0, 0);
    assert values[0..] == values && [] + goal.0 == goal.0;
    while i < |values|
      invariant i <= |values| && Reaches(EncodedSize, values[i..], kept, omitted, bytes, goal)
    {
      BoundedStep(EncodedSize, values, i, kept, omitted, bytes, goal);
      var size := EncodeSize(values[i]);
      if Skips(size, |kept|, bytes) {
        omitted := omitted + 1;
      } else {
        bytes := bytes + size;
        kept := kept + [values[i]];
      }
      i := i + 1;
    }
    assert values[i..] == [] && kept + [] == kept;
  }

  method EncodeSize(r: Report) returns (size: nat)
    ensures size == EncodedSize(r)
  {
    var encoded := EncodeReport(r);
    size := |encoded|;
  }

  /** `BoundedReports::from_reports`. */
  method BoundReports(reports: seq<Report>) returns (kept: seq<Report>, omitted: nat)
    ensures (kept, omitted) == FromReports(reports)
  {
    var values := SortBy(ReportLe, reports);
    kept, omitted := BoundSorted(values);
  }

  lemma {:induction false} BoundedTakesAll<T>(sizeOf: T -> nat, values: seq<T>, count: nat, bytes: nat)
    requires forall i :: 0 <= i < |values| ==> sizeOf(values[i]) <= MAX_REPORT_BYTES
    requires count <= MAX_PASS_REPORTS && bytes <= count * MAX_REPORT_BYTES
    ensures var n := Min(|values|, MAX_PASS_REPORTS - count);
      Bounded(sizeOf, values, count, bytes) == (values[..n], |values| - n)
  {
    if values != [] {
      var size := sizeOf(values[0]);
      if count == MAX_PASS_REPORTS {
        BoundedTakesAll(sizeOf, values[1..], count, bytes);
      } else {
        BoundedTakesAll(sizeOf, values[1..], count + 1, bytes + size);
        var n := Min(|values|, MAX_PASS_REPORTS - count);
        assert [values[0]] + values[1..][..n - 1] == values[..n];
      }
    }
  }

  lemma SortedReports(reports: seq<Report>)
    ensures var sorted := SortBy(ReportLe, reports);
      Sorted(ReportLe, sorted) && multiset(sorted) == multiset(reports) && |sorted| == |reports|
  {
    ReportLeIsOrder();
    SortByIsSort(ReportLe, reports);
  }

  ghost predicate AllConstructed(env: Env, reports: seq<Report>) {
    forall i :: 0 <= i < |reports| ==> Constructed(env, reports[i])
  }

  lemma SortedAreConstructed(env: Env, reports: seq<Report>)
    requires AllConstructed(env, reports)
    ensures AllConstructed(env, SortBy(ReportLe, reports))
  {
    var sorted := SortBy(ReportLe, reports);
    assert multiset(sorted) == multiset(reports) by {
      SortedReports(reports);
    }
    forall i | 0 <= i < |sorted|
      ensures Constructed(env, sorted[i])
    {
      assert sorted[i] in multiset(reports);
    }
  }

  lemma BoundedKeepsFirst(env: Env, values: seq<Report>)
    requires AllConstructed(env, values)
    ensures var n := Min(|values|, MAX_PASS_REPORTS);
      Bounded(EncodedSize, values, 0, 0) == (values[..n], |values| - n)
  {
    forall i | 0 <= i < |values|
      ensures EncodedSize(values[i]) <= MAX_REPORT_BYTES
    {
      ReportSizes.ReportFitsLimit(env, values[i]);
    }
    BoundedTakesAll(EncodedSize, values, 0, 0);
  }

  /**
    Reports from the constructors are only ever omitted for their number: exactly the
    first 128 in report order are kept, and neither byte limit is met.
   */
  lemma FromReportsKeepsFirst(env: Env, reports: seq<Report>)
    requires AllConstructed(env, reports)
    ensures var n := Min(|reports|, MAX_PASS_REPORTS);
      |SortBy(ReportLe, reports)| == |reports| && FromReports(reports) == (SortBy(ReportLe, reports)[..n], |reports| - n)
  {
    assert |SortBy(ReportLe, reports)| == |reports| by {
      SortedReports(reports);
    }
    SortedAreConstructed(env, reports);
    BoundedKeepsFirst(env, SortBy(ReportLe, reports));
  }

  /** What `from_reports` can have returned. */
  ghost predicate BoundedPass(env: Env, reports: seq<Report>) {
    |reports| <= MAX_PASS_REPORTS && Sorted(ReportLe, reports) && AllConstructed(env, reports)
  }

  lemma FromReportsIsBounded(env: Env, reports: seq<Report>)
    requires AllConstructed(env, reports)
    ensures BoundedPass(env, FromReports(reports).0)
    ensures |FromReports(reports).0| + FromReports(reports).1 == |reports|
  {
    FromReportsKeepsFirst(env, reports);
    SortedReports(reports);
    SortedAreConstructed(env, reports);
  }

  predicate NeedsAttention(r: Report) {
    !r.aggregate.Complete?
  }

  predicate IsComplete(r: Report) {
    r.aggregate.Complete?
  }

  /** `partition_reports`: bound each half again, give up if that omits anything. */
  function Partition(reports: seq<Report>): Option<(seq<Report>, seq<Report>)> {
    var (attention, attentionOmitted) := FromReports(Filter(NeedsAttention, reports));
    var (completed, completedOmitted) := FromReports(Filter(IsComplete, reports));
    if attentionOmitted != 0 || completedOmitted != 0 then None else Some((attention, completed))
  }

  lemma BoundedPassIsFixed(env: Env, reports: seq<Report>, keep: Report -> bool)
    requires BoundedPass(env, reports)
    ensures FromReports(Filter(keep, reports)) == (Filter(keep, reports), 0)
  {
    var half := Filter(keep, reports);
    assert SortBy(ReportLe, half) == half by {
      FilterSorted(ReportLe, keep, reports);
      SortedIsFixed(ReportLe, half);
    }
    forall i | 0 <= i < |half|
      ensures Constructed(env, half[i])
    {
      assert half[i] in reports;
    }
    BoundedKeepsFirst(env, half);
    assert half[..|half|] == half;
  }

  /** The split of a bounded pass never fails, loses and duplicates nothing, and keeps the order. */
  lemma PartitionIsTotal(env: Env, reports: seq<Report>)
    requires BoundedPass(env, reports)
    ensures Partition(reports) == Some((Filter(NeedsAttention, reports), Filter(IsComplete, reports)))
    ensures var (attention, completed) := Partition(reports).value;
      multiset(attention) + multiset(completed) == multiset(reports)
  {
    BoundedPassIsFixed(env, reports, NeedsAttention);
    BoundedPassIsFixed(env, reports, IsComplete);
    FilterSplits(NeedsAttention, IsComplete, reports);
  }

  /* ---- Reducing target outcomes to a report ---- */

  /** `reduce_target_outcomes`. */
  function ReduceOutcomes(env: Env, kind: EpisodeKind, episodeId: i64, title: string, season: Option<u32>,
                          episode: Option<u32>, targets: seq<Target>, item: Option<ItemFailure>): Result<Report, ReportError>
  {
    match BoundTargets(targets)
    case Failure(e) => Failure(e)
    case Success(bound) =>
      TryNew(env, kind, episodeId, title, season, episode, bound, item, ExpectedAggregate(bound, item))
  }

  /** With a sanitized title and valid targets the only failures are those of the target list itself. */
  lemma ReduceFailsOnlyOnTargets(env: Env, kind: EpisodeKind, episodeId: i64, raw: string, title: string,
                                 season: Option<u32>, episode: Option<u32>, targets: seq<Target>, item: Option<ItemFailure>)
    requires Sanitized(env.unicode, raw) == Success(title)
    requires forall i :: 0 <= i < |targets| ==> ValidTarget(targets[i])
    ensures var r := ReduceOutcomes(env, kind, episodeId, title, season, episode, targets, item);
      && (r.Success? <==> BoundTargets(targets).Success?)
      && (r.Success? ==> Identified(env, r.value) && multiset(r.value.targets) == multiset(targets))
  {
    BoundTargetsIsValid(targets);
    if BoundTargets(targets).Success? {
      var ts := BoundTargets(targets).value;
      assert ReduceOutcomes(env, kind, episodeId, title, season, episode, targets, item)
          == TryNew(env, kind, episodeId, title, season, episode, ts, item, ExpectedAggregate(ts, item));
      TryNewSucceeds(env, kind, episodeId, raw, title, season, episode, ts, item);
    }
  }

  lemma TryNewSucceeds(env: Env, kind: EpisodeKind, id: i64, raw: string, title: string, season: Option<u32>,
                       episode: Option<u32>, ts: seq<Target>, item: Option<ItemFailure>)
    requires Sanitized(env.unicode, raw) == Success(title) && ValidTargets(ts)
    ensures var r := TryNew(env, kind, id, title, season, episode, ts, item, ExpectedAggregate(ts, item));
      r.Success? && Identified(env, r.value) && r.value.targets == ts
  {
    hide Encoded, ExpectedAggregate, Sanitized, CommitIdOf, CompletedCount, NeighboursDiffer, Sorted, ValidTarget, Identified;
    var bare := Report(kind, id, title, season, episode, ts, item, ExpectedAggregate(ts, item), None);
    ReportSizes.ReportFitsLimit(env, bare);
    TryNewIsIdentified(env, kind, id, title, season, episode, ts, item, ExpectedAggregate(ts, item), raw);
  }
}
