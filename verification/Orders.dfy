/** The orders the program sorts by, said of the things it sorts. */
module Orders {
  import opened Wrappers
  import opened Sorting
  import opened ReportTypes
  import opened StateSchema
  import opened ReportCodec
  import opened PassReports

  /* ---- Texts ---- */

  /** The first is a beginning of the second, or smaller where they first differ. */
  predicate Before(a: seq<int>, b: seq<int>) {
    exists k :: 0 <= k <= |a| && k <= |b| && a[..k] == b[..k] && (k == |a| || (k < |b| && a[k] < b[k]))
  }

  /** The same for texts, by their scalars. */
  predicate TextBefore(a: string, b: string) {
    exists k :: 0 <= k <= |a| && k <= |b| && a[..k] == b[..k] && (k == |a| || (k < |b| && a[k] < b[k]))
  }

  lemma {:induction false} SeqLeExactly(a: seq<int>, b: seq<int>)
    ensures SeqLe(a, b) <==> Before(a, b)
    decreases |a|
  {
    if a == [] {
      assert a[..0] == b[..0];
    } else if b != [] && a[0] == b[0] {
      SeqLeExactly(a[1..], b[1..]);
      if k :| 0 <= k <= |a[1..]| && k <= |b[1..]| && a[1..][..k] == b[1..][..k]
              && (k == |a[1..]| || (k < |b[1..]| && a[1..][k] < b[1..][k])) {
        assert a[..k + 1] == [a[0]] + a[1..][..k] && b[..k + 1] == [b[0]] + b[1..][..k];
      }
      if k :| 0 <= k <= |a| && k <= |b| && a[..k] == b[..k] && (k == |a| || (k < |b| && a[k] < b[k])) {
        assert k > 0;
        assert a[1..][..k - 1] == a[..k][1..] && b[1..][..k - 1] == b[..k][1..];
      }
    } else if b != [] {
      assert a[..0] == b[..0];
      forall k | 1 <= k <= |a| && k <= |b|
        ensures a[..k] != b[..k]
      {
        assert a[..k][0] != b[..k][0];
      }
    }
  }

  lemma TextLeExactly(a: string, b: string)
    ensures SeqLe(Codes(a), Codes(b)) <==> TextBefore(a, b)
  {
    SeqLeExactly(Codes(a), Codes(b));
    forall k | 0 <= k <= |a| && k <= |b|
      ensures Codes(a)[..k] == Codes(b)[..k] <==> a[..k] == b[..k]
    {
      SamePrefixes(a, b, k);
    }
  }

  lemma SamePrefixes(a: string, b: string, k: nat)
    requires k <= |a| && k <= |b|
    ensures Codes(a)[..k] == Codes(b)[..k] <==> a[..k] == b[..k]
  {
    if Codes(a)[..k] == Codes(b)[..k] {
      forall i | 0 <= i < k
        ensures a[..k][i] == b[..k][i]
      {
        assert Codes(a)[..k][i] == Codes(b)[..k][i];
      }
    }
    if a[..k] == b[..k] {
      forall i | 0 <= i < k
        ensures Codes(a)[..k][i] == Codes(b)[..k][i]
      {
        assert a[..k][i] == b[..k][i];
      }
    }
  }

  /* ---- Targets ---- */

  /** Failed or without language before completed with a warning, and that before completed without one. */
  function Rank(status: TargetStatus): nat {
    match status
    case Failed(_) => 0
    case MissingLanguage => 0
    case Completed(Some(_)) => 1
    case Completed(None) => 2
  }

  /** An accepted target list has the worst outcomes first, and each rank by language. */
  lemma TargetsInOrder(values: seq<Target>, i: nat, j: nat)
    requires BoundTargets(values).Success? && i < j < |BoundTargets(values).value|
    ensures var ts := BoundTargets(values).value;
      Rank(ts[i].status) < Rank(ts[j].status) || (Rank(ts[i].status) == Rank(ts[j].status) && TextBefore(ts[i].language, ts[j].language))
  {
    var ts := BoundTargets(values).value;
    TargetLeIsOrder();
    SortByIsSort(TargetLe, values);
    assert TargetLe(ts[i], ts[j]);
    TextLeExactly(ts[i].language, ts[j].language);
  }

  /**
    A target list is accepted exactly when it has 1 to 32 entries and, in that order, no two neighbours of the same language.
   */
  lemma BoundTargetsExactly(values: seq<Target>)
    ensures BoundTargets(values).Success? <==>
      1 <= |values| <= 32 && forall i :: 0 < i < |SortBy(TargetLe, values)| ==>
        SortBy(TargetLe, values)[i - 1].language != SortBy(TargetLe, values)[i].language
    ensures BoundTargets(values).Failure? ==>
      BoundTargets(values).error == if 1 <= |values| <= 32 then InvalidLanguage else TooManyTargets
  {
  }

  /**
    What the targets and the item failure of a report add up to: complete if all are done and nothing warns; complete with a
    warning if all are done; partial if some are; failed if none is.
   */
  lemma AggregateExactly(ts: seq<Target>, item: Option<ItemFailure>)
    ensures var all := (forall i :: 0 <= i < |ts| ==> ts[i].status.Completed?) && item == None;
      var some := exists i :: 0 <= i < |ts| && ts[i].status.Completed?;
      var warned := exists i :: 0 <= i < |ts| && Rank(ts[i].status) == 1;
      ExpectedAggregate(ts, item) ==
        if all && !warned then Complete else if all then CompleteWithWarning else if some then Partial else AllFailed
  {
    AllDone(ts);
    SomeDone(ts);
    if AnyWarning(ts) {
      var i :| 0 <= i < |ts| && ts[i].status.Completed? && ts[i].status.warning.Some?;
      assert Rank(ts[i].status) == 1;
    }
  }

  lemma {:induction false} AllDone(ts: seq<Target>)
    ensures CompletedCount(ts) == |ts| <==> forall i :: 0 <= i < |ts| ==> ts[i].status.Completed?
  {
    if ts != [] {
      AllDone(ts[1..]);
      assert forall i :: 0 < i < |ts| ==> ts[i] == ts[1..][i - 1];
      assert forall i :: 0 <= i < |ts[1..]| ==> ts[1..][i] == ts[i + 1];
    }
  }

  lemma {:induction false} SomeDone(ts: seq<Target>)
    ensures CompletedCount(ts) > 0 <==> exists i :: 0 <= i < |ts| && ts[i].status.Completed?
  {
    if ts != [] {
      SomeDone(ts[1..]);
      assert forall i :: 0 < i < |ts| ==> ts[i] == ts[1..][i - 1];
      assert forall i :: 0 <= i < |ts[1..]| ==> ts[1..][i] == ts[i + 1];
    }
  }

  /* ---- Reports ---- */

  /** A number comes after none. */
  predicate NumberBefore(a: Option<u32>, b: Option<u32>) {
    a == None || (b.Some? && a.value < b.value)
  }

  /** Series before films, then by item, season, episode, title and bytes; the first that differs decides. */
  predicate ReportBefore(a: Report, b: Report) {
    if a.kind != b.kind then a.kind == Series
    else if a.episodeId != b.episodeId then a.episodeId < b.episodeId
    else if a.season != b.season then NumberBefore(a.season, b.season)
    else if a.episode != b.episode then NumberBefore(a.episode, b.episode)
    else if a.title != b.title then TextBefore(a.title, b.title)
    else Before(Encoded(a), Encoded(b))
  }

  lemma ConsLe(x: int, s: seq<int>, y: int, t: seq<int>)
    ensures SeqLe([x] + s, [y] + t) <==> x < y || (x == y && SeqLe(s, t))
  {
    assert ([x] + s)[1..] == s && ([y] + t)[1..] == t;
  }

  /** A text, its end mark, and what follows. */
  function Marked(a: string, p: seq<int>): seq<int> {
    Codes(a) + [-1] + p
  }

  lemma MarkedCons(a: string, p: seq<int>)
    ensures a == "" ==> Marked(a, p) == [-1] + p && Codes(a) == []
    ensures a != "" ==> Marked(a, p) == [a[0] as int] + Marked(a[1..], p) && Codes(a) == [a[0] as int] + Codes(a[1..])
  {
  }

  lemma EmptyLe(s: seq<int>)
    ensures SeqLe([], s) && (SeqLe(s, []) <==> s == [])
  {
  }

  lemma HeadTail(a: string, b: string)
    requires a != "" && b != ""
    ensures a == b <==> a[0] == b[0] && a[1..] == b[1..]
  {
    assert a == [a[0]] + a[1..] && b == [b[0]] + b[1..];
  }

  /** Behind a text and its end mark only equal texts let what follows decide. */
  lemma {:induction false} MarkedLe(a: string, p: seq<int>, b: string, q: seq<int>)
    ensures SeqLe(Marked(a, p), Marked(b, q)) <==> if a == b then SeqLe(p, q) else SeqLe(Codes(a), Codes(b))
    decreases |a|
  {
    hide SeqLe, Codes, Marked;
    MarkedCons(a, p);
    MarkedCons(b, q);
    EmptyLe(Codes(a));
    EmptyLe(Codes(b));
    if a == "" && b == "" {
      ConsLe(-1, p, -1, q);
    } else if a == "" {
      ConsLe(-1, p, b[0] as int, Marked(b[1..], q));
    } else if b == "" {
      ConsLe(a[0] as int, Marked(a[1..], p), -1, q);
    } else {
      ConsLe(a[0] as int, Marked(a[1..], p), b[0] as int, Marked(b[1..], q));
      ConsLe(a[0] as int, Codes(a[1..]), b[0] as int, Codes(b[1..]));
      MarkedLe(a[1..], p, b[1..], q);
      HeadTail(a, b);
    }
  }

  lemma FourFirst(k: int, l: int, m: int, n: int, s: seq<int>, k': int, l': int, m': int, n': int, t: seq<int>)
    ensures SeqLe([k, l, m, n] + s, [k', l', m', n'] + t) <==>
      k < k' || (k == k' && (l < l' || (l == l' && (m < m' || (m == m' && (n < n' || (n == n' && SeqLe(s, t))))))))
  {
    assert [k, l, m, n] + s == [k] + ([l] + ([m] + ([n] + s))) && [k', l', m', n'] + t == [k'] + ([l'] + ([m'] + ([n'] + t)));
    ConsLe(k, [l] + ([m] + ([n] + s)), k', [l'] + ([m'] + ([n'] + t)));
    ConsLe(l, [m] + ([n] + s), l', [m'] + ([n'] + t));
    ConsLe(m, [n] + s, m', [n'] + t);
    ConsLe(n, s, n', t);
  }

  lemma ReportLeExactly(a: Report, b: Report)
    ensures ReportLe(a, b) <==> ReportBefore(a, b)
  {
    hide Encoded, SeqLe, Codes;
    var p, q := Marked(a.title, Encoded(a)), Marked(b.title, Encoded(b));
    var k, k' := if a.kind.Series? then 0 else 1, if b.kind.Series? then 0 else 1;
    assert ReportKey(a) == [k, a.episodeId, OptionRank(a.season), OptionRank(a.episode)] + p;
    assert ReportKey(b) == [k', b.episodeId, OptionRank(b.season), OptionRank(b.episode)] + q;
    FourFirst(k, a.episodeId, OptionRank(a.season), OptionRank(a.episode), p, k', b.episodeId, OptionRank(b.season), OptionRank(b.episode), q);
    MarkedLe(a.title, Encoded(a), b.title, Encoded(b));
    TextLeExactly(a.title, b.title);
    SeqLeExactly(Encoded(a), Encoded(b));
  }

  /** What is kept of the reports of a pass is in that order, and nothing left out comes before anything kept. */
  lemma KeptInOrder(env: Env, reports: seq<Report>)
    requires AllConstructed(env, reports)
    ensures var kept := FromReports(reports).0;
      && (forall i, j :: 0 <= i < j < |kept| ==> ReportBefore(kept[i], kept[j]))
      && |kept| == Min(|reports|, 128) && multiset(kept) <= multiset(reports)
      && forall r, i :: 0 <= i < |kept| && r in multiset(reports) - multiset(kept) ==> ReportBefore(kept[i], r)
  {
    hide Encoded, ReportLe, ReportBefore, Constructed, FromReports, SortBy;
    FromReportsKeepsFirst(env, reports);
    SortedReports(reports);
    var sorted, kept := SortBy(ReportLe, reports), FromReports(reports).0;
    forall i, j | 0 <= i < j < |sorted|
      ensures ReportBefore(sorted[i], sorted[j])
    {
      ReportLeExactly(sorted[i], sorted[j]);
    }
    var left := sorted[|kept|..];
    assert sorted == kept + left;
    assert multiset(reports) == multiset(kept) + multiset(left);
    forall r, i | 0 <= i < |kept| && r in multiset(reports) - multiset(kept)
      ensures ReportBefore(kept[i], r)
    {
      assert r in multiset(left);
      var j :| 0 <= j < |left| && left[j] == r;
      assert sorted[|kept| + j] == r && sorted[i] == kept[i];
    }
  }
}
