/** What the queue loops of the outbox do to the reports and their ids. */
module LaneQueues {
  import opened Wrappers
  import opened ReportTypes
  import opened StateSchema
  import opened LaneSpec

  predicate Distinct(ids: seq<string>) {
    forall i, j :: 0 <= i < j < |ids| ==> ids[i] != ids[j]
  }

  /** Every report carries an id. */
  predicate AllNamed(rs: seq<Report>) {
    forall i :: 0 <= i < |rs| ==> rs[i].commitId.Some?
  }

  lemma {:induction false} IdsConcat(a: seq<Report>, b: seq<Report>)
    ensures Ids(a + b) == Ids(a) + Ids(b)
  {
    if a == [] {
      assert a + b == b;
    } else {
      assert (a + b)[0] == a[0] && (a + b)[1..] == a[1..] + b;
      IdsConcat(a[1..], b);
      var first := if a[0].commitId.Some? then [a[0].commitId.value] else [];
      assert first + (Ids(a[1..]) + Ids(b)) == first + Ids(a[1..]) + Ids(b);
    }
  }

  lemma {:induction false} IdsOfNamed(rs: seq<Report>)
    requires AllNamed(rs)
    ensures |Ids(rs)| == |rs|
    ensures forall i :: 0 <= i < |rs| ==> Ids(rs)[i] == rs[i].commitId.value
  {
    if rs != [] {
      IdsOfNamed(rs[1..]);
      assert forall i :: 0 < i < |rs| ==> rs[1..][i - 1] == rs[i];
    }
  }

  lemma {:induction false} HasIdIffListed(rs: seq<Report>, id: string)
    ensures HasId(rs, Some(id)) <==> id in Ids(rs)
  {
    if rs != [] {
      HasIdIffListed(rs[1..], id);
      if HasId(rs[1..], Some(id)) {
        var i :| 0 <= i < |rs[1..]| && rs[1..][i].commitId == Some(id);
        assert rs[i + 1].commitId == Some(id);
      }
    }
  }

  /** Bounds and distinctness of the two queues. */
  predicate QueuesOk(reports: seq<Report>, blocked: seq<Report>) {
    Distinct(Ids(reports)) && |reports| <= MAX_REPORTS && |blocked| <= MAX_BLOCKED
  }

  lemma AppendKeepsDistinct(rs: seq<Report>, r: Report)
    requires Distinct(Ids(rs)) && r.commitId.Some? && !HasId(rs, r.commitId)
    ensures Distinct(Ids(rs + [r])) && Ids(rs + [r]) == Ids(rs) + [r.commitId.value]
  {
    IdsConcat(rs, [r]);
    HasIdIffListed(rs, r.commitId.value);
    assert Ids([r]) == [r.commitId.value];
  }

  /**
    Enqueueing only appends, never to a full queue nor an id `reports` already has,
    and without an error every id of the batch is somewhere afterwards.
   */
  lemma {:induction false} PushAllAppends(reports: seq<Report>, blocked: seq<Report>, batch: seq<Report>)
    ensures var q := PushAll(reports, blocked, batch);
      && reports <= q.reports && blocked <= q.blocked
      && (QueuesOk(reports, blocked) ==> QueuesOk(q.reports, q.blocked))
      && (forall r :: r in q.reports + q.blocked ==> r in reports + blocked || (r in batch && r.commitId.Some?))
      && (q.error.None? ==> forall r :: r in batch ==> r.commitId.Some? && (HasId(q.reports, r.commitId) || r in q.blocked))
    decreases |batch|
  {
    if batch != [] && batch[0].commitId.Some? {
      var r, rest := batch[0], batch[1..];
      var q := PushAll(reports, blocked, batch);
      assert batch == [r] + rest;
      if HasId(reports, r.commitId) {
        PushAllAppends(reports, blocked, rest);
        HasIdInExtension(reports, q.reports, r.commitId);
      } else if |reports| < MAX_REPORTS {
        if QueuesOk(reports, blocked) {
          AppendKeepsDistinct(reports, r);
        }
        PushAllAppends(reports + [r], blocked, rest);
        assert (reports + [r])[|reports|] == r;
        HasIdInExtension(reports + [r], q.reports, r.commitId);
      } else if |blocked| < MAX_BLOCKED {
        PushAllAppends(reports, blocked + [r], rest);
        assert (blocked + [r])[|blocked|] == r && r in q.blocked;
      }
    }
  }

  lemma HasIdInExtension(a: seq<Report>, b: seq<Report>, id: Option<string>)
    requires a <= b && HasId(a, id)
    ensures HasId(b, id)
  {
    var i :| 0 <= i < |a| && a[i].commitId == id;
    assert b[i].commitId == id;
  }

  /** A batch of new reports, cut where the queue and then the blocked list are full. */
  function Filled(reports: seq<Report>, blocked: seq<Report>, batch: seq<Report>): Queues
    requires |reports| <= MAX_REPORTS && |blocked| <= MAX_BLOCKED
  {
    var room, free := MAX_REPORTS - |reports|, MAX_BLOCKED - |blocked|;
    if |batch| <= room then Queues(reports + batch, blocked, None)
    else if |batch| <= room + free then Queues(reports + batch[..room], blocked + batch[room..], None)
    else Queues(reports + batch[..room], blocked + batch[room..room + free], Some(Capacity))
  }

  lemma FilledStep(reports: seq<Report>, blocked: seq<Report>, batch: seq<Report>)
    requires |reports| <= MAX_REPORTS && |blocked| <= MAX_BLOCKED && batch != []
    ensures |reports| < MAX_REPORTS ==> Filled(reports + [batch[0]], blocked, batch[1..]) == Filled(reports, blocked, batch)
    ensures |reports| == MAX_REPORTS && |blocked| < MAX_BLOCKED ==>
      Filled(reports, blocked + [batch[0]], batch[1..]) == Filled(reports, blocked, batch)
  {
    var room, free := MAX_REPORTS - |reports|, MAX_BLOCKED - |blocked|;
    var rest := batch[1..];
    assert [batch[0]] + rest == batch;
    if |reports| < MAX_REPORTS {
      assert reports + [batch[0]] + rest == reports + batch;
      if |batch| > room {
        assert reports + [batch[0]] + rest[..room - 1] == reports + batch[..room];
        assert rest[room - 1..] == batch[room..];
        if |batch| > room + free {
          assert rest[room - 1..room - 1 + free] == batch[room..room + free];
        }
      }
    } else if |blocked| < MAX_BLOCKED {
      assert batch[..0] == [] && rest[..0] == [];
      assert blocked + [batch[0]] + rest[0..] == blocked + batch[0..];
      if |batch| > free {
        assert blocked + [batch[0]] + rest[0..free - 1] == blocked + batch[0..free];
      }
      if rest == [] {
        assert reports + rest == reports + batch[..0];
      }
    }
  }

  /** Enqueueing a batch of new reports fills the queue in order, then the blocked list, and then fails. */
  lemma {:induction false} PushAllFills(reports: seq<Report>, blocked: seq<Report>, batch: seq<Report>)
    requires |reports| <= MAX_REPORTS && |blocked| <= MAX_BLOCKED
    requires AllNamed(reports) && AllNamed(batch) && Distinct(Ids(reports + batch))
    ensures PushAll(reports, blocked, batch) == Filled(reports, blocked, batch)
    decreases |batch|
  {
    hide Ids, Filled;
    if batch == [] {
      FilledNothing(reports, blocked);
    } else {
      var r, rest := batch[0], batch[1..];
      FirstIsNew(reports, batch);
      FilledStep(reports, blocked, batch);
      if |reports| < MAX_REPORTS {
        assert reports + [r] + rest == reports + batch;
        PushAllFills(reports + [r], blocked, rest);
      } else if |blocked| < MAX_BLOCKED {
        WithoutFirst(reports, batch);
        PushAllFills(reports, blocked + [r], rest);
      } else {
        FilledFails(reports, blocked, batch);
      }
    }
  }

  lemma FilledNothing(reports: seq<Report>, blocked: seq<Report>)
    requires |reports| <= MAX_REPORTS && |blocked| <= MAX_BLOCKED
    ensures Filled(reports, blocked, []) == Queues(reports, blocked, None)
  {
    assert reports + [] == reports;
  }

  lemma FilledFails(reports: seq<Report>, blocked: seq<Report>, batch: seq<Report>)
    requires |reports| == MAX_REPORTS && |blocked| == MAX_BLOCKED && batch != []
    ensures Filled(reports, blocked, batch) == Queues(reports, blocked, Some(Capacity))
  {
    assert reports + batch[..0] == reports && blocked + batch[0..0] == blocked;
  }

  lemma FirstIsNew(reports: seq<Report>, batch: seq<Report>)
    requires AllNamed(reports) && AllNamed(batch) && batch != [] && Distinct(Ids(reports + batch))
    ensures !HasId(reports, batch[0].commitId)
  {
    hide Ids;
    var all := reports + batch;
    assert AllNamed(all);
    IdsOfNamed(all);
    forall i | 0 <= i < |reports|
      ensures reports[i].commitId != batch[0].commitId
    {
      assert all[i] == reports[i] && all[|reports|] == batch[0];
      assert Ids(all)[i] != Ids(all)[|reports|];
    }
  }

  lemma WithoutFirst(reports: seq<Report>, batch: seq<Report>)
    requires AllNamed(reports) && AllNamed(batch) && batch != [] && Distinct(Ids(reports + batch))
    ensures Distinct(Ids(reports + batch[1..]))
  {
    hide Ids;
    var all, less := reports + batch, reports + batch[1..];
    assert AllNamed(all) && AllNamed(less);
    IdsOfNamed(all);
    IdsOfNamed(less);
    forall i, j | 0 <= i < j < |less|
      ensures Ids(less)[i] != Ids(less)[j]
    {
      var i', j' := if i < |reports| then i else i + 1, if j < |reports| then j else j + 1;
      assert less[i] == all[i'] && less[j] == all[j'];
      assert Ids(all)[i'] != Ids(all)[j'];
    }
  }

  /** Promotion only appends to `reports`, and no id of either queue gets lost. */
  lemma {:induction false} PromoteAllMoves(reports: seq<Report>, blocked: seq<Report>, count: nat)
    requires AllNamed(blocked)
    ensures var p := PromoteAll(reports, blocked, count);
      && reports <= p.reports && |p.blocked| <= |blocked|
      && (QueuesOk(reports, blocked) ==> QueuesOk(p.reports, p.blocked))
      && (forall r :: r in p.reports + p.blocked ==> r in reports + blocked)
      && (forall r :: r in blocked ==> HasId(p.reports, r.commitId) || r in p.blocked)
    decreases |blocked|
  {
    if |reports| < MAX_REPORTS && blocked != [] {
      var r, rest := blocked[0], blocked[1..];
      var p := PromoteAll(reports, blocked, count);
      assert blocked == [r] + rest;
      assert AllNamed(rest);
      if HasId(reports, r.commitId) {
        PromoteAllMoves(reports, rest, count);
        HasIdInExtension(reports, p.reports, r.commitId);
      } else {
        if QueuesOk(reports, blocked) {
          AppendKeepsDistinct(reports, r);
        }
        PromoteAllMoves(reports + [r], rest, count + 1);
        assert (reports + [r])[|reports|] == r;
        HasIdInExtension(reports + [r], p.reports, r.commitId);
      }
    }
  }

  lemma {:induction false} UncapturedMembers(rs: seq<Report>, captured: seq<string>)
    ensures forall r :: r in Uncaptured(rs, captured) <==> r in rs && !(r.commitId.Some? && r.commitId.value in captured)
  {
    if rs != [] {
      UncapturedMembers(rs[1..], captured);
      assert rs == [rs[0]] + rs[1..];
    }
  }

  lemma {:induction false} UncapturedAll(rs: seq<Report>, captured: seq<string>)
    requires forall r :: r in rs ==> r.commitId.Some? && r.commitId.value !in captured
    ensures Uncaptured(rs, captured) == rs
  {
    if rs != [] {
      assert rs[0] in rs;
      UncapturedAll(rs[1..], captured);
    }
  }

  lemma {:induction false} UncapturedConcat(a: seq<Report>, b: seq<Report>, captured: seq<string>)
    ensures Uncaptured(a + b, captured) == Uncaptured(a, captured) + Uncaptured(b, captured)
  {
    if a == [] {
      assert a + b == b;
    } else {
      assert (a + b)[0] == a[0] && (a + b)[1..] == a[1..] + b;
      UncapturedConcat(a[1..], b, captured);
    }
  }

  lemma {:induction false} UncapturedNone(rs: seq<Report>, captured: seq<string>)
    requires forall r :: r in rs ==> r.commitId.Some? && r.commitId.value in captured
    ensures Uncaptured(rs, captured) == []
  {
    if rs != [] {
      assert rs[0] in rs;
      UncapturedNone(rs[1..], captured);
    }
  }

  lemma DistinctMeans(ids: seq<string>)
    requires Distinct(ids)
    ensures forall i, j :: 0 <= i < j < |ids| ==> ids[i] != ids[j]
  {
  }

  /** Dropping the captured prefix of distinct ids leaves exactly the later arrivals, in order. */
  lemma UncapturedPrefix(rs: seq<Report>, k: nat)
    requires AllNamed(rs) && Distinct(Ids(rs)) && k <= |rs| == |Ids(rs)|
    ensures Uncaptured(rs, Ids(rs)[..k]) == rs[k..]
  {
    hide Uncaptured, Ids, Distinct;
    DistinctMeans(Ids(rs));
    IdsOfNamed(rs);
    var captured := Ids(rs)[..k];
    assert rs == rs[..k] + rs[k..];
    UncapturedConcat(rs[..k], rs[k..], captured);
    assert Uncaptured(rs[..k], captured) == [] by {
      forall r | r in rs[..k]
        ensures r.commitId.Some? && r.commitId.value in captured
      {
        var i :| 0 <= i < k && rs[i] == r;
        assert captured[i] == r.commitId.value;
      }
      UncapturedNone(rs[..k], captured);
    }
    assert Uncaptured(rs[k..], captured) == rs[k..] by {
      forall r | r in rs[k..]
        ensures r.commitId.Some? && r.commitId.value !in captured
      {
        var i :| k <= i < |rs| && rs[i] == r;
        assert Ids(rs)[i] == r.commitId.value;
        assert forall j :: 0 <= j < k ==> captured[j] == Ids(rs)[j] != Ids(rs)[i];
      }
      UncapturedAll(rs[k..], captured);
    }
  }
}
