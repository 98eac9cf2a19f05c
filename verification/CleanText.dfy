/** What masked text still shows in front of its `@` signs. */
module CleanText {
  import opened Wrappers
  import opened RunMask

  /** No token between neighbouring boundaries hides a colon. */
  predicate NoTokenHides(carries: Carries, head: string, floor: nat) {
    var starts := Starts(head, floor);
    Descending(starts, |head|) && forall k :: 0 <= k < |starts| ==> !Hides(carries, head, starts, |head|, k)
  }

  /** Neither a run from a boundary to the end nor a token gives evidence. */
  predicate Calm(carries: Carries, head: string, floor: nat) {
    NoTokenHides(carries, head, floor) && forall s :: s in Starts(head, floor) && s < |head| ==> !carries(head[s..])
  }

  /** The run in front of the `@` is the mask, from a boundary on, and no token left of it hides a colon. */
  predicate EndsInMask(carries: Carries, head: string, floor: nat) {
    |MASK| <= |head| &&
    var m := |head| - |MASK|;
    head[m..] == MASK && m in Starts(head[..m], floor) && NoTokenHides(carries, head[..m], floor)
  }

  predicate SegmentClean(carries: Carries, head: string, floor: nat) {
    Calm(carries, head, floor) || EndsInMask(carries, head, floor)
  }

  /** Every segment in front of an `@` is clean; the floor protects the first. */
  predicate AllClean(carries: Carries, text: string, floor: nat)
    decreases |text|
  {
    var at := Find(text, '@');
    at < |text| ==> SegmentClean(carries, text[..at], floor) && AllClean(carries, text[at + 1..], 0)
  }

  /** ... is calm. */
  predicate AllCalm(carries: Carries, text: string, floor: nat)
    decreases |text|
  {
    var at := Find(text, '@');
    at < |text| ==> Calm(carries, text[..at], floor) && AllCalm(carries, text[at + 1..], 0)
  }

  lemma {:induction false} CalmIsClean(carries: Carries, text: string, floor: nat)
    requires AllCalm(carries, text, floor)
    ensures AllClean(carries, text, floor)
    decreases |text|
  {
    hide Calm, EndsInMask;
    var at := Find(text, '@');
    if at < |text| {
      CalmIsClean(carries, text[at + 1..], 0);
    }
  }

  /** Exactly calm segments stay as they are. */
  lemma MasksUnlessCalm(carries: Carries, head: string, floor: nat)
    requires Evidence(carries)
    ensures MaskStart(carries, head, floor).None? <==> Calm(carries, head, floor)
  {
    hide MaskStart, Hides, Starts, Boundary;
    StartsHold(head, floor);
    MaskedExactly(carries, head, floor);
  }

  /* ---- A masked segment ---- */

  /** A segment cut at a boundary has the boundaries up to there. */
  lemma BoundariesOfCut(head: string, floor: nat, s: nat, i: nat)
    requires i <= s <= |head| && Boundary(head, floor, s)
    ensures Boundary(head[..s], floor, i) <==> Boundary(head, floor, i)
  {
    if 3 <= i {
      assert head[..s][i - 3..i] == head[i - 3..i];
    }
  }

  lemma StartsOfCut(head: string, floor: nat, s: nat) returns (k: nat)
    requires s in Starts(head, floor)
    ensures s <= |head| && k < |Starts(head, floor)| && Starts(head, floor)[k] == s
    ensures Starts(head[..s], floor) == Starts(head, floor)[k..]
  {
    hide Boundary, Starts;
    StartsHold(head, floor);
    var starts := Starts(head, floor);
    StartsHold(head[..s], floor);
    k :| 0 <= k < |starts| && starts[k] == s;
    forall i: nat
      ensures i in Starts(head[..s], floor) <==> i in starts[k..]
    {
      if i <= s {
        BoundariesOfCut(head, floor, s, i);
      }
      InTail(starts, |head|, k, i);
    }
    DescendingUnique(Starts(head[..s], floor), starts[k..], |head|);
  }

  /** The tokens left of a boundary are tokens of the whole, except for the empty one at the cut. */
  lemma TokenOfCut(carries: Carries, head: string, starts: seq<nat>, k: nat, j: nat)
    requires Descending(starts, |head|) && k < |starts| && j < |starts[k..]| && !carries("")
    requires Descending(starts[k..], starts[k])
    ensures Hides(carries, head[..starts[k]], starts[k..], starts[k], j) ==>
      j > 0 && Hides(carries, head, starts, |head|, k + j) && starts[k + j] < starts[k]
  {
    var s := starts[k];
    if j == 0 {
      assert head[..s][s..s] == "";
    } else {
      var b, e := starts[k + j], starts[k + j - 1];
      assert b == starts[k..][j] && e == starts[k..][j - 1];
      assert head[..s][b..e] == head[b..e];
    }
  }

  lemma MaskedIsClean(carries: Carries, head: string, floor: nat)
    requires Evidence(carries) && MaskStart(carries, head, floor).Some?
    ensures EndsInMask(carries, MaskedSegment(carries, head, floor), floor)
  {
    hide MaskStart, Hides, Starts, Boundary, Descending;
    var starts := Starts(head, floor);
    MaskCovers(carries, head, floor);
    var s := MaskStart(carries, head, floor).value;
    var k := StartsOfCut(head, floor, s);
    StartsHold(head[..s], floor);
    StartsHold(head, floor);
    forall j | 0 <= j < |starts[k..]|
      ensures !Hides(carries, head[..s], starts[k..], s, j)
    {
      TokenOfCut(carries, head, starts, k, j);
    }
    CutMask(head, s);
    BoundaryHere(head, floor, s);
  }

  lemma BoundaryHere(head: string, floor: nat, s: nat)
    requires s <= |head| && s in Starts(head, floor)
    ensures s in Starts(head[..s], floor)
  {
    hide Starts;
    StartsHold(head, floor);
    StartsHold(head[..s], floor);
    BoundariesOfCut(head, floor, s, s);
  }

  lemma CutMask(head: string, s: nat)
    requires s <= |head|
    ensures var masked := head[..s] + MASK; masked[|masked| - |MASK|..] == MASK && masked[..|masked| - |MASK|] == head[..s]
  {
  }

  /* ---- Whole texts ---- */

  lemma CleanJoin(carries: Carries, head: string, tail: string, floor: nat)
    requires '@' !in head
    ensures AllClean(carries, head + "@" + tail, floor) <==> SegmentClean(carries, head, floor) && AllClean(carries, tail, 0)
    ensures AllCalm(carries, head + "@" + tail, floor) <==> Calm(carries, head, floor) && AllCalm(carries, tail, 0)
  {
    hide SegmentClean, Calm;
    FindJoined(head, tail);
  }

  /** Masked text is clean, and masking changes nothing exactly when every segment was calm. */
  lemma {:induction false} RunsAreClean(carries: Carries, rest: string, floor: nat)
    requires Evidence(carries) && floor <= Find(rest, '@')
    ensures AllClean(carries, Runs(carries, rest, floor).0, floor)
    ensures !Runs(carries, rest, floor).1 <==> AllCalm(carries, rest, floor)
    decreases |rest|
  {
    hide MaskStart, Calm, EndsInMask, Runs, Evidence, AllClean, AllCalm;
    var at := Find(rest, '@');
    if at < |rest| {
      FindSplits(rest);
      var head, tail := rest[..at], rest[at + 1..];
      RunsJoin(carries, head, tail, floor);
      RunsAreClean(carries, tail, 0);
      MasksUnlessCalm(carries, head, floor);
      if MaskStart(carries, head, floor).Some? {
        MaskedIsClean(carries, head, floor);
      }
      MaskedHasNoAt(carries, head, floor);
      CleanJoin(carries, MaskedSegment(carries, head, floor), Runs(carries, tail, 0).0, floor);
      CleanJoin(carries, head, tail, floor);
    } else {
      NothingToMask(carries, rest, floor);
      NoAtIsCalm(carries, rest, floor);
    }
  }

  lemma NoAtIsCalm(carries: Carries, rest: string, floor: nat)
    requires '@' !in rest
    ensures AllCalm(carries, rest, floor) && AllClean(carries, rest, floor)
  {
  }

  /* ---- Where a mask starts ---- */

  /** A run may start at the floor and behind every slash, question mark and hash. */
  lemma StartsExactly(head: string, floor: nat, i: nat)
    ensures i in Starts(head, floor) <==>
      i <= |head| && (i == (if floor < |head| then floor else |head|) || (i >= 1 && head[i - 1] in {'/', '?', '#'}))
  {
    hide Starts;
    StartsHold(head, floor);
    if 3 <= i <= |head| {
      assert head[i - 3..i][2] == head[i - 1] && "://"[2] == '/';
    }
  }

  /** Where the evidence is: the leftmost token that hides a colon, or else the last start whose run gives evidence. */
  predicate EvidenceAt(carries: Carries, head: string, floor: nat, s: nat) {
    var starts := Starts(head, floor);
    && Descending(starts, |head|) && s in starts
    && (if exists k :: 0 <= k < |starts| && Hides(carries, head, starts, |head|, k)
        then (exists k :: 0 <= k < |starts| && Hides(carries, head, starts, |head|, k) && starts[k] == s)
             && forall k :: 0 <= k < |starts| && Hides(carries, head, starts, |head|, k) ==> s <= starts[k]
        else s < |head| && carries(head[s..]) && forall t :: t in starts && s < t < |head| ==> !carries(head[t..]))
  }

  /** From there the mask is moved left to the nearest start from which a literal colon follows, if it has none itself and there is one. */
  predicate MovedTo(head: string, floor: nat, s: nat, m: nat) {
    && s <= |head| && m <= s
    && (if ':' in head[s..] then m == s
        else if exists t :: 0 <= t < s && t in Starts(head, floor) && ':' in head[t..]
        then m < s && m in Starts(head, floor) && ':' in head[m..]
             && forall t :: m < t < s && t in Starts(head, floor) ==> ':' !in head[t..]
        else m == s)
  }

  /** A segment is masked from exactly there. */
  lemma MaskStartsExactly(carries: Carries, head: string, floor: nat)
    ensures var m := MaskStart(carries, head, floor);
      && (m.Some? ==> exists s :: EvidenceAt(carries, head, floor, s) && MovedTo(head, floor, s, m.value))
      && (m.None? ==> forall s :: !EvidenceAt(carries, head, floor, s))
  {
    hide Starts, Hides;
    var starts := Starts(head, floor);
    StartsHold(head, floor);
    ChosenFirst(carries, head, starts);
    HiddenIsLeftmost(carries, head, starts, |head|);
    var hidden := LeftmostHidden(carries, head, starts, |head|);
    var start := if hidden.Some? then hidden else Chosen(carries, head, starts);
    if start.Some? {
      LiteralLeftFound(head, starts, start.value);
      assert EvidenceAt(carries, head, floor, start.value);
      assert MovedTo(head, floor, start.value, MaskStart(carries, head, floor).value);
    }
  }

  /** What a segment becomes. */
  lemma SegmentBecomes(carries: Carries, head: string, floor: nat)
    ensures MaskedSegment(carries, head, floor) ==
      match MaskStart(carries, head, floor) case None => head case Some(m) => head[..m] + "***:***"
  {
    hide MaskStart;
  }

  /* ---- A floor behind a separator ---- */

  /** Evidence is a literal colon. */
  const COLONS: Carries := s => ':' in s

  /** With literal colons only, a mask starts at the last boundary that a colon follows. */
  lemma LiteralStart(head: string, floor: nat, m: nat)
    requires m < |head| && Boundary(head, floor, m) && ':' in head[m..]
    requires forall s :: m < s < |head| && Boundary(head, floor, s) ==> ':' !in head[s..]
    ensures MaskStart(COLONS, head, floor) == Some(m)
  {
    hide Starts, Boundary, Chosen, LeftmostHidden;
    var carries := COLONS;
    var starts := Starts(head, floor);
    StartsHold(head, floor);
    HiddenIsLeftmost(carries, head, starts, |head|);
    ChosenFirst(carries, head, starts);
    assert LeftmostHidden(carries, head, starts, |head|) == None;
    assert m in starts && Chosen(carries, head, starts) == Some(m);
  }

  lemma SeparatorStart(head: string)
    requires head in {"/x:y", "/***:***"}
    ensures MaskStart(COLONS, head, 4) == if head == "/x:y" then Some(1) else Some(4)
  {
    var m := if head == "/x:y" then 1 else 4;
    assert head[m..][if m == 1 then 1 else 0] == ':';
    forall s | m < s < |head|
      ensures !Boundary(head, 4, s)
    {
      assert !Separator(head[s - 1]);
      assert 3 <= s ==> head[s - 3..s][2] == head[s - 1];
    }
    LiteralStart(head, 4, m);
  }

  /**
    A separator in front of the floor lets a mask start there, and then the floor lies inside the
    mask: a second pass masks its rest again.
   */
  lemma MaskBeforeFloorIsNotStable()
    ensures TailAfter(COLONS, "/x:y@", 4) == "/***:***@" && TailAfter(COLONS, "/***:***@", 4) == "/******:***@"
  {
    hide TailAfter, MaskStart;
    OneSegment(COLONS, "/x:y", 4);
    OneSegment(COLONS, "/***:***", 4);
    SeparatorStart("/x:y");
    SeparatorStart("/***:***");
    assert "/x:y" + "@" == "/x:y@" && "/***:***" + "@" == "/***:***@";
    assert "/x:y"[..1] + MASK + "@" == "/***:***@" && "/***:***"[..4] + MASK + "@" == "/******:***@";
  }

  lemma OneSegment(carries: Carries, head: string, floor: nat)
    requires '@' !in head
    ensures TailAfter(carries, head + "@", floor) == MaskedSegment(carries, head, floor) + "@"
  {
    hide MaskStart, Runs;
    assert head + "@" == head + "@" + "";
    RunsJoin(carries, head, "", floor);
    NothingToMask(carries, "", FloorPast(floor, |head|));
    assert MaskedSegment(carries, head, floor) + "@" + "" == MaskedSegment(carries, head, floor) + "@";
    RunsKeepFrame(carries, head + "@", floor);
  }
}
