/** Masking credential-shaped runs in front of every `@` of a text. */
module RunMask {
  import opened Wrappers

  const MASK: string := "***:***"

  /** Whether text carries a colon in any spelling; only the two facts of `Evidence` are used. */
  type Carries = string -> bool

  ghost predicate Evidence(carries: Carries) {
    (forall s :: ':' in s ==> carries(s)) && !carries("")
  }

  /* ---- One segment ---- */

  predicate Separator(c: char) {
    c == '/' || c == '?' || c == '#'
  }

  /** A run may start at the floor, after `://`, or after a separator. */
  predicate Boundary(head: string, floor: nat, i: nat)
    requires i <= |head|
  {
    || i == Min(floor, |head|)
    || (3 <= i && head[i - 3..i] == "://")
    || (1 <= i && Separator(head[i - 1]))
  }

  /** The boundaries up to `n`, greatest first. */
  function StartsUpTo(head: string, floor: nat, n: nat): (starts: seq<nat>)
    requires n <= |head|
    ensures forall i :: i in starts <==> 0 <= i <= n && Boundary(head, floor, i)
  {
    (if Boundary(head, floor, n) then [n] else []) + if n == 0 then [] else StartsUpTo(head, floor, n - 1)
  }

  function Starts(head: string, floor: nat): seq<nat> {
    StartsUpTo(head, floor, |head|)
  }

  predicate Descending(starts: seq<nat>, end: nat) {
    && (forall i :: 0 <= i < |starts| ==> starts[i] <= end)
    && (forall i, j :: 0 <= i < j < |starts| ==> starts[j] < starts[i])
  }

  /** First start whose run carries evidence. */
  function Chosen(carries: Carries, head: string, starts: seq<nat>): Option<nat>
    requires Descending(starts, |head|)
  {
    if starts == [] then None
    else if head[starts[0]..] != "" && carries(head[starts[0]..]) then Some(starts[0])
    else Chosen(carries, head, starts[1..])
  }

  /** A colon in another spelling inside one token. */
  predicate HidesColon(carries: Carries, token: string) {
    ':' !in token && carries(token)
  }

  /** Leftmost token, between neighbouring boundaries and `end`, that hides a colon. */
  function LeftmostHidden(carries: Carries, head: string, starts: seq<nat>, end: nat): (r: Option<nat>)
    requires end <= |head| && Descending(starts, end)
    ensures r.Some? ==> r.value in starts
    decreases |starts|
  {
    if starts == [] then None
    else
      var further := LeftmostHidden(carries, head, starts[1..], starts[0]);
      if further.Some? then further
      else if HidesColon(carries, head[starts[0]..end]) then Some(starts[0])
      else None
  }

  /** First start left of `s` from which a literal colon follows. */
  function LiteralLeftOf(head: string, starts: seq<nat>, s: nat): Option<nat>
    requires Descending(starts, |head|)
  {
    if starts == [] then None
    else if starts[0] < s && ':' in head[starts[0]..] then Some(starts[0])
    else LiteralLeftOf(head, starts[1..], s)
  }

  lemma DescendingCons(n: nat, rest: seq<nat>)
    requires n > 0 && Descending(rest, n - 1)
    ensures Descending([n] + rest, n) && Descending([] + rest, n)
  {
    assert [] + rest == rest;
  }

  lemma DescendingOne()
    ensures Descending([0] + [], 0) && Descending([] + [], 0)
  {
  }

  lemma {:induction false} StartsDescend(head: string, floor: nat, n: nat)
    requires n <= |head|
    ensures Descending(StartsUpTo(head, floor, n), n)
  {
    hide Boundary, Descending;
    if n > 0 {
      StartsDescend(head, floor, n - 1);
      DescendingCons(n, StartsUpTo(head, floor, n - 1));
    } else {
      DescendingOne();
    }
  }

  /** The start a run is masked from, moved left to a literal colon if there is one to move to. */
  function Anchored(head: string, starts: seq<nat>, s: nat): (r: nat)
    requires Descending(starts, |head|) && s <= |head|
    ensures r <= s
  {
    if ':' in head[s..] then s
    else
      LiteralLeftFound(head, starts, s);
      LiteralLeftOf(head, starts, s).GetOr(s)
  }

  /** Where the mask of a segment starts. */
  function MaskStart(carries: Carries, head: string, floor: nat): (r: Option<nat>)
    ensures r.Some? ==> r.value <= |head|
  {
    var starts := Starts(head, floor);
    StartsDescend(head, floor, |head|);
    ChosenFirst(carries, head, starts);
    var hidden := LeftmostHidden(carries, head, starts, |head|);
    var start := if hidden.Some? then hidden else Chosen(carries, head, starts);
    if start.None? then None else Some(Anchored(head, starts, start.value))
  }

  function MaskedSegment(carries: Carries, head: string, floor: nat): string {
    match MaskStart(carries, head, floor)
    case Some(s) => head[..s] + MASK
    case None => head
  }

  /* ---- All segments ---- */

  function Find(s: string, c: char): (n: nat)
    ensures n <= |s| && c !in s[..n] && (n < |s| ==> s[n] == c)
    ensures n == |s| <==> c !in s
  {
    if s == [] || s[0] == c then 0
    else
      var n := 1 + Find(s[1..], c);
      assert s[..n] == [s[0]] + s[1..][..n - 1];
      n
  }

  /** The text with each run in front of an `@` masked, and whether any was. */
  function Runs(carries: Carries, rest: string, floor: nat): (string, bool)
    decreases |rest|
  {
    var at := Find(rest, '@');
    if at == |rest| then (rest, false)
    else
      var more := Runs(carries, rest[at + 1..], FloorPast(floor, at));
      (MaskedSegment(carries, rest[..at], floor) + "@" + more.0, MaskStart(carries, rest[..at], floor).Some? || more.1)
  }

  /** `mask_tail_runs`. */
  function MaskTail(carries: Carries, tail: string, floor: nat): Option<string> {
    var (text, masked) := Runs(carries, tail, floor);
    if masked then Some(text) else None
  }

  /** The floor left for the text after the `@` at `at`. */
  function FloorPast(floor: nat, at: nat): nat {
    if floor > at + 1 then floor - (at + 1) else 0
  }

  /** Behind the `@` a position is past the floor exactly when it was before. */
  lemma FloorPastExactly(floor: nat, at: nat, i: nat)
    requires i > at
    ensures FloorPast(floor, at) <= i - at - 1 <==> floor <= i
    ensures floor <= at + 1 ==> FloorPast(floor, at) == 0
  {
  }

  lemma RunsStep(carries: Carries, out: string, rest: string, floor: nat)
    requires '@' in rest
    ensures var at := Find(rest, '@');
      var (text, masked) := Runs(carries, rest[at + 1..], FloorPast(floor, at));
      && out + Runs(carries, rest, floor).0 == out + MaskedSegment(carries, rest[..at], floor) + "@" + text
      && Runs(carries, rest, floor).1 == (MaskStart(carries, rest[..at], floor).Some? || masked)
  {
    hide MaskedSegment, MaskStart;
  }

  method MaskTailRuns(carries: Carries, tail: string, floor: nat) returns (r: Option<string>)
    ensures r == MaskTail(carries, tail, floor)
  {
    hide MaskedSegment, MaskStart, Runs;
    if '@' !in tail {
      NothingToMask(carries, tail, floor);
      return None;
    }
    var out, rest, masked, low: nat := "", tail, false, floor;
    assert out + Runs(carries, tail, floor).0 == Runs(carries, tail, floor).0;
    while '@' in rest
      invariant out + Runs(carries, rest, low).0 == Runs(carries, tail, floor).0
      invariant (masked || Runs(carries, rest, low).1) == Runs(carries, tail, floor).1
      decreases |rest|
    {
      RunsStep(carries, out, rest, low);
      var at := Find(rest, '@');
      var head := rest[..at];
      out := out + MaskedSegment(carries, head, low);
      masked := masked || MaskStart(carries, head, low).Some?;
      out := out + "@";
      low := FloorPast(low, at);
      rest := rest[at + 1..];
    }
    NothingToMask(carries, rest, low);
    out := out + rest;
    r := if masked then Some(out) else None;
  }

  lemma NothingToMask(carries: Carries, rest: string, floor: nat)
    requires '@' !in rest
    ensures Runs(carries, rest, floor) == (rest, false)
  {
  }

  /* ---- What the mask of a segment covers ---- */

  lemma StartsHold(head: string, floor: nat)
    ensures Descending(Starts(head, floor), |head|)
    ensures forall i :: i in Starts(head, floor) <==> 0 <= i <= |head| && Boundary(head, floor, i)
    ensures Min(floor, |head|) in Starts(head, floor)
  {
    StartsDescend(head, floor, |head|);
    assert Boundary(head, floor, Min(floor, |head|));
  }

  lemma {:induction false} ChosenFirst(carries: Carries, head: string, starts: seq<nat>)
    requires Descending(starts, |head|)
    ensures var c := Chosen(carries, head, starts);
      && (c.Some? ==> c.value in starts && c.value < |head| && carries(head[c.value..]))
      && (c.Some? ==> forall s :: s in starts && c.value < s < |head| ==> !carries(head[s..]))
      && (c.None? ==> forall s :: s in starts && s < |head| ==> !carries(head[s..]))
  {
    if starts != [] {
      ChosenFirst(carries, head, starts[1..]);
    }
  }

  lemma {:induction false} LiteralLeftFound(head: string, starts: seq<nat>, s: nat)
    requires Descending(starts, |head|)
    ensures var l := LiteralLeftOf(head, starts, s);
      && (l.Some? ==> l.value in starts && l.value < s && ':' in head[l.value..])
      && (l.Some? ==> forall t :: t in starts && l.value < t < s ==> ':' !in head[t..])
      && (l.None? ==> forall t :: t in starts && t < s ==> ':' !in head[t..])
  {
    if starts != [] {
      LiteralLeftFound(head, starts[1..], s);
    }
  }

  /** Token `k` of a segment: from boundary `k` to the one before it in the list, or to `end`. */
  function TokenEnd(starts: seq<nat>, end: nat, k: nat): nat
    requires k < |starts|
  {
    if k == 0 then end else starts[k - 1]
  }

  predicate Hides(carries: Carries, head: string, starts: seq<nat>, end: nat, k: nat)
    requires k < |starts| && end <= |head| && Descending(starts, end)
  {
    HidesColon(carries, head[starts[k]..TokenEnd(starts, end, k)])
  }

  /** The hidden start is a boundary in front of all tokens that hide a colon. */
  lemma {:induction false} HiddenIsLeftmost(carries: Carries, head: string, starts: seq<nat>, end: nat)
    requires end <= |head| && Descending(starts, end)
    ensures var h := LeftmostHidden(carries, head, starts, end);
      && (h.None? ==> forall k :: 0 <= k < |starts| ==> !Hides(carries, head, starts, end, k))
      && (h.Some? ==> forall k :: 0 <= k < |starts| && Hides(carries, head, starts, end, k) ==> h.value <= starts[k])
      && (h.Some? ==> exists k :: 0 <= k < |starts| && Hides(carries, head, starts, end, k) && starts[k] == h.value)
    decreases |starts|
  {
    hide HidesColon;
    if starts != [] {
      var rest, further := starts[1..], LeftmostHidden(carries, head, starts[1..], starts[0]);
      HiddenIsLeftmost(carries, head, rest, starts[0]);
      forall k | 0 < k < |starts|
        ensures Hides(carries, head, starts, end, k) <==> Hides(carries, head, rest, starts[0], k - 1)
      {
      }
      if further.Some? {
        var j :| 0 <= j < |rest| && Hides(carries, head, rest, starts[0], j) && rest[j] == further.value;
        assert Hides(carries, head, starts, end, j + 1) && starts[j + 1] == rest[j];
      }
    }
  }

  /** Every token with a hidden colon lies behind the mask, and the mask starts at a boundary. */
  lemma MaskCovers(carries: Carries, head: string, floor: nat)
    requires Evidence(carries)
    ensures var m := MaskStart(carries, head, floor);
      var starts := Starts(head, floor);
      && Descending(starts, |head|)
      && (m.Some? ==> m.value in starts)
      && (forall k :: 0 <= k < |starts| && Hides(carries, head, starts, |head|, k) ==> m.Some? && m.value <= starts[k])
      && (carries(head[Min(floor, |head|)..]) ==> m.Some?)
      && (m.Some? && ':' in head[Min(floor, |head|)..] ==> ':' in head[m.value..])
  {
    hide Starts;
    var starts := Starts(head, floor);
    StartsHold(head, floor);
    ChosenFirst(carries, head, starts);
    HiddenIsLeftmost(carries, head, starts, |head|);
    var hidden := LeftmostHidden(carries, head, starts, |head|);
    var start := if hidden.Some? then hidden else Chosen(carries, head, starts);
    if start.Some? {
      LiteralLeftFound(head, starts, start.value);
      ColonLeft(head, Min(floor, |head|), start.value);
    }
  }

  /** A colon that is not at or after `s` is left of it. */
  lemma ColonLeft(head: string, f: nat, s: nat)
    requires f <= |head| && s <= |head|
    ensures ':' in head[f..] && ':' !in head[s..] ==> f < s
  {
    if s <= f && ':' in head[f..] {
      var i :| 0 <= i < |head[f..]| && head[f..][i] == ':';
      assert head[s..][i + f - s] == ':';
    }
  }

  /** A segment is masked exactly when a run from a boundary to its end, or a token, gives evidence. */
  lemma MaskedExactly(carries: Carries, head: string, floor: nat)
    requires Evidence(carries)
    ensures var starts := Starts(head, floor);
      Descending(starts, |head|) &&
      (MaskStart(carries, head, floor).Some? <==>
        || (exists s :: s in starts && s < |head| && carries(head[s..]))
        || (exists k :: 0 <= k < |starts| && Hides(carries, head, starts, |head|, k)))
  {
    hide Starts;
    var starts := Starts(head, floor);
    StartsHold(head, floor);
    ChosenFirst(carries, head, starts);
    HiddenIsLeftmost(carries, head, starts, |head|);
  }

  /* ---- Masking twice ---- */

  predicate NoSeparator(s: string) {
    forall i :: 0 <= i < |s| ==> !Separator(s[i])
  }

  /** With no separator in front of the floor, no run starts in front of it. */
  lemma BoundariesPastFloor(head: string, floor: nat, i: nat)
    requires NoSeparator(head[..Min(floor, |head|)]) && i <= |head| && Boundary(head, floor, i)
    ensures Min(floor, |head|) <= i
  {
    var f := Min(floor, |head|);
    assert 1 <= i < f ==> head[..f][i - 1] == head[i - 1];
    assert 3 <= i ==> head[i - 3..i][2] == head[i - 1];
  }

  lemma SomethingIn(s: seq<nat>)
    requires s != []
    ensures exists i :: i in s
  {
    assert s[0] in s;
  }

  lemma {:induction false} DescendingUnique(a: seq<nat>, b: seq<nat>, end: nat)
    requires Descending(a, end) && Descending(b, end)
    requires forall i :: i in a <==> i in b
    ensures a == b
  {
    if a == [] {
      if b != [] {
        SomethingIn(b);
      }
    } else {
      assert a[0] in b && (b != [] ==> b[0] in a);
      assert a[0] == b[0];
      forall i
        ensures i in a[1..] <==> i in b[1..]
      {
        assert i in a[1..] <==> i in a && i != a[0];
        assert i in b[1..] <==> i in b && i != b[0];
      }
      DescendingUnique(a[1..], b[1..], end);
    }
  }

  /** Text up to `s` followed by the mask has the boundaries of the text up to `s` and no other. */
  lemma BoundariesOfMasked(head: string, floor: nat, s: nat, i: nat)
    requires floor <= s <= |head| && i <= s + |MASK|
    ensures Boundary(head[..s] + MASK, floor, i) <==> i <= s && Boundary(head, floor, i)
  {
    var masked := head[..s] + MASK;
    if i > s {
      assert masked[i - 1] == MASK[i - 1 - s];
      if 3 <= i {
        assert masked[i - 3..i][2] == masked[i - 1];
      }
    } else if 3 <= i {
      assert masked[i - 3..i] == head[i - 3..i];
    }
  }

  /** What follows position `k` of a descending list is what does not exceed its entry. */
  lemma InTail(starts: seq<nat>, end: nat, k: nat, i: nat)
    requires Descending(starts, end) && k < |starts|
    ensures i in starts[k..] <==> i in starts && i <= starts[k]
  {
    if i in starts {
      var j :| 0 <= j < |starts| && starts[j] == i;
      assert k <= j ==> starts[k..][j - k] == i;
    }
  }

  lemma StartsOfMasked(head: string, floor: nat, s: nat) returns (k: nat)
    requires floor <= s && s in Starts(head, floor)
    ensures s <= |head| && k < |Starts(head, floor)| && Starts(head, floor)[k] == s
    ensures Starts(head[..s] + MASK, floor) == Starts(head, floor)[k..]
  {
    hide Boundary, Starts;
    StartsHold(head, floor);
    var starts, masked := Starts(head, floor), head[..s] + MASK;
    StartsHold(masked, floor);
    k :| 0 <= k < |starts| && starts[k] == s;
    forall i: nat
      ensures i in Starts(masked, floor) <==> i in starts[k..]
    {
      if i <= |masked| {
        BoundariesOfMasked(head, floor, s, i);
      }
      InTail(starts, |head|, k, i);
    }
    DescendingUnique(Starts(masked, floor), starts[k..], |masked| + |head|);
  }

  /** A masked segment is masked at the same place again. */
  lemma SegmentStable(carries: Carries, head: string, floor: nat)
    requires Evidence(carries) && ClearFloor(head, floor)
    ensures MaskedSegment(carries, MaskedSegment(carries, head, floor), floor) == MaskedSegment(carries, head, floor)
    ensures floor >= |head| ==> MaskStart(carries, head, floor) == None
    ensures MaskStart(carries, head, floor).Some? ==> floor <= MaskStart(carries, head, floor).value
  {
    hide Starts, Boundary, Hides, LeftmostHidden, Chosen, MaskStart;
    MaskCovers(carries, head, floor);
    if MaskStart(carries, head, floor).Some? {
      var s := MaskStart(carries, head, floor).value;
      StartsHold(head, floor);
      BoundariesPastFloor(head, floor, s);
      NothingAtTheEnd(carries, head, floor);
      SameStart(carries, head, floor, s);
    }
  }

  /** A floor at or past the end leaves no run to mask. */
  lemma NothingAtTheEnd(carries: Carries, head: string, floor: nat)
    requires Evidence(carries) && NoSeparator(head[..Min(floor, |head|)])
    ensures floor >= |head| ==> MaskStart(carries, head, floor) == None
  {
    hide Starts, Boundary;
    var starts := Starts(head, floor);
    StartsHold(head, floor);
    MaskedExactly(carries, head, floor);
    if floor >= |head| {
      forall i | 0 <= i < |starts|
        ensures starts[i] == |head|
      {
        assert starts[i] in starts;
        BoundariesPastFloor(head, floor, starts[i]);
      }
      assert forall k :: 0 <= k < |starts| ==> head[starts[k]..TokenEnd(starts, |head|, k)] == "";
    }
  }

  /** The first token of a masked segment is the mask, the others are those of the segment. */
  lemma TokenKept(carries: Carries, head: string, s: nat, starts: seq<nat>, k: nat, j: nat)
    requires Descending(starts, |head|) && k < |starts| && starts[k] == s <= |head| && j < |starts[k..]|
    requires Descending(starts[k..], |head[..s] + MASK|)
    ensures Hides(carries, head[..s] + MASK, starts[k..], |head[..s] + MASK|, j) ==>
      j > 0 && Hides(carries, head, starts, |head|, k + j) && starts[k + j] < s
  {
    var masked, again := head[..s] + MASK, starts[k..];
    if j == 0 {
      assert masked[s..|masked|] == MASK && MASK[3] == ':';
    } else {
      var b, e := starts[k + j], starts[k + j - 1];
      assert b == again[j] && e == again[j - 1];
      MaskedPrefix(head, s, b, e);
    }
  }

  lemma MaskedPrefix(head: string, s: nat, b: nat, e: nat)
    requires b <= e <= s <= |head|
    ensures (head[..s] + MASK)[b..e] == head[b..e]
  {
  }

  /** No token of a masked segment hides a colon any more. */
  lemma NoneHides(carries: Carries, head: string, s: nat, starts: seq<nat>, k: nat)
    requires Descending(starts, |head|) && k < |starts| && starts[k] == s <= |head|
    requires Descending(starts[k..], |head[..s] + MASK|)
    requires forall i :: 0 <= i < |starts| && Hides(carries, head, starts, |head|, i) ==> s <= starts[i]
    ensures forall j :: 0 <= j < |starts[k..]| ==> !Hides(carries, head[..s] + MASK, starts[k..], |head[..s] + MASK|, j)
  {
    hide Hides, Descending;
    forall j | 0 <= j < |starts[k..]|
      ensures !Hides(carries, head[..s] + MASK, starts[k..], |head[..s] + MASK|, j)
    {
      TokenKept(carries, head, s, starts, k, j);
    }
  }

  lemma SameStart(carries: Carries, head: string, floor: nat, s: nat)
    requires Evidence(carries) && MaskStart(carries, head, floor) == Some(s) && floor <= s
    ensures MaskStart(carries, head[..s] + MASK, floor) == Some(s)
  {
    hide Starts, Boundary, LeftmostHidden, Hides, LiteralLeftOf;
    var masked := head[..s] + MASK;
    MaskCovers(carries, head, floor);
    var k := StartsOfMasked(head, floor, s);
    var again := Starts(masked, floor);
    assert masked[s..] == MASK && again[0] == s && MASK[3] == ':';
    StartsHold(masked, floor);
    NoneHides(carries, head, s, Starts(head, floor), k);
    HiddenIsLeftmost(carries, masked, again, |masked|);
    assert LeftmostHidden(carries, masked, again, |masked|) == None;
    assert Chosen(carries, masked, again) == Some(s);
  }

  /* ---- Whole texts ---- */

  lemma InPrefix(s: string, n: nat, k: nat)
    requires n <= |s|
    ensures k < n ==> s[k] in s[..n]
  {
    assert k < n ==> s[..n][k] == s[k];
  }

  /** The first `@` is not in front of text that has none. */
  lemma FindPast(s: string, n: nat)
    requires n <= |s| && '@' !in s[..n]
    ensures Find(s, '@') >= n
  {
    InPrefix(s, n, Find(s, '@'));
  }

  lemma {:induction false} FindJoined(a: string, b: string)
    requires '@' !in a
    ensures Find(a + "@" + b, '@') == |a| && (a + "@" + b)[..|a|] == a && (a + "@" + b)[|a| + 1..] == b
  {
    var all := a + "@" + b;
    assert all[..|a|] == a && all[|a|] == '@';
    FindPast(all, |a|);
    InPrefix(all, Find(all, '@'), |a|);
  }

  lemma RunsJoin(carries: Carries, head: string, tail: string, floor: nat)
    requires '@' !in head
    ensures Runs(carries, head + "@" + tail, floor) ==
      (MaskedSegment(carries, head, floor) + "@" + Runs(carries, tail, FloorPast(floor, |head|)).0,
       MaskStart(carries, head, floor).Some? || Runs(carries, tail, FloorPast(floor, |head|)).1)
  {
    hide MaskStart, MaskedSegment;
    FindJoined(head, tail);
  }

  lemma FindSplits(rest: string)
    requires '@' in rest
    ensures var at := Find(rest, '@'); at < |rest| && '@' !in rest[..at] && rest[..at] + "@" + rest[at + 1..] == rest
  {
    SplitJoin(rest, Find(rest, '@'));
  }

  lemma SplitJoin(rest: string, at: nat)
    requires at < |rest| && rest[at] == '@'
    ensures rest[..at] + "@" + rest[at + 1..] == rest
  {
  }

  lemma MaskedHasNoAt(carries: Carries, head: string, floor: nat)
    requires '@' !in head
    ensures '@' !in MaskedSegment(carries, head, floor)
  {
    hide MaskStart;
  }

  /** Number of `@` in a text. */
  function AtCount(s: string): nat
    decreases |s|
  {
    if '@' !in s then 0 else 1 + AtCount(s[Find(s, '@') + 1..])
  }

  /** Text after the last `@`. */
  function AfterLast(s: string): string
    decreases |s|
  {
    if '@' !in s then s else AfterLast(s[Find(s, '@') + 1..])
  }

  lemma FrameJoin(head: string, tail: string)
    requires '@' !in head
    ensures AtCount(head + "@" + tail) == 1 + AtCount(tail) && AfterLast(head + "@" + tail) == AfterLast(tail)
  {
    FindJoined(head, tail);
  }

  /** Masking keeps every `@` and the text after the last one. */
  lemma {:induction false} RunsKeepFrame(carries: Carries, rest: string, floor: nat)
    ensures AtCount(Runs(carries, rest, floor).0) == AtCount(rest)
    ensures AfterLast(Runs(carries, rest, floor).0) == AfterLast(rest)
    ensures !Runs(carries, rest, floor).1 ==> Runs(carries, rest, floor).0 == rest
    decreases |rest|
  {
    hide MaskStart, Runs, AtCount, AfterLast;
    if '@' in rest {
      FindSplits(rest);
      var at := Find(rest, '@');
      var head, tail := rest[..at], rest[at + 1..];
      RunsJoin(carries, head, tail, floor);
      RunsKeepFrame(carries, tail, FloorPast(floor, at));
      MaskedHasNoAt(carries, head, floor);
      FrameJoin(head, tail);
      FrameJoin(MaskedSegment(carries, head, floor), Runs(carries, tail, FloorPast(floor, at)).0);
    } else {
      NothingToMask(carries, rest, floor);
    }
  }

  /** No separator in front of the floor. */
  predicate ClearFloor(rest: string, floor: nat) {
    NoSeparator(rest[..Min(floor, |rest|)])
  }

  lemma ClearSplits(rest: string, at: nat, floor: nat)
    requires at < |rest| && ClearFloor(rest, floor)
    ensures ClearFloor(rest[..at], floor) && ClearFloor(rest[at + 1..], FloorPast(floor, at))
  {
    hide Separator;
    var head, tail, past := rest[..at], rest[at + 1..], FloorPast(floor, at);
    var front := rest[..Min(floor, |rest|)];
    assert forall i :: 0 <= i < Min(past, |tail|) ==> tail[..Min(past, |tail|)][i] == front[i + at + 1];
    assert forall i :: 0 <= i < Min(floor, at) ==> head[..Min(floor, at)][i] == front[i];
  }

  /** With no separator in front of the floor, masking a masked text again changes nothing. */
  lemma {:induction false} RunsStable(carries: Carries, rest: string, floor: nat)
    requires Evidence(carries) && ClearFloor(rest, floor)
    ensures Runs(carries, Runs(carries, rest, floor).0, floor).0 == Runs(carries, rest, floor).0
    decreases |rest|
  {
    hide MaskStart, Evidence, ClearFloor, Runs;
    if '@' in rest {
      FindSplits(rest);
      var at := Find(rest, '@');
      var head, tail, past := rest[..at], rest[at + 1..], FloorPast(floor, at);
      var segment, more := MaskedSegment(carries, head, floor), Runs(carries, tail, past).0;
      ClearSplits(rest, at, floor);
      RunsStable(carries, tail, past);
      SegmentStable(carries, head, floor);
      MaskedHasNoAt(carries, head, floor);
      RunsJoin(carries, head, tail, floor);
      RunsJoin(carries, segment, more, floor);
      assert FloorPast(floor, |segment|) == past;
    } else {
      NothingToMask(carries, rest, floor);
    }
  }

  /** What is left after masking a tail, masked or not. */
  function TailAfter(carries: Carries, tail: string, floor: nat): string {
    MaskTail(carries, tail, floor).GetOr(tail)
  }

  /** `mask_tail_runs` has nothing more to change in its own output. */
  lemma MaskTailStable(carries: Carries, tail: string, floor: nat)
    requires Evidence(carries) && ClearFloor(tail, floor)
    ensures var masked := TailAfter(carries, tail, floor);
      && TailAfter(carries, masked, floor) == masked
      && AtCount(masked) == AtCount(tail) && AfterLast(masked) == AfterLast(tail)
  {
    hide Runs, Evidence;
    RunsStable(carries, tail, floor);
    RunsKeepFrame(carries, tail, floor);
    RunsKeepFrame(carries, Runs(carries, tail, floor).0, floor);
  }

  lemma SegmentFront(carries: Carries, head: string, floor: nat)
    requires Evidence(carries) && floor <= |head| && ClearFloor(head, floor)
    ensures var segment := MaskedSegment(carries, head, floor); |segment| >= floor && segment[..floor] == head[..floor]
  {
    hide MaskStart, Evidence, ClearFloor;
    SegmentStable(carries, head, floor);
  }

  lemma FrontOf(a: string, b: string, n: nat)
    requires n <= |a|
    ensures (a + "@" + b)[..n] == a[..n]
  {
  }

  /** Text in front of the floor that holds no separator and no `@` stays as it is. */
  lemma FloorKept(carries: Carries, rest: string, floor: nat)
    requires Evidence(carries) && floor <= |rest| && NoSeparator(rest[..floor]) && '@' !in rest[..floor]
    ensures var text := TailAfter(carries, rest, floor); |text| >= floor && text[..floor] == rest[..floor]
  {
    hide MaskStart, MaskedSegment, Evidence, NoSeparator, Runs;
    FindPast(rest, floor);
    var at := Find(rest, '@');
    if '@' in rest {
      FindSplits(rest);
      var head, tail := rest[..at], rest[at + 1..];
      RunsJoin(carries, head, tail, floor);
      assert head[..floor] == rest[..floor];
      SegmentFront(carries, head, floor);
      FrontOf(MaskedSegment(carries, head, floor), Runs(carries, tail, FloorPast(floor, |head|)).0, floor);
    } else {
      NothingToMask(carries, rest, floor);
    }
  }
}
