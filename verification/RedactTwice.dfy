/** Exactly when redacting a redacted value changes nothing. */
module RedactTwice {
  import opened Wrappers
  import opened RunMask
  import opened ReportTypes
  import opened CleanText
  import opened Redaction
  import opened RedactionTheorems

  /** Trimming takes off white space at both ends and nothing else; neither a mask nor `@` is white space. */
  ghost predicate Trims(rules: Rules, white: char -> bool) {
    && (forall s :: var t := rules.trim(s); t == "" || (!white(t[0]) && !white(t[|t| - 1])))
    && (forall s :: s != "" && !white(s[0]) && !white(s[|s| - 1]) ==> rules.trim(s) == s)
    && !white('*') && !white('@')
  }

  /**
    The first mask behind the userinfo leaves the separator that ends the host slot: there is no
    further `@`, or the slot is not hidden and the mask in front of that `@` starts past it.
   */
  predicate KeepsAuthority(rules: Rules, after: string) {
    '@' !in after ||
    var start := MaskStart(rules.carries, after[..Find(after, '@')], Slot(rules, after).1);
    !HostHidden(rules, HostOf(after)) && (start.None? || |HostOf(after)| < start.value)
  }

  /* ---- The scheme ---- */

  lemma {:induction false} SchemeFound(scheme: string, rest: string)
    requires ':' !in scheme
    ensures FindText(scheme + "://" + rest, "://") == Some(|scheme|)
  {
    var s := scheme + "://" + rest;
    if scheme == "" {
      assert s[..3] == "://";
    } else {
      assert s[..3][0] == scheme[0];
      assert s[1..] == scheme[1..] + "://" + rest;
      SchemeFound(scheme[1..], rest);
    }
  }

  lemma SchemeAgain(value: string, front: string, tail: string)
    requires SplitScheme(value).0 == "" ==> front == MASK || ':' !in front
    ensures var prefix := SplitScheme(value).0;
      SplitScheme(prefix + front + "@" + tail) == (prefix, front + "@" + tail)
  {
    hide FindText;
    var prefix, r := SplitScheme(value).0, front + "@" + tail;
    assert prefix + front + "@" + tail == prefix + r;
    if prefix != "" {
      var scheme := value[..FindText(value, "://").value];
      assert ':' !in scheme;
      SchemeFound(scheme, r);
      assert (prefix + r)[..|scheme|] == scheme && (prefix + r)[|scheme| + 3..] == r;
    } else {
      assert prefix + r == r;
      NoSchemeInFront(front, tail);
    }
  }

  lemma NoSchemeInFront(front: string, tail: string)
    requires front == MASK || ':' !in front
    ensures SplitScheme(front + "@" + tail) == ("", front + "@" + tail)
  {
    hide FindText;
    var r := front + "@" + tail;
    match FindText(r, "://") {
      case None =>
      case Some(n) =>
        assert r[n..n + 3][0] == r[n] && r[|front|] == '@';
        assert n < |front| ==> r[n] == front[n] && front[n] in front;
        assert n > 0 ==> r[..n][0] == r[0];
        assert n > |front| ==> r[..n][|front|] == '@';
    }
  }

  /* ---- The end of the authority ---- */

  lemma FirstSeparatorIs(s: string, i: nat)
    requires i < |s| && EndsAuthority(s, i) && forall j :: 0 <= j < i ==> !EndsAuthority(s, j)
    ensures FirstSeparator(s) == Some(i)
  {
    hide EndsAuthority;
  }

  lemma LastAtIs(s: string, i: nat)
    requires i < |s| && s[i] == '@' && forall j :: i < j < |s| ==> s[j] != '@'
    ensures LastAt(s) == Some(i)
  {
    hide LastAt;
    assert s[i] in s;
    var r := LastAt(s).value;
    assert forall j :: r < j < |s| ==> s[r + 1..][j - r - 1] == s[j];
  }

  predicate NoEnd(s: string) {
    forall j :: 0 <= j < |s| ==> !EndsAuthority(s, j)
  }

  lemma EndsPrefix(a: string, b: string, j: nat)
    requires j < |a|
    ensures EndsAuthority(a + b, j) <==> EndsAuthority(a, j)
  {
    assert (a + b)[..j] == a[..j];
  }

  lemma EndsWithLess(a: string, b: string, end: string)
    requires a != "" && a[|a| - 1] == '@' && '@' !in end && EndsWith(a + b, end)
    ensures EndsWith(b, end)
  {
    var s := a + b;
    assert s[|s| - |end|..] == end;
    assert forall i :: 0 <= i < |end| ==> end[i] == s[|s| - |end| + i];
    assert s[|a| - 1] == '@';
    assert |end| <= |b| ==> b[|b| - |end|..] == s[|s| - |end|..];
  }

  lemma LowerAt(s: string, i: nat)
    requires i < |s|
    ensures AsciiLower(s)[i] == if 'A' <= s[i] <= 'Z' then s[i] - 'A' + 'a' else s[i]
    decreases i
  {
    if i > 0 {
      LowerAt(s[1..], i - 1);
    }
  }

  lemma EntityBehindAt(s: string, at: nat, i: nat)
    requires at < i <= |s| && s[at] == '@'
    ensures HashStartsEntity(s, i) <==> HashStartsEntity(s[at + 1..], i - at - 1)
  {
    hide EndsWith;
    var front, before := s[..at + 1], s[at + 1..][..i - at - 1];
    assert s[..i] == front + before;
    TrimStops(front, before, ';');
    var trimmed := TrimEnd(before, ';');
    LowerConcat(front, trimmed);
    LowerAt(front, at);
    forall end | '@' !in end && EndsWith(AsciiLower(front) + AsciiLower(trimmed), end)
      ensures EndsWith(AsciiLower(trimmed), end)
    {
      EndsWithLess(AsciiLower(front), AsciiLower(trimmed), end);
    }
    if EndsWith(front + before, "&") {
      EndsWithLess(front, before, "&");
    }
    if HashStartsEntity(s[at + 1..], i - at - 1) {
      EntityAfterAt(s, at, i);
    }
  }

  /** Behind an `@` the authority ends where it would end without what is in front. */
  lemma EndsBehind(front: string, tail: string, j: nat)
    requires j < |tail|
    ensures EndsAuthority(front + "@" + tail, |front| + 1 + j) <==> EndsAuthority(tail, j)
  {
    hide HashStartsEntity;
    var r := front + "@" + tail;
    assert r[|front| + 1..] == tail;
    EntityBehindAt(r, |front|, |front| + 1 + j);
  }

  lemma NoFirstSeparator(s: string)
    ensures FirstSeparator(s).None? <==> NoEnd(s)
  {
    hide EndsAuthority;
  }

  lemma SeparatorBehind(front: string, tail: string)
    requires NoEnd(front)
    ensures FirstSeparator(front + "@" + tail) ==
      match FirstSeparator(tail) case None => None case Some(k) => Some(|front| + 1 + k)
  {
    hide EndsAuthority, FirstSeparator;
    var r := front + "@" + tail;
    forall j | 0 <= j < |r|
      ensures EndsAuthority(r, j) <==> j > |front| && EndsAuthority(tail, j - |front| - 1)
    {
      if j < |front| {
        assert r == front + ("@" + tail);
        EndsPrefix(front, "@" + tail, j);
      } else if j == |front| {
        SignIsNoEnd(r, j);
      } else {
        EndsBehind(front, tail, j - |front| - 1);
      }
    }
    NoFirstSeparator(r);
    NoFirstSeparator(tail);
    if FirstSeparator(tail).Some? {
      FirstIsFirst(tail);
      FirstSeparatorIs(r, |front| + 1 + FirstSeparator(tail).value);
    }
  }

  lemma SignIsNoEnd(s: string, i: nat)
    requires i < |s| && s[i] == '@'
    ensures !EndsAuthority(s, i)
  {
  }

  lemma FirstIsFirst(s: string)
    requires FirstSeparator(s).Some?
    ensures EndsAuthority(s, FirstSeparator(s).value) && forall j :: 0 <= j < FirstSeparator(s).value ==> !EndsAuthority(s, j)
  {
    hide EndsAuthority;
  }

  /* ---- The cut of the result ---- */

  lemma LastAtMeans(s: string, n: nat)
    requires LastAt(s) == Some(n)
    ensures n < |s| && s[n] == '@' && forall j :: n < j < |s| ==> s[j] != '@'
  {
    hide LastAt;
    assert forall j :: n < j < |s| ==> s[n + 1..][j - n - 1] == s[j];
  }

  lemma JoinedAt(front: string, host: string, j: nat)
    requires |front| < j <= |front| + |host|
    ensures (front + "@" + host)[j] == host[j - |front| - 1]
  {
  }

  lemma LastAtInside(front: string, host: string, n: nat)
    requires LastAt(host) == Some(n)
    ensures LastAt(front + "@" + host) == Some(|front| + 1 + n)
  {
    hide LastAt;
    LastAtMeans(host, n);
    var s := front + "@" + host;
    forall j | |front| + 1 + n <= j < |s|
      ensures s[j] == host[j - |front| - 1]
    {
      JoinedAt(front, host, j);
    }
    LastAtIs(s, |front| + 1 + n);
  }

  lemma LastAtSign(front: string, host: string)
    requires '@' !in host
    ensures LastAt(front + "@" + host) == Some(|front|)
  {
    hide LastAt;
    var s := front + "@" + host;
    forall j | |front| < j < |s|
      ensures s[j] == host[j - |front| - 1]
    {
      JoinedAt(front, host, j);
    }
    LastAtIs(s, |front|);
  }

  /** Where the last `@` is once `front` and another one stand in front of the host slot. */
  function Joined(front: string, host: string): nat {
    match LastAt(host) case Some(n) => |front| + 1 + n case None => |front|
  }

  lemma LastAtJoin(front: string, host: string)
    ensures LastAt(front + "@" + host) == Some(Joined(front, host))
  {
    hide LastAt;
    match LastAt(host) {
      case Some(n) => LastAtInside(front, host, n);
      case None => LastAtSign(front, host);
    }
  }

  lemma CutBehind(y: string, prefix: string, front: string, tail: string)
    requires SplitScheme(y) == (prefix, front + "@" + tail) && NoEnd(front)
    ensures var host := HostOf(tail);
      && Cut(y).Some? && Cut(y).value.prefix == prefix && Cut(y).value.rest == front + "@" + tail
      && Cut(y).value.at == Joined(front, host)
      && (Cut(y).value.separator.Some? ==> Cut(y).value.at < Cut(y).value.separator.value)
  {
    hide SplitScheme, LastAt, FirstSeparator;
    var r := front + "@" + tail;
    SeparatorBehind(front, tail);
    LastAtJoin(front, HostOf(tail));
    match FirstSeparator(tail) {
      case None =>
      case Some(k) =>
        assert r[..|front| + 1 + k] == front + "@" + tail[..k];
    }
  }

  /** An `@` in the path, with no further one behind it. */
  lemma CutPath(y: string, prefix: string, front: string, tail: string, s: nat)
    requires SplitScheme(y) == (prefix, front + "@" + tail) && '@' !in tail
    requires s < |front| && EndsAuthority(front, s) && '@' !in front[..s]
    requires forall j :: 0 <= j < s ==> !EndsAuthority(front, j)
    ensures Cut(y) == Some(Parts(prefix, front + "@" + tail, Some(s), |front|))
  {
    hide SplitScheme, LastAt, FirstSeparator, EndsAuthority;
    var r := front + "@" + tail;
    assert r == front + ("@" + tail);
    forall j | 0 <= j <= s
      ensures EndsAuthority(r, j) <==> EndsAuthority(front, j)
    {
      EndsPrefix(front, "@" + tail, j);
    }
    FirstSeparatorIs(r, s);
    assert r[..s] == front[..s];
    LastAtJoin(front, tail);
  }

  lemma NotBefore(s: string, n: nat, at: nat)
    requires n <= |s| && at < |s| && s[at] == '@' && '@' !in s[..n]
    ensures n <= at
  {
    assert forall j :: 0 <= j < n ==> s[..n][j] == s[j];
  }

  /** What is in front of the `@` of a cut ends no authority, unless the `@` is in the path and the last. */
  lemma CutShape(value: string)
    requires Cut(value).Some?
    ensures var p := Cut(value).value;
      var userinfo, after := p.rest[..p.at], p.rest[p.at + 1..];
      NoEnd(userinfo) ||
        ('@' !in after && p.separator.Some? && p.separator.value < p.at && EndsAuthority(userinfo, p.separator.value)
         && '@' !in userinfo[..p.separator.value]
         && forall j :: 0 <= j < p.separator.value ==> !EndsAuthority(userinfo, j))
  {
    hide SplitScheme, LastAt, FirstSeparator, EndsAuthority;
    var p := Cut(value).value;
    var rest := p.rest;
    var userinfo, after := rest[..p.at], rest[p.at + 1..];
    assert rest == userinfo + rest[p.at..];
    forall j | 0 <= j < p.at
      ensures EndsAuthority(rest, j) <==> EndsAuthority(userinfo, j)
    {
      EndsPrefix(userinfo, rest[p.at..], j);
    }
    NoFirstSeparator(rest);
    if p.separator.Some? {
      var s := p.separator.value;
      FirstIsFirst(rest);
      var inside := LastAt(rest[..s]);
      if inside.None? {
        NotBefore(rest, s, p.at);
        SignIsNoEnd(rest, p.at);
        assert userinfo[..s] == rest[..s];
      }
    }
  }

  /** The result is cut at the same `@`, or at the last one in the host slot of its tail. */
  lemma CutAgain(rules: Rules, value: string, tail: string)
    requires Evidence(rules.carries) && Cut(value).Some?
    requires '@' in tail ==> '@' in Cut(value).value.rest[Cut(value).value.at + 1..]
    ensures var p, front, host := Cut(value).value, Front(rules, Cut(value).value), HostOf(tail);
      var y := Cut(p.prefix + front + "@" + tail);
      && y.Some? && y.value.prefix == p.prefix && y.value.rest == front + "@" + tail
      && y.value.at == Joined(front, host)
      && ('@' in host && y.value.separator.Some? ==> y.value.at < y.value.separator.value)
  {
    hide SplitScheme, LastAt, FirstSeparator, EndsAuthority, Cut, HostOf;
    var p, front := Cut(value).value, Front(rules, Cut(value).value);
    var userinfo := p.rest[..p.at];
    FrontShapes(rules, p);
    CutShape(value);
    CutParts(value);
    SchemeAgain(value, front, tail);
    var y := p.prefix + front + "@" + tail;
    if NoEnd(front) {
      CutBehind(y, p.prefix, front, tail);
    } else {
      NotIn(tail, |HostOf(tail)|);
      assert HostOf(tail) == tail[..|HostOf(tail)|];
      CutPath(y, p.prefix, front, tail, p.separator.value);
    }
  }

  lemma FrontShapes(rules: Rules, p: Parts)
    requires Evidence(rules.carries) && p.at < |p.rest|
    ensures var front := Front(rules, p);
      && (front == MASK || ':' !in front)
      && (NoEnd(front) || front == p.rest[..p.at])
  {
    var front := Front(rules, p);
    assert forall j :: 0 <= j < |MASK| ==> MASK[j] !in {'/', '?', '#'};
    assert forall j :: 0 <= j < |"***"| ==> "***"[j] !in {'/', '?', '#'};
  }

  /* ---- The tail of the result ---- */

  lemma MaskIsNoHost(rules: Rules)
    requires !rules.carries("******")
    ensures !IsHostPort(rules, MASK) && !HostHidden(rules, MASK)
  {
    assert MASK[..3] == "***" && MASK[4..] == "***" && MASK[3] == ':';
    FindJoinedColon();
    assert !AsciiDigit(MASK[4..][0]);
    assert Without(MASK, ':') == "******";
  }

  lemma FindJoinedColon()
    ensures Find(MASK, ':') == 3
  {
    assert MASK[0] != ':' && MASK[1..][0] != ':' && MASK[2..][0] != ':' && MASK[3..][0] == ':';
    assert MASK[1..][1..] == MASK[2..] && MASK[2..][1..] == MASK[3..];
  }

  lemma MaskHasNoEnd()
    ensures NoEnd(MASK) && '@' !in MASK
  {
    assert forall j :: 0 <= j < |MASK| ==> MASK[j] !in {'/', '?', '#', '@'};
  }

  lemma MaskStartsNoEntity(rest: string)
    ensures !HashStartsEntity(MASK + rest, |MASK|)
  {
    hide AsciiLower;
    var before := (MASK + rest)[..|MASK|];
    assert before == MASK && TrimEnd(MASK, ';') == MASK;
    LowerAt(MASK, 6);
    var lower := AsciiLower(MASK);
    forall end | end in {"&", "&amp", "&#38", "&#x26"}
      ensures !EndsWith(lower, end) && !EndsWith(MASK, end)
    {
      if |end| <= |MASK| {
        assert lower[|lower| - |end|..][|end| - 1] == '*';
        assert MASK[|MASK| - |end|..][|end| - 1] == '*';
      }
    }
  }

  /** Behind a mask instead of the host slot the authority ends in the same place. */
  lemma MaskedSlotEnds(after: string)
    ensures HostOf(MASK + after[|HostOf(after)|..]) == MASK
  {
    hide EndsAuthority, FirstSeparator;
    var rest := after[|HostOf(after)|..];
    var s := MASK + rest;
    MaskHasNoEnd();
    forall j | 0 <= j < |MASK|
      ensures !EndsAuthority(s, j)
    {
      EndsPrefix(MASK, rest, j);
    }
    if FirstSeparator(after).Some? {
      FirstIsFirst(after);
      EndsAfterMask(after, FirstSeparator(after).value);
      FirstSeparatorIs(s, |MASK|);
      assert s[..|MASK|] == MASK;
    } else {
      assert rest == "" && s == MASK;
      NoFirstSeparator(s);
    }
  }

  lemma EndsAfterMask(after: string, k: nat)
    requires k < |after| && EndsAuthority(after, k)
    ensures EndsAuthority(MASK + after[k..], |MASK|)
  {
    hide HashStartsEntity;
    MaskStartsNoEntity(after[k..]);
    assert (MASK + after[k..])[|MASK|] == after[k];
  }

  /** Without a further `@` the tail is its own tail. */
  lemma TailWithoutAt(rules: Rules, after: string)
    requires !rules.carries("******") && '@' !in after
    ensures var tail := TailOf(rules, after); '@' !in tail && TailOf(rules, tail) == tail
  {
    hide HostHidden, IsHostPort, HostOf, MaskStart, MaskedSegment;
    var (slot, floor) := Slot(rules, after);
    MaskHasNoEnd();
    NothingToMask(rules.carries, slot, floor);
    if HostHidden(rules, HostOf(after)) {
      MaskedSlotEnds(after);
      MaskIsNoHost(rules);
      assert Slot(rules, slot).0 == slot;
      NothingToMask(rules.carries, slot, Slot(rules, slot).1);
    }
  }

  lemma HostOfPrefix(a: string, b: string, k: nat)
    requires FirstSeparator(a) == Some(k) && k < |b| && b[..k + 1] == a[..k + 1]
    ensures HostOf(b) == HostOf(a) && FirstSeparator(b) == Some(k)
  {
    hide EndsAuthority, FirstSeparator;
    FirstIsFirst(a);
    var c := a[..k + 1];
    assert a == c + a[k + 1..] && b == c + b[k + 1..];
    forall j | 0 <= j <= k
      ensures EndsAuthority(b, j) <==> EndsAuthority(a, j)
    {
      EndsPrefix(c, a[k + 1..], j);
      EndsPrefix(c, b[k + 1..], j);
    }
    FirstSeparatorIs(b, k);
    assert b[..k] == c[..k] == a[..k];
  }

  /** Masked again from the same floor, the first segment stays if its mask starts past the floor. */
  lemma RunsAgain(carries: Carries, head: string, tail: string, floor: nat)
    requires Evidence(carries) && '@' !in head && floor <= |head|
    requires var m := MaskStart(carries, head, floor); m.None? || floor <= m.value
    ensures var once := Runs(carries, head + "@" + tail, floor).0;
      once == MaskedSegment(carries, head, floor) + "@" + Runs(carries, tail, 0).0 && Runs(carries, once, floor).0 == once
  {
    hide MaskStart, Runs, Evidence;
    var segment, more := MaskedSegment(carries, head, floor), Runs(carries, tail, 0).0;
    RunsJoin(carries, head, tail, floor);
    MaskedHasNoAt(carries, head, floor);
    if MaskStart(carries, head, floor).Some? {
      SameStart(carries, head, floor, MaskStart(carries, head, floor).value);
    }
    assert MaskedSegment(carries, segment, floor) == segment by {
      MaskedAtStart(carries, head, floor);
    }
    RunsJoin(carries, segment, more, floor);
    RunsStable(carries, tail, 0);
  }

  lemma MaskedAtStart(carries: Carries, head: string, floor: nat)
    requires Evidence(carries)
    requires var m := MaskStart(carries, head, floor); m.None? || floor <= m.value
    ensures MaskedSegment(carries, MaskedSegment(carries, head, floor), floor) == MaskedSegment(carries, head, floor)
  {
    hide MaskStart, Evidence;
    match MaskStart(carries, head, floor) {
      case None =>
      case Some(m) =>
        SameStart(carries, head, floor, m);
        assert (head[..m] + MASK)[..m] == head[..m];
    }
  }

  /** The slot behind an `@`, cut at its own first one. */
  lemma SplitAfter(after: string) returns (head: string, tail: string)
    requires '@' in after
    ensures '@' !in head && head == after[..Find(after, '@')] && after == head + "@" + tail
  {
    FindSplits(after);
    head, tail := after[..Find(after, '@')], after[Find(after, '@') + 1..];
  }

  /** With a further `@` past the kept separator the tail is its own tail. */
  lemma TailWithSeparator(rules: Rules, after: string)
    requires Evidence(rules.carries) && '@' in after && '@' !in HostOf(after) && KeepsAuthority(rules, after)
    ensures var tail := TailOf(rules, after); '@' !in HostOf(tail) && TailOf(rules, tail) == tail
  {
    hide HostHidden, IsHostPort, MaskStart, Runs, FirstSeparator, HostOf, Evidence;
    var k, floor := |HostOf(after)|, Slot(rules, after).1;
    var head, rest := SplitAfter(after);
    SeparatorBeforeAt(after);
    TailIsRuns(rules, after);
    RunsAgain(rules.carries, head, rest, floor);
    var tail := TailOf(rules, after);
    assert tail[..k + 1] == after[..k + 1];
    HostOfPrefix(after, tail, k);
    TailIsRuns(rules, tail);
  }

  /** If the host slot holds no `@`, but the text does, the slot ends in a separator in front of it. */
  lemma SeparatorBeforeAt(after: string)
    requires '@' in after && '@' !in HostOf(after)
    ensures FirstSeparator(after) == Some(|HostOf(after)|) && |HostOf(after)| < Find(after, '@')
  {
    hide EndsAuthority;
    FindPast(after, |HostOf(after)|);
    SeparatorIsNoAt(after);
  }

  lemma SeparatorIsNoAt(s: string)
    ensures FirstSeparator(s).Some? ==> s[FirstSeparator(s).value] != '@'
  {
  }

  /* ---- The separator is gone ---- */

  /** Text up to a mask that starts in the host slot ends no authority. */
  lemma MaskedHeadHasNoEnd(after: string, m: nat)
    requires m <= |HostOf(after)|
    ensures NoEnd(after[..m] + MASK)
  {
    hide EndsAuthority;
    var s := after[..m] + MASK;
    assert after == after[..m] + after[m..];
    forall j | 0 <= j < |s|
      ensures !EndsAuthority(s, j)
    {
      if j < m {
        EndsPrefix(after[..m], MASK, j);
        EndsPrefix(after[..m], after[m..], j);
      } else {
        assert s[j] == MASK[j - m];
        StarIsNoEnd(s, j);
      }
    }
  }

  lemma StarIsNoEnd(s: string, i: nat)
    requires i < |s| && s[i] in {'*', ':'}
    ensures !EndsAuthority(s, i)
  {
  }

  /** Then the tail is a segment without separator, with a colon, in front of an `@`. */
  lemma TailWithoutSeparator(rules: Rules, after: string) returns (segment: string, more: string)
    requires Evidence(rules.carries) && '@' !in HostOf(after) && !KeepsAuthority(rules, after)
    ensures TailOf(rules, after) == segment + "@" + more && NoEnd(segment) && ':' in segment && '@' !in segment
  {
    hide HostHidden, IsHostPort, MaskStart, Runs, HostOf, Evidence, NoEnd;
    var (slot, floor) := Slot(rules, after);
    TailIsRuns(rules, after);
    MaskHasNoEnd();
    if HostHidden(rules, HostOf(after)) {
      var rest := after[Find(after, '@') + 1..];
      FindSplits(after);
      assert slot == MASK + "@" + rest;
      NoSeparatorInMask();
      assert MASK[..7] == MASK;
      NothingAtTheEnd(rules.carries, MASK, 7);
      RunsJoin(rules.carries, MASK, rest, floor);
      segment, more := MASK, Runs(rules.carries, rest, FloorPast(floor, |MASK|)).0;
      assert segment[3] == ':';
    } else {
      var head, rest := SplitAfter(after);
      var m := MaskStart(rules.carries, head, floor).value;
      RunsJoin(rules.carries, head, rest, floor);
      MaskedHasNoAt(rules.carries, head, floor);
      SeparatorBeforeAt(after);
      MaskedHeadHasNoEnd(after, m);
      assert head[..m] == after[..m];
      segment, more := head[..m] + MASK, Runs(rules.carries, rest, FloorPast(floor, |head|)).0;
      assert segment[m + 3] == ':';
    }
  }

  /* ---- Trimming the result ---- */

  lemma EndOfJoin(front: string, tail: string)
    ensures var s := front + "@" + tail; s != "" && s[|s| - 1] == if tail != "" then tail[|tail| - 1] else '@'
  {
  }

  /** Masking keeps the last character. */
  lemma {:induction false} RunsKeepEnd(carries: Carries, rest: string, floor: nat)
    requires rest != ""
    ensures var out := Runs(carries, rest, floor).0; out != "" && out[|out| - 1] == rest[|rest| - 1]
    decreases |rest|
  {
    hide MaskStart, MaskedSegment, Runs;
    if '@' in rest {
      var head, tail := SplitAfter(rest);
      RunsJoin(carries, head, tail, floor);
      EndOfJoin(head, tail);
      EndOfJoin(MaskedSegment(carries, head, floor), Runs(carries, tail, FloorPast(floor, |head|)).0);
      if tail != "" {
        RunsKeepEnd(carries, tail, FloorPast(floor, |head|));
      } else {
        NothingToMask(carries, tail, FloorPast(floor, |head|));
      }
    } else {
      NothingToMask(carries, rest, floor);
    }
  }

  /** The tail ends as the value does, or in a mask. */
  lemma TailEnds(rules: Rules, after: string)
    ensures var tail := TailOf(rules, after);
      tail != "" ==> tail[|tail| - 1] == '*' || (after != "" && tail[|tail| - 1] == after[|after| - 1])
  {
    hide Runs, HostHidden, IsHostPort, HostOf;
    var (slot, floor) := Slot(rules, after);
    TailIsRuns(rules, after);
    if slot != "" {
      RunsKeepEnd(rules.carries, slot, floor);
    } else {
      NothingToMask(rules.carries, slot, floor);
    }
  }

  lemma ResultIsTrimmed(rules: Rules, white: char -> bool, value: string)
    requires Trims(rules, white) && Redacted(rules, value).Some?
    ensures rules.trim(Redacted(rules, value).value) == Redacted(rules, value).value
  {
    hide TailOf, Cut, Trims, HostOf, Redacted, Front;
    var v := rules.trim(value);
    var p := CutOf(rules, value);
    var userinfo, after := p.rest[..p.at], p.rest[p.at + 1..];
    RedactedForm(rules, value);
    CutSplits(v);
    TailEnds(rules, after);
    FrontIsOne(rules, p);
    JoinedIsTrimmed(rules, white, value, p.prefix, userinfo, after, Front(rules, p), TailOf(rules, after));
  }

  lemma CutOf(rules: Rules, value: string) returns (p: Parts)
    requires Redacted(rules, value).Some?
    ensures Cut(rules.trim(value)) == Some(p)
  {
    hide Cut, MaskedAfter;
    p := Cut(rules.trim(value)).value;
  }

  lemma FrontIsOne(rules: Rules, p: Parts)
    requires p.at < |p.rest|
    ensures Front(rules, p) in {"", "***", MASK, p.rest[..p.at]}
  {
  }

  lemma JoinedIsTrimmed(rules: Rules, white: char -> bool, value: string, prefix: string, userinfo: string, after: string,
                        front: string, tail: string)
    requires Trims(rules, white) && rules.trim(value) == prefix + userinfo + "@" + after
    requires front in {"", "***", MASK, userinfo}
    requires tail != "" ==> tail[|tail| - 1] == '*' || (after != "" && tail[|tail| - 1] == after[|after| - 1])
    ensures rules.trim(prefix + front + "@" + tail) == prefix + front + "@" + tail
  {
    JoinEnds(prefix, userinfo, after);
    JoinEnds(prefix, front, tail);
    assert MASK[0] == '*' && "***"[0] == '*';
  }

  /** The first and the last character of a value put together. */
  lemma JoinEnds(prefix: string, front: string, tail: string)
    ensures var s := prefix + front + "@" + tail;
      && s != "" && s[0] == (if prefix != "" then prefix[0] else if front != "" then front[0] else '@')
      && s[|s| - 1] == if tail != "" then tail[|tail| - 1] else '@'
  {
  }

  /* ---- The second pass ---- */

  /** Cut at the same `@` and with a tail that stays, the result stays. */
  lemma SecondPassKeeps(rules: Rules, y: string, p: Parts, front: string, tail: string)
    requires Evidence(rules.carries) && !rules.carries("***")
    requires rules.trim(y) == y && y == p.prefix + front + "@" + tail && Cut(y) == Some(p)
    requires p.rest == front + "@" + tail && p.at == |front| && TailOf(rules, tail) == tail
    requires front in {"", "***", MASK} || (p.prefix == "" && !rules.carries(front))
    ensures Redacted(rules, y) in {None, Some(y)}
  {
    hide HostHidden, IsHostPort, MaskStart, Runs, FirstSeparator, HostOf, Slot, OpaqueScheme, PathAt, Cut;
    assert p.rest[..p.at] == front && p.rest[p.at + 1..] == tail;
    assert MASK[3] == ':' && rules.carries(MASK);
    assert p.prefix + "" == p.prefix;
    assert MaskedAfter(rules, tail).Some? ==> MaskedAfter(rules, tail).value == tail;
  }

  /** Number of `@`. */
  function Signs(s: string): nat {
    multiset(s)['@']
  }

  lemma SignsConcat(a: string, b: string)
    ensures Signs(a + b) == Signs(a) + Signs(b)
  {
  }

  lemma NoSigns(s: string)
    requires '@' !in s
    ensures Signs(s) == 0
  {
  }

  lemma SignsJoin(head: string, tail: string)
    ensures Signs(head + "@" + tail) == Signs(head) + 1 + Signs(tail)
  {
    SignsConcat(head + "@", tail);
    SignsConcat(head, "@");
  }

  lemma {:induction false} CountIsSigns(s: string)
    ensures AtCount(s) == Signs(s)
    decreases |s|
  {
    if '@' in s {
      var head, tail := SplitAfter(s);
      FrameJoin(head, tail);
      CountIsSigns(tail);
      NoSigns(head);
      SignsJoin(head, tail);
    } else {
      NoSigns(s);
    }
  }

  lemma SlotSigns(rules: Rules, after: string)
    ensures Signs(Slot(rules, after).0) <= Signs(after)
  {
    hide HostHidden, IsHostPort, HostOf, Signs;
    var n := if '@' in after then Find(after, '@') else |HostOf(after)|;
    assert after == after[..n] + after[n..];
    SignsConcat(after[..n], after[n..]);
    MaskHasNoEnd();
    NoSigns(MASK);
    SignsConcat(MASK, after[n..]);
  }

  /** Making the tail adds no `@`. */
  lemma TailSigns(rules: Rules, after: string)
    ensures Signs(TailOf(rules, after)) <= Signs(after)
  {
    hide Runs, Slot, TailOf, Signs, AtCount, MaskedAfter;
    var (slot, floor) := Slot(rules, after);
    TailIsRuns(rules, after);
    RunsKeepFrame(rules.carries, slot, floor);
    CountIsSigns(slot);
    CountIsSigns(TailOf(rules, after));
    SlotSigns(rules, after);
  }

  lemma WordWithMark(word: string, i: nat)
    requires i < |word| && word[i] in {'@', '*'}
    ensures AsciiLower(word) !in NON_HIERARCHICAL_SCHEMES
  {
    LowerAt(word, i);
    var lower := AsciiLower(word);
    SchemesAreWords(lower, i);
  }

  lemma SchemesAreWords(word: string, i: nat)
    requires i < |word| && word[i] in {'@', '*'}
    ensures word !in NON_HIERARCHICAL_SCHEMES
  {
  }

  /** A userinfo that starts with a masked or kept front is no scheme word. */
  lemma JoinedIsNotOpaque(rules: Rules, front: string, rest: string, host: string)
    requires front == MASK || ':' !in front
    ensures !OpaqueScheme(rules, front + "@" + rest, host)
  {
    hide HostHidden, AsciiLower;
    var userinfo := front + "@" + rest;
    var n := Find(userinfo, ':');
    var word := userinfo[..n];
    if front == MASK {
      assert userinfo[0] == '*';
      assert n > 0;
      WordWithMark(word, 0);
    } else {
      assert n > |front| by {
        assert forall j :: 0 <= j < |front| ==> userinfo[j] == front[j] && front[j] in front;
        assert userinfo[|front|] == '@';
      }
      WordWithMark(word, |front|);
    }
  }

  /** Cut at a later `@`, the second pass masks all in front of it, and the result has fewer of them. */
  lemma SecondPassMasks(rules: Rules, y: string, p: Parts, front: string, segment: string, more: string)
    requires Evidence(rules.carries) && rules.trim(y) == y && Cut(y) == Some(p)
    requires y == p.prefix + front + "@" + (segment + "@" + more) && p.rest == front + "@" + (segment + "@" + more)
    requires ':' in segment && |front| + 1 + |segment| <= p.at
    requires p.separator.Some? ==> p.at < p.separator.value
    requires front == MASK || ':' !in front
    ensures Redacted(rules, y).Some? && Redacted(rules, y).value != y
  {
    hide HostOf, Cut, TailOf, MaskedAfter, OpaqueScheme, PathAt, Evidence, Signs;
    var userinfo, after := p.rest[..p.at], p.rest[p.at + 1..];
    NoPathInside(rules, p, HostOf(after));
    ColonIsEvidence(rules.carries, userinfo);
    MaskedInside(front, segment, more, p.at);
    JoinedIsNotOpaque(rules, front, userinfo[|front| + 1..], HostOf(after));
    assert Redacted(rules, y) == Some(p.prefix + MASK + "@" + TailOf(rules, after));
    TailSigns(rules, after);
    FewerSigns(p.prefix, front, segment, more, after, TailOf(rules, after));
  }

  lemma NoPathInside(rules: Rules, p: Parts, host: string)
    requires p.at < |p.rest| && (p.separator.Some? ==> p.at < p.separator.value < |p.rest|)
    ensures !PathAt(rules, p, host)
  {
  }

  lemma ColonIsEvidence(carries: Carries, s: string)
    requires Evidence(carries)
    ensures ':' in s ==> carries(s)
  {
  }

  lemma MaskedInside(front: string, segment: string, more: string, at: nat)
    requires ':' in segment && |front| + 1 + |segment| <= at < |front + "@" + (segment + "@" + more)|
    ensures var r := front + "@" + (segment + "@" + more);
      && ':' in r[..at] && r[..at] == front + "@" + r[..at][|front| + 1..]
      && r[at + 1..] == more[at - |front| - 1 - |segment|..]
  {
    var r := front + "@" + (segment + "@" + more);
    var c :| 0 <= c < |segment| && segment[c] == ':';
    assert r[..at][|front| + 1 + c] == ':';
  }

  lemma FewerSigns(prefix: string, front: string, segment: string, more: string, after: string, tail: string)
    requires Signs(tail) <= Signs(after) && |after| <= |more| && after == more[|more| - |after|..]
    ensures prefix + MASK + "@" + tail != prefix + front + "@" + (segment + "@" + more)
  {
    MaskHasNoEnd();
    NoSigns(MASK);
    SignsJoin(prefix + MASK, tail);
    SignsConcat(prefix, MASK);
    SignsJoin(prefix + front, segment + "@" + more);
    SignsConcat(prefix, front);
    SignsJoin(segment, more);
    assert more == more[..|more| - |after|] + after;
    SignsConcat(more[..|more| - |after|], after);
  }

  /**
    Redacting twice is redacting once exactly when the value is left alone or keeps the end of its
    authority: where that separator is masked, the second pass takes a later `@` for the end
    of the userinfo and masks more.
   */
  lemma TwiceIsOnceExactly(rules: Rules, white: char -> bool, value: string)
    requires Evidence(rules.carries) && !rules.carries("***") && !rules.carries("******") && Trims(rules, white)
    ensures var p := Cut(rules.trim(value));
      MaskForLog(rules, MaskForLog(rules, value)) == MaskForLog(rules, value) <==>
        (Redacted(rules, value).Some? ==> p.Some? && KeepsAuthority(rules, p.value.rest[p.value.at + 1..]))
  {
    hide TailOf, Cut, HostOf, Redacted, Front, KeepsAuthority, Evidence, Trims;
    if Redacted(rules, value).Some? {
      var p := CutOf(rules, value);
      RedactedForm(rules, value);
      ResultIsTrimmed(rules, white, value);
      if KeepsAuthority(rules, p.rest[p.at + 1..]) {
        KeptIsStable(rules, value, p);
      } else {
        SwallowedIsNot(rules, value, p);
      }
    }
  }

  lemma KeptIsStable(rules: Rules, value: string, p: Parts)
    requires Evidence(rules.carries) && !rules.carries("***") && !rules.carries("******") && Cut(rules.trim(value)) == Some(p)
    requires KeepsAuthority(rules, p.rest[p.at + 1..])
    requires var y := p.prefix + Front(rules, p) + "@" + TailOf(rules, p.rest[p.at + 1..]); rules.trim(y) == y
    ensures var y := p.prefix + Front(rules, p) + "@" + TailOf(rules, p.rest[p.at + 1..]); Redacted(rules, y) in {None, Some(y)}
  {
    hide TailOf, Cut, HostOf, Redacted, KeepsAuthority, Evidence;
    var after := p.rest[p.at + 1..];
    var front, tail := Front(rules, p), TailOf(rules, after);
    HostHasNoAt(rules.trim(value));
    if '@' in after {
      TailWithSeparator(rules, after);
    } else {
      TailWithoutAt(rules, after);
      HostWithoutAt(tail);
    }
    FrontIsUserinfo(rules, p);
    CutAgain(rules, rules.trim(value), tail);
    NoLastAt(HostOf(tail));
    SecondPassKeeps(rules, p.prefix + front + "@" + tail, Cut(p.prefix + front + "@" + tail).value, front, tail);
  }

  lemma HostWithoutAt(tail: string)
    requires '@' !in tail
    ensures '@' !in HostOf(tail)
  {
    hide FirstSeparator;
    NotIn(tail, |HostOf(tail)|);
  }

  lemma FrontIsUserinfo(rules: Rules, p: Parts)
    requires p.at < |p.rest|
    ensures Front(rules, p) in {"", "***", MASK} || (p.prefix == "" && !rules.carries(Front(rules, p)))
  {
  }

  lemma SwallowedIsNot(rules: Rules, value: string, p: Parts)
    requires Evidence(rules.carries) && Cut(rules.trim(value)) == Some(p)
    requires !KeepsAuthority(rules, p.rest[p.at + 1..])
    requires var y := p.prefix + Front(rules, p) + "@" + TailOf(rules, p.rest[p.at + 1..]); rules.trim(y) == y
    ensures var y := p.prefix + Front(rules, p) + "@" + TailOf(rules, p.rest[p.at + 1..]);
      Redacted(rules, y).Some? && Redacted(rules, y).value != y
  {
    hide TailOf, Cut, HostOf, Redacted, KeepsAuthority, Evidence, Front;
    var after := p.rest[p.at + 1..];
    var front, tail := Front(rules, p), TailOf(rules, after);
    HostHasNoAt(rules.trim(value));
    var segment, more := TailWithoutSeparator(rules, after);
    LostMeansAt(rules, after);
    CutAgain(rules, rules.trim(value), tail);
    AtInHost(segment, more);
    FrontShapes(rules, p);
    SecondPassMasks(rules, p.prefix + front + "@" + tail, Cut(p.prefix + front + "@" + tail).value, front, segment, more);
  }

  lemma LostMeansAt(rules: Rules, after: string)
    requires !KeepsAuthority(rules, after)
    ensures '@' in after
  {
    hide MaskStart, HostHidden, Slot;
  }

  lemma NoLastAt(host: string)
    requires '@' !in host
    ensures LastAt(host) == None
  {
    hide LastAt;
  }

  /** Without a separator in the segment the slot reaches over its `@`. */
  lemma AtInHost(segment: string, more: string)
    requires NoEnd(segment) && '@' !in segment
    ensures var host := HostOf(segment + "@" + more); '@' in host && |segment| <= LastAt(host).value
  {
    hide FirstSeparator, LastAt, EndsAuthority;
    var tail := segment + "@" + more;
    SeparatorBehind(segment, more);
    var host := HostOf(tail);
    assert host[|segment|] == tail[|segment|] == '@';
    LastAtMeans(host, LastAt(host).value);
  }

  /* ---- A value that is masked further ---- */

  /** Literal colons only, no IPv6 literal, nothing to trim: rules that meet every law above. */
  const LITERAL: Rules := Rules(COLONS, _ => false, s => s)

  lemma NoScheme(value: string)
    requires value != "" && value[0] == '@'
    ensures SplitScheme(value) == ("", value)
  {
    match FindText(value, "://") {
      case None =>
      case Some(n) =>
        assert n > 0 ==> value[..n][0] == '@';
    }
  }

  lemma HeadIsMasked(carries: Carries, head: string)
    requires Evidence(carries) && head == ":/"
    ensures MaskStart(carries, head, 0) == Some(0)
  {
    hide Starts, MaskStart, LeftmostHidden, Evidence;
    StartsHold(head, 0);
    MaskedExactly(carries, head, 0);
    MaskCovers(carries, head, 0);
    assert head[0..] == head && head[0] == ':' && ':' in head;
    ColonIsEvidence(carries, head);
    assert ':' !in head[1..] && ':' !in head[2..];
  }

  lemma BareColonIsNoHost()
    ensures !IsHostPort(LITERAL, ":") && !HostHidden(LITERAL, ":")
  {
    assert Find(":", ':') == 0;
    assert ":"[1..] == "" && Without(":", ':') == "";
  }

  lemma OneMask(after: string)
    requires after == ":/@"
    ensures MaskedAfter(LITERAL, after) == Some(MASK + "@")
  {
    hide MaskStart, IsHostPort, HostHidden, Runs;
    var head := ":/";
    FirstSeparatorIs(after, 1);
    assert HostOf(after) == ":";
    BareColonIsNoHost();
    assert after == head + "@" + "";
    RunsJoin(LITERAL.carries, head, "", 0);
    NothingToMask(LITERAL.carries, "", 0);
    HeadIsMasked(LITERAL.carries, head);
    assert head[..0] + MASK == MASK && MASK + "@" + "" == MASK + "@";
  }

  lemma CutFirst(value: string)
    requires value == "@:/@"
    ensures Cut(value) == Some(Parts("", value, Some(2), 0))
  {
    hide FirstSeparator, LastAt, SplitScheme;
    NoScheme(value);
    FirstSeparatorIs(value, 2);
    LastAtIs(value[..2], 0);
  }

  lemma FirstRound(value: string)
    requires value == "@:/@"
    ensures Redacted(LITERAL, value) == Some("@***:***@")
  {
    hide MaskedAfter, Cut, HostOf;
    CutFirst(value);
    assert value[..0] == "" && value[1..] == ":/@";
    OneMask(":/@");
    assert "" + "@" + (MASK + "@") == "@***:***@";
  }

  lemma LiteralLaws()
    ensures Evidence(LITERAL.carries) && !LITERAL.carries("***") && !LITERAL.carries("******") && Trims(LITERAL, _ => false)
  {
  }

  lemma SeparatorIsMasked(after: string)
    requires after == ":/@"
    ensures !KeepsAuthority(LITERAL, after)
  {
    hide MaskStart, HostHidden, IsHostPort;
    assert after == ":/" + "@" + "";
    FindJoined(":/", "");
    BareColonIsNoHost();
    FirstSeparatorIs(after, 1);
    assert HostOf(after) == ":";
    HeadIsMasked(LITERAL.carries, ":/");
  }

  /** A mask that swallows the separator that ended the authority is masked further. */
  lemma TwiceIsNotOnce()
    ensures Redacted(LITERAL, "@:/@") == Some("@***:***@") && MaskForLog(LITERAL, "@***:***@") != "@***:***@"
  {
    hide Redacted, Cut, KeepsAuthority, Evidence, Trims;
    var value := "@:/@";
    LiteralLaws();
    CutFirst(value);
    FirstRound(value);
    assert value[1..] == ":/@";
    SeparatorIsMasked(":/@");
    TwiceIsOnceExactly(LITERAL, _ => false, value);
  }
}
