/** What a redacted value hides, what it still shows, and which values are left alone. */
module RedactionTheorems {
  import opened Wrappers
  import opened RunMask
  import opened CleanText
  import opened ReportTypes
  import opened Redaction

  /* ---- The host slot ends in front of the next `@` ---- */

  lemma {:induction false} LowerConcat(a: string, b: string)
    ensures AsciiLower(a + b) == AsciiLower(a) + AsciiLower(b)
  {
    if a == "" {
      assert a + b == b;
    } else {
      assert (a + b)[1..] == a[1..] + b;
      LowerConcat(a[1..], b);
    }
  }

  lemma {:induction false} TrimStops(a: string, b: string, c: char)
    requires a != "" && a[|a| - 1] != c
    ensures TrimEnd(a + b, c) == a + TrimEnd(b, c)
    decreases |b|
  {
    if b == "" {
      assert a + b == a;
    } else if b[|b| - 1] == c {
      assert (a + b)[..|a + b| - 1] == a + b[..|b| - 1];
      TrimStops(a, b[..|b| - 1], c);
    }
  }

  lemma EndsWithMore(a: string, b: string, end: string)
    requires EndsWith(b, end)
    ensures EndsWith(a + b, end)
  {
    assert (a + b)[|a + b| - |end|..] == b[|b| - |end|..];
  }

  /** An entity in front of a `#` does not reach back over an `@`. */
  lemma EntityAfterAt(s: string, at: nat, i: nat)
    requires at < i <= |s| && s[at] == '@' && HashStartsEntity(s[at + 1..], i - at - 1)
    ensures HashStartsEntity(s, i)
  {
    hide EndsWith;
    var front, before := s[..at + 1], s[at + 1..][..i - at - 1];
    assert s[..i] == front + before;
    TrimStops(front, before, ';');
    LowerConcat(front, TrimEnd(before, ';'));
    var lower := AsciiLower(TrimEnd(before, ';'));
    forall end | EndsWith(lower, end)
      ensures EndsWith(AsciiLower(front) + lower, end)
    {
      EndsWithMore(AsciiLower(front), lower, end);
    }
    if EndsWith(before, "&") {
      EndsWithMore(front, before, "&");
    }
  }

  lemma SeparatorAtMost(s: string, i: nat)
    requires i < |s| && EndsAuthority(s, i)
    ensures FirstSeparator(s).Some? && FirstSeparator(s).value <= i
  {
  }

  lemma SeparatorEnds(s: string)
    ensures FirstSeparator(s).Some? ==> EndsAuthority(s, FirstSeparator(s).value)
  {
  }

  lemma NotIn(s: string, n: nat)
    requires n <= |s| && '@' !in s
    ensures '@' !in s[..n]
  {
  }

  /** What follows the userinfo up to the next separator holds no `@`. */
  lemma HostHasNoAt(value: string)
    requires Cut(value).Some?
    ensures var p := Cut(value).value; '@' !in HostOf(p.rest[p.at + 1..])
  {
    hide EndsAuthority, FirstSeparator, SplitScheme;
    var rest := SplitScheme(value).1;
    var p := Cut(value).value;
    var after, separator := p.rest[p.at + 1..], FirstSeparator(rest);
    var inside := if separator.Some? then LastAt(rest[..separator.value]) else None;
    if inside.Some? {
      var n := separator.value - p.at - 1;
      assert rest[..separator.value][p.at + 1..] == after[..n];
      SeparatorEnds(rest);
      SeparatorCarries(rest, p.at, separator.value);
      SeparatorAtMost(after, n);
      NotIn(after[..n], FirstSeparator(after).value);
      assert after[..n][..FirstSeparator(after).value] == after[..FirstSeparator(after).value];
    } else {
      NotIn(after, |HostOf(after)|);
    }
  }

  lemma SeparatorCarries(s: string, at: nat, i: nat)
    requires at < i < |s| && s[at] == '@' && EndsAuthority(s, i)
    ensures i - at - 1 < |s[at + 1..]| && EndsAuthority(s[at + 1..], i - at - 1)
  {
    hide HashStartsEntity;
    if HashStartsEntity(s[at + 1..], i - at - 1) {
      EntityAfterAt(s, at, i);
    }
  }

  /* ---- What stays readable ---- */

  /** A host slot holds no path or query separator, and no fragment separator unless it holds a `#`. */
  lemma HostHasNoSeparator(after: string)
    requires '#' !in HostOf(after)
    ensures NoSeparator(HostOf(after))
  {
    var host := HostOf(after);
    forall i | 0 <= i < |host|
      ensures !Separator(host[i])
    {
      assert host[i] == after[i] && !EndsAuthority(after, i);
    }
  }

  /** An accepted `host[:port]` without `#` and `@` directly after the userinfo stays readable. */
  lemma HostStaysReadable(rules: Rules, after: string)
    requires Evidence(rules.carries)
    requires IsHostPort(rules, HostOf(after)) && '#' !in HostOf(after) && '@' !in HostOf(after)
    ensures var tail, host := TailOf(rules, after), HostOf(after); |host| <= |tail| && tail[..|host|] == host
  {
    hide IsHostPort, Runs;
    HostHasNoSeparator(after);
    FloorKept(rules.carries, after, |HostOf(after)|);
  }

  /** What stands in front of the `@` of a redacted value. */
  function Front(rules: Rules, p: Parts): string
    requires p.at < |p.rest|
  {
    var userinfo := p.rest[..p.at];
    if userinfo == "" then ""
    else if rules.carries(userinfo) then MASK
    else if p.prefix == "" then userinfo
    else "***"
  }

  lemma RedactedForm(rules: Rules, value: string)
    requires Redacted(rules, value).Some?
    ensures var p := Cut(rules.trim(value)).value;
      Redacted(rules, value) == Some(p.prefix + Front(rules, p) + "@" + TailOf(rules, p.rest[p.at + 1..]))
  {
    hide MaskedAfter, OpaqueScheme, PathAt, HostOf, Cut;
    var p := Cut(rules.trim(value)).value;
    assert p.prefix + "" == p.prefix;
  }

  /** So whatever is masked around it, a redacted value shows that host after the `@` of its userinfo. */
  lemma RedactedShowsHost(rules: Rules, value: string)
    requires Evidence(rules.carries) && Redacted(rules, value).Some?
    requires var after := Cut(rules.trim(value)).value.rest[Cut(rules.trim(value)).value.at + 1..];
      IsHostPort(rules, HostOf(after)) && '#' !in HostOf(after)
    ensures var p := Cut(rules.trim(value)).value;
      var tail, host := TailOf(rules, p.rest[p.at + 1..]), HostOf(p.rest[p.at + 1..]);
      && |host| <= |tail| && tail[..|host|] == host
      && Redacted(rules, value) == Some(p.prefix + Front(rules, p) + "@" + tail)
  {
    hide MaskedAfter, OpaqueScheme, PathAt, HostOf, Cut, IsHostPort, Front, TailOf, Evidence;
    var p := Cut(rules.trim(value)).value;
    HostHasNoAt(rules.trim(value));
    HostStaysReadable(rules, p.rest[p.at + 1..]);
    RedactedForm(rules, value);
  }

  /* ---- What is hidden ---- */

  /** The masked tail as the runs of the slot, masked or not. */
  lemma TailIsRuns(rules: Rules, after: string)
    ensures var (slot, floor) := Slot(rules, after);
      && TailOf(rules, after) == Runs(rules.carries, slot, floor).0
      && (MaskedAfter(rules, after).None? <==> !HostHidden(rules, HostOf(after)) && !Runs(rules.carries, slot, floor).1)
  {
    hide Runs, HostHidden, IsHostPort;
    var (slot, floor) := Slot(rules, after);
    RunsKeepFrame(rules.carries, slot, floor);
  }

  /** The floor of a slot lies in front of its first `@`. */
  lemma SlotFloor(rules: Rules, after: string)
    requires '@' !in HostOf(after)
    ensures var (slot, floor) := Slot(rules, after); floor <= Find(slot, '@') && floor <= |slot|
    ensures HostHidden(rules, HostOf(after)) ==> var (slot, floor) := Slot(rules, after); floor == |MASK| && slot[..floor] == MASK
  {
    hide HostHidden, IsHostPort;
    var (slot, floor) := Slot(rules, after);
    assert slot[..floor] == MASK || slot[..floor] == HostOf(after) || floor == 0;
    FindPast(slot, floor);
  }

  lemma NoSeparatorInMask()
    ensures NoSeparator(MASK) && '@' !in MASK
  {
  }

  /** A hidden host slot starts with the mask. */
  lemma HiddenHostIsMasked(rules: Rules, after: string)
    requires Evidence(rules.carries) && '@' !in HostOf(after) && HostHidden(rules, HostOf(after))
    ensures var tail := TailOf(rules, after); |MASK| <= |tail| && tail[..|MASK|] == MASK
  {
    hide HostHidden, Runs, MaskedAfter, Evidence, TailOf, IsHostPort, Slot, HostOf;
    NoSeparatorInMask();
    var (slot, floor) := Slot(rules, after);
    SlotFloor(rules, after);
    TailIsRuns(rules, after);
    FloorKept(rules.carries, slot, floor);
    RunsKeepFrame(rules.carries, slot, floor);
  }

  lemma TailIsClean(rules: Rules, after: string)
    requires Evidence(rules.carries) && '@' !in HostOf(after)
    ensures AllClean(rules.carries, TailOf(rules, after), Slot(rules, after).1)
    ensures MaskedAfter(rules, after).None? <==>
      !HostHidden(rules, HostOf(after)) && AllCalm(rules.carries, after, Slot(rules, after).1)
  {
    hide HostHidden, IsHostPort, Runs, AllClean, AllCalm, MaskedAfter, TailOf;
    var (slot, floor) := Slot(rules, after);
    SlotFloor(rules, after);
    TailIsRuns(rules, after);
    RunsAreClean(rules.carries, slot, floor);
  }

  /** `word:name@host` after one of the listed words, without `scheme://`: a mail address or the like, not a password. */
  predicate Exempt(rules: Rules, p: Parts)
    requires p.at < |p.rest|
  {
    var userinfo := p.rest[..p.at];
    p.prefix == "" && userinfo != "" && rules.carries(userinfo) && OpaqueScheme(rules, userinfo, HostOf(p.rest[p.at + 1..]))
  }

  lemma SchemeSplits(value: string)
    ensures var (prefix, rest) := SplitScheme(value); value == prefix + rest && '@' !in prefix
  {
    match FindText(value, "://") {
      case None =>
      case Some(n) =>
        assert value == value[..n] + "://" + value[n + 3..];
        if IsScheme(value[..n]) {
          assert forall i :: 0 <= i < n ==> value[..n][i] != '@';
        }
    }
  }

  lemma CutParts(value: string)
    ensures Cut(value).None? <==> '@' !in SplitScheme(value).1
    ensures Cut(value).Some? ==> var p := Cut(value).value;
      p.prefix == SplitScheme(value).0 && p.rest == SplitScheme(value).1 && p.rest[p.at] == '@'
  {
    hide FirstSeparator, SplitScheme, LastAt;
    var rest := SplitScheme(value).1;
    var separator := FirstSeparator(rest);
    if separator.Some? && LastAt(rest[..separator.value]).Some? {
      var at := LastAt(rest[..separator.value]).value;
      assert rest[at] == rest[..separator.value][at] == '@';
    }
  }

  /** The value is its cut put together again, and there is one exactly when there is an `@`. */
  lemma CutSplits(value: string)
    ensures Cut(value).None? <==> '@' !in value
    ensures Cut(value).Some? ==> var p := Cut(value).value;
      value == p.prefix + p.rest[..p.at] + "@" + p.rest[p.at + 1..]
  {
    hide Cut, SplitScheme;
    SchemeSplits(value);
    CutParts(value);
    if Cut(value).Some? {
      var p := Cut(value).value;
      Pieces(p.prefix, p.rest, p.at);
    }
  }

  lemma Pieces(prefix: string, rest: string, at: nat)
    requires at < |rest| && rest[at] == '@'
    ensures prefix + rest == prefix + rest[..at] + "@" + rest[at + 1..] && '@' in prefix + rest
  {
    assert (prefix + rest)[|prefix| + at] == '@';
  }

  lemma NothingAfterPathAt(rules: Rules, value: string)
    requires Cut(value).Some?
    ensures var p := Cut(value).value; PathAt(rules, p, HostOf(p.rest[p.at + 1..])) ==> '@' !in p.rest[p.at + 1..]
  {
    hide FirstSeparator, HostHidden, HostOf;
  }

  /**
    What is logged of a value with an `@`, unless it is exempt: the userinfo is the mask or carries
    no evidence; a host slot that hides a credential is the mask; and after it every run in front
    of a further `@` carries no evidence or is the mask. Only an accepted host is passed over.
   */
  lemma OnlyMaskIsShown(rules: Rules, value: string) returns (front: string, tail: string, floor: nat)
    requires Evidence(rules.carries) && Cut(rules.trim(value)).Some? && !Exempt(rules, Cut(rules.trim(value)).value)
    ensures var p := Cut(rules.trim(value)).value;
      var shown, host := p.prefix + front + "@" + tail, HostOf(p.rest[p.at + 1..]);
      && (MaskForLog(rules, value) == shown || (MaskForLog(rules, value) == value && rules.trim(value) == shown))
      && (front in {"", "***", MASK} || !rules.carries(front))
      && AllClean(rules.carries, tail, floor)
      && (HostHidden(rules, host) ==> |MASK| <= |tail| && tail[..|MASK|] == MASK && floor == |MASK|)
      && (!HostHidden(rules, host) ==> floor == if IsHostPort(rules, host) then |host| else 0)
  {
    hide HostHidden, IsHostPort, MaskedAfter, OpaqueScheme, HostOf, Cut, AllClean, AllCalm, TailOf, Evidence, Redacted, Front,
         Exempt;
    var p := Cut(rules.trim(value)).value;
    var userinfo, after := p.rest[..p.at], p.rest[p.at + 1..];
    HostHasNoAt(rules.trim(value));
    CutSplits(rules.trim(value));
    TailIsClean(rules, after);
    SlotFloor(rules, after);
    floor := Slot(rules, after).1;
    if Redacted(rules, value).Some? {
      RedactedForm(rules, value);
      FrontIsMasked(rules, p);
      front, tail := Front(rules, p), TailOf(rules, after);
      if HostHidden(rules, HostOf(after)) {
        HiddenHostIsMasked(rules, after);
      }
    } else {
      AloneIsCalm(rules, value);
      front, tail := userinfo, after;
    }
  }

  lemma FrontIsMasked(rules: Rules, p: Parts)
    requires p.at < |p.rest|
    ensures Front(rules, p) in {"", "***", MASK} || !rules.carries(Front(rules, p))
  {
  }

  /** A value that is left alone, though not exempt, shows no evidence. */
  lemma AloneIsCalm(rules: Rules, value: string)
    requires Evidence(rules.carries) && Cut(rules.trim(value)).Some? && Redacted(rules, value).None?
    ensures var p := Cut(rules.trim(value)).value;
      var userinfo, after := p.rest[..p.at], p.rest[p.at + 1..];
      Exempt(rules, p) ||
        (!HostHidden(rules, HostOf(after)) && !rules.carries(userinfo) && AllClean(rules.carries, after, Slot(rules, after).1))
  {
    hide HostHidden, IsHostPort, MaskedAfter, OpaqueScheme, HostOf, Cut, AllClean, AllCalm, TailOf, Slot;
    var p := Cut(rules.trim(value)).value;
    var userinfo, after := p.rest[..p.at], p.rest[p.at + 1..];
    HostHasNoAt(rules.trim(value));
    TailIsClean(rules, after);
    if p.prefix != "" && userinfo != "" {
      NothingAfterPathAt(rules, rules.trim(value));
      NoAtIsCalm(rules.carries, after, Slot(rules, after).1);
    } else if AllCalm(rules.carries, after, Slot(rules, after).1) {
      CalmIsClean(rules.carries, after, Slot(rules, after).1);
    }
  }

  /**
    Exactly the values that are left alone: without `@`; exempt; with `scheme://` and an `@` past
    the authority when nothing in front of it carries evidence; or without evidence in the
    userinfo, in the host slot, and in every run in front of a further `@`.
   */
  lemma LeftAloneExactly(rules: Rules, value: string)
    requires Evidence(rules.carries)
    ensures Redacted(rules, value).None? <==>
      '@' in rules.trim(value) ==>
        Cut(rules.trim(value)).Some? &&
        var p := Cut(rules.trim(value)).value;
        var userinfo, after := p.rest[..p.at], p.rest[p.at + 1..];
        || Exempt(rules, p)
        || (p.prefix != "" && userinfo != "" && PathAt(rules, p, HostOf(after)))
        || ((userinfo == "" || (p.prefix == "" && !rules.carries(userinfo)))
            && !HostHidden(rules, HostOf(after)) && AllCalm(rules.carries, after, Slot(rules, after).1))
  {
    hide HostHidden, IsHostPort, MaskedAfter, OpaqueScheme, HostOf, Cut, AllCalm, TailOf, Slot, PathAt;
    CutSplits(rules.trim(value));
    if '@' in rules.trim(value) {
      var p := Cut(rules.trim(value)).value;
      HostHasNoAt(rules.trim(value));
      TailIsClean(rules, p.rest[p.at + 1..]);
    }
  }
}
