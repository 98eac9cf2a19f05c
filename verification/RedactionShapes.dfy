/** Which host slots are masked and which stay readable, and where a value is cut, said of the characters of the value. */
module RedactionShapes {
  import opened Wrappers
  import opened RunMask
  import opened CleanText
  import opened ReportTypes
  import opened Redaction
  import opened RedactionTheorems

  /* ---- The host slot ---- */

  /** In front of the first literal colon there is a percent sign, an ampersand, or a full-width or small colon. */
  predicate OtherColon(host: string) {
    exists i :: 0 <= i < |host| && host[i] in {'%', '&', '\U{FF1A}', '\U{FE55}'} && ':' !in host[..i]
  }

  predicate Digits(s: string) {
    s != "" && forall i :: 0 <= i < |s| ==> '0' <= s[i] <= '9'
  }

  /** An address literal in brackets closed at `n`, up to its zone, and perhaps a port. */
  predicate AddressUpTo(rules: Rules, host: string, n: nat) {
    && 1 <= n < |host| && host[0] == '[' && host[n] == ']' && ']' !in host[1..n]
    && (exists z :: 1 <= z <= n && '%' !in host[1..z] && (z == n || host[z] == '%') && rules.ipv6(host[1..z]))
    && (n == |host| - 1 || (host[n + 1] == ':' && Digits(host[n + 2..])))
  }

  predicate BracketedAddress(rules: Rules, host: string) {
    exists n :: 1 <= n < |host| && AddressUpTo(rules, host, n)
  }

  /** A name without any colon-like character, and perhaps a port. */
  predicate NamedHost(host: string) {
    exists n :: 1 <= n <= |host| && PlainName(host[..n]) && (n == |host| || (host[n] == ':' && Digits(host[n + 1..])))
  }

  predicate PlainName(name: string) {
    name != "" && name[0] != '[' && forall i :: 0 <= i < |name| ==> name[i] !in {':', '%', '&', '\U{FF1A}', '\U{FE55}'}
  }

  lemma FindIs(s: string, c: char, n: nat)
    requires n <= |s| && c !in s[..n] && (n < |s| ==> s[n] == c)
    ensures Find(s, c) == n
  {
    var f := Find(s, c);
    assert forall i :: 0 <= i < n ==> s[..n][i] == s[i];
    assert forall i :: 0 <= i < f ==> s[..f][i] == s[i];
  }

  lemma SliceIn(s: string, a: nat, b: nat)
    requires 1 <= a <= b <= |s|
    ensures s[1..][..b - 1] == s[1..b] && s[1..][a - 1..] == s[a..] && s[1..b][..a - 1] == s[1..a]
  {
  }

  /** What `is_host_port` looks at behind an opening bracket, at its positions. */
  lemma BracketParts(rules: Rules, host: string)
    requires host != "" && host[0] == '['
    ensures var close := Find(host[1..], ']');
      IsHostPort(rules, host) <==>
        close + 1 < |host| && rules.ipv6(host[1..close + 1][..Find(host[1..close + 1], '%')])
        && (close + 2 == |host| || (host[close + 2] == ':' && PortOk(host[close + 3..])))
  {
    hide PortOk;
    var rest := host[1..];
    var close := Find(rest, ']');
    if close < |rest| {
      SliceIn(host, close + 1, close + 1);
      SliceIn(host, close + 2, close + 2);
      assert rest[close + 1..] == host[close + 2..];
      assert close + 2 < |host| ==> host[close + 2..][1..] == host[close + 3..];
    }
  }

  lemma AddressAt(rules: Rules, host: string, n: nat)
    requires AddressUpTo(rules, host, n)
    ensures Find(host[1..], ']') == n - 1 && rules.ipv6(host[1..n][..Find(host[1..n], '%')])
  {
    hide Digits;
    SliceIn(host, n, n);
    FindIs(host[1..], ']', n - 1);
    var z :| 1 <= z <= n && '%' !in host[1..z] && (z == n || host[z] == '%') && rules.ipv6(host[1..z]);
    SliceIn(host, z, n);
    FindIs(host[1..n], '%', z - 1);
  }

  lemma DigitsArePort(s: string)
    ensures Digits(s) <==> PortOk(s)
  {
  }

  lemma BracketedExactly(rules: Rules, host: string)
    requires host != "" && host[0] == '['
    ensures IsHostPort(rules, host) <==> BracketedAddress(rules, host)
  {
    hide IsHostPort, Digits, PortOk, AddressUpTo;
    var n := Find(host[1..], ']') + 1;
    BracketParts(rules, host);
    if n < |host| {
      DigitsArePort(host[Min(n + 2, |host|)..]);
      if IsHostPort(rules, host) {
        AddressFound(rules, host, n);
      }
    }
    forall m | 1 <= m < |host| && AddressUpTo(rules, host, m)
      ensures m == n && IsHostPort(rules, host)
    {
      AddressAt(rules, host, m);
      AddressTail(rules, host, m);
    }
  }

  lemma AddressTail(rules: Rules, host: string, n: nat)
    requires AddressUpTo(rules, host, n)
    ensures n < |host| && (n + 1 == |host| || (host[n + 1] == ':' && Digits(host[n + 2..])))
  {
  }

  lemma AddressFound(rules: Rules, host: string, n: nat)
    requires 1 <= n < |host| && host[0] == '[' && n == Find(host[1..], ']') + 1
    requires rules.ipv6(host[1..n][..Find(host[1..n], '%')])
    requires n + 1 == |host| || (host[n + 1] == ':' && Digits(host[n + 2..]))
    ensures AddressUpTo(rules, host, n)
  {
    hide Digits;
    var z := Find(host[1..n], '%') + 1;
    SliceIn(host, z, n);
    assert host[1..][..n - 1] == host[1..n];
    assert '%' !in host[1..z] && (z == n || host[z] == '%') && rules.ipv6(host[1..z]);
  }

  lemma NamedExactly(rules: Rules, host: string)
    requires host == "" || host[0] != '['
    ensures IsHostPort(rules, host) <==> NamedHost(host)
  {
    var colon := Find(host, ':');
    if IsHostPort(rules, host) {
      NoColonLike(host[..colon]);
      assert PlainName(host[..colon]);
    }
    if n :| 1 <= n <= |host| && PlainName(host[..n]) && (n == |host| || (host[n] == ':' && Digits(host[n + 1..]))) {
      assert ':' !in host[..n];
      FindIs(host, ':', n);
      NoColonLike(host[..n]);
    }
  }

  lemma NoColonLike(s: string)
    ensures HidesColonInHost(s) <==> exists i :: 0 <= i < |s| && s[i] in {'%', '&', '\U{FF1A}', '\U{FE55}'}
  {
  }

  lemma OtherColonIsNoName(host: string)
    requires OtherColon(host)
    ensures !NamedHost(host)
  {
    var i :| 0 <= i < |host| && host[i] in {'%', '&', '\U{FF1A}', '\U{FE55}'} && ':' !in host[..i];
    forall n | 1 <= n <= |host| && PlainName(host[..n])
      ensures n < |host| && host[n] != ':'
    {
      assert forall k :: 0 <= k < n ==> host[..n][k] == host[k];
      assert forall k :: 0 <= k < i ==> host[..i][k] == host[k];
    }
  }

  lemma {:induction false} WithoutConcat(a: string, b: string, c: char)
    ensures Without(a + b, c) == Without(a, c) + Without(b, c)
  {
    if a == "" {
      assert a + b == b;
    } else {
      assert (a + b)[1..] == a[1..] + b;
      WithoutConcat(a[1..], b, c);
    }
  }

  /** The character is dropped wherever it stands, and every other stays where it is. */
  lemma WithoutExactly(a: string, x: char, b: string, c: char)
    ensures Without(a + [x] + b, c) == Without(a, c) + (if x == c then "" else [x]) + Without(b, c) && Without("", c) == ""
  {
    WithoutConcat(a + [x], b, c);
    WithoutConcat(a, [x], c);
    assert [x][1..] == "";
  }

  /** A slot in which a credential stands where a host should: a colon in disguise, or brackets around no address. */
  predicate HoldsCredential(rules: Rules, host: string) {
    || (host != "" && host[0] != '[' && OtherColon(host) && rules.carries(Without(host, ':')))
    || (host != "" && host[0] == '[' && ':' in host && !BracketedAddress(rules, host))
  }

  /** What is logged of a value with such a slot has the mask behind the `@` of its userinfo, whatever else it is. */
  lemma CredentialInHostIsMasked(rules: Rules, value: string) returns (front: string, tail: string)
    requires Evidence(rules.carries) && Cut(rules.trim(value)).Some?
    requires var p := Cut(rules.trim(value)).value; HoldsCredential(rules, HostOf(p.rest[p.at + 1..]))
    ensures MaskForLog(rules, value) == Cut(rules.trim(value)).value.prefix + front + "@" + tail
    ensures |tail| >= 7 && tail[..7] == "***:***"
    ensures var p := Cut(rules.trim(value)).value;
      var after := p.rest[p.at + 1..];
      if '@' in after then |tail| >= 8 && tail[7] == '@' else tail == "***:***" + after[|HostOf(after)|..]
  {
    hide IsHostPort, Cut, HostOf, TailOf, MaskedAfter, Slot, OtherColon, BracketedAddress, NamedHost, Evidence, OpaqueScheme, Without;
    var p := Cut(rules.trim(value)).value;
    var after := p.rest[p.at + 1..];
    var host := HostOf(after);
    HostHasNoAt(rules.trim(value));
    if host[0] == '[' {
      BracketedExactly(rules, host);
    } else {
      NamedExactly(rules, host);
      OtherColonIsNoName(host);
    }
    assert HostHidden(rules, host);
    HiddenIsRedacted(rules, value);
    RedactedForm(rules, value);
    HiddenHostIsMasked(rules, after);
    HiddenTail(rules, after);
    front, tail := Front(rules, p), TailOf(rules, after);
  }

  /** Behind a hidden slot comes what follows it, or the next `@` and what follows that. */
  lemma HiddenTail(rules: Rules, after: string)
    requires Evidence(rules.carries) && HostHidden(rules, HostOf(after))
    ensures var tail := TailOf(rules, after);
      if '@' in after then |tail| >= 8 && tail[7] == '@' else tail == "***:***" + after[|HostOf(after)|..]
  {
    hide HostHidden, HostOf, MaskStart, Runs, Evidence;
    var slot := Slot(rules, after).0;
    TailIsRuns(rules, after);
    NoSeparatorInMask();
    if '@' in after {
      var rest := after[Find(after, '@') + 1..];
      FindSplits(after);
      assert slot == MASK + "@" + rest;
      assert MASK[..7] == MASK;
      NothingAtTheEnd(rules.carries, MASK, 7);
      RunsJoin(rules.carries, MASK, rest, 7);
    } else {
      NothingToMask(rules.carries, slot, 7);
    }
  }

  lemma HiddenIsRedacted(rules: Rules, value: string)
    requires Evidence(rules.carries) && Cut(rules.trim(value)).Some?
    requires var p := Cut(rules.trim(value)).value; HostHidden(rules, HostOf(p.rest[p.at + 1..]))
    ensures Redacted(rules, value).Some?
  {
    hide HostHidden, Cut, HostOf, Slot, MaskTail;
  }

  /** A named host or a bracketed address, without `#`, stays readable directly behind the `@`, whether the value is masked or not. */
  lemma HostIsShown(rules: Rules, value: string) returns (front: string, tail: string)
    requires Evidence(rules.carries) && Cut(rules.trim(value)).Some?
    requires var p := Cut(rules.trim(value)).value;
      var host := HostOf(p.rest[p.at + 1..]);
      '#' !in host && (if host != "" && host[0] == '[' then BracketedAddress(rules, host) else NamedHost(host))
    ensures var p := Cut(rules.trim(value)).value;
      var shown, host := p.prefix + front + "@" + tail, HostOf(p.rest[p.at + 1..]);
      && (MaskForLog(rules, value) == shown || (MaskForLog(rules, value) == value && rules.trim(value) == shown))
      && |host| <= |tail| && tail[..|host|] == host
  {
    hide IsHostPort, Cut, HostOf, TailOf, MaskedAfter, BracketedAddress, NamedHost, Evidence, Redacted;
    var p := Cut(rules.trim(value)).value;
    var userinfo, after := p.rest[..p.at], p.rest[p.at + 1..];
    var host := HostOf(after);
    if host != "" && host[0] == '[' {
      BracketedExactly(rules, host);
    } else {
      NamedExactly(rules, host);
    }
    CutSplits(rules.trim(value));
    if Redacted(rules, value).Some? {
      RedactedShowsHost(rules, value);
      front, tail := Front(rules, p), TailOf(rules, after);
    } else {
      front, tail := userinfo, after;
    }
  }

  /** A slot with nothing but literal colons is no credential: with no further `@` all behind the userinfo stays as it is. */
  lemma LiteralColonIsShown(rules: Rules, value: string) returns (front: string)
    requires Evidence(rules.carries) && Cut(rules.trim(value)).Some?
    requires var after := Cut(rules.trim(value)).value.rest[Cut(rules.trim(value)).value.at + 1..];
      '@' !in after && (HostOf(after) == "" || HostOf(after)[0] != '[') && !rules.carries(Without(HostOf(after), ':'))
    ensures var p := Cut(rules.trim(value)).value;
      var shown := p.prefix + front + "@" + p.rest[p.at + 1..];
      MaskForLog(rules, value) == shown || (MaskForLog(rules, value) == value && rules.trim(value) == shown)
  {
    hide IsHostPort, Cut, HostOf, Evidence, Redacted, Without, TailOf;
    var p := Cut(rules.trim(value)).value;
    var after := p.rest[p.at + 1..];
    CutSplits(rules.trim(value));
    PlainTail(rules, after);
    if Redacted(rules, value).Some? {
      RedactedForm(rules, value);
      front := Front(rules, p);
    } else {
      front := p.rest[..p.at];
    }
  }

  lemma PlainTail(rules: Rules, after: string)
    requires '@' !in after && (HostOf(after) == "" || HostOf(after)[0] != '[') && !rules.carries(Without(HostOf(after), ':'))
    ensures TailOf(rules, after) == after
  {
    hide IsHostPort, HostOf, Without;
    NothingToMask(rules.carries, after, Slot(rules, after).1);
  }

  /* ---- The front ---- */

  /** The text ends in an ampersand or in one of its spellings, semicolons aside for the latter. */
  predicate EndsInAmpersand(s: string) {
    var lower := AsciiLower(TrimEnd(s, ';'));
    EndsWith(s, "&") || EndsWith(lower, "&amp") || EndsWith(lower, "&#38") || EndsWith(lower, "&#x26")
  }

  /** The host slot ends in front of the first slash, question mark, or hash that is not part of an entity. */
  lemma HostEndsExactly(after: string)
    ensures var k := |HostOf(after)|;
      && k <= |after| && HostOf(after) == after[..k]
      && (k < |after| ==> after[k] in {'/', '?', '#'} && (after[k] == '#' ==> !EndsInAmpersand(after[..k])))
      && forall j :: 0 <= j < k ==> after[j] !in {'/', '?'} && (after[j] == '#' ==> EndsInAmpersand(after[..j]))
  {
    hide EndsAuthority, EndsInAmpersand;
    forall j | 0 <= j < |after|
      ensures EndsAuthority(after, j) <==> after[j] in {'/', '?'} || (after[j] == '#' && !EndsInAmpersand(after[..j]))
    {
      EndsExactly(after, j);
    }
  }

  lemma EndsExactly(s: string, i: nat)
    requires i < |s|
    ensures EndsAuthority(s, i) <==> s[i] in {'/', '?'} || (s[i] == '#' && !EndsInAmpersand(s[..i]))
  {
    hide EndsWith, AsciiLower, TrimEnd;
  }

  /** Letters, digits, plus, minus and dot after a letter. */
  predicate SchemeWord(s: string) {
    && s != "" && ('a' <= s[0] <= 'z' || 'A' <= s[0] <= 'Z')
    && forall i :: 0 <= i < |s| ==> 'a' <= s[i] <= 'z' || 'A' <= s[i] <= 'Z' || '0' <= s[i] <= '9' || s[i] in {'+', '-', '.'}
  }

  /**
    Where a value with an `@` is cut: behind a scheme word in front of the first `://`, if there is one, and at the last `@` in
    front of the end of the authority, or at the last of all if there is none.
   */
  lemma CutExactly(value: string)
    requires '@' in value
    ensures Cut(value).Some?
    ensures var p := Cut(value).value;
      var end := |HostOf(p.rest)|;
      && value == p.prefix + p.rest && p.at < |p.rest| && p.rest[p.at] == '@'
      && (p.prefix == "" || exists n :: 1 <= n && |p.prefix| == n + 3 && SchemeWord(p.prefix[..n]) && p.prefix[n..] == "://")
      && (p.prefix == "" ==> forall n :: 1 <= n <= |value| - 3 && value[n..n + 3] == "://" ==> !SchemeWord(value[..n]))
      && (if p.at < end then '@' !in p.rest[p.at + 1..end] else '@' !in p.rest[..end] && '@' !in p.rest[p.at + 1..])
  {
    hide FindText, LastAt, EndsAuthority, Cut, SplitScheme, HostOf, SchemeWord;
    CutSplits(value);
    var p := Cut(value).value;
    SchemeSplits(value);
    PrefixExactly(value);
    CutParts(value);
    AtExactly(value);
  }

  lemma PrefixExactly(value: string)
    ensures var prefix := SplitScheme(value).0;
      && (prefix == "" || exists n :: 1 <= n && |prefix| == n + 3 && SchemeWord(prefix[..n]) && prefix[n..] == "://")
      && (prefix == "" ==> forall n :: 1 <= n <= |value| - 3 && value[n..n + 3] == "://" ==> !SchemeWord(value[..n]))
  {
    hide FindText;
    var found := FindText(value, "://");
    if found.Some? && IsScheme(value[..found.value]) {
      var n := found.value;
      assert SplitScheme(value).0[..n] == value[..n] && SplitScheme(value).0[n..] == "://";
    } else {
      forall n | 1 <= n <= |value| - 3 && value[n..n + 3] == "://"
        ensures !SchemeWord(value[..n])
      {
        FirstText(value, "://", n);
        if SchemeWord(value[..n]) {
          SchemeHasNoColon(value, n);
        }
      }
    }
  }

  /** An occurrence is at or behind the one that is found. */
  lemma {:induction false} FirstText(s: string, pat: string, n: nat)
    requires n + |pat| <= |s| && s[n..n + |pat|] == pat
    ensures FindText(s, pat).Some? && FindText(s, pat).value <= n
    decreases |s|
  {
    if s[..|pat|] != pat {
      assert s[1..][n - 1..n - 1 + |pat|] == s[n..n + |pat|];
      FirstText(s[1..], pat, n - 1);
    }
  }

  lemma SchemeHasNoColon(value: string, n: nat)
    requires n + 3 <= |value| && value[n..n + 3] == "://" && SchemeWord(value[..n])
    ensures FindText(value, "://") == Some(n) && IsScheme(value[..n])
  {
    hide FindText;
    FirstText(value, "://", n);
    var m := FindText(value, "://").value;
    assert value[m..m + 3][0] == value[m];
    assert forall j :: 0 <= j < n ==> value[..n][j] == value[j];
  }

  lemma AtExactly(value: string)
    requires Cut(value).Some?
    ensures var p := Cut(value).value;
      var end := |HostOf(p.rest)|;
      if p.at < end then '@' !in p.rest[p.at + 1..end] else '@' !in p.rest[..end] && '@' !in p.rest[p.at + 1..]
  {
    hide SplitScheme, LastAt, EndsAuthority, FirstSeparator;
    var p := Cut(value).value;
    var separator := FirstSeparator(p.rest);
    if separator.Some? {
      var n := separator.value;
      var inside := LastAt(p.rest[..n]);
      if inside.Some? {
        assert p.rest[..n][p.at + 1..] == p.rest[p.at + 1..n];
      } else {
        assert p.at < n ==> p.rest[..n][p.at] == p.rest[p.at];
        CutParts(value);
      }
    } else {
      assert p.rest[..|p.rest|] == p.rest;
    }
  }

  /**
    What stands in front of that `@` in a masked value: nothing for nothing, the full mask for evidence, the name itself if it has
    none and no scheme is in front of it, and three stars otherwise.
   */
  lemma FrontExactly(rules: Rules, value: string)
    requires Redacted(rules, value).Some?
    ensures var p := Cut(rules.trim(value)).value;
      var userinfo := p.rest[..p.at];
      Front(rules, p) == if userinfo == "" then "" else if rules.carries(userinfo) then "***:***"
                         else if p.prefix == "" then userinfo else "***"
  {
    hide Cut, Redacted;
  }

  predicate OpaqueWord(word: string) {
    word in {"mailto", "data", "urn", "tel", "sms", "geo", "magnet", "bitcoin"}
  }

  lemma OpaqueWords(word: string)
    ensures word in NON_HIERARCHICAL_SCHEMES <==> OpaqueWord(word)
  {
  }

  /** The values without `scheme://` whose userinfo has evidence and is kept: after one of eight words, in front of a host without a colon that holds no credential. */
  lemma ExemptExactly(rules: Rules, p: Parts)
    requires p.at < |p.rest|
    ensures Exempt(rules, p) <==>
      var userinfo, host := p.rest[..p.at], HostOf(p.rest[p.at + 1..]);
      && p.prefix == "" && userinfo != "" && rules.carries(userinfo) && ':' !in host && !HostHidden(rules, host)
      && exists n :: 0 <= n <= |userinfo| && ':' !in userinfo[..n] && (n == |userinfo| || userinfo[n] == ':')
                     && OpaqueWord(AsciiLower(userinfo[..n]))
  {
    hide HostHidden, HostOf, AsciiLower, OpaqueWord;
    var userinfo := p.rest[..p.at];
    var n := Find(userinfo, ':');
    OpaqueWords(AsciiLower(userinfo[..n]));
    forall m | 0 <= m <= |userinfo| && ':' !in userinfo[..m] && (m == |userinfo| || userinfo[m] == ':')
      ensures m == n
    {
      FindIs(userinfo, ':', m);
    }
  }

  /** A named host, or a bracketed address. */
  predicate ReadableHost(rules: Rules, host: string) {
    if host != "" && host[0] == '[' then BracketedAddress(rules, host) else NamedHost(host)
  }

  /** A slot that is masked: no readable host, and with evidence beside its literal colons or brackets around one. */
  predicate MaskedHost(rules: Rules, host: string) {
    !ReadableHost(rules, host) && (rules.carries(Without(host, ':')) || (host != "" && host[0] == '[' && ':' in host))
  }

  lemma HostsExactly(rules: Rules, host: string)
    requires '@' !in host
    ensures HostHidden(rules, host) <==> MaskedHost(rules, host)
    ensures IsHostPort(rules, host) <==> ReadableHost(rules, host)
  {
    hide IsHostPort, BracketedAddress, NamedHost, Without;
    if host != "" && host[0] == '[' {
      BracketedExactly(rules, host);
    } else {
      NamedExactly(rules, host);
    }
  }

  /**
    What is logged of a value with an `@`, unless it is exempt: the userinfo is the mask, or three stars, or carries no evidence; a
    masked host slot is the mask; a readable one is passed over; and every run in front of a further `@` carries no
    evidence or is the mask.
   */
  lemma OnlyMaskIsLogged(rules: Rules, value: string) returns (front: string, tail: string, floor: nat)
    requires Evidence(rules.carries) && Cut(rules.trim(value)).Some? && !Exempt(rules, Cut(rules.trim(value)).value)
    ensures var p := Cut(rules.trim(value)).value;
      var shown, host := p.prefix + front + "@" + tail, HostOf(p.rest[p.at + 1..]);
      && (MaskForLog(rules, value) == shown || (MaskForLog(rules, value) == value && rules.trim(value) == shown))
      && (front in {"", "***", "***:***"} || !rules.carries(front))
      && AllClean(rules.carries, tail, floor)
      && (MaskedHost(rules, host) ==> 7 <= |tail| && tail[..7] == "***:***" && floor == 7)
      && (!MaskedHost(rules, host) ==> floor == if ReadableHost(rules, host) then |host| else 0)
  {
    hide IsHostPort, HostHidden, MaskedHost, ReadableHost, Cut, HostOf, AllClean, Evidence, MaskForLog, Exempt;
    front, tail, floor := OnlyMaskIsShown(rules, value);
    HostHasNoAt(rules.trim(value));
    HostsExactly(rules, HostOf(Cut(rules.trim(value)).value.rest[Cut(rules.trim(value)).value.at + 1..]));
  }
}
