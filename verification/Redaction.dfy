/** Masking the credentials of a configuration value. */
module Redaction {
  import opened Wrappers
  import opened RunMask
  import opened ReportTypes

  /** `carries_credential_colon`, IPv6 parsing and `trim`; none is modelled further. */
  datatype Rules = Rules(carries: Carries, ipv6: string -> bool, trim: string -> string)

  const FULL_WIDTH_COLON: char := '\U{FF1A}'
  const SMALL_COLON: char := '\U{FE55}'

  const NON_HIERARCHICAL_SCHEMES: set<string> := {"mailto", "data", "urn", "tel", "sms", "geo", "magnet", "bitcoin"}

  /* ---- Pieces of a value ---- */

  predicate AsciiAlpha(c: char) {
    'a' <= c <= 'z' || 'A' <= c <= 'Z'
  }

  predicate AsciiDigit(c: char) {
    '0' <= c <= '9'
  }

  predicate IsScheme(s: string) {
    s != "" && AsciiAlpha(s[0]) && forall i :: 0 <= i < |s| ==> AsciiAlpha(s[i]) || AsciiDigit(s[i]) || s[i] in {'+', '-', '.'}
  }

  /** Index of the first occurrence of a text. */
  function FindText(s: string, pat: string): (r: Option<nat>)
    ensures r.Some? ==> r.value + |pat| <= |s| && s[r.value..r.value + |pat|] == pat
    decreases |s|
  {
    if |s| < |pat| then None
    else if s[..|pat|] == pat then Some(0)
    else if s == "" then None
    else
      var rest :- FindText(s[1..], pat);
      Some(rest + 1)
  }

  function TrimEnd(s: string, c: char): string
    decreases |s|
  {
    if s != "" && s[|s| - 1] == c then TrimEnd(s[..|s| - 1], c) else s
  }

  predicate EndsWith(s: string, end: string) {
    |end| <= |s| && s[|s| - |end|..] == end
  }

  /** The `#` at `i` introduces an entity when an ampersand, itself perhaps an entity, stands before it. */
  predicate HashStartsEntity(s: string, i: nat)
    requires i <= |s|
  {
    var before := s[..i];
    var lower := AsciiLower(TrimEnd(before, ';'));
    EndsWith(before, "&") || EndsWith(lower, "&amp") || EndsWith(lower, "&#38") || EndsWith(lower, "&#x26")
  }

  predicate EndsAuthority(s: string, i: nat)
    requires i < |s|
  {
    s[i] == '/' || s[i] == '?' || (s[i] == '#' && !HashStartsEntity(s, i))
  }

  function SeparatorFrom(s: string, i: nat): (r: Option<nat>)
    requires i <= |s|
    ensures r.Some? ==> i <= r.value < |s| && EndsAuthority(s, r.value)
    ensures forall j :: i <= j < (if r.Some? then r.value else |s|) ==> !EndsAuthority(s, j)
    decreases |s| - i
  {
    if i == |s| then None else if EndsAuthority(s, i) then Some(i) else SeparatorFrom(s, i + 1)
  }

  /** `first_separator`. */
  function FirstSeparator(s: string): (r: Option<nat>)
    ensures r.Some? ==> r.value < |s|
  {
    SeparatorFrom(s, 0)
  }

  function LastAt(s: string): (r: Option<nat>)
    ensures r.Some? ==> r.value < |s| && s[r.value] == '@' && '@' !in s[r.value + 1..]
    ensures r.None? <==> '@' !in s
  {
    if s == "" then None
    else
      match LastAt(s[1..])
      case Some(n) => Some(n + 1)
      case None => if s[0] == '@' then Some(0) else None
  }

  /* ---- Hosts ---- */

  predicate PortOk(port: string) {
    port != "" && forall i :: 0 <= i < |port| ==> AsciiDigit(port[i])
  }

  predicate HidesColonInHost(part: string) {
    '%' in part || '&' in part || FULL_WIDTH_COLON in part || SMALL_COLON in part
  }

  /** `is_host_port`. */
  predicate IsHostPort(rules: Rules, text: string) {
    if text != "" && text[0] == '[' then
      var rest := text[1..];
      var close := Find(rest, ']');
      if close == |rest| then false
      else
        var literal, tail := rest[..close], rest[close + 1..];
        && rules.ipv6(literal[..Find(literal, '%')])
        && (tail == "" || (tail[0] == ':' && PortOk(tail[1..])))
    else
      var colon := Find(text, ':');
      text[..colon] != "" && !HidesColonInHost(text[..colon]) && (colon < |text| ==> PortOk(text[colon + 1..]))
  }

  function Without(s: string, c: char): string {
    if s == "" then "" else (if s[0] == c then "" else [s[0]]) + Without(s[1..], c)
  }

  /** The slot after the userinfo holds a credential rather than a host. */
  predicate HostHidden(rules: Rules, host: string) {
    && '@' !in host && !IsHostPort(rules, host)
    && (rules.carries(Without(host, ':')) || (host != "" && host[0] == '[' && ':' in host))
  }

  /* ---- The whole value ---- */

  /** A value cut at its scheme and at the `@` that ends the userinfo. */
  datatype Parts = Parts(prefix: string, rest: string, separator: Option<nat>, at: nat)

  function SplitScheme(value: string): (string, string) {
    match FindText(value, "://")
    case None => ("", value)
    case Some(n) => if IsScheme(value[..n]) then (value[..n] + "://", value[n + 3..]) else ("", value)
  }

  function Cut(value: string): (r: Option<Parts>)
    ensures r.Some? ==> r.value.at < |r.value.rest|
    ensures r.Some? && r.value.separator.Some? ==> r.value.separator.value < |r.value.rest|
  {
    var (prefix, rest) := SplitScheme(value);
    var separator := FirstSeparator(rest);
    var inside := if separator.Some? then LastAt(rest[..separator.value]) else None;
    if inside.Some? then Some(Parts(prefix, rest, separator, inside.value))
    else
      var at :- LastAt(rest);
      Some(Parts(prefix, rest, separator, at))
  }

  function HostOf(after: string): (host: string)
    ensures |host| <= |after| && host == after[..|host|]
  {
    match FirstSeparator(after) case Some(i) => after[..i] case None => after
  }

  /** The text after the userinfo with a hidden host slot already masked, and the floor for its runs. */
  function Slot(rules: Rules, after: string): (string, nat) {
    var host := HostOf(after);
    if HostHidden(rules, host) then
      (MASK + (if '@' in after then after[Find(after, '@')..] else after[|host|..]), |MASK|)
    else (after, if IsHostPort(rules, host) then |host| else 0)
  }

  /** The masked tail; nothing when there is nothing to hide after the userinfo. */
  function MaskedAfter(rules: Rules, after: string): Option<string> {
    var (slot, floor) := Slot(rules, after);
    match MaskTail(rules.carries, slot, floor)
    case Some(t) => Some(t)
    case None => if HostHidden(rules, HostOf(after)) then Some(slot) else None
  }

  /** The tail of a value whose userinfo is masked anyway. */
  function TailOf(rules: Rules, after: string): string {
    MaskedAfter(rules, after).GetOr(after)
  }

  function WithFront(front: string, tail: Option<string>): Option<string> {
    if tail.Some? then Some(front + "@" + tail.value) else None
  }

  /** A scheme word that has no password, in front of a host without port. */
  predicate OpaqueScheme(rules: Rules, userinfo: string, host: string) {
    && AsciiLower(userinfo[..Find(userinfo, ':')]) in NON_HIERARCHICAL_SCHEMES
    && ':' !in host && !HostHidden(rules, host)
  }

  /** The `@` lies past the authority and nothing in front of it could be a credential. */
  predicate PathAt(rules: Rules, p: Parts, host: string)
    requires p.at < |p.rest| && (p.separator.Some? ==> p.separator.value < |p.rest|)
  {
    && p.separator.Some? && p.separator.value < p.at
    && !rules.carries(p.rest[..p.separator.value]) && !rules.carries(p.rest[..p.at]) && !HostHidden(rules, host)
  }

  /** `redact_userinfo`. */
  function Redacted(rules: Rules, value: string): Option<string> {
    var p :- Cut(rules.trim(value));
    var userinfo, after := p.rest[..p.at], p.rest[p.at + 1..];
    var host := HostOf(after);
    if userinfo == "" then WithFront(p.prefix, MaskedAfter(rules, after))
    else if p.prefix == "" && !rules.carries(userinfo) then WithFront(p.prefix + userinfo, MaskedAfter(rules, after))
    else if p.prefix == "" && OpaqueScheme(rules, userinfo, host) then None
    else if p.prefix != "" && PathAt(rules, p, host) then None
    else Some(p.prefix + (if rules.carries(userinfo) then MASK else "***") + "@" + TailOf(rules, after))
  }

  /** `mask_for_log`. */
  function MaskForLog(rules: Rules, value: string): string {
    Redacted(rules, value).GetOr(value)
  }
}
