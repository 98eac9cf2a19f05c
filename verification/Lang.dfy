/** Language tags to canonical codes. */
module Lang {
  import opened Wrappers

  /** Unicode lower-casing and white space. */
  datatype Text = Text(lower: string -> string, white: char -> bool)

  type Rows = seq<(string, string)>

  /** Spelling-to-code rows of three tables, and code-to-name rows of the accept set with collapsed names. */
  datatype Tables = Tables(aliases: Rows, reported: Rows, iso: Rows, wire: Rows)

  predicate LowerAlnumChar(c: char) {
    'a' <= c <= 'z' || '0' <= c <= '9'
  }

  predicate LowerAlnum(s: string) {
    forall i :: 0 <= i < |s| ==> LowerAlnumChar(s[i])
  }

  /** Lower-casing leaves lower-case text alone, and letters and digits are no white space. */
  ghost predicate TextOk(u: Text) {
    (forall s :: LowerAlnum(s) ==> u.lower(s) == s) && (forall c :: LowerAlnumChar(c) ==> !u.white(c))
  }

  /* ---- Trailing qualifiers ---- */

  function TrimEnd(u: Text, s: string): (t: string)
    ensures |t| <= |s| && t == s[..|t|]
    decreases |s|
  {
    if s != "" && u.white(s[|s| - 1]) then TrimEnd(u, s[..|s| - 1]) else s
  }

  function TrimStart(u: Text, s: string): string {
    if s != "" && u.white(s[0]) then TrimStart(u, s[1..]) else s
  }

  /** Last index of a character. */
  function LastIndex(s: string, c: char): (r: Option<nat>)
    ensures r.Some? ==> r.value < |s| && s[r.value] == c
    decreases |s|
  {
    if s == "" then None else if s[|s| - 1] == c then Some(|s| - 1) else LastIndex(s[..|s| - 1], c)
  }

  /** Where the bracket group that closes the text opens. */
  function GroupStart(t: string): (r: Option<nat>)
    ensures r.Some? ==> r.value < |t|
  {
    if t != "" && t[|t| - 1] == ')' then LastIndex(t[..|t| - 1], '(')
    else if t != "" && t[|t| - 1] == ']' then LastIndex(t[..|t| - 1], '[')
    else None
  }

  function StripGroups(u: Text, s: string): string
    decreases |s|
  {
    var t := TrimEnd(u, s);
    match GroupStart(t)
    case None => t
    case Some(i) => StripGroups(u, t[..i])
  }

  function Trim(u: Text, s: string): string {
    TrimEnd(u, TrimStart(u, s))
  }

  function Stripped(u: Text, value: string): string {
    StripGroups(u, Trim(u, value))
  }

  /** From its end, a text of nothing but white space and bracket groups. */
  predicate Qualifiers(u: Text, q: string)
    decreases |q|
  {
    || q == ""
    || (u.white(q[|q| - 1]) && Qualifiers(u, q[..|q| - 1]))
    || (GroupStart(q).Some? && Qualifiers(u, q[..GroupStart(q).value]))
  }

  /** `r` is what is left of `s` when there is nothing more to strip. */
  predicate StrippedOf(u: Text, s: string, r: string) {
    r <= s && Qualifiers(u, s[|r|..]) && GroupStart(r).None? && (r == "" || !u.white(r[|r| - 1]))
  }

  /** `strip_trailing_qualifier`: each round of the loop makes the text shorter. */
  method StripTrailingQualifier(u: Text, value: string) returns (r: string)
    ensures r == Stripped(u, value) && StrippedOf(u, Trim(u, value), r)
  {
    var s := TrimEnd(u, TrimStart(u, value));
    ghost var goal := StripGroups(u, s);
    StripsExactly(u, s);
    while true
      invariant StripGroups(u, s) == goal
      decreases |s|
    {
      var t := TrimEnd(u, s);
      var open := GroupStart(t);
      if open.None? {
        return t;
      }
      s := t[..open.value];
    }
  }

  lemma {:induction false} LastIndexInTail(a: string, b: string, c: char)
    ensures LastIndex(a + b, c) == if LastIndex(b, c).Some? then Some(|a| + LastIndex(b, c).value) else LastIndex(a, c)
    decreases |b|
  {
    if b == "" {
      assert a + b == a;
    } else {
      assert (a + b)[..|a + b| - 1] == a + b[..|b| - 1];
      LastIndexInTail(a, b[..|b| - 1], c);
    }
  }

  lemma {:induction false} LastIndexIn(s: string, i: nat, c: char)
    requires i < |s| && s[i] == c
    ensures LastIndex(s, c).Some?
    decreases |s|
  {
    if i < |s| - 1 {
      LastIndexIn(s[..|s| - 1], i, c);
    }
  }

  lemma CutGroup(t: string, n: nat)
    requires n < |t|
    ensures t[n..] != "" && t[n..][..|t[n..]| - 1] == t[n..|t| - 1] && t[n..][|t[n..]| - 1] == t[|t| - 1]
  {
  }

  /** A group keeps its start when text in front of it is cut off. */
  lemma GroupInTail(t: string, n: nat)
    requires GroupStart(t).Some? && n <= GroupStart(t).value
    ensures GroupStart(t[n..]) == Some(GroupStart(t).value - n)
  {
    var i, last := GroupStart(t).value, t[|t| - 1];
    var open := if last == ')' then '(' else '[';
    var head, tail := t[..n], t[n..|t| - 1];
    assert t[..|t| - 1] == head + tail;
    CutGroup(t, n);
    LastIndexIn(tail, i - n, open);
    LastIndexInTail(head, tail, open);
  }

  lemma {:induction false} TrimmedTail(u: Text, s: string, n: nat)
    requires n <= |TrimEnd(u, s)| && Qualifiers(u, TrimEnd(u, s)[n..])
    ensures Qualifiers(u, s[n..])
    decreases |s|
  {
    if s != "" && u.white(s[|s| - 1]) {
      TrimmedTail(u, s[..|s| - 1], n);
      var q := s[n..];
      assert q[..|q| - 1] == s[..|s| - 1][n..] && q[|q| - 1] == s[|s| - 1];
    }
  }

  lemma {:induction false} TrimEndIsClean(u: Text, s: string)
    ensures var t := TrimEnd(u, s); t == "" || !u.white(t[|t| - 1])
    decreases |s|
  {
    if s != "" && u.white(s[|s| - 1]) {
      TrimEndIsClean(u, s[..|s| - 1]);
    }
  }

  /** Only qualifiers are stripped, and all of them. */
  lemma {:induction false} StripsExactly(u: Text, s: string)
    ensures StrippedOf(u, s, StripGroups(u, s))
    decreases |s|
  {
    hide GroupStart, TrimEnd;
    var t, r := TrimEnd(u, s), StripGroups(u, s);
    TrimEndIsClean(u, s);
    match GroupStart(t) {
      case None =>
        assert t[|r|..] == "";
      case Some(i) =>
        StripsExactly(u, t[..i]);
        GroupInTail(t, |r|);
        assert t[|r|..][..i - |r|] == t[..i][|r|..];
    }
    TrimmedTail(u, s, |r|);
  }

  /* ---- Tables ---- */

  function KeepAlnum(s: string): (t: string)
    ensures LowerAlnum(s) ==> t == s
  {
    if s == "" then ""
    else
      var rest := KeepAlnum(s[1..]);
      assert LowerAlnum(s) ==> LowerAlnum(s[1..]);
      if AlnumChar(s[0]) then [s[0]] + rest else rest
  }

  predicate AlnumChar(c: char) {
    LowerAlnumChar(c) || 'A' <= c <= 'Z'
  }

  function Collapse(u: Text, value: string): string {
    KeepAlnum(u.lower(value))
  }

  /** Code of the first row that spells a token. */
  function Lookup(rows: Rows, token: string): (r: Option<string>)
    ensures r.Some? ==> (token, r.value) in rows
    ensures r.None? ==> forall i :: 0 <= i < |rows| ==> rows[i].0 != token
  {
    if rows == [] then None else if rows[0].0 == token then Some(rows[0].1) else Lookup(rows[1..], token)
  }

  /** Code of the first accept-set row with a name. */
  function LookupName(rows: Rows, token: string): (r: Option<string>)
    ensures r.Some? ==> (r.value, token) in rows
  {
    if rows == [] then None else if rows[0].1 == token then Some(rows[0].0) else LookupName(rows[1..], token)
  }

  function AliasCode(t: Tables, token: string): Option<string> {
    Lookup(t.aliases, token)
  }

  /** `known_code`: the four tables in turn. */
  function KnownCode(t: Tables, token: string): Option<string> {
    var a := AliasCode(t, token);
    if a.Some? then a else
      var r := Lookup(t.reported, token);
      if r.Some? then r else
        var i := Lookup(t.iso, token);
        if i.Some? then i else LookupName(t.wire, token)
  }

  function WireAccepts(u: Text, t: Tables, code: string): bool {
    Lookup(t.wire, TrimEnd(u, TrimStart(u, code))).Some?
  }

  function FirstSplit(s: string): (r: Option<nat>)
    ensures r.Some? ==> r.value < |s|
    ensures r.None? <==> '-' !in s && '_' !in s
  {
    if s == "" then None
    else if s[0] == '-' || s[0] == '_' then Some(0)
    else
      var rest := FirstSplit(s[1..]);
      if rest.Some? then Some(rest.value + 1) else None
  }

  /** `subtag_head`. */
  function SubtagHead(u: Text, t: Tables, value: string): Option<string> {
    var sep :- FirstSplit(value);
    var head := Collapse(u, value[..sep]);
    if KnownCode(t, head).Some? || WireAccepts(u, t, head) then Some(KnownCode(t, head).GetOr(head)) else None
  }

  /** `normalize_lang`. */
  function NormalizeLang(u: Text, t: Tables, value: string): string {
    var base := Stripped(u, value);
    var norm := Collapse(u, base);
    if AliasCode(t, norm).Some? then AliasCode(t, norm).value else SubtagHead(u, t, base).GetOr(norm)
  }

  /** `normalize_reported_lang`. */
  function NormalizeReportedLang(u: Text, t: Tables, value: string): string {
    var base := Stripped(u, value);
    var collapsed := Collapse(u, base);
    if KnownCode(t, collapsed).Some? then KnownCode(t, collapsed).value else SubtagHead(u, t, base).GetOr(collapsed)
  }

  /* ---- What the tables have to satisfy ---- */

  /** Some table spells the code `v` as `k`. */
  predicate HasRow(t: Tables, k: string, v: string) {
    (k, v) in t.aliases || (k, v) in t.reported || (k, v) in t.iso || (v, k) in t.wire
  }

  /** Codes are lower-case letters and digits, and a spelling that is itself a code stands for itself. */
  ghost predicate TablesOk(t: Tables) {
    && (forall k, v :: HasRow(t, k, v) ==> LowerAlnum(v))
    && (forall k, v, w :: HasRow(t, k, v) && HasRow(t, w, k) ==> v == k)
  }

  /** A token some table uses as a code. */
  ghost predicate IsCode(t: Tables, c: string) {
    exists k :: HasRow(t, k, c)
  }

  lemma KnownIsRow(t: Tables, token: string)
    ensures KnownCode(t, token).Some? ==> HasRow(t, token, KnownCode(t, token).value)
    ensures AliasCode(t, token).Some? ==> HasRow(t, token, AliasCode(t, token).value)
    ensures AliasCode(t, token).Some? ==> KnownCode(t, token) == AliasCode(t, token)
  {
  }

  /** A code no table contradicts. */
  lemma CodesAreFixed(t: Tables, c: string)
    requires TablesOk(t) && IsCode(t, c)
    ensures LowerAlnum(c) && KnownCode(t, c) in {None, Some(c)} && AliasCode(t, c) in {None, Some(c)}
  {
    hide KnownCode, AliasCode, LowerAlnum;
    KnownIsRow(t, c);
  }

  /* ---- Plain tokens ---- */

  lemma {:induction false} KeptIsAlnum(s: string)
    ensures forall i :: 0 <= i < |KeepAlnum(s)| ==> AlnumChar(KeepAlnum(s)[i])
  {
    if s != "" {
      KeptIsAlnum(s[1..]);
    }
  }

  /** Lower-casing leaves no ASCII capital; with that a collapsed text is plain. */
  ghost predicate LowersAll(u: Text) {
    forall s, i :: 0 <= i < |u.lower(s)| ==> !('A' <= u.lower(s)[i] <= 'Z')
  }

  lemma {:induction false} KeptIsFrom(s: string, c: char)
    requires c in KeepAlnum(s)
    ensures c in s
  {
    if s != "" && !(AlnumChar(s[0]) && c == s[0]) {
      KeptIsFrom(s[1..], c);
    }
  }

  lemma CollapseIsPlain(u: Text, value: string)
    requires LowersAll(u)
    ensures LowerAlnum(Collapse(u, value))
  {
    var s := u.lower(value);
    KeptIsAlnum(s);
    forall i | 0 <= i < |KeepAlnum(s)|
      ensures LowerAlnumChar(KeepAlnum(s)[i])
    {
      KeptIsFrom(s, KeepAlnum(s)[i]);
    }
  }

  /** A plain token has nothing to strip, collapse or split. */
  lemma PlainIsFixed(u: Text, t: Tables, y: string)
    requires TextOk(u) && LowerAlnum(y)
    ensures Stripped(u, y) == y && Collapse(u, y) == y && SubtagHead(u, t, y) == None
  {
    assert y != "" ==> LowerAlnumChar(y[0]) && LowerAlnumChar(y[|y| - 1]);
    assert TrimStart(u, y) == y && TrimEnd(u, y) == y && GroupStart(y) == None;
    assert forall i :: 0 <= i < |y| ==> y[i] != '-' && y[i] != '_';
  }

  lemma HeadShape(u: Text, t: Tables, value: string)
    requires TablesOk(t) && LowersAll(u) && SubtagHead(u, t, value).Some?
    ensures var h := SubtagHead(u, t, value).value;
      LowerAlnum(h) && KnownCode(t, h) in {None, Some(h)} && AliasCode(t, h) in {None, Some(h)}
  {
    hide KnownCode, AliasCode, Collapse, LowerAlnum;
    var head := Collapse(u, value[..FirstSplit(value).value]);
    CollapseIsPlain(u, value[..FirstSplit(value).value]);
    KnownIsRow(t, head);
    if KnownCode(t, head).Some? {
      CodesAreFixed(t, KnownCode(t, head).value);
    }
  }

  /** Every normal form is plain, and every table that knows it maps it to itself. */
  lemma NormalShape(u: Text, t: Tables, x: string)
    requires TablesOk(t) && LowersAll(u)
    ensures var y := NormalizeLang(u, t, x); LowerAlnum(y) && AliasCode(t, y) in {None, Some(y)}
    ensures var y := NormalizeReportedLang(u, t, x); LowerAlnum(y) && KnownCode(t, y) in {None, Some(y)}
  {
    hide KnownCode, AliasCode, Collapse, LowerAlnum, SubtagHead, Stripped;
    var base := Stripped(u, x);
    var norm := Collapse(u, base);
    CollapseIsPlain(u, base);
    KnownIsRow(t, norm);
    if AliasCode(t, norm).Some? {
      CodesAreFixed(t, AliasCode(t, norm).value);
    }
    if KnownCode(t, norm).Some? {
      CodesAreFixed(t, KnownCode(t, norm).value);
    }
    if SubtagHead(u, t, base).Some? {
      HeadShape(u, t, base);
    }
  }

  /** Both normalizers are fixed on their own results, for every text. */
  lemma NormalizationIsIdempotent(u: Text, t: Tables, x: string)
    requires TextOk(u) && LowersAll(u) && TablesOk(t)
    ensures NormalizeLang(u, t, NormalizeLang(u, t, x)) == NormalizeLang(u, t, x)
    ensures NormalizeReportedLang(u, t, NormalizeReportedLang(u, t, x)) == NormalizeReportedLang(u, t, x)
  {
    hide KnownCode, AliasCode, LowerAlnum;
    var y, z := NormalizeLang(u, t, x), NormalizeReportedLang(u, t, x);
    NormalShape(u, t, x);
    PlainIsFixed(u, t, y);
    PlainIsFixed(u, t, z);
  }
}
