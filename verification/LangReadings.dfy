/** What a language tag is read as, said of its parts and of the rows of the tables. */
module LangReadings {
  import opened Lang

  /** The code of the first row that spells the token. */
  predicate FirstRow(rows: Rows, token: string, code: string) {
    exists i :: 0 <= i < |rows| && rows[i] == (token, code) && forall j :: 0 <= j < i ==> rows[j].0 != token
  }

  predicate SpelledIn(rows: Rows, token: string) {
    exists i :: 0 <= i < |rows| && rows[i].0 == token
  }

  lemma {:induction false} LookupExactly(rows: Rows, token: string)
    ensures Lookup(rows, token).Some? <==> SpelledIn(rows, token)
    ensures Lookup(rows, token).Some? ==> FirstRow(rows, token, Lookup(rows, token).value)
  {
    if rows != [] {
      LookupExactly(rows[1..], token);
      if rows[0].0 == token {
        assert rows[0] == (token, rows[0].1);
      } else if Lookup(rows[1..], token).Some? {
        var code := Lookup(rows[1..], token).value;
        var i :| 0 <= i < |rows[1..]| && rows[1..][i] == (token, code) && forall j :: 0 <= j < i ==> rows[1..][j].0 != token;
        assert rows[i + 1] == (token, code);
        assert forall j :: 0 < j < i + 1 ==> rows[j] == rows[1..][j - 1];
      } else {
        assert forall i :: 0 < i < |rows| ==> rows[i] == rows[1..][i - 1];
      }
    }
  }

  /** The code of the first accepted language of that name. */
  predicate FirstNamed(rows: Rows, name: string, code: string) {
    exists i :: 0 <= i < |rows| && rows[i] == (code, name) && forall j :: 0 <= j < i ==> rows[j].1 != name
  }

  predicate NamedIn(rows: Rows, name: string) {
    exists i :: 0 <= i < |rows| && rows[i].1 == name
  }

  lemma {:induction false} LookupNameExactly(rows: Rows, name: string)
    ensures LookupName(rows, name).Some? <==> NamedIn(rows, name)
    ensures LookupName(rows, name).Some? ==> FirstNamed(rows, name, LookupName(rows, name).value)
  {
    if rows != [] {
      LookupNameExactly(rows[1..], name);
      if rows[0].1 == name {
        assert rows[0] == (rows[0].0, name);
      } else if LookupName(rows[1..], name).Some? {
        var code := LookupName(rows[1..], name).value;
        var i :| 0 <= i < |rows[1..]| && rows[1..][i] == (code, name) && forall j :: 0 <= j < i ==> rows[1..][j].1 != name;
        assert rows[i + 1] == (code, name);
        assert forall j :: 0 < j < i + 1 ==> rows[j] == rows[1..][j - 1];
      } else {
        assert forall i :: 0 < i < |rows| ==> rows[i] == rows[1..][i - 1];
      }
    }
  }

  /** What the tables say of a token: the aliases first, then the reported spellings, the three-letter codes, and the names of accepted languages. */
  predicate KnownAs(t: Tables, token: string, code: string) {
    if SpelledIn(t.aliases, token) then FirstRow(t.aliases, token, code)
    else if SpelledIn(t.reported, token) then FirstRow(t.reported, token, code)
    else if SpelledIn(t.iso, token) then FirstRow(t.iso, token, code)
    else NamedIn(t.wire, token) && FirstNamed(t.wire, token, code)
  }

  predicate Known(t: Tables, token: string) {
    SpelledIn(t.aliases, token) || SpelledIn(t.reported, token) || SpelledIn(t.iso, token) || NamedIn(t.wire, token)
  }

  lemma KnownExactly(t: Tables, token: string)
    ensures KnownCode(t, token).Some? <==> Known(t, token)
    ensures KnownCode(t, token).Some? ==> KnownAs(t, token, KnownCode(t, token).value)
  {
    hide Lookup, LookupName, SpelledIn, NamedIn, FirstRow, FirstNamed;
    LookupExactly(t.aliases, token);
    LookupExactly(t.reported, token);
    LookupExactly(t.iso, token);
    LookupNameExactly(t.wire, token);
  }

  /** The first hyphen or underscore is at `n`. */
  predicate SplitAt(s: string, n: nat) {
    n < |s| && s[n] in {'-', '_'} && forall j :: 0 <= j < n ==> s[j] !in {'-', '_'}
  }

  lemma {:induction false} FirstSplitExactly(s: string)
    ensures FirstSplit(s).Some? ==> SplitAt(s, FirstSplit(s).value)
    ensures FirstSplit(s).None? ==> forall n: nat :: !SplitAt(s, n)
  {
    if s != "" && s[0] != '-' && s[0] != '_' {
      FirstSplitExactly(s[1..]);
      if FirstSplit(s[1..]).Some? {
        var n := FirstSplit(s[1..]).value;
        assert forall j :: 0 < j < n + 1 ==> s[j] == s[1..][j - 1];
      }
    }
  }

  /** ASCII letters and digits of the lower-cased text, in order. */
  lemma {:induction false} KeptExactly(s: string)
    ensures forall i :: 0 <= i < |KeepAlnum(s)| ==> AlnumChar(KeepAlnum(s)[i])
    ensures s == "" || KeepAlnum(s) ==
      (if 'a' <= s[0] <= 'z' || 'A' <= s[0] <= 'Z' || '0' <= s[0] <= '9' then [s[0]] else "") + KeepAlnum(s[1..])
  {
    if s != "" {
      KeptExactly(s[1..]);
    }
  }

  /** A head that names a language: the tables know it, or it is the code of an accepted one. */
  predicate NamesLanguage(t: Tables, head: string) {
    Known(t, head) || SpelledIn(t.wire, head)
  }

  /** What the head stands for. */
  predicate HeadReads(t: Tables, head: string, code: string) {
    if Known(t, head) then KnownAs(t, head, code) else code == head
  }

  lemma HeadExactly(u: Text, t: Tables, base: string)
    requires TextOk(u) && LowersAll(u)
    ensures SubtagHead(u, t, base).Some? <==> exists n: nat :: SplitAt(base, n) && NamesLanguage(t, Collapse(u, base[..n]))
    ensures forall n: nat :: SplitAt(base, n) && SubtagHead(u, t, base).Some? ==>
      HeadReads(t, Collapse(u, base[..n]), SubtagHead(u, t, base).value)
  {
    hide KnownCode, Known, KnownAs, Collapse, SpelledIn, Lookup, LowerAlnum;
    FirstSplitExactly(base);
    if FirstSplit(base).Some? {
      var n := FirstSplit(base).value;
      var head := Collapse(u, base[..n]);
      CollapseIsPlain(u, base[..n]);
      NothingToTrim(u, head);
      KnownExactly(t, head);
      LookupExactly(t.wire, head);
      forall m: nat | SplitAt(base, m)
        ensures m == n
      {
      }
    }
  }

  lemma NothingToTrim(u: Text, y: string)
    requires TextOk(u) && LowerAlnum(y)
    ensures TrimEnd(u, TrimStart(u, y)) == y
  {
    assert y != "" ==> LowerAlnumChar(y[0]) && LowerAlnumChar(y[|y| - 1]);
  }

  /** A bracket group closes the text and opens at `i`, the last place a bracket of its kind opens. */
  predicate ClosingGroup(t: string, i: nat) {
    && i < |t| - 1 && t[|t| - 1] in {')', ']'}
    && var open := if t[|t| - 1] == ')' then '(' else '[';
       t[i] == open && forall j :: i < j < |t| - 1 ==> t[j] != open
  }

  lemma {:induction false} LastIndexExactly(s: string, c: char)
    ensures LastIndex(s, c).Some? ==> forall j :: LastIndex(s, c).value < j < |s| ==> s[j] != c
    ensures LastIndex(s, c).None? ==> forall j :: 0 <= j < |s| ==> s[j] != c
    decreases |s|
  {
    if s != "" && s[|s| - 1] != c {
      LastIndexExactly(s[..|s| - 1], c);
      assert forall j :: 0 <= j < |s| - 1 ==> s[..|s| - 1][j] == s[j];
    }
  }

  /** What the stripping loop looks for. */
  lemma GroupExactly(t: string)
    ensures GroupStart(t).Some? ==> ClosingGroup(t, GroupStart(t).value)
    ensures GroupStart(t).None? ==> forall i: nat :: !ClosingGroup(t, i)
  {
    if t != "" {
      LastIndexExactly(t[..|t| - 1], '(');
      LastIndexExactly(t[..|t| - 1], '[');
      assert forall j :: 0 <= j < |t| - 1 ==> t[..|t| - 1][j] == t[j];
    }
  }

  /**
    How a tag is normalized, its qualifiers and white space stripped: if its letters and digits are an alias, that alias decides; else,
    if what is in front of its first hyphen or underscore names a language, that language; else the letters and digits themselves.
   */
  lemma NormalExactly(u: Text, t: Tables, value: string)
    requires TextOk(u) && LowersAll(u)
    ensures var base := Stripped(u, value);
      var norm, y := Collapse(u, base), NormalizeLang(u, t, value);
      if SpelledIn(t.aliases, norm) then FirstRow(t.aliases, norm, y)
      else if exists n: nat :: SplitAt(base, n) && NamesLanguage(t, Collapse(u, base[..n]))
      then forall n: nat :: SplitAt(base, n) ==> HeadReads(t, Collapse(u, base[..n]), y)
      else y == norm
  {
    hide Stripped, Collapse, SubtagHead, Lookup, SpelledIn, FirstRow, NamesLanguage, HeadReads, SplitAt;
    var base := Stripped(u, value);
    LookupExactly(t.aliases, Collapse(u, base));
    HeadExactly(u, t, base);
  }

  /** A language a provider reported is read the same way, but any table may decide first. */
  lemma ReportedExactly(u: Text, t: Tables, value: string)
    requires TextOk(u) && LowersAll(u)
    ensures var base := Stripped(u, value);
      var norm, y := Collapse(u, base), NormalizeReportedLang(u, t, value);
      if Known(t, norm) then KnownAs(t, norm, y)
      else if exists n: nat :: SplitAt(base, n) && NamesLanguage(t, Collapse(u, base[..n]))
      then forall n: nat :: SplitAt(base, n) ==> HeadReads(t, Collapse(u, base[..n]), y)
      else y == norm
  {
    hide Stripped, Collapse, SubtagHead, KnownCode, Known, KnownAs, NamesLanguage, HeadReads, SplitAt;
    var base := Stripped(u, value);
    KnownExactly(t, Collapse(u, base));
    HeadExactly(u, t, base);
  }
}
