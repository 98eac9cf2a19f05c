/** The sidecar files a target language may replace. */
module SidecarPaths {
  import opened Wrappers
  import opened Lang

  /** `canonical_code`: follow aliases to a code that stands for itself, a bounded number of times. */
  function CanonicalFrom(t: Tables, code: string, steps: nat): string
    decreases steps
  {
    if steps == 0 then code
    else
      match AliasCode(t, code)
      case None => code
      case Some(next) => if next == code then code else CanonicalFrom(t, next, steps - 1)
  }

  /** The code stands for itself. */
  predicate Settled(t: Tables, code: string) {
    AliasCode(t, code) in {None, Some(code)}
  }

  method CanonicalCode(t: Tables, token: string) returns (code: string)
    ensures code == CanonicalFrom(t, token, |t.aliases|)
    ensures forall n :: Settled(t, CanonicalFrom(t, token, n)) ==> code == CanonicalFrom(t, token, n)
    ensures TablesOk(t) ==> Settled(t, code)
  {
    code := token;
    var i := 0;
    CanonicalIsSettled(t, token);
    while i < |t.aliases|
      invariant i <= |t.aliases|
      invariant CanonicalFrom(t, code, |t.aliases| - i) == CanonicalFrom(t, token, |t.aliases|)
    {
      var next := AliasCode(t, code);
      if next.None? || next.value == code {
        return;
      }
      code := next.value;
      i := i + 1;
    }
  }

  lemma {:induction false} OneMoreStep(t: Tables, code: string, n: nat)
    ensures var c := CanonicalFrom(t, code, n);
      CanonicalFrom(t, code, n + 1) == match AliasCode(t, c) case None => c case Some(next) => next
    decreases n
  {
    hide AliasCode;
    if n > 0 && !Settled(t, code) {
      OneMoreStep(t, AliasCode(t, code).value, n - 1);
    }
  }

  /** Once a code stands for itself, further steps stay there. */
  lemma {:induction false} SettledStays(t: Tables, code: string, n: nat, m: nat)
    requires Settled(t, CanonicalFrom(t, code, n)) && n <= m
    ensures CanonicalFrom(t, code, m) == CanonicalFrom(t, code, n)
    decreases m
  {
    hide AliasCode;
    if n < m {
      SettledStays(t, code, n, m - 1);
      OneMoreStep(t, code, m - 1);
    }
  }

  /** The codes passed on the way. */
  function Passed(t: Tables, code: string, n: nat): (r: seq<string>)
    ensures |r| == n && forall i :: 0 <= i < n ==> r[i] == CanonicalFrom(t, code, i)
  {
    seq(n, i requires 0 <= i < n => CanonicalFrom(t, code, i))
  }

  /** A code that comes back keeps coming back. */
  lemma {:induction false} Cycles(t: Tables, code: string, i: nat, j: nat, k: nat)
    requires i < j && CanonicalFrom(t, code, i) == CanonicalFrom(t, code, j)
    ensures CanonicalFrom(t, code, i + k) == CanonicalFrom(t, code, j + k)
    decreases k
  {
    hide AliasCode, CanonicalFrom;
    if k > 0 {
      Cycles(t, code, i, j, k - 1);
      OneMoreStep(t, code, i + k - 1);
      OneMoreStep(t, code, j + k - 1);
    }
  }

  function Keys(rows: Rows): (r: set<string>)
    ensures |r| <= |rows| && forall k :: k in r <==> exists i :: 0 <= i < |rows| && rows[i].0 == k
  {
    if rows == [] then {} else {rows[0].0} + Keys(rows[1..])
  }

  lemma {:induction false} DistinctFit(s: seq<string>, keys: set<string>)
    requires NoDuplicates(s) && forall x :: x in s ==> x in keys
    ensures |s| <= |keys|
  {
    if s != [] {
      var rest, x := s[..|s| - 1], s[|s| - 1];
      forall y | y in rest
        ensures y in keys - {x}
      {
        var i :| 0 <= i < |rest| && rest[i] == y;
        assert s[i] == y && y in s;
      }
      assert x in s;
      DistinctFit(rest, keys - {x});
    }
  }

  lemma AliasIsKey(t: Tables, code: string)
    ensures AliasCode(t, code).Some? ==> code in Keys(t.aliases)
  {
    if AliasCode(t, code).Some? {
      var i :| 0 <= i < |t.aliases| && t.aliases[i] == (code, AliasCode(t, code).value);
    }
  }

  /** As many steps as there are alias rows reach a code that stands for itself if any number does. */
  lemma {:induction false} BoundIsEnough(t: Tables, code: string, n: nat)
    requires Settled(t, CanonicalFrom(t, code, n))
    ensures CanonicalFrom(t, code, |t.aliases|) == CanonicalFrom(t, code, n)
    decreases n
  {
    hide AliasCode, CanonicalFrom;
    if m: nat :| m < n && Settled(t, CanonicalFrom(t, code, m)) {
      SettledStays(t, code, m, n);
      BoundIsEnough(t, code, m);
    } else {
      var s := Passed(t, code, n);
      forall i, j | 0 <= i < j < n
        ensures s[i] != s[j]
      {
        if s[i] == s[j] {
          Cycles(t, code, i, j, n - j);
        }
      }
      forall x | x in s
        ensures x in Keys(t.aliases)
      {
        var i :| 0 <= i < n && s[i] == x;
        AliasIsKey(t, x);
      }
      DistinctFit(s, Keys(t.aliases));
      SettledStays(t, code, n, |t.aliases|);
    }
  }

  lemma CanonicalIsSettled(t: Tables, token: string)
    ensures forall n :: Settled(t, CanonicalFrom(t, token, n)) ==> CanonicalFrom(t, token, |t.aliases|) == CanonicalFrom(t, token, n)
    ensures TablesOk(t) ==> Settled(t, CanonicalFrom(t, token, |t.aliases|))
  {
    forall n | Settled(t, CanonicalFrom(t, token, n))
      ensures CanonicalFrom(t, token, |t.aliases|) == CanonicalFrom(t, token, n)
    {
      BoundIsEnough(t, token, n);
    }
    if TablesOk(t) {
      OneStepSettles(t, token);
      BoundIsEnough(t, token, 1);
    }
  }

  /** With good tables the first step already does. */
  lemma OneStepSettles(t: Tables, token: string)
    requires TablesOk(t)
    ensures Settled(t, CanonicalFrom(t, token, 1))
  {
    hide TablesOk, KnownCode, AliasCode;
    var next := AliasCode(t, token);
    assert CanonicalFrom(t, token, 1) == next.GetOr(token);
    if next.Some? {
      KnownIsRow(t, token);
      assert IsCode(t, next.value);
      CodesAreFixed(t, next.value);
    }
  }

  /** Append unless already listed. */
  function PushNew(list: seq<string>, s: string): (r: seq<string>)
    ensures forall x :: x in r <==> x in list || x == s
    ensures NoDuplicates(list) ==> NoDuplicates(r)
    ensures list <= r
  {
    if s in list then list else list + [s]
  }

  predicate NoDuplicates(list: seq<string>) {
    forall i, j :: 0 <= i < j < |list| ==> list[i] != list[j]
  }

  /** Codes that stand for themselves, as the alias rows list them. */
  function Canonicals(t: Tables, rows: Rows): (r: seq<string>)
    ensures forall c :: c in r <==> exists i :: 0 <= i < |rows| && c == CanonicalFrom(t, rows[i].1, |t.aliases|)
    decreases |rows|
  {
    if rows == [] then []
    else PushNew(Canonicals(t, rows[..|rows| - 1]), CanonicalFrom(t, rows[|rows| - 1].1, |t.aliases|))
  }

  /** A canonical code followed by the alias spellings that lead to it. */
  function Spellings(t: Tables, rows: Rows, canonical: string): (r: seq<string>)
    ensures r != [] && r[0] == canonical
    ensures forall k :: k in r <==>
      k == canonical || exists i :: 0 <= i < |rows| && k == rows[i].0 && CanonicalFrom(t, k, |t.aliases|) == canonical
    decreases |rows|
  {
    if rows == [] then [canonical]
    else
      var alias := rows[|rows| - 1].0;
      var before := Spellings(t, rows[..|rows| - 1], canonical);
      if CanonicalFrom(t, alias, |t.aliases|) == canonical then PushNew(before, alias) else before
  }

  /** `sidecar_aliases` of a normal form. */
  function SidecarAliases(t: Tables, want: string): seq<string> {
    if want in Canonicals(t, t.aliases) then Spellings(t, t.aliases, want) else []
  }

  function SidecarPath(stem: string, spelling: string, flag: string): string {
    stem + "." + spelling + flag + ".srt"
  }

  function AddPaths(stem: string, spellings: seq<string>, paths: seq<string>): (r: seq<string>)
    ensures NoDuplicates(paths) ==> NoDuplicates(r)
    ensures paths <= r
    ensures forall p :: p in r <==>
      p in paths || exists k :: k in spellings && p in {SidecarPath(stem, k, ""), SidecarPath(stem, k, ".hi")}
    decreases |spellings|
  {
    if spellings == [] then paths
    else
      var before := AddPaths(stem, spellings[..|spellings| - 1], paths);
      var k := spellings[|spellings| - 1];
      assert forall x :: x in spellings <==> x in spellings[..|spellings| - 1] || x == k by {
        assert spellings == spellings[..|spellings| - 1] + [k];
      }
      PushNew(PushNew(before, SidecarPath(stem, k, "")), SidecarPath(stem, k, ".hi"))
  }

  /** `replaceable_target_sidecar_paths`. */
  function ReplaceablePaths(u: Text, t: Tables, stem: string, lang: string): seq<string> {
    var norm := NormalizeLang(u, t, lang);
    var first := [SidecarPath(stem, NormalizeLang(u, t, norm), ".hi")];
    var aliases := SidecarAliases(t, NormalizeLang(u, t, norm));
    if aliases == [] then PushNew(first, SidecarPath(stem, norm, "")) else AddPaths(stem, aliases, first)
  }

  method ReplaceableTargetSidecarPaths(u: Text, t: Tables, stem: string, lang: string) returns (paths: seq<string>)
    ensures paths == ReplaceablePaths(u, t, stem, lang)
  {
    hide NormalizeLang, SidecarAliases, SidecarPath;
    var norm := NormalizeLang(u, t, lang);
    paths := [SidecarPath(stem, NormalizeLang(u, t, norm), ".hi")];
    ghost var first := paths;
    var aliases := SidecarAliases(t, NormalizeLang(u, t, norm));
    if aliases == [] {
      paths := PushNew(paths, SidecarPath(stem, norm, ""));
      return;
    }
    var i := 0;
    while i < |aliases|
      invariant i <= |aliases|
      invariant paths == AddPaths(stem, aliases[..i], first)
    {
      assert aliases[..i + 1][..i] == aliases[..i];
      paths := PushNew(paths, SidecarPath(stem, aliases[i], ""));
      paths := PushNew(paths, SidecarPath(stem, aliases[i], ".hi"));
      i := i + 1;
    }
    assert aliases[..i] == aliases;
  }

  /* ---- What the list holds ---- */

  ghost predicate PlainAliases(t: Tables) {
    forall i :: 0 <= i < |t.aliases| ==> LowerAlnum(t.aliases[i].0)
  }

  /** With good tables one alias step reaches the canonical code, which is the normal form. */
  lemma CanonicalIsNormal(u: Text, t: Tables, k: string)
    requires TextOk(u) && LowersAll(u) && TablesOk(t) && LowerAlnum(k) && t.aliases != []
    ensures CanonicalFrom(t, k, |t.aliases|) == NormalizeLang(u, t, k)
  {
    hide LowerAlnum, AliasCode;
    PlainIsFixed(u, t, k);
    KnownIsRow(t, k);
    var c := AliasCode(t, k);
    if c.Some? {
      CodesAreFixed(t, c.value);
      StandsForItself(t, c.value, |t.aliases| - 1);
    }
  }

  lemma StandsForItself(t: Tables, c: string, steps: nat)
    requires AliasCode(t, c) in {None, Some(c)}
    ensures CanonicalFrom(t, c, steps) == c
  {
    hide AliasCode;
  }

  /** A spelling of the language: its normal form or a table alias that normalizes to it. */
  predicate Spells(u: Text, t: Tables, lang: string, k: string) {
    || k == NormalizeLang(u, t, lang)
    || exists i :: 0 <= i < |t.aliases| && t.aliases[i].0 == k && NormalizeLang(u, t, k) == NormalizeLang(u, t, lang)
  }

  lemma AliasesAreSpellings(u: Text, t: Tables, lang: string, k: string)
    requires TextOk(u) && LowersAll(u) && TablesOk(t) && PlainAliases(t)
    ensures var aliases := SidecarAliases(t, NormalizeLang(u, t, lang));
      Spells(u, t, lang, k) <==> k in (if aliases == [] then [NormalizeLang(u, t, lang)] else aliases)
  {
    hide NormalizeLang, CanonicalFrom, AliasCode, TextOk, TablesOk, LowerAlnum;
    var norm := NormalizeLang(u, t, lang);
    forall i | 0 <= i < |t.aliases|
      ensures CanonicalFrom(t, t.aliases[i].0, |t.aliases|) == NormalizeLang(u, t, t.aliases[i].0)
      ensures NormalizeLang(u, t, t.aliases[i].0) == norm ==> norm in Canonicals(t, t.aliases)
    {
      CanonicalIsNormal(u, t, t.aliases[i].0);
      AliasReachesCanonical(u, t, i);
    }
  }

  /** The normal form of an alias is among the canonical codes. */
  lemma AliasReachesCanonical(u: Text, t: Tables, i: nat)
    requires TextOk(u) && LowersAll(u) && TablesOk(t) && PlainAliases(t) && i < |t.aliases|
    ensures NormalizeLang(u, t, t.aliases[i].0) in Canonicals(t, t.aliases)
  {
    hide LowerAlnum, CanonicalFrom, TablesOk, TextOk;
    var k := t.aliases[i].0;
    PlainIsFixed(u, t, k);
    var c := AliasCode(t, k).value;
    assert NormalizeLang(u, t, k) == c;
    KnownIsRow(t, k);
    CodesAreFixed(t, c);
    StandsForItself(t, c, |t.aliases|);
    var j :| 0 <= j < |t.aliases| && t.aliases[j] == (k, c);
  }

  /**
    The list starts with the canonical path, repeats nothing, and holds exactly the plain and the
    hearing-impaired file of every spelling of the language. So no table spelling is orphaned,
    and tags with the same normal form get the same list.
   */
  lemma ReplaceableExactly(u: Text, t: Tables, stem: string, lang: string, p: string)
    requires TextOk(u) && LowersAll(u) && TablesOk(t) && PlainAliases(t)
    ensures var paths, norm := ReplaceablePaths(u, t, stem, lang), NormalizeLang(u, t, lang);
      && paths != [] && paths[0] == stem + "." + norm + ".hi.srt" && NoDuplicates(paths)
      && (p in paths <==> exists k :: Spells(u, t, lang, k) && p in {stem + "." + k + ".srt", stem + "." + k + ".hi.srt"})
      && paths == ReplaceablePaths(u, t, stem, norm)
  {
    hide NormalizeLang, SidecarAliases, SidecarPath, TextOk, TablesOk, Spells;
    NormalizationIsIdempotent(u, t, lang);
    var norm := NormalizeLang(u, t, lang);
    forall k
      ensures SidecarPath(stem, k, "") == stem + "." + k + ".srt" && SidecarPath(stem, k, ".hi") == stem + "." + k + ".hi.srt"
    {
      PathReads(stem, k);
    }
    forall k
      ensures var aliases := SidecarAliases(t, norm); Spells(u, t, lang, k) <==> k in (if aliases == [] then [norm] else aliases)
    {
      AliasesAreSpellings(u, t, lang, k);
    }
    CanonicalIsSpelling(u, t, lang);
  }

  lemma PathReads(stem: string, k: string)
    ensures SidecarPath(stem, k, "") == stem + "." + k + ".srt" && SidecarPath(stem, k, ".hi") == stem + "." + k + ".hi.srt"
  {
    assert stem + "." + k + "" == stem + "." + k;
    assert ".hi" + ".srt" == ".hi.srt";
  }

  lemma CanonicalIsSpelling(u: Text, t: Tables, lang: string)
    ensures Spells(u, t, lang, NormalizeLang(u, t, lang))
  {
    hide NormalizeLang;
  }
}
