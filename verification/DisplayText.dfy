/** Display sanitizer of notification titles (`SafeDisplayText::sanitize`). */
module DisplayText {
  import opened Wrappers
  import Json
  import Utf8

  const MAX_SAFE_TITLE_SCALARS: nat := 512

  datatype TextError = TooLong

  /** The Unicode data the program takes from tables: NFC and the classes of the scalars above ASCII. */
  datatype UnicodeTable = UnicodeTable(
    nfc: string -> string,
    white: char -> bool,
    alphabetic: char -> bool,
    numeric: char -> bool,
    mark: char -> bool
  )

  predicate IsWhitespace(u: UnicodeTable, c: char) {
    var n := c as int;
    9 <= n <= 13 || n == 32 || n == 0x2028 || n == 0x2029 || (n >= 0x80 && u.white(c))
  }

  predicate IsBidiControl(n: int) {
    n == 0x061c || 0x200e <= n <= 0x200f || 0x202a <= n <= 0x202e || 0x2066 <= n <= 0x2069
  }

  predicate IsDefaultIgnorable(n: int) {
    || n == 0x00ad || n == 0x034f || n == 0x061c || 0x115f <= n <= 0x1160 || 0x17b4 <= n <= 0x17b5
    || 0x180b <= n <= 0x180f || 0x200b <= n <= 0x200f || 0x202a <= n <= 0x202e || 0x2060 <= n <= 0x2064
    || 0x2066 <= n <= 0x206f || n == 0x3164 || 0xfe00 <= n <= 0xfe0f || n == 0xfeff || n == 0xffa0
    || 0xfff0 <= n <= 0xfff8 || 0x1bca0 <= n <= 0x1bca3 || 0x1d173 <= n <= 0x1d17a || 0xe0000 <= n <= 0xe0fff
  }

  /** Controls, bidirectional controls, separators and default-ignorables disappear without a trace. */
  predicate IsDropped(c: char) {
    var n := c as int;
    n <= 0x1f || 0x7f <= n <= 0x9f || IsBidiControl(n) || n == 0x2028 || n == 0x2029 || IsDefaultIgnorable(n)
  }

  /** Letters, marks, numbers and a few ASCII punctuation marks are copied. */
  predicate IsWord(u: UnicodeTable, c: char) {
    || 'a' <= c <= 'z' || 'A' <= c <= 'Z' || '0' <= c <= '9'
    || (c as int >= 0x80 && (u.alphabetic(c) || u.mark(c) || u.numeric(c)))
    || c in {'!', '&', '\'', '(', ')', '+', ',', '-', '.', ':', '?', '[', ']', '_'}
  }

  /** Characters that reach the plain text as themselves. */
  predicate IsKept(u: UnicodeTable, c: char) {
    !IsWhitespace(u, c) && !IsDropped(c) && IsWord(u, c)
  }

  /** Markdown characters that get a backslash. */
  predicate IsEscaped(c: char) {
    c in {'\\', '`', '*', '_', '~', '|', '>', '[', ']', '(', ')', '#'}
  }

  /** What the scan appends to `plain` for the text still ahead. */
  function ScanFrom(u: UnicodeTable, s: string, plain: string, pending: bool): string
    decreases |s|
  {
    if s == [] then plain
    else if IsWhitespace(u, s[0]) then ScanFrom(u, s[1..], plain, true)
    else if IsDropped(s[0]) then ScanFrom(u, s[1..], plain, pending)
    else
      var spaced := if pending && plain != [] then plain + [' '] else plain;
      if IsWord(u, s[0]) then ScanFrom(u, s[1..], spaced + [s[0]], false)
      else ScanFrom(u, s[1..], spaced, true)
  }

  function TrimSpaces(s: string): (t: string)
    ensures t <= s
    decreases |s|
  {
    if s != [] && s[|s| - 1] == ' ' then TrimSpaces(s[..|s| - 1]) else s
  }

  function EscapeMarkdown(s: string): string {
    if s == [] then []
    else (if IsEscaped(s[0]) then ['\\', s[0]] else [s[0]]) + EscapeMarkdown(s[1..])
  }

  /** The text before markdown escaping. */
  function Plain(u: UnicodeTable, raw: string): string {
    TrimSpaces(ScanFrom(u, u.nfc(raw), [], false))
  }

  function Sanitized(u: UnicodeTable, raw: string): Result<string, TextError> {
    if |u.nfc(raw)| > MAX_SAFE_TITLE_SCALARS then Failure(TooLong) else Success(EscapeMarkdown(Plain(u, raw)))
  }

  /** The sanitizer itself. */
  method Sanitize(u: UnicodeTable, raw: string) returns (r: Result<string, TextError>)
    ensures r == Sanitized(u, raw)
  {
    var normalized := u.nfc(raw);
    if |normalized| > MAX_SAFE_TITLE_SCALARS {
      return Failure(TooLong);
    }
    var plain := [];
    var pendingSpace := false;
    var i := 0;
    while i < |normalized|
      invariant i <= |normalized|
      invariant ScanFrom(u, normalized[i..], plain, pendingSpace) == ScanFrom(u, normalized, [], false)
    {
      var c := normalized[i];
      assert normalized[i..][0] == c && normalized[i..][1..] == normalized[i + 1..];
      i := i + 1;
      if IsWhitespace(u, c) {
        pendingSpace := true;
        continue;
      }
      if IsDropped(c) {
        continue;
      }
      if pendingSpace && plain != [] {
        plain := plain + [' '];
      }
      pendingSpace := false;
      if IsWord(u, c) {
        plain := plain + [c];
      } else {
        pendingSpace := true;
      }
    }
    while plain != [] && plain[|plain| - 1] == ' '
      invariant TrimSpaces(plain) == Plain(u, raw)
      decreases |plain|
    {
      plain := plain[..|plain| - 1];
    }
    var escaped := [];
    i := 0;
    while i < |plain|
      invariant i <= |plain|
      invariant escaped + EscapeMarkdown(plain[i..]) == EscapeMarkdown(plain)
    {
      assert plain[i..][0] == plain[i] && plain[i..][1..] == plain[i + 1..];
      escaped := escaped + if IsEscaped(plain[i]) then ['\\', plain[i]] else [plain[i]];
      i := i + 1;
    }
    assert plain[i..] == [] && escaped == EscapeMarkdown(plain);
    return Success(escaped);
  }

  /* ---- What a sanitized title looks like ---- */

  predicate PlainText(u: UnicodeTable, s: string) {
    forall i :: 0 <= i < |s| ==> s[i] == ' ' || IsKept(u, s[i])
  }

  lemma {:induction false} ScanShape(u: UnicodeTable, s: string, plain: string, pending: bool)
    requires PlainText(u, plain)
    ensures PlainText(u, ScanFrom(u, s, plain, pending))
    ensures |ScanFrom(u, s, plain, pending)| <= |plain| + |s| + (if pending then 1 else 0)
    decreases |s|
  {
    if s != [] {
      var spaced := if pending && plain != [] then plain + [' '] else plain;
      if IsWhitespace(u, s[0]) {
        ScanShape(u, s[1..], plain, true);
      } else if IsDropped(s[0]) {
        ScanShape(u, s[1..], plain, pending);
      } else if IsWord(u, s[0]) {
        ScanShape(u, s[1..], spaced + [s[0]], false);
      } else {
        ScanShape(u, s[1..], spaced, true);
      }
    }
  }

  /** The plain text has only copied characters and spaces, and is no longer than the input. */
  lemma PlainShape(u: UnicodeTable, raw: string)
    ensures PlainText(u, Plain(u, raw)) && |Plain(u, raw)| <= |u.nfc(raw)|
  {
    ScanShape(u, u.nfc(raw), [], false);
  }

  function JsonSize(s: string): nat {
    |Utf8.Encode(Json.EscapeAll(Json.Canonical, s))|
  }

  lemma {:induction false} JsonSizeCons(c: char, s: string)
    ensures JsonSize([c] + s) == |Utf8.Encode(Json.EscapeChar(Json.Canonical, c))| + JsonSize(s)
  {
    assert ([c] + s)[1..] == s;
    Utf8.EncodeConcat(Json.EscapeChar(Json.Canonical, c), Json.EscapeAll(Json.Canonical, s));
  }

  /** A copied character takes at most four bytes, and one if it is escaped, beside the two of a backslash. */
  lemma CharSize(u: UnicodeTable, c: char)
    requires c == ' ' || IsKept(u, c)
    ensures |Utf8.Encode(Json.EscapeChar(Json.Canonical, c))| <= if IsEscaped(c) then 1 else 4
    ensures |Utf8.Encode(Json.EscapeChar(Json.Canonical, '\\'))| <= 2
  {
    assert Json.EscapeChar(Json.Canonical, c) == [c];
    Utf8.EncodedLength([c]);
    Utf8.EncodedLength(['\\', '\\']);
    assert Utf8.Ascii(['\\', '\\']) && (IsEscaped(c) ==> Utf8.Ascii([c]));
  }

  lemma {:induction false} EscapedSize(u: UnicodeTable, p: string)
    requires PlainText(u, p)
    ensures |EscapeMarkdown(p)| <= 2 * |p| && JsonSize(EscapeMarkdown(p)) <= 4 * |p|
  {
    hide IsKept, JsonSize, IsEscaped, Json.EscapeChar;
    if p == [] {
      NothingIsEmpty();
    } else {
      var c, tail := p[0], EscapeMarkdown(p[1..]);
      EscapedSize(u, p[1..]);
      CharSize(u, c);
      JsonSizeCons(c, tail);
      if IsEscaped(c) {
        assert EscapeMarkdown(p) == ['\\'] + ([c] + tail);
        JsonSizeCons('\\', [c] + tail);
      }
    }
  }

  lemma NothingIsEmpty()
    ensures JsonSize([]) == 0
  {
  }

  /** A title has at most 1024 scalars and takes at most 2048 bytes inside canonical JSON. */
  lemma TitleSize(u: UnicodeTable, raw: string)
    requires Sanitized(u, raw).Success?
    ensures var title := Sanitized(u, raw).value;
      |title| <= 1024 && JsonSize(title) <= 2048
  {
    PlainShape(u, raw);
    EscapedSize(u, Plain(u, raw));
  }

  /* ---- Exactly which titles survive a second pass ---- */

  predicate Stable(u: UnicodeTable, title: string) {
    Sanitized(u, title) == Success(title)
  }

  function Spaces(n: nat): string {
    seq(n, _ => ' ')
  }

  /** Spaces a second pass puts before a character that had `gap` of them, once text has started. */
  function Regap(c: char, gap: nat): nat {
    if IsEscaped(c) then (if gap == 0 then 1 else 2) else Min(gap, 1)
  }

  /**
    Every character keeps its gap under `Regap`: an escaped mark after the first
    character has exactly two spaces before it, any other character at most one,
    and there are none at either end.
   */
  predicate WellSpaced(p: string, started: bool, gap: nat)
    decreases |p|
  {
    if p == [] then gap == 0
    else if p[0] == ' ' then WellSpaced(p[1..], started, gap + 1)
    else gap == (if started then Regap(p[0], gap) else 0) && WellSpaced(p[1..], true, 0)
  }

  /** The plain text a second pass makes of an escaped `p`. */
  function Respaced(p: string, started: bool, gap: nat): string
    decreases |p|
  {
    if p == [] then []
    else if p[0] == ' ' then Respaced(p[1..], started, gap + 1)
    else Spaces(if started then Regap(p[0], gap) else 0) + [p[0]] + Respaced(p[1..], true, 0)
  }

  lemma {:induction false} ScanWord(u: UnicodeTable, c: char, s: string, plain: string, gap: nat)
    requires IsKept(u, c)
    ensures ScanFrom(u, [c] + s, plain, gap > 0)
         == ScanFrom(u, s, plain + Spaces(if plain != [] then Min(gap, 1) else 0) + [c], false)
  {
    assert ([c] + s)[1..] == s;
    assert Spaces(1) == [' '] && plain + Spaces(0) == plain;
  }

  lemma {:induction false} ScanBackslash(u: UnicodeTable, s: string, plain: string, gap: nat)
    ensures ScanFrom(u, ['\\'] + s, plain, gap > 0)
         == ScanFrom(u, s, plain + Spaces(if plain != [] then Min(gap, 1) else 0), true)
  {
    assert (['\\'] + s)[1..] == s;
    assert !IsWhitespace(u, '\\') && !IsDropped('\\') && !IsWord(u, '\\');
    assert Spaces(1) == [' '] && plain + Spaces(0) == plain;
  }

  lemma {:induction false} SecondScanWord(u: UnicodeTable, c: char, tail: string, plain: string, gap: nat)
    requires IsKept(u, c)
    ensures ScanFrom(u, (if IsEscaped(c) then ['\\', c] else [c]) + tail, plain, gap > 0)
         == ScanFrom(u, tail, plain + Spaces(if plain != [] then Regap(c, gap) else 0) + [c], false)
  {
    if IsEscaped(c) {
      var spaced := plain + Spaces(if plain != [] then Min(gap, 1) else 0);
      assert ['\\', c] + tail == ['\\'] + ([c] + tail);
      ScanBackslash(u, [c] + tail, plain, gap);
      ScanWord(u, c, tail, spaced, 1);
      assert spaced + Spaces(if spaced != [] then 1 else 0) == plain + Spaces(if plain != [] then Regap(c, gap) else 0);
    } else {
      ScanWord(u, c, tail, plain, gap);
    }
  }

  lemma {:induction false} SecondScan(u: UnicodeTable, p: string, plain: string, gap: nat)
    requires PlainText(u, p)
    ensures ScanFrom(u, EscapeMarkdown(p), plain, gap > 0) == plain + Respaced(p, plain != [], gap)
    decreases |p|
  {
    if p == [] {
    } else if p[0] == ' ' {
      assert EscapeMarkdown(p)[1..] == EscapeMarkdown(p[1..]);
      SecondScan(u, p[1..], plain, gap + 1);
    } else {
      var c := p[0];
      var spaces := Spaces(if plain != [] then Regap(c, gap) else 0);
      SecondScanWord(u, c, EscapeMarkdown(p[1..]), plain, gap);
      SecondScan(u, p[1..], plain + spaces + [c], 0);
      var rest := Respaced(p[1..], true, 0);
      assert plain + spaces + [c] + rest == plain + (spaces + [c] + rest);
    }
  }

  lemma {:induction false} RespacedIsIdentity(p: string, started: bool, gap: nat)
    ensures Respaced(p, started, gap) == Spaces(gap) + p <==> WellSpaced(p, started, gap)
    decreases |p|
  {
    if p == [] {
      assert |Spaces(gap) + p| == gap;
    } else if p[0] == ' ' {
      RespacedIsIdentity(p[1..], started, gap + 1);
      assert Spaces(gap + 1) + p[1..] == Spaces(gap) + p;
    } else {
      var g := if started then Regap(p[0], gap) else 0;
      var rest := Respaced(p[1..], true, 0);
      RespacedIsIdentity(p[1..], true, 0);
      assert Spaces(0) + p[1..] == p[1..];
      GapThenWord(g, gap, p[0], rest, p[1..]);
      assert [p[0]] + p[1..] == p;
    }
  }

  lemma {:induction false} GapThenWord(g: nat, gap: nat, c: char, s: string, t: string)
    requires c != ' '
    ensures Spaces(g) + [c] + s == Spaces(gap) + ([c] + t) <==> g == gap && s == t
  {
    var a, b := Spaces(g) + [c] + s, Spaces(gap) + ([c] + t);
    assert a[g] == c && b[gap] == c;
    assert a[g + 1..] == s && b[gap + 1..] == t;
    assert forall i :: 0 <= i < gap ==> b[i] == ' ';
    assert forall i :: 0 <= i < g ==> a[i] == ' ';
  }

  lemma {:induction false} NoTrailingSpace(p: string, started: bool, gap: nat)
    ensures var s := Respaced(p, started, gap); s == [] || s[|s| - 1] != ' '
    decreases |p|
  {
    if p != [] {
      if p[0] == ' ' {
        NoTrailingSpace(p[1..], started, gap + 1);
      } else {
        NoTrailingSpace(p[1..], true, 0);
      }
    }
  }

  lemma {:induction false} EscapeInjective(a: string, b: string)
    requires forall i :: 0 <= i < |a| ==> a[i] != '\\'
    requires forall i :: 0 <= i < |b| ==> b[i] != '\\'
    requires EscapeMarkdown(a) == EscapeMarkdown(b)
    ensures a == b
  {
    if a == [] || b == [] {
      assert |EscapeMarkdown(a)| == 0;
    } else {
      var x, y := EscapeMarkdown(a), EscapeMarkdown(b);
      if IsEscaped(a[0]) {
        assert x[0] == '\\' && y[1] == b[0] == a[0];
        assert x[2..] == EscapeMarkdown(a[1..]) && y[2..] == EscapeMarkdown(b[1..]);
      } else {
        assert x[0] == a[0] && y[0] == b[0];
        assert x[1..] == EscapeMarkdown(a[1..]) && y[1..] == EscapeMarkdown(b[1..]);
      }
      EscapeInjective(a[1..], b[1..]);
      assert a == [a[0]] + a[1..] && b == [b[0]] + b[1..];
    }
  }

  lemma NoBackslash(u: UnicodeTable, p: string)
    requires PlainText(u, p)
    ensures forall i :: 0 <= i < |p| ==> p[i] != '\\'
  {
    assert !IsKept(u, '\\');
  }

  /**
    A sanitized title that is still in NFC is a fixed point of the sanitizer exactly when it
    is short enough and its plain text is well spaced; `Movie (2020)` is not.
   */
  lemma NormalTitleIsStable(u: UnicodeTable, raw: string)
    requires Sanitized(u, raw).Success?
    requires u.nfc(Sanitized(u, raw).value) == Sanitized(u, raw).value
    ensures var title := Sanitized(u, raw).value;
      Stable(u, title) <==> |title| <= MAX_SAFE_TITLE_SCALARS && WellSpaced(Plain(u, raw), false, 0)
  {
    hide IsKept, IsEscaped, PlainText, ScanFrom, Respaced, WellSpaced;
    var p := Plain(u, raw);
    var title := EscapeMarkdown(p);
    PlainShape(u, raw);
    SecondScan(u, p, [], 0);
    var again := Respaced(p, false, 0);
    NoTrailingSpace(p, false, 0);
    assert Plain(u, title) == again;
    PlainShape(u, title);
    RespacedIsIdentity(p, false, 0);
    assert Spaces(0) + p == p;
    if |title| <= MAX_SAFE_TITLE_SCALARS && EscapeMarkdown(again) == EscapeMarkdown(p) {
      NoBackslash(u, again);
      NoBackslash(u, p);
      EscapeInjective(again, p);
    }
  }

  /** A single underscore is enough to make a title unstable. */
  lemma UnderscoreIsNotStable(u: UnicodeTable)
    requires u.nfc("a_b") == "a_b" && u.nfc("a\\_b") == "a\\_b"
    ensures Sanitized(u, "a_b") == Success("a\\_b") && !Stable(u, "a\\_b")
  {
    var raw := "a_b";
    assert raw[1..] == "_b" && "_b"[1..] == "b" && "b"[1..] == "";
    calc {
      ScanFrom(u, raw, [], false);
      ScanFrom(u, "_b", "a", false);
      ScanFrom(u, "b", "a_", false);
      ScanFrom(u, "", "a_b", false);
    }
    assert Plain(u, raw) == raw;
    assert EscapeMarkdown("b") == "b" && EscapeMarkdown("_b") == "\\_b" && EscapeMarkdown(raw) == "a\\_b";
    assert !WellSpaced("_b", true, 0);
    NormalTitleIsStable(u, raw);
  }
}
