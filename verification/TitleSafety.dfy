/** What no sanitized title can hold, whatever came in. */
module TitleSafety {
  import opened DisplayText

  /** Controls, line and paragraph separators, direction marks, and characters nobody sees. */
  predicate Invisible(n: int) {
    || n < 0x20 || 0x7f <= n < 0xa0 || n == 0x2028 || n == 0x2029
    || n == 0x061c || n == 0x200e || n == 0x200f || 0x202a <= n <= 0x202e || 0x2066 <= n <= 0x2069
    || n == 0x00ad || n == 0x034f || 0x115f <= n <= 0x1160 || 0x17b4 <= n <= 0x17b5 || 0x180b <= n <= 0x180f
    || 0x200b <= n <= 0x200d || 0x2060 <= n <= 0x2064 || 0x206a <= n <= 0x206f || n == 0x3164 || 0xfe00 <= n <= 0xfe0f
    || n == 0xfeff || n == 0xffa0 || 0xfff0 <= n <= 0xfff8 || 0x1bca0 <= n <= 0x1bca3 || 0x1d173 <= n <= 0x1d17a
    || 0xe0000 <= n <= 0xe0fff
  }

  /** Marks that format text, with a backslash in front of them or not. */
  const FORMATTING: set<char> := {'_', '[', ']', '(', ')'}

  /** The ASCII a title may hold beside letters and digits. */
  const PUNCTUATION: set<char> := {' ', '!', '&', '\'', '+', ',', '-', '.', ':', '?', '_', '[', ']', '(', ')', '\\'}

  /** A character of a title: above ASCII visible and a letter, a mark or a number; within it a letter, a digit or one of a few marks. */
  predicate Shown(u: UnicodeTable, c: char) {
    if c as int >= 0x80 then !Invisible(c as int) && !u.white(c) && (u.alphabetic(c) || u.mark(c) || u.numeric(c))
    else 'a' <= c <= 'z' || 'A' <= c <= 'Z' || '0' <= c <= '9' || c in PUNCTUATION
  }

  lemma KeptExactly(u: UnicodeTable, c: char)
    ensures IsKept(u, c) <==> Shown(u, c) && c != ' ' && c != '\\'
    ensures IsKept(u, c) && IsEscaped(c) <==> c in FORMATTING
  {
  }

  /** Every backslash is in front of a formatting mark and every formatting mark is behind a backslash. */
  predicate EscapedWell(s: string) {
    && (forall i :: 0 <= i < |s| && s[i] == '\\' ==> i + 1 < |s| && s[i + 1] in FORMATTING)
    && (forall i :: 0 <= i < |s| && s[i] in FORMATTING ==> i > 0 && s[i - 1] == '\\')
  }

  lemma {:induction false} EscapeIsWell(u: UnicodeTable, p: string)
    requires PlainText(u, p)
    ensures EscapedWell(EscapeMarkdown(p)) && forall i :: 0 <= i < |EscapeMarkdown(p)| ==> Shown(u, EscapeMarkdown(p)[i])
    ensures p != "" ==> EscapeMarkdown(p)[0] == if p[0] in FORMATTING then '\\' else p[0]
  {
    hide IsKept, Shown;
    if p != "" {
      var rest := EscapeMarkdown(p[1..]);
      EscapeIsWell(u, p[1..]);
      KeptExactly(u, p[0]);
      EscapedIsFormatting(p[0], IsKept(u, p[0]) || p[0] == ' ');
      AsciiShown(u);
      var head := if p[0] in FORMATTING then ['\\', p[0]] else [p[0]];
      assert EscapeMarkdown(p) == head + rest;
      PutBefore(head, rest);
    }
  }

  lemma EscapedIsFormatting(c: char, kept: bool)
    ensures c == ' ' ==> !IsEscaped(c) && c !in FORMATTING
  {
  }

  lemma AsciiShown(u: UnicodeTable)
    ensures Shown(u, ' ') && Shown(u, '\\')
  {
  }

  lemma PutBefore(head: string, rest: string)
    requires EscapedWell(rest)
    requires (|head| == 2 && head[0] == '\\' && head[1] in FORMATTING) || (|head| == 1 && head[0] != '\\' && head[0] !in FORMATTING)
    ensures EscapedWell(head + rest)
  {
    var s := head + rest;
    assert '\\' !in FORMATTING;
    forall i | 0 <= i < |s|
      ensures s[i] == '\\' ==> i + 1 < |s| && s[i + 1] in FORMATTING
      ensures s[i] in FORMATTING ==> i > 0 && s[i - 1] == '\\'
    {
      if i >= |head| {
        var j := i - |head|;
        assert s[i] == rest[j];
      }
    }
  }

  /**
    A title holds nothing invisible and no white space but plain spaces, none of them at either end; no character that could start a
    mention, a code span, a heading, a quotation or a link stands in it, and every mark that formats text is escaped.
   */
  lemma TitleIsSafe(u: UnicodeTable, raw: string)
    requires Sanitized(u, raw).Success?
    ensures var title := Sanitized(u, raw).value;
      && (forall i :: 0 <= i < |title| ==> Shown(u, title[i]) && !Invisible(title[i] as int))
      && (forall i :: 0 <= i < |title| ==> title[i] !in {'@', '`', '*', '#', '~', '|', '>', '<', '/', '"', '$', '%', ';', '=', '{', '}', '^'})
      && EscapedWell(title)
      && (title != "" ==> title[0] != ' ' && title[|title| - 1] != ' ')
  {
    hide Shown, ScanFrom, EscapeMarkdown, IsKept, EscapedWell;
    var p := Plain(u, raw);
    PlainShape(u, raw);
    EscapeIsWell(u, p);
    var title := EscapeMarkdown(p);
    forall i | 0 <= i < |title|
      ensures !Invisible(title[i] as int)
      ensures title[i] !in {'@', '`', '*', '#', '~', '|', '>', '<', '/', '"', '$', '%', ';', '=', '{', '}', '^'}
    {
      ShownIsVisible(u, title[i]);
    }
    NoSpaceAtEnds(u, raw);
    EscapeEnds(p);
  }

  lemma ShownIsVisible(u: UnicodeTable, c: char)
    requires Shown(u, c)
    ensures !Invisible(c as int)
    ensures c !in {'@', '`', '*', '#', '~', '|', '>', '<', '/', '"', '$', '%', ';', '=', '{', '}', '^'}
  {
  }

  lemma {:induction false} ScanStart(u: UnicodeTable, s: string, plain: string, pending: bool)
    requires plain == "" || plain[0] != ' '
    ensures var r := ScanFrom(u, s, plain, pending); r == "" || r[0] != ' '
    decreases |s|
  {
    if s != "" {
      var spaced := if pending && plain != [] then plain + [' '] else plain;
      if IsWhitespace(u, s[0]) {
        ScanStart(u, s[1..], plain, true);
      } else if IsDropped(s[0]) {
        ScanStart(u, s[1..], plain, pending);
      } else if IsWord(u, s[0]) {
        assert s[0] != ' ';
        ScanStart(u, s[1..], spaced + [s[0]], false);
      } else {
        ScanStart(u, s[1..], spaced, true);
      }
    }
  }

  lemma {:induction false} TrimmedEnd(s: string)
    ensures var t := TrimSpaces(s); t == "" || t[|t| - 1] != ' '
    decreases |s|
  {
    if s != "" && s[|s| - 1] == ' ' {
      TrimmedEnd(s[..|s| - 1]);
    }
  }

  lemma NoSpaceAtEnds(u: UnicodeTable, raw: string)
    ensures var p := Plain(u, raw); p != "" ==> p[0] != ' ' && p[|p| - 1] != ' '
  {
    ScanStart(u, u.nfc(raw), "", false);
    TrimmedEnd(ScanFrom(u, u.nfc(raw), "", false));
  }

  lemma {:induction false} EscapeEnds(p: string)
    ensures p != "" ==> var e := EscapeMarkdown(p);
      e != "" && e[|e| - 1] == p[|p| - 1] && (p[0] != ' ' ==> e[0] != ' ')
    ensures p == "" ==> EscapeMarkdown(p) == ""
  {
    if p != "" {
      EscapeEnds(p[1..]);
    }
  }

  /* ---- What becomes of a single character ---- */

  /** A title is refused exactly when it has more than 512 scalars in NFC. */
  lemma TooLongExactly(u: UnicodeTable, raw: string)
    ensures Sanitized(u, raw).Success? <==> |u.nfc(raw)| <= 512
  {
  }

  lemma ScanThree(u: UnicodeTable, a: char, x: char, b: char)
    ensures ScanFrom(u, [a, x, b], [], false) ==
      (var rest := [x, b];
       if IsWhitespace(u, a) then ScanFrom(u, rest, [], true)
       else if IsDropped(a) then ScanFrom(u, rest, [], false)
       else if IsWord(u, a) then ScanFrom(u, rest, [a], false)
       else ScanFrom(u, rest, [], true))
  {
    assert [a, x, b][1..] == [x, b] && [] + [a] == [a];
  }

  /**
    Between two letters that stay, an unseen character disappears, a letter stays, and anything else, white space or symbol,
    becomes one space.
   */
  lemma MiddleBecomes(u: UnicodeTable, a: char, x: char, b: char)
    requires Shown(u, a) && Shown(u, b) && a !in {' ', '\\'} && b !in {' ', '\\'} && u.nfc([a, x, b]) == [a, x, b]
    ensures Plain(u, [a, x, b]) ==
      if IsWhitespace(u, x) then [a, ' ', b]
      else if Invisible(x as int) then [a, b]
      else if Shown(u, x) && x != '\\' then [a, x, b]
      else [a, ' ', b]
  {
    hide IsWhitespace, IsDropped, IsWord, Shown, Invisible;
    KeptExactly(u, a);
    KeptExactly(u, x);
    KeptExactly(u, b);
    DroppedExactly(x);
    assert IsKept(u, a) && IsKept(u, b);
    ScanThree(u, a, x, b);
    MiddleScan(u, a, x, b);
    KeptIsNoSpace(u, b);
    SpaceIsWhite(u);
    NothingToTrim(ScanFrom(u, [a, x, b], [], false));
  }

  lemma NothingToTrim(s: string)
    requires s != "" && s[|s| - 1] != ' '
    ensures TrimSpaces(s) == s
  {
  }

  lemma DroppedExactly(c: char)
    ensures IsDropped(c) <==> Invisible(c as int)
  {
  }

  lemma KeptIsNoSpace(u: UnicodeTable, c: char)
    requires IsKept(u, c)
    ensures c != ' '
  {
  }

  lemma SpaceIsWhite(u: UnicodeTable)
    ensures IsWhitespace(u, ' ')
  {
  }

  lemma LastScan(u: UnicodeTable, b: char, plain: string, pending: bool)
    requires IsKept(u, b)
    ensures ScanFrom(u, [b], plain, pending) == (if pending && plain != [] then plain + [' '] else plain) + [b]
  {
    hide IsWhitespace, IsDropped, IsWord;
    assert [b][1..] == [];
  }

  lemma MiddleScan(u: UnicodeTable, a: char, x: char, b: char)
    requires IsKept(u, a) && IsKept(u, b)
    ensures ScanFrom(u, [x, b], [a], false) ==
      if IsWhitespace(u, x) then [a, ' ', b]
      else if IsDropped(x) then [a, b]
      else if IsWord(u, x) then [a, x, b]
      else [a, ' ', b]
  {
    hide IsWhitespace, IsDropped, IsWord, IsKept;
    assert [x, b][1..] == [b];
    LastScan(u, b, [a], true);
    LastScan(u, b, [a], false);
    LastScan(u, b, [a, x], false);
    assert [a] + [' '] + [b] == [a, ' ', b] && [a] + [b] == [a, b];
    assert [a] + [x] == [a, x] && [a, x] + [b] == [a, x, b];
  }

  /** However much white space stands between two letters, one space is left; at either end none is. */
  lemma {:induction false} WhiteRunIsOneSpace(u: UnicodeTable, run: string, rest: string, plain: string)
    requires forall i :: 0 <= i < |run| ==> IsWhitespace(u, run[i])
    ensures run != "" ==> ScanFrom(u, run + rest, plain, false) == ScanFrom(u, rest, plain, true)
    ensures ScanFrom(u, run + rest, plain, true) == ScanFrom(u, rest, plain, true)
  {
    hide IsWhitespace, IsDropped, IsWord;
    if run == "" {
      assert run + rest == rest;
    } else {
      assert (run + rest)[0] == run[0] && (run + rest)[1..] == run[1..] + rest;
      WhiteRunIsOneSpace(u, run[1..], rest, plain);
    }
  }
}
