/** Which sanitized titles the sanitizer leaves alone when it reads them back: also a question of NFC. */
module DisplayNormal {
  import opened Wrappers
  import opened DisplayText

  /** What a second pass can meet: copied characters, spaces, and the backslashes of the first pass. */
  predicate Separator(c: char) {
    c == ' ' || c == '\\'
  }

  predicate AllKept(u: UnicodeTable, s: string) {
    forall i :: 0 <= i < |s| ==> IsKept(u, s[i])
  }

  predicate Separated(u: UnicodeTable, s: string) {
    forall i :: 0 <= i < |s| ==> Separator(s[i]) || IsKept(u, s[i])
  }

  /**
    Laws of NFC: nothing composes with a space or a backslash, letters and marks compose and
    decompose to letters and marks, and no text is normalized to a proper beginning or a proper
    extension of itself.
   */
  ghost predicate NfcLaws(u: UnicodeTable) {
    && u.nfc([]) == []
    && (forall a: string, c: char, b: string :: Separator(c) ==> u.nfc(a + [c] + b) == u.nfc(a) + [c] + u.nfc(b))
    && (forall s: string :: AllKept(u, s) ==> AllKept(u, u.nfc(s)))
    && (forall s: string :: u.nfc(s) <= s || s <= u.nfc(s) ==> u.nfc(s) == s)
  }

  /** The text without separators. */
  function Words(s: string): string {
    if s == [] then [] else (if Separator(s[0]) then [] else [s[0]]) + Words(s[1..])
  }

  lemma {:induction false} WordsConcat(a: string, b: string)
    ensures Words(a + b) == Words(a) + Words(b)
  {
    if a == [] {
      assert a + b == b;
    } else {
      assert (a + b)[1..] == a[1..] + b;
      WordsConcat(a[1..], b);
    }
  }

  lemma {:induction false} WordsOfKept(u: UnicodeTable, s: string)
    requires AllKept(u, s)
    ensures Words(s) == s
  {
    if s != [] {
      assert IsKept(u, s[0]);
      WordsOfKept(u, s[1..]);
    }
  }

  /** Escaping adds backslashes only. */
  lemma {:induction false} WordsOfEscaped(s: string)
    ensures Words(EscapeMarkdown(s)) == Words(s)
  {
    if s != [] {
      WordsOfEscaped(s[1..]);
      WordsConcat(if IsEscaped(s[0]) then ['\\', s[0]] else [s[0]], EscapeMarkdown(s[1..]));
      assert ['\\', s[0]][1..] == [s[0]] && [s[0]][1..] == [];
    }
  }

  lemma {:induction false} WordsOfTrimmed(s: string)
    ensures Words(TrimSpaces(s)) == Words(s)
    decreases |s|
  {
    if s != [] && s[|s| - 1] == ' ' {
      WordsOfTrimmed(s[..|s| - 1]);
      WordsConcat(s[..|s| - 1], [' ']);
      assert s == s[..|s| - 1] + [' '];
    }
  }

  lemma WordsAround(u: UnicodeTable, word: string, c: char, rest: string)
    requires AllKept(u, word) && Separator(c)
    ensures Words(word + [c] + rest) == word + Words(rest)
  {
    hide IsKept, Words, AllKept;
    WordsOfKept(u, word);
    WordsOfSeparator(c);
    WordsConcat(word, [c]);
    WordsConcat(word + [c], rest);
  }

  lemma WordsOfSeparator(c: char)
    requires Separator(c)
    ensures Words([c]) == []
  {
    assert [c][1..] == [];
  }

  /** How a pass treats what it can meet. */
  lemma SeparatorClasses(u: UnicodeTable, c: char)
    ensures c == ' ' ==> IsWhitespace(u, c)
    ensures c == '\\' ==> !IsWhitespace(u, c) && !IsDropped(c) && !IsWord(u, c)
  {
  }

  lemma WordsOfSpaced(plain: string, pending: bool)
    ensures Words(if pending && plain != [] then plain + [' '] else plain) == Words(plain)
  {
    WordsConcat(plain, [' ']);
    assert [' '][1..] == [];
  }

  lemma WordsOfLonger(plain: string, c: char)
    requires !Separator(c)
    ensures Words(plain + [c]) == Words(plain) + [c]
  {
    WordsConcat(plain, [c]);
    assert [c][1..] == [];
  }

  /** A pass over separated text moves separators only. */
  lemma {:induction false} WordsOfScan(u: UnicodeTable, s: string, plain: string, pending: bool)
    requires Separated(u, s)
    ensures Words(ScanFrom(u, s, plain, pending)) == Words(plain) + Words(s)
    decreases |s|
  {
    hide IsWhitespace, IsDropped, IsWord;
    if s != [] {
      var spaced := if pending && plain != [] then plain + [' '] else plain;
      WordsOfSpaced(plain, pending);
      SeparatorClasses(u, s[0]);
      if s[0] == ' ' {
        WordsOfScan(u, s[1..], plain, true);
      } else if s[0] == '\\' {
        WordsOfScan(u, s[1..], spaced, true);
      } else {
        assert IsKept(u, s[0]);
        WordsOfScan(u, s[1..], spaced + [s[0]], false);
        WordsOfLonger(spaced, s[0]);
      }
    }
  }

  lemma NfcSplits(u: UnicodeTable, word: string, s: string)
    requires NfcLaws(u) && s != [] && Separator(s[0])
    ensures u.nfc(word + s) == u.nfc(word) + [s[0]] + u.nfc(s[1..])
  {
    assert word + s == word + [s[0]] + s[1..];
  }

  lemma NfcKeeps(u: UnicodeTable, word: string)
    requires NfcLaws(u) && AllKept(u, word)
    ensures AllKept(u, u.nfc(word))
  {
  }

  lemma NfcIsNoExtension(u: UnicodeTable, word: string)
    requires NfcLaws(u) && (u.nfc(word) <= word || word <= u.nfc(word))
    ensures u.nfc(word) == word
  {
  }

  lemma Longer(word: string, s: string)
    requires s != []
    ensures word + s == word + [s[0]] + s[1..]
  {
  }

  /** NFC keeps separated text separated. */
  lemma {:induction false} NfcSeparated(u: UnicodeTable, word: string, s: string)
    requires NfcLaws(u) && AllKept(u, word) && Separated(u, s)
    ensures Separated(u, u.nfc(word + s))
    decreases |s|
  {
    hide NfcLaws, IsKept;
    if s == [] {
      assert word + s == word;
      NfcKeeps(u, word);
    } else if Separator(s[0]) {
      NfcSeparated(u, [], s[1..]);
      assert [] + s[1..] == s[1..];
      NfcSplits(u, word, s);
      NfcKeeps(u, word);
    } else {
      Longer(word, s);
      NfcSeparated(u, word + [s[0]], s[1..]);
    }
  }

  /** If NFC changes separated text at all, it changes the words. */
  lemma {:induction false} NfcChangesWords(u: UnicodeTable, word: string, s: string)
    requires NfcLaws(u) && AllKept(u, word) && Separated(u, s)
    requires Words(u.nfc(word + s)) == word + Words(s)
    ensures u.nfc(word + s) == word + s
    decreases |s|
  {
    hide NfcLaws, IsKept, Words, AllKept;
    NoWords();
    if s == [] {
      assert word + s == word;
      NfcKeeps(u, word);
      WordsOfKept(u, u.nfc(word));
    } else {
      WordsCons(s);
      Longer(word, s);
      if Separator(s[0]) {
        var w, rest := u.nfc(word), u.nfc(s[1..]);
        NfcSplits(u, word, s);
        NfcKeeps(u, word);
        WordsAround(u, w, s[0], rest);
        SamePrefix(w, Words(rest), word, Words(s[1..]));
        NfcIsNoExtension(u, word);
        assert [] + s[1..] == s[1..] && [] + Words(s[1..]) == Words(s[1..]);
        NothingKept(u);
        NfcChangesWords(u, [], s[1..]);
      } else {
        OneMoreKept(u, word, s[0]);
        NfcChangesWords(u, word + [s[0]], s[1..]);
      }
    }
  }

  lemma NoWords()
    ensures Words([]) == []
  {
  }

  lemma WordsCons(s: string)
    requires s != []
    ensures Separator(s[0]) ==> Words(s) == Words(s[1..])
    ensures !Separator(s[0]) ==> forall word :: word + Words(s) == word + [s[0]] + Words(s[1..])
  {
  }

  lemma NothingKept(u: UnicodeTable)
    ensures AllKept(u, [])
  {
  }

  lemma OneMoreKept(u: UnicodeTable, word: string, c: char)
    requires AllKept(u, word) && IsKept(u, c)
    ensures AllKept(u, word + [c])
  {
  }

  lemma SamePrefix(a: string, x: string, b: string, y: string)
    requires a + x == b + y
    ensures a <= b || b <= a
    ensures a == b ==> x == y
  {
    assert forall i :: 0 <= i < |a| && i < |b| ==> (a + x)[i] == (b + y)[i];
    assert (a + x)[|a|..] == x && (b + y)[|b|..] == y;
  }

  lemma {:induction false} EscapedIsSeparated(u: UnicodeTable, p: string)
    requires PlainText(u, p)
    ensures Separated(u, EscapeMarkdown(p))
  {
    if p != [] {
      EscapedIsSeparated(u, p[1..]);
    }
  }

  /** A title that survives a second pass is in NFC. */
  lemma StableIsNormal(u: UnicodeTable, raw: string)
    requires NfcLaws(u) && Sanitized(u, raw).Success? && Stable(u, Sanitized(u, raw).value)
    ensures u.nfc(Sanitized(u, raw).value) == Sanitized(u, raw).value
  {
    var title := Sanitized(u, raw).value;
    PlainShape(u, raw);
    EscapedIsSeparated(u, Plain(u, raw));
    assert [] + title == title;
    NfcSeparated(u, [], title);
    WordsOfScan(u, u.nfc(title), [], false);
    WordsOfTrimmed(ScanFrom(u, u.nfc(title), [], false));
    WordsOfEscaped(Plain(u, title));
    NfcChangesWords(u, [], title);
  }

  /**
    A sanitized title is a fixed point of the sanitizer exactly when it is in NFC, short
    enough, and its plain text is well spaced.
   */
  lemma StableExactlyWhen(u: UnicodeTable, raw: string)
    requires NfcLaws(u) && Sanitized(u, raw).Success?
    ensures var title := Sanitized(u, raw).value;
      Stable(u, title) <==>
        u.nfc(title) == title && |title| <= MAX_SAFE_TITLE_SCALARS && WellSpaced(Plain(u, raw), false, 0)
  {
    var title := Sanitized(u, raw).value;
    if Stable(u, title) {
      StableIsNormal(u, raw);
    }
    if u.nfc(title) == title {
      NormalTitleIsStable(u, raw);
    }
  }

  /**
    The characters a pass drops can keep a letter and its accent apart, so that the output is short
    and well spaced but not in NFC: without its zero-width space, `a` with an acute accent
    composes on the second pass.
   */
  lemma DroppedJoinerIsNotStable(u: UnicodeTable)
    requires u.nfc("a\U{200b}\U{301}") == "a\U{200b}\U{301}" && u.nfc("a\U{301}") == "\U{e1}"
    requires u.mark('\U{301}') && u.alphabetic('\U{e1}')
    requires !u.white('\U{200b}') && !u.white('\U{301}') && !u.white('\U{e1}')
    ensures var raw := "a\U{200b}\U{301}";
      && Sanitized(u, raw) == Success("a\U{301}") && |"a\U{301}"| <= MAX_SAFE_TITLE_SCALARS && WellSpaced(Plain(u, raw), false, 0)
      && Sanitized(u, "a\U{301}") == Success("\U{e1}") && !Stable(u, "a\U{301}")
  {
    var raw, title, composed := "a\U{200b}\U{301}", "a\U{301}", "\U{e1}";
    assert raw[1..] == "\U{200b}\U{301}" && "\U{200b}\U{301}"[1..] == "\U{301}" && "\U{301}"[1..] == "";
    calc {
      ScanFrom(u, raw, [], false);
      ScanFrom(u, "\U{200b}\U{301}", "a", false);
      ScanFrom(u, "\U{301}", "a", false);
      ScanFrom(u, "", title, false);
      title;
    }
    assert composed[1..] == "" && title[1..] == "\U{301}";
    assert ScanFrom(u, composed, [], false) == ScanFrom(u, "", composed, false) == composed;
    assert Plain(u, raw) == title && Plain(u, title) == composed;
    assert EscapeMarkdown("\U{301}") == "\U{301}";
    assert EscapeMarkdown(title) == title && EscapeMarkdown(composed) == composed;
    assert WellSpaced("\U{301}", true, 0);
    assert |title| == 2 && |composed| == 1;
  }
}
