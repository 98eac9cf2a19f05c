/**
  The JSON grammar is prefix-stable: text after a parsed value changes nothing about it.
  Printed text has no control characters, so a printed row is one line.
 */
module JsonExtension {
  import opened Decimal
  import opened Json
  import Utf8

  /** A text that cannot continue a number or a word. */
  predicate Breaks(x: string) {
    x != [] && !IsDigit(x[0]) && !IsSpace(x[0])
  }

  lemma {:induction false} SkipSpaceExtends(s: string, x: string)
    ensures SkipSpace(s) != [] ==> SkipSpace(s + x) == SkipSpace(s) + x
    ensures SkipSpace(s) == [] ==> SkipSpace(s + x) == SkipSpace(x)
    decreases |s|
  {
    if s == [] {
      assert s + x == x;
    } else {
      assert (s + x)[0] == s[0];
      if IsSpace(s[0]) {
        assert (s + x)[1..] == s[1..] + x;
        SkipSpaceExtends(s[1..], x);
      }
    }
  }

  lemma {:induction false} SpanExtends(s: string, x: string)
    requires Breaks(x)
    ensures Span(s + x) == Span(s)
    decreases |s|
  {
    if s == [] {
      assert s + x == x;
    } else {
      assert (s + x)[0] == s[0] && (s + x)[1..] == s[1..] + x;
      SpanExtends(s[1..], x);
    }
  }

  /** A slice of `s` is a slice of `s + x`. */
  lemma {:induction false} Slices(s: string, x: string, i: nat)
    requires i <= |s|
    ensures (s + x)[i..] == s[i..] + x && (s + x)[..i] == s[..i]
  {
  }

  lemma {:induction false} HexExtends(s: string, x: string)
    requires |s| >= 4
    ensures ParseHex4(s + x) == ParseHex4(s)
  {
    assert forall i :: 0 <= i < 4 ==> (s + x)[i] == s[i];
  }

  lemma {:induction false} UnicodeExtends(s: string, x: string)
    requires ParseUnicode(s).Ok?
    ensures ParseUnicode(s + x) == Ok(ParseUnicode(s).value, ParseUnicode(s).rest + x)
  {
    HexExtends(s, x);
    Slices(s, x, 4);
    var n :- assert ParseHex4(s);
    if 0xD800 <= n < 0xE000 {
      assert (s + x)[4] == s[4] && (s + x)[5] == s[5];
      Slices(s, x, 6);
      HexExtends(s[6..], x);
      Slices(s, x, 10);
    }
  }

  lemma {:induction false} CharExtends(s: string, x: string)
    requires s != [] && ParseChar(s).Ok?
    ensures ParseChar(s + x) == Ok(ParseChar(s).value, ParseChar(s).rest + x)
  {
    hide ParseUnicode, ShortEscape;
    assert (s + x)[0] == s[0];
    Slices(s, x, 1);
    if s[0] == '\\' {
      assert (s + x)[1] == s[1];
      Slices(s, x, 2);
      if s[1] == 'u' {
        UnicodeExtends(s[2..], x);
      }
    }
  }

  lemma {:induction false} StringExtends(s: string, x: string)
    requires ParseString(s).Ok?
    ensures ParseString(s + x) == Ok(ParseString(s).value, ParseString(s).rest + x)
    decreases |s|
  {
    hide ParseChar;
    assert (s + x)[0] == s[0];
    if s[0] == '"' {
      Slices(s, x, 1);
    } else {
      CharExtends(s, x);
      StringExtends(ParseChar(s).rest, x);
    }
  }

  lemma {:induction false} NumberExtends(s: string, x: string)
    requires ParseNumber(s).Ok? && Breaks(x)
    ensures ParseNumber(s + x) == Ok(ParseNumber(s).value, ParseNumber(s).rest + x)
  {
    hide Number;
    var negative := s != [] && s[0] == '-';
    assert s != [] && (s + x)[0] == s[0];
    Slices(s, x, 1);
    var t := if negative then s[1..] else s;
    SpanExtends(t, x);
    Slices(t, x, Span(t));
    assert (t + x)[0] == t[0];
  }

  lemma {:induction false} WordExtends(s: string, x: string, word: string, v: Value)
    requires word != [] && ParseWord(s, word, v).Ok?
    ensures ParseWord(s, word, v).value == v && ParseWord(s + x, word, v) == Ok(v, ParseWord(s, word, v).rest + x)
  {
    Slices(s, x, |word|);
  }

  lemma {:induction false} ValueExtends(s: string, x: string)
    requires ParseValue(s).Ok? && Breaks(x)
    ensures ParseValue(s + x) == Ok(ParseValue(s).value, ParseValue(s).rest + x)
    decreases |s|, 3
  {
    hide ParseWord, ParseString, ParseNumber, ParseArray, ParseObject;
    var t := SkipSpace(s);
    SkipSpaceExtends(s, x);
    assert (t + x)[0] == t[0];
    Slices(t, x, 1);
    if t[0] == 'n' {
      WordExtends(t, x, "null", VNull);
    } else if t[0] == 't' {
      WordExtends(t, x, "true", VBool(true));
    } else if t[0] == 'f' {
      WordExtends(t, x, "false", VBool(false));
    } else if t[0] == '"' {
      StringExtends(t[1..], x);
    } else if t[0] == '[' {
      ArrayExtends(t[1..], x);
    } else if t[0] == '{' {
      ObjectExtends(t[1..], x);
    } else {
      NumberExtends(t, x);
    }
  }

  lemma {:induction false} ArrayExtends(s: string, x: string)
    requires ParseArray(s).Ok? && Breaks(x)
    ensures ParseArray(s + x) == Ok(ParseArray(s).value, ParseArray(s).rest + x)
    decreases |s|, 5
  {
    hide ParseItems;
    var u := SkipSpace(s);
    SkipSpaceExtends(s, x);
    if u != [] && u[0] == ']' {
      assert (u + x)[0] == u[0];
      Slices(u, x, 1);
    } else {
      ItemsExtend(s, x);
      ItemsNotBlank(s);
      assert (u + x)[0] == u[0];
    }
  }

  lemma {:induction false} ItemsNotBlank(s: string)
    requires ParseItems(s).Ok?
    ensures SkipSpace(s) != []
  {
  }

  lemma {:induction false} ObjectExtends(s: string, x: string)
    requires ParseObject(s).Ok? && Breaks(x)
    ensures ParseObject(s + x) == Ok(ParseObject(s).value, ParseObject(s).rest + x)
    decreases |s|, 5
  {
    hide ParseFields;
    var u := SkipSpace(s);
    SkipSpaceExtends(s, x);
    if u != [] && u[0] == '}' {
      assert (u + x)[0] == u[0];
      Slices(u, x, 1);
    } else {
      FieldsExtend(s, x);
      FieldsNotBlank(s);
      assert (u + x)[0] == u[0];
    }
  }

  lemma {:induction false} FieldsNotBlank(s: string)
    requires ParseFields(s).Ok?
    ensures SkipSpace(s) != []
  {
  }

  lemma {:induction false} ItemsExtend(s: string, x: string)
    requires ParseItems(s).Ok? && Breaks(x)
    ensures ParseItems(s + x) == Ok(ParseItems(s).value, ParseItems(s).rest + x)
    decreases |s|, 4
  {
    hide ParseValue;
    ValueExtends(s, x);
    var t := ParseValue(s).rest;
    var u := SkipSpace(t);
    SkipSpaceExtends(t, x);
    assert (u + x)[0] == u[0];
    Slices(u, x, 1);
    if u[0] == ',' {
      ItemsExtend(u[1..], x);
    }
  }

  lemma {:induction false} FieldExtends(s: string, x: string)
    requires ParseField(s).Ok? && Breaks(x)
    ensures ParseField(s + x) == Ok(ParseField(s).value, ParseField(s).rest + x)
    decreases |s|, 2
  {
    hide ParseValue, ParseString;
    var t := SkipSpace(s);
    SkipSpaceExtends(s, x);
    assert (t + x)[0] == t[0];
    Slices(t, x, 1);
    StringExtends(t[1..], x);
    var u := ParseString(t[1..]).rest;
    var w := SkipSpace(u);
    SkipSpaceExtends(u, x);
    assert (w + x)[0] == w[0];
    Slices(w, x, 1);
    ValueExtends(w[1..], x);
  }

  lemma {:induction false} FieldsExtend(s: string, x: string)
    requires ParseFields(s).Ok? && Breaks(x)
    ensures ParseFields(s + x) == Ok(ParseFields(s).value, ParseFields(s).rest + x)
    decreases |s|, 4
  {
    hide ParseField;
    FieldExtends(s, x);
    var t := ParseField(s).rest;
    var u := SkipSpace(t);
    SkipSpaceExtends(t, x);
    assert (u + x)[0] == u[0];
    Slices(u, x, 1);
    if u[0] == ',' {
      FieldsExtend(u[1..], x);
    }
  }

  /** Two documents on one line are no document. */
  lemma {:induction false} TwoDocumentsDoNotParse(s: string, x: string)
    requires Parse(s).Some? && Breaks(x)
    ensures Parse(s + x).None?
  {
    hide ParseValue;
    ValueExtends(s, x);
    SkipSpaceExtends(ParseValue(s).rest, x);
  }

  /* ---- Printed text ---- */

  predicate NoControl(s: string) {
    forall i :: 0 <= i < |s| ==> s[i] as int >= 0x20
  }

  lemma {:induction false} EscapedHasNoControl(style: Style, s: string)
    ensures NoControl(EscapeAll(style, s))
  {
    if s != [] {
      EscapedHasNoControl(style, s[1..]);
      assert NoControl(EscapeChar(style, s[0]));
    }
  }

  lemma {:induction false} PrintHasNoControl(style: Style, j: Json)
    ensures NoControl(Print(style, j))
    decreases j, 1
  {
    match j {
      case Null =>
      case Bool(_) =>
      case Num(n) => DigitsRoundTrip(if n < 0 then -n else n);
      case Str(s) => EscapedHasNoControl(style, s);
      case Arr(items) => ItemsHaveNoControl(style, items);
      case Obj(fields) => FieldsHaveNoControl(style, fields);
    }
  }

  lemma {:induction false} ItemsHaveNoControl(style: Style, items: seq<Json>)
    ensures NoControl(PrintItems(style, items))
    decreases items, 0
  {
    if items != [] {
      PrintHasNoControl(style, items[0]);
      ItemsHaveNoControl(style, items[1..]);
    }
  }

  lemma {:induction false} FieldsHaveNoControl(style: Style, fields: seq<Field>)
    ensures NoControl(PrintFields(style, fields))
    decreases fields, 0
  {
    if fields != [] {
      EscapedHasNoControl(style, fields[0].key);
      PrintHasNoControl(style, fields[0].value);
      FieldsHaveNoControl(style, fields[1..]);
    }
  }

  /** Bytes below 0x20 only come from control characters. */
  lemma {:induction false} EncodedHasNoControl(s: string)
    requires NoControl(s)
    ensures forall i :: 0 <= i < |Utf8.Encode(s)| ==> Utf8.Encode(s)[i] >= 0x20
  {
    if s != [] {
      var e := Utf8.EncodeChar(s[0]);
      assert s[0] as int >= 0x20;
      assert forall i :: 0 <= i < |e| ==> e[i] >= 0x20;
      assert forall i :: 0 <= i < |s[1..]| ==> s[1..][i] == s[i + 1];
      EncodedHasNoControl(s[1..]);
    }
  }
}
