/**
  JSON text (RFC 8259). `Json` is an ordered tree to print; `Value` is what
  `serde_json` parses into, with objects as maps in which the last duplicate wins.
 */
module Json {
  import opened Wrappers
  import opened Decimal

  datatype Field = Field(key: string, value: Json)

  datatype Json =
    | Null
    | Bool(b: bool)
    | Num(n: int)
    | Str(s: string)
    | Arr(items: seq<Json>)
    | Obj(fields: seq<Field>)

  datatype Value =
    | VNull
    | VBool(b: bool)
    | VNum(n: int)
    | VStr(s: string)
    | VArr(items: seq<Value>)
    | VObj(fields: map<string, Value>)
  {
    function AsObject(): Option<map<string, Value>> {
      if VObj? then Some(fields) else None
    }

    function AsArray(): Option<seq<Value>> {
      if VArr? then Some(items) else None
    }

    function AsStr(): Option<string> {
      if VStr? then Some(s) else None
    }

    function AsU64(): Option<u64> {
      if VNum? && 0 <= n < U64_LIMIT then Some(n) else None
    }

    function AsI64(): Option<i64> {
      if VNum? && -0x8000_0000_0000_0000 <= n < 0x8000_0000_0000_0000 then Some(n) else None
    }

    /** `Value::get(key)`: the member of an object, nothing for any other value. */
    function Get(key: string): Option<Value> {
      if VObj? && key in fields then Some(fields[key]) else None
    }
  }

  /** Which of the two writers in the program produced a string. */
  datatype Style = Canonical | Serde

  function ToValue(j: Json): Value
    decreases j, 1
  {
    match j
    case Null => VNull
    case Bool(b) => VBool(b)
    case Num(n) => VNum(n)
    case Str(s) => VStr(s)
    case Arr(items) => VArr(ToValues(items))
    case Obj(fields) => VObj(ToMap(fields))
  }

  function ToValues(items: seq<Json>): (vs: seq<Value>)
    ensures |vs| == |items|
    decreases items, 0
  {
    if items == [] then [] else [ToValue(items[0])] + ToValues(items[1..])
  }

  function ToMap(fields: seq<Field>): map<string, Value>
    decreases fields, 0
  {
    if fields == [] then map[] else map[fields[0].key := ToValue(fields[0].value)] + ToMap(fields[1..])
  }

  /* ---- Printing ---- */

  function Escape4(n: int): string
    requires 0 <= n < 0x10000
  {
    ['\\', 'u', HexChar(n / 4096), HexChar(n / 256 % 16), HexChar(n / 16 % 16), HexChar(n % 16)]
  }

  /** One character inside a JSON string. */
  function EscapeChar(style: Style, c: char): string {
    if c == '"' then ['\\', '"']
    else if c == '\\' then ['\\', '\\']
    else if style.Serde? && c as int == 8 then ['\\', 'b']
    else if style.Serde? && c as int == 9 then ['\\', 't']
    else if style.Serde? && c as int == 10 then ['\\', 'n']
    else if style.Serde? && c as int == 12 then ['\\', 'f']
    else if style.Serde? && c as int == 13 then ['\\', 'r']
    else if c as int <= 0x1f then Escape4(c as int)
    else if style.Canonical? && (c as int == 0x2028 || c as int == 0x2029) then Escape4(c as int)
    else [c]
  }

  function EscapeAll(style: Style, s: string): string {
    if s == [] then [] else EscapeChar(style, s[0]) + EscapeAll(style, s[1..])
  }

  function Quote(style: Style, s: string): string {
    ['"'] + EscapeAll(style, s) + ['"']
  }

  function Print(style: Style, j: Json): string
    decreases j, 1
  {
    match j
    case Null => "null"
    case Bool(b) => if b then "true" else "false"
    case Num(n) => Text(n)
    case Str(s) => Quote(style, s)
    case Arr(items) => "[" + PrintItems(style, items) + "]"
    case Obj(fields) => "{" + PrintFields(style, fields) + "}"
  }

  function PrintItems(style: Style, items: seq<Json>): string
    decreases items, 0
  {
    if items == [] then ""
    else if |items| == 1 then Print(style, items[0])
    else Print(style, items[0]) + "," + PrintItems(style, items[1..])
  }

  function PrintField(style: Style, field: Field): string
    decreases field, 0
  {
    Quote(style, field.key) + ":" + Print(style, field.value)
  }

  function PrintFields(style: Style, fields: seq<Field>): string
    decreases fields, 0
  {
    if fields == [] then ""
    else if |fields| == 1 then PrintField(style, fields[0])
    else PrintField(style, fields[0]) + "," + PrintFields(style, fields[1..])
  }

  /* ---- Parsing ---- */

  datatype Parsed<+T> = Fail | Ok(value: T, rest: string)

  predicate IsSpace(c: char) {
    c == ' ' || c as int == 9 || c as int == 10 || c as int == 13
  }

  function SkipSpace(s: string): (t: string)
    ensures |t| <= |s|
    ensures t == [] || !IsSpace(t[0])
    decreases |s|
  {
    if s != [] && IsSpace(s[0]) then SkipSpace(s[1..]) else s
  }

  function ParseHex4(s: string): (r: Option<int>)
    requires |s| >= 4
    ensures r.Some? ==> 0 <= r.value < 0x10000
  {
    var a :- HexValue(s[0]);
    var b :- HexValue(s[1]);
    var c :- HexValue(s[2]);
    var d :- HexValue(s[3]);
    Some(16 * (16 * (16 * a + b) + c) + d)
  }

  function ShortEscape(c: char): Option<char> {
    if c == '"' || c == '\\' || c == '/' then Some(c)
    else if c == 'b' then Some(8 as char)
    else if c == 't' then Some(9 as char)
    else if c == 'n' then Some(10 as char)
    else if c == 'f' then Some(12 as char)
    else if c == 'r' then Some(13 as char)
    else None
  }

  /** What follows `\u`: four hex digits, or eight around a second `\u` for a surrogate pair. */
  function ParseUnicode(s: string): (r: Parsed<char>)
    ensures r.Ok? ==> |r.rest| < |s|
  {
    if |s| < 4 then Fail
    else
      match ParseHex4(s)
      case None => Fail
      case Some(n) =>
        if n < 0xD800 || 0xE000 <= n then Ok(n as char, s[4..])
        else if 0xDC00 <= n || |s| < 10 || s[4] != '\\' || s[5] != 'u' then Fail
        else
          match ParseHex4(s[6..])
          case None => Fail
          case Some(low) =>
            if 0xDC00 <= low < 0xE000
            then Ok((0x10000 + (n - 0xD800) * 1024 + (low - 0xDC00)) as char, s[10..])
            else Fail
  }

  /** One possibly escaped character of a string; a lone surrogate is refused. */
  function ParseChar(s: string): (r: Parsed<char>)
    requires s != []
    ensures r.Ok? ==> |r.rest| < |s|
  {
    if s[0] != '\\' then
      if s[0] as int < 0x20 || s[0] == '"' then Fail else Ok(s[0], s[1..])
    else if |s| < 2 then Fail
    else if s[1] == 'u' then ParseUnicode(s[2..])
    else
      match ShortEscape(s[1])
      case None => Fail
      case Some(c) => Ok(c, s[2..])
  }

  /** The rest of a string after its opening quote. */
  function ParseString(s: string): (r: Parsed<string>)
    ensures r.Ok? ==> |r.rest| < |s|
    decreases |s|
  {
    if s == [] then Fail
    else if s[0] == '"' then Ok([], s[1..])
    else
      match ParseChar(s)
      case Fail => Fail
      case Ok(c, t) =>
        match ParseString(t)
        case Fail => Fail
        case Ok(cs, u) => Ok([c] + cs, u)
  }

  /** An integer; leading zeros, fractions, exponents and `-0` are refused. */
  function ParseNumber(s: string): (r: Parsed<int>)
    ensures r.Ok? ==> |r.rest| < |s|
  {
    var negative := s != [] && s[0] == '-';
    var t := if negative then s[1..] else s;
    var k := Span(t);
    if k == 0 || (k > 1 && t[0] == '0') then Fail
    else
      var n: int := Number(t[..k]);
      if negative && n == 0 then Fail else Ok(if negative then -n else n, t[k..])
  }

  predicate StartsWith(s: string, prefix: string) {
    |prefix| <= |s| && s[..|prefix|] == prefix
  }

  /** A fixed word such as `null`. */
  function ParseWord(s: string, word: string, v: Value): (r: Parsed<Value>)
    requires word != []
    ensures r.Ok? ==> |r.rest| < |s|
  {
    if StartsWith(s, word) then Ok(v, s[|word|..]) else Fail
  }

  function ParseValue(s: string): (r: Parsed<Value>)
    ensures r.Ok? ==> |r.rest| < |s|
    decreases |s|, 3
  {
    var t := SkipSpace(s);
    if t == [] then Fail
    else if t[0] == 'n' then ParseWord(t, "null", VNull)
    else if t[0] == 't' then ParseWord(t, "true", VBool(true))
    else if t[0] == 'f' then ParseWord(t, "false", VBool(false))
    else if t[0] == '"' then
      match ParseString(t[1..])
      case Fail => Fail
      case Ok(str, rest) => Ok(VStr(str), rest)
    else if t[0] == '[' then ParseArray(t[1..])
    else if t[0] == '{' then ParseObject(t[1..])
    else
      match ParseNumber(t)
      case Fail => Fail
      case Ok(n, rest) => Ok(VNum(n), rest)
  }

  /** An array after its opening bracket. */
  function ParseArray(s: string): (r: Parsed<Value>)
    ensures r.Ok? ==> |r.rest| < |s|
    decreases |s|, 5
  {
    var u := SkipSpace(s);
    if u != [] && u[0] == ']' then Ok(VArr([]), u[1..])
    else
      match ParseItems(s)
      case Fail => Fail
      case Ok(items, rest) => Ok(VArr(items), rest)
  }

  /** An object after its opening brace. */
  function ParseObject(s: string): (r: Parsed<Value>)
    ensures r.Ok? ==> |r.rest| < |s|
    decreases |s|, 5
  {
    var u := SkipSpace(s);
    if u != [] && u[0] == '}' then Ok(VObj(map[]), u[1..])
    else
      match ParseFields(s)
      case Fail => Fail
      case Ok(fields, rest) => Ok(VObj(fields), rest)
  }

  /** One or more array items and the closing bracket. */
  function ParseItems(s: string): (r: Parsed<seq<Value>>)
    ensures r.Ok? ==> |r.rest| < |s|
    decreases |s|, 4
  {
    match ParseValue(s)
    case Fail => Fail
    case Ok(v, t) =>
      var u := SkipSpace(t);
      if u == [] then Fail
      else if u[0] == ']' then Ok([v], u[1..])
      else if u[0] != ',' then Fail
      else
        match ParseItems(u[1..])
        case Fail => Fail
        case Ok(vs, rest) => Ok([v] + vs, rest)
  }

  /** One `"key": value` member. */
  function ParseField(s: string): (r: Parsed<(string, Value)>)
    ensures r.Ok? ==> |r.rest| < |s|
    decreases |s|, 2
  {
    var t := SkipSpace(s);
    if t == [] || t[0] != '"' then Fail
    else
      match ParseString(t[1..])
      case Fail => Fail
      case Ok(key, u) =>
        var w := SkipSpace(u);
        if w == [] || w[0] != ':' then Fail
        else
          match ParseValue(w[1..])
          case Fail => Fail
          case Ok(v, rest) => Ok((key, v), rest)
  }

  /** One or more members and the closing brace. */
  function ParseFields(s: string): (r: Parsed<map<string, Value>>)
    ensures r.Ok? ==> |r.rest| < |s|
    decreases |s|, 4
  {
    match ParseField(s)
    case Fail => Fail
    case Ok(field, t) =>
      var u := SkipSpace(t);
      if u == [] then Fail
      else if u[0] == '}' then Ok(map[field.0 := field.1], u[1..])
      else if u[0] != ',' then Fail
      else
        match ParseFields(u[1..])
        case Fail => Fail
        case Ok(more, rest) => Ok(map[field.0 := field.1] + more, rest)
  }

  /** `serde_json::from_str`: one value and nothing but white space after it. */
  function Parse(s: string): Option<Value> {
    match ParseValue(s)
    case Fail => None
    case Ok(v, rest) => if SkipSpace(rest) == [] then Some(v) else None
  }

  /* ---- Parsing undoes printing ---- */

  lemma {:induction false} QuotedText(e: string, p: string, rest: string)
    ensures ['"'] + e + ['"'] + ":" + p + rest == ['"'] + (e + ['"'] + (":" + (p + rest)))
  {
  }

  lemma {:induction false} ConsText(head: string, a: string, rest: string)
    requires |head| == 1
    ensures (head + a + rest)[1..] == a + rest && (head + a + rest)[0] == head[0]
  {
  }

  lemma {:induction false} CommaText(a: string, b: string, tail: string)
    ensures a + "," + b + tail == a + ("," + (b + tail))
  {
  }

  lemma {:induction false} ParseEscape4(n: int, rest: string)
    requires 0 <= n < 0xD800
    ensures ParseUnicode((Escape4(n) + rest)[2..]) == Ok(n as char, rest)
  {
    var e := (Escape4(n) + rest)[2..];
    assert e[0] == HexChar(n / 4096) && e[1] == HexChar(n / 256 % 16);
    assert e[2] == HexChar(n / 16 % 16) && e[3] == HexChar(n % 16) && e[4..] == rest;
    HexDigitRoundTrip(n / 4096);
    HexDigitRoundTrip(n / 256 % 16);
    HexDigitRoundTrip(n / 16 % 16);
    HexDigitRoundTrip(n % 16);
    var m := n / 16;
    var k := m / 16;
    assert n == 16 * m + n % 16 && m == 16 * k + m % 16 && k == 16 * (k / 16) + k % 16;
    assert n / 256 == k && n / 4096 == k / 16;
  }

  lemma {:induction false} ParseShortEscape(e: char, c: char, rest: string)
    requires e != 'u' && ShortEscape(e) == Some(c)
    ensures ParseChar(['\\', e] + rest) == Ok(c, rest)
  {
    assert (['\\', e] + rest)[2..] == rest;
  }

  lemma {:induction false} ParseEscaped(style: Style, c: char, rest: string)
    ensures EscapeChar(style, c) != []
    ensures ParseChar(EscapeChar(style, c) + rest) == Ok(c, rest)
    ensures (EscapeChar(style, c) + rest)[0] != '"'
  {
    var e := EscapeChar(style, c);
    if |e| == 6 {
      ParseEscape4(c as int, rest);
    } else if |e| == 2 {
      ParseShortEscape(e[1], c, rest);
      assert e == ['\\', e[1]];
    } else {
      assert (e + rest)[1..] == rest;
    }
  }

  lemma {:induction false} ParseQuoted(style: Style, s: string, rest: string)
    ensures ParseString(EscapeAll(style, s) + ['"'] + rest) == Ok(s, rest)
  {
    hide EscapeChar;
    if s == [] {
      assert EscapeAll(style, s) + ['"'] + rest == ['"'] + rest;
    } else {
      var tail := EscapeAll(style, s[1..]) + ['"'] + rest;
      assert EscapeAll(style, s) + ['"'] + rest == EscapeChar(style, s[0]) + tail;
      ParseEscaped(style, s[0], tail);
      ParseQuoted(style, s[1..], rest);
      assert [s[0]] + s[1..] == s;
    }
  }

  /** What may follow a printed value without being swallowed by it. */
  predicate Delimited(rest: string) {
    rest == [] || !IsDigit(rest[0])
  }

  lemma {:induction false} ParsePrintedNat(n: nat, rest: string)
    requires Delimited(rest)
    ensures var s := Digits(n) + rest; var k := Span(s);
      k == |Digits(n)| && Number(s[..k]) == n && s[k..] == rest && (s[0] == '0' <==> n == 0)
  {
    var d := Digits(n);
    DigitsRoundTrip(n);
    SpanOf(d, rest);
    assert (d + rest)[..|d|] == d && (d + rest)[|d|..] == rest && (d + rest)[0] == d[0];
  }

  lemma {:induction false} FirstOf(a: string, rest: string)
    requires a != []
    ensures (a + rest)[0] == a[0]
  {
  }

  lemma {:induction false} ParsePrintedNumber(n: int, rest: string)
    requires Delimited(rest)
    ensures ParseNumber(Text(n) + rest) == Ok(n, rest)
  {
    var m := if n < 0 then -n else n;
    ParsePrintedNat(m, rest);
    DigitsRoundTrip(m);
    ConsText("-", Digits(m), rest);
    FirstOf(Digits(m), rest);
  }

  /** A printed value is not empty and does not start like white space or a closing bracket. */
  predicate ValueHead(s: string) {
    s != [] && !IsSpace(s[0]) && s[0] != ']' && s[0] != '}'
  }

  lemma {:induction false} PrintedHead(style: Style, j: Json)
    ensures ValueHead(Print(style, j))
    ensures j.Num? ==> var c := Print(style, j)[0]; c == '-' || IsDigit(c)
  {
    if j.Num? {
      DigitsRoundTrip(if j.n < 0 then -j.n else j.n);
    }
  }

  lemma {:induction false} ValueWord(word: string, v: Value, rest: string)
    requires (word == "null" && v == VNull) || (word == "true" && v == VBool(true)) || (word == "false" && v == VBool(false))
    ensures ParseValue(word + rest) == Ok(v, rest)
  {
    var t := word + rest;
    assert t[0] == word[0] && SkipSpace(t) == t;
    assert t[..|word|] == word && t[|word|..] == rest;
  }

  lemma {:induction false} ValueString(t: string)
    ensures ParseValue(['"'] + t) == match ParseString(t)
                                     case Fail => Fail
                                     case Ok(s, rest) => Ok(VStr(s), rest)
  {
    assert SkipSpace(['"'] + t) == ['"'] + t && (['"'] + t)[1..] == t;
  }

  lemma {:induction false} ValueArray(t: string)
    ensures ParseValue("[" + t) == ParseArray(t)
  {
    assert SkipSpace("[" + t) == "[" + t && ("[" + t)[1..] == t;
  }

  lemma {:induction false} ValueObject(t: string)
    ensures ParseValue("{" + t) == ParseObject(t)
  {
    assert SkipSpace("{" + t) == "{" + t && ("{" + t)[1..] == t;
  }

  lemma {:induction false} ValueNumeric(t: string)
    requires t != [] && (t[0] == '-' || IsDigit(t[0]))
    ensures ParseValue(t) == match ParseNumber(t)
                             case Fail => Fail
                             case Ok(n, rest) => Ok(VNum(n), rest)
  {
    hide ParseNumber;
    assert SkipSpace(t) == t;
  }

  lemma {:induction false} ValueNumber(n: int, rest: string)
    requires Delimited(rest)
    ensures ParseValue(Text(n) + rest) == Ok(VNum(n), rest)
  {
    hide ParseValue, ParseNumber;
    var t := Text(n) + rest;
    DigitsRoundTrip(if n < 0 then -n else n);
    FirstOf(Text(n), rest);
    ParsePrintedNumber(n, rest);
    ValueNumeric(t);
  }

  /** An array or object without members. */
  lemma {:induction false} ClosesAtOnce(rest: string)
    ensures ParseArray("]" + rest) == Ok(VArr([]), rest) && ParseObject("}" + rest) == Ok(VObj(map[]), rest)
  {
    hide ParseItems, ParseFields;
    var s, t := "]" + rest, "}" + rest;
    assert SkipSpace(s) == s && s[1..] == rest;
    assert SkipSpace(t) == t && t[1..] == rest;
  }

  lemma {:induction false} ParsePrinted(style: Style, j: Json, rest: string)
    requires Delimited(rest)
    ensures ParseValue(Print(style, j) + rest) == Ok(ToValue(j), rest)
    decreases j, 2
  {
    var t := Print(style, j) + rest;
    match j {
      case Null => ValueWord("null", VNull, rest);
      case Bool(b) => ValueWord(if b then "true" else "false", VBool(b), rest);
      case Num(n) => ValueNumber(n, rest);
      case Str(s) =>
        var u := EscapeAll(style, s) + ['"'] + rest;
        assert t == ['"'] + u;
        ValueString(u);
        ParseQuoted(style, s, rest);
      case Arr(items) =>
        var u := PrintItems(style, items) + ("]" + rest);
        assert t == "[" + u;
        ValueArray(u);
        ParsePrintedArray(style, items, rest);
      case Obj(fields) =>
        var u := PrintFields(style, fields) + ("}" + rest);
        assert t == "{" + u;
        ValueObject(u);
        ParsePrintedObject(style, fields, rest);
    }
  }

  lemma {:induction false} ParsePrintedArray(style: Style, items: seq<Json>, rest: string)
    ensures ParseArray(PrintItems(style, items) + ("]" + rest)) == Ok(VArr(ToValues(items)), rest)
    decreases items, 1
  {
    var s := PrintItems(style, items) + ("]" + rest);
    if items == [] {
      assert s == "]" + rest;
      ClosesAtOnce(rest);
    } else {
      PrintedHead(style, items[0]);
      assert s[0] == Print(style, items[0])[0] && SkipSpace(s) == s;
      ParsePrintedItems(style, items, rest);
    }
  }

  lemma {:induction false} ParsePrintedObject(style: Style, fields: seq<Field>, rest: string)
    ensures ParseObject(PrintFields(style, fields) + ("}" + rest)) == Ok(VObj(ToMap(fields)), rest)
    decreases fields, 1
  {
    var s := PrintFields(style, fields) + ("}" + rest);
    if fields == [] {
      assert s == "}" + rest;
      ClosesAtOnce(rest);
    } else {
      assert PrintField(style, fields[0])[0] == '"';
      assert s[0] == '"' && SkipSpace(s) == s;
      ParsePrintedFields(style, fields, rest);
    }
  }

  lemma {:induction false} ParseLastItem(s: string, v: Value, rest: string)
    requires ParseValue(s) == Ok(v, "]" + rest)
    ensures ParseItems(s) == Ok([v], rest)
  {
    assert SkipSpace("]" + rest) == "]" + rest && ("]" + rest)[1..] == rest;
  }

  lemma {:induction false} ParseMoreItems(s: string, v: Value, more: string)
    requires ParseValue(s) == Ok(v, "," + more)
    ensures ParseItems(s) == match ParseItems(more)
                             case Fail => Fail
                             case Ok(vs, rest) => Ok([v] + vs, rest)
  {
    assert SkipSpace("," + more) == "," + more && ("," + more)[1..] == more;
  }

  lemma {:induction false} ParsePrintedItems(style: Style, items: seq<Json>, rest: string)
    requires items != []
    ensures ParseItems(PrintItems(style, items) + ("]" + rest)) == Ok(ToValues(items), rest)
    decreases items, 0
  {
    var s := PrintItems(style, items) + ("]" + rest);
    var v := ToValue(items[0]);
    if |items| == 1 {
      ParsePrinted(style, items[0], "]" + rest);
      ParseLastItem(s, v, rest);
      assert items[1..] == [] && ToValues(items) == [v];
    } else {
      var more := PrintItems(style, items[1..]) + ("]" + rest);
      CommaText(Print(style, items[0]), PrintItems(style, items[1..]), "]" + rest);
      ParsePrinted(style, items[0], "," + more);
      ParseMoreItems(s, v, more);
      ParsePrintedItems(style, items[1..], rest);
    }
  }

  lemma {:induction false} FieldString(t: string, key: string, u: string, v: Value, rest: string)
    requires ParseString(t) == Ok(key, ":" + u) && ParseValue(u) == Ok(v, rest)
    ensures ParseField(['"'] + t) == Ok((key, v), rest)
  {
    assert SkipSpace(['"'] + t) == ['"'] + t && (['"'] + t)[1..] == t;
    assert SkipSpace(":" + u) == ":" + u && (":" + u)[1..] == u;
  }

  lemma {:induction false} ParsePrintedField(style: Style, field: Field, rest: string)
    requires Delimited(rest)
    ensures ParseField(PrintField(style, field) + rest) == Ok((field.key, ToValue(field.value)), rest)
    decreases field, 0
  {
    var u := Print(style, field.value) + rest;
    var t := EscapeAll(style, field.key) + ['"'] + (":" + u);
    QuotedText(EscapeAll(style, field.key), Print(style, field.value), rest);
    ParseQuoted(style, field.key, ":" + u);
    ParsePrinted(style, field.value, rest);
    FieldString(t, field.key, u, ToValue(field.value), rest);
  }

  lemma {:induction false} ParseLastField(s: string, key: string, v: Value, rest: string)
    requires ParseField(s) == Ok((key, v), "}" + rest)
    ensures ParseFields(s) == Ok(map[key := v], rest)
  {
    assert SkipSpace("}" + rest) == "}" + rest && ("}" + rest)[1..] == rest;
  }

  lemma {:induction false} ParseMoreFields(s: string, key: string, v: Value, more: string)
    requires ParseField(s) == Ok((key, v), "," + more)
    ensures ParseFields(s) == match ParseFields(more)
                              case Fail => Fail
                              case Ok(m, rest) => Ok(map[key := v] + m, rest)
  {
    assert SkipSpace("," + more) == "," + more && ("," + more)[1..] == more;
  }

  lemma {:induction false} PrintFieldsCons(style: Style, fields: seq<Field>, tail: string)
    requires |fields| > 1
    ensures PrintFields(style, fields) + tail
         == PrintField(style, fields[0]) + ("," + (PrintFields(style, fields[1..]) + tail))
  {
    CommaText(PrintField(style, fields[0]), PrintFields(style, fields[1..]), tail);
  }

  lemma {:induction false} ParsePrintedFields(style: Style, fields: seq<Field>, rest: string)
    requires fields != []
    ensures ParseFields(PrintFields(style, fields) + ("}" + rest)) == Ok(ToMap(fields), rest)
    decreases fields, 0
  {
    var f := fields[0];
    var v := ToValue(f.value);
    if |fields| == 1 {
      var s := PrintFields(style, fields) + ("}" + rest);
      ParsePrintedField(style, f, "}" + rest);
      ParseLastField(s, f.key, v, rest);
      assert fields[1..] == [];
      assert ToMap(fields) == map[f.key := v];
    } else {
      var more := PrintFields(style, fields[1..]) + ("}" + rest);
      var s := PrintField(style, f) + ("," + more);
      PrintFieldsCons(style, fields, "}" + rest);
      ParsePrintedField(style, f, "," + more);
      ParseMoreFields(s, f.key, v, more);
      ParsePrintedFields(style, fields[1..], rest);
    }
  }

  /** A printed document parses back to the value it was printed from. */
  lemma RoundTrip(style: Style, j: Json)
    ensures Parse(Print(style, j)) == Some(ToValue(j))
  {
    ParsePrinted(style, j, []);
    assert Print(style, j) + [] == Print(style, j);
  }

  /* ---- Objects with distinct keys ---- */

  predicate DistinctKeys(fields: seq<Field>) {
    forall i, j :: 0 <= i < j < |fields| ==> fields[i].key != fields[j].key
  }

  predicate HasKey(fields: seq<Field>, k: string) {
    exists i :: 0 <= i < |fields| && fields[i].key == k
  }

  lemma {:induction false} ToMapKeys(fields: seq<Field>, k: string)
    ensures k in ToMap(fields) <==> HasKey(fields, k)
  {
    if fields != [] {
      ToMapKeys(fields[1..], k);
      if HasKey(fields[1..], k) {
        var i :| 0 <= i < |fields[1..]| && fields[1..][i].key == k;
        assert fields[i + 1].key == k;
      }
    }
  }

  lemma {:induction false} ToMapAt(fields: seq<Field>, i: nat)
    requires DistinctKeys(fields) && i < |fields|
    ensures fields[i].key in ToMap(fields) && ToMap(fields)[fields[i].key] == ToValue(fields[i].value)
  {
    var m := ToMap(fields[1..]);
    if i == 0 {
      ToMapKeys(fields[1..], fields[0].key);
      assert fields[0].key !in m;
    } else {
      ToMapAt(fields[1..], i - 1);
    }
  }

  lemma {:induction false} ToMapSize(fields: seq<Field>)
    requires DistinctKeys(fields)
    ensures |ToMap(fields)| == |fields|
  {
    if fields != [] {
      var f := fields[0];
      ToMapSize(fields[1..]);
      ToMapKeys(fields[1..], f.key);
      var m := ToMap(fields[1..]);
      assert f.key !in m;
      assert map[f.key := ToValue(f.value)] + m == m[f.key := ToValue(f.value)];
    }
  }
}
