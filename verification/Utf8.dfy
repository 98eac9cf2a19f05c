/** UTF-8 (RFC 3629): the bytes a Rust `str` is stored in. */
module Utf8 {
  import opened Wrappers

  function EncodeChar(c: char): (bytes: seq<byte>)
    ensures 1 <= |bytes| <= 4
    ensures c as int < 0x80 ==> bytes == [c as int]
  {
    var n := c as int;
    if n < 0x80 then [n]
    else
      var m := n / 64;
      if n < 0x800 then [0xC0 + m, 0x80 + n % 64]
      else
        var k := m / 64;
        if n < 0x10000 then [0xE0 + k, 0x80 + m % 64, 0x80 + n % 64]
        else [0xF0 + k / 64, 0x80 + k % 64, 0x80 + m % 64, 0x80 + n % 64]
  }

  function Encode(s: string): seq<byte> {
    if s == [] then [] else EncodeChar(s[0]) + Encode(s[1..])
  }

  predicate Continuation(b: byte) {
    0x80 <= b < 0xC0
  }

  /** Append the six payload bits of a continuation byte. */
  function Join(high: int, continuation: int): int {
    high * 64 + (continuation - 0x80)
  }

  predicate Scalar(n: int) {
    0 <= n < 0xD800 || 0xE000 <= n < 0x110000
  }

  /** First scalar of `b` and the number of bytes it takes; over-long forms and surrogates are refused. */
  function DecodeChar(b: seq<byte>): (r: Option<(char, nat)>)
    ensures r.Some? ==> 1 <= r.value.1 <= |b|
  {
    if |b| == 0 then None
    else if b[0] < 0x80 then Some((b[0] as char, 1))
    else if 0xC0 <= b[0] < 0xE0 && |b| >= 2 && Continuation(b[1]) then
      var n := Join(b[0] - 0xC0, b[1]);
      if 0x80 <= n then Some((n as char, 2)) else None
    else if 0xE0 <= b[0] < 0xF0 && |b| >= 3 && Continuation(b[1]) && Continuation(b[2]) then
      var n := Join(Join(b[0] - 0xE0, b[1]), b[2]);
      if 0x800 <= n && Scalar(n) then Some((n as char, 3)) else None
    else if 0xF0 <= b[0] < 0xF8 && |b| >= 4 && Continuation(b[1]) && Continuation(b[2]) && Continuation(b[3]) then
      var n := Join(Join(Join(b[0] - 0xF0, b[1]), b[2]), b[3]);
      if 0x10000 <= n && Scalar(n) then Some((n as char, 4)) else None
    else None
  }

  /** `String::from_utf8`. */
  function Decode(b: seq<byte>): Option<string>
    decreases |b|
  {
    if b == [] then Some([])
    else
      var first :- DecodeChar(b);
      var rest :- Decode(b[first.1..]);
      Some([first.0] + rest)
  }

  lemma DecodeEncodedChar(c: char, rest: seq<byte>)
    ensures DecodeChar(EncodeChar(c) + rest) == Some((c, |EncodeChar(c)|))
  {
    DecodeOfEncoded(c);
    DecodeIgnoresRest(EncodeChar(c), rest);
  }

  lemma DecodeOfEncoded(c: char)
    ensures DecodeChar(EncodeChar(c)) == Some((c, |EncodeChar(c)|))
  {
    var n := c as int;
    var m := n / 64;
    var k := m / 64;
    assert n == 64 * m + n % 64 && m == 64 * k + m % 64 && k == 64 * (k / 64) + k % 64;
  }

  lemma DecodeIgnoresRest(e: seq<byte>, rest: seq<byte>)
    requires DecodeChar(e).Some?
    ensures DecodeChar(e + rest) == DecodeChar(e)
  {
    assert forall i :: 0 <= i < |e| ==> (e + rest)[i] == e[i];
  }

  /** Decoding what was encoded gives the text back, so `Encode` is injective. */
  lemma {:induction false} RoundTrip(s: string)
    ensures Decode(Encode(s)) == Some(s)
  {
    if s == [] {
    } else {
      DecodeEncodedChar(s[0], Encode(s[1..]));
      RoundTrip(s[1..]);
      assert Encode(s)[|EncodeChar(s[0])|..] == Encode(s[1..]);
      assert [s[0]] + s[1..] == s;
    }
  }

  lemma Joined(high: int, continuation: int)
    requires 0 <= high && 0x80 <= continuation < 0xC0
    ensures var n := Join(high, continuation); n / 64 == high && 0x80 + n % 64 == continuation
  {
  }

  lemma TwoBytes(a: byte, b: byte)
    requires 0xC0 <= a < 0xE0 && Continuation(b) && 0x80 <= Join(a - 0xC0, b)
    ensures EncodeChar(Join(a - 0xC0, b) as char) == [a, b]
  {
    Joined(a - 0xC0, b);
  }

  lemma ThreeBytes(a: byte, b: byte, c: byte)
    requires 0xE0 <= a < 0xF0 && Continuation(b) && Continuation(c)
    requires 0x800 <= Join(Join(a - 0xE0, b), c) && Scalar(Join(Join(a - 0xE0, b), c))
    ensures EncodeChar(Join(Join(a - 0xE0, b), c) as char) == [a, b, c]
  {
    Joined(a - 0xE0, b);
    Joined(Join(a - 0xE0, b), c);
  }

  lemma FourBytes(a: byte, b: byte, c: byte, d: byte)
    requires 0xF0 <= a < 0xF8 && Continuation(b) && Continuation(c) && Continuation(d)
    requires 0x10000 <= Join(Join(Join(a - 0xF0, b), c), d) && Scalar(Join(Join(Join(a - 0xF0, b), c), d))
    ensures EncodeChar(Join(Join(Join(a - 0xF0, b), c), d) as char) == [a, b, c, d]
  {
    Joined(a - 0xF0, b);
    Joined(Join(a - 0xF0, b), c);
    Joined(Join(Join(a - 0xF0, b), c), d);
  }

  lemma DecodedCharIsEncoded(b: seq<byte>)
    requires DecodeChar(b).Some?
    ensures EncodeChar(DecodeChar(b).value.0) == b[..DecodeChar(b).value.1]
  {
    hide EncodeChar, Join;
    var (c, k) := DecodeChar(b).value;
    if k == 1 {
      assert b[..1] == [b[0]] && c == b[0] as char;
      OneByte(b[0]);
    } else if k == 2 {
      assert b[..2] == [b[0], b[1]];
      TwoBytes(b[0], b[1]);
    } else if k == 3 {
      assert b[..3] == [b[0], b[1], b[2]];
      ThreeBytes(b[0], b[1], b[2]);
    } else {
      assert b[..4] == [b[0], b[1], b[2], b[3]];
      FourBytes(b[0], b[1], b[2], b[3]);
    }
  }

  lemma OneByte(a: byte)
    requires a < 0x80
    ensures EncodeChar(a as char) == [a]
  {
  }

  /** Only what encoding makes is decoded: every other byte sequence is refused. */
  lemma {:induction false} DecodedIsEncoded(b: seq<byte>)
    requires Decode(b).Some?
    ensures Encode(Decode(b).value) == b
    decreases |b|
  {
    hide DecodeChar, EncodeChar;
    if b != [] {
      var (c, k) := DecodeChar(b).value;
      DecodedCharIsEncoded(b);
      DecodedIsEncoded(b[k..]);
      var rest := Decode(b[k..]).value;
      assert ([c] + rest)[1..] == rest && b == b[..k] + b[k..];
    }
  }

  lemma {:induction false} EncodeConcat(a: string, b: string)
    ensures Encode(a + b) == Encode(a) + Encode(b)
  {
    if a == [] {
      assert a + b == b;
    } else {
      assert (a + b)[0] == a[0] && (a + b)[1..] == a[1..] + b;
      EncodeConcat(a[1..], b);
    }
  }

  predicate Ascii(s: string) {
    forall i :: 0 <= i < |s| ==> s[i] as int < 0x80
  }

  lemma {:induction false} EncodedLength(s: string)
    ensures |s| <= |Encode(s)| <= 4 * |s|
    ensures Ascii(s) ==> |Encode(s)| == |s|
  {
    if s != [] {
      EncodedLength(s[1..]);
      if Ascii(s) {
        assert s[0] as int < 0x80;
        assert forall i :: 0 <= i < |s[1..]| ==> s[1..][i] == s[i + 1];
      }
    }
  }

  lemma {:induction false} DecodeConcat(a: seq<byte>, b: seq<byte>)
    requires Decode(a).Some? && Decode(b).Some?
    ensures Decode(a + b) == Some(Decode(a).value + Decode(b).value)
    decreases |a|
  {
    hide DecodeChar;
    if a == [] {
      assert a + b == b;
      assert [] + Decode(b).value == Decode(b).value;
    } else {
      var first :- assert DecodeChar(a);
      DecodeIgnoresRest(a, b);
      assert (a + b)[first.1..] == a[first.1..] + b;
      DecodeConcat(a[first.1..], b);
      var s, t := Decode(a[first.1..]).value, Decode(b).value;
      assert [first.0] + (s + t) == [first.0] + s + t;
    }
  }
}
