/** Decimal and hexadecimal text, as `to_string`, `format!("{:04x}")` and the hex codecs write it. */
module Decimal {
  import opened Wrappers

  function DigitChar(d: int): char
    requires 0 <= d < 10
  {
    '0' + d as char
  }

  predicate IsDigit(c: char) {
    '0' <= c <= '9'
  }

  function DigitValue(c: char): int
    requires IsDigit(c)
  {
    c as int - '0' as int
  }

  function Digits(n: nat): (s: string)
    ensures |s| >= 1
  {
    if n < 10 then [DigitChar(n)] else Digits(n / 10) + [DigitChar(n % 10)]
  }

  function Text(n: int): string {
    if n < 0 then "-" + Digits(-n) else Digits(n)
  }

  predicate AllDigits(s: string) {
    forall i :: 0 <= i < |s| ==> IsDigit(s[i])
  }

  function Number(s: string): nat
    requires AllDigits(s)
    decreases |s|
  {
    if s == [] then 0 else 10 * Number(s[..|s| - 1]) + DigitValue(s[|s| - 1])
  }

  /** Length of the leading run of digits. */
  function Span(s: string): (k: nat)
    ensures k <= |s| && AllDigits(s[..k])
    ensures k < |s| ==> !IsDigit(s[k])
    decreases |s|
  {
    if s == [] || !IsDigit(s[0]) then 0
    else
      var k := 1 + Span(s[1..]);
      assert forall i :: 0 < i < k ==> s[..k][i] == s[1..][..k - 1][i - 1];
      k
  }

  lemma SpanOf(d: string, rest: string)
    requires AllDigits(d) && (rest == [] || !IsDigit(rest[0]))
    ensures Span(d + rest) == |d|
  {
    var s := d + rest;
    var k := Span(s);
    assert forall i :: 0 <= i < |d| ==> IsDigit(s[i]);
    assert forall i :: 0 <= i < k ==> IsDigit(s[..k][i]) && s[..k][i] == s[i];
    assert rest != [] ==> s[|d|] == rest[0];
  }

  lemma {:induction false} DigitsRoundTrip(n: nat)
    ensures AllDigits(Digits(n)) && Number(Digits(n)) == n
    ensures Digits(n)[0] == '0' <==> n == 0
    ensures n == 0 ==> |Digits(n)| == 1
  {
    if n < 10 {
      assert Digits(n)[..0] == [];
    } else {
      DigitsRoundTrip(n / 10);
      assert Digits(n)[..|Digits(n)| - 1] == Digits(n / 10);
    }
  }

  function Pow10(k: nat): int {
    if k == 0 then 1 else 10 * Pow10(k - 1)
  }

  lemma {:induction false} DigitsLength(n: nat, k: nat)
    requires k > 0 && n < Pow10(k)
    ensures |Digits(n)| <= k
  {
    if n >= 10 {
      assert k > 1;
      DigitsLength(n / 10, k - 1);
    }
  }

  function HexChar(d: int): (c: char)
    requires 0 <= d < 16
    ensures '0' <= c <= '9' || 'a' <= c <= 'f'
  {
    "0123456789abcdef"[d]
  }

  /** `u8::from_str_radix(_, 16)` and `\u` accept both cases. */
  function HexValue(c: char): (r: Option<int>)
    ensures r.Some? ==> 0 <= r.value < 16
  {
    if '0' <= c <= '9' then Some(c as int - '0' as int)
    else if 'a' <= c <= 'f' then Some(c as int - 'a' as int + 10)
    else if 'A' <= c <= 'F' then Some(c as int - 'A' as int + 10)
    else None
  }

  lemma HexDigitRoundTrip(d: int)
    requires 0 <= d < 16
    ensures HexValue(HexChar(d)) == Some(d)
  {
  }

  /** `discord_state_codec::hex`. */
  function Hex(bytes: seq<byte>): (s: string)
    ensures |s| == 2 * |bytes|
  {
    if bytes == [] then [] else [HexChar(bytes[0] / 16), HexChar(bytes[0] % 16)] + Hex(bytes[1..])
  }

  /** `u8::from_str_radix` on two characters; like Rust it takes a plus sign. */
  function HexPair(a: char, b: char): (r: Option<byte>) {
    var low :- HexValue(b);
    if a == '+' then Some(low)
    else
      var high :- HexValue(a);
      Some(high * 16 + low)
  }

  /** `decode_hex`: odd length or a pair that is not a number is refused. */
  function DecodeHex(s: string): (r: Option<seq<byte>>)
    ensures r.Some? ==> 2 * |r.value| == |s|
    decreases |s|
  {
    if s == [] then Some([])
    else if |s| == 1 then None
    else
      var b :- HexPair(s[0], s[1]);
      var rest :- DecodeHex(s[2..]);
      Some([b] + rest)
  }

  lemma {:induction false} DecodePair(b: byte, rest: string)
    ensures DecodeHex([HexChar(b / 16), HexChar(b % 16)] + rest)
         == match DecodeHex(rest) case None => None case Some(more) => Some([b] + more)
  {
    var s := [HexChar(b / 16), HexChar(b % 16)] + rest;
    assert s[2..] == rest && s[0] == HexChar(b / 16) && s[1] == HexChar(b % 16);
    HexDigitRoundTrip(b / 16);
    HexDigitRoundTrip(b % 16);
    assert b / 16 * 16 + b % 16 == b;
  }

  lemma {:induction false} HexRoundTrip(bytes: seq<byte>)
    ensures DecodeHex(Hex(bytes)) == Some(bytes)
  {
    if bytes != [] {
      HexRoundTrip(bytes[1..]);
      DecodePair(bytes[0], Hex(bytes[1..]));
      assert [bytes[0]] + bytes[1..] == bytes;
    }
  }

  predicate LowerHex(s: string) {
    forall i :: 0 <= i < |s| ==> '0' <= s[i] <= '9' || 'a' <= s[i] <= 'f'
  }

  lemma {:induction false} HexIsLower(bytes: seq<byte>)
    ensures LowerHex(Hex(bytes))
  {
    if bytes != [] {
      HexIsLower(bytes[1..]);
    }
  }
}
