/** The hand-written JSON output of the codecs: bytes appended piece by piece to a buffer. */
module JsonWriter {
  import opened Wrappers
  import opened Json
  import opened Decimal
  import Utf8

  /** The bytes of a printed tree. */
  function Bytes(j: Json): seq<byte> {
    Utf8.Encode(Print(Canonical, j))
  }

  /** `encode_string`. */
  method EncodeString(value: string) returns (out: seq<byte>)
    ensures out == Bytes(Str(value))
  {
    out := Utf8.Encode(['"']);
    var i := 0;
    Utf8.EncodeConcat(['"'], EscapeAll(Canonical, value));
    while i < |value|
      invariant i <= |value|
      invariant out + Utf8.Encode(EscapeAll(Canonical, value[i..])) == Utf8.Encode(['"'] + EscapeAll(Canonical, value))
    {
      assert value[i..][0] == value[i] && value[i..][1..] == value[i + 1..];
      Utf8.EncodeConcat(EscapeChar(Canonical, value[i]), EscapeAll(Canonical, value[i + 1..]));
      out := out + Utf8.Encode(EscapeChar(Canonical, value[i]));
      i := i + 1;
    }
    assert value[i..] == [];
    Utf8.EncodeConcat(['"'] + EscapeAll(Canonical, value), ['"']);
    out := out + Utf8.Encode(['"']);
  }

  lemma {:induction false} PrintFieldsSnoc(fields: seq<Field>, f: Field)
    ensures PrintFields(Canonical, fields + [f])
         == PrintFields(Canonical, fields) + (if fields == [] then "" else ",") + PrintField(Canonical, f)
  {
    if fields == [] {
      assert fields + [f] == [f];
    } else {
      PrintFieldsSnoc(fields[1..], f);
      assert (fields + [f])[1..] == fields[1..] + [f] && (fields + [f])[0] == fields[0];
    }
  }

  lemma {:induction false} PrintItemsSnoc(items: seq<Json>, j: Json)
    ensures PrintItems(Canonical, items + [j])
         == PrintItems(Canonical, items) + (if items == [] then "" else ",") + Print(Canonical, j)
  {
    if items == [] {
      assert items + [j] == [j];
    } else {
      PrintItemsSnoc(items[1..], j);
      assert (items + [j])[1..] == items[1..] + [j] && (items + [j])[0] == items[0];
    }
  }

  lemma {:induction false} EncodeConcat3(a: string, b: string, c: string)
    ensures Utf8.Encode(a) + Utf8.Encode(b) + Utf8.Encode(c) == Utf8.Encode(a + b + c)
  {
    Utf8.EncodeConcat(a, b);
    Utf8.EncodeConcat(a + b, c);
  }

  lemma {:induction false} Regroup(head: string, a: string, b: string, c: string)
    ensures head + a + b + c == head + (a + b + c)
  {
  }

  /** `out` is an object still open after `fields`. */
  ghost predicate OpenObject(out: seq<byte>, fields: seq<Field>) {
    out == Utf8.Encode("{" + PrintFields(Canonical, fields))
  }

  lemma {:induction false} MemberText(fields: seq<Field>, f: Field)
    ensures Utf8.Encode("{" + PrintFields(Canonical, fields)) + Utf8.Encode(if fields == [] then "" else ",")
              + (Bytes(Str(f.key)) + Utf8.Encode(":") + Bytes(f.value))
         == Utf8.Encode("{" + PrintFields(Canonical, fields + [f]))
  {
    var a, b, c := PrintFields(Canonical, fields), if fields == [] then "" else ",", PrintField(Canonical, f);
    EncodeConcat3(Quote(Canonical, f.key), ":", Print(Canonical, f.value));
    EncodeConcat3("{" + a, b, c);
    PrintFieldsSnoc(fields, f);
    Regroup("{", a, b, c);
  }

  /** Append `,"key":value` to an object that is still open (no comma for the first member). */
  method PushMember(out: seq<byte>, first: bool, ghost fields: seq<Field>, key: string, value: seq<byte>, ghost j: Json)
    returns (r: seq<byte>, ghost more: seq<Field>)
    requires first <==> fields == []
    requires OpenObject(out, fields) && value == Bytes(j)
    ensures more == fields + [Field(key, j)] && OpenObject(r, more)
  {
    var name := EncodeString(key);
    r := out + Utf8.Encode(if first then "" else ",") + (name + Utf8.Encode(":") + value);
    more := fields + [Field(key, j)];
    MemberText(fields, Field(key, j));
  }

  method CloseObject(out: seq<byte>, ghost fields: seq<Field>) returns (r: seq<byte>)
    requires OpenObject(out, fields)
    ensures r == Bytes(Obj(fields))
  {
    r := out + Utf8.Encode("}");
    Utf8.EncodeConcat("{" + PrintFields(Canonical, fields), "}");
  }

  /** `out` is an array still open after `items`. */
  ghost predicate OpenArray(out: seq<byte>, items: seq<Json>) {
    out == Utf8.Encode("[" + PrintItems(Canonical, items))
  }

  lemma {:induction false} ItemText(items: seq<Json>, j: Json)
    ensures Utf8.Encode("[" + PrintItems(Canonical, items)) + Utf8.Encode(if items == [] then "" else ",") + Bytes(j)
         == Utf8.Encode("[" + PrintItems(Canonical, items + [j]))
  {
    var a, b, c := PrintItems(Canonical, items), if items == [] then "" else ",", Print(Canonical, j);
    EncodeConcat3("[" + a, b, c);
    PrintItemsSnoc(items, j);
    Regroup("[", a, b, c);
  }

  /** Append `,value` to an array that is still open. */
  method PushItem(out: seq<byte>, first: bool, ghost items: seq<Json>, value: seq<byte>, ghost j: Json)
    returns (r: seq<byte>)
    requires first <==> items == []
    requires OpenArray(out, items) && value == Bytes(j)
    ensures OpenArray(r, items + [j])
  {
    r := out + Utf8.Encode(if first then "" else ",") + value;
    ItemText(items, j);
  }

  method CloseArray(out: seq<byte>, ghost items: seq<Json>) returns (r: seq<byte>)
    requires OpenArray(out, items)
    ensures r == Bytes(Arr(items))
  {
    r := out + Utf8.Encode("]");
    Utf8.EncodeConcat("[" + PrintItems(Canonical, items), "]");
  }

  method StartObject() returns (r: seq<byte>)
    ensures OpenObject(r, [])
  {
    r := Utf8.Encode("{");
    assert "{" + PrintFields(Canonical, []) == "{";
  }

  method StartArray() returns (r: seq<byte>)
    ensures OpenArray(r, [])
  {
    r := Utf8.Encode("[");
    assert "[" + PrintItems(Canonical, []) == "[";
  }

  /** Append a string member, or `null`. */
  method PushString(out: seq<byte>, first: bool, ghost fields: seq<Field>, key: string, value: Option<string>)
    returns (r: seq<byte>, ghost more: seq<Field>)
    requires (first <==> fields == []) && OpenObject(out, fields)
    ensures more == fields + [Field(key, if value.Some? then Str(value.value) else Null)] && OpenObject(r, more)
  {
    var v := Utf8.Encode("null");
    if value.Some? {
      v := EncodeString(value.value);
    }
    r, more := PushMember(out, first, fields, key, v, if value.Some? then Str(value.value) else Null);
  }

  /** Append a number member, or `null`. */
  method PushNumber(out: seq<byte>, first: bool, ghost fields: seq<Field>, key: string, value: Option<int>)
    returns (r: seq<byte>, ghost more: seq<Field>)
    requires (first <==> fields == []) && OpenObject(out, fields)
    ensures more == fields + [Field(key, if value.Some? then Num(value.value) else Null)] && OpenObject(r, more)
  {
    var v := Utf8.Encode(if value.Some? then Text(value.value) else "null");
    r, more := PushMember(out, first, fields, key, v, if value.Some? then Num(value.value) else Null);
  }

  /** Decoding and parsing written bytes gives the value back. */
  lemma BytesRoundTrip(j: Json)
    ensures Utf8.Decode(Bytes(j)) == Some(Print(Canonical, j))
    ensures Parse(Print(Canonical, j)) == Some(ToValue(j))
  {
    Utf8.RoundTrip(Print(Canonical, j));
    RoundTrip(Canonical, j);
  }
}
