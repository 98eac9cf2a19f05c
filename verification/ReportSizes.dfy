/** How many bytes canonical reports take, and the limits they therefore never meet. */
module ReportSizes {
  import opened Wrappers
  import opened Decimal
  import opened Json
  import opened JsonWriter
  import opened DisplayText
  import opened ReportTypes
  import opened StateSchema
  import opened ReportCodec
  import Utf8

  /** Bytes a printed tree takes. */
  function Size(j: Json): nat {
    |Bytes(j)|
  }

  function MembersSize(fields: seq<Field>): nat {
    if fields == [] then 0
    else |Utf8.Encode(EscapeAll(Canonical, fields[0].key))| + 3 + Size(fields[0].value) + 1 + MembersSize(fields[1..])
  }

  lemma {:induction false} FieldsSize(fields: seq<Field>)
    ensures |Utf8.Encode(PrintFields(Canonical, fields))| <= MembersSize(fields)
  {
    if fields != [] {
      var f := fields[0];
      StringSize(f.key);
      EncodeConcat3(Quote(Canonical, f.key), ":", Print(Canonical, f.value));
      if |fields| > 1 {
        FieldsSize(fields[1..]);
        EncodeConcat3(PrintField(Canonical, f), ",", PrintFields(Canonical, fields[1..]));
      }
    }
  }

  lemma ObjectSize(fields: seq<Field>)
    ensures Size(Obj(fields)) <= 2 + MembersSize(fields)
  {
    FieldsSize(fields);
    EncodeConcat3("{", PrintFields(Canonical, fields), "}");
  }

  lemma {:induction false} StringSize(s: string)
    ensures Size(Str(s)) == 2 + |Utf8.Encode(EscapeAll(Canonical, s))|
  {
    EncodeConcat3(['"'], EscapeAll(Canonical, s), ['"']);
  }

  /** No character takes more than six bytes, and a plain one takes one. */
  lemma {:induction false} EscapedBytes(s: string)
    ensures |Utf8.Encode(EscapeAll(Canonical, s))| <= 6 * |s|
    ensures (forall i :: 0 <= i < |s| ==> LanguageChar(s[i])) ==> |Utf8.Encode(EscapeAll(Canonical, s))| == |s|
  {
    if s != [] {
      EscapedBytes(s[1..]);
      Utf8.EncodeConcat(EscapeChar(Canonical, s[0]), EscapeAll(Canonical, s[1..]));
      EscapedCharBytes(s[0]);
      assert forall i :: 0 <= i < |s[1..]| ==> s[1..][i] == s[i + 1];
    }
  }

  lemma EscapedCharBytes(c: char)
    ensures var n := |Utf8.Encode(EscapeChar(Canonical, c))|; n <= 6 && (LanguageChar(c) ==> n == 1)
  {
    var e := EscapeChar(Canonical, c);
    Utf8.EncodedLength(e);
    if |e| > 1 || LanguageChar(c) {
      assert Utf8.Ascii(e);
    }
  }

  lemma StringBound(s: string, n: nat)
    requires |s| <= n
    ensures Size(Str(s)) <= 2 + 6 * n
    ensures (forall i :: 0 <= i < |s| ==> LanguageChar(s[i])) ==> Size(Str(s)) <= 2 + n
  {
    EscapedBytes(s);
    StringSize(s);
  }

  lemma NumberBound(n: int, k: nat)
    requires k > 0 && -Pow10(k) < n < Pow10(k)
    ensures Size(Num(n)) <= 1 + k
  {
    var m := if n < 0 then -n else n;
    DigitsLength(m, k);
    DigitsRoundTrip(m);
    Utf8.EncodedLength(Digits(m));
    if n < 0 {
      Utf8.EncodeConcat("-", Digits(m));
    }
    assert Utf8.Ascii(Digits(m));
  }

  /** Bytes of member `i` when its key has at most `k` characters and its value `v` bytes. */
  lemma MemberBound(fields: seq<Field>, i: nat, k: nat, v: nat)
    requires i < |fields| && |fields[i].key| <= k && Size(fields[i].value) <= v
    ensures MembersSize(fields[i..]) <= 6 * k + 4 + v + MembersSize(fields[i + 1..])
  {
    assert fields[i..][1..] == fields[i + 1..];
    EscapedBytes(fields[i].key);
  }

  lemma NullBound()
    ensures Size(Null) == 4
  {
    Utf8.EncodedLength("null");
  }

  lemma ArtifactBound(artifact: Option<Digest>)
    ensures Size(ArtifactTree(artifact)) <= 66
  {
    NullBound();
    if artifact.Some? {
      HexIsLower(artifact.value);
      StringBound(Hex(artifact.value), 64);
    }
  }

  /** Three members shaped like those of a target. */
  lemma TargetMembersBound(fs: seq<Field>)
    requires |fs| == 3 && |fs[0].key| <= 8 && |fs[1].key| <= 6 && |fs[2].key| <= 15
    requires Size(fs[0].value) <= 34 && Size(fs[1].value) <= 110 && Size(fs[2].value) <= 66
    ensures MembersSize(fs) <= 396
  {
    MemberBound(fs, 0, 8, 34);
    MemberBound(fs, 1, 6, 110);
    MemberBound(fs, 2, 15, 66);
    assert fs[0..] == fs && fs[3..] == [];
  }

  lemma TargetBound(t: Target)
    requires ValidTarget(t)
    ensures Size(Obj(TargetFields(t))) <= 410
  {
    StringBound(t.language, 32);
    StringBound(StatusToken(t.status), 18);
    ArtifactBound(t.artifact);
    TargetMembersBound(TargetFields(t));
    ObjectSize(TargetFields(t));
  }

  lemma {:induction false} TargetsBound(ts: seq<Target>)
    requires forall i :: 0 <= i < |ts| ==> ValidTarget(ts[i])
    ensures |Utf8.Encode(PrintItems(Canonical, TargetTrees(ts)))| <= 411 * |ts|
  {
    if ts != [] {
      TargetBound(ts[0]);
      TargetsBound(ts[1..]);
      var trees := TargetTrees(ts);
      assert trees[1..] == TargetTrees(ts[1..]);
      if |ts| > 1 {
        EncodeConcat3(Print(Canonical, trees[0]), ",", PrintItems(Canonical, trees[1..]));
      }
    }
  }

  lemma TargetListBound(ts: seq<Target>)
    requires ValidTargets(ts)
    ensures Size(Arr(TargetTrees(ts))) <= 13_154
  {
    TargetsBound(ts);
    EncodeConcat3("[", PrintItems(Canonical, TargetTrees(ts)), "]");
  }

  lemma OptionalNumberBound(n: Option<u32>)
    ensures Size(OptionalNumber(n)) <= 11
  {
    NullBound();
    if n.Some? {
      assert Pow10(10) == 10_000_000_000;
      NumberBound(n.value, 10);
    }
  }

  lemma TitleBound(env: Env, r: Report)
    requires Constructed(env, r)
    ensures Size(Str(r.title)) <= 2050
  {
    var raw :| Sanitized(env.unicode, raw) == Success(r.title);
    TitleSize(env.unicode, raw);
    StringSize(r.title);
  }

  /** Members shaped like those before the season. */
  lemma HeadBound(fs: seq<Field>)
    requires |fs| >= 4 && |fs[0].key| <= 6 && |fs[1].key| <= 4 && |fs[2].key| <= 10 && |fs[3].key| <= 5
    requires fs[0].value.Str? && |fs[0].value.s| <= 9 && fs[1].value.Str? && |fs[1].value.s| <= 6
    requires Size(fs[2].value) <= 20 && Size(fs[3].value) <= 2050
    ensures MembersSize(fs) <= 2_400 + MembersSize(fs[4..])
  {
    StringBound(fs[0].value.s, 9);
    StringBound(fs[1].value.s, 6);
    MemberBound(fs, 0, 6, 56);
    MemberBound(fs, 1, 4, 38);
    MemberBound(fs, 2, 10, 20);
    MemberBound(fs, 3, 5, 2050);
    assert fs[0..] == fs;
  }

  lemma LastBound(fs: seq<Field>)
    requires |fs| == 9 && |fs[7].key| <= 12 && |fs[8].key| <= 9
    requires Size(fs[7].value) <= 44 && fs[8].value.Str? && |fs[8].value.s| <= 21
    ensures MembersSize(fs[7..]) <= 306
  {
    StringBound(fs[8].value.s, 21);
    MemberBound(fs, 7, 12, 44);
    MemberBound(fs, 8, 9, 128);
    assert fs[9..] == [];
  }

  /** Members shaped like those from the season on. */
  lemma TailBound(fs: seq<Field>)
    requires |fs| == 9 && |fs[4].key| <= 6 && |fs[5].key| <= 7 && |fs[6].key| <= 7 && |fs[7].key| <= 12 && |fs[8].key| <= 9
    requires Size(fs[4].value) <= 11 && Size(fs[5].value) <= 11 && Size(fs[6].value) <= 13_154
    requires Size(fs[7].value) <= 44 && fs[8].value.Str? && |fs[8].value.s| <= 21
    ensures MembersSize(fs[4..]) <= 13_700
  {
    MemberBound(fs, 4, 6, 11);
    MemberBound(fs, 5, 7, 11);
    MemberBound(fs, 6, 7, 13_154);
    LastBound(fs);
  }

  lemma ItemBound(item: Option<ItemFailure>)
    ensures Size(ItemTree(item)) <= 44
  {
    NullBound();
    if item.Some? {
      StringBound(ItemToken(item.value), 7);
    }
  }

  lemma I64Digits()
    ensures Pow10(19) == 10_000_000_000_000_000_000
  {
    assert Pow10(10) == 10_000_000_000;
    assert Pow10(15) == 1_000_000_000_000_000;
  }

  lemma IdBound(id: i64)
    ensures Size(Num(id)) <= 20
  {
    I64Digits();
    NumberBound(id, 19);
  }

  /** Nine members with those bounds. */
  lemma ObjectBound(fs: seq<Field>)
    requires |fs| == 9 && |fs[0].key| <= 6 && |fs[1].key| <= 4 && |fs[2].key| <= 10 && |fs[3].key| <= 5
    requires fs[0].value.Str? && |fs[0].value.s| <= 9 && fs[1].value.Str? && |fs[1].value.s| <= 6
    requires Size(fs[2].value) <= 20 && Size(fs[3].value) <= 2050
    requires |fs[4].key| <= 6 && |fs[5].key| <= 7 && |fs[6].key| <= 7 && |fs[7].key| <= 12 && |fs[8].key| <= 9
    requires Size(fs[4].value) <= 11 && Size(fs[5].value) <= 11 && Size(fs[6].value) <= 13_154
    requires Size(fs[7].value) <= 44 && fs[8].value.Str? && |fs[8].value.s| <= 21
    ensures Size(Obj(fs)) <= MAX_REPORT_BYTES
  {
    HeadBound(fs);
    TailBound(fs);
    ObjectSize(fs);
  }

  lemma WordBound(r: Report)
    ensures |KindToken(r.kind)| <= 6 && |AggregateToken(r.aggregate)| <= 21
  {
  }

  /**
    Every report the constructors can make encodes within 16 KiB: the size check in
    `try_new` never fires, and `from_reports` never skips a report for its size.
   */
  lemma ReportFitsLimit(env: Env, r: Report)
    requires Constructed(env, r)
    ensures |Encoded(r)| <= MAX_REPORT_BYTES
  {
    hide Print, PrintItems, PrintFields, Sanitized, ExpectedAggregate, ValidTargets, Hex, KindToken, AggregateToken;
    var fs := ReportFields(r);
    WordBound(r);
    IdBound(r.episodeId);
    TitleBound(env, r);
    OptionalNumberBound(r.season);
    OptionalNumberBound(r.episode);
    TargetListBound(r.targets);
    ItemBound(r.itemFailure);
    assert fs[6].value == Arr(TargetTrees(r.targets)) && fs[7].value == ItemTree(r.itemFailure);
    ObjectBound(fs);
  }
}
