/** The strict decoder undoes the canonical encoder, and the encoding is injective. */
module ReportRoundTrip {
  import opened Wrappers
  import opened Decimal
  import opened Json
  import opened JsonWriter
  import opened DisplayText
  import opened ReportTypes
  import opened StateSchema
  import opened ReportCodec
  import ReportSizes
  import Utf8

  /* ---- Decoding accepts exactly the canonical bytes of constructed reports with stable titles ---- */

  lemma StatusTokenInverse(status: TargetStatus)
    ensures ParseStatus(StatusToken(status)) == Some(status)
  {
  }

  lemma TokenInverses(kind: EpisodeKind, item: ItemFailure, a: AggregateDisposition)
    ensures ParseKind(KindToken(kind)) == Some(kind)
    ensures ParseItem(ItemToken(item)) == Some(item)
    ensures ParseAggregate(AggregateToken(a)) == Some(a)
  {
  }

  /** The members of a printed target object. */
  lemma TargetMembers(t: Target)
    ensures var v := ToValue(Obj(TargetFields(t)));
      && v.Get("language") == Some(VStr(t.language))
      && v.Get("status") == Some(VStr(StatusToken(t.status)))
      && v.Get("artifact_sha256") == Some(ToValue(ArtifactTree(t.artifact)))
  {
    var fs := TargetFields(t);
    assert DistinctKeys(fs);
    ToMapAt(fs, 0);
    ToMapAt(fs, 1);
    ToMapAt(fs, 2);
  }

  lemma DecodeEncodedTarget(t: Target)
    requires ValidTarget(t)
    ensures DecodeTarget(ToValue(Obj(TargetFields(t)))) == Some(t.(generationMethod := None))
  {
    TargetMembers(t);
    StatusTokenInverse(t.status);
    if t.artifact.Some? {
      HexRoundTrip(t.artifact.value);
      HexIsLower(t.artifact.value);
    }
  }

  lemma {:induction false} DecodeEncodedTargets(ts: seq<Target>)
    requires forall i :: 0 <= i < |ts| ==> ValidTarget(ts[i])
    ensures DecodeTargets(ToValues(TargetTrees(ts))) == Some(StripMethods(ts))
  {
    if ts != [] {
      DecodeEncodedTarget(ts[0]);
      DecodeEncodedTargets(ts[1..]);
      assert TargetTrees(ts)[1..] == TargetTrees(ts[1..]);
      assert ToValues(TargetTrees(ts))[1..] == ToValues(TargetTrees(ts[1..]));
    }
  }

  lemma ReportKeysDistinct(r: Report)
    ensures DistinctKeys(ReportFields(r)) && |ReportFields(r)| == 9
  {
  }

  /** The members of a printed report. */
  lemma ReportMembers(r: Report)
    ensures var v := ToValue(Obj(ReportFields(r)));
      && |v.fields| == 9
      && v.Get("schema") == Some(VStr("report-v1"))
      && v.Get("kind") == Some(VStr(KindToken(r.kind)))
      && v.Get("episode_id") == Some(VNum(r.episodeId))
      && v.Get("title") == Some(VStr(r.title))
      && v.Get("season") == Some(ToValue(OptionalNumber(r.season)))
      && v.Get("episode") == Some(ToValue(OptionalNumber(r.episode)))
      && v.Get("targets") == Some(VArr(ToValues(TargetTrees(r.targets))))
      && v.Get("item_failure") == Some(ToValue(ItemTree(r.itemFailure)))
      && v.Get("aggregate") == Some(VStr(AggregateToken(r.aggregate)))
  {
    var fs := ReportFields(r);
    ReportKeysDistinct(r);
    ToMapSize(fs);
    ToMapAt(fs, 0);
    ToMapAt(fs, 1);
    ToMapAt(fs, 2);
    ToMapAt(fs, 3);
    ToMapAt(fs, 4);
    ToMapAt(fs, 5);
    ToMapAt(fs, 6);
    ToMapAt(fs, 7);
    ToMapAt(fs, 8);
  }

  /** `TryNew` rebuilds a constructed report, with no methods and the commit id of its bytes. */
  lemma TryNewRebuilds(env: Env, r: Report)
    requires Constructed(env, r)
    ensures TryNew(env, r.kind, r.episodeId, r.title, r.season, r.episode, StripMethods(r.targets), r.itemFailure, r.aggregate)
         == Success(Content(r).(commitId := Some(CommitIdOf(env, Encoded(r)))))
  {
    StripKeepsAggregate(r.targets, r.itemFailure);
    EncodedIgnoresMethods(r);
    ReportSizes.ReportFitsLimit(env, r);
  }

  lemma StripKeepsValid(ts: seq<Target>)
    requires ValidTargets(ts)
    ensures ValidTargets(StripMethods(ts))
  {
    var s := StripMethods(ts);
    forall i, j | 0 <= i < j < |s|
      ensures TargetLe(s[i], s[j])
    {
      assert TargetLe(ts[i], ts[j]);
    }
  }

  lemma DecodeEncodedHead(env: Env, r: Report)
    ensures DecodeHead(env, ToValue(Obj(ReportFields(r))))
         == if Stable(env.unicode, r.title) then Some((r.kind, r.episodeId, r.title)) else None
  {
    ReportMembers(r);
    TokenInverses(r.kind, SourceItem, r.aggregate);
  }

  lemma DecodeEncodedNumbers(r: Report)
    ensures DecodeNumbers(ToValue(Obj(ReportFields(r)))) == Some((r.season, r.episode))
  {
    ReportMembers(r);
  }

  lemma DecodeEncodedOutcome(r: Report)
    requires ValidTargets(r.targets)
    ensures DecodeOutcome(ToValue(Obj(ReportFields(r)))) == Some((StripMethods(r.targets), r.itemFailure, r.aggregate))
  {
    ReportMembers(r);
    TokenInverses(r.kind, if r.itemFailure.Some? then r.itemFailure.value else SourceItem, r.aggregate);
    DecodeEncodedTargets(r.targets);
    StripKeepsValid(r.targets);
    BoundTargetsKeepsValid(StripMethods(r.targets));
  }

  /**
    Decoding the canonical bytes of a constructed report gives back its content
    and commit id, provided its title is stable; otherwise it is refused.
   */
  lemma DecodeEncoded(env: Env, r: Report)
    requires Constructed(env, r)
    ensures DecodeReport(env, Encoded(r))
         == if Stable(env.unicode, r.title)
            then Success(Content(r).(commitId := Some(CommitIdOf(env, Encoded(r)))))
            else Failure(Corrupt)
  {
    BytesRoundTrip(Obj(ReportFields(r)));
    DecodeEncodedHead(env, r);
    DecodeEncodedNumbers(r);
    DecodeEncodedOutcome(r);
    TryNewRebuilds(env, r);
    EncodedIgnoresMethods(r);
    EncodedIgnoresCommitId(Content(r), Some(CommitIdOf(env, Encoded(r))));
  }

  lemma BoundKeepsBare(decoded: seq<Target>, ts: seq<Target>)
    requires forall i :: 0 <= i < |decoded| ==> ValidTarget(decoded[i]) && decoded[i].generationMethod.None?
    requires BoundTargets(decoded) == Success(ts)
    ensures ValidTargets(ts) && StripMethods(ts) == ts
  {
    BoundTargetsIsValid(decoded);
    forall i | 0 <= i < |ts|
      ensures ts[i].generationMethod.None?
    {
      assert ts[i] in multiset(decoded);
    }
  }

  lemma DecodedOutcomeIsValid(v: Value)
    requires DecodeOutcome(v).Some?
    ensures var ts := DecodeOutcome(v).value.0; ValidTargets(ts) && StripMethods(ts) == ts
  {
    var targetsValue :- assert v.Get("targets");
    var targetValues :- assert targetsValue.AsArray();
    var decoded :- assert DecodeTargets(targetValues);
    BoundKeepsBare(decoded, DecodeOutcome(v).value.0);
  }

  lemma DecodedFieldsAreIdentified(env: Env, v: Value)
    requires DecodeFields(env, v).Some?
    ensures var r := DecodeFields(env, v).value;
      Identified(env, r) && Stable(env.unicode, r.title) && StripMethods(r.targets) == r.targets
  {
    var head :- assert DecodeHead(env, v);
    var numbers :- assert DecodeNumbers(v);
    var outcome :- assert DecodeOutcome(v);
    DecodedOutcomeIsValid(v);
    TryNewIsIdentified(env, head.0, head.1, head.2, numbers.0, numbers.1, outcome.0, outcome.1, outcome.2, head.2);
  }

  /** Whatever the decoder accepts is the canonical form of what it returns, and was constructed. */
  lemma AcceptedIsCanonical(env: Env, bytes: seq<byte>)
    requires DecodeReport(env, bytes).Success?
    ensures var r := DecodeReport(env, bytes).value;
      Encoded(r) == bytes && Identified(env, r) && Stable(env.unicode, r.title) && StripMethods(r.targets) == r.targets
  {
    DecodedFieldsAreIdentified(env, Parse(Utf8.Decode(bytes).value).value);
  }

  /** Accepted documents are exactly the canonical bytes of constructed reports with stable titles. */
  lemma AcceptsExactly(env: Env, bytes: seq<byte>)
    ensures DecodeReport(env, bytes).Success?
       <==> exists r :: Constructed(env, r) && Stable(env.unicode, r.title) && Encoded(r) == bytes
  {
    if DecodeReport(env, bytes).Success? {
      AcceptedIsCanonical(env, bytes);
    }
    forall r | Constructed(env, r) && Stable(env.unicode, r.title) && Encoded(r) == bytes
      ensures DecodeReport(env, bytes).Success?
    {
      DecodeEncoded(env, r);
    }
  }

  /* ---- Injectivity ---- */

  lemma {:induction false} TargetTreesInjective(a: seq<Target>, b: seq<Target>)
    requires ToValues(TargetTrees(a)) == ToValues(TargetTrees(b))
    requires forall i :: 0 <= i < |a| ==> ValidTarget(a[i])
    requires forall i :: 0 <= i < |b| ==> ValidTarget(b[i])
    ensures StripMethods(a) == StripMethods(b)
  {
    DecodeEncodedTargets(a);
    DecodeEncodedTargets(b);
  }

  /**
    Canonical bytes determine the content, whatever the titles are: no two different
    reports share them, because every JSON string, number and list ends where it says.
   */
  lemma EncodedInjective(r: Report, s: Report)
    requires ValidTargets(r.targets) && ValidTargets(s.targets)
    requires Encoded(r) == Encoded(s)
    ensures Content(r) == Content(s)
  {
    BytesRoundTrip(Obj(ReportFields(r)));
    BytesRoundTrip(Obj(ReportFields(s)));
    ReportMembers(r);
    ReportMembers(s);
    TokenInverses(r.kind, if r.itemFailure.Some? then r.itemFailure.value else SourceItem, r.aggregate);
    TokenInverses(s.kind, if s.itemFailure.Some? then s.itemFailure.value else SourceItem, s.aggregate);
    assert OptionalNumber(r.season) == OptionalNumber(s.season);
    TargetTreesInjective(r.targets, s.targets);
  }

  /** Equal commit ids mean equal content, unless the hash collides on the two encodings. */
  lemma CommitIdIdentifiesContent(env: Env, r: Report, s: Report)
    requires Identified(env, r) && Identified(env, s) && r.commitId == s.commitId
    ensures var p := Utf8.Encode("asrsub-pipeline-v1\0");
      Content(r) == Content(s)
      || (p + Encoded(r) != p + Encoded(s) && env.sha(p + Encoded(r)) == env.sha(p + Encoded(s)))
  {
    var p := Utf8.Encode("asrsub-pipeline-v1\0");
    var a, b := Hex(env.sha(p + Encoded(r))), Hex(env.sha(p + Encoded(s)));
    var prefix := "asrsub-pipeline-v1-";
    assert (prefix + a)[|prefix|..] == a && (prefix + b)[|prefix|..] == b;
    HexRoundTrip(env.sha(p + Encoded(r)));
    HexRoundTrip(env.sha(p + Encoded(s)));
    if p + Encoded(r) == p + Encoded(s) {
      assert (p + Encoded(r))[|p|..] == Encoded(r) && (p + Encoded(s))[|p|..] == Encoded(s);
      EncodedInjective(r, s);
    }
  }
}
