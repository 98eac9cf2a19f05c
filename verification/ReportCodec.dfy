/** Canonical report bytes, the commit id hashed from them, and the strict decoder. */
module ReportCodec {
  import opened Wrappers
  import opened Decimal
  import opened Json
  import opened DisplayText
  import opened ReportTypes
  import opened StateSchema
  import opened JsonWriter
  import Utf8

  /* ---- Encoding ---- */

  function KindToken(kind: EpisodeKind): string {
    match kind
    case Series => "series"
    case Movie => "movie"
  }

  function StatusToken(status: TargetStatus): string {
    match status
    case Completed(None) => "ok"
    case Completed(Some(UploadWarning)) => "warn-upload"
    case Completed(Some(UnknownWarning)) => "warn-unknown"
    case Failed(SourceFailure) => "fail-source"
    case Failed(TranscriptionFailure) => "fail-transcription"
    case Failed(TranslationFailure) => "fail-translation"
    case Failed(StorageFailure) => "fail-storage"
    case Failed(UnknownFailure) => "fail-unknown"
    case MissingLanguage => "fail-language"
  }

  function ItemToken(item: ItemFailure): string {
    match item
    case SourceItem => "source"
    case StorageItem => "storage"
    case UnknownItem => "unknown"
  }

  function AggregateToken(a: AggregateDisposition): string {
    match a
    case Complete => "complete"
    case CompleteWithWarning => "complete-with-warning"
    case Partial => "partial"
    case AllFailed => "failed"
  }

  function OptionalNumber(n: Option<u32>): Json {
    if n.Some? then Num(n.value) else Null
  }

  function ArtifactTree(artifact: Option<Digest>): Json {
    if artifact.Some? then Str(Hex(artifact.value)) else Null
  }

  function ItemTree(item: Option<ItemFailure>): Json {
    if item.Some? then Str(ItemToken(item.value)) else Null
  }

  function TargetFields(t: Target): seq<Field> {
    [ Field("language", Str(t.language)),
      Field("status", Str(StatusToken(t.status))),
      Field("artifact_sha256", ArtifactTree(t.artifact)) ]
  }

  function TargetTrees(ts: seq<Target>): (r: seq<Json>)
    ensures |r| == |ts|
    ensures forall i :: 0 <= i < |ts| ==> r[i] == Obj(TargetFields(ts[i]))
  {
    if ts == [] then [] else [Obj(TargetFields(ts[0]))] + TargetTrees(ts[1..])
  }

  function ReportFields(r: Report): seq<Field> {
    [ Field("schema", Str("report-v1")),
      Field("kind", Str(KindToken(r.kind))),
      Field("episode_id", Num(r.episodeId)),
      Field("title", Str(r.title)),
      Field("season", OptionalNumber(r.season)),
      Field("episode", OptionalNumber(r.episode)),
      Field("targets", Arr(TargetTrees(r.targets))),
      Field("item_failure", ItemTree(r.itemFailure)),
      Field("aggregate", Str(AggregateToken(r.aggregate))) ]
  }

  /** The canonical bytes: compact JSON of the nine fields, in this order. */
  function Encoded(r: Report): seq<byte> {
    Bytes(Obj(ReportFields(r)))
  }

  /* ---- The encoder as it appends to a buffer ---- */

  method EncodeTarget(t: Target) returns (out: seq<byte>)
    ensures out == Bytes(Obj(TargetFields(t)))
  {
    ghost var fs := [];
    out := StartObject();
    out, fs := PushString(out, true, fs, "language", Some(t.language));
    out, fs := PushString(out, false, fs, "status", Some(StatusToken(t.status)));
    out, fs := PushString(out, false, fs, "artifact_sha256", if t.artifact.Some? then Some(Hex(t.artifact.value)) else None);
    assert fs == TargetFields(t);
    out := CloseObject(out, fs);
  }

  method EncodeTargets(ts: seq<Target>) returns (out: seq<byte>)
    ensures out == Bytes(Arr(TargetTrees(ts)))
  {
    out := StartArray();
    ghost var trees := TargetTrees(ts);
    var i := 0;
    while i < |ts|
      invariant i <= |ts| && OpenArray(out, trees[..i])
    {
      var v := EncodeTarget(ts[i]);
      out := PushItem(out, i == 0, trees[..i], v, trees[i]);
      assert trees[..i] + [trees[i]] == trees[..i + 1];
      i := i + 1;
    }
    assert trees[..i] == trees;
    out := CloseArray(out, trees);
  }

  method EncodeHead(r: Report) returns (out: seq<byte>, ghost fs: seq<Field>)
    ensures OpenObject(out, fs) && fs == ReportFields(r)[..4]
  {
    fs := [];
    out := StartObject();
    out, fs := PushString(out, true, fs, "schema", Some("report-v1"));
    out, fs := PushString(out, false, fs, "kind", Some(KindToken(r.kind)));
    out, fs := PushNumber(out, false, fs, "episode_id", Some(r.episodeId));
    out, fs := PushString(out, false, fs, "title", Some(r.title));
  }

  /** `encode_report` writes exactly the canonical bytes. */
  method EncodeReport(r: Report) returns (out: seq<byte>)
    ensures out == Encoded(r)
  {
    ghost var fs;
    out, fs := EncodeHead(r);
    out, fs := PushNumber(out, false, fs, "season", r.season);
    out, fs := PushNumber(out, false, fs, "episode", r.episode);
    var targets := EncodeTargets(r.targets);
    out, fs := PushMember(out, false, fs, "targets", targets, Arr(TargetTrees(r.targets)));
    out, fs := PushString(out, false, fs, "item_failure",
                          if r.itemFailure.Some? then Some(ItemToken(r.itemFailure.value)) else None);
    out, fs := PushString(out, false, fs, "aggregate", Some(AggregateToken(r.aggregate)));
    assert fs == ReportFields(r);
    out := CloseObject(out, fs);
  }

  /* ---- Construction ---- */

  /** `PipelineCommitId::from_canonical_report_bytes`. */
  function CommitIdOf(env: Env, bytes: seq<byte>): string {
    "asrsub-pipeline-v1-" + Hex(env.sha(Utf8.Encode("asrsub-pipeline-v1\0") + bytes))
  }

  /** `EpisodeRunReport::try_new`. */
  function TryNew(env: Env, kind: EpisodeKind, episodeId: i64, title: string, season: Option<u32>, episode: Option<u32>,
                  targets: seq<Target>, item: Option<ItemFailure>, aggregate: AggregateDisposition): Result<Report, ReportError>
  {
    var completed := CompletedCount(targets);
    var failed := |targets| - completed;
    if ExpectedAggregate(targets, item) != aggregate || (failed == 0 && item.Some? && completed == 0) then
      Failure(InvalidStatusCombination)
    else
      var bare := Report(kind, episodeId, title, season, episode, targets, item, aggregate, None);
      var bytes := Encoded(bare);
      if |bytes| > MAX_REPORT_BYTES then Failure(CounterOverflow)
      else Success(bare.(commitId := Some(CommitIdOf(env, bytes))))
  }

  lemma EncodedIgnoresCommitId(r: Report, id: Option<string>)
    ensures Encoded(r.(commitId := id)) == Encoded(r)
  {
  }

  /** Methods and commit id are not part of the canonical bytes. */
  lemma EncodedIgnoresMethods(r: Report)
    ensures Encoded(Content(r)) == Encoded(r)
  {
    var a, b := TargetTrees(r.targets), TargetTrees(StripMethods(r.targets));
    assert forall i :: 0 <= i < |a| ==> a[i] == b[i];
    assert a == b;
  }

  /**
    A report the constructors can have made, apart from its commit id: titles come
    out of the sanitizer, targets out of `BoundTargets`.
   */
  ghost predicate Constructed(env: Env, r: Report) {
    && (exists raw :: Sanitized(env.unicode, raw) == Success(r.title))
    && ValidTargets(r.targets)
    && r.aggregate == ExpectedAggregate(r.targets, r.itemFailure)
  }

  /** ... and that still carries the commit id `try_new` gave it. */
  ghost predicate Identified(env: Env, r: Report) {
    Constructed(env, r) && r.commitId == Some(CommitIdOf(env, Encoded(r)))
  }

  lemma TryNewIsIdentified(env: Env, kind: EpisodeKind, id: i64, title: string, season: Option<u32>, episode: Option<u32>,
                           ts: seq<Target>, item: Option<ItemFailure>, aggregate: AggregateDisposition, raw: string)
    requires Sanitized(env.unicode, raw) == Success(title) && ValidTargets(ts)
    ensures var r := TryNew(env, kind, id, title, season, episode, ts, item, aggregate);
      r.Success? ==> Identified(env, r.value) && r.value.title == title && r.value.targets == ts
  {
    var r := TryNew(env, kind, id, title, season, episode, ts, item, aggregate);
    if r.Success? {
      EncodedIgnoresCommitId(r.value.(commitId := None), r.value.commitId);
    }
  }

  /* ---- Decoding ---- */

  function ParseKind(token: string): Option<EpisodeKind> {
    if token == "series" then Some(Series) else if token == "movie" then Some(Movie) else None
  }

  function ParseStatus(token: string): Option<TargetStatus> {
    if token == "ok" then Some(Completed(None))
    else if token == "warn-upload" then Some(Completed(Some(UploadWarning)))
    else if token == "warn-unknown" then Some(Completed(Some(UnknownWarning)))
    else if token == "fail-source" then Some(Failed(SourceFailure))
    else if token == "fail-transcription" then Some(Failed(TranscriptionFailure))
    else if token == "fail-translation" then Some(Failed(TranslationFailure))
    else if token == "fail-storage" then Some(Failed(StorageFailure))
    else if token == "fail-unknown" then Some(Failed(UnknownFailure))
    else if token == "fail-language" then Some(MissingLanguage)
    else None
  }

  function ParseItem(token: string): Option<ItemFailure> {
    if token == "source" then Some(SourceItem)
    else if token == "storage" then Some(StorageItem)
    else if token == "unknown" then Some(UnknownItem)
    else None
  }

  function ParseAggregate(token: string): Option<AggregateDisposition> {
    if token == "complete" then Some(Complete)
    else if token == "complete-with-warning" then Some(CompleteWithWarning)
    else if token == "partial" then Some(Partial)
    else if token == "failed" then Some(AllFailed)
    else None
  }

  /** `null`, or 64 lower-case hex digits. */
  function ParseArtifact(v: Value): Option<Option<Digest>> {
    match v
    case VNull => Some(None)
    case VStr(s) =>
      if |s| != 64 || !LowerHex(s) then None
      else
        var bytes :- DecodeHex(s);
        Some(Some(bytes))
    case _ => None
  }

  function DecodeTarget(v: Value): (r: Option<Target>)
    ensures r.Some? ==> ValidTarget(r.value) && r.value.generationMethod.None?
  {
    var o :- v.AsObject();
    var languageValue :- v.Get("language");
    var raw :- languageValue.AsStr();
    var statusValue :- v.Get("status");
    var token :- statusValue.AsStr();
    var status :- ParseStatus(token);
    var artifactValue :- v.Get("artifact_sha256");
    var artifact :- ParseArtifact(artifactValue);
    match ParseLanguage(raw)
    case Failure(_) => None
    case Success(language) =>
      if status.Completed? != artifact.Some? then None
      else Some(Target(language, status, artifact, None))
  }

  function DecodeTargets(vs: seq<Value>): (r: Option<seq<Target>>)
    ensures r.Some? ==> |r.value| == |vs|
    ensures r.Some? ==> forall i :: 0 <= i < |vs| ==> ValidTarget(r.value[i]) && r.value[i].generationMethod.None?
  {
    if vs == [] then Some([])
    else
      var first :- DecodeTarget(vs[0]);
      var rest :- DecodeTargets(vs[1..]);
      Some([first] + rest)
  }

  /** `as_u64().map(u32::try_from).transpose()`: a value that is not a number counts as absent. */
  function DecodeU32(v: Value): Option<Option<u32>> {
    match v.AsU64()
    case None => Some(None)
    case Some(n) => if n < 0x1_0000_0000 then Some(Some(n)) else None
  }

  function DecodeItem(v: Value): Option<Option<ItemFailure>> {
    match v.AsStr()
    case None => Some(None)
    case Some(token) =>
      var item :- ParseItem(token);
      Some(Some(item))
  }

  /** Kind, id and title of a report document. */
  function DecodeHead(env: Env, v: Value): (r: Option<(EpisodeKind, i64, string)>)
    ensures r.Some? ==> Stable(env.unicode, r.value.2)
  {
    var o :- v.AsObject();
    var schema :- v.Get("schema");
    if |o| != 9 || schema.AsStr() != Some("report-v1") then None
    else
      var kindValue :- v.Get("kind");
      var kindToken :- kindValue.AsStr();
      var kind :- ParseKind(kindToken);
      var idValue :- v.Get("episode_id");
      var id :- idValue.AsI64();
      var titleValue :- v.Get("title");
      var title :- titleValue.AsStr();
      if Stable(env.unicode, title) then Some((kind, id, title)) else None
  }

  function DecodeNumbers(v: Value): Option<(Option<u32>, Option<u32>)> {
    var seasonValue :- v.Get("season");
    var season :- DecodeU32(seasonValue);
    var episodeValue :- v.Get("episode");
    var episode :- DecodeU32(episodeValue);
    Some((season, episode))
  }

  /** Targets, item failure and aggregate, with the targets bounded again. */
  function DecodeOutcome(v: Value): (r: Option<(seq<Target>, Option<ItemFailure>, AggregateDisposition)>)
  {
    var targetsValue :- v.Get("targets");
    var targetValues :- targetsValue.AsArray();
    var targets :- DecodeTargets(targetValues);
    var itemValue :- v.Get("item_failure");
    var item :- DecodeItem(itemValue);
    var aggregateValue :- v.Get("aggregate");
    var aggregateToken :- aggregateValue.AsStr();
    var aggregate :- ParseAggregate(aggregateToken);
    match BoundTargets(targets)
    case Failure(_) => None
    case Success(bound) => Some((bound, item, aggregate))
  }

  /** The fields of a report document; `None` is every `Corrupt` exit. */
  function DecodeFields(env: Env, v: Value): Option<Report> {
    var head :- DecodeHead(env, v);
    var numbers :- DecodeNumbers(v);
    var outcome :- DecodeOutcome(v);
    match TryNew(env, head.0, head.1, head.2, numbers.0, numbers.1, outcome.0, outcome.1, outcome.2)
    case Failure(_) => None
    case Success(report) => Some(report)
  }

  /** `decode_report`. */
  function DecodeReport(env: Env, bytes: seq<byte>): Result<Report, NotificationStateError> {
    match Utf8.Decode(bytes)
    case None => Failure(Corrupt)
    case Some(text) =>
      match Parse(text)
      case None => Failure(Corrupt)
      case Some(v) =>
        match DecodeFields(env, v)
        case None => Failure(Corrupt)
        case Some(report) => if Encoded(report) != bytes then Failure(Contradiction) else Success(report)
  }
}
