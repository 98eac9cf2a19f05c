/** The two ledger rows of a finished target, and how both readers understand them. */
module TargetLedgerRows {
  import opened Wrappers
  import opened Decimal
  import opened Json
  import opened LedgerCommit
  import opened Admission

  datatype Commit = Commit(
    stem: string,
    lang: string,
    source: string,
    sourceKind: Option<string>,
    episodeId: i64,
    isMovie: bool,
    mediaPath: string,
    sourceLang: string,
    sourceStream: Option<u32>
  )

  function KindText(isMovie: bool): string {
    if isMovie then "movie" else "series"
  }

  /** `canonical_target_sidecar`. */
  function CanonicalSidecar(env: Env, stem: string, lang: string): string {
    stem + "." + env.norm(lang) + ".hi.srt"
  }

  function OptionalText(s: Option<string>): Json {
    match s case None => Null case Some(t) => Str(t)
  }

  function RegistryFields(env: Env, c: Commit, digest: seq<byte>, ts: string): seq<Field> {
    [Field("artifact_sha256", Str(Hex(digest))), Field("episode_id", Num(c.episodeId))]
    + (if c.isMovie then [Field("kind", Str("movie"))] else [])
    + [Field("lang", Str(env.norm(c.lang))), Field("media_path", Str(c.mediaPath)), Field("source", Str(c.source)),
       Field("source_kind", OptionalText(c.sourceKind)), Field("source_lang", Str(env.norm(c.sourceLang))),
       Field("source_path", Str(CanonicalSidecar(env, c.stem, c.lang)))]
    + (if c.sourceStream.Some? then [Field("source_stream", Num(c.sourceStream.value))] else [])
    + [Field("stem", Str(c.stem)), Field("target_path", Str(CanonicalSidecar(env, c.stem, c.lang))), Field("ts", Str(ts))]
  }

  function StateFields(env: Env, c: Commit, digest: seq<byte>, ts: string): seq<Field> {
    [Field("artifact_sha256", Str(Hex(digest))), Field("detail", Str("")),
     Field("kind", if c.isMovie then Str("movie") else Null), Field("language", Str(env.norm(c.lang))),
     Field("sonarrEpisodeId", Num(c.episodeId)), Field("status", Str("done")), Field("ts", Str(ts))]
  }

  /** `target_ledger_rows`. */
  function TargetRows(env: Env, c: Commit, digest: seq<byte>, ts: string): (LedgerIdentity, Json, Json) {
    (LedgerIdentity(KindText(c.isMovie), c.episodeId, env.norm(c.lang), digest),
     Obj(RegistryFields(env, c, digest, ts)), Obj(StateFields(env, c, digest, ts)))
  }

  lemma MemberIs(fields: seq<Field>, f: Field)
    requires DistinctKeys(fields) && f in fields
    ensures ToValue(Obj(fields)).Get(f.key) == Some(ToValue(f.value))
  {
    var i :| 0 <= i < |fields| && fields[i] == f;
    ToMapAt(fields, i);
  }

  predicate Lacks(fields: seq<Field>, key: string) {
    forall i :: 0 <= i < |fields| ==> fields[i].key != key
  }

  lemma NoMember(fields: seq<Field>, key: string)
    requires Lacks(fields, key)
    ensures ToValue(Obj(fields)).Get(key) == None
  {
    ToMapKeys(fields, key);
  }

  lemma RegistryKeysDistinct(env: Env, c: Commit, digest: seq<byte>, ts: string)
    ensures DistinctKeys(RegistryFields(env, c, digest, ts))
  {
    hide Hex, CanonicalSidecar, OptionalText;
  }

  lemma StateKeysDistinct(env: Env, c: Commit, digest: seq<byte>, ts: string)
    ensures DistinctKeys(StateFields(env, c, digest, ts))
  {
    hide Hex;
  }

  /** Two values that differ at most in their time agree on every other member. */
  lemma SameMember(v: Value, w: Value, key: string)
    requires SameRow(v, w) && key != "ts"
    ensures v.Get(key) == w.Get(key)
  {
    if v.VObj? && w.VObj? {
      assert key in v.fields <==> key in (v.fields - {"ts"});
      assert key in w.fields <==> key in (w.fields - {"ts"});
    }
  }

  /** Which members a registry row has. */
  lemma RegistryHas(env: Env, c: Commit, digest: seq<byte>, ts: string)
    ensures var fs := RegistryFields(env, c, digest, ts);
      && Field("artifact_sha256", Str(Hex(digest))) in fs && Field("episode_id", Num(c.episodeId)) in fs
      && Field("lang", Str(env.norm(c.lang))) in fs && Field("source", Str(c.source)) in fs
      && Field("source_kind", OptionalText(c.sourceKind)) in fs && Field("stem", Str(c.stem)) in fs
      && Field("source_path", Str(CanonicalSidecar(env, c.stem, c.lang))) in fs
      && Field("target_path", Str(CanonicalSidecar(env, c.stem, c.lang))) in fs
  {
    hide Hex, CanonicalSidecar, OptionalText;
    var fs := RegistryFields(env, c, digest, ts);
    var k, n := if c.isMovie then 3 else 2, |fs|;
    assert fs[0] == Field("artifact_sha256", Str(Hex(digest))) && fs[1] == Field("episode_id", Num(c.episodeId));
    assert fs[k] == Field("lang", Str(env.norm(c.lang))) && fs[k + 2] == Field("source", Str(c.source));
    assert fs[k + 3] == Field("source_kind", OptionalText(c.sourceKind));
    assert fs[k + 5] == Field("source_path", Str(CanonicalSidecar(env, c.stem, c.lang)));
    assert fs[n - 3] == Field("stem", Str(c.stem));
    assert fs[n - 2] == Field("target_path", Str(CanonicalSidecar(env, c.stem, c.lang)));
  }

  lemma RegistryKind(env: Env, c: Commit, digest: seq<byte>, ts: string)
    ensures var fs := RegistryFields(env, c, digest, ts);
      && Lacks(fs, "language")
      && if c.isMovie then Field("kind", Str("movie")) in fs else Lacks(fs, "kind")
  {
    hide Hex, CanonicalSidecar, OptionalText;
    var fs := RegistryFields(env, c, digest, ts);
    assert c.isMovie ==> fs[2] == Field("kind", Str("movie"));
  }

  /** The members that matter of a registry row equal to ours up to its time. */
  lemma RegistryMembers(env: Env, c: Commit, digest: seq<byte>, ts: string, v: Value)
    requires SameRow(v, ToValue(Obj(RegistryFields(env, c, digest, ts))))
    ensures v.VObj?
    ensures v.Get("artifact_sha256") == Some(VStr(Hex(digest))) && v.Get("episode_id") == Some(VNum(c.episodeId))
    ensures v.Get("kind") == if c.isMovie then Some(VStr("movie")) else None
    ensures v.Get("lang") == Some(VStr(env.norm(c.lang))) && v.Get("language") == None
    ensures v.Get("source") == Some(VStr(c.source)) && v.Get("source_kind") == Some(ToValue(OptionalText(c.sourceKind)))
    ensures v.Get("source_path") == Some(VStr(CanonicalSidecar(env, c.stem, c.lang)))
    ensures v.Get("stem") == Some(VStr(c.stem))
    ensures v.Get("target_path") == Some(VStr(CanonicalSidecar(env, c.stem, c.lang)))
  {
    hide Hex, CanonicalSidecar, OptionalText, DistinctKeys, ToMap, RegistryFields, Lacks;
    var fs := RegistryFields(env, c, digest, ts);
    var path := Str(CanonicalSidecar(env, c.stem, c.lang));
    RegistryKeysDistinct(env, c, digest, ts);
    RegistryHas(env, c, digest, ts);
    RegistryKind(env, c, digest, ts);
    RegistryMember(fs, v, Field("artifact_sha256", Str(Hex(digest))));
    RegistryMember(fs, v, Field("episode_id", Num(c.episodeId)));
    RegistryMember(fs, v, Field("lang", Str(env.norm(c.lang))));
    RegistryMember(fs, v, Field("source", Str(c.source)));
    RegistryMember(fs, v, Field("source_kind", OptionalText(c.sourceKind)));
    RegistryMember(fs, v, Field("source_path", path));
    RegistryMember(fs, v, Field("stem", Str(c.stem)));
    RegistryMember(fs, v, Field("target_path", path));
    NoMember(fs, "language");
    SameMember(v, ToValue(Obj(fs)), "language");
    SameMember(v, ToValue(Obj(fs)), "kind");
    if c.isMovie {
      MemberIs(fs, Field("kind", Str("movie")));
    } else {
      NoMember(fs, "kind");
    }
  }

  lemma RegistryMember(fs: seq<Field>, v: Value, f: Field)
    requires DistinctKeys(fs) && f in fs && f.key != "ts" && SameRow(v, ToValue(Obj(fs)))
    ensures v.Get(f.key) == Some(ToValue(f.value))
  {
    hide DistinctKeys, ToMap, SameRow;
    MemberIs(fs, f);
    SameMember(v, ToValue(Obj(fs)), f.key);
  }

  lemma StateMembers(env: Env, c: Commit, digest: seq<byte>, ts: string, v: Value)
    requires SameRow(v, ToValue(Obj(StateFields(env, c, digest, ts))))
    ensures v.VObj?
    ensures v.Get("artifact_sha256") == Some(VStr(Hex(digest))) && v.Get("sonarrEpisodeId") == Some(VNum(c.episodeId))
    ensures v.Get("episode_id") == None && v.Get("status") == Some(VStr("done"))
    ensures v.Get("kind") == Some(if c.isMovie then VStr("movie") else VNull)
    ensures v.Get("language") == Some(VStr(env.norm(c.lang)))
  {
    hide Hex, DistinctKeys, ToMap;
    var fs := StateFields(env, c, digest, ts);
    StateKeysDistinct(env, c, digest, ts);
    RegistryMember(fs, v, fs[0]);
    RegistryMember(fs, v, fs[2]);
    RegistryMember(fs, v, fs[3]);
    RegistryMember(fs, v, fs[4]);
    RegistryMember(fs, v, fs[5]);
    NoMember(fs, "episode_id");
    SameMember(v, ToValue(Obj(fs)), "episode_id");
  }

  /** The members of the two rows that no reader here looks at: where the media is, what it was made from, and when. */
  lemma RowsSayTheRest(env: Env, c: Commit, digest: seq<byte>, ts: string)
    ensures var r := ToValue(Obj(RegistryFields(env, c, digest, ts)));
      && r.Get("media_path") == Some(VStr(c.mediaPath)) && r.Get("source_lang") == Some(VStr(env.norm(c.sourceLang)))
      && (c.sourceStream.Some? ==> r.Get("source_stream") == Some(VNum(c.sourceStream.value))) && r.Get("ts") == Some(VStr(ts))
    ensures var s := ToValue(Obj(StateFields(env, c, digest, ts)));
      s.Get("detail") == Some(VStr("")) && s.Get("ts") == Some(VStr(ts))
  {
    hide Hex, CanonicalSidecar, OptionalText, DistinctKeys, ToMap;
    var fs, ss := RegistryFields(env, c, digest, ts), StateFields(env, c, digest, ts);
    var k, n := if c.isMovie then 3 else 2, |fs|;
    RegistryKeysDistinct(env, c, digest, ts);
    StateKeysDistinct(env, c, digest, ts);
    assert fs[k + 1] == Field("media_path", Str(c.mediaPath)) && fs[k + 4] == Field("source_lang", Str(env.norm(c.sourceLang)));
    assert c.sourceStream.Some? ==> fs[k + 6] == Field("source_stream", Num(c.sourceStream.value));
    assert fs[n - 1] == Field("ts", Str(ts)) && ss[1] == Field("detail", Str("")) && ss[6] == Field("ts", Str(ts));
    MemberIs(fs, fs[k + 1]);
    MemberIs(fs, fs[k + 4]);
    MemberIs(fs, fs[n - 1]);
    MemberIs(ss, ss[1]);
    MemberIs(ss, ss[6]);
    if c.sourceStream.Some? {
      MemberIs(fs, fs[k + 6]);
    }
  }

  /** Both rows carry the identity, provided normalizing a normal language changes nothing. */
  lemma RowsCarryIdentity(env: Env, c: Commit, digest: seq<byte>, ts: string)
    requires |digest| == 32 && env.norm(env.norm(c.lang)) == env.norm(c.lang)
    ensures var (id, registryRow, stateRow) := TargetRows(env, c, digest, ts);
      RowIdentity(env.norm, ToValue(registryRow)) == Some(id) && RowIdentity(env.norm, ToValue(stateRow)) == Some(id)
  {
    hide RegistryFields, StateFields, Hex;
    var (id, registryRow, stateRow) := TargetRows(env, c, digest, ts);
    RegistryMembers(env, c, digest, ts, ToValue(registryRow));
    StateMembers(env, c, digest, ts, ToValue(stateRow));
    HexRoundTrip(digest);
  }

  /** A time the typed readers take: missing, `null` or a string. */
  predicate TimeReads(v: Value) {
    OptionalString(v, "ts").Some?
  }

  /** The typed reader takes a row that is ours up to its time exactly when its time is no other type. */
  lemma RegistryReads(env: Env, c: Commit, digest: seq<byte>, ts: string, v: Value)
    requires |digest| == 32 && SameRow(v, ToValue(Obj(RegistryFields(env, c, digest, ts))))
    ensures ReadRegistry(v) ==
      if !TimeReads(v) then None
      else Some(RegistryRow(Some(env.norm(c.lang)), Some(c.episodeId), Some(CanonicalSidecar(env, c.stem, c.lang)),
                            KindText(c.isMovie), Some(digest)))
  {
    hide RegistryFields, Hex, CanonicalSidecar;
    RegistryMembers(env, c, digest, ts, v);
    HexRoundTrip(digest);
  }

  lemma StateReads(env: Env, c: Commit, digest: seq<byte>, ts: string, v: Value)
    requires |digest| == 32 && SameRow(v, ToValue(Obj(StateFields(env, c, digest, ts))))
    ensures ReadState(v) ==
      if !TimeReads(v) then None
      else Some(StateEntry(Some(c.episodeId), Some(env.norm(c.lang)), Some("done"),
                           if c.isMovie then Some("movie") else None, Some(digest)))
  {
    hide StateFields, Hex;
    StateMembers(env, c, digest, ts, v);
    HexRoundTrip(digest);
  }
}
