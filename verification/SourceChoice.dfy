/** Which audio track is transcribed for a target language. */
module SourceChoice {
  import opened Wrappers

  datatype AudioStream = AudioStream(index: u32, language: Option<string>, title: Option<string>)

  datatype AudioChoice = AudioChoice(streamIndex: u32, asrLang: Option<string>, needsTranslate: bool)

  /** `normalize_lang`, `identity_accepts` and `is_commentary`. */
  datatype Rules = Rules(norm: string -> string, accepts: string -> bool, commentary: AudioStream -> bool)

  /** The language a tag names; only that may identify a track. */
  function Named(r: Rules, s: AudioStream): Option<string> {
    var tag :- s.language;
    if r.accepts(r.norm(tag)) then Some(r.norm(tag)) else None
  }

  /** A normalized wish that is not empty. */
  function Wish(r: Rules, lang: string): Option<string> {
    if r.norm(lang) == "" then None else Some(r.norm(lang))
  }

  predicate Matches(r: Rules, s: AudioStream, want: string) {
    !r.commentary(s) && Named(r, s) == Some(want)
  }

  predicate UntaggedOrEnglish(r: Rules, s: AudioStream) {
    !r.commentary(s) && (Named(r, s).None? || Named(r, s) == Some("en"))
  }

  /** First stream that passes a test. */
  function FindStream(streams: seq<AudioStream>, test: AudioStream -> bool): (i: Option<nat>)
    ensures i.Some? ==> i.value < |streams| && test(streams[i.value])
    ensures forall j :: 0 <= j < (if i.Some? then i.value else |streams|) ==> !test(streams[j])
  {
    if streams == [] then None
    else if test(streams[0]) then Some(0)
    else
      var rest := FindStream(streams[1..], test);
      assert forall j :: 0 < j < |streams| ==> streams[j] == streams[1..][j - 1];
      if rest.Some? then Some(rest.value + 1) else None
  }

  function FindWish(r: Rules, streams: seq<AudioStream>, want: Option<string>): (i: Option<nat>)
    ensures i.Some? ==> i.value < |streams|
  {
    if want.None? then None else FindStream(streams, s => Matches(r, s, want.value))
  }

  function FindUntagged(r: Rules, streams: seq<AudioStream>): (i: Option<nat>)
    ensures i.Some? ==> i.value < |streams| && UntaggedOrEnglish(r, streams[i.value])
    ensures forall j :: 0 <= j < (if i.Some? then i.value else |streams|) ==> !UntaggedOrEnglish(r, streams[j])
  {
    FindStream(streams, s => UntaggedOrEnglish(r, s))
  }

  function FindPlain(r: Rules, streams: seq<AudioStream>): (i: Option<nat>)
    ensures i.Some? ==> i.value < |streams| && !r.commentary(streams[i.value])
    ensures forall j :: 0 <= j < (if i.Some? then i.value else |streams|) ==> r.commentary(streams[j])
  {
    FindStream(streams, s => !r.commentary(s))
  }

  /** The stages of the search, one after another. */
  function Picked(r: Rules, streams: seq<AudioStream>, target: Option<string>, original: Option<string>): (i: nat)
    requires streams != []
    ensures i < |streams|
  {
    var a := FindWish(r, streams, target);
    if a.Some? then a.value else
      var b := FindWish(r, streams, if original == target then None else original);
      if b.Some? then b.value else
        var c := FindWish(r, streams, Some("ja"));
        if c.Some? then c.value else
          var d := FindUntagged(r, streams);
          if d.Some? then d.value else
            var e := FindPlain(r, streams);
            if e.Some? then e.value else 0
  }

  /** `choose_source`. */
  function ChooseSource(r: Rules, streams: seq<AudioStream>, targetLang: string, originalLang: Option<string>)
    : (c: Option<AudioChoice>)
    ensures c.Some? <==> streams != []
  {
    if streams == [] then None
    else
      var target := Wish(r, targetLang);
      var original := if originalLang.Some? then Wish(r, originalLang.value) else None;
      var picked := streams[Picked(r, streams, target, original)];
      var lang := Named(r, picked);
      Some(AudioChoice(picked.index, lang, lang.None? || lang != target))
  }

  /* ---- One minimum ---- */

  /** The stream has a tag whose normal form names a language. */
  predicate Tagged(r: Rules, s: AudioStream) {
    s.language.Some? && r.accepts(r.norm(s.language.value))
  }

  predicate Speaks(r: Rules, s: AudioStream, l: string) {
    Tagged(r, s) && r.norm(s.language.value) == l
  }

  /** Target, original, Japanese, untagged or English, other, commentary. */
  function Class(r: Rules, s: AudioStream, target: Option<string>, original: Option<string>): nat {
    if r.commentary(s) then 5
    else if target.Some? && Speaks(r, s, target.value) then 0
    else if original.Some? && Speaks(r, s, original.value) then 1
    else if Speaks(r, s, "ja") then 2
    else if !Tagged(r, s) || Speaks(r, s, "en") then 3
    else 4
  }

  /** The earliest stream of the lowest class. */
  ghost predicate IsChoice(r: Rules, streams: seq<AudioStream>, target: Option<string>, original: Option<string>, i: nat) {
    && i < |streams|
    && (forall j :: 0 <= j < |streams| ==> Class(r, streams[i], target, original) <= Class(r, streams[j], target, original))
    && (forall j :: 0 <= j < i ==> Class(r, streams[i], target, original) < Class(r, streams[j], target, original))
  }

  predicate Wanted(r: Rules, s: AudioStream, want: Option<string>) {
    want.Some? && Matches(r, s, want.value)
  }

  /** The class of a stream says which stages it passes. */
  lemma ClassByStages(r: Rules, s: AudioStream, target: Option<string>, original: Option<string>)
    ensures Class(r, s, target, original) ==
      if Wanted(r, s, target) then 0
      else if Wanted(r, s, if original == target then None else original) then 1
      else if Wanted(r, s, Some("ja")) then 2
      else if UntaggedOrEnglish(r, s) then 3
      else if !r.commentary(s) then 4 else 5
  {
    hide Named;
    NamedExactly(r, s);
  }

  /** What a stream is named is what its tag says. */
  lemma NamedExactly(r: Rules, s: AudioStream)
    ensures Named(r, s).None? <==> !Tagged(r, s)
    ensures Tagged(r, s) ==> Named(r, s) == Some(r.norm(s.language.value))
  {
  }

  lemma FindWishFirst(r: Rules, streams: seq<AudioStream>, want: Option<string>)
    ensures var i := FindWish(r, streams, want);
      && (i.Some? ==> Wanted(r, streams[i.value], want))
      && forall j :: 0 <= j < (if i.Some? then i.value else |streams|) ==> !Wanted(r, streams[j], want)
  {
    hide Matches;
  }

  /** The staged search finds the earliest stream of the lowest class. */
  lemma PickedIsMinimum(r: Rules, streams: seq<AudioStream>, target: Option<string>, original: Option<string>)
    requires streams != []
    ensures IsChoice(r, streams, target, original, Picked(r, streams, target, original))
  {
    hide Class, Wanted, UntaggedOrEnglish, FindWish, FindUntagged, FindPlain;
    forall j | 0 <= j < |streams|
      ensures ClassKnown(r, streams, target, original, j)
    {
      ClassByStages(r, streams[j], target, original);
    }
    FindWishFirst(r, streams, target);
    FindWishFirst(r, streams, if original == target then None else original);
    FindWishFirst(r, streams, Some("ja"));
    var i := Picked(r, streams, target, original);
    assert ClassKnown(r, streams, target, original, i);
    forall j | 0 <= j < |streams|
      ensures Class(r, streams[i], target, original) <= Class(r, streams[j], target, original)
      ensures j < i ==> Class(r, streams[i], target, original) < Class(r, streams[j], target, original)
    {
      assert ClassKnown(r, streams, target, original, j);
    }
  }

  predicate ClassKnown(r: Rules, streams: seq<AudioStream>, target: Option<string>, original: Option<string>, j: nat) {
    j < |streams| &&
    Class(r, streams[j], target, original) ==
      if Wanted(r, streams[j], target) then 0
      else if Wanted(r, streams[j], if original == target then None else original) then 1
      else if Wanted(r, streams[j], Some("ja")) then 2
      else if UntaggedOrEnglish(r, streams[j]) then 3
      else if !r.commentary(streams[j]) then 4 else 5
  }

  lemma NoneIsBetter(r: Rules, streams: seq<AudioStream>, target: Option<string>, original: Option<string>, i: nat, k: nat)
    requires IsChoice(r, streams, target, original, i) && k < |streams|
    ensures Class(r, streams[i], target, original) <= Class(r, streams[k], target, original)
    ensures k < i ==> Class(r, streams[i], target, original) < Class(r, streams[k], target, original)
  {
    hide Class;
  }

  /** There is only one such stream. */
  lemma ChoiceIsUnique(r: Rules, streams: seq<AudioStream>, target: Option<string>, original: Option<string>, i: nat, k: nat)
    requires IsChoice(r, streams, target, original, i) && IsChoice(r, streams, target, original, k)
    ensures i == k
  {
    hide Class;
    NoneIsBetter(r, streams, target, original, i, k);
    NoneIsBetter(r, streams, target, original, k, i);
  }

  /** What the choice carries: the tag's own language, and no translation exactly from the target itself. */
  lemma ChoiceExactly(r: Rules, streams: seq<AudioStream>, targetLang: string, originalLang: Option<string>) returns (i: nat)
    requires streams != []
    ensures var target := if r.norm(targetLang) == "" then None else Some(r.norm(targetLang));
      var original := if originalLang == None || r.norm(originalLang.value) == "" then None else Some(r.norm(originalLang.value));
      && IsChoice(r, streams, target, original, i)
      && var c := ChooseSource(r, streams, targetLang, originalLang).value;
         && ChooseSource(r, streams, targetLang, originalLang).Some?
         && c.streamIndex == streams[i].index
         && c.asrLang == (if Tagged(r, streams[i]) then Some(r.norm(streams[i].language.value)) else None)
         && (!c.needsTranslate <==> target.Some? && Speaks(r, streams[i], target.value))
         && (r.commentary(streams[i]) ==> forall j :: 0 <= j < |streams| ==> r.commentary(streams[j]))
         && ((exists j :: 0 <= j < |streams| && target.Some? && !r.commentary(streams[j]) && Speaks(r, streams[j], target.value)) ==>
               !c.needsTranslate)
  {
    hide Named, Picked, UntaggedOrEnglish;
    var target := Wish(r, targetLang);
    var original := if originalLang.Some? then Wish(r, originalLang.value) else None;
    i := Picked(r, streams, target, original);
    PickedIsMinimum(r, streams, target, original);
    NamedExactly(r, streams[i]);
    forall j | 0 <= j < |streams|
      ensures target.Some? && !r.commentary(streams[j]) && Speaks(r, streams[j], target.value) ==> Speaks(r, streams[i], target.value)
      ensures r.commentary(streams[i]) ==> r.commentary(streams[j])
    {
      assert Class(r, streams[i], target, original) <= Class(r, streams[j], target, original);
    }
  }
}
