/** The language tables of the program, and that they meet what normalization needs. */
module LangTables {
  import opened Lang
  import SidecarPaths

  /* ---- A shape every row has ---- */

  /** A code is two lower-case letters, never `jp` or `jv`, which stand for other codes, or one of two longer codes. */
  predicate CodeShape(c: string) {
    || (|c| == 2 && 'a' <= c[0] <= 'z' && 'a' <= c[1] <= 'z' && !(c[0] == 'j' && (c[1] == 'p' || c[1] == 'v')))
    || LongCode(c)
  }

  predicate LongCode(c: string) {
    |c| == 3 && ((c[0] == 'y' && c[1] == 'u' && c[2] == 'e') || (c[0] == 'h' && c[1] == 'a' && c[2] == 'w'))
  }

  /** A spelling is the code, or too long to be one, or one of the two short spellings. */
  predicate RowShape(k: string, v: string) {
    CodeShape(v) && (k == v || (|k| >= 3 && !LongCode(k)) || (|k| == 2 && k[0] == 'j' && (k[1] == 'p' || k[1] == 'v')))
  }

  predicate RowsShaped(rows: Rows) {
    forall i :: 0 <= i < |rows| ==> RowShape(rows[i].0, rows[i].1)
  }

  predicate NamesShaped(rows: Rows) {
    forall i :: 0 <= i < |rows| ==> RowShape(rows[i].1, rows[i].0)
  }

  const ALIASES_1: Rows := [
    ("ja", "ja"), ("jp", "ja"), ("jpn", "ja"), ("japanese", "ja"),
    ("en", "en"), ("eng", "en"), ("enm", "en"), ("english", "en"),
    ("id", "id"), ("ind", "id"), ("indonesian", "id"), ("fr", "fr"),
    ("fre", "fr"), ("fra", "fr"), ("french", "fr"), ("de", "de"),
    ("ger", "de"), ("deu", "de"), ("german", "de"), ("es", "es")
  ]

  const ALIASES_2: Rows := [
    ("spa", "es"), ("spanish", "es"), ("it", "it"), ("ita", "it"),
    ("italian", "it"), ("pt", "pt"), ("por", "pt"), ("portuguese", "pt"),
    ("nl", "nl"), ("dut", "nl"), ("nld", "nl"), ("dutch", "nl"),
    ("ru", "ru"), ("rus", "ru"), ("russian", "ru"), ("ko", "ko"),
    ("kor", "ko"), ("korean", "ko"), ("zh", "zh"), ("zho", "zh")
  ]

  const ALIASES_3: Rows := [
    ("chi", "zh"), ("chinese", "zh"), ("pl", "pl"), ("pol", "pl"),
    ("polish", "pl"), ("tr", "tr"), ("tur", "tr"), ("turkish", "tr"),
    ("ar", "ar"), ("ara", "ar"), ("arabic", "ar"), ("hi", "hi"),
    ("hin", "hi"), ("hindi", "hi"), ("th", "th"), ("tha", "th"),
    ("thai", "th"), ("vi", "vi"), ("vie", "vi"), ("vietnamese", "vi")
  ]

  const ALIASES_4: Rows := [
    ("sv", "sv"), ("swe", "sv"), ("swedish", "sv"), ("no", "no"),
    ("nor", "no"), ("norwegian", "no"), ("da", "da"), ("dan", "da"),
    ("danish", "da"), ("fi", "fi"), ("fin", "fi"), ("finnish", "fi"),
    ("cs", "cs"), ("ces", "cs"), ("cze", "cs"), ("czech", "cs"),
    ("el", "el"), ("ell", "el"), ("gre", "el"), ("greek", "el")
  ]

  const ALIASES_5: Rows := [
    ("he", "he"), ("heb", "he"), ("hebrew", "he"), ("hu", "hu"),
    ("hun", "hu"), ("hungarian", "hu"), ("ro", "ro"), ("ron", "ro"),
    ("rum", "ro"), ("romanian", "ro"), ("uk", "uk"), ("ukr", "uk"),
    ("ukrainian", "uk"), ("fa", "fa"), ("fas", "fa"), ("per", "fa"),
    ("persian", "fa"), ("ms", "ms"), ("msa", "ms"), ("may", "ms")
  ]

  const ALIASES_6: Rows := [
    ("malay", "ms"), ("fil", "tl"), ("tgl", "tl"), ("tagalog", "tl"),
    ("filipino", "tl"), ("jv", "jw")
  ]

  const ALIASES: Rows := ALIASES_1 + ALIASES_2 + ALIASES_3 + ALIASES_4 + ALIASES_5 + ALIASES_6

  const REPORTED_1: Rows := [
    ("cantonese", "yue"), ("castilian", "es"), ("farsi", "fa"), ("flemish", "nl"),
    ("malayalam", "ml"), ("mandarin", "zh"), ("tamil", "ta"), ("amharic", "am"),
    ("azerbaijani", "az"), ("bengali", "bn"), ("bosnian", "bs"), ("bulgarian", "bg"),
    ("burmese", "my"), ("catalan", "ca"), ("croatian", "hr"), ("estonian", "et"),
    ("galician", "gl"), ("georgian", "ka"), ("gujarati", "gu"), ("hausa", "ha")
  ]

  const REPORTED_2: Rows := [
    ("icelandic", "is"), ("kannada", "kn"), ("kazakh", "kk"), ("khmer", "km"),
    ("lao", "lo"), ("latvian", "lv"), ("lithuanian", "lt"), ("macedonian", "mk"),
    ("malagasy", "mg"), ("maori", "mi"), ("marathi", "mr"), ("mongolian", "mn"),
    ("nepali", "ne"), ("pashto", "ps"), ("punjabi", "pa"), ("serbian", "sr"),
    ("sindhi", "sd"), ("sinhala", "si"), ("slovak", "sk"), ("slovenian", "sl")
  ]

  const REPORTED_3: Rows := [
    ("somali", "so"), ("sundanese", "su"), ("swahili", "sw"), ("tajik", "tg"),
    ("tatar", "tt"), ("telugu", "te"), ("turkmen", "tk"), ("urdu", "ur"),
    ("uzbek", "uz"), ("welsh", "cy"), ("yoruba", "yo"), ("armenian", "hy")
  ]

  const REPORTED: Rows := REPORTED_1 + REPORTED_2 + REPORTED_3

  const ISO_1: Rows := [
    ("afr", "af"), ("alb", "sq"), ("amh", "am"), ("arm", "hy"),
    ("asm", "as"), ("aze", "az"), ("bak", "ba"), ("baq", "eu"),
    ("bel", "be"), ("ben", "bn"), ("bod", "bo"), ("bos", "bs"),
    ("bre", "br"), ("bul", "bg"), ("bur", "my"), ("cat", "ca"),
    ("cym", "cy"), ("est", "et"), ("eus", "eu"), ("fao", "fo")
  ]

  const ISO_2: Rows := [
    ("geo", "ka"), ("glg", "gl"), ("guj", "gu"), ("hat", "ht"),
    ("hau", "ha"), ("hrv", "hr"), ("hye", "hy"), ("ice", "is"),
    ("isl", "is"), ("jav", "jw"), ("kan", "kn"), ("kat", "ka"),
    ("kaz", "kk"), ("khm", "km"), ("lat", "la"), ("lav", "lv"),
    ("lin", "ln"), ("lit", "lt"), ("ltz", "lb"), ("mac", "mk")
  ]

  const ISO_3: Rows := [
    ("mal", "ml"), ("mao", "mi"), ("mar", "mr"), ("mkd", "mk"),
    ("mlg", "mg"), ("mlt", "mt"), ("mon", "mn"), ("mri", "mi"),
    ("mya", "my"), ("nep", "ne"), ("nno", "nn"), ("oci", "oc"),
    ("pan", "pa"), ("pus", "ps"), ("san", "sa"), ("sin", "si"),
    ("slk", "sk"), ("slo", "sk"), ("slv", "sl"), ("sna", "sn")
  ]

  const ISO_4: Rows := [
    ("snd", "sd"), ("som", "so"), ("sqi", "sq"), ("srp", "sr"),
    ("sun", "su"), ("swa", "sw"), ("tam", "ta"), ("tat", "tt"),
    ("tel", "te"), ("tgk", "tg"), ("tib", "bo"), ("tuk", "tk"),
    ("urd", "ur"), ("uzb", "uz"), ("wel", "cy"), ("yid", "yi"),
    ("yor", "yo")
  ]

  const ISO: Rows := ISO_1 + ISO_2 + ISO_3 + ISO_4

  // Whisper's own names, already collapsed to letters and digits.
  const WIRE_1: Rows := [
    ("af", "afrikaans"), ("am", "amharic"), ("ar", "arabic"), ("as", "assamese"),
    ("az", "azerbaijani"), ("ba", "bashkir"), ("be", "belarusian"), ("bg", "bulgarian"),
    ("bn", "bengali"), ("bo", "tibetan"), ("br", "breton"), ("bs", "bosnian"),
    ("ca", "catalan"), ("cs", "czech"), ("cy", "welsh"), ("da", "danish"),
    ("de", "german"), ("el", "greek"), ("en", "english"), ("es", "spanish")
  ]

  const WIRE_2: Rows := [
    ("et", "estonian"), ("eu", "basque"), ("fa", "persian"), ("fi", "finnish"),
    ("fo", "faroese"), ("fr", "french"), ("gl", "galician"), ("gu", "gujarati"),
    ("ha", "hausa"), ("haw", "hawaiian"), ("he", "hebrew"), ("hi", "hindi"),
    ("hr", "croatian"), ("ht", "haitiancreole"), ("hu", "hungarian"), ("hy", "armenian"),
    ("id", "indonesian"), ("is", "icelandic"), ("it", "italian"), ("ja", "japanese")
  ]

  const WIRE_3: Rows := [
    ("jw", "javanese"), ("ka", "georgian"), ("kk", "kazakh"), ("km", "khmer"),
    ("kn", "kannada"), ("ko", "korean"), ("la", "latin"), ("lb", "luxembourgish"),
    ("ln", "lingala"), ("lo", "lao"), ("lt", "lithuanian"), ("lv", "latvian"),
    ("mg", "malagasy"), ("mi", "maori"), ("mk", "macedonian"), ("ml", "malayalam"),
    ("mn", "mongolian"), ("mr", "marathi"), ("ms", "malay"), ("mt", "maltese")
  ]

  const WIRE_4: Rows := [
    ("my", "myanmar"), ("ne", "nepali"), ("nl", "dutch"), ("nn", "nynorsk"),
    ("no", "norwegian"), ("oc", "occitan"), ("pa", "punjabi"), ("pl", "polish"),
    ("ps", "pashto"), ("pt", "portuguese"), ("ro", "romanian"), ("ru", "russian"),
    ("sa", "sanskrit"), ("sd", "sindhi"), ("si", "sinhala"), ("sk", "slovak"),
    ("sl", "slovenian"), ("sn", "shona"), ("so", "somali"), ("sq", "albanian")
  ]

  const WIRE_5: Rows := [
    ("sr", "serbian"), ("su", "sundanese"), ("sv", "swedish"), ("sw", "swahili"),
    ("ta", "tamil"), ("te", "telugu"), ("tg", "tajik"), ("th", "thai"),
    ("tk", "turkmen"), ("tl", "tagalog"), ("tr", "turkish"), ("tt", "tatar"),
    ("uk", "ukrainian"), ("ur", "urdu"), ("uz", "uzbek"), ("vi", "vietnamese"),
    ("yi", "yiddish"), ("yo", "yoruba"), ("yue", "cantonese"), ("zh", "chinese")
  ]

  const WIRE: Rows := WIRE_1 + WIRE_2 + WIRE_3 + WIRE_4 + WIRE_5

  const TABLES: Tables := Tables(ALIASES, REPORTED, ISO, WIRE)

  lemma Aliases1Shaped()
    ensures RowsShaped(ALIASES_1)
  {
  }

  lemma Aliases2Shaped()
    ensures RowsShaped(ALIASES_2)
  {
  }

  lemma Aliases3Shaped()
    ensures RowsShaped(ALIASES_3)
  {
  }

  lemma Aliases4Shaped()
    ensures RowsShaped(ALIASES_4)
  {
  }

  lemma Aliases5Shaped()
    ensures RowsShaped(ALIASES_5)
  {
  }

  lemma Aliases6Shaped()
    ensures RowsShaped(ALIASES_6)
  {
  }

  lemma Reported1Shaped()
    ensures RowsShaped(REPORTED_1)
  {
  }

  lemma Reported2Shaped()
    ensures RowsShaped(REPORTED_2)
  {
  }

  lemma Reported3Shaped()
    ensures RowsShaped(REPORTED_3)
  {
  }

  lemma Iso1Shaped()
    ensures RowsShaped(ISO_1)
  {
  }

  lemma Iso2Shaped()
    ensures RowsShaped(ISO_2)
  {
  }

  lemma Iso3Shaped()
    ensures RowsShaped(ISO_3)
  {
  }

  lemma Iso4Shaped()
    ensures RowsShaped(ISO_4)
  {
  }

  lemma Wire1Shaped()
    ensures NamesShaped(WIRE_1)
  {
  }

  lemma Wire2Shaped()
    ensures NamesShaped(WIRE_2)
  {
  }

  lemma Wire3Shaped()
    ensures NamesShaped(WIRE_3)
  {
  }

  lemma Wire4Shaped()
    ensures NamesShaped(WIRE_4)
  {
  }

  lemma Wire5Shaped()
    ensures NamesShaped(WIRE_5)
  {
  }

  lemma ShapedConcat(a: Rows, b: Rows)
    ensures RowsShaped(a) && RowsShaped(b) ==> RowsShaped(a + b)
    ensures NamesShaped(a) && NamesShaped(b) ==> NamesShaped(a + b)
  {
  }

  lemma AliasesShaped()
    ensures RowsShaped(ALIASES)
  {
    Aliases1Shaped();
    Aliases2Shaped();
    Aliases3Shaped();
    Aliases4Shaped();
    Aliases5Shaped();
    Aliases6Shaped();
    ShapedConcat(ALIASES_1, ALIASES_2);
    ShapedConcat(ALIASES_1 + ALIASES_2, ALIASES_3);
    ShapedConcat(ALIASES_1 + ALIASES_2 + ALIASES_3, ALIASES_4);
    ShapedConcat(ALIASES_1 + ALIASES_2 + ALIASES_3 + ALIASES_4, ALIASES_5);
    ShapedConcat(ALIASES_1 + ALIASES_2 + ALIASES_3 + ALIASES_4 + ALIASES_5, ALIASES_6);
  }

  lemma ReportedShaped()
    ensures RowsShaped(REPORTED)
  {
    Reported1Shaped();
    Reported2Shaped();
    Reported3Shaped();
    ShapedConcat(REPORTED_1, REPORTED_2);
    ShapedConcat(REPORTED_1 + REPORTED_2, REPORTED_3);
  }

  lemma IsoShaped()
    ensures RowsShaped(ISO)
  {
    Iso1Shaped();
    Iso2Shaped();
    Iso3Shaped();
    Iso4Shaped();
    ShapedConcat(ISO_1, ISO_2);
    ShapedConcat(ISO_1 + ISO_2, ISO_3);
    ShapedConcat(ISO_1 + ISO_2 + ISO_3, ISO_4);
  }

  lemma WireShaped()
    ensures NamesShaped(WIRE)
  {
    Wire1Shaped();
    Wire2Shaped();
    Wire3Shaped();
    Wire4Shaped();
    Wire5Shaped();
    ShapedConcat(WIRE_1, WIRE_2);
    ShapedConcat(WIRE_1 + WIRE_2, WIRE_3);
    ShapedConcat(WIRE_1 + WIRE_2 + WIRE_3, WIRE_4);
    ShapedConcat(WIRE_1 + WIRE_2 + WIRE_3 + WIRE_4, WIRE_5);
  }

  predicate PlainKeys(rows: Rows) {
    forall i :: 0 <= i < |rows| ==> LowerAlnum(rows[i].0)
  }

  lemma PlainConcat(a: Rows, b: Rows)
    ensures PlainKeys(a) && PlainKeys(b) ==> PlainKeys(a + b)
  {
  }

  lemma Aliases1Plain()
    ensures PlainKeys(ALIASES_1)
  {
  }

  lemma Aliases2Plain()
    ensures PlainKeys(ALIASES_2)
  {
  }

  lemma Aliases3Plain()
    ensures PlainKeys(ALIASES_3)
  {
  }

  lemma Aliases4Plain()
    ensures PlainKeys(ALIASES_4)
  {
  }

  lemma Aliases5Plain()
    ensures PlainKeys(ALIASES_5)
  {
  }

  lemma Aliases6Plain()
    ensures PlainKeys(ALIASES_6)
  {
  }

  lemma AliasesPlain()
    ensures PlainKeys(ALIASES)
  {
    Aliases1Plain();
    Aliases2Plain();
    Aliases3Plain();
    Aliases4Plain();
    Aliases5Plain();
    Aliases6Plain();
    PlainConcat(ALIASES_1, ALIASES_2);
    PlainConcat(ALIASES_1 + ALIASES_2, ALIASES_3);
    PlainConcat(ALIASES_1 + ALIASES_2 + ALIASES_3, ALIASES_4);
    PlainConcat(ALIASES_1 + ALIASES_2 + ALIASES_3 + ALIASES_4, ALIASES_5);
    PlainConcat(ALIASES_1 + ALIASES_2 + ALIASES_3 + ALIASES_4 + ALIASES_5, ALIASES_6);
  }

  /* ---- The tables are good ---- */

  lemma HasRowIsShaped(t: Tables, k: string, v: string)
    requires RowsShaped(t.aliases) && RowsShaped(t.reported) && RowsShaped(t.iso) && NamesShaped(t.wire)
    requires HasRow(t, k, v)
    ensures RowShape(k, v)
  {
    hide RowShape;
  }

  /** A code that is also a spelling spells itself: no two different codes have spellings of this shape in common. */
  lemma CodesSpellThemselves(k: string, v: string, w: string)
    requires RowShape(k, v) && RowShape(w, k)
    ensures k == v && LowerAlnum(v)
  {
  }

  lemma ShapedTablesOk(t: Tables)
    requires RowsShaped(t.aliases) && RowsShaped(t.reported) && RowsShaped(t.iso) && NamesShaped(t.wire)
    ensures TablesOk(t)
  {
    hide HasRow, RowShape, LowerAlnum;
    forall k, v | HasRow(t, k, v)
      ensures LowerAlnum(v)
    {
      HasRowIsShaped(t, k, v);
      CodeIsPlain(k, v);
    }
    forall k, v, w | HasRow(t, k, v) && HasRow(t, w, k)
      ensures v == k
    {
      HasRowIsShaped(t, k, v);
      HasRowIsShaped(t, w, k);
      CodesSpellThemselves(k, v, w);
    }
  }

  lemma CodeIsPlain(k: string, v: string)
    requires RowShape(k, v)
    ensures LowerAlnum(v)
  {
  }

  /** The tables of the program satisfy what `normalize_lang` needs. */
  lemma TablesAreOk()
    ensures TablesOk(TABLES) && SidecarPaths.PlainAliases(TABLES)
  {
    hide RowsShaped, NamesShaped, TablesOk;
    AliasesShaped();
    ReportedShaped();
    IsoShaped();
    WireShaped();
    AliasesPlain();
    ShapedTablesOk(TABLES);
  }

  /** With them both normalizers are idempotent over all texts. */
  lemma ProgramNormalizesIdempotently(u: Text, x: string)
    requires TextOk(u) && LowersAll(u)
    ensures NormalizeLang(u, TABLES, NormalizeLang(u, TABLES, x)) == NormalizeLang(u, TABLES, x)
    ensures NormalizeReportedLang(u, TABLES, NormalizeReportedLang(u, TABLES, x)) == NormalizeReportedLang(u, TABLES, x)
  {
    hide NormalizeLang, NormalizeReportedLang, TablesOk;
    TablesAreOk();
    NormalizationIsIdempotent(u, TABLES, x);
  }
}
