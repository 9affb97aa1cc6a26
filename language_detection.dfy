/** `detectLanguage` (script.js:163-207): a statistical identifier first,
    then an ordered scan of character-class patterns, then "en-US".
    The identifier (the `franc` library) is not modelled: it is a parameter
    that yields a language code, or `None` when it throws. */
module LanguageDetection {
  import opened Wrappers
  import opened JsStrings

  /** The table from the identifier's ISO 639-3 codes to the tags the
      language selector uses (script.js:169-183). */
  const LANGUAGE_MAPPING: map<string, string> := map[
    "eng" := "en-US",
    "spa" := "es-ES",
    "fra" := "fr-FR",
    "deu" := "de-DE",
    "hin" := "hi-IN",
    "jpn" := "ja-JP",
    "cmn" := "zh-CN",
    "ara" := "ar-SA",
    "rus" := "ru-RU",
    "por" := "pt-BR",
    "ita" := "it-IT",
    "nld" := "nl-NL",
    "kor" := "ko-KR"
  ]

  const DEFAULT_LANGUAGE: string := "en-US"

  /** The eight fallback patterns, each a one-character class. */
  datatype CharPattern =
    | Devanagari     // U+0900 to U+097F
    | SpanishMarks   // the Spanish accented letters and inverted marks, either case
    | FrenchMarks    // the French accented letters and ligatures, either case
    | GermanMarks    // umlauts in either case, and sharp s
    | Kana           // hiragana and katakana, U+3040 to U+30FF
    | Han            // CJK unified ideographs, U+4E00 to U+9FFF
    | ArabicScript   // U+0600 to U+06FF
    | Cyrillic       // U+0400 to U+04FF

  /** The patterns in the order `Object.entries` lists them (script.js:190-199). */
  const PATTERNS: seq<CharPattern> :=
    [Devanagari, SpanishMarks, FrenchMarks, GermanMarks, Kana, Han, ArabicScript, Cyrillic]

  function Tag(p: CharPattern): string {
    match p
    case Devanagari => "hi-IN"
    case SpanishMarks => "es-ES"
    case FrenchMarks => "fr-FR"
    case GermanMarks => "de-DE"
    case Kana => "ja-JP"
    case Han => "zh-CN"
    case ArabicScript => "ar-SA"
    case Cyrillic => "ru-RU"
  }

  /** The accented classes. With the `i` flag each letter's upper-case form
      matches too; ß has no one-character upper case, so it matches only
      itself, and ÿ pairs with U+0178. */
  predicate SpanishChar(c: char) {
    // á é í ó ú ñ ¿ ¡
    || c == '\U{E1}' || c == '\U{E9}' || c == '\U{ED}' || c == '\U{F3}' || c == '\U{FA}' || c == '\U{F1}'
    || c == '\U{BF}' || c == '\U{A1}'
    // Á É Í Ó Ú Ñ
    || c == '\U{C1}' || c == '\U{C9}' || c == '\U{CD}' || c == '\U{D3}' || c == '\U{DA}' || c == '\U{D1}'
  }

  predicate FrenchChar(c: char) {
    // à â ä ç é è ê ë î ï ô ö ù û ü ÿ œ æ
    || c == '\U{E0}' || c == '\U{E2}' || c == '\U{E4}' || c == '\U{E7}' || c == '\U{E9}' || c == '\U{E8}'
    || c == '\U{EA}' || c == '\U{EB}' || c == '\U{EE}' || c == '\U{EF}' || c == '\U{F4}' || c == '\U{F6}'
    || c == '\U{F9}' || c == '\U{FB}' || c == '\U{FC}' || c == '\U{FF}' || c == '\U{153}' || c == '\U{E6}'
    // À Â Ä Ç É È Ê Ë Î Ï Ô Ö Ù Û Ü Ÿ Œ Æ
    || c == '\U{C0}' || c == '\U{C2}' || c == '\U{C4}' || c == '\U{C7}' || c == '\U{C9}' || c == '\U{C8}'
    || c == '\U{CA}' || c == '\U{CB}' || c == '\U{CE}' || c == '\U{CF}' || c == '\U{D4}' || c == '\U{D6}'
    || c == '\U{D9}' || c == '\U{DB}' || c == '\U{DC}' || c == '\U{178}' || c == '\U{152}' || c == '\U{C6}'
  }

  const SHARP_S: char := '\U{DF}'   // ß
  const E_ACUTE: char := '\U{E9}'   // é

  predicate GermanChar(c: char) {
    // ä ö ü ß Ä Ö Ü
    || c == '\U{E4}' || c == '\U{F6}' || c == '\U{FC}' || c == SHARP_S
    || c == '\U{C4}' || c == '\U{D6}' || c == '\U{DC}'
  }

  predicate InClass(p: CharPattern, c: char) {
    match p
    case Devanagari => '\U{0900}' <= c <= '\U{097F}'
    case SpanishMarks => SpanishChar(c)
    case FrenchMarks => FrenchChar(c)
    case GermanMarks => GermanChar(c)
    case Kana => '\U{3040}' <= c <= '\U{30FF}'
    case Han => '\U{4E00}' <= c <= '\U{9FFF}'
    case ArabicScript => '\U{0600}' <= c <= '\U{06FF}'
    case Cyrillic => '\U{0400}' <= c <= '\U{04FF}'
  }

  /** `pattern.test(text)`: some character of `text` is in the class. */
  function Test(p: CharPattern, text: string): (b: bool)
    ensures b <==> exists i :: 0 <= i < |text| && InClass(p, text[i])
  {
    if text == [] then false
    else if InClass(p, text[0]) then true
    else
      var b := Test(p, text[1..]);
      assert forall i :: 1 <= i < |text| ==> text[i] == text[1..][i - 1];
      b
  }

  /** The loop over the patterns with its early return: the index of the
      first pattern that tests true, if any. */
  function FirstMatch(ps: seq<CharPattern>, text: string): (r: Option<nat>)
    ensures r.Some? ==> r.value < |ps| && Test(ps[r.value], text)
    ensures r.Some? ==> forall j :: 0 <= j < r.value ==> !Test(ps[j], text)
    ensures r.None? <==> forall j :: 0 <= j < |ps| ==> !Test(ps[j], text)
  {
    if ps == [] then None
    else if Test(ps[0], text) then Some(0)
    else
      match FirstMatch(ps[1..], text)
      case Some(k) => Some(k + 1)
      case None => None
  }

  /** The regex fallback (script.js:189-206): "en-US" exactly when no
      pattern matches. */
  function Fallback(text: string): (r: string)
    ensures r == DEFAULT_LANGUAGE <==> forall j :: 0 <= j < |PATTERNS| ==> !Test(PATTERNS[j], text)
  {
    TagsDistinct();
    match FirstMatch(PATTERNS, text)
    case Some(k) => Tag(PATTERNS[k])
    case None => DEFAULT_LANGUAGE
  }

  /** The identifier's answer is of no use: it threw, or its code is not in
      the table (`mapping[langCode]` is undefined). */
  predicate Unmapped(answer: Option<string>) {
    answer.None? || answer.value !in LANGUAGE_MAPPING
  }

  /** `detectLanguage(text)`. Blank text gives "en-US" whatever the
      identifier would say; every answer is one of the table's thirteen tags. */
  function DetectLanguage(text: string, franc: string -> Option<string>): (r: string)
    ensures Trim(text) == "" ==> r == DEFAULT_LANGUAGE
    ensures r in LANGUAGE_MAPPING.Values
    ensures r != ""
  {
    PatternTagsAreMapped();
    if Trim(text) == "" then DEFAULT_LANGUAGE
    else
      var answer := franc(text);
      if !Unmapped(answer) then LANGUAGE_MAPPING[answer.value]
      else Fallback(text)
  }

  /** Every tag the fallback can return is also a value of the table. */
  lemma PatternTagsAreMapped()
    ensures DEFAULT_LANGUAGE in LANGUAGE_MAPPING.Values
    ensures forall k :: 0 <= k < |PATTERNS| ==> Tag(PATTERNS[k]) in LANGUAGE_MAPPING.Values
    ensures forall t :: t in LANGUAGE_MAPPING.Values ==> t != ""
  {
    assert LANGUAGE_MAPPING["eng"] == "en-US";
    assert LANGUAGE_MAPPING["hin"] == "hi-IN";
    assert LANGUAGE_MAPPING["spa"] == "es-ES";
    assert LANGUAGE_MAPPING["fra"] == "fr-FR";
    assert LANGUAGE_MAPPING["deu"] == "de-DE";
    assert LANGUAGE_MAPPING["jpn"] == "ja-JP";
    assert LANGUAGE_MAPPING["cmn"] == "zh-CN";
    assert LANGUAGE_MAPPING["ara"] == "ar-SA";
    assert LANGUAGE_MAPPING["rus"] == "ru-RU";
  }

  /** A code found in the table decides the answer, and the patterns are
      not consulted. */
  lemma MappedCodeDecides(text: string, franc: string -> Option<string>)
    requires Trim(text) != "" && franc(text).Some?
    requires franc(text).value in LANGUAGE_MAPPING
    ensures DetectLanguage(text, franc) == LANGUAGE_MAPPING[franc(text).value]
  {
  }

  /** For instance the identifier's "cmn" gives "zh-CN" on any non-blank text. */
  lemma MandarinCodeGivesChinese(text: string, franc: string -> Option<string>)
    requires Trim(text) != "" && franc(text) == Some("cmn")
    ensures DetectLanguage(text, franc) == "zh-CN"
  {
  }

  /** On the fallback path the answer is the tag of the FIRST pattern, in
      the order hi-IN, es-ES, fr-FR, de-DE, ja-JP, zh-CN, ar-SA, ru-RU,
      whose class meets the text, and "en-US" when none does. */
  lemma FallbackIsFirstInPriority(text: string, franc: string -> Option<string>, k: nat)
    requires Trim(text) != "" && Unmapped(franc(text))
    requires k < |PATTERNS| && Test(PATTERNS[k], text)
    requires forall j :: 0 <= j < k ==> !Test(PATTERNS[j], text)
    ensures DetectLanguage(text, franc) == Tag(PATTERNS[k])
  {
    UnmappedFallsBack(text, franc);
    FallbackPicksFirst(text, k);
  }

  lemma FallbackPicksFirst(text: string, k: nat)
    requires k < |PATTERNS| && Test(PATTERNS[k], text)
    requires forall j :: 0 <= j < k ==> !Test(PATTERNS[j], text)
    ensures Fallback(text) == Tag(PATTERNS[k])
  {
    var r := FirstMatch(PATTERNS, text);
    assert r.Some? && r.value <= k;
  }

  lemma UnmappedFallsBack(text: string, franc: string -> Option<string>)
    requires Trim(text) != "" && Unmapped(franc(text))
    ensures DetectLanguage(text, franc) == Fallback(text)
  {
  }

  lemma NoPatternGivesDefault(text: string, franc: string -> Option<string>)
    requires Trim(text) != "" && Unmapped(franc(text))
    requires forall j :: 0 <= j < |PATTERNS| ==> !Test(PATTERNS[j], text)
    ensures DetectLanguage(text, franc) == DEFAULT_LANGUAGE
  {
  }

  /** é is in both the Spanish and the French class; Spanish is tried
      first, so a text with é and no Devanagari falls back to "es-ES". */
  lemma AcuteEGivesSpanish(text: string)
    requires E_ACUTE in text
    requires !Test(Devanagari, text)
    ensures Fallback(text) == "es-ES"
  {
    AcuteEIsSpanishMark(text);
    assert PATTERNS[0] == Devanagari && PATTERNS[1] == SpanishMarks;
    assert FirstMatch(PATTERNS, text) == Some(1);
  }

  lemma AcuteEIsSpanishMark(text: string)
    requires E_ACUTE in text
    ensures Test(SpanishMarks, text) && !AllWhitespace(text)
  {
    var i :| 0 <= i < |text| && text[i] == E_ACUTE;
    assert InClass(SpanishMarks, text[i]);
    assert !IsJsWhitespace(text[i]);
  }

  /** How the classes overlap once the `i` flag has added the capitals:
      é is both a Spanish and a French mark, and every German mark other
      than ß is already a French one. */
  lemma ClassOverlaps()
    ensures InClass(SpanishMarks, E_ACUTE) && InClass(FrenchMarks, E_ACUTE)
    ensures forall c :: InClass(GermanMarks, c) && c != SHARP_S ==> InClass(FrenchMarks, c)
    ensures !InClass(FrenchMarks, SHARP_S) && !InClass(SpanishMarks, SHARP_S)
  {
  }

  /** Which pattern an answer of the fallback comes from. */
  lemma FallbackTagIndex(text: string, k: nat)
    requires k < |PATTERNS|
    ensures Fallback(text) == Tag(PATTERNS[k]) <==> FirstMatch(PATTERNS, text) == Some(k)
  {
    TagsDistinct();
  }

  /** The eight tags differ from each other and from "en-US". */
  lemma TagsDistinct()
    ensures forall p, q :: Tag(p) == Tag(q) ==> p == q
    ensures forall p :: Tag(p) != DEFAULT_LANGUAGE
    ensures forall j, k :: 0 <= j < k < |PATTERNS| ==> PATTERNS[j] != PATTERNS[k]
  {
    forall p, q | Tag(p) == Tag(q) ensures p == q {
      assert Tag(p)[0] == Tag(q)[0];
    }
    forall p ensures Tag(p) != DEFAULT_LANGUAGE {
      assert Tag(p)[0] != DEFAULT_LANGUAGE[0] || Tag(p)[1] != DEFAULT_LANGUAGE[1];
    }
  }

  /** The French class already holds ä, ö, ü and their capitals, so the
      German pattern can only be the first to match through ß: the fallback
      answers "de-DE" exactly when the text has ß and meets none of the
      Devanagari, Spanish and French classes. */
  lemma GermanOnlyThroughSharpS(text: string)
    ensures Fallback(text) == "de-DE" <==>
              SHARP_S in text && !Test(Devanagari, text) && !Test(SpanishMarks, text)
              && !Test(FrenchMarks, text)
  {
    FallbackTagIndex(text, 3);
    assert Tag(PATTERNS[3]) == "de-DE";
    if Fallback(text) == "de-DE" {
      GermanFirstNeedsSharpS(text);
    } else if SHARP_S in text && !Test(Devanagari, text) && !Test(SpanishMarks, text)
              && !Test(FrenchMarks, text) {
      SharpSMakesGermanFirst(text);
    }
  }

  lemma GermanFirstNeedsSharpS(text: string)
    requires FirstMatch(PATTERNS, text) == Some(3)
    ensures SHARP_S in text && !Test(Devanagari, text) && !Test(SpanishMarks, text)
            && !Test(FrenchMarks, text)
  {
    assert PATTERNS[..4] == [Devanagari, SpanishMarks, FrenchMarks, GermanMarks];
    assert !Test(PATTERNS[2], text);
    assert Test(PATTERNS[3], text);
    var i :| 0 <= i < |text| && InClass(GermanMarks, text[i]);
    assert text[i] == SHARP_S;
  }

  lemma SharpSMakesGermanFirst(text: string)
    requires SHARP_S in text && !Test(Devanagari, text) && !Test(SpanishMarks, text)
    requires !Test(FrenchMarks, text)
    ensures FirstMatch(PATTERNS, text) == Some(3)
  {
    var i :| 0 <= i < |text| && text[i] == SHARP_S;
    assert InClass(GermanMarks, text[i]);
    assert PATTERNS[..4] == [Devanagari, SpanishMarks, FrenchMarks, GermanMarks];
    FallbackPicksFirst(text, 3);
    var r := FirstMatch(PATTERNS, text);
    assert r.Some? && r.value <= 3;
    assert r.value != 0 && r.value != 1 && r.value != 2;
  }

  /** Japanese text mixes Han ideographs with kana; the kana pattern is
      tried before the Han one, so "日本語のテキスト" falls back to "ja-JP"
      and "中文文本", with no kana, to "zh-CN". */
  const JAPANESE_SAMPLE: string :=
    "\U{65E5}\U{672C}\U{8A9E}\U{306E}\U{30C6}\U{30AD}\U{30B9}\U{30C8}"   // 日本語のテキスト
  const CHINESE_SAMPLE: string := "\U{4E2D}\U{6587}\U{6587}\U{672C}"          // 中文文本

  lemma JapaneseSampleGivesJapanese(franc: string -> Option<string>)
    requires Unmapped(franc(JAPANESE_SAMPLE))
    ensures DetectLanguage(JAPANESE_SAMPLE, franc) == "ja-JP"
  {
    JapaneseSampleFallsBackToKana();
    UnmappedFallsBack(JAPANESE_SAMPLE, franc);
  }

  lemma JapaneseSampleFallsBackToKana()
    ensures Trim(JAPANESE_SAMPLE) != "" && Fallback(JAPANESE_SAMPLE) == "ja-JP"
  {
    var text := JAPANESE_SAMPLE;
    assert !IsJsWhitespace(text[0]);
    TrimEmptyIffBlank(text);
    assert InClass(Kana, text[3]);
    assert forall i :: 0 <= i < |text| ==> text[i] >= '\U{3040}';
    NoLatinOrIndicMarks(text);
    FallbackPicksFirst(text, 4);
  }

  lemma ChineseSampleGivesChinese(franc: string -> Option<string>)
    requires Unmapped(franc(CHINESE_SAMPLE))
    ensures DetectLanguage(CHINESE_SAMPLE, franc) == "zh-CN"
  {
    ChineseSampleFallsBackToHan();
    UnmappedFallsBack(CHINESE_SAMPLE, franc);
  }

  lemma ChineseSampleFallsBackToHan()
    ensures Trim(CHINESE_SAMPLE) != "" && Fallback(CHINESE_SAMPLE) == "zh-CN"
  {
    var text := CHINESE_SAMPLE;
    assert !IsJsWhitespace(text[0]);
    TrimEmptyIffBlank(text);
    assert InClass(Han, text[0]);
    assert forall i :: 0 <= i < |text| ==> text[i] >= '\U{4E00}';
    NoLatinOrIndicMarks(text);
    assert !Test(Kana, text);
    FallbackPicksFirst(text, 5);
  }

  /** Text made only of characters from U+3040 up meets none of the first
      four classes. */
  lemma NoLatinOrIndicMarks(text: string)
    requires forall i :: 0 <= i < |text| ==> text[i] >= '\U{3040}'
    ensures forall k :: 0 <= k < 4 ==> !Test(PATTERNS[k], text)
  {
    forall k | 0 <= k < 4 ensures !Test(PATTERNS[k], text) {
      forall i | 0 <= i < |text| ensures !InClass(PATTERNS[k], text[i]) {
      }
    }
  }
}
