# ultimate-tts: a Dafny model of the page script

The browser app reads text aloud using the platform's speech synthesis. Its
page script, `script.js`, has five parts that this project models and proves
things about:

- **Language detection** (`detectLanguage`). Blank text gives `en-US`.
  Otherwise the statistical identifier (the `franc` library) is asked for an
  ISO 639-3 code, and a 13-entry table maps it to a selector tag. If the
  identifier throws, or its code is not in the table, eight one-character
  regular expressions are tried in a fixed order. The first one that matches
  decides; if none matches the answer is `en-US`.
- **The voice selector** (`updateVoiceList`, `getSelectedVoice`). The voices
  are stable-sorted with a comparator: voices of the selected language come
  first, the rest go by language code. One `<option>` is made per voice, and
  it is marked selected exactly when its voice has the selected language. An
  empty voice list gives a single "No voices available" placeholder. A voice
  is looked up by name with `find`, so the first voice with that name wins,
  and the lookup gives nothing when no voice has that name.
- **SSML tag insertion** (`insertSsmlTag`). The selection of the SSML
  textarea is replaced by `<break params/>`, or by
  `<tag params>selection</tag>`. An empty selection is wrapped as the
  placeholder `text`. The text on either side of the selection is kept. The
  cursor goes after a break, or before the closing tag when the selection
  was empty.
- **Play and stop** (`playText`, `stopPlayback`). Play first stops any
  speech and then trims the text. Blank text is refused. Otherwise an
  utterance with the trimmed text and the chosen voice is handed to the
  engine, and Play is disabled while Stop is enabled.
- **Page state** (`loadVoices`, `updateLanguageBasedOnText`). The voice list
  is replaced wholesale and the selector rebuilt. The language selector
  follows the detected language, and the voice list is rebuilt only when
  that changes the selector.

Modules:

- `Wrappers` holds `Option`.
- `JsStrings` holds `String.prototype.trim` with ECMAScript's whitespace
  set, and the string order that stands in for `localeCompare`.
- `LanguageDetection` holds the table, the patterns, `DetectLanguage`, and
  its lemmas.
- `VoiceRanking` holds the comparator, the stable sort (`RankVoices`), the
  options of the voice selector, and `GetSelectedVoice`.
- `SsmlEditing` holds the pure splice `InsertTag` and the class
  `SsmlTextarea`, whose method updates the value and selection in place.
- `SpeechApp` holds the class `TtsPage`: the closure's mutable state
  (voices, the language selector, the voice options, the two button flags,
  the current utterance) and the handlers that change it.

Several lemmas pin down the code's own behaviour. The French class already
contains ä, ö and ü in both cases, and it is tried before the German class.
So the fallback can only answer `de-DE` through ß
(`GermanOnlyThroughSharpS`). é is in both the Spanish and the French class,
and Spanish is tried first (`AcuteEGivesSpanish`). Japanese text with kana
falls back to `ja-JP` even when it has Han ideographs, because the kana
pattern comes first (`JapaneseSampleGivesJapanese`).

A few behaviours of `script.js` worth stating plainly:

- Voices are ranked by exact `lang` match only; there is no matching on a
  language prefix such as `en` for `en-GB`.
- Blank text only raises an alert (`NothingToSpeak` in the model); nothing
  else changes.
- Playing stops any current speech before the text is trimmed, so Play on
  blank text still stops the speech.

## Model

| member | source | states |
|---|---|---|
| JsStrings.SkipLeadingWhitespace | script.js:229 | the scan from the start stops at the first character that is not whitespace, or at the end; everything it skipped is whitespace |
| JsStrings.SkipTrailingWhitespace | script.js:229 | the scan from the end stops after the last character that is not whitespace, or at the start; everything it dropped is whitespace |
| JsStrings.TrimStartIndex | script.js:229 | the start of the kept text lies within the input |
| JsStrings.Trim | script.js:229-231 | `trim()` (also used at script.js:164) is never longer than its input, and a non-empty result neither starts nor ends with whitespace |
| JsStrings.TrimIsInfix | script.js:229-231 | `trim()` returns a contiguous slice of its input, and everything before and after that slice is whitespace |
| JsStrings.TrimEmptyIffBlank | script.js:164 | `!text.trim()` holds exactly when every character of the text is whitespace (both directions) |
| JsStrings.TrimIdempotent | script.js:229-234 | trimming text that is already trimmed changes nothing |
| JsStrings.LocaleCompare | script.js:141 | the comparison is 0 exactly for equal strings, negative exactly when the first comes first, positive exactly when the second comes first |
| JsStrings.LexLessIrreflexive | script.js:141 | no language code sorts before itself |
| JsStrings.LexLessAsymmetric | script.js:141 | two codes never sort before each other |
| JsStrings.LexLessTransitive | script.js:141 | the order of language codes is transitive |
| JsStrings.LexLessTotal | script.js:141 | any two different codes are ordered one way or the other |
| LanguageDetection.InClass | script.js:191-198 | the eight character classes, with the `i` flag's capitals added to the Spanish, French and German classes (definition, no contract) |
| LanguageDetection.ClassOverlaps | script.js:192-194 | é is in both the Spanish and the French class; every German mark other than ß (in either case) is already a French mark; ß is in neither the Spanish nor the French class |
| LanguageDetection.Test | script.js:201-202 | `pattern.test(text)` is true exactly when some character of the text is in the pattern's class |
| LanguageDetection.FirstMatch | script.js:201-205 | the loop returns the index of the first pattern that tests true; it returns nothing exactly when no pattern does |
| LanguageDetection.Fallback | script.js:189-206 | the regex fallback answers en-US exactly when none of the eight patterns matches |
| LanguageDetection.Unmapped | script.js:184-185 | the identifier's answer is of no use exactly when it threw or its code is not a key of the table (definition, no contract) |
| LanguageDetection.DetectLanguage | script.js:163-207 | blank text gives en-US whatever the identifier says; every answer is a non-empty tag from the table |
| LanguageDetection.PatternTagsAreMapped | script.js:169-199 | en-US and every tag of the fallback patterns are values of the identifier's table |
| LanguageDetection.MappedCodeDecides | script.js:166-184 | on non-blank text, an identifier code that is in the table decides the answer, and the patterns are not consulted |
| LanguageDetection.MandarinCodeGivesChinese | script.js:176-184 | the identifier's `cmn` gives zh-CN on any non-blank text |
| LanguageDetection.UnmappedFallsBack | script.js:184-206 | when the identifier throws or gives an unmapped code, the answer is the regex fallback's |
| LanguageDetection.FallbackIsFirstInPriority | script.js:189-205 | on the fallback path, the answer is the tag of the first matching pattern in the order hi-IN, es-ES, fr-FR, de-DE, ja-JP, zh-CN, ar-SA, ru-RU |
| LanguageDetection.FallbackPicksFirst | script.js:201-205 | when pattern k matches and no earlier one does, the fallback answers pattern k's tag |
| LanguageDetection.NoPatternGivesDefault | script.js:206 | when the identifier is of no use and no pattern matches, the answer is en-US |
| LanguageDetection.FallbackTagIndex | script.js:190-205 | the fallback answers the k-th pattern's tag exactly when the k-th pattern is the first one to match |
| LanguageDetection.TagsDistinct | script.js:190-199 | the eight pattern tags differ from each other and from en-US |
| LanguageDetection.AcuteEGivesSpanish | script.js:191-193 | text with é and no Devanagari falls back to es-ES, though é is in the French class too |
| LanguageDetection.GermanOnlyThroughSharpS | script.js:190-205 | the fallback answers de-DE exactly when the text has ß and matches none of the Devanagari, Spanish and French classes (both directions) |
| LanguageDetection.SharpSMakesGermanFirst | script.js:191-194 | text with ß that matches none of the Devanagari, Spanish and French classes has German as its first matching pattern |
| LanguageDetection.NoLatinOrIndicMarks | script.js:191-194 | text made only of characters from U+3040 up matches none of the Devanagari, Spanish, French and German classes |
| LanguageDetection.JapaneseSampleFallsBackToKana | script.js:195-205 | a sample mixing kanji and kana is not blank, and the fallback answers ja-JP for it |
| LanguageDetection.ChineseSampleFallsBackToHan | script.js:196-205 | a Han sample without kana is not blank, and the fallback answers zh-CN for it |
| LanguageDetection.JapaneseSampleGivesJapanese | script.js:195-196 | with the identifier of no use, Japanese text mixing kanji and kana is detected as ja-JP, not zh-CN |
| LanguageDetection.ChineseSampleGivesChinese | script.js:195-196 | with the identifier of no use, Han text without kana is detected as zh-CN |
| VoiceRanking.Compare | script.js:138-142 | the comparator is 0 exactly for voices of the same language; a voice of the selected language goes before any other; two non-matching voices go by language-code order |
| VoiceRanking.CompareAntisymmetric | script.js:138-142 | swapping the arguments negates the comparator, as a consistent comparator must |
| VoiceRanking.CompareTransitive | script.js:138-142 | "goes no later than" under the comparator is transitive |
| VoiceRanking.Insert | script.js:138 | inserting one voice makes the list one longer |
| VoiceRanking.InsertPermutes | script.js:138 | inserting one voice gives a permutation of the list plus that voice |
| VoiceRanking.RankVoices | script.js:138-142 | the sorted copy has as many voices as the list |
| VoiceRanking.RankingIsPermutation | script.js:138-142 | the sorted copy is a permutation of the voices |
| VoiceRanking.InsertSorted | script.js:138-142 | inserting into a sorted list keeps it sorted under the comparator |
| VoiceRanking.RankedIsSorted | script.js:138-142 | the ranked list is sorted under the comparator |
| VoiceRanking.InsertShape | script.js:138-142 | a voice is inserted after a run of voices of other languages only, and the rest of the list is kept in order |
| VoiceRanking.OfLanguageInsert | script.js:138-142 | inserting a voice does not reorder the voices of any language |
| VoiceRanking.RankingIsStable | script.js:138-142 | the sort is stable: the voices of each language keep their original relative order |
| VoiceRanking.RankingOrder | script.js:137-142 | the ranked list is a permutation of the voices; selected-language voices come first; within each group languages are non-decreasing; each language's voices keep their order |
| VoiceRanking.StableSortIsUnique | script.js:138-142 | any list that is sorted under the comparator and keeps each language's order equals the ranked one, so every stable sort gives the same result |
| VoiceRanking.FindIndex | script.js:160 | gives the index of the first voice with the name, and nothing exactly when no voice has it |
| VoiceRanking.GetSelectedVoice | script.js:158-161 | gives nothing exactly when no voice has the chosen name; otherwise the first voice in the list with that name |
| VoiceRanking.OptionFor | script.js:150-153 | an option's value is the voice's name, its label is the name and language with three more characters (space and parentheses), and it is selected exactly when the voice has the selected language |
| VoiceRanking.OptionsFor | script.js:149-155 | one option per ranked voice, in order, each the option for that voice |
| VoiceRanking.VoiceOptions | script.js:144-155 | the selector holds one entry when there are no voices (the placeholder) and one per voice otherwise |
| VoiceRanking.VoiceOptionsShape | script.js:144-155 | no voices gives only the placeholder, and vice versa; otherwise one option per ranked voice with its name as value, selected exactly when its language is the selected one, and the selected options come first |
| SsmlEditing.Closing | script.js:321 | the closing tag is three characters longer than the tag name, the offset used at script.js:334 |
| SsmlEditing.Content | script.js:321 | the wrapped content is never empty, and an empty selection gives the four-character placeholder |
| SsmlEditing.Markup | script.js:316-322 | a wrapping tag's markup is as long as its opening tag, content and closing tag together |
| SsmlEditing.InsertTag | script.js:310-335 | the markup replaces exactly the selection and the text on both sides is kept; a cursor is set exactly for break or an empty selection, and it lies within the new value |
| SsmlEditing.BreakCursorAfterTag | script.js:318-332 | break puts `<break params/>` in place of the selection and the cursor right after it, where the old text resumes |
| SsmlEditing.EmptySelectionCursor | script.js:330-335 | a wrapping tag over an empty selection puts the cursor after the opening tag and the placeholder |
| SsmlEditing.EmptySelectionWrapsPlaceholder | script.js:321-327 | a wrapping tag over an empty selection inserts the opening tag, the placeholder `text` and the closing tag in that order |
| SsmlEditing.EmptySelectionCursorBeforeClosing | script.js:321-335 | over an empty selection the cursor sits at the end of the placeholder, right before the closing tag |
| SsmlEditing.WrappingKeepsSelection | script.js:321-327 | a wrapping tag over selected text keeps that text between the opening and closing tags |
| SsmlEditing.SsmlTextarea.InsertSsmlTag | script.js:310-342 | the textarea's new value is the splice; its selection collapses at the cursor the script sets, or at the end of the value when it sets none |
| SpeechApp.TtsPage.constructor | script.js:20-23 | the page starts with no voices, no options and no current utterance; the language selector and the buttons start as the page's markup sets them |
| SpeechApp.TtsPage.LoadVoices | script.js:128-131 | the voice list becomes the engine's list and the selector shows the options for it |
| SpeechApp.TtsPage.UpdateVoiceList | script.js:133-156 | the selector is cleared, the voices are ranked, and the loop leaves it holding exactly `OptionsFor` of the ranked voices (one option per voice, in ranked order), or only the placeholder when there are none |
| SpeechApp.TtsPage.UpdateLanguageBasedOnText | script.js:209-218 | the language selector becomes the detected language; the options are rebuilt when that changed it and are left alone otherwise |
| SpeechApp.TtsPage.StopPlayback | script.js:265-271 | the engine is cancelled exactly when it is speaking; Play is enabled and Stop disabled |
| SpeechApp.TtsPage.PlayText | script.js:220-263 | speech is always stopped first; blank text is refused and the controls stay as the stop left them; otherwise the trimmed, non-empty text is spoken with the first voice of the chosen name (or the default voice), it becomes the current utterance, Play is disabled and Stop enabled |

## Left out

- The `franc` identifier is not part of this model. Its answer is a
  parameter of `DetectLanguage`: a code, or nothing when it throws.
- The speech engine (`speechSynthesis`) is not modelled. Whether it is
  speaking and the voices it lists come in as parameters. The cancel
  request and the utterance handed to it come back as results.
- Initialisation (`init`, script.js:28-45) is left out: it calls
  `loadTheme`, `setupEventListeners`, `loadVoices` and `updateSsmlPreview`,
  and installs `loadVoices` as the `voiceschanged` handler. The model has
  `LoadVoices` itself; theme, event wiring and the preview are left out for
  the reasons below. The constructor stands for the state before `init`.
- SpeechApp.TtsPage.PlayText: the voice selector's value (`voiceSelect.value`,
  script.js:159) is an argument. The model does not determine which option
  the browser leaves selected after `updateVoiceList`; under HTML's
  selectedness rules the last appended option marked selected stays
  selected.
- The utterance's `onend` callback (script.js:259-262) is left out, because
  the engine calls it asynchronously. Nothing ties the callback to its
  utterance, so an old utterance's callback can re-enable Play while a newer
  one is speaking.
- Rate and pitch (`parseFloat` of the sliders) are left out, because they
  are floating point handed to the engine.
- `updateSsmlPreview` is left out, because it runs the browser's HTML parser.
  So are focusing the textarea, theme, tabs, `downloadAudio` (alerts and
  console output only), and the `alert` text. The active tab's text is a
  parameter of `PlayText` and `UpdateLanguageBasedOnText`.
- JsStrings.LocaleCompare: the order is code-unit lexicographic. The browser's
  `localeCompare` uses locale collation, which may order some language codes
  differently. Only the equal-or-not distinction and the order properties
  are relied on.
- Strings are sequences of Unicode scalar values rather than UTF-16 code
  units. The patterns and the whitespace set lie in the Basic Multilingual
  Plane, so this only affects surrogate pairs, which no class contains.
- LanguageDetection.DetectLanguage: the table lookup is a map lookup, and
  the JavaScript object's inherited keys (such as `constructor`) are not
  modelled. The identifier only yields three-letter codes or `und`.
- SpeechApp.TtsPage.UpdateLanguageBasedOnText: assigning a tag that the
  language `<select>` has no option for is modelled as taking that value.
  In the browser the select would then show no value.
- SsmlEditing.SsmlTextarea.InsertSsmlTag: `params` defaults to the empty
  string. The model takes it as an argument.
