/** The page state the script keeps in its closure and the handlers that
    change it: the voice list (`loadVoices`, `updateVoiceList`), the
    language follow-up of the text (`updateLanguageBasedOnText`) and the
    play/stop controls (`playText`, `stopPlayback`). The speech engine is
    not modelled: what it reports (`synth.speaking`, `synth.getVoices()`)
    comes in as parameters, and what is handed to it comes back as results. */
module SpeechApp {
  import opened Wrappers
  import opened JsStrings
  import opened LanguageDetection
  import opened VoiceRanking

  /** A `SpeechSynthesisUtterance` as the script configures it (rate and
      pitch are not modelled). */
  datatype Utterance = Utterance(text: string, voice: Option<Voice>)

  /** What pressing Play did: alert that there is nothing to say, or hand
      an utterance to the engine. */
  datatype PlayOutcome = NothingToSpeak | Spoken(utterance: Utterance)

  class TtsPage {
    var voices: seq<Voice>                 // `voices`
    var languageSelect: string             // `languageSelect.value`
    var voiceOptions: seq<VoiceOption>     // the options of `voiceSelect`
    var playDisabled: bool                 // `playBtn.disabled`
    var stopDisabled: bool                 // `stopBtn.disabled`
    var currentUtterance: Option<Utterance>

    /** Exactly one of Play and Stop is enabled. */
    predicate ControlsConsistent()
      reads this
    {
      playDisabled != stopDisabled
    }

    /** The page before `init`'s `loadVoices`: no voices, no utterance. */
    constructor (language: string, playInitiallyDisabled: bool, stopInitiallyDisabled: bool)
      ensures voices == [] && languageSelect == language && voiceOptions == []
      ensures playDisabled == playInitiallyDisabled && stopDisabled == stopInitiallyDisabled
      ensures currentUtterance == None
    {
      voices := [];
      languageSelect := language;
      voiceOptions := [];
      playDisabled, stopDisabled := playInitiallyDisabled, stopInitiallyDisabled;
      currentUtterance := None;
    }

    /** `loadVoices` (script.js:128-131): takes the engine's current list
        wholesale and rebuilds the selector. */
    method LoadVoices(enumerated: seq<Voice>)
      modifies this`voices, this`voiceOptions
      ensures voices == enumerated
      ensures voiceOptions == VoiceOptions(enumerated, languageSelect)
    {
      voices := enumerated;
      UpdateVoiceList();
    }

    /** `updateVoiceList` (script.js:133-156): clears the selector, then
        appends one option per ranked voice, or the placeholder when there
        are none. */
    method UpdateVoiceList()
      modifies this`voiceOptions
      ensures voiceOptions == VoiceOptions(voices, languageSelect)
    {
      var selectedLanguage := languageSelect;
      voiceOptions := [];
      var sortedVoices := RankVoices(voices, selectedLanguage);
      if |sortedVoices| == 0 {
        voiceOptions := [NO_VOICES];
        return;
      }
      for i := 0 to |sortedVoices|
        invariant voiceOptions == OptionsFor(sortedVoices[..i], selectedLanguage)
      {
        assert sortedVoices[..i + 1][..i] == sortedVoices[..i];
        voiceOptions := voiceOptions + [OptionFor(sortedVoices[i], selectedLanguage)];
      }
      assert sortedVoices[..|sortedVoices|] == sortedVoices;
    }

    /** `updateLanguageBasedOnText` (script.js:209-218) given the active
        tab's text: the language selector follows the detected language,
        and the voice list is rebuilt only when that changed it. */
    method UpdateLanguageBasedOnText(text: string, franc: string -> Option<string>)
      modifies this`languageSelect, this`voiceOptions
      ensures languageSelect == DetectLanguage(text, franc)
      ensures old(languageSelect) == languageSelect ==> voiceOptions == old(voiceOptions)
      ensures old(languageSelect) != languageSelect ==> voiceOptions == VoiceOptions(voices, languageSelect)
    {
      var detectedLang := DetectLanguage(text, franc);
      if languageSelect != detectedLang {
        languageSelect := detectedLang;
        UpdateVoiceList();
      }
    }

    /** `stopPlayback` (script.js:265-271): cancels the engine if it is
        speaking, enables Play and disables Stop. */
    method StopPlayback(speaking: bool) returns (cancelled: bool)
      modifies this`playDisabled, this`stopDisabled
      ensures cancelled == speaking
      ensures !playDisabled && stopDisabled
    {
      cancelled := speaking;
      playDisabled := false;
      stopDisabled := true;
    }

    /** `playText` (script.js:220-263) given the active tab's text: stop
        first, then trim; blank text is refused and leaves the controls as
        the stop left them; otherwise the trimmed text is spoken with the
        chosen voice (if the list still has it) and Play is disabled while
        Stop is enabled. */
    method PlayText(input: string, speaking: bool, voiceName: string)
        returns (cancelled: bool, outcome: PlayOutcome)
      modifies this`playDisabled, this`stopDisabled, this`currentUtterance
      ensures cancelled == speaking
      ensures ControlsConsistent()
      ensures AllWhitespace(input) ==>
                outcome == NothingToSpeak && !playDisabled && stopDisabled
                && currentUtterance == old(currentUtterance)
      ensures !AllWhitespace(input) ==>
                outcome == Spoken(Utterance(Trim(input), GetSelectedVoice(voices, voiceName)))
                && currentUtterance == Some(outcome.utterance)
                && playDisabled && !stopDisabled
      ensures outcome.Spoken? ==> outcome.utterance.text != [] && Trim(outcome.utterance.text) == outcome.utterance.text
    {
      cancelled := StopPlayback(speaking);
      var textToSpeak := Trim(input);
      TrimEmptyIffBlank(input);
      TrimIdempotent(input);
      assert textToSpeak == [] <==> AllWhitespace(input);
      if textToSpeak == [] {
        outcome := NothingToSpeak;
        return;
      }
      var voice := GetSelectedVoice(voices, voiceName);
      var utterance := Utterance(textToSpeak, voice);
      outcome := Spoken(utterance);
      currentUtterance := Some(utterance);
      playDisabled := true;
      stopDisabled := false;
    }
  }
}
