/** The session state machine of the `TranslationApp` component: its state
    variables, the recogniser and speech-synthesis objects it drives (kept
    abstract), and its event handlers as methods. */
module TranslationApp {
  import opened Wrappers
  import opened Text
  import opened Languages
  import opened Recognition

  /** What a begun translation hands to the text generation service: the
      text to correct and translate and the two language names, read when
      the translation begins. */
  datatype TranslationRequest = TranslationRequest(text: string, sourceLabel: string, targetLabel: string)

  /** A snapshot of every non-ghost field of a session, so that a handler's
      contract can say which fields it changes and that the others stay. */
  datatype SessionState = SessionState(
    isListening: bool,
    sourceLanguage: string,
    targetLanguage: string,
    transcript: string,
    translatedText: string,
    isTranslating: bool,
    isSpeaking: bool,
    recognizerLang: string,
    utteranceText: string,
    utteranceLang: string)

  class Session {
    // the component's state variables
    var isListening: bool
    var sourceLanguage: string
    var targetLanguage: string
    var transcript: string
    var translatedText: string
    var isTranslating: bool
    var isSpeaking: bool

    // the speech recogniser: whether the browser provides one, its `lang`,
    // whether it is capturing, and how often `start()` and `stop()` were called
    const recognitionSupported: bool
    var recognizerLang: string
    ghost var recognizerRunning: bool
    ghost var startCalls: nat
    ghost var stopCalls: nat

    // speech synthesis: whether the browser provides it, and the text and
    // language of the last utterance handed to `speechSynthesis.speak`
    const synthesisSupported: bool
    var utteranceText: string
    var utteranceLang: string
    ghost var speakCalls: nat

    // translations begun and not yet finished
    ghost var inFlight: nat

    function State(): SessionState
      reads this
    {
      SessionState(isListening, sourceLanguage, targetLanguage, transcript, translatedText,
                   isTranslating, isSpeaking, recognizerLang, utteranceText, utteranceLang)
    }

    /** The invariant every handler keeps: the recogniser (when there is one)
        listens in the source language and captures exactly while the session
        says it is listening; playing means an utterance was spoken; the
        translating flag is only up while a translation is in flight. */
    ghost predicate Valid()
      reads this
    {
      (recognitionSupported ==> recognizerLang == sourceLanguage && recognizerRunning == isListening) &&
      (!recognitionSupported ==> !recognizerRunning && startCalls == 0 && stopCalls == 0) &&
      (isSpeaking ==> synthesisSupported && speakCalls > 0) &&
      (isTranslating ==> inFlight > 0)
    }

    /** The component once mounted: all flags down, English to Spanish, empty
        texts, and the recogniser (if any) set to the source language by the
        language effect's first run. */
    constructor (recognition: bool, synthesis: bool)
      ensures Valid()
      ensures recognitionSupported == recognition && synthesisSupported == synthesis
      ensures State() == SessionState(false, "en", "es", "", "", false, false,
                                      if recognition then "en" else "", "", "")
      ensures !recognizerRunning && startCalls == 0 && stopCalls == 0
      ensures speakCalls == 0 && inFlight == 0
    {
      isListening, sourceLanguage, targetLanguage := false, "en", "es";
      transcript, translatedText := "", "";
      isTranslating, isSpeaking := false, false;
      recognitionSupported := recognition;
      recognizerLang := if recognition then "en" else "";
      recognizerRunning, startCalls, stopCalls := false, 0, 0;
      synthesisSupported := synthesis;
      utteranceText, utteranceLang := "", "";
      speakCalls, inFlight := 0, 0;
    }

    /** `onresult`: merge the event's pending results, append the final part
        to the transcript, and begin a translation of it when it is not
        empty. The interim part is computed and dropped. */
    method OnResult(results: seq<SpeechResult>, resultIndex: nat) returns (request: Option<TranslationRequest>)
      requires Valid()
      modifies this
      ensures Valid()
      ensures var finalText := FinalText(Pending(results, resultIndex));
              transcript == old(transcript) + finalText &&
              request == (if IsBlank(finalText) then None
                          else Some(TranslationRequest(finalText, SourceLabel(old(sourceLanguage)),
                                                       TargetLabel(old(targetLanguage))))) &&
              State() == old(State()).(transcript := transcript,
                                       isTranslating := old(isTranslating) || request.Some?)
      ensures inFlight == old(inFlight) + (if request.Some? then 1 else 0)
      ensures recognizerRunning == old(recognizerRunning)
      ensures startCalls == old(startCalls) && stopCalls == old(stopCalls) && speakCalls == old(speakCalls)
    {
      var finalTranscript, interimTranscript := MergeResults(results, resultIndex);
      transcript := transcript + finalTranscript;
      if finalTranscript != "" {
        request := BeginTranslation(finalTranscript);
      } else {
        request := None;
      }
    }

    /** `onerror`: the session stops listening and keeps its transcript. The
        recogniser has ended capture by itself, so `stop()` is not called. */
    method OnError()
      requires Valid()
      modifies this
      ensures Valid()
      ensures State() == old(State()).(isListening := false)
      ensures !recognizerRunning
      ensures startCalls == old(startCalls) && stopCalls == old(stopCalls)
      ensures speakCalls == old(speakCalls) && inFlight == old(inFlight)
    {
      isListening := false;
      recognizerRunning := false;
    }

    /** Choosing a source language; the language effect then hands it to the
        recogniser, when there is one. */
    method SelectSourceLanguage(code: string)
      requires Valid()
      modifies this
      ensures Valid()
      ensures State() == old(State()).(sourceLanguage := code,
                                       recognizerLang := if recognitionSupported then code else old(recognizerLang))
      ensures recognizerRunning == old(recognizerRunning)
      ensures startCalls == old(startCalls) && stopCalls == old(stopCalls)
      ensures speakCalls == old(speakCalls) && inFlight == old(inFlight)
    {
      sourceLanguage := code;
      if recognitionSupported {
        recognizerLang := code;
      }
    }

    /** Choosing a target language. */
    method SelectTargetLanguage(code: string)
      requires Valid()
      modifies this
      ensures Valid()
      ensures State() == old(State()).(targetLanguage := code)
      ensures recognizerRunning == old(recognizerRunning)
      ensures startCalls == old(startCalls) && stopCalls == old(stopCalls)
      ensures speakCalls == old(speakCalls) && inFlight == old(inFlight)
    {
      targetLanguage := code;
    }

    /** `toggleListening`: negate the listening flag, calling the recogniser's
        `stop()` once when it was listening and `start()` once when it was
        not, never both; `start()` only reaches a stopped recogniser and
        `stop()` only a running one. */
    method ToggleListening()
      requires Valid()
      modifies this
      ensures Valid()
      ensures State() == old(State()).(isListening := !old(isListening))
      ensures startCalls == old(startCalls) + (if !old(isListening) && recognitionSupported then 1 else 0)
      ensures stopCalls == old(stopCalls) + (if old(isListening) && recognitionSupported then 1 else 0)
      ensures startCalls == old(startCalls) || stopCalls == old(stopCalls)
      ensures startCalls != old(startCalls) ==> !old(recognizerRunning)
      ensures stopCalls != old(stopCalls) ==> old(recognizerRunning)
      ensures speakCalls == old(speakCalls) && inFlight == old(inFlight)
    {
      if isListening {
        if recognitionSupported {
          stopCalls := stopCalls + 1;
          recognizerRunning := false;
        }
        isListening := false;
      } else {
        if recognitionSupported {
          startCalls := startCalls + 1;
          recognizerRunning := true;
        }
        isListening := true;
      }
    }

    /** `resetAll`: stop capturing if listening, clear both texts. Languages,
        the translating and speaking flags and translations still in flight
        are left as they are. */
    method ResetAll()
      requires Valid()
      modifies this
      ensures Valid()
      ensures State() == old(State()).(isListening := false, transcript := "", translatedText := "")
      ensures !recognizerRunning
      ensures startCalls == old(startCalls)
      ensures stopCalls == old(stopCalls) + (if old(isListening) && recognitionSupported then 1 else 0)
      ensures speakCalls == old(speakCalls) && inFlight == old(inFlight)
    {
      if recognitionSupported && isListening {
        stopCalls := stopCalls + 1;
        recognizerRunning := false;
      }
      isListening := false;
      transcript := "";
      translatedText := "";
    }

    /** The synchronous part of `translateText`, up to its first `await`:
        nothing happens for a blank text (`!text.trim()`, which is `IsBlank`
        by `TrimEmptyIffBlank`); otherwise the translating flag goes up and
        the request carries the labels of the current languages. The labels
        are read before the flag is set, which reads the same values. */
    method BeginTranslation(text: string) returns (request: Option<TranslationRequest>)
      requires Valid()
      modifies this
      ensures Valid()
      ensures IsBlank(text) ==> request == None && State() == old(State()) && inFlight == old(inFlight)
      ensures !IsBlank(text) ==>
                request == Some(TranslationRequest(text, SourceLabel(sourceLanguage), TargetLabel(targetLanguage))) &&
                State() == old(State()).(isTranslating := true) &&
                inFlight == old(inFlight) + 1
      ensures recognizerRunning == old(recognizerRunning)
      ensures startCalls == old(startCalls) && stopCalls == old(stopCalls) && speakCalls == old(speakCalls)
    {
      if IsBlank(text) {
        return None;
      }
      var sourceLang := SourceLabel(sourceLanguage);
      var targetLang := TargetLabel(targetLanguage);
      isTranslating := true;
      inFlight := inFlight + 1;
      request := Some(TranslationRequest(text, sourceLang, targetLang));
    }

    /** The rest of `translateText`, once the correction and translation
        calls have settled: `outcome` is the translated text, or `None` when
        either call failed. The result replaces the translated text; the
        translating flag goes down in every case. */
    method FinishTranslation(outcome: Option<string>)
      requires Valid() && inFlight > 0
      modifies this
      ensures Valid()
      ensures State() == old(State()).(isTranslating := false,
                                       translatedText := if outcome.Some? then outcome.value else old(translatedText))
      ensures inFlight == old(inFlight) - 1
      ensures recognizerRunning == old(recognizerRunning)
      ensures startCalls == old(startCalls) && stopCalls == old(stopCalls) && speakCalls == old(speakCalls)
    {
      if outcome.Some? {
        translatedText := outcome.value;
      }
      isTranslating := false;
      inFlight := inFlight - 1;
    }

    /** `speakTranslatedText`: nothing happens when there is no translated
        text, when an utterance is still playing, or without speech
        synthesis; otherwise the translated text is spoken in the target
        language and the speaking flag goes up. */
    method SpeakTranslatedText()
      requires Valid()
      modifies this
      ensures Valid()
      ensures old(translatedText) == "" || old(isSpeaking) || !synthesisSupported ==>
                State() == old(State()) && speakCalls == old(speakCalls)
      ensures old(translatedText) != "" && !old(isSpeaking) && synthesisSupported ==>
                State() == old(State()).(isSpeaking := true, utteranceText := old(translatedText),
                                         utteranceLang := old(targetLanguage)) &&
                speakCalls == old(speakCalls) + 1
      ensures recognizerRunning == old(recognizerRunning)
      ensures startCalls == old(startCalls) && stopCalls == old(stopCalls) && inFlight == old(inFlight)
    {
      if translatedText == "" || isSpeaking {
        return;
      }
      if synthesisSupported {
        utteranceText := translatedText;
        utteranceLang := targetLanguage;
        isSpeaking := true;
        speakCalls := speakCalls + 1;
      }
    }

    /** The utterance's `onend` callback: the speaking flag goes down. */
    method OnSpeechEnd()
      requires Valid()
      modifies this
      ensures Valid()
      ensures State() == old(State()).(isSpeaking := false)
      ensures recognizerRunning == old(recognizerRunning)
      ensures startCalls == old(startCalls) && stopCalls == old(stopCalls)
      ensures speakCalls == old(speakCalls) && inFlight == old(inFlight)
    {
      isSpeaking := false;
    }
  }

  /** `onresult` begins a translation exactly when some pending result is
      final and its transcript holds a character other than white space;
      equivalently, when the trimmed final part is not empty. */
  lemma TranslationBegunIff(results: seq<SpeechResult>, resultIndex: nat)
    ensures var rs := Pending(results, resultIndex);
            !IsBlank(FinalText(rs)) <==> exists i :: 0 <= i < |rs| && rs[i].isFinal && !IsBlank(rs[i].transcript)
    ensures var rs := Pending(results, resultIndex);
            Trim(FinalText(rs)) != "" <==> !IsBlank(FinalText(rs))
  {
    var rs := Pending(results, resultIndex);
    TrimEmptyIffBlank(FinalText(rs));
    FinalTextBlankIff(rs);
  }

  /** A text whose first character is not white space survives `trim`. */
  lemma NotBlank(text: string)
    requires text != [] && !IsWhitespace(text[0])
    ensures !IsBlank(text)
  {
  }

  /** A client of the session: one spoken sentence, recognised as final,
      lands in the transcript and begins its translation from English to
      Spanish. */
  method SingleUtteranceScenario() {
    var s := new Session(true, true);
    s.ToggleListening();
    assert s.isListening && s.startCalls == 1;
    var result := SpeechResult("Patient has a fever", true);
    NotBlank(result.transcript);
    assert Pending([result], 0) == [] + [result];
    FoldSnoc([], result);
    assert "" + result.transcript == result.transcript;
    assert FinalText(Pending([result], 0)) == result.transcript;
    InitialLanguageLabels();
    var request := s.OnResult([result], 0);
    assert s.transcript == "Patient has a fever" && s.isTranslating;
    assert request == Some(TranslationRequest("Patient has a fever", "English", "Spanish"));
  }

  /** A client of the session: a finished translation is spoken once in the
      target language, a second request while speaking is ignored, and the
      end of speech clears the flag. */
  method PlaybackScenario() {
    var s := new Session(true, true);
    NotBlank("Patient has a fever");
    var request := s.BeginTranslation("Patient has a fever");
    s.FinishTranslation(Some("El paciente tiene fiebre."));
    assert s.translatedText == "El paciente tiene fiebre." && !s.isTranslating;
    s.SpeakTranslatedText();
    assert s.isSpeaking && s.utteranceLang == "es";
    s.SpeakTranslatedText();
    assert s.speakCalls == 1;
    s.OnSpeechEnd();
    assert !s.isSpeaking;
  }

  /** A client of the session with two overlapping translations that finish
      in the opposite order: the flag goes down while one is still in flight,
      and the output holds only the last one to finish, not both in spoken
      order. */
  method OverlappingTranslationsScenario() {
    var s := new Session(true, true);
    NotBlank("Hello");
    NotBlank("Thank you");
    var first := s.BeginTranslation("Hello");
    var second := s.BeginTranslation("Thank you");
    assert first.Some? && second.Some?;
    s.FinishTranslation(Some("Gracias"));
    assert !s.isTranslating && s.inFlight == 1;
    s.FinishTranslation(Some("Hola"));
    assert s.translatedText == "Hola";
  }

  /** A client of the session: a translation that finishes after a reset
      brings translated text back. */
  method TranslationAfterResetScenario() {
    var s := new Session(true, true);
    NotBlank("Goodbye");
    var pending := s.BeginTranslation("Goodbye");
    s.ResetAll();
    assert s.translatedText == "";
    s.FinishTranslation(Some("Adiós"));
    assert s.translatedText == "Adiós";
  }
}
