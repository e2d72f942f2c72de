# Healthcare translator session, in Dafny

A model of the `TranslationApp` component of a browser speech translator.
The component listens through the Web Speech recogniser, appends each
finalised piece of speech to a transcript, and sends it to a text generation
service to be corrected and translated. It shows the latest translation and
can speak it through speech synthesis.

The model has four modules:

- `Languages`: the `languages` table and the label lookup with its English /
  Spanish fallbacks.
- `Text`: JavaScript's `String.prototype.trim`, which the blank-text guard of
  `translateText` uses.
- `Recognition`: the result merge of `onresult`. `FinalText` and
  `InterimText` are folds over the pending results. `MergeResults` is the
  handler's loop, proved equal to them. The lemmas relate the folds to an
  index-wise reference definition and to the trigger condition.
- `TranslationApp`: the class `Session`, whose fields are the component's
  state variables plus an abstract recogniser and speech-synthesis engine.
  The recogniser is reduced to a `lang` field, a ghost running flag and ghost
  counters of `start()` / `stop()` calls. The synthesis engine is reduced to
  the last utterance's text and language and a ghost `speak` counter. Each
  handler is a method. Its contract gives the whole new state
  (`State() == old(State()).(...)`) and the engine calls it makes, and it
  preserves `Valid()`. `Valid()` says four things:
  - the recogniser listens in the source language;
  - the recogniser captures exactly while `isListening` is true;
  - `isSpeaking` implies an utterance was handed over;
  - `isTranslating` implies some translation is in flight.

`translateText` is split in two. `BeginTranslation` holds the synchronous
part up to the first `await`. `FinishTranslation` takes the settled outcome
of the two service calls as an `Option<string>`. A ghost `inFlight` counter
tracks translations that have begun and not finished. The handlers test the
blank-text guard `!text.trim()` as `IsBlank(text)` (every character is white
space). `Text.TrimEmptyIffBlank` proves the two are the same. Four client methods
(`SingleUtteranceScenario`, `PlaybackScenario`,
`OverlappingTranslationsScenario`, `TranslationAfterResetScenario`) show what
callers can derive from the contracts.

The model follows the code as written, where a design where translations are
numbered, buffered and flushed in spoken order would differ:

- A finished translation replaces `translatedText`. It is not appended to it.
- The interim text is computed and then dropped.
- There are no sequence numbers and no reordering buffer. When two
  translations overlap, the one that finishes last wins. The one that
  finishes first clears `isTranslating` while the other is still in flight
  (`OverlappingTranslationsScenario`).
- Reset does not invalidate translations in flight. One that finishes after a
  reset brings text back (`TranslationAfterResetScenario`).
- Toggling sets `isListening` even when the browser has no recogniser.

## Model

| member | source | states |
|---|---|---|
| Text.TrimStart | src/components/translation-app.tsx:133 | the result is a suffix of the input; everything dropped is white space; the result is empty or starts with a non-white-space character |
| Text.TrimEnd | src/components/translation-app.tsx:133 | the result is a prefix of the input; everything dropped is white space; the result is empty or ends with a non-white-space character |
| Text.Trim | src/components/translation-app.tsx:133 | `text.trim()`, stripping `TrimStart` then `TrimEnd`; its contract: the result is no longer than the text and is empty or starts and ends with a non-white-space character; it is empty exactly when the text is blank (`TrimEmptyIffBlank`) and is a slice of the text (`TrimIsInfix`) |
| Text.TrimEmptyIffBlank | src/components/translation-app.tsx:133 | `text.trim()` is empty if and only if every character of the text is white space |
| Text.TrimIsInfix | src/components/translation-app.tsx:133 | the trimmed text is a contiguous slice of the original |
| Languages.Find | src/components/translation-app.tsx:138-143 | `find` returns an entry of the table with the requested code, and returns nothing exactly when no entry has that code |
| Languages.LabelOr | src/components/translation-app.tsx:138-143 | `table.find(...)?.label \|\| fallback`; its contract: the result is the fallback or the non-empty label of an entry with the code, and it is the fallback when no entry has the code; `LabelOrFirstMatch` pins it to the first match |
| Languages.SourceLabel | src/components/translation-app.tsx:138-140 | the source-language name with fallback "English"; always one of the table's labels; `KnownCodeLabel` and `UnknownCodeLabel` give its value |
| Languages.TargetLabel | src/components/translation-app.tsx:141-143 | the target-language name with fallback "Spanish"; always one of the table's labels; `KnownCodeLabel` and `UnknownCodeLabel` give its value |
| Languages.FindFirstMatch | src/components/translation-app.tsx:138-143 | `find` returns the entry at the first index whose code matches |
| Languages.LabelOrFirstMatch | src/components/translation-app.tsx:138-143 | the lookup yields the label of the first matching entry, or the fallback when that label is empty (falsy) |
| Languages.TableWellFormed | src/components/translation-app.tsx:21-32 | the ten codes of the table are pairwise distinct and every label is non-empty |
| Languages.KnownCodeLabel | src/components/translation-app.tsx:138-143 | every code of the table resolves to its own label, as source and as target |
| Languages.InitialLanguageLabels | src/components/translation-app.tsx:44-45 | the initial languages "en" and "es" are named "English" and "Spanish" |
| Languages.UnknownCodeLabel | src/components/translation-app.tsx:138-143 | a code outside the table yields "English" as source and "Spanish" as target |
| Recognition.Pending | src/components/translation-app.tsx:70 | the results the loop visits: `length - resultIndex` of them, the k-th being `results[resultIndex + k]`, and none when `resultIndex` is past the end |
| Recognition.FinalText | src/components/translation-app.tsx:68-73 | the `finalTranscript` accumulator as a fold; characterised by `MergeJoinsInOrder` (the in-order join of the final results' texts), `MergeAppend`, `FinalTextEmptyIff`, `FinalTextBlankIff` and `FinalTextIgnoresInterim` |
| Recognition.InterimText | src/components/translation-app.tsx:67-75 | the `interimTranscript` accumulator as a fold; characterised by `MergeJoinsInOrder` (the in-order join of the non-final results' texts) and `MergeAppend` |
| Recognition.MergeResults | src/components/translation-app.tsx:67-77 | the loop's two accumulators equal the final and interim folds over the results from `resultIndex` to the end (none if `resultIndex` is past the end) |
| Recognition.MergeJoinsInOrder | src/components/translation-app.tsx:70-77 | the final part joins, in index order, the text of each final result and nothing from the others; the interim part joins the text of each non-final result |
| Recognition.MergeAppend | src/components/translation-app.tsx:70-77 | merging two runs of results yields the concatenation of the runs' final parts and of their interim parts |
| Recognition.EarlierResultsIgnored | src/components/translation-app.tsx:70 | results before `resultIndex` contribute nothing to either part |
| Recognition.FinalTextIgnoresInterim | src/components/translation-app.tsx:72-79 | the final part, and so the transcript, does not depend on the text of interim results |
| Recognition.FinalTextEmptyIff | src/components/translation-app.tsx:81-83 | the final part is empty if and only if every final result has an empty transcript |
| Recognition.FinalTextBlankIff | src/components/translation-app.tsx:81-83 | the final part is all white space if and only if every final result's transcript is |
| TranslationApp.TranslationBegunIff | src/components/translation-app.tsx:81-83 | a result event begins a translation if and only if some pending result is final and holds a non-white-space character |
| TranslationApp.Session.constructor | src/components/translation-app.tsx:43-49 | the initial state: not listening, English to Spanish, empty texts, all flags down, recogniser set to the source language, no engine calls yet |
| TranslationApp.Session.OnResult | src/components/translation-app.tsx:66-84 | the transcript becomes the old transcript followed by the final part; a translation request with the current language labels is issued exactly when the final part is not blank; nothing else changes |
| TranslationApp.Session.OnError | src/components/translation-app.tsx:86-89 | `isListening` becomes false, the recogniser is no longer capturing, and the transcript and everything else are kept |
| TranslationApp.Session.SelectSourceLanguage | src/components/translation-app.tsx:100-104 | the source language changes and the recogniser's `lang` follows it when there is a recogniser |
| TranslationApp.Session.SelectTargetLanguage | src/components/translation-app.tsx:219 | only the target language changes |
| TranslationApp.Session.ToggleListening | src/components/translation-app.tsx:107-119 | `isListening` is negated; `stop()` is called once if the session was listening and `start()` once if it was not (with a recogniser), never both; under the model's recogniser assumption (it stops only on `stop()` or an error, see "Left out"), `start()` only reaches a stopped recogniser and `stop()` a running one |
| TranslationApp.Session.ResetAll | src/components/translation-app.tsx:122-129 | the session ends not listening with empty transcript and translation; `stop()` is called only if it was listening; languages, `isSpeaking`, `isTranslating` and in-flight translations are untouched |
| TranslationApp.Session.BeginTranslation | src/components/translation-app.tsx:132-143 | a blank text changes nothing and issues no request; otherwise `isTranslating` becomes true and the request carries the text and the labels of the current languages |
| TranslationApp.Session.FinishTranslation | src/components/translation-app.tsx:157-163 | `isTranslating` becomes false in every case; on success `translatedText` is replaced by the result, on failure it is kept |
| TranslationApp.Session.SpeakTranslatedText | src/components/translation-app.tsx:167-178 | with no translated text, an utterance playing, or no speech synthesis, nothing changes; otherwise the translated text is spoken once in the target language and `isSpeaking` becomes true |
| TranslationApp.Session.OnSpeechEnd | src/components/translation-app.tsx:173 | the end of an utterance sets `isSpeaking` back to false and changes nothing else |

## Left out

- Rendering and layout (the JSX of `translation-app.tsx` and all of `src/App.tsx`) are left out. They hold no logic beyond the two language pickers, which are modelled as `SelectSourceLanguage` and `SelectTargetLanguage`.
- The text generation client and its two `generateContent` calls are foreign network calls. Their combined outcome is the `Option<string>` passed to `FinishTranslation`, where `None` stands for any thrown error.
- Prompt construction is left out. It is free-form text for a remote model, and the request records only the text and the two labels that go into it.
- Browser feature detection is a parameter of the constructor (`recognition`, `synthesis`). The recogniser and synthesis objects are reduced to the fields and ghost counters described above. The model assumes that a recogniser reporting an error has stopped capturing by itself. An engine that ends capture without an error is not modelled, and the code has no handler for that case.
- Each result's transcript is that of its first alternative (`event.results[i][0]`). Other alternatives are not modelled.
- React effect lifecycle is left out: the unmount cleanup that calls `stop()`, and the batching of state updates. The `onresult` handler is registered once with the first render's closure. So in the running app its translations use the initial languages. The model reads the current ones, because closure capture is React runtime behaviour.
- Overlapping asynchronous translations are modelled only as interleavings of atomic begin and finish steps. No ordered flush buffer or reset invalidation is modelled, because the code has neither.
- Console logging of errors is left out.
