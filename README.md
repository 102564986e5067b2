# gemini_llm, modelled in Dafny

This project models the language-model stage of a medical scribe back end, `pipeline/gemini_llm.py`. It has two entry points:

- `correct_diarization` asks the model to fix the `Doctor:`/`Patient:` labels of a transcript. It keeps the model's answer only when the answer has exactly the same words as the transcript.
- `generate_soap` asks the model for a SOAP note as JSON. SOAP stands for the four sections Subjective, Objective, Assessment and Plan. The stage cleans the answer, parses it and repairs it. When the answer is not JSON, it salvages each section with a pattern.

Everything around the model call is deterministic string and dictionary work, and the model covers all of it:

- whitespace collapsing and the table of speech-recognition corrections;
- the speaker-label gate and the word-sequence check;
- the code-fence and brace extractor;
- the SOAP repair, the salvage and the empty note;
- the `str.format` call that builds each prompt;
- both retry loops.

The model itself is a parameter `oracle: (string, nat) -> Reply`. It maps the prompt and the attempt number to an answer text or to a client exception (`Failure`). So every sequence of replies, including empty ones, is covered. `json.loads` is a parameter `parse: string -> Option<Json>`, where `None` stands for `JSONDecodeError`.

Modules, one per concern:

- `Wrappers`: `Option`, `Result`.
- `Text`: ASCII character classes, `strip`, `lower`, `split`, `splitlines`, substring search and case-insensitive replacement.
- `Normalizer`: `preprocess_transcript`.
- `Validators`: `validate_speaker_labels`, `validate_correction`.
- `Sanitizer`: `clean_json_response`.
- `Soap`: the JSON value type, `validate_soap_json`, `_salvage_json`, `_empty_soap_note`.
- `Prompts`: the two templates and the part of `str.format` they use.
- `Pipeline`: `correct_diarization`, `generate_soap`.

Code with loops in the source is modelled as methods with loops, each proved equal to a specification function:

- `PreprocessTranscript` and `ApplyCorrections`;
- `ValidateSoapJson` with `FillMissing` and `ClearUnusable`;
- `SalvageJson` with `SalvageSections`;
- `CorrectDiarization` with `DiarizationAttempts`;
- `GenerateSoap` with `SoapAttempts`.

The properties of each stage are then proved as lemmas about those functions. `validate_soap_json` updates its argument in place. Its caller rebinds the name to the returned dictionary (line 453), so the method takes a map and returns the new one.

Where the code does something other than what its comments and prompts say, the model follows the code:

- The speaker labels are words too. `validate_correction` tokenises `Doctor:` as the word `doctor`. So a correction that moves words from one turn to the next across a label changes the word order and is rejected (`Validators.MovingAcrossLabelRejected`). That is the very kind of correction the prompt asks the model for.
- Pre-processing is not idempotent and can damage correct text. The correction table lists `symptom` as a misspelling of `symptoms`, so `symptoms` becomes `symptomss` (`Normalizer.SymptomsCorrupted`).
- The substitution guard looks at the lower-cased text as it was before any substitution, not at the text being rewritten.
- Pre-processing turns every line break into a space.
- The brace step takes the span from the first `{` to the last `}`. It does not match braces.
- The salvage step always builds four sections, so its `None` branch is never taken.
- As written, `generate_soap`'s prompt template cannot be formatted (see "## Findings").

## Model

| member | source | states |
|---|---|---|
| Normalizer.PreprocessTranscript | pipeline/gemini_llm.py:162-193 | the loops compute `Preprocess`; blank input is returned unchanged, and any other input comes out non-empty, with no whitespace at either end, no two whitespace characters in a row, and only plain spaces |
| Normalizer.ApplyCorrections | pipeline/gemini_llm.py:175-191 | the nested loops apply the table entry by entry and misspelling by misspelling, each substitution guarded by the lower-cased text from before the loop |
| Normalizer.PreprocessShape | pipeline/gemini_llm.py:167-172 | blank input is returned unchanged; other input becomes normal text (non-empty, tidy, plain spaces only) |
| Normalizer.CorrectionsWellFormed | pipeline/gemini_llm.py:175-183 | every correction in the table is non-empty tidy text and every misspelling is non-empty |
| Normalizer.PreprocessClean | pipeline/gemini_llm.py:172-191 | text in which no misspelling occurs, in any letter case, only has its whitespace collapsed |
| Normalizer.ApplyTableClean | pipeline/gemini_llm.py:185-191 | a table none of whose misspellings occurs in the guard text leaves the text as it is |
| Normalizer.SymptomsCorrupted | pipeline/gemini_llm.py:181 | the correctly spelled `symptoms` is pre-processed into `symptomss`, so pre-processing is not idempotent |
| Validators.SpeakerLabelsValid | pipeline/gemini_llm.py:196-221 | true exactly when the text is not blank, holds one of the four exact label forms, and its lower-cased form holds both `doctor:` and `patient:` |
| Validators.ShoutedLabelsRejected | pipeline/gemini_llm.py:205-207 | a transcript with no lower-case letter is rejected even when it holds both labels in capitals |
| Validators.TokensAreWords | pipeline/gemini_llm.py:230-231 | every token `re.findall(r'\b\w+\b', …)` yields is a non-empty run of word characters |
| Validators.TokensAppend | pipeline/gemini_llm.py:230-231 | splitting the text at a non-word character splits the token sequence the same way |
| Validators.ValidateCorrection | pipeline/gemini_llm.py:224-240 | passes exactly when the lower-cased token sequences are equal, in order, and on failure carries the missing and the added words as sets; which texts that accepts is stated by `TokensAreWords`, `TokensAppend`, `ValidateIgnoresCase`, `ValidateIgnoresSeparators`, `ReorderingRejected` and `MovingAcrossLabelRejected` |
| Validators.ValidateIgnoresCase | pipeline/gemini_llm.py:230-231 | texts that agree after lower-casing pass, so every text passes against itself |
| Validators.ValidateIgnoresSeparators | pipeline/gemini_llm.py:230-236 | replacing one run of punctuation and spacing by another keeps the check passing |
| Validators.ReorderingRejected | pipeline/gemini_llm.py:233-238 | the same words in another order fail, and the diagnostic is then empty on both sides |
| Validators.MovingAcrossLabelRejected | pipeline/gemini_llm.py:230-236 | moving words from the end of one turn to the start of the next across a `Patient:` label fails the check |
| Sanitizer.BraceSpan | pipeline/gemini_llm.py:266-268 | with a `{` before a `}` the result is the slice from the first `{` of the text to its last `}`; otherwise the text is unchanged |
| Sanitizer.BraceSpanSurrounded | pipeline/gemini_llm.py:266-268 | an object between text without `{` before it and without `}` after it is extracted exactly |
| Sanitizer.CleanJsonPlain | pipeline/gemini_llm.py:248-270 | text without backticks and braces is only stripped |
| Sanitizer.CleanJsonSurrounded | pipeline/gemini_llm.py:248-270 | prose around an unfenced object is dropped |
| Sanitizer.CleanJsonFenced | pipeline/gemini_llm.py:251-255 | the stripped interior of the first ```` ```json ```` block is kept |
| Sanitizer.CleanJsonOfFence | pipeline/gemini_llm.py:251-255 | for stripped text that holds ```` ```json ````, the result is the fence extraction when that is an object |
| Sanitizer.CleanJsonGenericFenced | pipeline/gemini_llm.py:256-263 | a generic ```` ``` ```` block loses its first line and its closing fence line |
| Text.SplitJoinLines | pipeline/gemini_llm.py:258-261 | `splitlines` gives back the lines that `'\n'.join` put together, when none of them holds a line break |
| Text.LowerStrip | pipeline/gemini_llm.py:292 | lower-casing and stripping commute, so testing `Strip(Lower(s))` is the source's `value.strip().lower()` |
| Sanitizer.CleanJsonOfGeneric | pipeline/gemini_llm.py:256-263 | a stripped text starting with a fence, whose lines are the fence line, the body and a closing fence, cleans to the body |
| Sanitizer.NoJsonFenceInGeneric | pipeline/gemini_llm.py:251-256 | a block tagged with a language other than `json` takes the generic branch |
| Soap.RepairSoap | pipeline/gemini_llm.py:273-301 | the repaired dictionary has the input's keys plus the four sections; each section is the input's value when that is usable and the placeholder otherwise; other keys are untouched |
| Soap.ValidateSoapJson | pipeline/gemini_llm.py:273-301 | always reports valid, and returns the repaired dictionary |
| Soap.FillMissing | pipeline/gemini_llm.py:281-284 | the first loop adds each missing section as the placeholder and changes nothing else |
| Soap.ClearUnusable | pipeline/gemini_llm.py:287-294 | the second loop replaces each section that is not a string, blank or a generic placeholder, and keeps the rest |
| Soap.RepairSoapSections | pipeline/gemini_llm.py:281-294 | after repair every section is a non-blank string that is not `n/a`, `na` or `none` |
| Soap.RepairSoapReplaces | pipeline/gemini_llm.py:287-294 | a section is the placeholder after repair exactly when it was missing, unusable or already the placeholder |
| Soap.RepairSoapKeepsGood | pipeline/gemini_llm.py:287-294 | a dictionary whose four sections are usable is returned unchanged, with no trimming |
| Soap.RepairSoapIdempotent | pipeline/gemini_llm.py:273-301 | repairing twice is repairing once |
| Soap.TrimmedLongGood | pipeline/gemini_llm.py:289-292 | a string longer than four characters without whitespace at its ends is a usable section |
| Soap.EmptyNote | pipeline/gemini_llm.py:491-498 | the four sections, each `Not discussed` |
| Soap.SalvageNote | pipeline/gemini_llm.py:511-521 | exactly the four sections, each the salvaged value of its key |
| Soap.SalvageSection | pipeline/gemini_llm.py:515-521 | the placeholder, or a value without a double quote |
| Soap.SalvageJson | pipeline/gemini_llm.py:501-528 | always returns the salvaged four-section note, never `None` |
| Soap.SalvageSections | pipeline/gemini_llm.py:513-521 | the loop builds one entry per section, each the first match of `"Key"\s*:\s*"([^"]*)"` or the placeholder |
| Soap.FindField | pipeline/gemini_llm.py:517-518 | the leftmost position where the pattern matches, or none when it matches nowhere |
| Soap.MatchAtField | pipeline/gemini_llm.py:517-519 | where the quoted key is followed by a colon, a space and a quoted string without quotes, the pattern matches there and captures that string |
| Soap.SalvageRecovers | pipeline/gemini_llm.py:517-519 | the first `"Key": "value"` field with quote-free text before it is recovered exactly |
| Soap.FirstMatch | pipeline/gemini_llm.py:518 | the salvaged value is the first match, not a later one |
| Soap.SalvageQuoteless | pipeline/gemini_llm.py:513-523 | text without double quotes salvages to the empty note |
| Prompts.FormatPlain | pipeline/gemini_llm.py:337 | brace-free template text is copied unchanged |
| Prompts.FormatField | pipeline/gemini_llm.py:77 | the field `{transcript}` is replaced by the transcript, whatever braces the transcript holds |
| Prompts.FieldRaisesKeyError | pipeline/gemini_llm.py:419 | a brace-delimited field named by another identifier raises `KeyError` with the name |
| Prompts.FormatEscaped | pipeline/gemini_llm.py:146-153 | doubled braces stand for single ones |
| Prompts.DiarizationTemplateFormats | pipeline/gemini_llm.py:32-80 | the diarization prompt is the template with the transcript in place of its field |
| Prompts.SoapTemplateRaises | pipeline/gemini_llm.py:84-156 | formatting the SOAP template as written raises `KeyError('\n  "Subjective"')` for every transcript |
| Prompts.EscapedSoapTemplateFormats | pipeline/gemini_llm.py:84-156 | with the example's braces doubled, the SOAP prompt is the template with the transcript in place and single braces around the example |
| Pipeline.CorrectDiarization | pipeline/gemini_llm.py:308-393 | the method's result and call count are those of `Diarize` |
| Pipeline.DiarizationAttempts | pipeline/gemini_llm.py:341-389 | the retry loop's result and call count are those of `DiarizeFrom` |
| Pipeline.CandidatePlain | pipeline/gemini_llm.py:359-363 | an answer without a backtick is only stripped; braces and prose in it are kept |
| Pipeline.CandidateFenced | pipeline/gemini_llm.py:359-363 | an answer holding a ```` ```json ```` block with a braced body is reduced to that body, stripped |
| Pipeline.DiarizeFrom | pipeline/gemini_llm.py:343-389 | the attempts make at most two calls |
| Pipeline.DiarizeKeepsWords | pipeline/gemini_llm.py:308-393 | the result is the original transcript, or a text with exactly the words of the preprocessed transcript; there are at most two calls |
| Pipeline.DiarizeSkips | pipeline/gemini_llm.py:323-330 | blank or unlabelled input is returned unchanged without a call |
| Pipeline.DiarizeFirstAnswer | pipeline/gemini_llm.py:353-384 | the first usable answer decides after one call: its candidate if the words agree, the original otherwise, with no retry |
| Pipeline.DiarizeEchoAccepted | pipeline/gemini_llm.py:357-384 | an answer that echoes the preprocessed transcript is returned |
| Pipeline.DiarizeExhausted | pipeline/gemini_llm.py:353-393 | when no reply is usable, the original comes back after two calls |
| Pipeline.GenerateSoap | pipeline/gemini_llm.py:396-484 | the method's outcome and call count are those of `GeneratedSoap` |
| Pipeline.SoapAttempts | pipeline/gemini_llm.py:424-480 | the retry loop's note and call count are those of `SoapFrom` |
| Pipeline.SoapAttempt | pipeline/gemini_llm.py:448-471 | the inner handling of one cleaned answer is that of `SoapFromText` |
| Pipeline.Strings | pipeline/gemini_llm.py:457-458 | a dictionary of string values, with the same keys and values |
| Pipeline.SoapFrom | pipeline/gemini_llm.py:426-480 | the attempts make at most two calls |
| Pipeline.SoapFromHasSections | pipeline/gemini_llm.py:426-480 | every note the attempts give has the four sections |
| Pipeline.SoapFromTextHasSections | pipeline/gemini_llm.py:448-468 | every note from one answer has the four sections |
| Pipeline.ParsedNoteSections | pipeline/gemini_llm.py:449-458 | a note from a parsed object has passed the repair: usable sections kept, the rest the placeholder, other keys kept |
| Pipeline.RetriedWhenRaising | pipeline/gemini_llm.py:449-476 | unparsable text is salvaged at once; a non-object value, or an object with a non-string value under some other key, costs the attempt |
| Pipeline.SoapBlank | pipeline/gemini_llm.py:411-413 | blank input gives the empty note without a call |
| Pipeline.SoapAsWrittenRaises | pipeline/gemini_llm.py:416-419 | as written, every input that is not blank escapes with `KeyError` before any call |
| Pipeline.SoapEscapedGivesNote | pipeline/gemini_llm.py:396-484 | with the corrected template the stage always returns a note with the four sections, after at most two calls |
| Pipeline.SoapFirstAnswer | pipeline/gemini_llm.py:437-468 | the first usable answer that yields a note is returned after one call |
| Pipeline.SoapExhausted | pipeline/gemini_llm.py:473-484 | when no attempt yields a note, the empty note comes back after two calls |

## Left out

- Unicode: characters are modelled over ASCII. `str.isspace` and `\s` are the ASCII whitespace characters, including the codes 28 to 31. `lower` maps A–Z only. `\w` is `[A-Za-z0-9_]`.
- The Gemini client, its configuration and its generation settings (lines 12-25, 347-353, 429-435): the model is the `oracle` parameter.
- `json.loads`: it is the `parse` parameter; its own grammar is not modelled.
- The key order of the repaired dictionary. The source adds the missing sections in place, after the input's keys, in the order Subjective, Objective, Assessment, Plan (lines 281-284). `RepairSoap` returns a `map`, which has no order. Nothing in the stage depends on the order.
- Logging everywhere, including the third loop of `validate_soap_json` (lines 296-299), which only logs.
- `_log_soap_metrics` (lines 531-545) does nothing but log, except that `len` and `split` raise on a value that is not a string. That raise is the only part modelled, as the `AllStrings` test.
- The text of the `Word mismatch` message: Python prints sets in hash order, so the diagnostic is a datatype carrying the two sets.
- Prompts: the instruction prose of both templates is shortened to its first sentence and the section headings. It holds no braces, and the brace structure is all that formatting depends on. The answer depends on the prompt only through the `oracle`.
- `Prompts.Format` covers the part of `str.format` the templates reach; neither template reaches the rest. A field holding `{`, and attribute or index access, give `NotModelled`. A conversion or format spec on `transcript` gives `NotModelled` as well. On any other name the field gives `KeyError` with the name, as Python's lookup does. A malformed conversion such as `{foo!}` or `{foo!xx}` also gives `KeyError(name)`, where Python raises `ValueError` while parsing the template.
- `pipeline/core.py`, `database/patient_db.py`, `database/cosmos_client.py`, `database/azure_client.py` and `database/create_tables.py` are not part of this model. They are storage, encryption and delegation plumbing with no logic of their own to state.
- Exceptions other than the ones described here are left out: memory errors, recursion limits and interrupts.

## Findings

| source | as written | input that shows it | evidently intended | confidence | as-written member | corrected member |
|---|---|---|---|---|---|---|
| pipeline/gemini_llm.py:146-153, 419 | The JSON example in `SOAP_GENERATION_PROMPT` keeps single braces. `str.format` reads `{` as the start of a replacement field named `\n  "Subjective"` and raises `KeyError` at line 419, before the `try` at line 424. So `generate_soap` raises for every transcript that is not blank, and never calls the model. | any transcript that is not blank, e.g. `"Doctor: hi. Patient: hello."` | the example's braces doubled (`{{` … `}}`), so that the prompt shows the example object and the stage returns a SOAP note | high (proof; not executed) | Pipeline.SoapAsWrittenRaises | Pipeline.SoapEscapedGivesNote |
