/**
 * The two stages that call the language model: `correct_diarization` and
 * `generate_soap`. The model is a function of the prompt and the attempt
 * number, so that each attempt may answer differently; `json.loads` is a
 * function from text to a parsed value, or to nothing when the text is not
 * JSON.
 */
module Pipeline {
  import opened Wrappers
  import opened Text
  import opened Normalizer
  import opened Validators
  import opened Sanitizer
  import opened Soap
  import opened Prompts

  /** One call to the model: the text of its answer (empty when the response
      has no text), or an exception raised by the client. */
  datatype Reply = Answer(text: string) | Failure

  /** Both stages try the model this many times. */
  const MaxRetries: nat := 2

  /** A stage's result together with the number of model calls it made. */
  datatype Run<T> = Run(value: T, calls: nat)

  /** An answer that is to be used: a reply with non-empty text. */
  predicate Usable(reply: Reply) {
    reply.Answer? && reply.text != []
  }

  // ---------------------------------------------------------------------
  // correct_diarization

  /** What an answer becomes before it is checked: stripped, and cleaned as
      JSON when it holds a code fence. */
  function Candidate(answer: string): string {
    var corrected := Strip(answer);
    if Contains(corrected, "```") then CleanJson(corrected) else corrected
  }

  /** An answer without a backtick is only stripped: braces and prose in it
      are kept. */
  lemma CandidatePlain(answer: string)
    requires NoChar(answer, '`')
    ensures Candidate(answer) == Strip(answer)
  {
    var t := Strip(answer);
    assert NoChar(t, '`') by { StripSlice(answer); }
    NoFenceWithoutBacktick(t);
  }

  /** An answer that puts the text in a ```` ```json ```` block keeps only
      the stripped body of the block, when that body is braced. */
  lemma CandidateFenced(pre: string, inner: string, post: string)
    requires NoChar(pre, '`') && NoChar(inner, '`')
    requires Trimmed(pre + "```json" + inner + "```" + post)
    requires Braced(Strip(inner))
    ensures Candidate(pre + "```json" + inner + "```" + post) == Strip(inner)
  {
    var t := pre + "```json" + inner + "```" + post;
    StripTrimmed(t);
    assert "```" <= t[|pre|..];
    CleanJsonFenced(pre, inner, post);
  }

  /** The attempts of `correct_diarization` from attempt `attempt` on. An
      unusable reply moves on to the next attempt (an exception on the last
      one ends in the handler that returns the original); the first usable
      answer decides: it is returned when it keeps the words of the
      preprocessed transcript, and the original is returned otherwise. */
  function DiarizeFrom(original: string, pre: string, prompt: string,
                       oracle: (string, nat) -> Reply, attempt: nat): (r: Run<string>)
    requires attempt <= MaxRetries
    ensures r.calls <= MaxRetries - attempt
    decreases MaxRetries - attempt
  {
    if attempt >= MaxRetries then Run(original, 0)
    else
      var reply := oracle(prompt, attempt);
      if !Usable(reply) then
        var rest := DiarizeFrom(original, pre, prompt, oracle, attempt + 1);
        Run(rest.value, rest.calls + 1)
      else
        var corrected := Candidate(reply.text);
        if ValidateCorrection(pre, corrected).0 then Run(corrected, 1) else Run(original, 1)
  }

  /** The prompt for a preprocessed transcript. */
  function DiarizationPrompt(pre: string): string {
    DiarizationTemplateFormats(pre);
    Format(DiarizationTemplate, pre).value
  }

  /** The result of `correct_diarization`. */
  function Diarize(transcript: string, oracle: (string, nat) -> Reply): Run<string> {
    if Blank(transcript) || !SpeakerLabelsValid(transcript) then Run(transcript, 0)
    else
      var pre := Preprocess(transcript);
      DiarizeFrom(transcript, pre, DiarizationPrompt(pre), oracle, 0)
  }

  /** `correct_diarization`. */
  method CorrectDiarization(transcript: string, oracle: (string, nat) -> Reply)
    returns (result: string, calls: nat)
    ensures Run(result, calls) == Diarize(transcript, oracle)
  {
    StripBlank(transcript);
    if transcript == [] || Strip(transcript) == [] {
      return transcript, 0;
    }
    if !SpeakerLabelsValid(transcript) {
      return transcript, 0;
    }
    var pre := PreprocessTranscript(transcript);
    var formatted := Format(DiarizationTemplate, pre);
    DiarizationTemplateFormats(pre);
    var prompt := formatted.value;
    result, calls := DiarizationAttempts(transcript, pre, prompt, oracle);
  }

  /** The retry loop of `correct_diarization`. */
  method DiarizationAttempts(original: string, pre: string, prompt: string, oracle: (string, nat) -> Reply)
    returns (result: string, calls: nat)
    ensures Run(result, calls) == DiarizeFrom(original, pre, prompt, oracle, 0)
  {
    ghost var total := DiarizeFrom(original, pre, prompt, oracle, 0);
    calls := 0;
    var attempt := 0;
    while attempt < MaxRetries
      invariant attempt <= MaxRetries && calls == attempt
      invariant total == Run(DiarizeFrom(original, pre, prompt, oracle, attempt).value,
                             DiarizeFrom(original, pre, prompt, oracle, attempt).calls + calls)
    {
      var reply := oracle(prompt, attempt);
      calls := calls + 1;
      DiarizeFromStep(original, pre, prompt, oracle, attempt);
      if reply.Answer? && reply.text != [] {
        var corrected, valid := CheckedCorrection(pre, reply.text);
        if !valid {
          return original, calls;
        }
        return corrected, calls;
      }
      attempt := attempt + 1;
    }
    result := original;
  }

  /** One attempt of `correct_diarization`: a usable answer ends the
      attempts, anything else moves on to the next one. */
  lemma DiarizeFromStep(original: string, pre: string, prompt: string,
                        oracle: (string, nat) -> Reply, attempt: nat)
    requires attempt < MaxRetries
    ensures var reply := oracle(prompt, attempt);
      Usable(reply) ==>
        var c := Candidate(reply.text);
        DiarizeFrom(original, pre, prompt, oracle, attempt) ==
          if Words(pre) == Words(c) then Run(c, 1) else Run(original, 1)
    ensures var reply := oracle(prompt, attempt);
      !Usable(reply) ==>
        var rest := DiarizeFrom(original, pre, prompt, oracle, attempt + 1);
        DiarizeFrom(original, pre, prompt, oracle, attempt) == Run(rest.value, rest.calls + 1)
  {
  }

  /** One answer of the model, cleaned and checked against the preprocessed
      transcript. */
  method CheckedCorrection(pre: string, answer: string) returns (corrected: string, valid: bool)
    ensures corrected == Candidate(answer)
    ensures valid <==> Words(pre) == Words(corrected)
  {
    corrected := Strip(answer);
    if Contains(corrected, "```") {
      corrected := CleanJson(corrected);
    }
    var check := ValidateCorrection(pre, corrected);
    valid := check.0;
  }

  /** The stage never changes a word: it returns the transcript itself, or a
      text with exactly the words of the preprocessed transcript, in order. */
  lemma DiarizeKeepsWords(transcript: string, oracle: (string, nat) -> Reply)
    ensures var r := Diarize(transcript, oracle).value;
      r == transcript || Words(r) == Words(Preprocess(transcript))
    ensures Diarize(transcript, oracle).calls <= MaxRetries
  {
    if !(Blank(transcript) || !SpeakerLabelsValid(transcript)) {
      var pre := Preprocess(transcript);
      DiarizeFromKeepsWords(transcript, pre, DiarizationPrompt(pre), oracle, 0);
    }
  }

  lemma {:induction false} DiarizeFromKeepsWords(original: string, pre: string, prompt: string,
                                                 oracle: (string, nat) -> Reply, attempt: nat)
    requires attempt <= MaxRetries
    ensures var r := DiarizeFrom(original, pre, prompt, oracle, attempt).value;
      r == original || Words(r) == Words(pre)
    decreases MaxRetries - attempt
  {
    if attempt < MaxRetries && !Usable(oracle(prompt, attempt)) {
      DiarizeFromKeepsWords(original, pre, prompt, oracle, attempt + 1);
    }
  }

  /** A blank transcript, or one without both speaker labels, is returned as
      it is, without calling the model. */
  lemma DiarizeSkips(transcript: string, oracle: (string, nat) -> Reply)
    requires Blank(transcript) || !SpeakerLabelsValid(transcript)
    ensures Diarize(transcript, oracle) == Run(transcript, 0)
  {
  }

  /** The first usable answer decides, with no further attempt: its
      candidate when that keeps the words, the original otherwise. */
  lemma DiarizeFirstAnswer(transcript: string, oracle: (string, nat) -> Reply)
    requires !Blank(transcript) && SpeakerLabelsValid(transcript)
    requires Usable(oracle(DiarizationPrompt(Preprocess(transcript)), 0))
    ensures var c := Candidate(oracle(DiarizationPrompt(Preprocess(transcript)), 0).text);
      Diarize(transcript, oracle) ==
        if Words(c) == Words(Preprocess(transcript)) then Run(c, 1) else Run(transcript, 1)
  {
  }

  /** A model that echoes the preprocessed transcript has it accepted. */
  lemma DiarizeEchoAccepted(transcript: string, oracle: (string, nat) -> Reply)
    requires !Blank(transcript) && SpeakerLabelsValid(transcript)
    requires var pre := Preprocess(transcript);
      oracle(DiarizationPrompt(pre), 0) == Answer(pre) && !Contains(pre, "```")
    ensures Diarize(transcript, oracle) == Run(Preprocess(transcript), 1)
  {
    var pre := Preprocess(transcript);
    PreprocessShape(transcript);
    StripTrimmed(pre);
    assert Candidate(pre) == pre;
    DiarizeFirstAnswer(transcript, oracle);
  }

  /** When the model never gives a usable answer, the original comes back
      after every attempt has been made. */
  lemma DiarizeExhausted(transcript: string, oracle: (string, nat) -> Reply)
    requires !Blank(transcript) && SpeakerLabelsValid(transcript)
    requires forall n :: !Usable(oracle(DiarizationPrompt(Preprocess(transcript)), n))
    ensures Diarize(transcript, oracle) == Run(transcript, MaxRetries)
  {
  }

  // ---------------------------------------------------------------------
  // generate_soap

  /** What `generate_soap` gives its caller: a note, or the exception that
      escapes it (formatting the prompt happens outside its handler). */
  datatype SoapOutcome = Note(note: map<string, string>) | Raised(error: FormatError)

  predicate AllStrings(soap: map<string, Json>) {
    forall k :: k in soap ==> soap[k].JString?
  }

  function Strings(soap: map<string, Json>): (r: map<string, string>)
    requires AllStrings(soap)
    ensures r.Keys == soap.Keys
    ensures forall k :: k in soap ==> soap[k] == JString(r[k])
  {
    map k | k in soap :: soap[k].s
  }

  /** What one usable answer yields, from its cleaned text: a note, or
      nothing when the attempt raises. Text that is not JSON is salvaged. A
      parsed object is repaired; logging its metrics then takes the length
      and the words of every value, which raises unless every value is a
      string. A parsed value that is not an object raises when its keys are
      listed. */
  function SoapFromText(text: string, parse: string -> Option<Json>): Option<map<string, string>> {
    match parse(text)
    case None => Some(SalvageNote(text))
    case Some(JObject(fields)) =>
      var repaired := RepairSoap(fields);
      if AllStrings(repaired) then Some(Strings(repaired)) else None
    case Some(_) => None
  }

  /** The cleaned text of an answer. */
  function SoapText(answer: string): string {
    CleanJson(Strip(answer))
  }

  /** The attempts of `generate_soap` from attempt `attempt` on: the first
      usable answer that yields a note ends them; an exception on the last
      attempt, like running out of attempts, gives the empty note. */
  function SoapFrom(prompt: string, oracle: (string, nat) -> Reply, parse: string -> Option<Json>,
                    attempt: nat): (r: Run<map<string, string>>)
    requires attempt <= MaxRetries
    ensures r.calls <= MaxRetries - attempt
    decreases MaxRetries - attempt
  {
    if attempt >= MaxRetries then Run(EmptyNote(), 0)
    else
      var reply := oracle(prompt, attempt);
      var note := if Usable(reply) then SoapFromText(SoapText(reply.text), parse) else None;
      if note.Some? then Run(note.value, 1)
      else
        var rest := SoapFrom(prompt, oracle, parse, attempt + 1);
        Run(rest.value, rest.calls + 1)
  }

  /** The result of `generate_soap` with a given prompt template. */
  function GeneratedSoap(template: string, transcript: string,
                oracle: (string, nat) -> Reply, parse: string -> Option<Json>): Run<SoapOutcome> {
    if Blank(transcript) then Run(Note(EmptyNote()), 0)
    else
      match Format(template, Preprocess(transcript))
      case Err(e) => Run(Raised(e), 0)
      case Ok(prompt) =>
        var r := SoapFrom(prompt, oracle, parse, 0);
        Run(Note(r.value), r.calls)
  }

  /** `generate_soap`, with the prompt template as a parameter. */
  method GenerateSoap(template: string, transcript: string,
                      oracle: (string, nat) -> Reply, parse: string -> Option<Json>)
    returns (outcome: SoapOutcome, calls: nat)
    ensures Run(outcome, calls) == GeneratedSoap(template, transcript, oracle, parse)
  {
    StripBlank(transcript);
    if transcript == [] || Strip(transcript) == [] {
      return Note(EmptyNote()), 0;
    }
    var pre := PreprocessTranscript(transcript);
    var formatted := Format(template, pre);
    if formatted.Err? {
      return Raised(formatted.error), 0;
    }
    var prompt := formatted.value;
    var note;
    note, calls := SoapAttempts(prompt, oracle, parse);
    outcome := Note(note);
  }

  /** The retry loop of `generate_soap`. */
  method SoapAttempts(prompt: string, oracle: (string, nat) -> Reply, parse: string -> Option<Json>)
    returns (note: map<string, string>, calls: nat)
    ensures Run(note, calls) == SoapFrom(prompt, oracle, parse, 0)
  {
    ghost var total := SoapFrom(prompt, oracle, parse, 0);
    calls := 0;
    var attempt := 0;
    while attempt < MaxRetries
      invariant attempt <= MaxRetries && calls == attempt
      invariant total == Run(SoapFrom(prompt, oracle, parse, attempt).value,
                             SoapFrom(prompt, oracle, parse, attempt).calls + calls)
    {
      var reply := oracle(prompt, attempt);
      calls := calls + 1;
      var result := None;
      if reply.Answer? && reply.text != [] {
        var text := Strip(reply.text);
        text := CleanJson(text);
        result := SoapAttempt(text, parse);
      }
      SoapFromStep(prompt, oracle, parse, attempt, result);
      if result.Some? {
        return result.value, calls;
      }
      attempt := attempt + 1;
    }
    note := EmptyNote();
  }

  /** One attempt of `generate_soap`: a note ends the attempts, anything
      else moves on to the next one. */
  lemma SoapFromStep(prompt: string, oracle: (string, nat) -> Reply, parse: string -> Option<Json>,
                     attempt: nat, result: Option<map<string, string>>)
    requires attempt < MaxRetries
    requires result == if Usable(oracle(prompt, attempt))
      then SoapFromText(SoapText(oracle(prompt, attempt).text), parse) else None
    ensures result.Some? ==> SoapFrom(prompt, oracle, parse, attempt) == Run(result.value, 1)
    ensures result.None? ==>
      var rest := SoapFrom(prompt, oracle, parse, attempt + 1);
      SoapFrom(prompt, oracle, parse, attempt) == Run(rest.value, rest.calls + 1)
  {
  }

  /** The inner `try` of one attempt of `generate_soap`, from the cleaned
      text: nothing when it raises. */
  method SoapAttempt(text: string, parse: string -> Option<Json>) returns (note: Option<map<string, string>>)
    ensures note == SoapFromText(text, parse)
  {
    match parse(text) {
      case None =>
        note := SalvageJson(text);
      case Some(result) =>
        if result.JObject? {
          var valid, repaired := ValidateSoapJson(result.fields);
          if valid && AllStrings(repaired) {
            return Some(Strings(repaired));
          }
        }
        note := None;
    }
  }

  /** Every note the attempts give holds the four sections. */
  lemma {:induction false} SoapFromHasSections(prompt: string, oracle: (string, nat) -> Reply,
                                               parse: string -> Option<Json>, attempt: nat)
    requires attempt <= MaxRetries
    ensures RequiredSet <= SoapFrom(prompt, oracle, parse, attempt).value.Keys
    decreases MaxRetries - attempt
  {
    if attempt < MaxRetries {
      var reply := oracle(prompt, attempt);
      var note := if Usable(reply) then SoapFromText(SoapText(reply.text), parse) else None;
      if note.Some? {
        assert SoapFrom(prompt, oracle, parse, attempt).value == note.value;
        SoapFromTextHasSections(SoapText(reply.text), parse);
      } else {
        assert SoapFrom(prompt, oracle, parse, attempt).value == SoapFrom(prompt, oracle, parse, attempt + 1).value;
        SoapFromHasSections(prompt, oracle, parse, attempt + 1);
      }
    }
  }

  lemma SoapFromTextHasSections(text: string, parse: string -> Option<Json>)
    ensures var note := SoapFromText(text, parse);
      note.Some? ==> RequiredSet <= note.value.Keys
  {
  }

  /** A note made from a parsed object has every required section usable:
      the object's own usable sections unchanged, the rest the placeholder;
      and it keeps every other key of the object. */
  lemma ParsedNoteSections(text: string, parse: string -> Option<Json>, fields: map<string, Json>)
    requires parse(text) == Some(JObject(fields)) && SoapFromText(text, parse).Some?
    ensures var note := SoapFromText(text, parse).value;
      && note.Keys == fields.Keys + RequiredSet
      && (forall k :: k in RequiredSet ==> GoodSection(JString(note[k])))
      && (forall k :: k in RequiredSet && k in fields && GoodSection(fields[k]) ==> JString(note[k]) == fields[k])
      && (forall k :: k in RequiredSet && !(k in fields && GoodSection(fields[k])) ==> note[k] == Sentinel)
      && (forall k :: k in fields && k !in RequiredSet ==> JString(note[k]) == fields[k])
  {
    var repaired := RepairSoap(fields);
    assert AllStrings(repaired);
    assert SoapFromText(text, parse) == Some(Strings(repaired));
    RepairedNote(fields, Strings(repaired));
  }

  /** The same facts about the repaired object itself. */
  lemma RepairedNote(fields: map<string, Json>, note: map<string, string>)
    requires AllStrings(RepairSoap(fields)) && note == Strings(RepairSoap(fields))
    ensures && note.Keys == fields.Keys + RequiredSet
      && (forall k :: k in RequiredSet ==> GoodSection(JString(note[k])))
      && (forall k :: k in RequiredSet && k in fields && GoodSection(fields[k]) ==> JString(note[k]) == fields[k])
      && (forall k :: k in RequiredSet && !(k in fields && GoodSection(fields[k])) ==> note[k] == Sentinel)
      && (forall k :: k in fields && k !in RequiredSet ==> JString(note[k]) == fields[k])
  {
    RepairSoapSections(fields);
  }

  /** Text that is not JSON is always salvaged, so it never costs another
      attempt; a parsed value that is not an object always does, and so does
      an object with a value other than a string under some key that is not
      a section. */
  lemma RetriedWhenRaising(text: string, parse: string -> Option<Json>)
    ensures parse(text).None? ==> SoapFromText(text, parse) == Some(SalvageNote(text))
    ensures parse(text).Some? && !parse(text).value.JObject? ==> SoapFromText(text, parse) == None
    ensures parse(text).Some? && parse(text).value.JObject? ==>
      (SoapFromText(text, parse).None? <==>
        exists k :: k in parse(text).value.fields && k !in RequiredSet && !parse(text).value.fields[k].JString?)
  {
    if parse(text).Some? && parse(text).value.JObject? {
      var fields := parse(text).value.fields;
      var repaired := RepairSoap(fields);
      assert SoapFromText(text, parse).None? <==> !AllStrings(repaired);
      RepairedStrings(fields);
    }
  }

  /** Repair makes every section a string and leaves the other keys alone,
      so the repaired object holds only strings exactly when the object's
      other keys do. */
  lemma RepairedStrings(fields: map<string, Json>)
    ensures !AllStrings(RepairSoap(fields)) <==>
      exists k :: k in fields && k !in RequiredSet && !fields[k].JString?
  {
    RepairSoapSections(fields);
    var repaired := RepairSoap(fields);
    if !AllStrings(repaired) {
      var k :| k in repaired && !repaired[k].JString?;
      assert k in fields && k !in RequiredSet;
    }
  }

  /** Blank text gives the empty note without calling the model. */
  lemma SoapBlank(template: string, transcript: string,
                  oracle: (string, nat) -> Reply, parse: string -> Option<Json>)
    requires Blank(transcript)
    ensures GeneratedSoap(template, transcript, oracle, parse) == Run(Note(EmptyNote()), 0)
  {
  }

  /** As written, `generate_soap` raises `KeyError` for every transcript
      that is not blank, before the model is called: the JSON example in its
      template is read as a replacement field. */
  lemma SoapAsWrittenRaises(transcript: string, oracle: (string, nat) -> Reply, parse: string -> Option<Json>)
    requires !Blank(transcript)
    ensures GeneratedSoap(SoapTemplate, transcript, oracle, parse) == Run(Raised(KeyError("\n  \"Subjective\"")), 0)
  {
    SoapTemplateRaises(Preprocess(transcript));
  }

  /** With the example's braces doubled, `generate_soap` always returns a
      note holding the four sections, after at most two calls; the prompt is
      the template around the preprocessed transcript. */
  lemma SoapEscapedGivesNote(transcript: string, oracle: (string, nat) -> Reply, parse: string -> Option<Json>)
    ensures var r := GeneratedSoap(EscapedSoapTemplate, transcript, oracle, parse);
      r.value.Note? && RequiredSet <= r.value.note.Keys && r.calls <= MaxRetries
  {
    if !Blank(transcript) {
      var pre := Preprocess(transcript);
      EscapedSoapTemplateFormats(pre);
      SoapFromHasSections(Format(EscapedSoapTemplate, pre).value, oracle, parse, 0);
    }
  }

  /** The first usable answer that yields a note is the result, after one
      call. */
  lemma SoapFirstAnswer(prompt: string, oracle: (string, nat) -> Reply, parse: string -> Option<Json>)
    requires Usable(oracle(prompt, 0)) && SoapFromText(SoapText(oracle(prompt, 0).text), parse).Some?
    ensures SoapFrom(prompt, oracle, parse, 0) == Run(SoapFromText(SoapText(oracle(prompt, 0).text), parse).value, 1)
  {
  }

  /** When no attempt yields a note, the empty note comes back after every
      attempt has been made. */
  lemma SoapExhausted(prompt: string, oracle: (string, nat) -> Reply, parse: string -> Option<Json>)
    requires forall n :: !Usable(oracle(prompt, n)) || SoapFromText(SoapText(oracle(prompt, n).text), parse).None?
    ensures SoapFrom(prompt, oracle, parse, 0) == Run(EmptyNote(), MaxRetries)
  {
  }
}
