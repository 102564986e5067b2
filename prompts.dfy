/**
 * The two prompt templates and the part of `str.format` they rely on: each
 * template holds one `{transcript}` replacement field, filled in with the
 * preprocessed transcript.
 */
module Prompts {
  import opened Wrappers
  import opened Text

  /** The exceptions `str.format(transcript=...)` raises. */
  datatype FormatError =
    | KeyError(key: string)   // a named field other than `transcript`
    | IndexError              // an automatic or numbered field: there are no positional arguments
    | SingleBrace             // a `}` that is not doubled and closes no field
    | UnclosedField           // a `{` with no `}` after it
    | NotModelled             // nested fields, attribute or index access, conversions, format specs

  predicate NoBrace(s: string) {
    forall i :: 0 <= i < |s| ==> s[i] != '{' && s[i] != '}'
  }

  predicate AllDigits(s: string) {
    forall i :: 0 <= i < |s| ==> '0' <= s[i] <= '9'
  }

  /** Puts `s` in front of a successful result. */
  function Prepend(s: string, r: Result<string, FormatError>): Result<string, FormatError> {
    match r
    case Ok(t) => Ok(s + t)
    case Err(e) => Err(e)
  }

  /** The field name: the field up to its first `:` or `!`. */
  function FieldName(field: string): (name: string)
    ensures name <= field
    ensures forall i :: 0 <= i < |name| ==> name[i] != ':' && name[i] != '!'
    ensures |name| < |field| ==> field[|name|] == ':' || field[|name|] == '!'
  {
    if field == [] || field[0] == ':' || field[0] == '!' then []
    else [field[0]] + FieldName(field[1..])
  }

  /** `template.format(transcript=value)`: doubled braces stand for
      themselves, the field `{transcript}` is replaced by `value`, and the
      first other field or stray brace, from the left, raises. */
  function Format(template: string, value: string): Result<string, FormatError>
    decreases |template|
  {
    if template == [] then Ok([])
    else if template[0] == '{' then
      if |template| > 1 && template[1] == '{' then Prepend("{", Format(template[2..], value))
      else
        match IndexOf(template, "}", 1)
        case None => Err(UnclosedField)
        case Some(close) =>
          var field := template[1..close];
          var name := FieldName(field);
          if Contains(field, "{") then Err(NotModelled)
          else if name == [] || AllDigits(name) then Err(IndexError)
          else if Contains(name, ".") || Contains(name, "[") then Err(NotModelled)
          else if name != "transcript" then Err(KeyError(name))
          else if |name| < |field| then Err(NotModelled)
          else Prepend(value, Format(template[close + 1..], value))
    else if template[0] == '}' then
      if |template| > 1 && template[1] == '}' then Prepend("}", Format(template[2..], value))
      else Err(SingleBrace)
    else Prepend([template[0]], Format(template[1..], value))
  }

  lemma PrependAppend(a: string, b: string, r: Result<string, FormatError>)
    ensures Prepend(a, Prepend(b, r)) == Prepend(a + b, r)
  {
    if r.Ok? {
      assert a + (b + r.value) == (a + b) + r.value;
    }
  }

  /** Text without braces is copied as it is. */
  lemma {:induction false} FormatPlain(s: string, rest: string, value: string)
    requires NoBrace(s)
    ensures Format(s + rest, value) == Prepend(s, Format(rest, value))
    decreases |s|
  {
    if s == [] {
      assert s + rest == rest;
      assert Prepend([], Format(rest, value)) == Format(rest, value) by {
        if Format(rest, value).Ok? {
          assert [] + Format(rest, value).value == Format(rest, value).value;
        }
      }
    } else {
      assert (s + rest)[0] == s[0];
      assert (s + rest)[1..] == s[1..] + rest;
      FormatPlain(s[1..], rest, value);
      PrependAppend([s[0]], s[1..], Format(rest, value));
      assert [s[0]] + s[1..] == s;
    }
  }

  /** The replacement field `{transcript}`. */
  const TranscriptField: string := "{" + "transcript" + "}"

  /** The field `{transcript}` is replaced by the value. */
  lemma FormatField(rest: string, value: string)
    ensures Format(TranscriptField + rest, value) == Prepend(value, Format(rest, value))
  {
    TranscriptFieldName();
    TranscriptIsName();
    FieldSubstitutes("transcript", rest, value);
  }

  lemma TranscriptFieldName()
    ensures FieldName("transcript") == "transcript"
  {
    FieldNameOfName("transcript", []);
    assert "transcript" + [] == "transcript";
  }

  /** `transcript` is a plain identifier. */
  lemma TranscriptIsName()
    ensures NoBrace("transcript") && !AllDigits("transcript")
    ensures !Contains("transcript", ".") && !Contains("transcript", "[")
  {
    NoCharNotContains("transcript", '.');
    NoCharNotContains("transcript", '[');
    assert "transcript"[0] == 't';
  }

  /** A brace-free field that is exactly the name `transcript` is replaced by
      the value. */
  lemma FieldSubstitutes(body: string, rest: string, value: string)
    requires NoBrace(body) && body == "transcript"
    requires FieldName(body) == body && !AllDigits(body)
    requires !Contains(body, ".") && !Contains(body, "[")
    ensures Format("{" + body + "}" + rest, value) == Prepend(value, Format(rest, value))
  {
    var t := "{" + body + "}" + rest;
    ReplacementFieldLayout(body, rest);
    assert !Contains(body, "{") by { NoCharNotContains(body, '{'); }
    FormatAtField(t, |body| + 1, body, rest, value);
  }

  /** `t` opens a replacement field (not a doubled brace) holding `body`,
      closed at `close` and followed by `rest`. */
  predicate FieldAt(t: string, close: nat, body: string, rest: string) {
    && 1 < |t| && t[0] == '{' && t[1] != '{'
    && IndexOf(t, "}", 1) == Some(close)
    && t[1..close] == body && t[close + 1..] == rest
  }

  lemma ReplacementFieldLayout(body: string, rest: string)
    requires |body| > 0 && NoBrace(body)
    ensures FieldAt("{" + body + "}" + rest, |body| + 1, body, rest)
  {
    var t := "{" + body + "}" + rest;
    var close := |body| + 1;
    assert t[close..] == "}" + rest;
    forall a | 1 <= a < close
      ensures t[a] != '}'
    {
      assert t[a] == body[a - 1];
    }
    FirstOccurrence(t, "}", 1, close);
    assert t[1..close] == body;
    assert t[close + 1..] == rest;
    assert t[1] == body[0];
  }

  /** Formatting at a field that is exactly `transcript`. */
  lemma FormatAtField(t: string, close: nat, body: string, rest: string, value: string)
    requires FieldAt(t, close, body, rest)
    requires body == "transcript" && FieldName(body) == body && !AllDigits(body)
    requires !Contains(body, ".") && !Contains(body, "[") && !Contains(body, "{")
    ensures Format(t, value) == Prepend(value, Format(rest, value))
  {
  }

  /** A one-character pattern occurs only where its character does. */
  lemma NoCharNotContains(s: string, c: char)
    requires forall i :: 0 <= i < |s| ==> s[i] != c
    ensures !Contains(s, [c])
  {
    forall i | 0 <= i <= |s|
      ensures !([c] <= s[i..])
    {
      if i < |s| {
        assert s[i..][0] == s[i];
      }
    }
  }

  /** The field name of a name followed by a format spec or conversion. */
  lemma {:induction false} FieldNameOfName(name: string, spec: string)
    requires forall i :: 0 <= i < |name| ==> name[i] != ':' && name[i] != '!'
    requires spec == [] || spec[0] == ':' || spec[0] == '!'
    ensures FieldName(name + spec) == name
    decreases |name|
  {
    if name == [] {
      assert name + spec == spec;
    } else {
      assert (name + spec)[1..] == name[1..] + spec;
      FieldNameOfName(name[1..], spec);
      assert [name[0]] + name[1..] == name;
    }
  }

  /** A brace-free field whose name is some other identifier raises
      `KeyError` with that name. */
  lemma FieldRaisesKeyError(body: string, rest: string, value: string)
    requires NoBrace(body)
    requires var name := FieldName(body);
      name != [] && !AllDigits(name) && !Contains(name, ".") && !Contains(name, "[")
      && name != "transcript"
    ensures Format("{" + body + "}" + rest, value) == Err(KeyError(FieldName(body)))
  {
    var t := "{" + body + "}" + rest;
    var close := |body| + 1;
    assert t[close..] == "}" + rest;
    forall a | 1 <= a < close
      ensures t[a] != '}'
    {
      assert t[a] == body[a - 1];
    }
    FirstOccurrence(t, "}", 1, close);
    assert t[1..close] == body;
    assert |body| > 0 && t[1] == body[0];
    assert !Contains(body, "{") by { NoCharNotContains(body, '{'); }
  }

  /** Doubled braces around brace-free text stand for single ones. */
  lemma FormatEscaped(body: string, rest: string, value: string)
    requires NoBrace(body)
    ensures Format("{{" + body + "}}" + rest, value) == Prepend("{" + body + "}", Format(rest, value))
  {
    var t := "{{" + body + "}}" + rest;
    assert t[2..] == body + ("}}" + rest);
    FormatPlain(body, "}}" + rest, value);
    assert ("}}" + rest)[2..] == rest;
    PrependAppend(body, "}", Format(rest, value));
    PrependAppend("{", body + "}", Format(rest, value));
    assert "{" + (body + "}") == "{" + body + "}";
  }

  /** A template of brace-free text, the field, and more brace-free text
      formats to the text with the value in place of the field. */
  lemma FormatOneField(head: string, tail: string, value: string)
    requires NoBrace(head) && NoBrace(tail)
    ensures Format(head + TranscriptField + tail, value) == Ok(head + value + tail)
  {
    assert head + TranscriptField + tail == head + (TranscriptField + tail);
    FormatPlain(head, TranscriptField + tail, value);
    FormatField(tail, value);
    FormatPlain(tail, [], value);
    assert tail + [] == tail;
    PrependAppend(head, value, Format(tail, value));
  }

  /** The same with a second, brace-delimited field that is not
      `transcript`: formatting raises `KeyError` with its name. */
  lemma FormatSecondFieldRaises(head: string, mid: string, body: string, tail: string, value: string)
    requires NoBrace(head) && NoBrace(mid) && NoBrace(body)
    requires var name := FieldName(body);
      name != [] && !AllDigits(name) && !Contains(name, ".") && !Contains(name, "[")
      && name != "transcript"
    ensures Format(head + TranscriptField + mid + "{" + body + "}" + tail, value) == Err(KeyError(FieldName(body)))
  {
    var rest := "{" + body + "}" + tail;
    assert head + TranscriptField + mid + "{" + body + "}" + tail
        == head + (TranscriptField + (mid + rest));
    FormatPlain(head, TranscriptField + (mid + rest), value);
    FormatField(mid + rest, value);
    FormatPlain(mid, rest, value);
    FieldRaisesKeyError(body, tail, value);
  }

  /** The same with the second field's braces doubled: they stand for single
      braces around its text. */
  lemma FormatEscapedSecond(head: string, mid: string, body: string, tail: string, value: string)
    requires NoBrace(head) && NoBrace(mid) && NoBrace(body) && NoBrace(tail)
    ensures Format(head + TranscriptField + mid + "{{" + body + "}}" + tail, value)
         == Ok(head + value + mid + "{" + body + "}" + tail)
  {
    var rest := "{{" + body + "}}" + tail;
    assert head + TranscriptField + mid + "{{" + body + "}}" + tail
        == head + (TranscriptField + (mid + rest));
    FormatPlain(head, TranscriptField + (mid + rest), value);
    FormatField(mid + rest, value);
    FormatPlain(mid, rest, value);
    FormatEscaped(body, tail, value);
    FormatPlain(tail, [], value);
    assert tail + [] == tail;
    PrependChain(head, value, mid, "{" + body + "}", tail);
    assert head + value + mid + ("{" + body + "}") + tail == head + value + mid + "{" + body + "}" + tail;
  }

  lemma PrependChain(a: string, b: string, c: string, d: string, e: string)
    ensures Prepend(a, Prepend(b, Prepend(c, Prepend(d, Prepend(e, Ok([]))))))
         == Ok(a + b + c + d + e)
  {
    assert e + [] == e;
    assert a + (b + (c + (d + e))) == a + b + c + d + e;
  }

  lemma NoBraceAppend(a: string, b: string)
    requires NoBrace(a) && NoBrace(b)
    ensures NoBrace(a + b)
  {
  }

  // ---------------------------------------------------------------------
  // the templates

  // The instruction prose is abbreviated to its first sentence and the
  // heading in front of each part; it holds no braces, which is all that
  // formatting depends on. Long literals are written in short pieces.

  const DiarizationIntro: string :=
    "You are an expert medical " + "transcription specialist " + "correcting speaker labels in " + "doctor-patient conversations."
  const DiarizationHead: string := DiarizationIntro + "\n\n### Input Transcript:\n"
  const DiarizationTail: string := "\n\n### Corrected Transcript:\n"

  /** `DIARIZATION_CORRECTION_PROMPT`. */
  const DiarizationTemplate: string := DiarizationHead + TranscriptField + DiarizationTail

  const SoapIntro: string :=
    "You are an expert medical " + "documentation assistant " + "creating a SOAP note from a " + "doctor-patient conversation."
  const SoapHead: string := SoapIntro + "\n\n### Doctor-Patient " + "Conversation:\n"
  const SoapMiddle: string := "\n\n### Output Format " + "(JSON only):\n```json\n"

  /** The body of the JSON example object, between its braces: the part up
      to the first colon, then the rest. */
  const ExampleKey: string := "\n  \"Subjective\""
  const ExampleRest: string :=
    ": \"Patient reports...\",\n" +
    "  \"Objective\": " + "\"Vital signs: BP 120/80...\",\n" +
    "  \"Assessment\": " + "\"Primary diagnosis: ...\",\n" +
    "  \"Plan\": " + "\"1. Medication: ... " + "2. Follow-up: ...\"\n"
  const ExampleBody: string := ExampleKey + ExampleRest

  const SoapTail: string := "\n```\n\n### SOAP Note JSON:\n"

  /** `SOAP_GENERATION_PROMPT` as written: the JSON example keeps single
      braces. */
  const SoapTemplate: string :=
    SoapHead + TranscriptField + SoapMiddle + "{" + ExampleBody + "}" + SoapTail

  /** The template with the example's braces doubled, so that they stand for
      themselves. */
  const EscapedSoapTemplate: string :=
    SoapHead + TranscriptField + SoapMiddle + "{{" + ExampleBody + "}}" + SoapTail

  lemma DiarizationProseHasNoBraces()
    ensures NoBrace(DiarizationHead) && NoBrace(DiarizationTail)
  {
    DiarizationIntroHasNoBraces();
    NoBraceInProse("\n\n### Input Transcript:\n");
    NoBraceAppend(DiarizationIntro, "\n\n### Input Transcript:\n");
    NoBraceInProse(DiarizationTail);
  }

  lemma DiarizationIntroHasNoBraces()
    ensures NoBrace(DiarizationIntro)
  {
    NoBraceInProse("You are an expert medical ");
    NoBraceInProse("transcription specialist ");
    NoBraceInProse("correcting speaker labels in ");
    NoBraceInProse("doctor-patient conversations.");
    NoBraceAppend4("You are an expert medical ", "transcription specialist ",
                   "correcting speaker labels in ", "doctor-patient conversations.");
  }

  lemma SoapProseHasNoBraces()
    ensures NoBrace(SoapHead) && NoBrace(SoapMiddle) && NoBrace(SoapTail)
  {
    SoapIntroHasNoBraces();
    NoBraceInProse("\n\n### Doctor-Patient ");
    NoBraceInProse("Conversation:\n");
    NoBraceAppend(SoapIntro, "\n\n### Doctor-Patient ");
    NoBraceAppend(SoapIntro + "\n\n### Doctor-Patient ", "Conversation:\n");
    NoBraceInProse("\n\n### Output Format ");
    NoBraceInProse("(JSON only):\n```json\n");
    NoBraceAppend("\n\n### Output Format ", "(JSON only):\n```json\n");
    NoBraceInProse(SoapTail);
  }

  lemma SoapIntroHasNoBraces()
    ensures NoBrace(SoapIntro)
  {
    NoBraceInProse("You are an expert medical ");
    NoBraceInProse("documentation assistant ");
    NoBraceInProse("creating a SOAP note from a ");
    NoBraceInProse("doctor-patient conversation.");
    NoBraceAppend4("You are an expert medical ", "documentation assistant ",
                   "creating a SOAP note from a ", "doctor-patient conversation.");
  }

  lemma ExampleHasNoBraces()
    ensures NoBrace(ExampleBody)
  {
    ExampleSubjectiveHasNoBraces();
    ExampleAssessmentHasNoBraces();
    NoBraceAppend(": \"Patient reports...\",\n" + "  \"Objective\": " + "\"Vital signs: BP 120/80...\",\n",
                  "  \"Assessment\": " + "\"Primary diagnosis: ...\",\n" + "  \"Plan\": " + "\"1. Medication: ... " + "2. Follow-up: ...\"\n");
    assert ExampleRest == ": \"Patient reports...\",\n" + "  \"Objective\": " + "\"Vital signs: BP 120/80...\",\n"
                        + ("  \"Assessment\": " + "\"Primary diagnosis: ...\",\n" + "  \"Plan\": " + "\"1. Medication: ... " + "2. Follow-up: ...\"\n");
    NoBraceInProse(ExampleKey);
    NoBraceAppend(ExampleKey, ExampleRest);
  }

  lemma ExampleSubjectiveHasNoBraces()
    ensures NoBrace(": \"Patient reports...\",\n" + "  \"Objective\": " + "\"Vital signs: BP 120/80...\",\n")
  {
    NoBraceInProse(": \"Patient reports...\",\n");
    NoBraceInProse("  \"Objective\": ");
    NoBraceInProse("\"Vital signs: BP 120/80...\",\n");
    NoBraceAppend(": \"Patient reports...\",\n", "  \"Objective\": ");
    NoBraceAppend(": \"Patient reports...\",\n" + "  \"Objective\": ", "\"Vital signs: BP 120/80...\",\n");
  }

  lemma ExampleAssessmentHasNoBraces()
    ensures NoBrace("  \"Assessment\": " + "\"Primary diagnosis: ...\",\n" + "  \"Plan\": " + "\"1. Medication: ... " + "2. Follow-up: ...\"\n")
  {
    NoBraceInProse("  \"Assessment\": ");
    NoBraceInProse("\"Primary diagnosis: ...\",\n");
    NoBraceInProse("  \"Plan\": ");
    NoBraceInProse("\"1. Medication: ... ");
    NoBraceInProse("2. Follow-up: ...\"\n");
    NoBraceAppend4("  \"Assessment\": ", "\"Primary diagnosis: ...\",\n", "  \"Plan\": ", "\"1. Medication: ... ");
    NoBraceAppend("  \"Assessment\": " + "\"Primary diagnosis: ...\",\n" + "  \"Plan\": " + "\"1. Medication: ... ",
                  "2. Follow-up: ...\"\n");
  }

  /** One piece of literal text, checked character by character. */
  lemma NoBraceInProse(s: string)
    requires forall i :: 0 <= i < |s| ==> s[i] != '{' && s[i] != '}'
    ensures NoBrace(s)
  {
  }

  lemma NoBraceAppend4(a: string, b: string, c: string, d: string)
    requires NoBrace(a) && NoBrace(b) && NoBrace(c) && NoBrace(d)
    ensures NoBrace(a + b + c + d)
  {
    NoBraceAppend(a, b);
    NoBraceAppend(a + b, c);
    NoBraceAppend(a + b + c, d);
  }

  /** The example's first field name is its first key, quotes, line feed and
      indentation included. */
  lemma ExampleFieldName()
    ensures FieldName(ExampleBody) == ExampleKey
    ensures ExampleKey == "\n  \"Subjective\""
  {
    assert forall i :: 0 <= i < |ExampleKey| ==> ExampleKey[i] != ':' && ExampleKey[i] != '!';
    assert ExampleRest[0] == ':';
    FieldNameOfName(ExampleKey, ExampleRest);
  }

  /** The example's key is a name that is looked up, and is not there. */
  lemma ExampleKeyLookedUp()
    ensures ExampleKey != [] && !AllDigits(ExampleKey)
    ensures !Contains(ExampleKey, ".") && !Contains(ExampleKey, "[")
    ensures ExampleKey != "transcript"
  {
    assert ExampleKey[0] == '\n';
    NoCharNotContains(ExampleKey, '.');
    NoCharNotContains(ExampleKey, '[');
    assert |ExampleKey| != |"transcript"|;
  }

  /** The diarization prompt is the template with the transcript in place
      of its field, whatever braces the transcript holds. */
  lemma DiarizationTemplateFormats(value: string)
    ensures Format(DiarizationTemplate, value) == Ok(DiarizationHead + value + DiarizationTail)
  {
    DiarizationProseHasNoBraces();
    FormatOneField(DiarizationHead, DiarizationTail, value);
  }

  /** As written, formatting the SOAP template raises `KeyError` for every
      transcript: the example's opening brace starts a replacement field
      named by the text up to the first colon. */
  lemma SoapTemplateRaises(value: string)
    ensures Format(SoapTemplate, value) == Err(KeyError("\n  \"Subjective\""))
  {
    SoapProseHasNoBraces();
    ExampleHasNoBraces();
    ExampleFieldName();
    ExampleKeyLookedUp();
    FormatSecondFieldRaises(SoapHead, SoapMiddle, ExampleBody, SoapTail, value);
  }

  /** With the example's braces doubled, the SOAP prompt is the template with
      the transcript in place of its field and single braces around the
      example. */
  lemma EscapedSoapTemplateFormats(value: string)
    ensures Format(EscapedSoapTemplate, value) ==
            Ok(SoapHead + value + SoapMiddle + "{" + ExampleBody + "}" + SoapTail)
  {
    SoapProseHasNoBraces();
    ExampleHasNoBraces();
    FormatEscapedSecond(SoapHead, SoapMiddle, ExampleBody, SoapTail, value);
  }
}
