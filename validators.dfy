/**
 * The two gates of the diarization stage: `validate_speaker_labels` (is the
 * transcript worth correcting?) and `validate_correction` (did the model
 * keep every word, in order?).
 */
module Validators {
  import opened Text

  // ---------------------------------------------------------------------
  // speaker labels

  /** `validate_speaker_labels`. True exactly when the text is not blank,
      holds one of the exact forms `Doctor:`, `doctor:`, `Patient:`,
      `patient:`, and its lower-cased form holds both `doctor:` and
      `patient:`. */
  function SpeakerLabelsValid(transcript: string): (ok: bool)
    ensures ok <==>
      && !Blank(transcript)
      && (|| Contains(transcript, "Doctor:") || Contains(transcript, "doctor:")
          || Contains(transcript, "Patient:") || Contains(transcript, "patient:"))
      && Contains(Lower(transcript), "doctor:")
      && Contains(Lower(transcript), "patient:")
  {
    StripBlank(transcript);
    CountPositive(Lower(transcript), "doctor:");
    CountPositive(Lower(transcript), "patient:");
    if Strip(transcript) == [] then false
    else
      var hasDoctor := Contains(transcript, "Doctor:") || Contains(transcript, "doctor:");
      var hasPatient := Contains(transcript, "Patient:") || Contains(transcript, "patient:");
      if !(hasDoctor || hasPatient) then false
      else
        var doctorCount := Count(Lower(transcript), "doctor:");
        var patientCount := Count(Lower(transcript), "patient:");
        !(doctorCount == 0 || patientCount == 0)
  }

  /** No lower-case letter at all. */
  predicate Shouting(s: string) {
    forall i :: 0 <= i < |s| ==> !('a' <= s[i] <= 'z')
  }

  /** A pattern holding a lower-case letter never occurs in such text. */
  lemma ShoutingExcludes(s: string, p: string, k: nat)
    requires Shouting(s) && k < |p| && 'a' <= p[k] <= 'z'
    ensures !Contains(s, p)
  {
    forall i | 0 <= i <= |s|
      ensures !(p <= s[i..])
    {
      if i + |p| <= |s| {
        assert s[i..][k] != p[k];
      }
    }
  }

  /** A transcript written entirely in capitals (`DOCTOR: ... PATIENT: ...`)
      is turned away although its lower-cased form holds both labels: the
      presence test looks for the exact forms, which all have a lower-case
      letter. */
  lemma ShoutedLabelsRejected(transcript: string)
    requires Shouting(transcript)
    ensures !SpeakerLabelsValid(transcript)
  {
    ShoutingExcludes(transcript, "Doctor:", 1);
    ShoutingExcludes(transcript, "doctor:", 1);
    ShoutingExcludes(transcript, "Patient:", 1);
    ShoutingExcludes(transcript, "patient:", 1);
  }

  // ---------------------------------------------------------------------
  // word tokens

  /** `\w` on ASCII. */
  predicate IsWordChar(c: char) {
    ('a' <= c <= 'z') || ('A' <= c <= 'Z') || ('0' <= c <= '9') || c == '_'
  }

  predicate AllWord(s: string) {
    forall i :: 0 <= i < |s| ==> IsWordChar(s[i])
  }

  /** Length of the longest prefix of word characters. */
  function RunLength(s: string): (n: nat)
    ensures n <= |s| && AllWord(s[..n])
    ensures n < |s| ==> !IsWordChar(s[n])
  {
    if |s| == 0 || !IsWordChar(s[0]) then 0 else 1 + RunLength(s[1..])
  }

  /** `re.findall(r'\b\w+\b', s)`: the maximal runs of word characters, left
      to right. */
  function Tokens(s: string): seq<string>
    decreases |s|
  {
    if |s| == 0 then []
    else if !IsWordChar(s[0]) then Tokens(s[1..])
    else
      var n := RunLength(s);
      [s[..n]] + Tokens(s[n..])
  }

  /** Every token is a non-empty run of word characters. */
  lemma {:induction false} TokensAreWords(s: string)
    ensures forall k :: 0 <= k < |Tokens(s)| ==> |Tokens(s)[k]| > 0 && AllWord(Tokens(s)[k])
    decreases |s|
  {
    if |s| > 0 {
      if !IsWordChar(s[0]) {
        TokensAreWords(s[1..]);
      } else {
        var n := RunLength(s);
        TokensAreWords(s[n..]);
      }
    }
  }

  lemma {:induction false} RunLengthAppend(a: string, b: string)
    requires a != [] && (b == [] || !IsWordChar(a[|a| - 1]) || !IsWordChar(b[0]))
    ensures RunLength(a + b) == RunLength(a)
  {
    if IsWordChar(a[0]) {
      assert (a + b)[1..] == a[1..] + b;
      if |a| > 1 {
        RunLengthAppend(a[1..], b);
      }
    }
  }

  /** Splitting the text between a non-word and any character, or at a
      non-word character, splits the tokens the same way. */
  lemma {:induction false} TokensAppend(a: string, b: string)
    requires a == [] || b == [] || !IsWordChar(a[|a| - 1]) || !IsWordChar(b[0])
    ensures Tokens(a + b) == Tokens(a) + Tokens(b)
    decreases |a|
  {
    if a == [] {
      assert a + b == b;
    } else {
      var n := if IsWordChar(a[0]) then RunLength(a) else 1;
      var rest := a[n..];
      assert rest == [] || rest[|rest| - 1] == a[|a| - 1];
      TokensAppend(rest, b);
      if IsWordChar(a[0]) {
        AppendAfterRun(a, b);
      } else {
        AppendAfterSkip(a, b);
      }
    }
  }

  /** The step of `TokensAppend` past a leading non-word character. */
  lemma AppendAfterSkip(a: string, b: string)
    requires a != [] && !IsWordChar(a[0])
    requires Tokens(a[1..] + b) == Tokens(a[1..]) + Tokens(b)
    ensures Tokens(a + b) == Tokens(a) + Tokens(b)
  {
    assert (a + b)[0] == a[0];
    assert (a + b)[1..] == a[1..] + b;
  }

  /** The step of `TokensAppend` past a leading run of word characters. */
  lemma AppendAfterRun(a: string, b: string)
    requires a != [] && IsWordChar(a[0])
    requires b == [] || !IsWordChar(a[|a| - 1]) || !IsWordChar(b[0])
    requires Tokens(a[RunLength(a)..] + b) == Tokens(a[RunLength(a)..]) + Tokens(b)
    ensures Tokens(a + b) == Tokens(a) + Tokens(b)
  {
    var n := RunLength(a);
    RunOfAppend(a, b);
    TokensRun(a);
    Regroup(Tokens(a + b), Tokens(a), [a[..n]], Tokens(a[n..] + b), Tokens(a[n..]), Tokens(b));
  }

  /** The first token of `a + b` is that of `a` when `a` starts with a word
      that does not run on into `b`. */
  lemma RunOfAppend(a: string, b: string)
    requires a != [] && IsWordChar(a[0])
    requires b == [] || !IsWordChar(a[|a| - 1]) || !IsWordChar(b[0])
    ensures Tokens(a + b) == [a[..RunLength(a)]] + Tokens(a[RunLength(a)..] + b)
  {
    var n := RunLength(a);
    RunLengthAppend(a, b);
    SlicesOfAppend(a, b, n);
    TokensRun(a + b);
  }

  lemma SlicesOfAppend(a: string, b: string, n: nat)
    requires n <= |a|
    ensures (a + b)[..n] == a[..n] && (a + b)[n..] == a[n..] + b
  {
  }

  lemma Regroup<T>(x: seq<T>, t: seq<T>, h: seq<T>, y: seq<T>, u: seq<T>, w: seq<T>)
    requires x == h + y && t == h + u && y == u + w
    ensures x == t + w
  {
  }

  lemma TokensRun(s: string)
    requires s != [] && IsWordChar(s[0])
    ensures Tokens(s) == [s[..RunLength(s)]] + Tokens(s[RunLength(s)..])
  {
  }



  /** A run of word characters is one token. */
  lemma TokensOfWord(w: string)
    requires |w| > 0 && AllWord(w)
    ensures Tokens(w) == [w]
  {
    var n := RunLength(w);
    assert w[..n] == w && w[n..] == [];
  }

  /** Text without word characters has no tokens. */
  lemma {:induction false} TokensOfPunctuation(s: string)
    requires forall i :: 0 <= i < |s| ==> !IsWordChar(s[i])
    ensures Tokens(s) == []
    decreases |s|
  {
    if s != [] {
      TokensOfPunctuation(s[1..]);
    }
  }

  // ---------------------------------------------------------------------
  // word-sequence check

  /** The diagnostic of a failed check: the words of the original missing
      from the correction and the words the correction added, as sets. */
  datatype Mismatch = NoMismatch | WordMismatch(missing: set<string>, added: set<string>)

  function Elements(ts: seq<string>): set<string> {
    set k | 0 <= k < |ts| :: ts[k]
  }

  /** The word sequence `validate_correction` compares: the tokens of the
      lower-cased text, speaker labels included. */
  function Words(s: string): seq<string> {
    Tokens(Lower(s))
  }

  /** `validate_correction`. */
  function ValidateCorrection(original: string, corrected: string): (r: (bool, Mismatch))
    ensures r.0 <==> Words(original) == Words(corrected)
    ensures r.0 <==> r.1 == NoMismatch
    ensures !r.0 ==> r.1 == WordMismatch(Elements(Words(original)) - Elements(Words(corrected)),
                                         Elements(Words(corrected)) - Elements(Words(original)))
  {
    var origWords := Tokens(Lower(original));
    var corrWords := Tokens(Lower(corrected));
    if origWords != corrWords then
      (false, WordMismatch(Elements(origWords) - Elements(corrWords),
                           Elements(corrWords) - Elements(origWords)))
    else (true, NoMismatch)
  }

  /** A text always passes against itself, and against any re-casing of it. */
  lemma ValidateIgnoresCase(original: string, corrected: string)
    requires Lower(original) == Lower(corrected)
    ensures ValidateCorrection(original, corrected) == (true, NoMismatch)
  {
  }

  /** Punctuation and spacing between words do not matter: replacing one
      separator by another keeps the check passing. */
  lemma ValidateIgnoresSeparators(a: string, x: string, y: string, b: string)
    requires forall i :: 0 <= i < |x| ==> !IsWordChar(x[i])
    requires forall i :: 0 <= i < |y| ==> !IsWordChar(y[i])
    requires |x| > 0 && |y| > 0
    ensures ValidateCorrection(a + x + b, a + y + b).0
  {
    LowerAppend(a + x, b); LowerAppend(a, x);
    LowerAppend(a + y, b); LowerAppend(a, y);
    var la, lb, lx, ly := Lower(a), Lower(b), Lower(x), Lower(y);
    assert forall i :: 0 <= i < |lx| ==> !IsWordChar(lx[i]);
    assert forall i :: 0 <= i < |ly| ==> !IsWordChar(ly[i]);
    TokensOfPunctuation(lx);
    TokensOfPunctuation(ly);
    TokensAppend(la, lx);
    TokensAppend(la + lx, lb);
    TokensAppend(la, ly);
    TokensAppend(la + ly, lb);
  }

  /** The check is about order, not just content: two texts with the same
      words in a different order fail, and then the diagnostic names no
      word at all. */
  lemma ReorderingRejected(original: string, corrected: string)
    requires multiset(Words(original)) == multiset(Words(corrected))
    requires Words(original) != Words(corrected)
    ensures ValidateCorrection(original, corrected) == (false, WordMismatch({}, {}))
  {
    var o, c := Words(original), Words(corrected);
    forall w | w in Elements(o) ensures w in Elements(c) {
      var k :| 0 <= k < |o| && o[k] == w;
      assert w in multiset(o);
      assert w in multiset(c);
      assert w in c;
      var j :| 0 <= j < |c| && c[j] == w;
    }
    forall w | w in Elements(c) ensures w in Elements(o) {
      var k :| 0 <= k < |c| && c[k] == w;
      assert w in multiset(c);
      assert w in multiset(o);
      assert w in o;
      var j :| 0 <= j < |o| && o[j] == w;
    }
    assert Elements(o) - Elements(c) == {};
    assert Elements(c) - Elements(o) == {};
  }

  /** The tokens of a lower-cased `Patient:` line break. */
  lemma LowerOfLabel()
    ensures Lower("\nPatient: ") == "\npatient: "
  {
  }

  lemma TokensOfLabel()
    ensures Tokens("\npatient: ") == ["patient"]
  {
    assert "\npatient: " == "\n" + "patient" + ": ";
    TokensBetween("\n", "patient", ": ");
  }

  /** One word between two stretches of punctuation. */
  lemma TokensBetween(p: string, w: string, q: string)
    requires |w| > 0 && AllWord(w)
    requires forall i :: 0 <= i < |p| ==> !IsWordChar(p[i])
    requires forall i :: 0 <= i < |q| ==> !IsWordChar(q[i])
    ensures Tokens(p + w + q) == [w]
  {
    TokensOfPunctuation(p);
    TokensOfWord(w);
    TokensOfPunctuation(q);
    TokensAppend(p, w);
    TokensAppend(p + w, q);
  }

  /** The words of `a + sep + b` when `sep` starts and ends with a
      non-word character. */
  lemma WordsAround(a: string, sep: string, b: string)
    requires Separator(sep)
    ensures Words(a + sep + b) == Words(a) + Words(sep) + Words(b)
  {
    LowerAppend(a + sep, b);
    LowerAppend(a, sep);
    var ls := Lower(sep);
    assert !IsWordChar(ls[0]) && !IsWordChar(ls[|ls| - 1]);
    TokensAppend(Lower(a), ls);
    TokensAppend(Lower(a) + ls, Lower(b));
  }

  /** The speaker labels are words too. Moving a stretch of words from the end
      of one turn to the start of the next one, across a `Patient:` label,
      changes the word order (unless the stretch starts with the word
      `patient`), so it is rejected: the very correction the diarization
      stage asks the model for. */
  lemma MovingAcrossLabelRejected(before: string, moved: string, after: string)
    requires Words(moved) != [] && Words(moved)[0] != "patient"
    ensures !ValidateCorrection(before + " " + moved + "\nPatient: " + after,
                                before + "\nPatient: " + moved + " " + after).0
  {
    WordsMovedLate(before, moved, after);
    WordsMovedEarly(before, moved, after);
    var n := |Words(before)|;
    assert Words(before + " " + moved + "\nPatient: " + after)[n] == Words(moved)[0];
    assert Words(before + "\nPatient: " + moved + " " + after)[n] == "patient";
  }

  /** `s` starts and ends with a character that is not part of a word. */
  predicate Separator(s: string)
  {
    |s| > 0 && !IsWordChar(s[0]) && !IsWordChar(s[|s| - 1])
  }

  lemma WordsOfSeparators()
    ensures Separator(" ") && Words(" ") == []
    ensures Separator("\nPatient: ") && Words("\nPatient: ") == ["patient"]
  {
    LowerOfLabel();
    TokensOfLabel();
    TokensOfPunctuation(" ");
  }

  /** The words when the stretch ends the first turn. */
  lemma WordsMovedLate(before: string, moved: string, after: string)
    ensures Words(before + " " + moved + "\nPatient: " + after)
         == Words(before) + Words(moved) + ["patient"] + Words(after)
  {
    WordsOfSeparators();
    WordsAcrossLate(before, " ", moved, "\nPatient: ", after);
  }

  lemma WordsAcrossLate(before: string, space: string, moved: string, tag: string, after: string)
    requires Separator(space) && Words(space) == []
    requires Separator(tag) && Words(tag) == ["patient"]
    ensures Words(before + space + moved + tag + after)
         == Words(before) + Words(moved) + ["patient"] + Words(after)
  {
    WordsAround(before, space, moved);
    WordsAround(before + space + moved, tag, after);
  }

  /** The words when the stretch starts the second turn. */
  lemma WordsMovedEarly(before: string, moved: string, after: string)
    ensures Words(before + "\nPatient: " + moved + " " + after)
         == Words(before) + ["patient"] + Words(moved) + Words(after)
  {
    WordsOfSeparators();
    WordsAcrossEarly(before, "\nPatient: ", moved, " ", after);
  }

  lemma WordsAcrossEarly(before: string, tag: string, moved: string, space: string, after: string)
    requires Separator(space) && Words(space) == []
    requires Separator(tag) && Words(tag) == ["patient"]
    ensures Words(before + tag + moved + space + after)
         == Words(before) + ["patient"] + Words(moved) + Words(after)
  {
    WordsAround(before, tag, moved);
    WordsAround(before + tag + moved, space, after);
  }
}
