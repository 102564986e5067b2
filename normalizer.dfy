/**
 * `preprocess_transcript`: whitespace collapsing followed by a fixed table of
 * case-insensitive substitutions for known speech-recognition misspellings.
 */
module Normalizer {
  import opened Text

  /** The correction table, in the dictionary's iteration order: each entry
      is the corrected term and the misspellings it replaces. */
  const Corrections: seq<(string, seq<string>)> := [
    ("hypertension", ["high pertension", "hyper tension"]),
    ("diabetes mellitus", ["diabete smellitus", "diabetus", "diabetes mellitas"]),
    ("myocardial infarction", ["myocardial in fraction"]),
    ("prescription", ["perscription"]),
    ("medication", ["mediction"]),
    ("symptoms", ["symptom", "simptoms"]),
    ("diagnosis", ["diagnoses", "diagnosys"])
  ]

  /** An entry whose replacement is non-empty tidy text with plain spaces and
      whose misspellings are non-empty. */
  predicate EntryWellFormed(entry: (string, seq<string>)) {
    && |entry.0| > 0 && Tidy(entry.0) && OnlyBlanks(entry.0)
    && forall j :: 0 <= j < |entry.1| ==> |entry.1[j]| > 0
  }

  predicate TableWellFormed(table: seq<(string, seq<string>)>) {
    forall k :: 0 <= k < |table| ==> EntryWellFormed(table[k])
  }

  // One lemma per entry keeps each concrete check small.
  lemma Entry0WellFormed() ensures EntryWellFormed(Corrections[0]) { assert Corrections[0].0 == "hypertension"; }
  lemma Entry1WellFormed() ensures EntryWellFormed(Corrections[1]) {
    assert Corrections[1].0 == "diabetes" + " " + "mellitus";
    TwoWordsWellFormed("diabetes", "mellitus");
  }
  lemma Entry2WellFormed() ensures EntryWellFormed(Corrections[2]) {
    assert Corrections[2].0 == "myocardial" + " " + "infarction";
    TwoWordsWellFormed("myocardial", "infarction");
  }

  /** Two words joined by a space are tidy, with plain spaces only. */
  lemma TwoWordsWellFormed(a: string, b: string)
    requires |a| > 0 && |b| > 0 && NoSpace(a) && NoSpace(b)
    ensures Tidy(a + " " + b) && OnlyBlanks(a + " " + b)
  {
    var s := a + " " + b;
    assert Tidy(a) && Tidy(b);
    TidyJoin(a, b);
  }
  lemma Entry3WellFormed() ensures EntryWellFormed(Corrections[3]) { assert Corrections[3].0 == "prescription"; }
  lemma Entry4WellFormed() ensures EntryWellFormed(Corrections[4]) { assert Corrections[4].0 == "medication"; }
  lemma Entry5WellFormed() ensures EntryWellFormed(Corrections[5]) { assert Corrections[5].0 == "symptoms"; }
  lemma Entry6WellFormed() ensures EntryWellFormed(Corrections[6]) { assert Corrections[6].0 == "diagnosis"; }

  lemma CorrectionsWellFormed()
    ensures TableWellFormed(Corrections)
  {
    Entry0WellFormed(); Entry1WellFormed(); Entry2WellFormed(); Entry3WellFormed();
    Entry4WellFormed(); Entry5WellFormed(); Entry6WellFormed();
  }

  /** One substitution. The guard tests `lowered`, the lower-cased text as it
      was before any substitution, not the text being rewritten. */
  function Substitute(s: string, lowered: string, error: string, correct: string): string
    requires |error| > 0
  {
    if Contains(lowered, error) then ReplaceCI(s, error, correct) else s
  }

  /** The first `|errors|` substitutions of one table entry, in order. */
  function ApplyErrors(s: string, lowered: string, correct: string, errors: seq<string>): string
    requires forall j :: 0 <= j < |errors| ==> |errors[j]| > 0
  {
    if errors == [] then s
    else Substitute(ApplyErrors(s, lowered, correct, errors[..|errors| - 1]), lowered,
                    errors[|errors| - 1], correct)
  }

  /** All substitutions of the entries of `table`, in order. */
  function ApplyTable(s: string, lowered: string, table: seq<(string, seq<string>)>): string
    requires TableWellFormed(table)
  {
    if table == [] then s
    else
      var last := table[|table| - 1];
      ApplyErrors(ApplyTable(s, lowered, table[..|table| - 1]), lowered, last.0, last.1)
  }

  /** `' '.join(transcript.split())`. */
  function Collapse(transcript: string): string {
    JoinSpaced(Split(transcript))
  }

  /** What `preprocess_transcript` returns. */
  function Preprocess(transcript: string): string {
    if Blank(transcript) then transcript
    else
      CorrectionsWellFormed();
      var collapsed := Collapse(transcript);
      ApplyTable(collapsed, Lower(collapsed), Corrections)
  }

  predicate Normal(s: string) {
    |s| > 0 && Tidy(s) && OnlyBlanks(s)
  }

  /** A substitution keeps text non-empty, tidy and free of line breaks and
      tabs, because every replacement is. */
  lemma {:induction false} SubstituteNormal(s: string, lowered: string, error: string, correct: string)
    requires |error| > 0 && |correct| > 0 && Tidy(correct) && OnlyBlanks(correct)
    requires Normal(s)
    ensures Normal(Substitute(s, lowered, error, correct))
  {
    if Contains(lowered, error) {
      var r := ReplaceCI(s, error, correct);
      ReplaceEmpty(s, error, correct);
      ReplaceFirst(s, error, correct);
      ReplaceLast(s, error, correct);
      ReplaceNoDouble(s, error, correct);
      ReplaceChars(s, error, correct);
      forall i | 0 <= i < |r| && IsSpace(r[i]) ensures r[i] == ' ' {
        assert r[i] in r;
        if r[i] in s {
          var k :| 0 <= k < |s| && s[k] == r[i];
        } else {
          var k :| 0 <= k < |correct| && correct[k] == r[i];
        }
      }
    }
  }

  lemma {:induction false} ApplyErrorsNormal(s: string, lowered: string, correct: string, errors: seq<string>)
    requires forall j :: 0 <= j < |errors| ==> |errors[j]| > 0
    requires |correct| > 0 && Tidy(correct) && OnlyBlanks(correct)
    requires Normal(s)
    ensures Normal(ApplyErrors(s, lowered, correct, errors))
  {
    if errors != [] {
      ApplyErrorsNormal(s, lowered, correct, errors[..|errors| - 1]);
      SubstituteNormal(ApplyErrors(s, lowered, correct, errors[..|errors| - 1]), lowered,
                       errors[|errors| - 1], correct);
    }
  }

  lemma {:induction false} ApplyTableNormal(s: string, lowered: string, table: seq<(string, seq<string>)>)
    requires TableWellFormed(table)
    requires Normal(s)
    ensures Normal(ApplyTable(s, lowered, table))
  {
    if table != [] {
      var last := table[|table| - 1];
      ApplyTableNormal(s, lowered, table[..|table| - 1]);
      ApplyErrorsNormal(ApplyTable(s, lowered, table[..|table| - 1]), lowered, last.0, last.1);
    }
  }

  /** Pre-processing leaves empty and whitespace-only input alone; any other
      input comes out non-empty, without leading or trailing whitespace,
      without two whitespace characters in a row, and with every line break
      and tab turned into a plain space. */
  lemma PreprocessShape(transcript: string)
    ensures Blank(transcript) ==> Preprocess(transcript) == transcript
    ensures !Blank(transcript) ==> Normal(Preprocess(transcript))
  {
    if !Blank(transcript) {
      CorrectionsWellFormed();
      var ws := Split(transcript);
      JoinSpacedTidy(ws);
      var collapsed := Collapse(transcript);
      ApplyTableNormal(collapsed, Lower(collapsed), Corrections);
    }
  }

  /** `preprocess_transcript`: the nested loops over the correction table. */
  method PreprocessTranscript(transcript: string) returns (result: string)
    ensures result == Preprocess(transcript)
    ensures Blank(transcript) ==> result == transcript
    ensures !Blank(transcript) ==> Normal(result)
  {
    PreprocessShape(transcript);
    StripBlank(transcript);
    if Strip(transcript) == [] {
      return transcript;
    }
    CorrectionsWellFormed();
    var collapsed := JoinSpaced(Split(transcript));
    result := ApplyCorrections(collapsed, Lower(collapsed), Corrections);
  }

  /** The loops of `preprocess_transcript` over the table: every misspelling
      found in `lowered` is replaced, entry by entry, in table order. */
  method ApplyCorrections(s: string, lowered: string, table: seq<(string, seq<string>)>)
    returns (result: string)
    requires TableWellFormed(table)
    ensures result == ApplyTable(s, lowered, table)
  {
    result := s;
    var i := 0;
    while i < |table|
      invariant 0 <= i <= |table|
      invariant result == ApplyTable(s, lowered, table[..i])
    {
      var correct := table[i].0;
      var errors := table[i].1;
      ghost var before := result;
      var j := 0;
      while j < |errors|
        invariant 0 <= j <= |errors|
        invariant result == ApplyErrors(before, lowered, correct, errors[..j])
      {
        var error := errors[j];
        if Contains(lowered, error) {
          result := ReplaceCI(result, error, correct);
        }
        assert errors[..j + 1][..j] == errors[..j];
        j := j + 1;
      }
      assert errors[..j] == errors;
      assert table[..i + 1][..i] == table[..i];
      i := i + 1;
    }
    assert table[..i] == table;
  }

  /** No misspelling of the table occurs in `lowered`. */
  predicate NoMisspelling(lowered: string, table: seq<(string, seq<string>)>) {
    forall k, j :: 0 <= k < |table| && 0 <= j < |table[k].1| ==> !Contains(lowered, table[k].1[j])
  }

  lemma {:induction false} ApplyErrorsClean(s: string, lowered: string, correct: string, errors: seq<string>)
    requires forall j :: 0 <= j < |errors| ==> |errors[j]| > 0 && !Contains(lowered, errors[j])
    ensures ApplyErrors(s, lowered, correct, errors) == s
  {
    if errors != [] {
      ApplyErrorsClean(s, lowered, correct, errors[..|errors| - 1]);
    }
  }

  lemma {:induction false} ApplyTableClean(s: string, lowered: string, table: seq<(string, seq<string>)>)
    requires TableWellFormed(table) && NoMisspelling(lowered, table)
    ensures ApplyTable(s, lowered, table) == s
  {
    if table != [] {
      var k := |table| - 1;
      assert forall j :: 0 <= j < |table[k].1| ==> !Contains(lowered, table[k].1[j]);
      ApplyTableClean(s, lowered, table[..k]);
      ApplyErrorsClean(s, lowered, table[k].0, table[k].1);
    }
  }

  /** Text in which no misspelling occurs in any letter case only has its
      whitespace collapsed. */
  lemma PreprocessClean(transcript: string)
    requires !Blank(transcript) && NoMisspelling(Lower(Collapse(transcript)), Corrections)
    ensures Preprocess(transcript) == Collapse(transcript)
  {
    CorrectionsWellFormed();
    ApplyTableClean(Collapse(transcript), Lower(Collapse(transcript)), Corrections);
  }

  /** A single word splits to itself. */
  lemma SplitWord(w: string)
    requires |w| > 0 && NoSpace(w)
    ensures Split(w) == [w]
  {
    WordLengthAll(w);
    assert w[..|w|] == w && w[|w|..] == [];
  }

  lemma {:induction false} WordLengthAll(w: string)
    requires NoSpace(w)
    ensures WordLength(w) == |w|
  {
    if w != [] {
      WordLengthAll(w[1..]);
    }
  }

  lemma LongerAbsent(s: string, p: string)
    requires |p| > |s|
    ensures !Contains(s, p)
  {
  }

  lemma FirstAbsent(s: string, p: string)
    requires |p| > 0 && forall i :: 0 <= i < |s| ==> s[i] != p[0]
    ensures !Contains(s, p)
  {
    forall i | 0 <= i <= |s| ensures !(p <= s[i..]) {
      if i < |s| { assert s[i..][0] == s[i]; }
    }
  }

  /** None of the misspellings of the first five entries occurs in `symptoms`. */
  lemma SymptomsCleanOfFirstEntries()
    ensures NoMisspelling("symptoms", Corrections[..5])
  {
    var t := Corrections[..5];
    assert t[0].1 == ["high pertension", "hyper tension"];
    assert t[1].1 == ["diabete smellitus", "diabetus", "diabetes mellitas"];
    assert t[2].1 == ["myocardial in fraction"];
    assert t[3].1 == ["perscription"];
    assert t[4].1 == ["mediction"];
    LongerAbsent("symptoms", "high pertension");
    LongerAbsent("symptoms", "hyper tension");
    LongerAbsent("symptoms", "diabete smellitus");
    FirstAbsent("symptoms", "diabetus");
    LongerAbsent("symptoms", "diabetes mellitas");
    LongerAbsent("symptoms", "myocardial in fraction");
    LongerAbsent("symptoms", "perscription");
    LongerAbsent("symptoms", "mediction");
  }

  lemma SymptomReplaced()
    ensures ReplaceCI("symptoms", "symptom", "symptoms") == "symptomss"
  {
    var s := "symptoms";
    assert s[..7] == "symptom";
    assert Lower("symptom") == "symptom";
    assert s[7..] == "s";
    assert ReplaceCI("s", "symptom", "symptoms") == "s";
  }

  /** The entry for `symptoms` rewrites the word it corrects to: `symptom`
      occurs inside it. */
  lemma SymptomsEntry(s: string)
    requires s == "symptoms"
    ensures ApplyErrors(s, "symptoms", Corrections[5].0, Corrections[5].1) == "symptomss"
  {
    var e := Corrections[5];
    assert e.0 == "symptoms" && e.1 == ["symptom", "simptoms"];
    assert e.1[..1] == ["symptom"] && e.1[..1][..0] == [];
    assert Contains("symptoms", "symptom") by { assert "symptom" <= "symptoms"[0..]; }
    SymptomReplaced();
    assert !Contains("symptoms", "simptoms") by {
      forall i | 0 <= i <= 8 ensures !("simptoms" <= "symptoms"[i..]) {
        if i == 0 { assert "symptoms"[1] != "simptoms"[1]; }
      }
    }
  }

  lemma DiagnosisEntryAbsent()
    ensures forall j :: 0 <= j < |Corrections[6].1| ==> |Corrections[6].1[j]| > 0 && !Contains("symptoms", Corrections[6].1[j])
  {
    assert Corrections[6].1 == ["diagnoses", "diagnosys"];
    FirstAbsent("symptoms", "diagnoses");
    FirstAbsent("symptoms", "diagnosys");
  }

  lemma SymptomsCollapsed()
    ensures !Blank("symptoms") && Collapse("symptoms") == "symptoms" && Lower("symptoms") == "symptoms"
  {
    var s := "symptoms";
    assert NoSpace(s) && NoUpper(s);
    LowercaseWord(s);
  }

  predicate NoUpper(s: string) {
    forall i :: 0 <= i < |s| ==> !('A' <= s[i] <= 'Z')
  }

  /** A lower-case word survives collapsing and lower-casing unchanged. */
  lemma LowercaseWord(w: string)
    requires |w| > 0 && NoSpace(w) && NoUpper(w)
    ensures !Blank(w) && Collapse(w) == w && Lower(w) == w
  {
    assert !IsSpace(w[0]);
    SplitWord(w);
  }

  /** A seven-entry table whose first five entries find nothing, whose sixth
      turns the text into `r` and whose seventh finds nothing turns it into
      `r`. */
  lemma LastTwoEntries(s: string, lowered: string, t: seq<(string, seq<string>)>, r: string)
    requires |t| == 7 && TableWellFormed(t)
    requires NoMisspelling(lowered, t[..5])
    requires ApplyErrors(s, lowered, t[5].0, t[5].1) == r
    requires forall j :: 0 <= j < |t[6].1| ==> |t[6].1[j]| > 0 && !Contains(lowered, t[6].1[j])
    ensures ApplyTable(s, lowered, t) == r
  {
    assert t[..6][..5] == t[..5];
    assert t[..5] + [t[5]] == t[..6];
    ApplyTableClean(s, lowered, t[..5]);
    ApplyErrorsClean(r, lowered, t[6].0, t[6].1);
  }

  /** Pre-processing can corrupt correct text, so it is not idempotent: the
      correctly spelled `symptoms` comes out as `symptomss`, because the
      misspelling `symptom` occurs inside it. */
  lemma SymptomsCorrupted()
    ensures Preprocess("symptoms") == "symptomss"
  {
    SymptomsCollapsed();
    CorrectionsWellFormed();
    SymptomsCleanOfFirstEntries();
    SymptomsEntry("symptoms");
    DiagnosisEntryAbsent();
    LastTwoEntries("symptoms", "symptoms", Corrections, "symptomss");
  }
}
