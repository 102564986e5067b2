/**
 * The SOAP note schema: the four required sections, `validate_soap_json`
 * (fill in and clean up the sections of a parsed reply), `_salvage_json`
 * (pull the sections out of a reply that does not parse) and
 * `_empty_soap_note`.
 */
module Soap {
  import opened Wrappers
  import opened Text

  /** A parsed JSON value, as `json.loads` returns it. Numbers keep their
      source text: nothing here looks at their value. */
  datatype Json =
    | JNull
    | JBool(b: bool)
    | JNumber(lexeme: string)
    | JString(s: string)
    | JArray(items: seq<Json>)
    | JObject(fields: map<string, Json>)

  /** The placeholder written into a section with no usable content. */
  const Sentinel: string := "Not discussed"

  /** The sections of a SOAP note, in their order. */
  const RequiredKeys: seq<string> := ["Subjective", "Objective", "Assessment", "Plan"]

  const RequiredSet: set<string> := {"Subjective", "Objective", "Assessment", "Plan"}

  lemma RequiredKeysSet()
    ensures forall k :: k in RequiredKeys <==> k in RequiredSet
    ensures |RequiredKeys| == 4
  {
  }

  /** The four section names are distinct. */
  lemma RequiredSetSize()
    ensures |RequiredSet| == 4
  {
    var s, o, a, p := "Subjective", "Objective", "Assessment", "Plan";
    assert |s| == 10 && |o| == 9 && |a| == 10 && |p| == 4;
    assert s[0] != a[0];
    assert {s, o, a, p} == {s, a} + {o} + {p};
    assert |{s, a}| == 2;
  }

  /** The placeholders the model writes for "nothing said", compared after
      stripping and lower-casing. */
  const GenericPlaceholders: seq<string> := ["n/a", "na", "none"]

  /** `s.strip().lower()` is a generic placeholder. Lower-casing and
      stripping commute on ASCII (`Text.LowerStrip`); the model lower-cases
      first. */
  predicate IsPlaceholder(s: string) {
    Strip(Lower(s)) in GenericPlaceholders
  }

  /** A section value `validate_soap_json` keeps as it is: a string that is
      not blank and not a generic placeholder. */
  predicate GoodSection(v: Json) {
    v.JString? && !Blank(v.s) && !IsPlaceholder(v.s)
  }

  /** The sentinel itself passes the check. */
  lemma SentinelGood()
    ensures GoodSection(JString(Sentinel))
  {
    var s := Sentinel;
    assert !IsSpace(s[0]) && !IsSpace(s[|s| - 1]);
    TrimmedLongGood(s);
  }

  /** Text longer than every placeholder, with no whitespace at its ends,
      is a usable section. */
  lemma TrimmedLongGood(s: string)
    requires |s| > 4 && !IsSpace(s[0]) && !IsSpace(s[|s| - 1])
    ensures GoodSection(JString(s))
  {
    assert !IsSpace(Lower(s)[0]) && !IsSpace(Lower(s)[|s| - 1]);
    StripTrimmed(Lower(s));
  }

  /** What one required section becomes. */
  function RepairedSection(soap: map<string, Json>, key: string): Json {
    if key in soap && GoodSection(soap[key]) then soap[key] else JString(Sentinel)
  }

  /** The dictionary `validate_soap_json` returns: every required section is
      present and usable, the usable ones unchanged, and every other key
      untouched. */
  function RepairSoap(soap: map<string, Json>): (r: map<string, Json>)
    ensures r.Keys == soap.Keys + RequiredSet
    ensures forall k :: k in RequiredSet ==> r[k] == RepairedSection(soap, k)
    ensures forall k :: k in soap && k !in RequiredSet ==> r[k] == soap[k]
  {
    map k | k in soap.Keys + RequiredSet ::
      if k in RequiredSet then RepairedSection(soap, k) else soap[k]
  }

  /** After repair, every required section is a usable string. */
  lemma RepairSoapSections(soap: map<string, Json>)
    ensures forall k :: k in RequiredSet ==> k in RepairSoap(soap) && GoodSection(RepairSoap(soap)[k])
  {
    SentinelGood();
  }

  /** A section is replaced by the sentinel exactly when it is missing or
      unusable. */
  lemma RepairSoapReplaces(soap: map<string, Json>, k: string)
    requires k in RequiredSet
    ensures RepairSoap(soap)[k] == JString(Sentinel) <==>
            k !in soap || !GoodSection(soap[k]) || soap[k] == JString(Sentinel)
  {
  }

  /** A note whose sections are all usable comes back as it went in. */
  lemma RepairSoapKeepsGood(soap: map<string, Json>)
    requires forall k :: k in RequiredSet ==> k in soap && GoodSection(soap[k])
    ensures RepairSoap(soap) == soap
  {
  }

  /** Repairing twice is repairing once. */
  lemma RepairSoapIdempotent(soap: map<string, Json>)
    ensures RepairSoap(RepairSoap(soap)) == RepairSoap(soap)
  {
    RepairSoapSections(soap);
    RepairSoapKeepsGood(RepairSoap(soap));
  }

  /** `validate_soap_json`: first every missing section is added as the
      sentinel, then every blank, non-string or placeholder section is
      replaced by it. The check always reports the note as valid. */
  method ValidateSoapJson(soap: map<string, Json>) returns (valid: bool, repaired: map<string, Json>)
    ensures valid
    ensures repaired == RepairSoap(soap)
  {
    RequiredKeysSet();
    SentinelGood();
    var filled := FillMissing(soap, RequiredKeys);
    repaired := ClearUnusable(soap, filled, RequiredKeys);
    LoopsRepair(soap, RequiredKeys, filled, repaired);
    valid := true;
  }

  /** The two loops of `validate_soap_json` over the required keys together
      compute `RepairSoap`. */
  lemma LoopsRepair(soap: map<string, Json>, keys: seq<string>,
                    filled: map<string, Json>, repaired: map<string, Json>)
    requires forall k :: k in keys <==> k in RequiredSet
    requires forall k :: k in filled <==> k in soap || k in keys
    requires forall k :: k in filled ==> filled[k] == if k in soap then soap[k] else JString(Sentinel)
    requires forall k :: k in repaired <==> k in filled
    requires forall k :: k in repaired ==>
      repaired[k] == if k in keys then RepairedSection(soap, k) else filled[k]
    ensures repaired == RepairSoap(soap)
  {
    assert repaired.Keys == RepairSoap(soap).Keys;
  }

  /** The first loop of `validate_soap_json`: every key of `keys` missing
      from the note is added as the sentinel. */
  method FillMissing(soap: map<string, Json>, keys: seq<string>) returns (filled: map<string, Json>)
    ensures forall k :: k in filled <==> k in soap || k in keys
    ensures forall k :: k in filled ==> filled[k] == if k in soap then soap[k] else JString(Sentinel)
  {
    filled := soap;
    var i := 0;
    while i < |keys|
      invariant 0 <= i <= |keys|
      invariant forall k :: k in filled <==> k in soap || k in keys[..i]
      invariant forall k :: k in filled ==> filled[k] == if k in soap then soap[k] else JString(Sentinel)
    {
      var key := keys[i];
      if key !in filled {
        filled := filled[key := JString(Sentinel)];
      }
      assert keys[..i + 1] == keys[..i] + [key];
      i := i + 1;
    }
    assert keys[..i] == keys;
  }

  /** The second loop of `validate_soap_json`: every section of `keys` that
      is not a string, is blank, or is a generic placeholder becomes the
      sentinel; a missing section was already filled with it. */
  method ClearUnusable(soap: map<string, Json>, filled: map<string, Json>, keys: seq<string>)
    returns (repaired: map<string, Json>)
    requires forall k :: k in keys ==> k in filled
    requires forall k :: k in filled ==> filled[k] == if k in soap then soap[k] else JString(Sentinel)
    requires GoodSection(JString(Sentinel))
    ensures forall k :: k in repaired <==> k in filled
    ensures forall k :: k in repaired ==>
      repaired[k] == if k in keys then RepairedSection(soap, k) else filled[k]
  {
    repaired := filled;
    var j := 0;
    while j < |keys|
      invariant 0 <= j <= |keys|
      invariant forall k :: k in repaired <==> k in filled
      invariant forall k :: k in repaired ==>
        repaired[k] == if k in keys[..j] then RepairedSection(soap, k) else filled[k]
    {
      var key := keys[j];
      var value := repaired[key];
      ghost var before := repaired;
      var cleared := ClearSection(value);
      repaired := repaired[key := cleared];
      ClearedIsRepaired(soap, key, value);
      ClearStep(soap, filled, keys, j, before, repaired);
      j := j + 1;
    }
    assert keys[..j] == keys;
  }

  /** One section after the second loop has looked at it. */
  function Cleared(value: Json): Json {
    if GoodSection(value) then value else JString(Sentinel)
  }

  /** The body of the second loop for one section: a value that is not a
      string or is blank becomes the sentinel, and so does a generic
      placeholder; any other value stays. */
  method ClearSection(value: Json) returns (cleared: Json)
    ensures cleared == Cleared(value)
    ensures GoodSection(value) <==> cleared == value
  {
    SentinelGood();
    if !value.JString? || Blank(value.s) {
      cleared := JString(Sentinel);
    } else if IsPlaceholder(value.s) {
      cleared := JString(Sentinel);
    } else {
      cleared := value;
    }
  }

  /** Whether the loop meets a section as the first loop left it or as an
      earlier turn already repaired it, it leaves it repaired. */
  lemma ClearedIsRepaired(soap: map<string, Json>, key: string, value: Json)
    requires GoodSection(JString(Sentinel))
    requires value == RepairedSection(soap, key) ||
             value == if key in soap then soap[key] else JString(Sentinel)
    ensures Cleared(value) == RepairedSection(soap, key)
  {
  }

  /** One turn of the second loop of `validate_soap_json` keeps its
      invariant. */
  lemma ClearStep(soap: map<string, Json>, filled: map<string, Json>, keys: seq<string>, j: nat,
                  before: map<string, Json>, after: map<string, Json>)
    requires j < |keys| && keys[j] in before
    requires forall k :: k in before <==> k in filled
    requires forall k :: k in before ==>
      before[k] == if k in keys[..j] then RepairedSection(soap, k) else filled[k]
    requires after == before[keys[j] := RepairedSection(soap, keys[j])]
    ensures forall k :: k in after <==> k in filled
    ensures forall k :: k in after ==>
      after[k] == if k in keys[..j + 1] then RepairedSection(soap, k) else filled[k]
  {
    assert keys[..j + 1] == keys[..j] + [keys[j]];
  }

  // ---------------------------------------------------------------------
  // the empty note

  /** `_empty_soap_note`: every section is the sentinel. */
  function EmptyNote(): (note: map<string, string>)
    ensures note.Keys == RequiredSet
    ensures forall k :: k in note ==> note[k] == Sentinel
  {
    map k | k in RequiredSet :: Sentinel
  }

  // ---------------------------------------------------------------------
  // salvage

  /** The first position from `i` on that is not whitespace. */
  function SkipSpace(text: string, i: nat): (j: nat)
    requires i <= |text|
    ensures i <= j <= |text| && AllSpace(text[i..j])
    ensures j < |text| ==> !IsSpace(text[j])
    decreases |text| - i
  {
    if i < |text| && IsSpace(text[i]) then SkipSpace(text, i + 1) else i
  }

  /** `re.match(r'"<key>"\s*:\s*"([^"]*)"', text[i:])`: the quoted key, a
      colon, and a quoted string without quotes in it; the result is that
      string. */
  function MatchAt(text: string, key: string, i: nat): (r: Option<string>)
    requires i <= |text|
    ensures r.Some? ==> NoQuote(r.value)
  {
    var head := "\"" + key + "\"";
    if !(head <= text[i..]) then None
    else MatchValue(text, i + |head|)
  }

  /** The rest of the pattern after the quoted key: `\s*:\s*"([^"]*)"`
      from position `j` on. */
  function MatchValue(text: string, j: nat): (r: Option<string>)
    requires j <= |text|
    ensures r.Some? ==> NoQuote(r.value)
  {
    var colon := SkipSpace(text, j);
    if colon == |text| || text[colon] != ':' then None
    else
      var open := SkipSpace(text, colon + 1);
      if open == |text| || text[open] != '"' then None
      else
        match NextQuote(text, open + 1)
        case None => None
        case Some(close) => Some(text[open + 1..close])
  }

  /** The position of the first double quote from `j` on: where `[^"]*"`
      stops. */
  function NextQuote(text: string, j: nat): (r: Option<nat>)
    requires j <= |text|
    ensures r.Some? ==> j <= r.value < |text| && text[r.value] == '"' && NoQuote(text[j..r.value])
    ensures r.None? ==> NoQuote(text[j..])
    decreases |text| - j
  {
    if j == |text| then None
    else if text[j] == '"' then Some(j)
    else
      var r := NextQuote(text, j + 1);
      assert r.Some? ==> text[j..r.value] == [text[j]] + text[j + 1..r.value];
      assert r.None? ==> text[j..] == [text[j]] + text[j + 1..];
      r
  }

  predicate NoQuote(s: string) {
    forall i :: 0 <= i < |s| ==> s[i] != '"'
  }

  /** `re.search` with that pattern: the leftmost position from `from` on
      where it matches. */
  function FindField(text: string, key: string, from: nat): (r: Option<nat>)
    requires from <= |text|
    ensures r.Some? ==> from <= r.value <= |text| && MatchAt(text, key, r.value).Some?
    ensures r.Some? ==> forall j :: from <= j < r.value ==> MatchAt(text, key, j).None?
    ensures r.None? ==> forall j :: from <= j <= |text| ==> MatchAt(text, key, j).None?
    decreases |text| - from
  {
    if MatchAt(text, key, from).Some? then Some(from)
    else if from == |text| then None
    else FindField(text, key, from + 1)
  }

  /** The salvaged value of one section: the captured string of the first
      match, or the sentinel. */
  function SalvageSection(text: string, key: string): (v: string)
    ensures v == Sentinel || NoQuote(v)
  {
    match FindField(text, key, 0)
    case None => Sentinel
    case Some(i) => MatchAt(text, key, i).value
  }

  /** The dictionary that `_salvage_json` builds. */
  function SalvageNote(text: string): (note: map<string, string>)
    ensures note.Keys == RequiredSet
    ensures forall k :: k in RequiredSet ==> note[k] == SalvageSection(text, k)
  {
    map k | k in RequiredSet :: SalvageSection(text, k)
  }

  /** `_salvage_json`. It always finds four sections, so it never gives up. */
  method SalvageJson(text: string) returns (result: Option<map<string, string>>)
    ensures result == Some(SalvageNote(text))
  {
    var note := SalvageSections(text, RequiredKeys);
    RequiredKeysSet();
    assert note.Keys == RequiredSet;
    RequiredSetSize();
    assert |note| == |note.Keys|;
    assert forall k :: k in note ==> note[k] == SalvageNote(text)[k];
    assert note == SalvageNote(text);
    if |note| == 4 {
      result := Some(note);
    } else {
      result := None;
    }
  }

  /** The loop of `_salvage_json` over the sections of `keys`. */
  method SalvageSections(text: string, keys: seq<string>) returns (note: map<string, string>)
    ensures forall k :: k in note <==> k in keys
    ensures forall k :: k in note ==> note[k] == SalvageSection(text, k)
  {
    note := map[];
    var i := 0;
    while i < |keys|
      invariant 0 <= i <= |keys|
      invariant forall k :: k in note <==> k in keys[..i]
      invariant forall k :: k in note ==> note[k] == SalvageSection(text, k)
    {
      var section := keys[i];
      var found := FindField(text, section, 0);
      if found.Some? {
        note := note[section := MatchAt(text, section, found.value).value];
      } else {
        note := note[section := Sentinel];
      }
      assert keys[..i + 1] == keys[..i] + [section];
      i := i + 1;
    }
    assert keys[..i] == keys;
  }

  /** A colon at `colon`, then one space and a quoted string without quotes
      that closes at `close`. */
  predicate QuotedValueAt(text: string, colon: nat, close: nat) {
    && colon + 3 <= close < |text|
    && text[colon] == ':' && text[colon + 1] == ' ' && text[colon + 2] == '"'
    && text[close] == '"' && NoQuote(text[colon + 3..close])
  }

  /** The pattern matches at `i` when the quoted key, a colon, one space and
      a quoted string without quotes follow. */
  lemma MatchAtField(text: string, key: string, i: nat, close: nat)
    requires i <= |text| && "\"" + key + "\"" <= text[i..]
    requires QuotedValueAt(text, i + |key| + 2, close)
    ensures MatchAt(text, key, i) == Some(text[i + |key| + 5..close])
  {
    MatchAfterHead(text, key, i);
    ValueAfterColon(text, i + |key| + 2, close);
  }

  /** Past the quoted key, the pattern is matched by `MatchValue`. */
  lemma MatchAfterHead(text: string, key: string, i: nat)
    requires i <= |text| && "\"" + key + "\"" <= text[i..]
    ensures MatchAt(text, key, i) == MatchValue(text, i + |key| + 2)
  {
  }

  lemma PrefixAt(text: string, i: nat, p: string)
    requires i + |p| <= |text| && text[i..i + |p|] == p
    ensures p <= text[i..]
  {
    assert text[i..][..|p|] == p;
  }

  /** A colon, one space and a quoted string without quotes at `colon`. */
  lemma ValueAfterColon(text: string, colon: nat, close: nat)
    requires QuotedValueAt(text, colon, close)
    ensures MatchValue(text, colon) == Some(text[colon + 3..close])
  {
    assert SkipSpace(text, colon) == colon;
    assert SkipSpace(text, colon + 2) == colon + 2;
    assert SkipSpace(text, colon + 1) == colon + 2;
    QuoteAt(text, colon + 3, close);
  }

  /** The next double quote from `from` on is the one at `close`. */
  lemma QuoteAt(text: string, from: nat, close: nat)
    requires from <= close < |text| && text[close] == '"' && NoQuote(text[from..close])
    ensures NextQuote(text, from) == Some(close)
  {
  }

  /** A field written out as JSON after text without quotes is recovered
      exactly. */
  lemma SalvageRecovers(pre: string, key: string, value: string, post: string)
    requires NoQuote(pre) && NoQuote(value)
    ensures SalvageSection(pre + "\"" + key + "\": \"" + value + "\"" + post, key) == value
  {
    var text := pre + "\"" + key + "\": \"" + value + "\"" + post;
    FieldLayout(pre, key, value, post);
    PrefixAt(text, |pre|, "\"" + key + "\"");
    MatchAtField(text, key, |pre|, |pre| + |key| + 5 + |value|);
    NoMatchInQuoteless(text, key, |pre|);
    FirstMatch(text, key, |pre|);
  }

  /** The pattern starts with a double quote, so it cannot match where there
      is none. */
  lemma NoMatchInQuoteless(text: string, key: string, n: nat)
    requires n <= |text| && NoQuote(text[..n])
    ensures forall j :: 0 <= j < n ==> MatchAt(text, key, j).None?
  {
    forall j | 0 <= j < n
      ensures MatchAt(text, key, j).None?
    {
      assert text[j..][0] == text[..n][j];
    }
  }

  /** Where the pieces of a written-out field sit. */
  lemma FieldLayout(pre: string, key: string, value: string, post: string)
    requires NoQuote(value)
    ensures var text := pre + "\"" + key + "\": \"" + value + "\"" + post;
      var i, close := |pre|, |pre| + |key| + 5 + |value|;
      && i + |key| + 2 <= |text| && text[i..i + |key| + 2] == "\"" + key + "\""
      && QuotedValueAt(text, i + |key| + 2, close)
      && text[i + |key| + 5..close] == value
      && text[..i] == pre
  {
    var text := pre + "\"" + key + "\": \"" + value + "\"" + post;
    assert text == pre + ("\"" + key + "\"") + (": \"" + (value + ("\"" + post)));
    var close := |pre| + |key| + 5 + |value|;
    assert text[|pre| + |key| + 5..close] == value;
  }

  /** The salvaged section is the capture at the first matching position. */
  lemma FirstMatch(text: string, key: string, i: nat)
    requires i <= |text| && MatchAt(text, key, i).Some?
    requires forall j :: 0 <= j < i ==> MatchAt(text, key, j).None?
    ensures SalvageSection(text, key) == MatchAt(text, key, i).value
  {
  }

  /** A reply without a single double quote salvages to the empty note. */
  lemma SalvageQuoteless(text: string)
    requires NoQuote(text)
    ensures SalvageNote(text) == EmptyNote()
  {
    forall k, j | 0 <= j <= |text|
      ensures MatchAt(text, k, j).None?
    {
      if j < |text| {
        assert text[j..][0] == text[j];
      }
    }
  }
}
