/**
 * The string primitives the pipeline relies on, over ASCII text:
 * whitespace (`str.isspace`), `str.lower`, `str.strip`, `str.split`,
 * `' '.join`, `str.splitlines`, `'\n'.join`, substring search (`in`,
 * `str.count`, `re.search` for a literal) and a case-insensitive literal
 * `re.sub`.
 */
module Text {
  import opened Wrappers

  /** Python's `str.isspace` on ASCII: tab, line feed, vertical tab, form feed,
      carriage return, the four separators 0x1C-0x1F, and space. The same set
      is matched by `\s` in a `re` pattern over `str`. */
  predicate IsSpace(c: char) {
    c == ' ' || (9 <= c as int <= 13) || (28 <= c as int <= 31)
  }

  predicate AllSpace(s: string) {
    forall i :: 0 <= i < |s| ==> IsSpace(s[i])
  }

  predicate NoSpace(s: string) {
    forall i :: 0 <= i < |s| ==> !IsSpace(s[i])
  }

  /** `not s or not s.strip()`: empty or whitespace only. */
  predicate Blank(s: string) {
    AllSpace(s)
  }

  function LowerChar(c: char): char {
    if 'A' <= c <= 'Z' then (c as int + 32) as char else c
  }

  /** `str.lower` on ASCII. */
  function Lower(s: string): (r: string)
    ensures |r| == |s|
    ensures forall i :: 0 <= i < |s| ==> r[i] == LowerChar(s[i])
  {
    seq(|s|, i requires 0 <= i < |s| => LowerChar(s[i]))
  }

  lemma LowerAppend(a: string, b: string)
    ensures Lower(a + b) == Lower(a) + Lower(b)
  {
  }

  // ---------------------------------------------------------------------
  // strip

  function TrimStart(s: string): (r: string)
    ensures |r| <= |s| && r == s[|s| - |r|..]
    ensures AllSpace(s[..|s| - |r|])
    ensures |r| > 0 ==> !IsSpace(r[0])
  {
    if |s| > 0 && IsSpace(s[0]) then TrimStart(s[1..]) else s
  }

  function TrimEnd(s: string): (r: string)
    ensures |r| <= |s| && r == s[..|r|]
    ensures AllSpace(s[|r|..])
    ensures |r| > 0 ==> !IsSpace(r[|r| - 1])
  {
    if |s| > 0 && IsSpace(s[|s| - 1]) then TrimEnd(s[..|s| - 1]) else s
  }

  /** `str.strip()`: neither end of the result is whitespace. */
  function Strip(s: string): (r: string)
    ensures |r| > 0 ==> !IsSpace(r[0]) && !IsSpace(r[|r| - 1])
  {
    TrimEnd(TrimStart(s))
  }

  /** Stripping removes nothing from text that neither starts nor ends with
      whitespace. */
  lemma StripTrimmed(s: string)
    requires |s| > 0 ==> !IsSpace(s[0]) && !IsSpace(s[|s| - 1])
    ensures Strip(s) == s
  {
  }

  /** Stripping leaves nothing exactly when the text is blank. */
  lemma StripBlank(s: string)
    ensures Strip(s) == [] <==> Blank(s)
  {
    var t := TrimStart(s);
    if Strip(s) == [] {
      assert t[0..] == t;
      assert t == [];
      assert s[..|s|] == s;
    }
  }

  /** Surrounding whitespace does not change the result of `strip`. */
  lemma {:induction false} StripPadded(a: string, s: string, b: string)
    requires AllSpace(a) && AllSpace(b)
    requires |s| > 0 ==> !IsSpace(s[0]) && !IsSpace(s[|s| - 1])
    ensures Strip(a + s + b) == s
  {
    if s == [] {
      assert AllSpace(a + s + b);
      StripBlank(a + s + b);
    } else {
      TrimStartSpaces(a, s + b);
      assert (a + s + b) == a + (s + b);
      TrimEndSpaces(s, b);
    }
  }

  lemma {:induction false} TrimStartSpaces(a: string, t: string)
    requires AllSpace(a)
    requires |t| > 0 ==> !IsSpace(t[0])
    ensures TrimStart(a + t) == t
  {
    if a != [] {
      assert (a + t)[1..] == a[1..] + t;
      TrimStartSpaces(a[1..], t);
    }
  }

  lemma {:induction false} TrimEndSpaces(t: string, b: string)
    requires AllSpace(b)
    requires |t| > 0 ==> !IsSpace(t[|t| - 1])
    ensures TrimEnd(t + b) == t
  {
    if b != [] {
      assert (t + b)[..|t + b| - 1] == t + b[..|b| - 1];
      TrimEndSpaces(t, b[..|b| - 1]);
    }
  }

  lemma {:induction false} TrimStartLower(s: string)
    ensures TrimStart(Lower(s)) == Lower(TrimStart(s))
    decreases |s|
  {
    if |s| > 0 {
      assert IsSpace(Lower(s)[0]) == IsSpace(s[0]);
      if IsSpace(s[0]) {
        assert Lower(s)[1..] == Lower(s[1..]);
        TrimStartLower(s[1..]);
      }
    }
  }

  lemma {:induction false} TrimEndLower(s: string)
    ensures TrimEnd(Lower(s)) == Lower(TrimEnd(s))
    decreases |s|
  {
    if |s| > 0 {
      assert IsSpace(Lower(s)[|s| - 1]) == IsSpace(s[|s| - 1]);
      if IsSpace(s[|s| - 1]) {
        assert Lower(s)[..|s| - 1] == Lower(s[..|s| - 1]);
        TrimEndLower(s[..|s| - 1]);
      }
    }
  }

  /** Lower-casing changes no whitespace, so it commutes with stripping. */
  lemma LowerStrip(s: string)
    ensures Lower(Strip(s)) == Strip(Lower(s))
  {
    TrimStartLower(s);
    TrimEndLower(TrimStart(s));
  }

  // ---------------------------------------------------------------------
  // split and join on whitespace

  /** Length of the longest prefix of `s` without whitespace. */
  function WordLength(s: string): (n: nat)
    ensures n <= |s| && NoSpace(s[..n])
    ensures n < |s| ==> IsSpace(s[n])
  {
    if |s| == 0 || IsSpace(s[0]) then 0 else 1 + WordLength(s[1..])
  }

  /** `str.split()` with no separator: the maximal runs of non-whitespace. */
  function Split(s: string): (ws: seq<string>)
    ensures forall k :: 0 <= k < |ws| ==> |ws[k]| > 0 && NoSpace(ws[k])
    ensures ws == [] <==> Blank(s)
  {
    if |s| == 0 then []
    else if IsSpace(s[0]) then Split(s[1..])
    else
      var n := WordLength(s);
      [s[..n]] + Split(s[n..])
  }

  /** `' '.join(ws)`. */
  function JoinSpaced(ws: seq<string>): string {
    if |ws| == 0 then ""
    else if |ws| == 1 then ws[0]
    else ws[0] + " " + JoinSpaced(ws[1..])
  }

  /** Text without leading or trailing whitespace and without two whitespace
      characters in a row. */
  predicate Tidy(s: string) {
    && (|s| > 0 ==> !IsSpace(s[0]) && !IsSpace(s[|s| - 1]))
    && NoDoubleSpace(s)
  }

  /** Every whitespace character is a plain space (no line breaks, no tabs). */
  predicate OnlyBlanks(s: string) {
    forall i :: 0 <= i < |s| && IsSpace(s[i]) ==> s[i] == ' '
  }

  lemma TidyJoin(a: string, b: string)
    requires Tidy(a) && Tidy(b) && |a| > 0 && |b| > 0
    ensures Tidy(a + " " + b)
  {
    var s := a + " " + b;
    assert s[|a| + 1] == b[0];
    forall i | 0 < i < |s| && IsSpace(s[i]) ensures !IsSpace(s[i - 1]) {
      if i < |a| {
        assert s[i] == a[i] && s[i - 1] == a[i - 1];
      } else if i == |a| {
        assert s[i - 1] == a[|a| - 1];
      } else if i > |a| + 1 {
        assert s[i] == b[i - |a| - 1] && s[i - 1] == b[i - |a| - 2];
      }
    }
  }

  /** Joining non-empty whitespace-free words with single spaces gives tidy
      text whose only whitespace is the separating spaces. */
  lemma {:induction false} JoinSpacedTidy(ws: seq<string>)
    requires forall k :: 0 <= k < |ws| ==> |ws[k]| > 0 && NoSpace(ws[k])
    ensures Tidy(JoinSpaced(ws)) && OnlyBlanks(JoinSpaced(ws))
    ensures |ws| > 0 ==> |JoinSpaced(ws)| > 0
  {
    if |ws| > 1 {
      JoinSpacedTidy(ws[1..]);
      var a, b := ws[0], JoinSpaced(ws[1..]);
      TidyJoin(a, b);
      var s := a + " " + b;
      forall i | 0 <= i < |s| && IsSpace(s[i]) ensures s[i] == ' ' {
        if i > |a| { assert s[i] == b[i - |a| - 1]; }
      }
    }
  }

  // ---------------------------------------------------------------------
  // substring search

  /** `p in s`. */
  predicate Contains(s: string, p: string) {
    exists i :: 0 <= i <= |s| && p <= s[i..]
  }

  /** The first position at or after `from` where `p` occurs in `s`. */
  function IndexOf(s: string, p: string, from: nat): (r: Option<nat>)
    ensures r.Some? ==> from <= r.value <= |s| && p <= s[r.value..]
    ensures r.Some? ==> forall j :: from <= j < r.value ==> !(p <= s[j..])
    ensures r.None? ==> forall j :: from <= j <= |s| ==> !(p <= s[j..])
    decreases |s| - from
  {
    if from > |s| then None
    else if p <= s[from..] then Some(from)
    else IndexOf(s, p, from + 1)
  }

  lemma IndexOfContains(s: string, p: string)
    ensures IndexOf(s, p, 0).Some? <==> Contains(s, p)
  {
  }

  /** `IndexOf` finds a pattern at `at` when no earlier position from
      `from` on holds its first character. */
  lemma FirstOccurrence(t: string, p: string, from: nat, at: nat)
    requires |p| > 0 && from <= at <= |t| && p <= t[at..]
    requires forall a :: from <= a < at ==> t[a] != p[0]
    ensures IndexOf(t, p, from) == Some(at)
  {
    forall a | from <= a < at
      ensures !(p <= t[a..])
    {
      assert t[a..][0] == t[a];
    }
  }

  /** `s.count(p)` for a non-empty `p`: non-overlapping occurrences, scanning
      from the left. */
  function Count(s: string, p: string): nat
    requires |p| > 0
    decreases |s|
  {
    if |s| < |p| then 0
    else if p <= s then 1 + Count(s[|p|..], p)
    else Count(s[1..], p)
  }

  /** A pattern is counted at least once exactly when it occurs. */
  lemma {:induction false} CountPositive(s: string, p: string)
    requires |p| > 0
    ensures Count(s, p) > 0 <==> Contains(s, p)
    decreases |s|
  {
    if |s| < |p| {
    } else if p <= s {
      assert s[0..] == s;
    } else {
      CountPositive(s[1..], p);
      if Contains(s, p) {
        var i :| 0 <= i <= |s| && p <= s[i..];
        assert i > 0 && s[1..][i - 1..] == s[i..];
      }
      if Contains(s[1..], p) {
        var i :| 0 <= i <= |s[1..]| && p <= s[1..][i..];
        assert s[1..][i..] == s[i + 1..];
      }
    }
  }

  // ---------------------------------------------------------------------
  // case-insensitive literal substitution

  /** `re.compile(re.escape(pat), re.IGNORECASE).sub(rep, s)` for a lower-case
      ASCII `pat`: scanning from the left, every non-overlapping occurrence
      of `pat` in any letter case is replaced by `rep`. */
  function ReplaceCI(s: string, pat: string, rep: string): string
    requires |pat| > 0
    decreases |s|
  {
    if |s| < |pat| then s
    else if Lower(s[..|pat|]) == pat then rep + ReplaceCI(s[|pat|..], pat, rep)
    else [s[0]] + ReplaceCI(s[1..], pat, rep)
  }

  /** Substitution with a non-empty replacement empties nothing. */
  lemma {:induction false} ReplaceEmpty(s: string, pat: string, rep: string)
    requires |pat| > 0 && |rep| > 0
    ensures |ReplaceCI(s, pat, rep)| == 0 <==> |s| == 0
    decreases |s|
  {
    if |s| >= |pat| && Lower(s[..|pat|]) != pat {
      ReplaceEmpty(s[1..], pat, rep);
    }
  }

  /** The result starts with the input's first character or the replacement's. */
  lemma {:induction false} ReplaceFirst(s: string, pat: string, rep: string)
    requires |pat| > 0 && |rep| > 0 && |s| > 0
    ensures var r := ReplaceCI(s, pat, rep); |r| > 0 && (r[0] == s[0] || r[0] == rep[0])
  {
    ReplaceEmpty(s, pat, rep);
  }

  /** The result ends with the input's last character or the replacement's. */
  lemma {:induction false} ReplaceLast(s: string, pat: string, rep: string)
    requires |pat| > 0 && |rep| > 0 && |s| > 0
    ensures var r := ReplaceCI(s, pat, rep);
      |r| > 0 && (r[|r| - 1] == s[|s| - 1] || r[|r| - 1] == rep[|rep| - 1])
    decreases |s|
  {
    ReplaceEmpty(s, pat, rep);
    if |s| < |pat| {
    } else if Lower(s[..|pat|]) == pat {
      var t := s[|pat|..];
      assert ReplaceCI(s, pat, rep) == rep + ReplaceCI(t, pat, rep);
      if |t| > 0 {
        ReplaceLast(t, pat, rep);
        assert t[|t| - 1] == s[|s| - 1];
      } else {
        assert ReplaceCI(t, pat, rep) == [];
      }
    } else {
      var t := s[1..];
      assert ReplaceCI(s, pat, rep) == [s[0]] + ReplaceCI(t, pat, rep);
      if |t| > 0 {
        ReplaceLast(t, pat, rep);
        assert t[|t| - 1] == s[|s| - 1];
      } else {
        assert ReplaceCI(t, pat, rep) == [];
      }
    }
  }

  /** Every character of the result comes from the input or the replacement. */
  lemma {:induction false} ReplaceChars(s: string, pat: string, rep: string)
    requires |pat| > 0
    ensures forall c :: c in ReplaceCI(s, pat, rep) ==> c in s || c in rep
    decreases |s|
  {
    if |s| < |pat| {
    } else if Lower(s[..|pat|]) == pat {
      ReplaceChars(s[|pat|..], pat, rep);
      forall c | c in s[|pat|..] ensures c in s { }
    } else {
      ReplaceChars(s[1..], pat, rep);
      forall c | c in s[1..] ensures c in s { }
    }
  }

  predicate NoDoubleSpace(s: string) {
    forall i :: 0 < i < |s| && IsSpace(s[i]) ==> !IsSpace(s[i - 1])
  }

  /** Substitution with a tidy replacement never puts two whitespace
      characters next to each other. */
  lemma {:induction false} ReplaceNoDouble(s: string, pat: string, rep: string)
    requires |pat| > 0 && |rep| > 0 && Tidy(rep)
    requires NoDoubleSpace(s)
    ensures NoDoubleSpace(ReplaceCI(s, pat, rep))
    decreases |s|
  {
    var r := ReplaceCI(s, pat, rep);
    if |s| < |pat| {
    } else if Lower(s[..|pat|]) == pat {
      var t := s[|pat|..];
      assert NoDoubleSpace(t) by {
        forall i | 0 < i < |t| && IsSpace(t[i]) ensures !IsSpace(t[i - 1]) {
          assert t[i] == s[|pat| + i] && t[i - 1] == s[|pat| + i - 1];
        }
      }
      ReplaceNoDouble(t, pat, rep);
      var u := ReplaceCI(t, pat, rep);
      assert r == rep + u;
      forall i | 0 < i < |r| && IsSpace(r[i]) ensures !IsSpace(r[i - 1]) {
        if i < |rep| {
          assert r[i] == rep[i] && r[i - 1] == rep[i - 1];
        } else if i == |rep| {
          assert r[i - 1] == rep[|rep| - 1];
        } else {
          assert r[i] == u[i - |rep|] && r[i - 1] == u[i - |rep| - 1];
        }
      }
    } else {
      var t := s[1..];
      assert NoDoubleSpace(t) by {
        forall i | 0 < i < |t| && IsSpace(t[i]) ensures !IsSpace(t[i - 1]) {
          assert t[i] == s[1 + i] && t[i - 1] == s[i];
        }
      }
      ReplaceNoDouble(t, pat, rep);
      var u := ReplaceCI(t, pat, rep);
      assert r == [s[0]] + u;
      if |t| > 0 {
        ReplaceFirst(t, pat, rep);
        assert IsSpace(u[0]) ==> u[0] == t[0] && !IsSpace(s[0]);
      }
      forall i | 0 < i < |r| && IsSpace(r[i]) ensures !IsSpace(r[i - 1]) {
        if i > 1 {
          assert r[i] == u[i - 1] && r[i - 1] == u[i - 2];
        }
      }
    }
  }

  // ---------------------------------------------------------------------
  // lines

  /** The line boundaries recognised by `str.splitlines` among ASCII
      characters: LF, VT, FF, CR, and 0x1C-0x1E (CR LF counts as one). */
  predicate IsLineBreak(c: char) {
    (10 <= c as int <= 13) || (28 <= c as int <= 30)
  }

  function LineLength(s: string): (n: nat)
    ensures n <= |s|
    ensures forall i :: 0 <= i < n ==> !IsLineBreak(s[i])
    ensures n < |s| ==> IsLineBreak(s[n])
  {
    if |s| == 0 || IsLineBreak(s[0]) then 0 else 1 + LineLength(s[1..])
  }

  /** `str.splitlines()`: lines without their terminators; a final line
      terminator does not start an empty line. */
  function SplitLines(s: string): (lines: seq<string>)
    ensures s == [] <==> lines == []
    decreases |s|
  {
    if |s| == 0 then []
    else
      var n := LineLength(s);
      var width := if n + 1 < |s| && s[n] == '\r' && s[n + 1] == '\n' then 2
                   else if n < |s| then 1 else 0;
      [s[..n]] + SplitLines(s[n + width..])
  }

  /** `'\n'.join(lines)`. */
  function JoinLines(lines: seq<string>): string {
    if |lines| == 0 then ""
    else if |lines| == 1 then lines[0]
    else lines[0] + "\n" + JoinLines(lines[1..])
  }

  predicate NoLineBreak(s: string) {
    forall i :: 0 <= i < |s| ==> !IsLineBreak(s[i])
  }

  /** A line followed by a line feed is split off whole. */
  lemma SplitLinesStep(line: string, rest: string)
    requires NoLineBreak(line)
    ensures SplitLines(line + "\n" + rest) == [line] + SplitLines(rest)
  {
    var s := line + "\n" + rest;
    assert s[|line|] == '\n';
    assert LineLength(s) == |line|;
    assert s[..|line|] == line;
    assert s[|line| + 1..] == rest;
  }

  /** `splitlines` undoes `'\n'.join` of lines without breaks. */
  lemma {:induction false} SplitJoinLines(lines: seq<string>, rest: string)
    requires lines != []
    requires forall k :: 0 <= k < |lines| ==> NoLineBreak(lines[k])
    ensures SplitLines(JoinLines(lines) + "\n" + rest) == lines + SplitLines(rest)
    decreases |lines|
  {
    if |lines| == 1 {
      SplitJoinOne(lines, rest);
    } else {
      var tl := lines[1..];
      assert forall k :: 0 <= k < |tl| ==> NoLineBreak(tl[k]) by {
        forall k | 0 <= k < |tl| ensures NoLineBreak(tl[k]) {
          assert tl[k] == lines[k + 1];
        }
      }
      SplitJoinLines(tl, rest);
      SplitJoinCons(lines, rest);
    }
  }

  /** The last line of `SplitJoinLines`. */
  lemma SplitJoinOne(lines: seq<string>, rest: string)
    requires |lines| == 1 && NoLineBreak(lines[0])
    ensures SplitLines(JoinLines(lines) + "\n" + rest) == lines + SplitLines(rest)
  {
    calc {
      SplitLines(JoinLines(lines) + "\n" + rest);
      SplitLines(lines[0] + "\n" + rest);
      { SplitLinesStep(lines[0], rest); }
      [lines[0]] + SplitLines(rest);
      { assert lines == [lines[0]]; }
      lines + SplitLines(rest);
    }
  }

  /** One step of `SplitJoinLines`: the first line comes off whole. */
  lemma SplitJoinCons(lines: seq<string>, rest: string)
    requires |lines| > 1 && NoLineBreak(lines[0])
    requires SplitLines(JoinLines(lines[1..]) + "\n" + rest) == lines[1..] + SplitLines(rest)
    ensures SplitLines(JoinLines(lines) + "\n" + rest) == lines + SplitLines(rest)
  {
    var tail := JoinLines(lines[1..]) + "\n" + rest;
    calc {
      SplitLines(JoinLines(lines) + "\n" + rest);
      { JoinLinesCons(lines, rest); }
      SplitLines(lines[0] + "\n" + tail);
      { SplitLinesStep(lines[0], tail); }
      [lines[0]] + SplitLines(tail);
      [lines[0]] + (lines[1..] + SplitLines(rest));
      { assert lines == [lines[0]] + lines[1..]; }
      lines + SplitLines(rest);
    }
  }

  lemma JoinLinesCons(lines: seq<string>, rest: string)
    requires |lines| > 1
    ensures JoinLines(lines) + "\n" + rest == lines[0] + "\n" + (JoinLines(lines[1..]) + "\n" + rest)
  {
  }

  /** Text without a line break is one line. */
  lemma SplitOneLine(line: string)
    requires line != [] && NoLineBreak(line)
    ensures SplitLines(line) == [line]
  {
    assert LineLength(line) == |line|;
    assert line[..|line|] == line;
    assert line[|line|..] == [];
  }
}
