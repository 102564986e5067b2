/**
 * `clean_json_response`: digging the JSON object out of a model reply that
 * may wrap it in a Markdown fence and surround it with prose.
 */
module Sanitizer {
  import opened Wrappers
  import opened Text

  /** The last position of `c` in `s`. */
  function LastIndexOf(s: string, c: char): (r: Option<nat>)
    ensures r.Some? ==> r.value < |s| && s[r.value] == c
    ensures r.Some? ==> forall j :: r.value < j < |s| ==> s[j] != c
    ensures r.None? ==> forall j :: 0 <= j < |s| ==> s[j] != c
  {
    if |s| == 0 then None
    else if s[|s| - 1] == c then Some(|s| - 1)
    else LastIndexOf(s[..|s| - 1], c)
  }

  predicate NoChar(s: string, c: char) {
    forall i :: 0 <= i < |s| ==> s[i] != c
  }

  /** Neither end is whitespace, so `strip` leaves the text alone. */
  predicate Trimmed(s: string) {
    |s| > 0 ==> !IsSpace(s[0]) && !IsSpace(s[|s| - 1])
  }

  /** Text that opens with a brace and closes with one: what the search for
      an object finds. */
  predicate Braced(s: string) {
    |s| >= 2 && s[0] == '{' && s[|s| - 1] == '}'
  }

  /** There is an opening brace somewhere before a closing one. */
  predicate HasBracePair(t: string) {
    exists i, j :: 0 <= i < j < |t| && t[i] == '{' && t[j] == '}'
  }

  /** `t[i..j + 1]` runs from the first `{` of `t` to its last `}`. */
  predicate FirstToLast(t: string, i: int, j: int) {
    && 0 <= i < j < |t| && t[i] == '{' && t[j] == '}'
    && NoChar(t[..i], '{') && NoChar(t[j + 1..], '}')
  }

  /** `re.search(r'\{.*\}', t, re.DOTALL)`: from the first `{` to the last
      `}`, when the latter comes after the former; otherwise the text. */
  function BraceSpan(t: string): (r: string)
    ensures HasBracePair(t) ==> exists i, j :: FirstToLast(t, i, j) && r == t[i..j + 1]
    ensures HasBracePair(t) ==> Braced(r)
    ensures !HasBracePair(t) ==> r == t
    ensures |r| <= |t|
  {
    match (IndexOf(t, "{", 0), LastIndexOf(t, '}'))
    case (Some(i), Some(j)) =>
      if i < j then
        SpanFirstToLast(t, i, j);
        t[i..j + 1]
      else
        NoPairAfterFirst(t, i, j);
        t
    case (None, _) =>
      NoPairWithoutOpen(t);
      t
    case (_, None) => t
  }

  /** The first `{` and the last `}`, in that order, delimit the span. */
  lemma SpanFirstToLast(t: string, i: nat, j: nat)
    requires IndexOf(t, "{", 0) == Some(i) && LastIndexOf(t, '}') == Some(j) && i < j
    ensures FirstToLast(t, i, j) && Braced(t[i..j + 1])
  {
    assert t[i] == '{' by { assert "{" <= t[i..]; }
    var span := t[i..j + 1];
    assert span[0] == t[i] && span[|span| - 1] == t[j];
    forall a | 0 <= a < i
      ensures t[..i][a] != '{'
    {
      assert t[a..][0] == t[a];
    }
    var tail := t[j + 1..];
    forall b | 0 <= b < |tail|
      ensures tail[b] != '}'
    {
      assert tail[b] == t[j + 1 + b];
    }
  }

  /** A last `}` that does not follow the first `{` closes no pair. */
  lemma NoPairAfterFirst(t: string, i: nat, j: nat)
    requires IndexOf(t, "{", 0) == Some(i) && LastIndexOf(t, '}') == Some(j) && j <= i
    ensures !HasBracePair(t)
  {
    forall a | 0 <= a < |t| && t[a] == '{'
      ensures a >= i
    {
      assert "{" <= t[a..];
    }
  }

  /** Without a `{` there is no pair. */
  lemma NoPairWithoutOpen(t: string)
    requires IndexOf(t, "{", 0).None?
    ensures !HasBracePair(t)
  {
    forall a | 0 <= a < |t|
      ensures t[a] != '{'
    {
      assert t[a..][0] == t[a];
    }
  }

  /** The object is found between prose that opens no brace before it and
      closes none after it. */
  lemma BraceSpanSurrounded(pre: string, obj: string, post: string)
    requires NoChar(pre, '{') && NoChar(post, '}')
    requires Braced(obj)
    ensures BraceSpan(pre + obj + post) == obj
  {
    var t := pre + obj + post;
    assert "{" <= t[|pre|..];
    forall a | 0 <= a < |pre|
      ensures !("{" <= t[a..])
    {
      assert t[a..][0] == pre[a];
    }
    assert IndexOf(t, "{", 0) == Some(|pre|);
    var j := |pre| + |obj| - 1;
    assert t[j] == '}';
    assert LastIndexOf(t, '}') == Some(j);
    assert t[|pre|..j + 1] == obj;
  }

  /** The body of a ```` ```json ```` fence: from after the first
      ```` ```json ```` to the first ```` ``` ```` after it, stripped; the text
      itself when the fence is never closed. */
  function JsonFence(t: string): string
    requires Contains(t, "```json")
  {
    IndexOfContains(t, "```json");
    var open := IndexOf(t, "```json", 0).value;
    match IndexOf(t, "```", open + 7)
    case None => t
    case Some(close) => Strip(t[open + 7..close])
  }

  /** A generic fence: the first line (the fence and its language tag) is
      dropped, and the last one too when it is a bare fence; the rest is
      joined with line feeds and stripped. */
  function GenericFence(t: string): string
    requires "```" <= t
  {
    Strip(JoinLines(DropClose(DropOpen(SplitLines(t)))))
  }

  /** Drops the first line when it opens a fence. */
  function DropOpen(lines: seq<string>): seq<string>
    requires lines != []
  {
    if "```" <= lines[0] then lines[1..] else lines
  }

  /** Drops the last line when it is a bare fence. */
  function DropClose(lines: seq<string>): seq<string> {
    if |lines| > 0 && Strip(lines[|lines| - 1]) == "```" then lines[..|lines| - 1] else lines
  }

  /** `clean_json_response`. */
  function CleanJson(text: string): string {
    BraceSpan(Unfence(Strip(text)))
  }

  /** The fence step of `clean_json_response`, on stripped text. */
  function Unfence(t: string): string {
    if Contains(t, "```json") then JsonFence(t)
    else if "```" <= t then GenericFence(t)
    else t
  }

  /** An object is its own brace span. */
  lemma BraceSpanWhole(obj: string)
    requires Braced(obj)
    ensures BraceSpan(obj) == obj
  {
    assert "{" <= obj;
    assert LastIndexOf(obj, '}') == Some(|obj| - 1);
    assert obj[0..|obj|] == obj;
  }

  /** Without a fence and without braces, cleaning only strips. */
  lemma CleanJsonPlain(text: string)
    requires NoChar(text, '`') && NoChar(text, '{')
    ensures CleanJson(text) == Strip(text)
  {
    var t := Strip(text);
    assert NoChar(t, '`') && NoChar(t, '{') by { StripSlice(text); }
    NoFenceWithoutBacktick(t);
  }

  /** `Strip` returns a slice of its input. */
  lemma StripSlice(s: string)
    ensures exists a, b :: 0 <= a <= b <= |s| && Strip(s) == s[a..b]
  {
    var u := TrimStart(s);
    var a := |s| - |u|;
    var v := TrimEnd(u);
    assert Strip(s) == s[a..a + |v|];
  }

  /** A reply of prose around an unfenced object yields the object. */
  lemma CleanJsonSurrounded(pre: string, obj: string, post: string)
    requires NoChar(pre, '{') && NoChar(post, '}')
    requires NoChar(pre + obj + post, '`') && Trimmed(pre + obj + post)
    requires Braced(obj)
    ensures CleanJson(pre + obj + post) == obj
  {
    var t := pre + obj + post;
    StripTrimmed(t);
    NoFenceWithoutBacktick(t);
    BraceSpanSurrounded(pre, obj, post);
  }

  /** Text without a backtick holds no fence. */
  lemma NoFenceWithoutBacktick(t: string)
    requires NoChar(t, '`')
    ensures !Contains(t, "```json") && !("```" <= t)
    ensures !Contains(t, "```")
  {
    forall i | 0 <= i <= |t|
      ensures !("```json" <= t[i..]) && !("```" <= t[i..])
    {
      if i < |t| {
        assert t[i..][0] == t[i];
      }
    }
    if |t| > 0 {
      assert t[0] != '`';
    }
  }

  /** The first `json` fence opens right after fence-free prose. */
  lemma FenceOpensAt(pre: string, inner: string, post: string)
    requires NoChar(pre, '`') && NoChar(inner, '`')
    ensures IndexOf(pre + "```json" + inner + "```" + post, "```json", 0) == Some(|pre|)
  {
    var t := pre + "```json" + inner + "```" + post;
    var open := |pre|;
    assert t[open..] == "```json" + inner + "```" + post;
    forall a | 0 <= a < open
      ensures t[a] != '`'
    {
      assert t[a] == pre[a];
    }
    FirstOccurrence(t, "```json", 0, open);
  }
  /** The first fence after it closes right after a backtick-free body. */
  lemma FenceClosesAt(pre: string, inner: string, post: string)
    requires NoChar(pre, '`') && NoChar(inner, '`')
    ensures IndexOf(pre + "```json" + inner + "```" + post, "```", |pre| + 7) == Some(|pre| + 7 + |inner|)
  {
    var t := pre + "```json" + inner + "```" + post;
    var open := |pre|;
    var close := open + 7 + |inner|;
    assert t[close..] == "```" + post;
    forall a | open + 7 <= a < close
      ensures t[a] != '`'
    {
      assert t[a] == inner[a - open - 7];
    }
    FirstOccurrence(t, "```", open + 7, close);
  }
  /** Where the body sits. */
  lemma FenceBodySlice(pre: string, inner: string, post: string)
    ensures |pre| + 7 + |inner| <= |pre + "```json" + inner + "```" + post|
    ensures (pre + "```json" + inner + "```" + post)[|pre| + 7..|pre| + 7 + |inner|] == inner
  {
    var t := pre + "```json" + inner + "```" + post;
    assert t == (pre + "```json") + inner + ("```" + post);
  }

  /** The fenced body is stripped out of its fence. */
  lemma JsonFenceBody(pre: string, inner: string, post: string)
    requires NoChar(pre, '`') && NoChar(inner, '`')
    ensures Contains(pre + "```json" + inner + "```" + post, "```json")
    ensures JsonFence(pre + "```json" + inner + "```" + post) == Strip(inner)
  {
    FenceLayout(pre, inner, post);
    JsonFenceAt(pre + "```json" + inner + "```" + post, |pre|, |pre| + 7 + |inner|, inner);
  }

  /** The first `json` fence of `t` opens at `open`, the first fence after
      it closes at `close`, and `inner` lies between them. */
  predicate FencedAt(t: string, open: nat, close: nat, inner: string) {
    && IndexOf(t, "```json", 0) == Some(open)
    && IndexOf(t, "```", open + 7) == Some(close)
    && open + 7 <= close <= |t| && t[open + 7..close] == inner
  }

  lemma FenceLayout(pre: string, inner: string, post: string)
    requires NoChar(pre, '`') && NoChar(inner, '`')
    ensures FencedAt(pre + "```json" + inner + "```" + post, |pre|, |pre| + 7 + |inner|, inner)
  {
    FenceOpensAt(pre, inner, post);
    FenceClosesAt(pre, inner, post);
    FenceBodySlice(pre, inner, post);
  }

  /** The fence step once both fences are located. */
  lemma JsonFenceAt(t: string, open: nat, close: nat, inner: string)
    requires FencedAt(t, open, close, inner)
    ensures Contains(t, "```json")
    ensures JsonFence(t) == Strip(inner)
  {
    IndexOfContains(t, "```json");
    assert IndexOf(t, "```json", 0).value == open;
    assert JsonFence(t) == Strip(t[open + 7..close]);
  }

  /** A ```` ```json ```` fence anywhere after fence-free prose yields its
      stripped body; whatever follows the closing fence is dropped, braces
      included. */
  lemma CleanJsonFenced(pre: string, inner: string, post: string)
    requires NoChar(pre, '`') && NoChar(inner, '`')
    requires Trimmed(pre + "```json" + inner + "```" + post)
    requires Braced(Strip(inner))
    ensures CleanJson(pre + "```json" + inner + "```" + post) == Strip(inner)
  {
    var t := pre + "```json" + inner + "```" + post;
    JsonFenceBody(pre, inner, post);
    CleanJsonOfFenceBody(t, Strip(inner));
  }

  lemma CleanJsonOfFenceBody(t: string, obj: string)
    requires Trimmed(t) && Contains(t, "```json") && JsonFence(t) == obj
    requires Braced(obj)
    ensures CleanJson(t) == obj
  {
    CleanJsonOfFence(t);
  }

  /** Cleaning a stripped `json`-fenced text whose body is an object. */
  lemma CleanJsonOfFence(t: string)
    requires Trimmed(t) && Contains(t, "```json")
    requires Braced(JsonFence(t))
    ensures CleanJson(t) == JsonFence(t)
  {
    var obj := JsonFence(t);
    StripTrimmed(t);
    UnfenceOfFence(t);
    BraceSpanWhole(obj);
  }

  lemma UnfenceOfFence(t: string)
    requires Contains(t, "```json")
    ensures Unfence(t) == JsonFence(t)
  {
  }

  /** Joining lines without a character gives text without it. */
  lemma {:induction false} JoinLinesNoChar(lines: seq<string>, c: char)
    requires c != '\n'
    requires forall k :: 0 <= k < |lines| ==> NoChar(lines[k], c)
    ensures NoChar(JoinLines(lines), c)
    decreases |lines|
  {
    if |lines| > 1 {
      JoinLinesNoChar(lines[1..], c);
    }
  }

  /** A fence with a language tag other than `json` is not a `json` fence. */
  lemma NoJsonFenceInGeneric(lang: string, obj: string)
    requires NoLineBreak(lang) && NoChar(lang, '`') && !("json" <= lang)
    requires NoChar(obj, '`')
    ensures !Contains("```" + lang + "\n" + obj + "\n```", "```json")
  {
    var t := "```" + lang + "\n" + obj + "\n```";
    var fence := "```json";
    forall i | 0 <= i <= |t|
      ensures !(fence <= t[i..])
    {
      if i + 7 <= |t| {
        if i == 0 {
          if |lang| >= 4 {
            assert t[3..7] == lang[..4];
            assert fence[3..7] == "json";
            assert t[i..][3..7] != fence[3..7];
          } else {
            assert t[3 + |lang|] == '\n';
            assert t[i..][3 + |lang|] != fence[3 + |lang|];
          }
        } else if i < 3 {
          assert t[3] != '`';
          assert t[i..][3 - i] != fence[3 - i];
        } else {
          assert t[i] != '`';
          assert t[i..][0] != fence[0];
        }
      }
    }
  }

  lemma SplitFence()
    ensures SplitLines("```") == ["```"]
  {
    SplitOneLine("```");
  }

  /** The lines of a fenced reply: the opening fence line, the body lines
      and the closing fence. */
  lemma SplitFenced(lang: string, lines: seq<string>)
    requires NoLineBreak(lang)
    requires lines != [] && forall k :: 0 <= k < |lines| ==> NoLineBreak(lines[k])
    ensures SplitLines("```" + lang + "\n" + JoinLines(lines) + "\n```") == ["```" + lang] + lines + ["```"]
  {
    var rest := JoinLines(lines) + "\n" + "```";
    var first := "```" + lang;
    assert NoLineBreak(first);
    assert "```" + lang + "\n" + JoinLines(lines) + "\n```" == first + "\n" + rest;
    SplitLinesStep(first, rest);
    SplitJoinLines(lines, "```");
    SplitFence();
  }

  lemma StripFence()
    ensures Strip("```") == "```"
  {
    StripTrimmed("```");
  }

  /** An opening fence line and a closing fence line are both dropped. */
  lemma DropBothFences(first: string, lines: seq<string>)
    requires "```" <= first
    ensures DropClose(DropOpen([first] + lines + ["```"])) == lines
  {
    var all := [first] + lines + ["```"];
    assert DropOpen(all) == lines + ["```"];
    var rest := lines + ["```"];
    assert rest[|rest| - 1] == "```";
    StripFence();
    assert rest[..|rest| - 1] == lines;
  }

  /** The generic fence step on text split into an opening line, body lines
      and a closing fence. */
  lemma GenericFenceOfLines(t: string, first: string, lines: seq<string>)
    requires "```" <= t && "```" <= first
    requires SplitLines(t) == [first] + lines + ["```"]
    requires Trimmed(JoinLines(lines))
    ensures GenericFence(t) == JoinLines(lines)
  {
    DropBothFences(first, lines);
    StripTrimmed(JoinLines(lines));
  }

  /** The generic fence text opens a fence and ends on one. */
  lemma GenericFencedEnds(lang: string, obj: string)
    ensures var t := "```" + lang + "\n" + obj + "\n```";
      Trimmed(t) && "```" <= t
  {
    var t := "```" + lang + "\n" + obj + "\n```";
    assert t[0] == '`' && t[|t| - 1] == '`';
    assert t[..3] == "```";
  }

  /** A reply fenced as ```` ```<lang> ```` for any tag but `json` yields the
      fenced object. */
  lemma CleanJsonGenericFenced(lang: string, lines: seq<string>)
    requires NoLineBreak(lang) && NoChar(lang, '`') && !("json" <= lang)
    requires lines != [] && forall k :: 0 <= k < |lines| ==> NoLineBreak(lines[k]) && NoChar(lines[k], '`')
    requires Braced(JoinLines(lines))
    ensures CleanJson("```" + lang + "\n" + JoinLines(lines) + "\n```") == JoinLines(lines)
  {
    GenericFencedEnds(lang, JoinLines(lines));
    JoinLinesNoChar(lines, '`');
    NoJsonFenceInGeneric(lang, JoinLines(lines));
    SplitFenced(lang, lines);
    CleanJsonOfGeneric("```" + lang + "\n" + JoinLines(lines) + "\n```", "```" + lang, lines);
  }

  /** Cleaning a stripped, generically fenced text whose body is an object. */
  lemma CleanJsonOfGeneric(t: string, first: string, lines: seq<string>)
    requires Trimmed(t) && !Contains(t, "```json") && "```" <= t && "```" <= first
    requires SplitLines(t) == [first] + lines + ["```"]
    requires Braced(JoinLines(lines))
    ensures CleanJson(t) == JoinLines(lines)
  {
    StripTrimmed(t);
    var obj := JoinLines(lines);
    StripTrimmed(obj);
    GenericFenceOfLines(t, first, lines);
    assert Unfence(t) == obj;
    BraceSpanWhole(obj);
  }
}
