/** The LLM response normaliser `format_llm_response`, written once. Both creator classes
    carry an identical copy; `PortraitCreator.FormatLlmResponse` and
    `SculptureCreator.FormatLlmResponse` transcribe those copies and are proved equal to
    `Normalise` here.

    The chain: strip code fences with two regex substitutions, then try `json.loads` on
    (1) the whole text, (2) the greedy span from the first `{` to the last `}`,
    (3) a textual repair; the first success is returned after the marker-key remap, and
    when all three fail the result is `{"raw": <fence-stripped text>}`. */
module Normaliser {
  import opened Wrappers
  import opened Text
  import opened Json

  // ---------------------------------------------------------------------------
  // Fence stripping

  const JsonFence := "```json"
  const Fence := "```"

  /** `re.sub(r'```json\s*', '', s)`: every "```json" and the whitespace after it is
      removed, scanning left to right without overlap. */
  function StripOpeningFences(s: string): string
    decreases |s|
  {
    if |s| == 0 then []
    else if StartsWith(s, JsonFence) then
      var rest := s[|JsonFence|..];
      StripOpeningFences(rest[SpaceRun(rest)..])
    else [s[0]] + StripOpeningFences(s[1..])
  }

  /** `re.sub(r'\s*```', '', s)`: every "```" and the whitespace run right before it is
      removed. A whitespace run not followed by "```" is kept. */
  function StripClosingFences(s: string): string
    decreases |s|
  {
    if |s| == 0 then []
    else
      var n := SpaceRun(s);
      if StartsWith(s[n..], Fence) then StripClosingFences(s[n + |Fence|..])
      else if n > 0 then s[..n] + StripClosingFences(s[n..])
      else [s[0]] + StripClosingFences(s[1..])
  }

  /** The two substitutions, in source order. */
  function StripFences(s: string): string {
    StripClosingFences(StripOpeningFences(s))
  }

  /** A text with no "```json" is left alone by the first substitution. */
  lemma {:induction false} OpeningFencesAbsent(s: string)
    ensures !Contains(s, JsonFence) ==> StripOpeningFences(s) == s
    decreases |s|
  {
    if |s| > 0 {
      if StartsWith(s, JsonFence) {
        assert ContainsAt(s, JsonFence, 0);
      } else {
        OpeningFencesAbsent(s[1..]);
        ContainsWidens(s, JsonFence, 1, |s|);
        assert s[1..|s|] == s[1..];
        assert s == [s[0]] + s[1..];
      }
    }
  }

  /** A text with no "```" is left alone by the second substitution. */
  lemma ClosingFencesAbsent(s: string)
    ensures !Contains(s, Fence) ==> StripClosingFences(s) == s
  {
    if !Contains(s, Fence) {
      ClosingFenceFree(s);
    }
  }

  lemma {:induction false} ClosingFenceFree(s: string)
    requires !Contains(s, Fence)
    ensures StripClosingFences(s) == s
    decreases |s|
  {
    if |s| > 0 {
      var n := SpaceRun(s);
      NoFenceAt(s, n);
      if n > 0 {
        ClosingRunStep(s);
        NoFenceInTail(s, n);
        ClosingFenceFree(s[n..]);
        SplitAt(s, n);
      } else {
        ClosingCharStep(s);
        NoFenceInTail(s, 1);
        ClosingFenceFree(s[1..]);
        assert s[..1] == [s[0]];
        SplitAt(s, 1);
      }
    }
  }

  /** A fence-free text has no fence at any index. */
  lemma NoFenceAt(s: string, n: nat)
    requires !Contains(s, Fence) && n <= |s|
    ensures !StartsWith(s[n..], Fence)
  {
    if n + |Fence| <= |s| {
      assert s[n..][..|Fence|] == s[n..n + |Fence|];
      assert !ContainsAt(s, Fence, n);
    }
  }

  /** Every "```json" contains a "```". */
  lemma JsonFenceHasFence(s: string)
    ensures Contains(s, JsonFence) ==> Contains(s, Fence)
  {
    if Contains(s, JsonFence) {
      var i :| 0 <= i <= |s| && ContainsAt(s, JsonFence, i);
      assert s[i..i + |Fence|] == s[i..i + |JsonFence|][..|Fence|];
      assert ContainsAt(s, Fence, i);
    }
  }

  /** If the text contains no "```", fence stripping leaves it unchanged. */
  lemma NoFenceUnchanged(s: string)
    ensures !Contains(s, Fence) ==> StripFences(s) == s
  {
    JsonFenceHasFence(s);
    OpeningFencesAbsent(s);
    ClosingFencesAbsent(s);
  }

  /** Whitespace in front of a text adds exactly its length to the leading whitespace run. */
  lemma {:induction false} SpaceRunPrefix(w: string, u: string)
    requires AllSpace(w)
    ensures SpaceRun(w + u) == |w| + SpaceRun(u)
  {
    if |w| > 0 {
      SpaceRunPrefix(w[1..], u);
      assert (w + u)[0] == w[0];
      assert (w + u)[1..] == w[1..] + u;
    } else {
      assert w + u == u;
    }
  }

  /** The fenced body: no "```" inside, and no whitespace or backtick at its edges that the
      fence patterns would swallow. */
  predicate CleanBody(t: string) {
    !Contains(t, Fence)
    && (t == [] || (!IsSpace(t[0]) && !IsSpace(t[|t| - 1]) && t[|t| - 1] != '`'))
  }

  /** A non-backtick among the first three characters rules out both fence patterns. */
  lemma BacktickBlocksFence(x: string, k: nat)
    requires k < 3 && k < |x| && x[k] != '`'
    ensures !StartsWith(x, Fence) && !StartsWith(x, JsonFence)
  {
    assert |x| >= 3 ==> x[..3][k] == x[k];
    assert |x| >= 7 ==> x[..7][k] == x[k];
  }

  /** Where `t + w + "```"` does not start with a fence: at any index inside a
      fence-free `t` that does not end in a backtick. */
  lemma NoFenceInsideBody(t: string, w: string, n: nat)
    requires !Contains(t, Fence) && n < |t| && t[|t| - 1] != '`'
    ensures !StartsWith((t + w + Fence)[n..], Fence)
    ensures !StartsWith((t + w + Fence)[n..], JsonFence)
  {
    var x := (t + w + Fence)[n..];
    if n + 3 <= |t| {
      assert !ContainsAt(t, Fence, n);
      assert t[n..n + 3] != Fence;
      var k: nat := if t[n] != '`' then 0 else if t[n + 1] != '`' then 1 else 2;
      assert t[n + k] != '`';
      assert x[k] == t[n + k];
      BacktickBlocksFence(x, k);
    } else {
      assert x[|t| - 1 - n] == t[|t| - 1];
      BacktickBlocksFence(x, |t| - 1 - n);
    }
  }

  /** One step of the first substitution at a position where no fence starts. */
  lemma OpeningStep(x: string)
    requires |x| > 0 && !StartsWith(x, JsonFence)
    ensures StripOpeningFences(x) == [x[0]] + StripOpeningFences(x[1..])
  {
  }

  /** One step of the second substitution where a whitespace run is not followed by a
      fence: the run is kept. */
  lemma ClosingRunStep(x: string)
    requires SpaceRun(x) > 0 && !StartsWith(x[SpaceRun(x)..], Fence)
    ensures StripClosingFences(x) == x[..SpaceRun(x)] + StripClosingFences(x[SpaceRun(x)..])
  {
  }

  /** One step of the second substitution at a character that is neither whitespace nor
      the start of a fence: the character is kept. */
  lemma ClosingCharStep(x: string)
    requires |x| > 0 && SpaceRun(x) == 0 && !StartsWith(x[0..], Fence)
    ensures StripClosingFences(x) == [x[0]] + StripClosingFences(x[1..])
  {
  }

  /** The first substitution leaves a closing fence and the whitespace before it alone. */
  lemma {:induction false} OpeningKeepsClose(w: string)
    requires AllSpace(w)
    ensures StripOpeningFences(w + Fence) == w + Fence
    decreases |w|
  {
    if |w| > 0 {
      BacktickBlocksFence(w + Fence, 0);
      OpeningStep(w + Fence);
      OpeningKeepsClose(w[1..]);
      SliceConcat(w, Fence, 1);
    } else {
      assert w + Fence == Fence;
      assert StripOpeningFences("") == "";
      assert StripOpeningFences("`") == ['`'] + StripOpeningFences("");
      assert StripOpeningFences("``") == ['`'] + StripOpeningFences("`");
      assert StripOpeningFences("```") == ['`'] + StripOpeningFences("``");
    }
  }

  /** A slice of a fence-free text is fence-free. */
  lemma NoFenceInTail(t: string, k: nat)
    requires !Contains(t, Fence) && k <= |t|
    ensures !Contains(t[k..], Fence)
  {
    ContainsWidens(t, Fence, k, |t|);
    assert t[k..|t|] == t[k..];
  }

  /** The first substitution copies the first character of the body. */
  lemma OpeningBodyStep(t: string, w: string)
    requires !Contains(t, Fence) && |t| > 0 && t[|t| - 1] != '`'
    ensures StripOpeningFences(t + w + Fence) == [t[0]] + StripOpeningFences(t[1..] + w + Fence)
  {
    var x := t + w + Fence;
    NoFenceInsideBody(t, w, 0);
    assert x[0..] == x;
    OpeningStep(x);
    ConcatAssoc(t, w, Fence);
    SliceConcat(t, w + Fence, 1);
    ConcatAssoc(t[1..], w, Fence);
  }

  /** The first substitution finds nothing in `t + w + "```"`. */
  lemma {:induction false} NoJsonFenceBeforeClose(t: string, w: string)
    requires !Contains(t, Fence) && (t == [] || t[|t| - 1] != '`')
    requires AllSpace(w)
    ensures StripOpeningFences(t + w + Fence) == t + w + Fence
    decreases |t|
  {
    if |t| == 0 {
      assert t + w + Fence == w + Fence;
      OpeningKeepsClose(w);
    } else {
      OpeningBodyStep(t, w);
      NoFenceInTail(t, 1);
      NoJsonFenceBeforeClose(t[1..], w);
      ConcatAssoc(t, w, Fence);
      ConcatAssoc(t[1..], w, Fence);
      ConsSplit(t, w + Fence);
    }
  }

  /** The second substitution removes a closing fence together with the whitespace
      before it. */
  lemma ClosingOnlyFence(w: string)
    requires AllSpace(w)
    ensures StripClosingFences(w + Fence) == []
  {
    var x := w + Fence;
    SpaceRunPrefix(w, Fence);
    assert SpaceRun(Fence) == 0;
    assert x[|w|..] == Fence;
    assert x[|w| + 3..] == [];
  }

  /** The second substitution keeps the leading whitespace run of the body, or its first
      character when there is no such run. */
  lemma ClosingBodyStep(t: string, w: string, k: nat)
    requires !Contains(t, Fence) && |t| > 0 && !IsSpace(t[|t| - 1]) && t[|t| - 1] != '`'
    requires (SpaceRun(t) > 0 && k == SpaceRun(t)) || (SpaceRun(t) == 0 && k == 1)
    ensures k <= |t| && StripClosingFences(t + w + Fence) == t[..k] + StripClosingFences(t[k..] + w + Fence)
  {
    var u := w + Fence;
    var x := t + u;
    var n := SpaceRun(t);
    SpaceRunAcross(t, u);
    ConcatAssoc(t, w, Fence);
    NoFenceInsideBody(t, w, n);
    if n > 0 {
      ClosingRunStep(x);
    } else {
      ClosingCharStep(x);
      assert x[..1] == [x[0]];
    }
    SliceConcat(t, u, k);
    ConcatAssoc(t[k..], w, Fence);
  }

  /** The second substitution removes exactly the closing fence and the whitespace
      before it. */
  lemma {:induction false} ClosingFenceRemoved(t: string, w: string)
    requires !Contains(t, Fence) && (t == [] || (!IsSpace(t[|t| - 1]) && t[|t| - 1] != '`'))
    requires AllSpace(w)
    ensures StripClosingFences(t + w + Fence) == t
    decreases |t|, 1
  {
    if |t| == 0 {
      assert t + w + Fence == w + Fence;
      ClosingOnlyFence(w);
    } else if SpaceRun(t) > 0 {
      ClosingFenceRemovedFrom(t, w, SpaceRun(t));
    } else {
      ClosingFenceRemovedFrom(t, w, 1);
    }
  }

  /** The recursive step of `ClosingFenceRemoved`: keep `t[..k]`, then the rest of the body. */
  lemma {:induction false} ClosingFenceRemovedFrom(t: string, w: string, k: nat)
    requires !Contains(t, Fence) && |t| > 0 && !IsSpace(t[|t| - 1]) && t[|t| - 1] != '`'
    requires AllSpace(w)
    requires (SpaceRun(t) > 0 && k == SpaceRun(t)) || (SpaceRun(t) == 0 && k == 1)
    ensures StripClosingFences(t + w + Fence) == t
    decreases |t|, 0
  {
    ClosingBodyStep(t, w, k);
    BodyTail(t, k);
    ClosingFenceRemoved(t[k..], w);
    SplitAt(t, k);
  }

  /** What follows the kept prefix of a body is a body again. */
  lemma BodyTail(t: string, k: nat)
    requires !Contains(t, Fence) && 0 < k <= |t| && !IsSpace(t[|t| - 1]) && t[|t| - 1] != '`'
    ensures !Contains(t[k..], Fence)
    ensures t[k..] == [] || (!IsSpace(t[k..][|t[k..]| - 1]) && t[k..][|t[k..]| - 1] != '`')
  {
    NoFenceInTail(t, k);
    assert t[k..] == [] || t[k..][|t[k..]| - 1] == t[|t| - 1];
  }

  /** A leading whitespace run that ends inside `t` is the same with anything after `t`. */
  lemma {:induction false} SpaceRunAcross(t: string, u: string)
    requires SpaceRun(t) < |t|
    ensures SpaceRun(t + u) == SpaceRun(t)
  {
    if IsSpace(t[0]) {
      SpaceRunAcross(t[1..], u);
      assert (t + u)[1..] == t[1..] + u;
    }
  }

  /** The first substitution removes a leading "```json" and the whitespace after it. */
  lemma OpeningFenceStep(r: string)
    ensures StripOpeningFences(JsonFence + r) == StripOpeningFences(r[SpaceRun(r)..])
  {
    var x := JsonFence + r;
    assert x[..|JsonFence|] == JsonFence;
    assert x[|JsonFence|..] == r;
  }

  /** After "```json" and its whitespace, what the first substitution sees next is the
      body followed by the closing fence (or the closing fence alone for an empty body). */
  lemma AfterOpeningFence(w1: string, t: string, w2: string)
    requires AllSpace(w1) && AllSpace(w2) && CleanBody(t)
    ensures var r := w1 + (t + w2 + Fence);
      r[SpaceRun(r)..] == if t == [] then Fence else t + w2 + Fence
  {
    var body := t + w2 + Fence;
    SpaceRunPrefix(w1, body);
    if |t| > 0 {
      ConcatAssoc(t, w2, Fence);
      SpaceRunAcross(t, w2 + Fence);
      SliceConcat(w1, body, |w1|);
    } else {
      assert body == w2 + Fence;
      SpaceRunPrefix(w2, Fence);
      assert SpaceRun(Fence) == 0;
      ConcatAssoc(w1, w2, Fence);
      SliceConcat(w1 + w2, Fence, |w1| + |w2|);
    }
  }

  /** A body fenced as ```` ```json ```` ... ```` ``` ```` comes out of fence stripping as
      the body itself. */
  lemma FencedBlockUnwrapped(w1: string, t: string, w2: string)
    requires AllSpace(w1) && AllSpace(w2) && CleanBody(t)
    ensures StripFences(JsonFence + w1 + t + w2 + Fence) == t
  {
    var body := t + w2 + Fence;
    var r := w1 + body;
    ConcatAssoc(JsonFence + w1 + t, w2, Fence);
    ConcatAssoc(JsonFence + w1, t, w2 + Fence);
    ConcatAssoc(JsonFence, w1, t + (w2 + Fence));
    ConcatAssoc(t, w2, Fence);
    OpeningFenceStep(r);
    AfterOpeningFence(w1, t, w2);
    if |t| > 0 {
      NoJsonFenceBeforeClose(t, w2);
      ClosingFenceRemoved(t, w2);
    } else {
      OpeningKeepsClose([]);
      ClosingOnlyFence([]);
      assert [] + Fence == Fence;
    }
  }

  // ---------------------------------------------------------------------------
  // The greedy brace span

  /** `re.search(r'\{.*\}', s, re.DOTALL)`: the span from the first `{` to the last `}`,
      when some `}` comes after the first `{`. */
  function GreedyBraceSpan(s: string): Option<string> {
    var i := Find(s, '{');
    var j := RFind(s, '}');
    if i >= 0 && j > i then Some(s[i..j + 1]) else None
  }

  /** The greedy regex finds a match exactly when some `{` precedes some `}`, and the match
      starts with `{`, ends with `}`, and is a piece of the text with no `{` before it and no
      `}` after it: the first `{` to the last `}`. */
  lemma GreedyBraceSpanMatches(s: string)
    ensures GreedyBraceSpan(s).Some? <==> exists i, j :: 0 <= i < j < |s| && s[i] == '{' && s[j] == '}'
    ensures GreedyBraceSpan(s).Some? ==>
      var r := GreedyBraceSpan(s).value;
      && |r| >= 2 && r[0] == '{' && r[|r| - 1] == '}'
      && exists a :: 0 <= a <= |s| && ContainsAt(s, r, a) && '{' !in s[..a] && '}' !in s[a + |r|..]
  {
  }

  // ---------------------------------------------------------------------------
  // The textual repair

  /** Length of the maximal run of `\w` characters at the start of `s`. */
  function WordRun(s: string): (n: nat)
    ensures n <= |s|
    ensures forall k :: 0 <= k < n ==> IsWordChar(s[k])
    ensures n < |s| ==> !IsWordChar(s[n])
  {
    if |s| == 0 || !IsWordChar(s[0]) then 0 else 1 + WordRun(s[1..])
  }

  /** `re.sub(r'(\w+):', r'"\1":', s)`: a maximal run of word characters followed by
      a colon is put in double quotes. */
  function QuoteKeys(s: string): string
    decreases |s|
  {
    if |s| == 0 then []
    else
      var n := WordRun(s);
      if 0 < n < |s| && s[n] == ':' then "\"" + s[..n] + "\":" + QuoteKeys(s[n + 1..])
      else if n > 0 then s[..n] + QuoteKeys(s[n..])
      else [s[0]] + QuoteKeys(s[1..])
  }

  /** The repaired candidate: keys quoted, `'` turned into `"`, and the whole wrapped in
      one pair of braces, as the f-string `f'{{{cleaned_response}}}'` does. */
  function Repair(s: string): (r: string)
    ensures |r| >= 2 && r[0] == '{' && r[|r| - 1] == '}'
    ensures '\'' !in r
  {
    "{" + ReplaceChar(QuoteKeys(s), '\'', '"') + "}"
  }

  /** A text without a colon has no key to quote. */
  lemma {:induction false} QuoteKeysNoColon(s: string)
    ensures ':' !in s ==> QuoteKeys(s) == s
    decreases |s|
  {
    if |s| > 0 && ':' !in s {
      var n := WordRun(s);
      if n > 0 {
        assert !(n < |s| && s[n] == ':') by { assert n < |s| ==> s[n] in s; }
        assert forall c :: c in s[n..] ==> c in s;
        QuoteKeysNoColon(s[n..]);
        QuoteKeysRunStep(s);
        SplitAt(s, n);
      } else {
        assert forall c :: c in s[1..] ==> c in s;
        QuoteKeysNoColon(s[1..]);
        QuoteKeysCharStep(s);
        SplitAt(s, 1);
        assert s[..1] == [s[0]];
      }
    }
  }

  /** `s` with every `"` removed. */
  function DropQuotes(s: string): (r: string)
    ensures '"' !in r
  {
    if |s| == 0 then [] else (if s[0] == '"' then [] else [s[0]]) + DropQuotes(s[1..])
  }

  lemma {:induction false} DropQuotesConcat(a: string, b: string)
    ensures DropQuotes(a + b) == DropQuotes(a) + DropQuotes(b)
  {
    if |a| > 0 {
      DropQuotesConcat(a[1..], b);
      assert (a + b)[0] == a[0];
      assert (a + b)[1..] == a[1..] + b;
    } else {
      assert a + b == b;
    }
  }

  /** A text without `"` is its own `DropQuotes`. */
  lemma {:induction false} DropQuotesNone(s: string)
    ensures '"' !in s ==> DropQuotes(s) == s
  {
    if |s| > 0 {
      DropQuotesNone(s[1..]);
      assert s == [s[0]] + s[1..];
    }
  }

  /** The quote marks the key repair writes around a key vanish under `DropQuotes`. */
  lemma DropQuotesMarks()
    ensures DropQuotes("\"") == [] && DropQuotes("\":") == ":" && DropQuotes(":") == ":"
  {
    assert "\""[1..] == [];
    assert "\":"[1..] == ":";
    assert ":"[1..] == [];
  }

  /** Dropping quotes from an opening mark, a key, a closing mark and a processed rest. */
  lemma QuotedKeyDrop(open: string, key: string, close: string, quoted: string, colon: string, tail: string)
    requires DropQuotes(open) == [] && DropQuotes(close) == colon && DropQuotes(colon) == colon
    requires DropQuotes(key) == key && DropQuotes(quoted) == DropQuotes(tail)
    ensures DropQuotes(open + key + close + quoted) == DropQuotes(key + colon + tail)
  {
    DropQuotesConcat(open + key + close, quoted);
    DropQuotesConcat(open + key, close);
    DropQuotesConcat(open, key);
    DropQuotesConcat(key + colon, tail);
    DropQuotesConcat(key, colon);
    assert [] + key == key;
  }

  /** Dropping quotes from a kept prefix and a processed rest. */
  lemma KeptPrefixDrop(a: string, rest: string, processed: string)
    requires DropQuotes(processed) == DropQuotes(rest)
    ensures DropQuotes(a + processed) == DropQuotes(a + rest)
  {
    DropQuotesConcat(a, processed);
    DropQuotesConcat(a, rest);
  }

  /** One step of the key repair at a key: the word run is quoted, the colon kept. */
  lemma QuoteKeysKeyStep(s: string)
    requires 0 < WordRun(s) < |s| && s[WordRun(s)] == ':'
    ensures QuoteKeys(s) == "\"" + s[..WordRun(s)] + "\":" + QuoteKeys(s[WordRun(s) + 1..])
  {
  }

  /** A text with a colon at `n` is the part before it, the colon and the part after. */
  lemma ColonSplit(s: string, n: nat)
    requires n < |s| && s[n] == ':'
    ensures s == s[..n] + ":" + s[n + 1..]
  {
    assert s[n..] == [s[n]] + s[n + 1..];
    SplitAt(s, n);
  }

  /** The word run of a word followed by a non-word character is that word. */
  lemma {:induction false} WordRunOfWord(key: string, rest: string)
    requires forall k :: 0 <= k < |key| ==> IsWordChar(key[k])
    requires |rest| > 0 && !IsWordChar(rest[0])
    ensures WordRun(key + rest) == |key|
  {
    if |key| > 0 {
      WordRunOfWord(key[1..], rest);
      ConsSplit(key, rest);
    } else {
      assert key + rest == rest;
    }
  }

  /** A single unquoted key before a colon, with no other colon after it, is quoted and
      nothing else changes: `concept: 'abc'` becomes `"concept": 'abc'`. */
  lemma SingleKeyQuoted(key: string, rest: string)
    requires |key| > 0 && forall k :: 0 <= k < |key| ==> IsWordChar(key[k])
    requires ':' !in rest
    ensures QuoteKeys(key + ":" + rest) == "\"" + key + "\":" + rest
  {
    var s := key + ":" + rest;
    ConcatAssoc(key, ":", rest);
    WordRunOfWord(key, ":" + rest);
    QuoteKeysKeyStep(s);
    SliceConcat(key, ":" + rest, |key|);
    assert s[..|key|] == key;
    assert s[|key| + 1..] == rest;
    QuoteKeysNoColon(rest);
  }

  /** A word run that starts in `a` ends in `a` when `a` ends with a non-word character. */
  lemma {:induction false} WordRunBefore(a: string, b: string)
    requires |a| > 0 && !IsWordChar(a[|a| - 1])
    ensures WordRun(a + b) == WordRun(a)
    decreases |a|
  {
    if IsWordChar(a[0]) {
      WordRunBefore(a[1..], b);
      ConsSplit(a, b);
    } else {
      assert (a + b)[0] == a[0];
    }
  }

  /** One step of the key repair at a word run that is not a key: the run is kept. */
  lemma QuoteKeysRunStep(s: string)
    requires 0 < WordRun(s) && !(WordRun(s) < |s| && s[WordRun(s)] == ':')
    ensures QuoteKeys(s) == s[..WordRun(s)] + QuoteKeys(s[WordRun(s)..])
  {
  }

  /** One step of the key repair at a non-word character: it is kept. */
  lemma QuoteKeysCharStep(s: string)
    requires |s| > 0 && WordRun(s) == 0
    ensures QuoteKeys(s) == [s[0]] + QuoteKeys(s[1..])
  {
  }

  /** How much of a non-empty text one step of the key repair consumes: a key and its
      colon, a word run, or one character. */
  function StepLength(a: string): (m: nat)
    requires |a| > 0
    ensures 0 < m <= |a|
  {
    var n := WordRun(a);
    if 0 < n < |a| && a[n] == ':' then n + 1 else if n > 0 then n else 1
  }

  /** The substitution works piece by piece: a text cut after a non-word character is
      quoted as its two pieces are, since no `\w+:` token spans the cut. */
  lemma {:induction false} QuoteKeysConcat(a: string, b: string)
    requires a == [] || !IsWordChar(a[|a| - 1])
    ensures QuoteKeys(a + b) == QuoteKeys(a) + QuoteKeys(b)
    decreases |a|
  {
    if |a| > 0 {
      var m := StepLength(a);
      TailEndsAlike(a, m);
      QuoteKeysConcat(a[m..], b);
      ConcatStep(a, b);
    } else {
      ConcatEmpty(a, b);
    }
  }

  /** `QuoteKeysConcat` for an empty first piece. */
  lemma ConcatEmpty(a: string, b: string)
    requires a == []
    ensures QuoteKeys(a + b) == QuoteKeys(a) + QuoteKeys(b)
  {
    var q := QuoteKeys(b);
    assert a + b == b;
    assert QuoteKeys(a) == [];
    assert [] + q == q;
  }

  /** One step of `QuoteKeysConcat`: the first step on `a + b` is the first step on `a`. */
  lemma ConcatStep(a: string, b: string)
    requires |a| > 0 && !IsWordChar(a[|a| - 1])
    requires QuoteKeys(a[StepLength(a)..] + b) == QuoteKeys(a[StepLength(a)..]) + QuoteKeys(b)
    ensures QuoteKeys(a + b) == QuoteKeys(a) + QuoteKeys(b)
  {
    var n := WordRun(a);
    WordRunBefore(a, b);
    assert n < |a|;
    if 0 < n && a[n] == ':' {
      ConcatKeyCase(a, b);
    } else if n > 0 {
      ConcatRunCase(a, b);
    } else {
      ConcatCharCase(a, b);
    }
  }

  /** A suffix of a text that ends with a non-word character ends with it too. */
  lemma TailEndsAlike(a: string, m: nat)
    requires m <= |a| && |a| > 0 && !IsWordChar(a[|a| - 1])
    ensures a[m..] == [] || !IsWordChar(a[m..][|a[m..]| - 1])
  {
  }

  /** `QuoteKeysConcat` when `a` starts with a key. */
  lemma ConcatKeyCase(a: string, b: string)
    requires WordRun(a + b) == WordRun(a) && 0 < WordRun(a) < |a| && a[WordRun(a)] == ':'
    requires QuoteKeys(a[WordRun(a) + 1..] + b) == QuoteKeys(a[WordRun(a) + 1..]) + QuoteKeys(b)
    ensures QuoteKeys(a + b) == QuoteKeys(a) + QuoteKeys(b)
  {
    var n := WordRun(a);
    SliceConcat(a, b, n + 1);
    assert (a + b)[n] == a[n] && (a + b)[..n] == a[..n];
    QuoteKeysKeyStep(a);
    QuoteKeysKeyStep(a + b);
    ConcatAssoc("\"" + a[..n] + "\":", QuoteKeys(a[n + 1..]), QuoteKeys(b));
  }

  /** `QuoteKeysConcat` when `a` starts with a word run that is not a key. */
  lemma ConcatRunCase(a: string, b: string)
    requires WordRun(a + b) == WordRun(a) && 0 < WordRun(a) < |a| && a[WordRun(a)] != ':'
    requires QuoteKeys(a[WordRun(a)..] + b) == QuoteKeys(a[WordRun(a)..]) + QuoteKeys(b)
    ensures QuoteKeys(a + b) == QuoteKeys(a) + QuoteKeys(b)
  {
    var n := WordRun(a);
    SliceConcat(a, b, n);
    assert (a + b)[n] == a[n];
    QuoteKeysRunStep(a);
    QuoteKeysRunStep(a + b);
    ConcatAssoc(a[..n], QuoteKeys(a[n..]), QuoteKeys(b));
  }

  /** `QuoteKeysConcat` when `a` starts with a non-word character. */
  lemma ConcatCharCase(a: string, b: string)
    requires |a| > 0 && WordRun(a + b) == 0 && WordRun(a) == 0
    requires QuoteKeys(a[1..] + b) == QuoteKeys(a[1..]) + QuoteKeys(b)
    ensures QuoteKeys(a + b) == QuoteKeys(a) + QuoteKeys(b)
  {
    SliceConcat(a, b, 1);
    assert (a + b)[0] == a[0];
    QuoteKeysCharStep(a);
    QuoteKeysCharStep(a + b);
    ConcatAssoc([a[0]], QuoteKeys(a[1..]), QuoteKeys(b));
  }

  /** Pseudo-JSON members `key:value` written one after another, as an LLM writes them
      without quotes around the keys. */
  function PseudoMembers(ps: seq<(string, string)>): string {
    if |ps| == 0 then [] else ps[0].0 + ":" + ps[0].1 + PseudoMembers(ps[1..])
  }

  /** The same members with every key in double quotes. */
  function QuotedMembers(ps: seq<(string, string)>): string {
    if |ps| == 0 then [] else "\"" + ps[0].0 + "\":" + ps[0].1 + QuotedMembers(ps[1..])
  }

  /** Every key is a non-empty run of word characters, no value holds a colon, and every
      value but the last ends with a non-word character (`'abc', ` ends with a space). */
  predicate PlainMembers(ps: seq<(string, string)>) {
    forall i :: 0 <= i < |ps| ==>
      && |ps[i].0| > 0 && (forall k :: 0 <= k < |ps[i].0| ==> IsWordChar(ps[i].0[k]))
      && ':' !in ps[i].1
      && (i + 1 < |ps| ==> |ps[i].1| > 0 && !IsWordChar(ps[i].1[|ps[i].1| - 1]))
  }

  /** One member in front of text whose keys are already quoted. */
  lemma MemberQuoted(key: string, value: string, rest: string, quoted: string)
    requires |key| > 0 && forall k :: 0 <= k < |key| ==> IsWordChar(key[k])
    requires ':' !in value
    requires QuoteKeys(rest) == quoted
    requires (rest == [] && quoted == []) || (|value| > 0 && !IsWordChar(value[|value| - 1]))
    ensures QuoteKeys(key + ":" + value + rest) == "\"" + key + "\":" + value + quoted
  {
    var head := key + ":" + value;
    SingleKeyQuoted(key, value);
    if rest == [] {
      assert head + rest == head;
      assert "\"" + key + "\":" + value + quoted == "\"" + key + "\":" + value;
    } else {
      assert head[|head| - 1] == value[|value| - 1];
      QuoteKeysConcat(head, rest);
    }
  }

  /** Every `\w+:` key is quoted, however many members there are:
      `concept: 'abc', subject: 'def'` becomes `"concept": 'abc', "subject": 'def'`. */
  lemma {:induction false} EveryKeyQuoted(ps: seq<(string, string)>)
    requires PlainMembers(ps)
    ensures QuoteKeys(PseudoMembers(ps)) == QuotedMembers(ps)
    decreases |ps|
  {
    if |ps| > 0 {
      assert PlainMembers(ps[1..]) by {
        forall i | 0 <= i < |ps[1..]| ensures ps[1..][i] == ps[i + 1] {}
      }
      EveryKeyQuoted(ps[1..]);
      assert |ps| == 1 ==> ps[1..] == [];
      MemberQuoted(ps[0].0, ps[0].1, PseudoMembers(ps[1..]), QuotedMembers(ps[1..]));
    }
  }

  /** Replacing a character that does not occur in `head` leaves `head` as it is. */
  lemma ReplaceAfterPlain(head: string, rest: string, a: char, b: char)
    requires a !in head
    ensures ReplaceChar(head + rest, a, b) == head + ReplaceChar(rest, a, b)
  {
    var x := ReplaceChar(head + rest, a, b);
    var y := head + ReplaceChar(rest, a, b);
    forall k | 0 <= k < |x| ensures x[k] == y[k] {
      if k < |head| {
        assert (head + rest)[k] == head[k];
      } else {
        assert (head + rest)[k] == rest[k - |head|];
      }
    }
  }

  /** A brace-less text with one unquoted key is repaired into a one-member object text:
      the key is quoted, the `'` of the value become `"`, and one pair of braces is added
      (`concept: 'abc'` becomes `{"concept": "abc"}`). */
  lemma BracelessKeyRepaired(key: string, rest: string)
    requires |key| > 0 && forall k :: 0 <= k < |key| ==> IsWordChar(key[k])
    requires ':' !in rest
    ensures Repair(key + ":" + rest) == "{" + ("\"" + key + "\":" + ReplaceChar(rest, '\'', '"')) + "}"
  {
    SingleKeyQuoted(key, rest);
    assert forall k :: 0 <= k < |key| ==> key[k] != '\'';
    var head := "\"" + key + "\":";
    assert '\'' !in head;
    ReplaceAfterPlain(head, rest, '\'', '"');
  }

  /** Quoting keys only inserts double quotes: with them removed, the text is unchanged. */
  lemma {:induction false} QuoteKeysOnlyAddsQuotes(s: string)
    ensures DropQuotes(QuoteKeys(s)) == DropQuotes(s)
    decreases |s|
  {
    if |s| > 0 {
      var n, m := WordRun(s), StepLength(s);
      QuoteKeysOnlyAddsQuotes(s[m..]);
      if 0 < n < |s| && s[n] == ':' {
        DropKeyCase(s);
      } else if n > 0 {
        DropRunCase(s);
      } else {
        DropCharCase(s);
      }
    }
  }

  /** `QuoteKeysOnlyAddsQuotes` when `s` starts with a `\w+:` key. */
  lemma DropKeyCase(s: string)
    requires 0 < WordRun(s) < |s| && s[WordRun(s)] == ':'
    requires DropQuotes(QuoteKeys(s[WordRun(s) + 1..])) == DropQuotes(s[WordRun(s) + 1..])
    ensures DropQuotes(QuoteKeys(s)) == DropQuotes(s)
  {
    var n := WordRun(s);
    var key, tail := s[..n], s[n + 1..];
    QuoteKeysKeyStep(s);
    ColonSplit(s, n);
    assert '"' !in key;
    DropQuotesNone(key);
    DropQuotesMarks();
    QuotedKeyDrop("\"", key, "\":", QuoteKeys(tail), ":", tail);
  }

  /** `QuoteKeysOnlyAddsQuotes` when `s` starts with a word run that is not a key. */
  lemma DropRunCase(s: string)
    requires 0 < WordRun(s) && !(WordRun(s) < |s| && s[WordRun(s)] == ':')
    requires DropQuotes(QuoteKeys(s[WordRun(s)..])) == DropQuotes(s[WordRun(s)..])
    ensures DropQuotes(QuoteKeys(s)) == DropQuotes(s)
  {
    var n := WordRun(s);
    QuoteKeysRunStep(s);
    SplitAt(s, n);
    KeptPrefixDrop(s[..n], s[n..], QuoteKeys(s[n..]));
  }

  /** `QuoteKeysOnlyAddsQuotes` when `s` starts with a non-word character. */
  lemma DropCharCase(s: string)
    requires |s| > 0 && WordRun(s) == 0
    requires DropQuotes(QuoteKeys(s[1..])) == DropQuotes(s[1..])
    ensures DropQuotes(QuoteKeys(s)) == DropQuotes(s)
  {
    QuoteKeysCharStep(s);
    KeptPrefixDrop([s[0]], s[1..], QuoteKeys(s[1..]));
    assert s == [s[0]] + s[1..];
  }

  /** Quoting keys keeps a leading `{` (after JSON whitespace) in front. */
  lemma {:induction false} QuoteKeysKeepsLeadingBrace(s: string)
    ensures LeadingChar(s) == Some('{') ==> LeadingChar(QuoteKeys(s)) == Some('{')
    decreases |s|
  {
    if |s| > 0 && !IsWordChar(s[0]) {
      assert WordRun(s) == 0;
      assert QuoteKeys(s) == [s[0]] + QuoteKeys(s[1..]);
      QuoteKeysKeepsLeadingBrace(s[1..]);
      assert ([s[0]] + QuoteKeys(s[1..]))[1..] == QuoteKeys(s[1..]);
    }
  }

  /** Replacing `'` by `"` keeps a leading `{` in front. */
  lemma {:induction false} ReplaceKeepsLeadingBrace(s: string)
    ensures LeadingChar(s) == Some('{') ==> LeadingChar(ReplaceChar(s, '\'', '"')) == Some('{')
    decreases |s|
  {
    if |s| > 0 {
      ReplaceKeepsLeadingBrace(s[1..]);
    }
  }

  /** The repair wraps the text in a second pair of braces, so a text that already opens
      with `{` becomes `{{...` and can never parse. */
  lemma BracedTextRepairFails(loads: Loads, s: string)
    requires LoadsContract(loads)
    ensures LeadingChar(s) == Some('{') ==> loads(Repair(s)).None?
  {
    QuoteKeysKeepsLeadingBrace(s);
    ReplaceKeepsLeadingBrace(QuoteKeys(s));
    var r := Repair(s);
    var inner := ReplaceChar(QuoteKeys(s), '\'', '"');
    assert r[1..] == inner + "}";
    assert AfterLeading(r) == inner + "}";
    LeadingCharAppend(inner, "}");
    assert LeadingChar(s) == Some('{') ==> OpensObjectWithoutName(r);
  }

  /** Appending text does not change a leading character that is already there. */
  lemma {:induction false} LeadingCharAppend(a: string, b: string)
    ensures LeadingChar(a).Some? ==> LeadingChar(a + b) == LeadingChar(a)
  {
    if |a| > 0 && IsJsonSpace(a[0]) {
      LeadingCharAppend(a[1..], b);
      assert (a + b)[1..] == a[1..] + b;
    }
  }

  // ---------------------------------------------------------------------------
  // Marker-key remap and the fallback chain

  /** A dict that carries `en_prompt` or `zh_prompt`. */
  predicate HasMarker(v: Json) {
    v.JObject? && (HasKey(v.members, "en_prompt") || HasKey(v.members, "zh_prompt"))
  }

  /** The remap applied after every successful parse: a marker dict becomes
      `{'en': d.get('en_prompt', ''), 'zh': d.get('zh_prompt', '')}`; anything else,
      including a non-dict, is returned as parsed. */
  function Remap(v: Json): Json {
    if HasMarker(v) then
      JObject([("en", Get(v.members, "en_prompt", JString(""))),
               ("zh", Get(v.members, "zh_prompt", JString("")))])
    else v
  }

  /** What the remap keeps: exactly the keys `en` and `zh`, each holding the marker's value
      or `''` when that marker is missing; every other key is dropped. */
  lemma RemapShape(v: Json)
    ensures HasMarker(v) ==>
      && Remap(v).JObject?
      && Keys(Remap(v).members) == ["en", "zh"]
      && (HasKey(v.members, "en_prompt") ==> ("en_prompt", Remap(v).members[0].1) in v.members)
      && (HasKey(v.members, "zh_prompt") ==> ("zh_prompt", Remap(v).members[1].1) in v.members)
      && (!HasKey(v.members, "en_prompt") ==> Remap(v).members[0].1 == JString(""))
      && (!HasKey(v.members, "zh_prompt") ==> Remap(v).members[1].1 == JString(""))
    ensures !HasMarker(v) ==> Remap(v) == v
  {
    if HasMarker(v) {
      var r := Remap(v);
      assert Keys(r.members) == [r.members[0].0] + Keys(r.members[1..]);
    }
  }

  /** The three parse attempts, in the order the source tries them. */
  datatype Attempt = WholeText | BraceSpan | KeyRepair

  const Chain: seq<Attempt> := [WholeText, BraceSpan, KeyRepair]

  /** The text an attempt hands to `json.loads`, if it gets that far. */
  function Candidate(a: Attempt, s: string): Option<string> {
    match a
    case WholeText => Some(s)
    case BraceSpan => GreedyBraceSpan(s)
    case KeyRepair => Some(Repair(s))
  }

  /** The first attempt whose candidate parses, remapped; None when none does. */
  function FirstParse(loads: Loads, attempts: seq<Attempt>, s: string): Option<Json> {
    if |attempts| == 0 then None
    else
      var c := Candidate(attempts[0], s);
      if c.Some? && loads(c.value).Some? then Some(Remap(loads(c.value).value))
      else FirstParse(loads, attempts[1..], s)
  }

  /** Attempt `a` hands a text to `json.loads` and the text parses. */
  predicate Parses(loads: Loads, a: Attempt, s: string) {
    Candidate(a, s).Some? && loads(Candidate(a, s).value).Some?
  }

  /** The result when every attempt fails. */
  function RawRecord(s: string): Json {
    JObject([("raw", JString(s))])
  }

  /** `format_llm_response`: the chain's first success, or the raw record; a
      `JSONDecodeError` of an attempt never escapes it. */
  function Normalise(loads: Loads, response: string): (r: Json)
    ensures var t := StripFences(response);
      (forall k :: 0 <= k < |Chain| ==> !Parses(loads, Chain[k], t)) ==> r == RawRecord(t)
    ensures var t := StripFences(response);
      (exists k :: 0 <= k < |Chain| && Parses(loads, Chain[k], t)) ==>
        exists k :: 0 <= k < |Chain| && Parses(loads, Chain[k], t)
          && (forall j :: 0 <= j < k ==> !Parses(loads, Chain[j], t))
          && r == Remap(loads(Candidate(Chain[k], t).value).value)
  {
    var s := StripFences(response);
    FirstParseFrom(loads, Chain, s);
    match FirstParse(loads, Chain, s)
    case Some(v) => v
    case None => RawRecord(s)
  }

  // ---------------------------------------------------------------------------
  // Properties of the chain

  /** The chain spelled out as the source's three guarded attempts. */
  lemma ChainSteps(loads: Loads, s: string)
    ensures FirstParse(loads, Chain, s) ==
      if loads(s).Some? then Some(Remap(loads(s).value))
      else if GreedyBraceSpan(s).Some? && loads(GreedyBraceSpan(s).value).Some? then
        Some(Remap(loads(GreedyBraceSpan(s).value).value))
      else if loads(Repair(s)).Some? then Some(Remap(loads(Repair(s)).value))
      else None
  {
    assert Chain[1..] == [BraceSpan, KeyRepair];
    assert [BraceSpan, KeyRepair][1..] == [KeyRepair];
    assert [KeyRepair][1..] == [];
    assert FirstParse(loads, [KeyRepair], s) ==
      if loads(Repair(s)).Some? then Some(Remap(loads(Repair(s)).value)) else None;
  }

  /** When the fence-stripped text parses, its remapped value is the result: a marker dict
      becomes `{en, zh}`, anything else (a number, a list, a dict without markers) is
      returned unchanged. */
  lemma WholeTextParsed(loads: Loads, response: string, v: Json)
    requires loads(StripFences(response)) == Some(v)
    ensures Normalise(loads, response) == Remap(v)
    ensures !HasMarker(v) ==> Normalise(loads, response) == v
    ensures HasMarker(v) ==> Keys(Normalise(loads, response).members) == ["en", "zh"]
  {
    ChainSteps(loads, StripFences(response));
    RemapShape(v);
  }

  /** The brace span is tried only when the whole text does not parse, and then exactly the
      span from the first `{` to the last `}` is parsed. */
  lemma BraceSpanParsed(loads: Loads, response: string, span: string, v: Json)
    requires loads(StripFences(response)).None?
    requires GreedyBraceSpan(StripFences(response)) == Some(span)
    requires loads(span) == Some(v)
    ensures Normalise(loads, response) == Remap(v)
  {
    ChainSteps(loads, StripFences(response));
  }

  /** Whatever `json.loads` says about other texts, once the whole text parses nothing
      else is consulted. */
  lemma WholeTextFirst(loads1: Loads, loads2: Loads, response: string)
    requires loads1(StripFences(response)).Some?
    requires loads1(StripFences(response)) == loads2(StripFences(response))
    ensures Normalise(loads1, response) == Normalise(loads2, response)
  {
    ChainSteps(loads1, StripFences(response));
    ChainSteps(loads2, StripFences(response));
  }

  /** The repair is tried only when both earlier attempts fail. */
  lemma RepairParsed(loads: Loads, response: string, v: Json)
    requires loads(StripFences(response)).None?
    requires GreedyBraceSpan(StripFences(response)).None?
      || loads(GreedyBraceSpan(StripFences(response)).value).None?
    requires loads(Repair(StripFences(response))) == Some(v)
    ensures Normalise(loads, response) == Remap(v)
  {
    ChainSteps(loads, StripFences(response));
  }

  /** When every attempt fails the result is `{"raw": s}` with `s` the fence-stripped text,
      which is the response itself when it has no fence. */
  lemma AllAttemptsFail(loads: Loads, response: string)
    requires loads(StripFences(response)).None?
    requires GreedyBraceSpan(StripFences(response)).None?
      || loads(GreedyBraceSpan(StripFences(response)).value).None?
    requires loads(Repair(StripFences(response))).None?
    ensures Normalise(loads, response) == RawRecord(StripFences(response))
    ensures !Contains(response, Fence) ==> Normalise(loads, response) == RawRecord(response)
  {
    ChainSteps(loads, StripFences(response));
    NoFenceUnchanged(response);
  }

  /** The result is the remapped value of the first attempt that parses, and there is a
      result exactly when some attempt parses: it is never anything the chain did not
      produce. */
  lemma {:induction false} FirstParseFrom(loads: Loads, attempts: seq<Attempt>, s: string)
    ensures FirstParse(loads, attempts, s).Some? <==>
      exists k :: 0 <= k < |attempts| && Parses(loads, attempts[k], s)
    ensures FirstParse(loads, attempts, s).Some? ==>
      exists k :: 0 <= k < |attempts| && Parses(loads, attempts[k], s)
        && (forall j :: 0 <= j < k ==> !Parses(loads, attempts[j], s))
        && FirstParse(loads, attempts, s) == Some(Remap(loads(Candidate(attempts[k], s).value).value))
  {
    if |attempts| > 0 {
      var tail := attempts[1..];
      FirstParseFrom(loads, tail, s);
      if !Parses(loads, attempts[0], s) {
        forall k | 0 < k < |attempts| ensures tail[k - 1] == attempts[k] {}
        forall k | 0 <= k < |tail| ensures tail[k] == attempts[k + 1] {}
        if FirstParse(loads, tail, s).Some? {
          var k :| 0 <= k < |tail| && Parses(loads, tail[k], s)
            && (forall j :: 0 <= j < k ==> !Parses(loads, tail[j], s))
            && FirstParse(loads, tail, s) == Some(Remap(loads(Candidate(tail[k], s).value).value));
          assert forall j :: 0 <= j < k + 1 ==> !Parses(loads, attempts[j], s);
        }
      }
    }
  }

  /** A response fenced as ```` ```json ```` ... ```` ``` ```` is normalised exactly as its
      body alone. */
  lemma FencedSameAsBody(loads: Loads, w1: string, t: string, w2: string)
    requires AllSpace(w1) && AllSpace(w2) && CleanBody(t)
    ensures Normalise(loads, JsonFence + w1 + t + w2 + Fence) == Normalise(loads, t)
  {
    FencedBlockUnwrapped(w1, t, w2);
    NoFenceUnchanged(t);
  }

  /** Under the rules of JSON, a text that already has outer braces cannot succeed at the
      repair step. */
  lemma BracedTextNotRepaired(loads: Loads, response: string)
    requires LoadsContract(loads)
    requires LeadingChar(StripFences(response)) == Some('{')
    ensures loads(Repair(StripFences(response))).None?
  {
    BracedTextRepairFails(loads, StripFences(response));
  }

  /** A text without a backtick has no fence in it. */
  lemma NoBacktickNoFence(s: string)
    ensures '`' !in s ==> !Contains(s, Fence)
  {
    if Contains(s, Fence) {
      var i :| 0 <= i <= |s| && ContainsAt(s, Fence, i);
      assert s[i] == s[i..i + 3][0];
    }
  }

  /** A span `s[i..j+1]` from a `{` to a later `}` opens with that `{`, and the first
      character after the brace is the same as in `s` from the `{` on. */
  lemma OpensAlikeAt(s: string, i: nat, j: nat)
    requires i < j < |s| && s[i] == '{' && s[j] == '}'
    ensures LeadingChar(s[i..j + 1]) == Some('{')
    ensures LeadingChar(AfterLeading(s[i..j + 1])) == LeadingChar(s[i + 1..])
  {
    var span := s[i..j + 1];
    assert span[0] == '{';
    assert AfterLeading(span) == s[i + 1..j + 1];
    var inner := s[i + 1..j + 1];
    assert inner[|inner| - 1] == '}';
    assert !IsJsonSpace(inner[|inner| - 1]);
    LeadingCharAppend(inner, s[j + 1..]);
    assert s[i + 1..] == inner + s[j + 1..];
  }

  /** The greedy span of a text led by `{` starts at that `{`, so it opens an object in
      the same way: with the same first character after the brace. */
  lemma BraceSpanOpensAlike(s: string)
    requires OpensObjectWithoutName(s) && GreedyBraceSpan(s).Some?
    ensures OpensObjectWithoutName(GreedyBraceSpan(s).value)
  {
    var i, j := LeadingBraceSpan(s);
    OpensAlikeAt(s, i, j);
    OpensLike(s, GreedyBraceSpan(s).value, s[i + 1..]);
  }

  /** The greedy span of a text led by `{` runs from that leading `{` to the last `}`. */
  lemma LeadingBraceSpan(s: string) returns (i: nat, j: nat)
    requires LeadingChar(s) == Some('{') && GreedyBraceSpan(s).Some?
    ensures i < j < |s| && s[i] == '{' && s[j] == '}'
    ensures GreedyBraceSpan(s).value == s[i..j + 1] && AfterLeading(s) == s[i + 1..]
  {
    i, j := LeadingIndex(s), RFind(s, '}');
    LeadingFind(s);
  }

  /** A text led by `{` opens an object without a name exactly when one that is also led by
      `{`, with the same first character after the brace, does. */
  lemma OpensLike(s: string, t: string, rest: string)
    requires OpensObjectWithoutName(s) && AfterLeading(s) == rest
    requires LeadingChar(t) == Some('{') && LeadingChar(AfterLeading(t)) == LeadingChar(rest)
    ensures OpensObjectWithoutName(t)
  {
  }

  /** `s.find(c)` for the leading character `c` is its leading position. */
  lemma LeadingFind(s: string)
    requires LeadingChar(s).Some?
    ensures Find(s, LeadingChar(s).value) == LeadingIndex(s)
  {
    var c := LeadingChar(s).value;
    FindFirst(s, c, LeadingIndex(s));
    assert !IsJsonSpace(s[Find(s, c)]);
  }


  /** Under the rules of JSON, a text that opens an object without a quoted member name
      (`{concept: 'abc'}`, say) fails all three attempts: the whole text and its brace span
      open the same way, and the repair wraps it in a second pair of braces. Without a
      fence it comes back as the raw record of itself. */
  lemma UnquotedObjectFallsToRaw(loads: Loads, s: string)
    requires LoadsContract(loads)
    requires OpensObjectWithoutName(s) && !Contains(s, Fence)
    ensures Normalise(loads, s) == RawRecord(s)
  {
    NoFenceUnchanged(s);
    assert loads(s).None?;
    if GreedyBraceSpan(s).Some? {
      BraceSpanOpensAlike(s);
    }
    BracedTextRepairFails(loads, s);
    AllAttemptsFail(loads, s);
  }

  /** The pseudo-JSON example holds no backtick, hence no fence. */
  lemma PseudoJsonHasNoFence()
    ensures !Contains("{concept: 'abc', subject: 'def'}", Fence)
  {
    var s := "{concept: 'abc', subject: 'def'}";
    assert '`' !in s;
    NoBacktickNoFence(s);
  }

  /** The braced pseudo-JSON `{concept: 'abc', subject: 'def'}` opens an object without a
      quoted member name and has no fence, so it falls to the raw record. */
  lemma PseudoJsonOpensWithoutName()
    ensures OpensObjectWithoutName("{concept: 'abc', subject: 'def'}")
    ensures !Contains("{concept: 'abc', subject: 'def'}", Fence)
  {
    PseudoJsonHasNoFence();
    var s := "{concept: 'abc', subject: 'def'}";
    assert AfterLeading(s) == s[1..];
    assert s[1..][0] == 'c';
  }
}
