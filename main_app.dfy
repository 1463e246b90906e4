/** `clean_json_string` of the web service module: cut a text down to the span from its
    first `{` to its last `}`. */
module MainApp {
  import opened Wrappers
  import opened Text
  import opened Normaliser

  /** Python's `s[start:end]` for `0 <= start` and `0 <= end <= len(s)`: empty when the
      bounds cross. */
  function Slice(s: string, start: nat, end: nat): (r: string)
    requires end <= |s|
    ensures start <= end ==> r == s[start..end]
    ensures start > end ==> r == []
  {
    if start <= end then s[start..end] else []
  }

  /** A slice is a contiguous piece of the text. */
  lemma SliceIsPiece(s: string, start: nat, end: nat)
    requires end <= |s|
    ensures exists a, b :: 0 <= a <= b <= |s| && Slice(s, start, end) == s[a..b]
  {
    if start <= end {
      assert Slice(s, start, end) == s[start..end];
    } else {
      assert Slice(s, start, end) == s[end..end];
    }
  }

  /** `clean_json_string` as written: `end` is `rfind('}') + 1`, so it is never -1 and the
      guard only tests `start`. */
  function CleanJsonString(s: string): (r: string)
    ensures '{' !in s ==> r == s
    ensures '{' in s && '}' !in s ==> r == []
    ensures '{' in s && RFind(s, '}') < Find(s, '{') ==> r == []
    ensures '{' in s && RFind(s, '}') > Find(s, '{') ==>
      |r| >= 2 && r[0] == '{' && r[|r| - 1] == '}' && r == s[Find(s, '{')..RFind(s, '}') + 1]
    ensures exists a, b :: 0 <= a <= b <= |s| && r == s[a..b]
  {
    var start := Find(s, '{');
    var end := RFind(s, '}') + 1;
    if start != -1 && end != -1 then
      SliceIsPiece(s, start, end);
      Slice(s, start, end)
    else
      assert s == s[0..|s|];
      s
  }

  /** The `"{abc"` input: a `{` but no `}` gives the empty string, not the text. */
  lemma CleanDropsUnclosedText()
    ensures CleanJsonString("{abc") == ""
    ensures CleanJsonStringIntended("{abc") == "{abc"
  {
    assert "{abc"[0] == '{';
    assert '}' !in "{abc";
  }

  /** `clean_json_string` with the guard testing the result of `rfind`, as its comment and
      the `!= -1` test evidently intend: a text without `}` is returned unchanged. */
  function CleanJsonStringIntended(s: string): (r: string)
    ensures '{' !in s || '}' !in s ==> r == s
    ensures '{' in s && '}' in s && RFind(s, '}') < Find(s, '{') ==> r == []
    ensures '{' in s && RFind(s, '}') > Find(s, '{') ==>
      |r| >= 2 && r[0] == '{' && r[|r| - 1] == '}' && r == s[Find(s, '{')..RFind(s, '}') + 1]
    ensures exists a, b :: 0 <= a <= b <= |s| && r == s[a..b]
  {
    var start := Find(s, '{');
    var last := RFind(s, '}');
    if start != -1 && last != -1 then
      assert '{' in s && '}' in s;
      SliceIsPiece(s, start, last + 1);
      Slice(s, start, last + 1)
    else
      assert '{' !in s || '}' !in s;
      assert s == s[0..|s|];
      s
  }

  /** Where a `}` follows the first `{`, both versions cut out the same span as the
      normaliser's greedy `\{.*\}` search. */
  lemma CleanIsBraceSpan(s: string)
    ensures GreedyBraceSpan(s).Some? ==>
      CleanJsonString(s) == GreedyBraceSpan(s).value
      && CleanJsonStringIntended(s) == GreedyBraceSpan(s).value
    ensures GreedyBraceSpan(s).None? && '{' in s ==> CleanJsonString(s) == []
  {
  }
}
