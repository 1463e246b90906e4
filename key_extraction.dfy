/** The test script's `main`: decode an HTTP response body, take its `response` text and
    pull six fields out of it with `extract_key_variables`, which runs eleven regex searches
    in order and overwrites a six-key dict with every capture it finds.

    The regexes are written out as string functions. `re.IGNORECASE` is approximated by an
    exact-case match of the headings and of `'concept':`. */
module KeyExtraction {
  import opened Wrappers
  import opened Text
  import opened Json

  // ---------------------------------------------------------------------------
  // The two shapes of pattern

  /** `'concept':\s*'([^']*)'`, or a heading (one of several spellings) followed by
      `\s*(.*?)(?=\n\n|$)`. */
  datatype Pattern = QuotedConcept | Section(headings: seq<string>)

  const ConceptKey := "'concept':"

  /** The `'concept'` pattern matched at index `i`: the key, whitespace, a `'`, then the
      text up to the next `'`, which must exist. */
  function ConceptAt(s: string, i: nat): (r: Option<string>)
    requires i <= |s|
    ensures r.Some? ==> '\'' !in r.value
  {
    if !StartsWith(s[i..], ConceptKey) then None
    else
      var j := i + |ConceptKey|;
      var q := j + SpaceRun(s[j..]);
      if q < |s| && s[q] == '\'' then
        var k := Find(s[q + 1..], '\'');
        if k >= 0 then Some(s[q + 1..][..k]) else None
      else None
  }

  /** `re.search` of the `'concept'` pattern from index `from` on: the leftmost match. */
  function SearchConcept(s: string, from: nat): (r: Option<string>)
    requires from <= |s|
    ensures r.Some? ==> '\'' !in r.value
    ensures r.None? <==> forall i :: from <= i <= |s| ==> ConceptAt(s, i).None?
    ensures r.Some? ==>
      exists i :: from <= i <= |s| && r == ConceptAt(s, i) && (forall k :: from <= k < i ==> ConceptAt(s, k).None?)
    decreases |s| - from
  {
    var here := ConceptAt(s, from);
    if here.Some? then here
    else if from == |s| then None
    else
      var rest := SearchConcept(s, from + 1);
      assert rest.Some? ==> exists i :: from <= i <= |s| && rest == ConceptAt(s, i)
                              && (forall k :: from <= k < i ==> ConceptAt(s, k).None?) by {
        if rest.Some? {
          var i :| from + 1 <= i <= |s| && rest == ConceptAt(s, i)
                   && (forall k :: from + 1 <= k < i ==> ConceptAt(s, k).None?);
          assert forall k :: from <= k < i ==> ConceptAt(s, k).None?;
        }
      }
      rest
  }

  /** The first of `headings` that occurs at index `i`, if any. */
  function HeadingAt(s: string, headings: seq<string>, i: nat): (r: Option<string>)
    requires i <= |s|
    ensures r.Some? ==> r.value in headings && StartsWith(s[i..], r.value)
    ensures r.None? ==> forall h :: h in headings ==> !StartsWith(s[i..], h)
  {
    if |headings| == 0 then None
    else if StartsWith(s[i..], headings[0]) then Some(headings[0])
    else HeadingAt(s, headings[1..], i)
  }

  /** The leftmost index from `from` on where one of `headings` occurs, and that heading. */
  function FirstHeading(s: string, headings: seq<string>, from: nat): (r: Option<(nat, string)>)
    requires from <= |s|
    ensures r.Some? ==> from <= r.value.0 <= |s| && HeadingAt(s, headings, r.value.0) == Some(r.value.1)
    ensures r.Some? ==> forall k :: from <= k < r.value.0 ==> HeadingAt(s, headings, k).None?
    ensures r.None? <==> forall i :: from <= i <= |s| ==> HeadingAt(s, headings, i).None?
    decreases |s| - from
  {
    match HeadingAt(s, headings, from)
    case Some(h) => Some((from, h))
    case None => if from == |s| then None else FirstHeading(s, headings, from + 1)
  }

  /** `(?=\n\n|$)` holds at index `q`: a blank line follows, or the text ends there or
      right before a final newline. */
  predicate SectionEndsAt(s: string, q: nat) {
    q == |s| || (q == |s| - 1 && s[q] == '\n') || (q + 2 <= |s| && s[q] == '\n' && s[q + 1] == '\n')
  }

  /** Where the lazy `(.*?)` starting at `p` stops: the first index that ends a section. */
  function SectionEnd(s: string, p: nat): (q: nat)
    requires p <= |s|
    ensures p <= q <= |s| && SectionEndsAt(s, q)
    ensures forall k :: p <= k < q ==> !SectionEndsAt(s, k)
    decreases |s| - p
  {
    if SectionEndsAt(s, p) then p else SectionEnd(s, p + 1)
  }

  /** The section pattern matches `s` with its capture `s[p..q]`: `i` is the leftmost index
      where a heading occurs, `\s*` takes the whole whitespace run after that heading (up to
      `p`), and the lazy `(.*?)` stops at `q`, the first index from `p` on that ends a section. */
  ghost predicate SectionMatch(s: string, headings: seq<string>, i: nat, p: nat, q: nat) {
    && i <= |s| && HeadingAt(s, headings, i).Some?
    && (forall k :: 0 <= k < i ==> HeadingAt(s, headings, k).None?)
    && i + |HeadingAt(s, headings, i).value| <= p <= q <= |s|
    && AllSpace(s[i + |HeadingAt(s, headings, i).value|..p]) && (p == |s| || !IsSpace(s[p]))
    && SectionEndsAt(s, q) && (forall k :: p <= k < q ==> !SectionEndsAt(s, k))
  }

  /** `re.search` of a section pattern: after the leftmost heading, skip whitespace and
      capture up to the end of the section. */
  function SearchSection(s: string, headings: seq<string>): (r: Option<string>)
    ensures r.Some? <==> exists i :: 0 <= i <= |s| && HeadingAt(s, headings, i).Some?
    ensures r.Some? ==> exists i: nat, p: nat, q: nat :: SectionMatch(s, headings, i, p, q) && r.value == s[p..q]
    ensures r.Some? ==> !Contains(r.value, "\n\n")
  {
    match FirstHeading(s, headings, 0)
    case None => None
    case Some((i, h)) =>
      var start := i + |h|;
      var p := start + SpaceRun(s[start..]);
      var q := SectionEnd(s, p);
      assert HeadingAt(s, headings, i).Some?;
      assert AllSpace(s[start..p]);
      assert SectionMatch(s, headings, i, p, q);
      NoBlankLineBeforeEnd(s, p, q);
      Some(s[p..q])
  }

  /** A capture that stops at the first section end holds no blank line. */
  lemma NoBlankLineBeforeEnd(s: string, p: nat, q: nat)
    requires p <= q <= |s|
    requires forall k :: p <= k < q ==> !SectionEndsAt(s, k)
    ensures !Contains(s[p..q], "\n\n")
  {
    forall k | 0 <= k <= q - p ensures !ContainsAt(s[p..q], "\n\n", k) {
      if k + 2 <= q - p {
        var t := s[p..q][k..k + 2];
        assert t[0] == s[p + k] && t[1] == s[p + k + 1];
        assert !SectionEndsAt(s, p + k) && p + k + 2 <= |s|;
        assert t[0] != '\n' || t[1] != '\n';
        assert t != "\n\n";
      }
    }
  }

  /** `re.search(pattern, s, re.DOTALL | re.IGNORECASE)`, giving `match.group(1)`. */
  function Search(p: Pattern, s: string): Option<string> {
    match p
    case QuotedConcept => SearchConcept(s, 0)
    case Section(headings) => SearchSection(s, headings)
  }

  // ---------------------------------------------------------------------------
  // The keyword table and the result fields

  datatype Keyword = Keyword(name: string, pattern: Pattern)

  /** The `keywords` dict, in insertion order. */
  const Keywords: seq<Keyword> := [
    Keyword("concept", QuotedConcept),
    Keyword("主体", Section(["主体（Subject）"])),
    Keyword("Subject", Section(["Subject）", "Subject)"])),
    Keyword("寓意", Section(["寓意（Meaning）"])),
    Keyword("Meaning", Section(["Meaning）", "Meaning)"])),
    Keyword("互动", Section(["互动与应答（Interaction）"])),
    Keyword("Interaction", Section(["Interaction）", "Interaction)"])),
    Keyword("风格", Section(["风格（Style）"])),
    Keyword("Style", Section(["Style）", "Style)"])),
    Keyword("质料", Section(["质料（Medium）"])),
    Keyword("Medium", Section(["Medium）", "Medium)"]))
  ]

  /** The six keys of the result, in order. */
  const Fields: seq<string> := ["concept", "subject", "meaning", "interaction", "style", "medium"]

  /** The `if`/`elif` chain: which result key a keyword's capture is written to. */
  function FieldOf(name: string): (f: string)
    ensures f in Fields
  {
    if name == "concept" then "concept"
    else if name == "主体" || name == "Subject" then "subject"
    else if name == "寓意" || name == "Meaning" then "meaning"
    else if name == "互动" || name == "Interaction" then "interaction"
    else if name == "风格" || name == "Style" then "style"
    else "medium"
  }

  /** Which field keyword `j` writes: the two keywords of a field sit side by side, after
      `concept`. */
  lemma FieldAt(j: nat)
    requires j < |Keywords|
    ensures FieldOf(Keywords[j].name) == Fields[(j + 1) / 2]
  {
    if j == 0 {} else if j == 1 {} else if j == 2 {} else if j == 3 {} else if j == 4 {}
    else if j == 5 {} else if j == 6 {} else if j == 7 {} else if j == 8 {} else if j == 9 {}
    else {}
  }

  /** The six field names are distinct. */
  lemma FieldsDistinct()
    ensures forall a, b :: 0 <= a < b < |Fields| ==> Fields[a] != Fields[b]
  {
  }

  /** What one keyword contributes: the field the `if`/`elif` chain writes, and the
      search result. */
  datatype Hit = Hit(field: string, capture: Option<string>)

  /** The searches of a keyword table over `input`, in table order. */
  function Hits(kws: seq<Keyword>, input: string): (r: seq<Hit>)
    ensures |r| == |kws|
    ensures forall j :: 0 <= j < |kws| ==> r[j] == Hit(FieldOf(kws[j].name), Search(kws[j].pattern, input))
  {
    HitsBy(kws, input, Search, FieldOf)
  }

  /** The same, for any search function in place of `re.search` and any routing of
      keyword names to fields in place of the `if`/`elif` chain. */
  function HitsBy(kws: seq<Keyword>, input: string, search: (Pattern, string) -> Option<string>,
                  route: string -> string): (r: seq<Hit>)
    ensures |r| == |kws|
    ensures forall j :: 0 <= j < |kws| ==> r[j] == Hit(route(kws[j].name), search(kws[j].pattern, input))
  {
    seq(|kws|, j requires 0 <= j < |kws| => Hit(route(kws[j].name), search(kws[j].pattern, input)))
  }

  /** The value of field `f` once the first `k` hits are processed: the stripped capture
      of the last of them that writes `f` and matched, or `""`. */
  function LastCapture(hits: seq<Hit>, f: string, k: nat): string
    requires k <= |hits|
  {
    if k == 0 then ""
    else if hits[k - 1].field == f && hits[k - 1].capture.Some? then Strip(hits[k - 1].capture.value)
    else LastCapture(hits, f, k - 1)
  }

  /** The value `extract_key_variables` gives field `f`. */
  function Extracted(input: string, f: string): string {
    LastCapture(Hits(Keywords, input), f, |Keywords|)
  }

  /** The six fields as a dict. */
  function ExtractedFields(input: string): (r: map<string, string>)
    ensures r.Keys == set f | f in Fields
  {
    map f | f in Fields :: Extracted(input, f)
  }

  /** The result dict before the loop: every field empty. */
  const NoFields: map<string, string> := map f | f in Fields :: ""

  /** One pass of the loop: a matched search overwrites its field with the stripped capture. */
  function Record(result: map<string, string>, h: Hit): map<string, string> {
    if h.capture.Some? then result[h.field := Strip(h.capture.value)] else result
  }

  /** The dict after the first `k` hits. */
  function Scan(hits: seq<Hit>, k: nat): map<string, string>
    requires k <= |hits|
  {
    if k == 0 then NoFields else Record(Scan(hits, k - 1), hits[k - 1])
  }

  /** `extract_key_variables`: start from six empty fields and, for each keyword in order,
      overwrite its field with the stripped capture when the search matches. */
  method ExtractKeyVariables(input: string) returns (result: map<string, string>)
    ensures result.Keys == set f | f in Fields
    ensures forall f :: f in Fields ==> result[f] == Extracted(input, f)
  {
    result := ScanKeywords(Keywords, input, Search, FieldOf);
    ScanValues(Hits(Keywords, input), |Keywords|);
  }

  /** The loop of `extract_key_variables` over a keyword table, with the regex search and
      the `if`/`elif` routing passed in so that the loop is proved for any of them. */
  method ScanKeywords(kws: seq<Keyword>, input: string, search: (Pattern, string) -> Option<string>,
                      route: string -> string)
    returns (result: map<string, string>)
    ensures result == Scan(HitsBy(kws, input, search, route), |kws|)
  {
    result := NoFields;
    var i := 0;
    while i < |kws|
      invariant 0 <= i <= |kws|
      invariant result == Scan(HitsBy(kws, input, search, route), i)
    {
      var kw := kws[i];
      var m := search(kw.pattern, input);
      if m.Some? {
        result := result[route(kw.name) := Strip(m.value)];
      }
      i := i + 1;
    }
  }

  /** The loop's invariant: `result` holds the six fields as the first `k` hits leave them. */
  ghost predicate Scanned(hits: seq<Hit>, result: map<string, string>, k: nat)
    requires k <= |hits|
  {
    && result.Keys == (set f | f in Fields)
    && forall f :: f in Fields ==> result[f] == LastCapture(hits, f, k)
  }

  /** After `k` hits that each write one of the six fields, the dict has exactly those six
      keys, and each holds the capture of the last hit that wrote it. */
  lemma {:induction false} ScanValues(hits: seq<Hit>, k: nat)
    requires k <= |hits|
    requires forall j :: 0 <= j < |hits| ==> hits[j].field in Fields
    ensures Scan(hits, k).Keys == set f | f in Fields
    ensures forall f :: f in Fields ==> Scan(hits, k)[f] == LastCapture(hits, f, k)
  {
    if k > 0 {
      ScanValues(hits, k - 1);
      HitStep(hits, k - 1, Scan(hits, k - 1), Scan(hits, k));
    }
  }

  /** One pass of the loop keeps every field equal to its `LastCapture`. */
  lemma HitStep(hits: seq<Hit>, i: nat, before: map<string, string>, after: map<string, string>)
    requires i < |hits| && hits[i].field in Fields
    requires Scanned(hits, before, i)
    requires after == if hits[i].capture.Some?
      then before[hits[i].field := Strip(hits[i].capture.value)] else before
    ensures Scanned(hits, after, i + 1)
  {
  }

  // ---------------------------------------------------------------------------
  // Properties of the extracted fields

  /** Where a field's value comes from: `-1` when it is still `""`, otherwise the hit
      whose stripped capture it is, one that writes the field and matched. */
  lemma {:induction false} CaptureSource(hits: seq<Hit>, f: string, k: nat) returns (j: int)
    requires k <= |hits|
    ensures -1 <= j < k
    ensures j == -1 ==> LastCapture(hits, f, k) == ""
    ensures j == -1 ==> forall i :: 0 <= i < k && hits[i].field == f ==> hits[i].capture.None?
    ensures j >= 0 ==>
      && hits[j].field == f && hits[j].capture.Some?
      && LastCapture(hits, f, k) == Strip(hits[j].capture.value)
  {
    if k == 0 {
      j := -1;
    } else if hits[k - 1].field == f && hits[k - 1].capture.Some? {
      j := k - 1;
    } else {
      j := CaptureSource(hits, f, k - 1);
    }
  }

  /** Every value is whitespace-stripped: it neither starts nor ends with whitespace. */
  lemma CapturesStripped(hits: seq<Hit>, f: string, k: nat)
    requires k <= |hits|
    ensures var r := LastCapture(hits, f, k); r == [] || (!IsSpace(r[0]) && !IsSpace(r[|r| - 1]))
  {
    var j := CaptureSource(hits, f, k);
  }

  /** A field whose searches all fail stays `""`; in particular the concept is filled only
      from the `'concept': '...'` form. */
  lemma UnmatchedFieldEmpty(hits: seq<Hit>, f: string, k: nat)
    requires k <= |hits|
    ensures (forall j :: 0 <= j < k && hits[j].field == f ==> hits[j].capture.None?)
      ==> LastCapture(hits, f, k) == ""
  {
    var j := CaptureSource(hits, f, k);
  }

  /** The last hit writing a field decides it whenever it matched. */
  lemma {:induction false} LastKeywordWins(hits: seq<Hit>, e: nat, k: nat)
    requires e < k <= |hits|
    requires forall j :: e < j < k ==> hits[j].field != hits[e].field
    ensures hits[e].capture.Some? ==>
      LastCapture(hits, hits[e].field, k) == Strip(hits[e].capture.value)
    decreases k
  {
    if k > e + 1 {
      LastKeywordWins(hits, e, k - 1);
    }
  }

  /** Stripping keeps a text free of a blank line. */
  lemma StripNoBlankLine(s: string)
    ensures !Contains(s, "\n\n") ==> !Contains(Strip(s), "\n\n")
  {
    var a := SpaceRun(s);
    ContainsWidens(s, "\n\n", a, a + |Strip(s)|);
  }

  /** Only the `concept` keyword has the quoted pattern, and it alone writes `concept`. */
  lemma ConceptKeywordOnly(j: nat)
    requires j < |Keywords|
    ensures Keywords[j].pattern.QuotedConcept? <==> FieldOf(Keywords[j].name) == "concept"
  {
    FieldAt(j);
    FieldsDistinct();
  }

  /** The extracted concept never holds a `'`. */
  lemma ConceptHasNoQuote(input: string)
    ensures '\'' !in Extracted(input, "concept")
  {
    var j := CaptureSource(Hits(Keywords, input), "concept", |Keywords|);
    if j >= 0 {
      ConceptKeywordOnly(j);
      StripKeeps(Search(Keywords[j].pattern, input).value);
    }
  }

  /** No extracted field other than the concept holds a blank line. */
  lemma SectionHasNoBlankLine(input: string, f: string)
    requires f != "concept"
    ensures !Contains(Extracted(input, f), "\n\n")
  {
    var j := CaptureSource(Hits(Keywords, input), f, |Keywords|);
    if j >= 0 {
      ConceptKeywordOnly(j);
      StripNoBlankLine(Search(Keywords[j].pattern, input).value);
    }
  }

  /** When a field's English heading matches, its capture is the field's value, whatever
      the Chinese heading gave: the English keyword comes later and overwrites it. */
  lemma EnglishHeadingWins(input: string, e: nat)
    requires e in {2, 4, 6, 8, 10}
    ensures Search(Keywords[e].pattern, input).Some? ==>
      Extracted(input, FieldOf(Keywords[e].name)) == Strip(Search(Keywords[e].pattern, input).value)
  {
    var hits := Hits(Keywords, input);
    FieldsDistinct();
    FieldAt(e);
    forall j | e < j < |Keywords|
      ensures hits[j].field != hits[e].field
    {
      FieldAt(j);
      assert (e + 1) / 2 < (j + 1) / 2 < |Fields|;
    }
    LastKeywordWins(hits, e, |Keywords|);
  }

  /** A heading that contains another at offset `off` brings that one along. */
  lemma HeadingBringsInner(s: string, big: string, small: string, off: nat, others: seq<string>)
    requires off + |small| <= |big| && big[off..off + |small|] == small
    ensures SearchSection(s, [big]).Some? ==> SearchSection(s, [small] + others).Some?
  {
    if SearchSection(s, [big]).Some? {
      var i :| 0 <= i <= |s| && HeadingAt(s, [big], i).Some?;
      assert StartsWith(s[i..], big);
      assert s[i + off..][..|small|] == s[i..][..|big|][off..off + |small|];
      assert HeadingAt(s, [small] + others, i + off).Some?;
    }
  }

  /** The heading of each Chinese keyword ends with the first heading of the English
      keyword after it (`主体（Subject）` ends with `Subject）`). */
  lemma ChineseEndsWithEnglish(c: nat)
    requires c in {1, 3, 5, 7, 9}
    ensures Keywords[c].pattern.Section? && |Keywords[c].pattern.headings| == 1
    ensures Keywords[c + 1].pattern.Section? && |Keywords[c + 1].pattern.headings| == 2
    ensures EndsWith(Keywords[c].pattern.headings[0], Keywords[c + 1].pattern.headings[0])
  {
    if c == 1 {
      assert Keywords[1].pattern.headings[0] == "主体（" + "Subject）";
      SuffixEnds("主体（", "Subject）");
    } else if c == 3 {
      assert Keywords[3].pattern.headings[0] == "寓意（" + "Meaning）";
      SuffixEnds("寓意（", "Meaning）");
    } else if c == 5 {
      assert Keywords[5].pattern.headings[0] == "互动与应答（" + "Interaction）";
      SuffixEnds("互动与应答（", "Interaction）");
    } else if c == 7 {
      assert Keywords[7].pattern.headings[0] == "风格（" + "Style）";
      SuffixEnds("风格（", "Style）");
    } else {
      assert Keywords[9].pattern.headings[0] == "质料（" + "Medium）";
      SuffixEnds("质料（", "Medium）");
    }
  }

  /** A Chinese keyword and the English one after it write the same field. */
  lemma ChineseSharesField(c: nat)
    requires c in {1, 3, 5, 7, 9}
    ensures FieldOf(Keywords[c].name) == FieldOf(Keywords[c + 1].name)
  {
    FieldAt(c);
    FieldAt(c + 1);
  }

  predicate EndsWith(big: string, small: string) {
    |small| <= |big| && big[|big| - |small|..] == small
  }

  lemma SuffixEnds(prefix: string, suffix: string)
    ensures EndsWith(prefix + suffix, suffix)
  {
    assert (prefix + suffix)[|prefix|..] == suffix;
  }

  /** A one-heading pattern whose heading ends with the first heading of another pattern
      matches only where that other pattern matches too. */
  lemma SuffixHeadingMatches(input: string, p: Pattern, q: Pattern)
    requires p.Section? && |p.headings| == 1 && q.Section? && |q.headings| >= 1
    requires EndsWith(p.headings[0], q.headings[0])
    ensures Search(p, input).Some? ==> Search(q, input).Some?
  {
    var big := p.headings[0];
    var hs := q.headings;
    assert p.headings == [big];
    assert hs == [hs[0]] + hs[1..];
    HeadingBringsInner(input, big, hs[0], |big| - |hs[0]|, hs[1..]);
  }

  /** So whenever a Chinese pattern matches, the English pattern matches too and, being
      later, decides the field: the Chinese capture never survives. */
  lemma ChineseHeadingBringsEnglish(input: string, c: nat)
    requires c in {1, 3, 5, 7, 9}
    ensures Search(Keywords[c].pattern, input).Some? ==> Search(Keywords[c + 1].pattern, input).Some?
    ensures Search(Keywords[c].pattern, input).Some? ==>
      Extracted(input, FieldOf(Keywords[c].name)) == Strip(Search(Keywords[c + 1].pattern, input).value)
  {
    ChineseEndsWithEnglish(c);
    ChineseSharesField(c);
    SuffixHeadingMatches(input, Keywords[c].pattern, Keywords[c + 1].pattern);
    EnglishHeadingWins(input, c + 1);
  }

  // ---------------------------------------------------------------------------
  // main(http_response)

  /** `type(v).__name__` of a decoded JSON value. */
  function TypeName(v: Json): string {
    match v
    case JNull => "NoneType"
    case JBool(_) => "bool"
    case JNumber(_) => "int"
    case JString(_) => "str"
    case JArray(_) => "list"
    case JObject(_) => "dict"
  }

  /** The message standing for the decoder's `JSONDecodeError`. */
  const DecodeError := "JSONDecodeError"

  /** `main(http_response)`: decode the body, take `data.get('response', '')` and extract the
      six fields. A body that is not JSON, a body that is not an object (no `.get`), and a
      `response` that is not a str (rejected by `re.search`) raise. */
  method HandleHttpResponse(loads: Loads, httpResponse: string) returns (r: Result<map<string, string>>)
    ensures loads(httpResponse).None? ==> r == Failure(DecodeError)
    ensures loads(httpResponse).Some? && !loads(httpResponse).value.JObject? ==>
      r == Failure("'" + TypeName(loads(httpResponse).value) + "' object has no attribute 'get'")
    ensures loads(httpResponse).Some? && loads(httpResponse).value.JObject? ==>
      var response := Get(loads(httpResponse).value.members, "response", JString(""));
      && (response.JString? ==> r == Success(ExtractedFields(response.s)))
      && (!response.JString? ==>
            r == Failure("expected string or bytes-like object, got '" + TypeName(response) + "'"))
  {
    var data := loads(httpResponse);
    if data.None? {
      return Failure(DecodeError);
    }
    if !data.value.JObject? {
      return Failure("'" + TypeName(data.value) + "' object has no attribute 'get'");
    }
    var llmResponse := Get(data.value.members, "response", JString(""));
    if !llmResponse.JString? {
      return Failure("expected string or bytes-like object, got '" + TypeName(llmResponse) + "'");
    }
    var extracted := ExtractKeyVariables(llmResponse.s);
    var out := map f | f in Fields :: extracted[f];
    SameFields(out, llmResponse.s);
    r := Success(out);
  }

  /** A dict with the six keys holding the extracted values is `ExtractedFields`. */
  lemma SameFields(m: map<string, string>, input: string)
    requires m.Keys == set f | f in Fields
    requires forall f :: f in Fields ==> m[f] == Extracted(input, f)
    ensures m == ExtractedFields(input)
  {
  }

  /** No pattern matches the empty text. */
  lemma NothingMatchesEmpty(j: nat)
    requires j < |Keywords|
    ensures Search(Keywords[j].pattern, "").None?
  {
    if Keywords[j].pattern.Section? {
      var hs := Keywords[j].pattern.headings;
      assert forall h :: h in hs ==> |h| > 0;
      assert HeadingAt("", hs, 0).None?;
    }
  }

  /** A decoded object without `response` gives six empty fields. */
  lemma MissingResponseEmpty()
    ensures forall f :: f in Fields ==> ExtractedFields("")[f] == ""
  {
    var hits := Hits(Keywords, "");
    forall j | 0 <= j < |Keywords| ensures hits[j].capture.None? {
      NothingMatchesEmpty(j);
    }
    forall f | f in Fields ensures Extracted("", f) == "" {
      UnmatchedFieldEmpty(hits, f, |Keywords|);
    }
  }
}
