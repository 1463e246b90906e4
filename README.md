# art-collaborator core, modelled in Dafny

art-collaborator is a FastAPI service that asks an LLM to write image-generation prompts
for portraits and sculptures. Two creator classes (`PortraitCreator` and
`SculptureCreator`) run the same three stages:

- `generate_elements` renders a user message from a settings record and asks for a
  structured description;
- `reflect_on_elements` asks for a reflection on that description;
- `generate_final_prompts` asks for the final prompts and returns them as JSON text.

Every LLM reply goes through `format_llm_response`. It removes Markdown code fences, then
tries three ways to read the reply as JSON. The first that succeeds is returned. A reply
carrying `en_prompt`/`zh_prompt` is reshaped to `{en, zh}`. When all three fail, the text
is returned as `{"raw": text}`. The web module also has a `{`…`}` trimming helper,
`clean_json_string`. The Dify script `test.py` extracts six fields from a structured
description by its section headings.

The modules:

| module | file | what it holds |
|---|---|---|
| `Wrappers` | wrappers.dfy | `Option` and `Result` |
| `Text` | text.dfy | the Python string operations used: `strip`, `find`/`rfind`, `replace`, `split`, `str(int)` |
| `Json` | json.dfy | a JSON value type, the `json.loads` parameter and its contract, `json.dumps` |
| `Prompting` | prompting.dfy | Python `or` defaults and f-string placeholder filling |
| `Normaliser` | normaliser.dfy | `format_llm_response`, written once |
| `Stages` | stages.dfy | how each stage turns the LLM outcome into its result |
| `PortraitCreator` | portrait_creator.dfy | the portrait settings, messages and stages |
| `SculptureCreator` | sculpture_creator.dfy | the sculpture settings, messages and stages |
| `MainApp` | main_app.dfy | `clean_json_string` |
| `KeyExtraction` | key_extraction.dfy | `extract_key_variables` and the `main` wrapper of `test.py` |

Two parts of the source are parameters of the model:

- `json.loads` is a function parameter `loads: string -> Option<Json>`. The facts the
  proofs need about it (from RFC 8259) are the predicate `Json.LoadsContract`. Lemmas that
  use those facts require that predicate.
- The LLM call is a parameter `llm: string -> LlmOutcome`. It maps the rendered user
  message to `Ok(reply)` or `Err(str(exception))`.

The regular expressions are written out as string functions:

| pattern | Dafny function |
|---|---|
| `` ```json\s* `` | `StripOpeningFences` |
| `` \s*``` `` | `StripClosingFences` |
| `\{.*\}` with `DOTALL` | `GreedyBraceSpan` |
| `(\w+):` | `QuoteKeys` |
| the `test.py` heading patterns | `SearchSection` |
| the `'concept'` pattern | `SearchConcept` |

`extract_key_variables` updates a dict in a loop, so it is a method with a loop invariant
(`ScanKeywords`). The rest of the core is expressions and is modelled as functions.

## Model

| member | source | states |
|---|---|---|
| Normaliser.NoFenceUnchanged | llm_portrait_creator.py:263-264 | a text with no "```" comes out of the two fence substitutions unchanged |
| Normaliser.OpeningFencesAbsent | llm_portrait_creator.py:263 | a text with no "```json" is unchanged by the first substitution |
| Normaliser.ClosingFencesAbsent | llm_portrait_creator.py:264 | a text with no "```" is unchanged by the second substitution |
| Normaliser.FencedBlockUnwrapped | llm_portrait_creator.py:263-264 | a block "```json", whitespace, a fence-free body, whitespace, "```" is reduced to exactly the body |
| Normaliser.FencedSameAsBody | llm_portrait_creator.py:258-307 | a fenced reply normalises to the same value as its bare body |
| Normaliser.GreedyBraceSpanMatches | llm_portrait_creator.py:280 | a match exists iff some `{` precedes some `}`; the match starts with `{`, ends with `}`, is a piece of the text with no `{` before it and no `}` after it (first `{` to last `}`) |
| Normaliser.QuoteKeysOnlyAddsQuotes | llm_portrait_creator.py:293 | the key-quoting substitution only inserts `"` characters: removing every `"` from its output and from its input gives the same text |
| Normaliser.SingleKeyQuoted | llm_portrait_creator.py:293 | `word:rest` with no other colon becomes `"word":rest` |
| Normaliser.WordRunBefore | llm_portrait_creator.py:293 | a word run starting in a text that ends with a non-word character stops inside that text, whatever follows |
| Normaliser.QuoteKeysConcat | llm_portrait_creator.py:293 | the key-quoting substitution distributes over a concatenation whose first part is empty or ends with a non-word character |
| Normaliser.MemberQuoted | llm_portrait_creator.py:293 | `key:value` in front of text whose keys are quoted becomes `"key":value` followed by that quoted text |
| Normaliser.EveryKeyQuoted | llm_portrait_creator.py:293 | in `k1:v1k2:v2…` (each key a word, no value with a colon, each value but the last ending with a non-word character, as in `concept: 'abc', subject: 'def'`) every key is quoted and nothing else changes |
| Normaliser.Repair | llm_portrait_creator.py:293-296 | the repaired candidate opens with `{`, closes with `}` and contains no `'` |
| Normaliser.BracelessKeyRepaired | llm_portrait_creator.py:293-296 | brace-less `key: 'abc'` is repaired to `{"key": "abc"}`, that is the key quoted, `'` turned into `"`, one brace pair around it |
| Normaliser.QuoteKeysKeepsLeadingBrace | llm_portrait_creator.py:293 | quoting keys keeps a leading `{` of the text |
| Normaliser.ReplaceKeepsLeadingBrace | llm_portrait_creator.py:294 | replacing `'` by `"` keeps a leading `{` of the text |
| Normaliser.BracedTextRepairFails | llm_portrait_creator.py:293-296 | for a text already opening with `{`, the repaired candidate opens with `{{`, so `json.loads` rejects it |
| Normaliser.BracedTextNotRepaired | llm_portrait_creator.py:293-303 | the repair step cannot succeed on a fence-stripped reply that already opens with `{` |
| Normaliser.RemapShape | llm_portrait_creator.py:269-274 | a dict with `en_prompt` or `zh_prompt` becomes exactly `{en, zh}`: each holds that marker's value or `''` if the marker is missing, and all other keys are dropped; every other value, object or not, is returned unchanged |
| Normaliser.ChainSteps | llm_portrait_creator.py:267-304 | the attempt chain is exactly: whole text, else the brace span if there is one, else the repaired text; the first that parses is remapped; otherwise there is no result |
| Normaliser.FirstParseFrom | llm_portrait_creator.py:267-304 | the chain succeeds iff some attempt's candidate parses, and its result is the remap of the parse of the first such candidate (every earlier attempt fails) |
| Normaliser.Normalise | llm_portrait_creator.py:258-307 | `format_llm_response` never propagates a `JSONDecodeError`: when no attempt on the fence-stripped text parses the result is `{"raw": text}`; otherwise it is the remap of the first attempt that parses |
| Normaliser.WholeTextParsed | llm_portrait_creator.py:267-274 | when the fence-stripped text parses to v, the result is v remapped: v itself without markers, keys exactly `en`, `zh` with them |
| Normaliser.WholeTextFirst | llm_portrait_creator.py:267-276 | when the whole text parses, what `json.loads` does on any other text does not matter |
| Normaliser.BraceSpanParsed | llm_portrait_creator.py:279-288 | when the whole text fails and the brace span parses to v, the result is v remapped |
| Normaliser.RepairParsed | llm_portrait_creator.py:293-302 | when the whole text fails, there is no brace span, and the repaired text parses to v, the result is v remapped |
| Normaliser.AllAttemptsFail | llm_portrait_creator.py:263-307 | when all three attempts fail, the result is `{"raw": s}` with s the fence-stripped text (the input itself when it has no fence) |
| Normaliser.UnquotedObjectFallsToRaw | llm_portrait_creator.py:258-307 | a reply with no "```" fence that opens `{` followed by something other than `"` or `}` (pseudo-JSON with unquoted keys) always ends as `{"raw": reply}` |
| Normaliser.BraceSpanOpensAlike | llm_portrait_creator.py:280-282 | the brace span of such a reply opens the same way, so it fails too |
| Normaliser.PseudoJsonHasNoFence | llm_portrait_creator.py:263-264 | `{concept: 'abc', subject: 'def'}` contains no "```" fence |
| Normaliser.PseudoJsonOpensWithoutName | llm_portrait_creator.py:293-296 | `{concept: 'abc', subject: 'def'}` is such a reply: it has no fence and opens `{` followed by a key name |
| PortraitCreator.FormatLlmResponse | llm_portrait_creator.py:258-307 | the portrait copy of `format_llm_response` equals the normaliser on every input |
| SculptureCreator.FormatLlmResponse | llm_sculpture_creator.py:153-202 | the sculpture copy equals the normaliser on every input, hence equals the portrait copy |
| Prompting.OrDefault | llm_portrait_creator.py:45-55 | `x or d` for an optional string: d for None and for "", the value otherwise |
| Prompting.IntOrDefault | llm_portrait_creator.py:58-64 | `x or d` for an optional int: d for None and for 0, the decimal text otherwise |
| Prompting.FillShowsSlots | llm_portrait_creator.py:96-118 | in the rendered f-string every placeholder value stands verbatim at its placeholder's offset |
| Prompting.FillLength | llm_portrait_creator.py:96-118 | the rendered message is as long as its prose and its values together |
| PortraitCreator.ElementSlots | llm_portrait_creator.py:98-110 | thirteen values: the concept verbatim, `mainSubject` or `肖像`, and each descriptive setting or `未指定` when None or "" |
| PortraitCreator.ElementsMessageContents | llm_portrait_creator.py:96-118 | in the rendered message the concept, the subject default and every `未指定` stand at their placeholders |
| PortraitCreator.OldSlots | llm_portrait_creator.py:41-74 | twenty values: the thirteen above, then seed (`未指定` for None or 0), width and height from `size.split('x')` (`未指定` for no size), steps, samples, model_type, style_preset; a non-empty size without `x` raises `IndexError` |
| PortraitCreator.DefaultOldSlots | llm_portrait_creator.py:58-65 | with the default settings the technical values are `未指定`, 1024, 1024, 40, 2, 2, `未指定`; the default seed 0 is written `未指定` |
| PortraitCreator.DefaultSizeSplit | llm_portrait_creator.py:59-60 | `"1024x1024".split('x')` is `["1024", "1024"]` |
| PortraitCreator.GenerateElements | llm_portrait_creator.py:125-132 | the reply to the rendered message, or the call's exception re-raised |
| PortraitCreator.GenerateElementsOld | llm_portrait_creator.py:35-88 | an `IndexError` while rendering comes before any call; otherwise the reply or the exception re-raised |
| PortraitCreator.ReflectOnElements | llm_portrait_creator.py:163-174 | the normalised reply when the call succeeds (`JSONDecodeError` being the only decoder error modelled), or `{"error": "处理过程中出现未知错误", "details": msg}` |
| PortraitCreator.GenerateFinalPrompts | llm_portrait_creator.py:200-211 | `json.dumps` of the normalised reply when the call succeeds (`JSONDecodeError` being the only decoder error modelled), or of `{"error": msg}` |
| PortraitCreator.GenerateFinalPromptsOther | llm_portrait_creator.py:238-249 | the same policy for the second final-prompt message |
| SculptureCreator.ElementSlots | llm_sculpture_creator.py:36-44 | nine values: the concept verbatim, `mainSubject` or `雕塑`, and each descriptive setting or `未指定` when None or "" |
| SculptureCreator.ElementsMessageContents | llm_sculpture_creator.py:34-52 | in the rendered message the concept, the subject default and every `未指定` stand at their placeholders |
| SculptureCreator.GenerateElements | llm_sculpture_creator.py:59-66 | the reply to the rendered message, or the call's exception re-raised |
| SculptureCreator.ReflectOnElements | llm_sculpture_creator.py:96-107 | the normalised reply when the call succeeds (`JSONDecodeError` being the only decoder error modelled), or the error/details dict |
| SculptureCreator.GenerateFinalPrompts | llm_sculpture_creator.py:133-144 | `json.dumps` of the normalised reply when the call succeeds (`JSONDecodeError` being the only decoder error modelled), or of `{"error": msg}` |
| Stages.Reraise | llm_portrait_creator.py:125-132 | success iff the call succeeded; the reply unchanged, or the exception's message unchanged |
| Stages.Reflect | llm_portrait_creator.py:163-174 | when the call succeeds, the normalised reply (decoding raising nothing but `JSONDecodeError`); when the call fails, an object with keys exactly `error`, `details` holding the fixed message and `str(e)` |
| Stages.FinalPrompts | llm_portrait_creator.py:200-211 | when the call succeeds, the serialised normalised reply (decoding raising nothing but `JSONDecodeError`); when the call fails `{"error": "<msg>"}` serialised; the result is always printable ASCII |
| Stages.FinalPromptsOfMarker | llm_portrait_creator.py:200-208 | when the reply parses to a dict with a marker, the stage returns the serialisation of a two-key `{en, zh}` object |
| Json.Dump | llm_portrait_creator.py:208 | `json.dumps` output is never empty; its first character tells the kind (`{` iff a dict, `[` iff a list, `"` iff a str, `-` or a digit iff an int), and a dict, list or str closes with the matching `}`, `]` or `"` |
| Json.DumpIsAscii | llm_portrait_creator.py:208 | `json.dumps` output (with its default `ensure_ascii`) is printable ASCII for every value |
| Json.DumpSingleton | llm_portrait_creator.py:211 | `json.dumps({k: v})` for strings is `{"k": "v"}` with both strings escaped and the `: ` separator |
| Json.Quote | llm_portrait_creator.py:211 | a dumped string starts and ends with `"` and is printable ASCII |
| Text.Find | main.py:37 | `str.find`: -1 iff the character is absent, otherwise the first index holding it |
| Text.RFind | main.py:38 | `str.rfind`: -1 iff the character is absent, otherwise the last index holding it |
| Text.Strip | test.py:36 | `str.strip`: the text between the leading and trailing whitespace runs, neither end of the result whitespace |
| Text.ReplaceChar | llm_portrait_creator.py:294 | `str.replace` of one character: same length, every occurrence replaced, every other character kept |
| Text.JoinSplit | llm_portrait_creator.py:59-60 | `str.split` on a character is undone by joining with it |
| Text.SplitHead | llm_portrait_creator.py:59-60 | the first piece is the text before the first separator; there are two or more pieces iff the separator occurs |
| Text.DecimalRoundTrip | llm_portrait_creator.py:58-64 | `str(n)` of a natural number reads back as n |
| MainApp.CleanJsonString | main.py:35-41 | no `{`: text unchanged; `{` but no `}`, or every `}` before the first `{`: ""; otherwise the slice from the first `{` through the last `}`; always a piece of the input |
| MainApp.CleanDropsUnclosedText | main.py:38-40 | `"{abc"` gives "", where the guard intends the text unchanged |
| MainApp.CleanJsonStringIntended | main.py:35-41 | as above, but a text without `}` is returned unchanged |
| MainApp.CleanIsBraceSpan | main.py:37-40 | when a `}` follows the first `{`, both versions return the normaliser's greedy brace span; without one and with a `{`, the as-written version returns "" |
| KeyExtraction.SearchConcept | test.py:8 | the `'concept':\s*'([^']*)'` search: no match iff no position matches; a match is the one at the leftmost matching position; the capture never contains `'` |
| KeyExtraction.SearchSection | test.py:9-18 | a heading search: a match iff some heading occurs; the match is at the leftmost heading, the whitespace after the heading is skipped, and the capture runs from the first non-space character to the first section end (a blank line, a final newline or the end of the text, as `(?=\n\n|$)` has it), so it never contains "\n\n" |
| KeyExtraction.FieldAt | test.py:35-46 | keyword j of the table is routed to field (j + 1) / 2 of `concept, subject, meaning, interaction, style, medium` |
| KeyExtraction.Hits | test.py:32-34 | one search per keyword, in table order |
| KeyExtraction.ExtractKeyVariables | test.py:5-48 | the result has exactly the six keys, and each holds the stripped capture of the last matching keyword of its field, or "" |
| KeyExtraction.ScanKeywords | test.py:22-46 | the loop over any keyword table writes each matching keyword's stripped capture to its field, in order, starting from six empty fields |
| KeyExtraction.ScanValues | test.py:22-46 | after the first k keywords the dict has the six keys, and each holds its field's last capture so far |
| KeyExtraction.CaptureSource | test.py:32-46 | a field is "" with no keyword of it matching, or the stripped capture of some matching keyword of it |
| KeyExtraction.UnmatchedFieldEmpty | test.py:22-34 | a field none of whose keywords matches stays "" |
| KeyExtraction.CapturesStripped | test.py:36-46 | every field value is empty or neither starts nor ends with whitespace |
| KeyExtraction.LastKeywordWins | test.py:32-46 | a matching keyword with no later keyword of the same field decides that field |
| KeyExtraction.ConceptKeywordOnly | test.py:8-19 | only the `concept` keyword uses the quoted pattern and only it is routed to `concept` |
| KeyExtraction.ConceptHasNoQuote | test.py:8 | the extracted concept contains no `'` |
| KeyExtraction.SectionHasNoBlankLine | test.py:9-18 | no extracted section field contains "\n\n" |
| KeyExtraction.EnglishHeadingWins | test.py:9-46 | when an English heading matches, its stripped capture is the field's value |
| KeyExtraction.ChineseEndsWithEnglish | test.py:9-18 | each Chinese heading ends with the first of its English partner's headings |
| KeyExtraction.ChineseSharesField | test.py:37-46 | each Chinese keyword and its English partner fill the same field |
| KeyExtraction.HeadingBringsInner | test.py:9-18 | where a heading matches, any heading inside it matches as well |
| KeyExtraction.ChineseHeadingBringsEnglish | test.py:9-46 | a matching Chinese heading implies the English one matches, and the English capture is the field's value |
| KeyExtraction.NothingMatchesEmpty | test.py:8-18 | no pattern matches the empty text |
| KeyExtraction.MissingResponseEmpty | test.py:54-57 | a missing `response` (default "") gives six empty fields |
| KeyExtraction.HandleHttpResponse | test.py:51-67 | a body that is not JSON raises the decode error; a non-object raises `AttributeError`; a non-string `response` raises `TypeError`; otherwise the six extracted fields |

## Left out

- The LLM call (`LLMBase.call_llm`, an async HTTP request) is the parameter `llm`. Logging, the FastAPI routes, CORS, `.env` loading and `uvicorn` are not modelled.
- The Chinese prose of the system and user messages is the parameter `prose`. Only the placeholders are modelled.
- `cfg_scale` is a float and is not modelled. Its placeholder in the older portrait message is not modelled either. Floats and NaN/Infinity in JSON are left out: JSON numbers are integers.
- The `generate` methods (llm_portrait_creator.py:251-256, llm_sculpture_creator.py:146-151) only chain the three stages and are not modelled.
- The JSON decoder is the parameter `loads` plus the two facts in `Json.LoadsContract`. The text of a decode error is not modelled. `Get` returns the first member with a key, while Python dicts keep the last duplicate.
- Normalise: `json.loads` gives either a value or a `JSONDecodeError`. Its other exceptions (`RecursionError` on deeply nested text such as `'[' * 100000`, and `ValueError` on an integer literal of more than 4300 digits from Python 3.11 on) are not modelled. `format_llm_response` catches only `JSONDecodeError` (llm_portrait_creator.py:275, :289, :303; the same in llm_sculpture_creator.py), so in the source those exceptions escape it, which the model does not capture. The same holds for `PortraitCreator.FormatLlmResponse` and `SculptureCreator.FormatLlmResponse`.
- Reflect: in the source, the decoder exceptions other than `JSONDecodeError` reach the `except Exception` of `reflect_on_elements` (llm_portrait_creator.py:163-174) and give the `{error, details}` dict. The model returns the normalised reply instead. The same holds for `PortraitCreator.ReflectOnElements` and `SculptureCreator.ReflectOnElements` (llm_sculpture_creator.py:105), which go through `Reflect`.
- FinalPrompts: in the same way, those exceptions reach the `except Exception` of `generate_final_prompts` (llm_portrait_creator.py:198-211) and give `json.dumps({"error": str(e)})`. The model returns the serialised normalised reply instead. The same holds for `PortraitCreator.GenerateFinalPrompts`, `PortraitCreator.GenerateFinalPromptsOther` (llm_portrait_creator.py:247) and `SculptureCreator.GenerateFinalPrompts` (llm_sculpture_creator.py:142), which go through `FinalPrompts`.
- QuoteKeys: `\w` is ASCII letters, digits and `_`; Python's Unicode word characters (CJK included) are not modelled.
- ExtractKeyVariables: `re.IGNORECASE` is not modelled; headings match with exact case.
- FieldOf: the final `elif key in ["质料", "Medium"]` is modelled as the remaining case, which is the same for the table's eleven names.
- HandleHttpResponse: the exception messages are Python's wording for the error types; the traceback is not modelled.
- BracelessKeyRepaired: the repair follows the code. Text that already has outer braces is wrapped a second time and cannot parse, as `BracedTextNotRepaired` shows, although the repair is meant for exactly such replies.

## Findings

| source | as written | input that shows it | evidently intended | confidence | as-written member | corrected member |
|---|---|---|---|---|---|---|
| main.py:38-40 | `end = rfind('}') + 1` is never -1, so the `end != -1` guard always holds and a text with `{` but no `}` is cut to `json_str[start:0]` | `"{abc"` gives `""` | a text without `}` is returned unchanged, as the guard intends | not executed | MainApp.CleanJsonString, MainApp.CleanDropsUnclosedText | MainApp.CleanJsonStringIntended |
