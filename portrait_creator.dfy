/** `PortraitCreator`: the settings record, the rendering of the user messages of its
    stages, its stages' results, and its own copy of `format_llm_response`.
    The LLM call is the parameter `llm`; the prose around each message's placeholders is
    the parameter `prose` (one more piece than there are placeholders). */
module PortraitCreator {
  import opened Wrappers
  import opened Text
  import opened Json
  import opened Normaliser
  import opened Prompting
  import opened Stages

  /** `PortraitSettings`; `cfg_scale` (a float) is not part of this model. */
  datatype PortraitSettings = PortraitSettings(
    concept: string,
    mainSubject: Option<string>,
    gender: Option<string>,
    age: Option<string>,
    ethnicity: Option<string>,
    hairStyle: Option<string>,
    expression: Option<string>,
    clothing: Option<string>,
    background: Option<string>,
    composition: Option<string>,
    lighting: Option<string>,
    additionalDetails: Option<string>,
    artStyle: Option<string>,
    negativePrompt: Option<string>,
    seed: Option<int>,
    size: Option<string>,
    steps: Option<int>,
    samples: Option<int>,
    modelType: Option<int>,
    stylePreset: Option<string>,
    useWeights: Option<bool>)

  /** The settings as built from a request that gives only the concept. */
  function DefaultSettings(concept: string): PortraitSettings {
    PortraitSettings(concept, None, None, None, None, None, None, None, None, None, None, None,
      None, None, Some(0), Some("1024x1024"), Some(40), Some(2), Some(2), None, Some(false))
  }

  /** The default of the subject placeholder. */
  const PortraitSubject := "肖像"

  /** The eleven descriptive settings, in the order the message lists them. */
  function Descriptive(s: PortraitSettings): seq<Option<string>> {
    [s.gender, s.age, s.ethnicity, s.hairStyle, s.expression, s.clothing, s.background,
     s.composition, s.lighting, s.additionalDetails, s.artStyle]
  }

  /** The values of the thirteen placeholders of the `generate_elements` message. */
  function ElementSlots(s: PortraitSettings): (r: seq<string>)
    ensures |r| == 13
    ensures r[0] == s.concept
    ensures Falsy(s.mainSubject) ==> r[1] == PortraitSubject
    ensures !Falsy(s.mainSubject) ==> r[1] == s.mainSubject.value
    ensures forall i :: 0 <= i < 11 ==>
      r[i + 2] == if Falsy(Descriptive(s)[i]) then Unspecified else Descriptive(s)[i].value
  {
    var d := Descriptive(s);
    [s.concept, OrDefault(s.mainSubject, PortraitSubject)]
      + seq(11, i requires 0 <= i < 11 => OrDefault(d[i], Unspecified))
  }

  /** The `generate_elements` user message. */
  function ElementsMessage(prose: seq<string>, s: PortraitSettings): string
    requires |prose| == 14
  {
    Fill(prose, ElementSlots(s))
  }

  /** In the rendered message the concept stands verbatim at its placeholder, the subject
      placeholder holds `mainSubject` or `肖像`, and every descriptive setting that is None
      or "" is written as `未指定`. */
  lemma ElementsMessageContents(prose: seq<string>, s: PortraitSettings)
    requires |prose| == 14
    ensures SlotHolds(prose, ElementSlots(s), 0, s.concept)
    ensures Falsy(s.mainSubject) ==> SlotHolds(prose, ElementSlots(s), 1, PortraitSubject)
    ensures forall i :: 0 <= i < 11 && Falsy(Descriptive(s)[i]) ==>
      SlotHolds(prose, ElementSlots(s), i + 2, Unspecified)
  {
    FillShowsSlots(prose, ElementSlots(s));
  }

  /** `generate_elements`: the reply to the rendered message, or the call's exception
      re-raised. */
  function GenerateElements(llm: Llm, prose: seq<string>, s: PortraitSettings): (r: Result<string>)
    requires |prose| == 14
    ensures r == Reraise(llm(ElementsMessage(prose, s)))
  {
    var o := llm(ElementsMessage(prose, s));
    if o.Ok? then Success(o.text) else Failure(o.msg)
  }

  // ---------------------------------------------------------------------------
  // The older message, which also lists the technical parameters

  /** The message `IndexError` carries when `size.split('x')[1]` does not exist. */
  const IndexOutOfRange := "list index out of range"

  /** The values of the twenty placeholders of the `generate_elements_old` message, in order:
      the thirteen of `ElementSlots`, then seed, width, height, steps, samples, model_type and
      style_preset. A non-empty size without an `x` raises `IndexError` while the f-string is
      evaluated. */
  function OldSlots(s: PortraitSettings): (r: Result<seq<string>>)
    ensures r.Failure? <==> !Falsy(s.size) && 'x' !in s.size.value
    ensures r.Failure? ==> r.error == IndexOutOfRange
    ensures r.Success? ==> |r.value| == 20 && r.value[..13] == ElementSlots(s)
    ensures r.Success? && (s.seed.None? || s.seed == Some(0)) ==> r.value[13] == Unspecified
    ensures r.Success? ==> r.value[13] == IntOrDefault(s.seed, Unspecified)
    ensures r.Success? ==>
      r.value[16..] == [IntOrDefault(s.steps, Unspecified), IntOrDefault(s.samples, Unspecified),
                        IntOrDefault(s.modelType, Unspecified), OrDefault(s.stylePreset, Unspecified)]
    ensures r.Success? && Falsy(s.size) ==> r.value[14] == Unspecified && r.value[15] == Unspecified
    ensures r.Success? && !Falsy(s.size) ==>
      && r.value[14] == s.size.value[..Find(s.size.value, 'x')]
      && r.value[15] == Split(s.size.value[Find(s.size.value, 'x') + 1..], 'x')[0]
      && 'x' !in r.value[14] && 'x' !in r.value[15]
  {
    if Falsy(s.size) then Success(ElementSlots(s) + ParamSlots(s, Unspecified, Unspecified))
    else
      var parts := Split(s.size.value, 'x');
      SplitHead(s.size.value, 'x');
      if |parts| < 2 then Failure(IndexOutOfRange)
      else Success(ElementSlots(s) + ParamSlots(s, parts[0], parts[1]))
  }

  /** The technical placeholders, given the width and height text. */
  function ParamSlots(s: PortraitSettings, width: string, height: string): seq<string> {
    [IntOrDefault(s.seed, Unspecified), width, height, IntOrDefault(s.steps, Unspecified),
     IntOrDefault(s.samples, Unspecified), IntOrDefault(s.modelType, Unspecified),
     OrDefault(s.stylePreset, Unspecified)]
  }

  /** `generate_elements_old`: the message fails to render for a size without `x`, and the
      call is then never made; otherwise as `generate_elements`. */
  function GenerateElementsOld(llm: Llm, prose: seq<string>, s: PortraitSettings): (r: Result<string>)
    requires |prose| == 21
    ensures OldSlots(s).Failure? ==> r == Failure(IndexOutOfRange)
    ensures OldSlots(s).Success? ==> r == Reraise(llm(Fill(prose, OldSlots(s).value)))
  {
    match OldSlots(s)
    case Failure(e) => Failure(e)
    case Success(slots) =>
      var o := llm(Fill(prose, slots));
      if o.Ok? then Success(o.text) else Failure(o.msg)
  }

  /** With the defaults (seed 0, size "1024x1024", steps 40, samples 2, model_type 2) the seed
      is written as `未指定`, because 0 is false in Python. */
  lemma DefaultOldSlots(concept: string)
    ensures OldSlots(DefaultSettings(concept)).Success?
    ensures OldSlots(DefaultSettings(concept)).value[13..] ==
      [Unspecified, "1024", "1024", "40", "2", "2", Unspecified]
  {
    var s := DefaultSettings(concept);
    DefaultSizeSplit();
    OldSlotsSized(s, "1024x1024");
    DefaultParamSlots(concept);
    var p := ParamSlots(s, "1024", "1024");
    assert (ElementSlots(s) + p)[13..] == p;
  }

  /** For a size that splits into at least two parts, the slots are the element slots followed
      by the technical ones, with the first two parts as width and height. */
  lemma OldSlotsSized(s: PortraitSettings, size: string)
    requires s.size == Some(size) && |Split(size, 'x')| >= 2 && size != ""
    ensures OldSlots(s) ==
      Success(ElementSlots(s) + ParamSlots(s, Split(size, 'x')[0], Split(size, 'x')[1]))
  {
  }

  /** The technical placeholders of the default settings for a "1024x1024" size. */
  lemma DefaultParamSlots(concept: string)
    ensures ParamSlots(DefaultSettings(concept), "1024", "1024") ==
      [Unspecified, "1024", "1024", "40", "2", "2", Unspecified]
  {
    var s := DefaultSettings(concept);
    assert s.seed == Some(0) && s.stylePreset.None?;
    assert s.steps == Some(40) && s.samples == Some(2) && s.modelType == Some(2);
    DefaultDecimals();
    assert IntOrDefault(s.steps, Unspecified) == "40";
    assert IntOrDefault(s.samples, Unspecified) == "2";
  }

  /** `str(40)` and `str(2)`. */
  lemma DefaultDecimals()
    ensures NatToDecimal(40) == "40" && NatToDecimal(2) == "2"
  {
    assert NatToDecimal(4) == "4";
    assert NatToDecimal(0) == "0";
  }

  /** `"1024x1024".split('x')`. */
  lemma DefaultSizeSplit()
    ensures Split("1024x1024", 'x') == ["1024", "1024"]
  {
    assert "1024x1024" == "1024" + ['x'] + "1024";
    SplitTwo("1024", "1024", 'x');
  }

  // ---------------------------------------------------------------------------
  // The later stages

  /** `reflect_on_elements`: the user message holds the concept and the elements text. */
  function ReflectOnElements(llm: Llm, loads: Loads, prose: seq<string>, concept: string,
                             elements: string): (r: Json)
    requires |prose| == 3
    ensures r == Reflect(loads, llm(Fill(prose, [concept, elements])))
  {
    var o := llm(Fill(prose, [concept, elements]));
    if o.Ok? then FormatLlmResponse(loads, o.text) else ErrorDetails(o.msg)
  }

  /** `generate_final_prompts`: the user message holds the elements text. */
  function GenerateFinalPrompts(llm: Llm, loads: Loads, prose: seq<string>, elements: string): (r: string)
    requires |prose| == 2
    ensures r == FinalPrompts(loads, llm(Fill(prose, [elements])))
  {
    var o := llm(Fill(prose, [elements]));
    if o.Ok? then Dump(FormatLlmResponse(loads, o.text)) else Dump(JObject([("error", JString(o.msg))]))
  }

  /** `generate_final_prompts_other`: the same policy with a different message. */
  function GenerateFinalPromptsOther(llm: Llm, loads: Loads, prose: seq<string>, elements: string): (r: string)
    requires |prose| == 2
    ensures r == FinalPrompts(loads, llm(Fill(prose, [elements])))
  {
    var o := llm(Fill(prose, [elements]));
    if o.Ok? then Dump(FormatLlmResponse(loads, o.text)) else Dump(JObject([("error", JString(o.msg))]))
  }

  // ---------------------------------------------------------------------------
  // This class's copy of the normaliser

  /** `format_llm_response` as this class writes it: two substitutions rebinding the text,
      then three guarded parse attempts and the raw fallback. It is the normaliser. */
  function FormatLlmResponse(loads: Loads, response: string): (r: Json)
    ensures r == Normalise(loads, response)
  {
    var response := StripClosingFences(StripOpeningFences(response));
    ChainSteps(loads, response);
    if loads(response).Some? then Remap(loads(response).value)
    else
      var m := GreedyBraceSpan(response);
      if m.Some? && loads(m.value).Some? then Remap(loads(m.value).value)
      else
        var cleaned := QuoteKeys(response);
        var cleaned := ReplaceChar(cleaned, '\'', '"');
        var wrapped := "{" + cleaned + "}";
        if loads(wrapped).Some? then Remap(loads(wrapped).value)
        else JObject([("raw", JString(response))])
  }
}
