/** `SculptureCreator`: the settings record, the rendering of the `generate_elements`
    message, its stages' results, and its own copy of `format_llm_response`.
    As in `PortraitCreator`, the LLM call is `llm` and the message prose is `prose`. */
module SculptureCreator {
  import opened Wrappers
  import opened Text
  import opened Json
  import opened Normaliser
  import opened Prompting
  import opened Stages

  /** `SculptureSettings`; `cfg_scale` (a float) is not part of this model. */
  datatype SculptureSettings = SculptureSettings(
    concept: string,
    mainSubject: Option<string>,
    material: Option<string>,
    size: Option<string>,
    style: Option<string>,
    texture: Option<string>,
    baseOrPedestal: Option<string>,
    installationEnvironment: Option<string>,
    additionalDetails: Option<string>,
    negativePrompt: Option<string>,
    seed: Option<int>,
    steps: Option<int>,
    samples: Option<int>,
    modelType: Option<int>)

  /** The settings as built from a request that gives only the concept. */
  function DefaultSettings(concept: string): SculptureSettings {
    SculptureSettings(concept, None, None, None, None, None, None, None, None, None,
      Some(-1), Some(40), Some(2), Some(2))
  }

  /** The default of the subject placeholder. */
  const SculptureSubject := "雕塑"

  /** The seven descriptive settings, in the order the message lists them. */
  function Descriptive(s: SculptureSettings): seq<Option<string>> {
    [s.material, s.size, s.style, s.texture, s.baseOrPedestal, s.installationEnvironment,
     s.additionalDetails]
  }

  /** The values of the nine placeholders of the `generate_elements` message. */
  function ElementSlots(s: SculptureSettings): (r: seq<string>)
    ensures |r| == 9
    ensures r[0] == s.concept
    ensures Falsy(s.mainSubject) ==> r[1] == SculptureSubject
    ensures !Falsy(s.mainSubject) ==> r[1] == s.mainSubject.value
    ensures forall i :: 0 <= i < 7 ==>
      r[i + 2] == if Falsy(Descriptive(s)[i]) then Unspecified else Descriptive(s)[i].value
  {
    var d := Descriptive(s);
    [s.concept, OrDefault(s.mainSubject, SculptureSubject)]
      + seq(7, i requires 0 <= i < 7 => OrDefault(d[i], Unspecified))
  }

  /** The `generate_elements` user message. */
  function ElementsMessage(prose: seq<string>, s: SculptureSettings): string
    requires |prose| == 10
  {
    Fill(prose, ElementSlots(s))
  }

  /** In the rendered message the concept stands verbatim at its placeholder, the subject
      placeholder holds `mainSubject` or `雕塑`, and every descriptive setting that is None
      or "" is written as `未指定`. */
  lemma ElementsMessageContents(prose: seq<string>, s: SculptureSettings)
    requires |prose| == 10
    ensures SlotHolds(prose, ElementSlots(s), 0, s.concept)
    ensures Falsy(s.mainSubject) ==> SlotHolds(prose, ElementSlots(s), 1, SculptureSubject)
    ensures forall i :: 0 <= i < 7 && Falsy(Descriptive(s)[i]) ==>
      SlotHolds(prose, ElementSlots(s), i + 2, Unspecified)
  {
    FillShowsSlots(prose, ElementSlots(s));
  }

  /** `generate_elements`: the reply to the rendered message, or the call's exception
      re-raised. */
  function GenerateElements(llm: Llm, prose: seq<string>, s: SculptureSettings): (r: Result<string>)
    requires |prose| == 10
    ensures r == Reraise(llm(ElementsMessage(prose, s)))
  {
    var o := llm(ElementsMessage(prose, s));
    if o.Ok? then Success(o.text) else Failure(o.msg)
  }

  /** `reflect_on_elements`: the user message holds the concept and the elements text. The
      sculpture class repeats the portrait class's method text (llm_sculpture_creator.py:68-107),
      so this member repeats `PortraitCreator.ReflectOnElements` on purpose. */
  function ReflectOnElements(llm: Llm, loads: Loads, prose: seq<string>, concept: string,
                             elements: string): (r: Json)
    requires |prose| == 3
    ensures r == Reflect(loads, llm(Fill(prose, [concept, elements])))
  {
    var o := llm(Fill(prose, [concept, elements]));
    if o.Ok? then FormatLlmResponse(loads, o.text) else ErrorDetails(o.msg)
  }

  /** `generate_final_prompts`: the user message holds the elements text. */
  function GenerateFinalPrompts(llm: Llm, loads: Loads, prose: seq<string>, elements: string): (r: string)
    requires |prose| == 2
    ensures r == FinalPrompts(loads, llm(Fill(prose, [elements])))
  {
    var o := llm(Fill(prose, [elements]));
    if o.Ok? then Dump(FormatLlmResponse(loads, o.text)) else Dump(JObject([("error", JString(o.msg))]))
  }

  /** `format_llm_response` as this class writes it. The sculpture class repeats the
      portrait class's method text line for line, so this member repeats
      `PortraitCreator.FormatLlmResponse` on purpose; both are the normaliser. */
  function FormatLlmResponse(loads: Loads, response: string): (r: Json)
    ensures r == Normalise(loads, response)
  {
    var response := StripClosingFences(StripOpeningFences(response));
    ChainSteps(loads, response);
    if loads(response).Some? then Remap(loads(response).value)
    else
      var m := GreedyBraceSpan(response);
      if m.Some? && loads(m.value).Some? then Remap(loads(m.value).value)
      else
        var cleaned := QuoteKeys(response);
        var cleaned := ReplaceChar(cleaned, '\'', '"');
        var wrapped := "{" + cleaned + "}";
        if loads(wrapped).Some? then Remap(loads(wrapped).value)
        else JObject([("raw", JString(response))])
  }
}
