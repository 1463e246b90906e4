/** How each stage of a creator turns the outcome of its LLM call into its own result.
    The call (`LLMBase.call_llm`, an HTTP request) is a parameter: for the rendered user
    message it either returns the reply text or raises an exception whose `str(e)` is
    `msg`. Both creator classes follow the same three policies. */
module Stages {
  import opened Wrappers
  import opened Json
  import opened Normaliser

  datatype LlmOutcome = Ok(text: string) | Err(msg: string)

  /** `await self.call_llm(messages)` for the rendered user message. */
  type Llm = string -> LlmOutcome

  /** The message `reflect_on_elements` reports when anything in its try block raises. */
  const UnknownError := "处理过程中出现未知错误"

  /** `generate_elements`: the reply is returned as it is, and an exception from the call
      is re-raised with its message unchanged. */
  function Reraise(o: LlmOutcome): (r: Result<string>)
    ensures r.Success? <==> o.Ok?
    ensures o.Ok? ==> r.value == o.text
    ensures o.Err? ==> r.error == o.msg
  {
    match o
    case Ok(text) => Success(text)
    case Err(msg) => Failure(msg)
  }

  /** The dict `reflect_on_elements` returns for a failure. */
  function ErrorDetails(msg: string): Json {
    JObject([("error", JString(UnknownError)), ("details", JString(msg))])
  }

  /** `reflect_on_elements`: the normalised reply, or the error/details dict when the call
      fails. */
  function Reflect(loads: Loads, o: LlmOutcome): (r: Json)
    ensures o.Ok? ==> r == Normalise(loads, o.text)
    ensures o.Err? ==>
      && r.JObject? && Keys(r.members) == ["error", "details"]
      && r.members[0].1 == JString(UnknownError) && r.members[1].1 == JString(o.msg)
  {
    match o
    case Ok(text) => Normalise(loads, text)
    case Err(msg) =>
      var r := ErrorDetails(msg);
      assert Keys(r.members) == ["error"] + Keys(r.members[1..]);
      r
  }

  /** `generate_final_prompts`: `json.dumps` of the normalised reply, or of
      `{"error": msg}` when the call fails. */
  function FinalPrompts(loads: Loads, o: LlmOutcome): (r: string)
    ensures o.Ok? ==> r == Dump(Normalise(loads, o.text))
    ensures o.Err? ==> r == "{" + Quote("error") + ": " + Quote(o.msg) + "}"
    ensures IsPrintableAscii(r)
  {
    match o
    case Ok(text) =>
      DumpIsAscii(Normalise(loads, text));
      Dump(Normalise(loads, text))
    case Err(msg) =>
      DumpSingleton("error", msg);
      DumpIsAscii(JObject([("error", JString(msg))]));
      Dump(JObject([("error", JString(msg))]))
  }

  /** The final stage returns valid output for the marker case: when the reply parses to a
      dict with a prompt marker, the serialised result is a two-member `{"en": .., "zh": ..}`
      object. */
  lemma FinalPromptsOfMarker(loads: Loads, text: string, v: Json)
    requires loads(StripFences(text)) == Some(v) && HasMarker(v)
    ensures FinalPrompts(loads, Ok(text)) == Dump(Remap(v))
    ensures Remap(v).JObject? && Keys(Remap(v).members) == ["en", "zh"]
  {
    WholeTextParsed(loads, text, v);
  }
}
