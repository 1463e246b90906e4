/** Rendering of the f-string user messages: fixed prose with the settings' values put in
    its placeholders. The prose itself is a parameter (the model does not carry the template
    text); what is modelled is which value lands in which placeholder, and Python's
    `x or default` for values that are missing or falsy. */
module Prompting {
  import opened Wrappers
  import opened Text

  /** The marker written for a setting that is not given. */
  const Unspecified := "未指定"

  /** Python truthiness of an optional str: None and "" are false. */
  predicate Falsy(x: Option<string>) {
    x.None? || x.value == []
  }

  /** `x or default` for an optional str. */
  function OrDefault(x: Option<string>, default: string): (r: string)
    ensures Falsy(x) ==> r == default
    ensures !Falsy(x) ==> r == x.value
  {
    if Falsy(x) then default else x.value
  }

  /** `x or default` for an optional int inside an f-string: None and 0 are false, any
      other number is written as `str(x)`. */
  function IntOrDefault(x: Option<int>, default: string): (r: string)
    ensures (x.None? || x.value == 0) ==> r == default
    ensures x.Some? && x.value != 0 ==> r == IntToDecimal(x.value)
  {
    if x.None? || x.value == 0 then default else IntToDecimal(x.value)
  }

  /** An f-string: `prose[0]`, then `slots[0]`, then `prose[1]`, and so on, ending with
      the last piece of prose. */
  function Fill(prose: seq<string>, slots: seq<string>): string
    requires |prose| == |slots| + 1
  {
    if |slots| == 0 then prose[0]
    else prose[0] + slots[0] + Fill(prose[1..], slots[1..])
  }

  /** Where placeholder `i` starts in the rendered text: the length of everything before it. */
  function SlotOffset(prose: seq<string>, slots: seq<string>, i: nat): nat
    requires |prose| == |slots| + 1 && i < |slots|
  {
    if i == 0 then |prose[0]|
    else |prose[0]| + |slots[0]| + SlotOffset(prose[1..], slots[1..], i - 1)
  }

  /** Every value appears verbatim in the rendered text, at its placeholder's offset. */
  lemma {:induction false} SlotAt(prose: seq<string>, slots: seq<string>, i: nat)
    requires |prose| == |slots| + 1 && i < |slots|
    ensures SlotOffset(prose, slots, i) + |slots[i]| <= |Fill(prose, slots)|
    ensures Fill(prose, slots)[SlotOffset(prose, slots, i)..SlotOffset(prose, slots, i) + |slots[i]|]
      == slots[i]
  {
    var rest := Fill(prose[1..], slots[1..]);
    var head := prose[0] + slots[0];
    assert Fill(prose, slots) == head + rest;
    if i > 0 {
      SlotAt(prose[1..], slots[1..], i - 1);
      var o := SlotOffset(prose[1..], slots[1..], i - 1);
      SliceAfter(head, rest, o, o + |slots[i]|);
    } else {
      ConcatAssoc(prose[0], slots[0], rest);
      SliceAfter(prose[0], slots[0] + rest, 0, |slots[0]|);
      SliceConcat(slots[0], rest, |slots[0]|);
    }
  }

  /** Value `v` stands at placeholder `i` of the rendered text. */
  predicate SlotHolds(prose: seq<string>, slots: seq<string>, i: nat, v: string)
    requires |prose| == |slots| + 1
  {
    && i < |slots|
    && SlotOffset(prose, slots, i) + |v| <= |Fill(prose, slots)|
    && Fill(prose, slots)[SlotOffset(prose, slots, i)..SlotOffset(prose, slots, i) + |v|] == v
  }

  /** Every placeholder of the rendered text holds its value. */
  lemma FillShowsSlots(prose: seq<string>, slots: seq<string>)
    requires |prose| == |slots| + 1
    ensures forall i :: 0 <= i < |slots| ==> SlotHolds(prose, slots, i, slots[i])
  {
    forall i | 0 <= i < |slots| ensures SlotHolds(prose, slots, i, slots[i]) {
      SlotAt(prose, slots, i);
    }
  }

  /** The rendered text is exactly as long as its prose and values together. */
  lemma {:induction false} FillLength(prose: seq<string>, slots: seq<string>)
    requires |prose| == |slots| + 1
    ensures |Fill(prose, slots)| == TotalLength(prose) + TotalLength(slots)
  {
    if |slots| > 0 {
      FillLength(prose[1..], slots[1..]);
    }
  }

  function TotalLength(parts: seq<string>): nat {
    if |parts| == 0 then 0 else |parts[0]| + TotalLength(parts[1..])
  }
}
