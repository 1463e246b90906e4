/** JSON values as Python's `json` module builds them, Python's `json.dumps` with its
    default settings, and the facts of RFC 8259 about `json.loads` that the normaliser
    relies on. `json.loads` itself is a parameter `loads` of every function that parses:
    the model never decodes JSON on its own. */
module Json {
  import opened Wrappers
  import opened Text

  /** A value returned by `json.loads`: None, bool, int, str, list or dict.
      A dict keeps its keys in insertion order. */
  datatype Json =
    | JNull
    | JBool(b: bool)
    | JNumber(n: int)
    | JString(s: string)
    | JArray(items: seq<Json>)
    | JObject(members: seq<(string, Json)>)

  /** `json.loads`, seen as a partial function: None is a `JSONDecodeError`. */
  type Loads = string -> Option<Json>

  /** The four whitespace characters of RFC 8259, section 2. */
  predicate IsJsonSpace(c: char) {
    c == ' ' || c == '\t' || c == '\n' || c == '\r'
  }

  /** The first character of `s` that is not JSON whitespace. */
  function LeadingChar(s: string): (r: Option<char>)
    ensures r.Some? ==> r.value in s && !IsJsonSpace(r.value)
    ensures r.None? ==> forall k :: 0 <= k < |s| ==> IsJsonSpace(s[k])
  {
    if |s| == 0 then None
    else if IsJsonSpace(s[0]) then LeadingChar(s[1..])
    else Some(s[0])
  }

  /** Where the leading character of `s` sits: after a run of JSON whitespace. */
  function LeadingIndex(s: string): (k: nat)
    requires LeadingChar(s).Some?
    ensures k < |s| && s[k] == LeadingChar(s).value
    ensures forall j :: 0 <= j < k ==> IsJsonSpace(s[j])
  {
    if IsJsonSpace(s[0]) then LeadingIndex(s[1..]) + 1 else 0
  }

  /** The text after the leading character of `s` (empty when there is none). */
  function AfterLeading(s: string): (r: string)
    ensures |r| < |s| || r == []
    ensures LeadingChar(s).None? ==> r == []
    ensures LeadingChar(s).Some? ==> r == s[LeadingIndex(s) + 1..]
  {
    if |s| == 0 then []
    else if IsJsonSpace(s[0]) then
      var r := AfterLeading(s[1..]);
      assert LeadingChar(s).Some? ==> r == s[LeadingIndex(s) + 1..] by {
        if LeadingChar(s).Some? {
          assert s[1..][LeadingIndex(s[1..]) + 1..] == s[LeadingIndex(s) + 1..];
        }
      }
      r
    else s[1..]
  }

  /** `s` opens an object, but what follows the `{` is neither a member name
      (a string, so `"`) nor the `}` of an empty object. */
  predicate OpensObjectWithoutName(s: string) {
    LeadingChar(s) == Some('{')
    && LeadingChar(AfterLeading(s)) != Some('"')
    && LeadingChar(AfterLeading(s)) != Some('}')
  }

  /** What the proofs need to know about `json.loads`. Both facts are RFC 8259, section 4
      (an object is `{`, then either `}` or a string member name), and Python's decoder
      follows them: a text led by `{` decodes to a dict, and
      "Expecting property name enclosed in double quotes" is raised otherwise. */
  ghost predicate LoadsContract(loads: Loads) {
    && (forall s :: LeadingChar(s) == Some('{') && loads(s).Some? ==> loads(s).value.JObject?)
    && (forall s :: OpensObjectWithoutName(s) ==> loads(s).None?)
  }

  /** Python's `key in d` for a dict. */
  predicate HasKey(members: seq<(string, Json)>, key: string) {
    exists i :: 0 <= i < |members| && members[i].0 == key
  }

  /** Python's `d.get(key, default)`. */
  function Get(members: seq<(string, Json)>, key: string, default: Json): (r: Json)
    ensures !HasKey(members, key) ==> r == default
    ensures HasKey(members, key) ==> exists i :: 0 <= i < |members| && members[i] == (key, r)
  {
    if |members| == 0 then default
    else if members[0].0 == key then members[0].1
    else
      var r := Get(members[1..], key, default);
      assert HasKey(members, key) ==> HasKey(members[1..], key);
      assert HasKey(members[1..], key) ==> HasKey(members, key);
      r
  }

  /** The keys of a dict, in order. */
  function Keys(members: seq<(string, Json)>): (ks: seq<string>)
    ensures |ks| == |members|
    ensures forall i :: 0 <= i < |members| ==> ks[i] == members[i].0
  {
    if |members| == 0 then [] else [members[0].0] + Keys(members[1..])
  }

  // ---------------------------------------------------------------------------
  // json.dumps with its defaults: ensure_ascii=True, separators ", " and ": ".

  predicate IsPrintableAscii(s: string) {
    forall k :: 0 <= k < |s| ==> ' ' <= s[k] <= '~'
  }

  lemma PrintableConcat(a: string, b: string)
    requires IsPrintableAscii(a) && IsPrintableAscii(b)
    ensures IsPrintableAscii(a + b)
  {
    assert forall k :: 0 <= k < |a + b| ==> (a + b)[k] == if k < |a| then a[k] else b[k - |a|];
  }

  function HexDigit(d: nat): (c: char)
    requires d < 16
    ensures ('0' <= c <= '9') || ('a' <= c <= 'f')
  {
    "0123456789abcdef"[d]
  }

  /** Four lower-case hex digits, as `'{0:04x}'.format(n)`. */
  function Hex4(n: nat): (r: string)
    requires n < 0x10000
    ensures |r| == 4 && IsPrintableAscii(r)
  {
    [HexDigit(n / 0x1000), HexDigit(n / 0x100 % 16), HexDigit(n / 16 % 16), HexDigit(n % 16)]
  }

  /** One character of a string literal as `json.dumps` writes it: the two-letter escapes,
      `\u00XX` for other control characters, and `\uXXXX` (a surrogate pair beyond the
      basic plane) for everything outside printable ASCII. */
  function EscapeChar(c: char): (r: string)
    ensures IsPrintableAscii(r)
    ensures ' ' <= c <= '~' && c != '"' && c != '\\' ==> r == [c]
  {
    var n := c as int;
    if c == '"' then "\\\""
    else if c == '\\' then "\\\\"
    else if c == '\n' then "\\n"
    else if c == '\r' then "\\r"
    else if c == '\t' then "\\t"
    else if n == 0x08 then "\\b"
    else if n == 0x0C then "\\f"
    else if ' ' <= c <= '~' then [c]
    else if n < 0x10000 then "\\u" + Hex4(n)
    else
      var v := n - 0x10000;
      "\\u" + Hex4(0xD800 + v / 0x400) + "\\u" + Hex4(0xDC00 + v % 0x400)
  }

  function Escape(s: string): (r: string)
    ensures IsPrintableAscii(r)
  {
    if |s| == 0 then [] else
      var r := EscapeChar(s[0]) + Escape(s[1..]);
      PrintableConcat(EscapeChar(s[0]), Escape(s[1..]));
      r
  }

  /** A str as a JSON string literal. */
  function Quote(s: string): (r: string)
    ensures |r| >= 2 && r[0] == '"' && r[|r| - 1] == '"'
    ensures IsPrintableAscii(r)
  {
    PrintableConcat("\"", Escape(s));
    PrintableConcat("\"" + Escape(s), "\"");
    "\"" + Escape(s) + "\""
  }

  /** `json.dumps(j)`: never empty, its first character tells the kind of value, and a
      string, list or dict closes with the character that matches its opening one. */
  function Dump(j: Json): (r: string)
    ensures |r| > 0
    ensures j.JObject? <==> r[0] == '{'
    ensures j.JArray? <==> r[0] == '['
    ensures j.JString? <==> r[0] == '"'
    ensures j.JNumber? <==> r[0] == '-' || '0' <= r[0] <= '9'
    ensures j.JObject? ==> r[|r| - 1] == '}'
    ensures j.JArray? ==> r[|r| - 1] == ']'
    ensures j.JString? ==> r[|r| - 1] == '"'
    decreases j, 1
  {
    match j
    case JNull => "null"
    case JBool(b) => if b then "true" else "false"
    case JNumber(n) => IntToDecimal(n)
    case JString(s) => Quote(s)
    case JArray(items) => "[" + DumpItems(j, 0) + "]"
    case JObject(members) => "{" + DumpMembers(j, 0) + "}"
  }

  /** The items of the list `j` from index `from` on, separated by ", ". */
  function DumpItems(j: Json, from: nat): string
    requires j.JArray?
    decreases j, 0, |j.items| - from
  {
    if from >= |j.items| then []
    else
      var head := Dump(j.items[from]);
      if from + 1 == |j.items| then head else head + ", " + DumpItems(j, from + 1)
  }

  /** The members of the dict `j` from index `from` on, as `"key": value`, separated by ", ". */
  function DumpMembers(j: Json, from: nat): string
    requires j.JObject?
    decreases j, 0, |j.members| - from
  {
    if from >= |j.members| then []
    else
      var m := j.members[from];
      var head := Quote(m.0) + ": " + Dump(m.1);
      if from + 1 == |j.members| then head else head + ", " + DumpMembers(j, from + 1)
  }

  /** `json.dumps` output is printable ASCII (the default `ensure_ascii=True`). */
  lemma {:induction false} DumpIsAscii(j: Json)
    ensures IsPrintableAscii(Dump(j))
    decreases j, 1
  {
    match j
    case JNull =>
    case JBool(b) =>
    case JNumber(n) =>
      var d := NatToDecimal(if n < 0 then -n else n);
      PrintableConcat("-", d);
    case JString(s) =>
    case JArray(items) =>
      DumpItemsAscii(j, 0);
      PrintableConcat("[", DumpItems(j, 0));
      PrintableConcat("[" + DumpItems(j, 0), "]");
    case JObject(members) =>
      DumpMembersAscii(j, 0);
      PrintableConcat("{", DumpMembers(j, 0));
      PrintableConcat("{" + DumpMembers(j, 0), "}");
  }

  lemma {:induction false} DumpItemsAscii(j: Json, from: nat)
    requires j.JArray?
    ensures IsPrintableAscii(DumpItems(j, from))
    decreases j, 0, |j.items| - from
  {
    if from < |j.items| {
      DumpIsAscii(j.items[from]);
      if from + 1 < |j.items| {
        DumpItemsAscii(j, from + 1);
        PrintableConcat(Dump(j.items[from]), ", ");
        PrintableConcat(Dump(j.items[from]) + ", ", DumpItems(j, from + 1));
      }
    }
  }

  lemma {:induction false} DumpMembersAscii(j: Json, from: nat)
    requires j.JObject?
    ensures IsPrintableAscii(DumpMembers(j, from))
    decreases j, 0, |j.members| - from
  {
    if from < |j.members| {
      var m := j.members[from];
      DumpIsAscii(m.1);
      PrintableConcat(Quote(m.0), ": ");
      PrintableConcat(Quote(m.0) + ": ", Dump(m.1));
      if from + 1 < |j.members| {
        DumpMembersAscii(j, from + 1);
        var head := Quote(m.0) + ": " + Dump(m.1);
        PrintableConcat(head, ", ");
        PrintableConcat(head + ", ", DumpMembers(j, from + 1));
      }
    }
  }

  /** A one-member dict with a str value serialises as `{"key": "value"}`. */
  lemma DumpSingleton(key: string, value: string)
    ensures Dump(JObject([(key, JString(value))])) == "{" + Quote(key) + ": " + Quote(value) + "}"
  {
    var v := JString(value);
    var j := JObject([(key, v)]);
    assert Dump(v) == Quote(value);
    assert j.members[0] == (key, v) && |j.members| == 1;
    assert DumpMembers(j, 0) == Quote(key) + ": " + Dump(v);
    assert Dump(j) == "{" + DumpMembers(j, 0) + "}";
  }
}
