/**
  The output-validation policy of the evaluation harness: loading a policy whose
  three fields fall back to defaults one key at a time, picking the JSON block out
  of a model response, and the three checks run on what was picked out (required
  keys, citations, forbidden words).

  Parsing YAML and JSON is not modelled: the parser is a function parameter that
  either yields a document value or fails.
*/
module OutputChecker {
  import opened Wrappers

  /** A parsed JSON or YAML value. `Null` is also Python's `None`. */
  datatype Json =
    | Null
    | Bool(b: bool)
    | Num(n: real)
    | Str(s: string)
    | Arr(items: seq<Json>)
    | Obj(fields: map<string, Json>)

  /** Python truthiness, as used by `x or {}` and `bool(x)`. */
  predicate Truthy(v: Json) {
    match v
    case Null => false
    case Bool(b) => b
    case Num(n) => n != 0.0
    case Str(s) => s != ""
    case Arr(items) => items != []
    case Obj(fields) => fields != map[]
  }

  /** `d.get(key, default)` on a dictionary. */
  function Get(d: map<string, Json>, key: string, default: Json): Json {
    if key in d then d[key] else default
  }

  // ---------------------------------------------------------------------------
  // Policy loading
  // ---------------------------------------------------------------------------

  /** A loaded policy. The fields hold whatever the document held: nothing checks their types. */
  datatype Policy = Policy(forbidden: Json, requireCitation: bool, jsonSchemaKeys: Json)

  /** The policy used when no policy file exists. */
  const DefaultPolicy: Policy := Policy(Arr([]), true, Arr([Str("answer"), Str("citations")]))

  /** Each field of `p` is taken from `d` when `d` has its key, and is the default otherwise. */
  predicate DefaultedFrom(d: map<string, Json>, p: Policy) {
    && ("forbidden" in d ==> p.forbidden == d["forbidden"])
    && ("forbidden" !in d ==> p.forbidden == Arr([]))
    && ("require_citation" in d ==> p.requireCitation == Truthy(d["require_citation"]))
    && ("require_citation" !in d ==> p.requireCitation)
    && ("json_schema_keys" in d ==> p.jsonSchemaKeys == d["json_schema_keys"])
    && ("json_schema_keys" !in d ==> p.jsonSchemaKeys == Arr([Str("answer"), Str("citations")]))
  }

  /**
    `load_policies`. `file` is the text of the policy file, or `None` when the path
    does not exist; `parseYaml` stands for `yaml.safe_load`. A falsy document is
    replaced by the empty dictionary; a truthy document that is not a dictionary
    has no `get` and raises.
  */
  function LoadPolicies(file: Option<string>, parseYaml: string -> Result<Json>): (r: Result<Policy>)
    ensures file.None? ==> r == Ok(DefaultPolicy)
    ensures file.Some? && parseYaml(file.value).Err? ==> r.Err?
    ensures file.Some? && parseYaml(file.value).Ok? ==>
      var doc := parseYaml(file.value).value;
      && (!Truthy(doc) ==> r == Ok(DefaultPolicy))
      && (Truthy(doc) && !doc.Obj? ==> r.Err?)
      && (doc.Obj? ==> r.Ok? && DefaultedFrom(doc.fields, r.value))
  {
    match file
    case None => Ok(DefaultPolicy)
    case Some(text) =>
      match parseYaml(text)
      case Err(e) => Err(e)
      case Ok(loaded) =>
        var data := if Truthy(loaded) then loaded else Obj(map[]);
        if !data.Obj? then
          Err("AttributeError: document has no attribute 'get'")
        else
          Ok(Policy(
            Get(data.fields, "forbidden", DefaultPolicy.forbidden),
            Truthy(Get(data.fields, "require_citation", Bool(DefaultPolicy.requireCitation))),
            Get(data.fields, "json_schema_keys", DefaultPolicy.jsonSchemaKeys)))
  }

  /** The fields are defaulted independently: two documents that agree on one key give that field the same value. */
  lemma FieldsDefaultIndependently(d1: map<string, Json>, d2: map<string, Json>, parseYaml: string -> Result<Json>, f1: string, f2: string)
    requires parseYaml(f1) == Ok(Obj(d1)) && parseYaml(f2) == Ok(Obj(d2))
    ensures var p1, p2 := LoadPolicies(Some(f1), parseYaml), LoadPolicies(Some(f2), parseYaml);
      && p1.Ok? && p2.Ok?
      && (("forbidden" in d1) == ("forbidden" in d2) && ("forbidden" in d1 ==> d1["forbidden"] == d2["forbidden"])
          ==> p1.value.forbidden == p2.value.forbidden)
      && (("require_citation" in d1) == ("require_citation" in d2)
          && ("require_citation" in d1 ==> d1["require_citation"] == d2["require_citation"])
          ==> p1.value.requireCitation == p2.value.requireCitation)
      && (("json_schema_keys" in d1) == ("json_schema_keys" in d2)
          && ("json_schema_keys" in d1 ==> d1["json_schema_keys"] == d2["json_schema_keys"])
          ==> p1.value.jsonSchemaKeys == p2.value.jsonSchemaKeys)
  {
  }

  // ---------------------------------------------------------------------------
  // Selecting the JSON block
  // ---------------------------------------------------------------------------

  /** The first index of `c` in `s`. */
  function IndexOf(s: string, c: char): (r: Option<nat>)
    ensures r.None? <==> c !in s
    ensures r.Some? ==> r.value < |s| && s[r.value] == c && forall k :: 0 <= k < r.value ==> s[k] != c
  {
    if s == [] then None
    else if s[0] == c then Some(0)
    else
      match IndexOf(s[1..], c)
      case None => None
      case Some(k) => Some(k + 1)
  }

  /** The last index of `c` in `s`. */
  function LastIndexOf(s: string, c: char): (r: Option<nat>)
    ensures r.None? <==> c !in s
    ensures r.Some? ==> r.value < |s| && s[r.value] == c && forall k :: r.value < k < |s| ==> s[k] != c
  {
    if s == [] then None
    else if s[|s| - 1] == c then Some(|s| - 1)
    else LastIndexOf(s[..|s| - 1], c)
  }

  /** Some `{` at `i` and `}` at `j` with `i < j`: a place where `\{.*\}` matches under `re.S`. */
  predicate BracePair(text: string, i: int, j: int) {
    0 <= i < j < |text| && text[i] == '{' && text[j] == '}'
  }

  /**
    The span `re.search(r"\{.*\}", text, flags=re.S)` matches, as inclusive indices:
    the search starts at the first `{`, and the greedy `.*` runs to the last `}`.
  */
  function BraceSpan(text: string): (r: Option<(nat, nat)>)
    ensures r.None? <==> !exists i, j :: BracePair(text, i, j)
    ensures r.Some? ==>
      && BracePair(text, r.value.0, r.value.1)
      && (forall k :: 0 <= k < r.value.0 ==> text[k] != '{')
      && (forall k :: r.value.1 < k < |text| ==> text[k] != '}')
  {
    assert forall a, b :: BracePair(text, a, b) ==> text[a] in text && text[b] in text;
    match (IndexOf(text, '{'), LastIndexOf(text, '}'))
    case (Some(i), Some(j)) =>
      assert forall a, b :: BracePair(text, a, b) ==> i <= a && b <= j;
      if i < j then
        assert BracePair(text, i, j);
        Some((i, j))
      else
        None
    case _ => None
  }

  /** The matched span is the leftmost match, and the longest one that starts there: it covers every other match. */
  lemma BraceSpanIsLeftmostLongest(text: string, i: int, j: int)
    requires BracePair(text, i, j)
    ensures BraceSpan(text).Some?
    ensures BraceSpan(text).value.0 <= i && j <= BraceSpan(text).value.1
  {
  }

  /** `m.group(0)`: the text of the matched span, if there is one. */
  function JsonBlock(text: string): (r: Option<string>)
    ensures r.None? <==> !exists i, j :: BracePair(text, i, j)
    ensures r.Some? ==>
      && 2 <= |r.value| && r.value[0] == '{' && r.value[|r.value| - 1] == '}'
      && exists i :: OccursAt(text, r.value, i)
    ensures r.Some? ==>
      exists i :: OccursAt(text, r.value, i) && '{' !in text[..i] && '}' !in text[i + |r.value|..]
  {
    match BraceSpan(text)
    case None => None
    case Some((i, j)) =>
      var block := text[i..j + 1];
      assert OccursAt(text, block, i);
      assert '{' !in text[..i] by {
        forall k | 0 <= k < i ensures text[..i][k] != '{' { }
      }
      assert '}' !in text[j + 1..] by {
        var rest := text[j + 1..];
        forall m | 0 <= m < |rest| ensures rest[m] != '}' {
          assert rest[m] == text[j + 1 + m];
        }
      }
      Some(block)
  }

  /**
    `extract_json_block`: the parse of the selected block, or `Null` (Python's `None`)
    when there is no block or `parseJson` (standing for `json.loads`) rejects it.
  */
  function ExtractJsonBlock(text: string, parseJson: string -> Result<Json>): (r: Json)
    ensures JsonBlock(text).None? ==> r == Null
    ensures JsonBlock(text).Some? && parseJson(JsonBlock(text).value).Err? ==> r == Null
    ensures r != Null ==> JsonBlock(text).Some? && parseJson(JsonBlock(text).value) == Ok(r)
    ensures JsonBlock(text).Some? && parseJson(JsonBlock(text).value).Ok? ==> r == parseJson(JsonBlock(text).value).value
  {
    match JsonBlock(text)
    case None => Null
    case Some(block) =>
      match parseJson(block)
      case Ok(v) => v
      case Err(_) => Null
  }

  /**
    A block written between prose that holds no `{` before it and no `}` after it is
    exactly what gets parsed, so an object the parser reads back is recovered.
  */
  lemma {:induction false} EmbeddedBlockRecovered(before: string, block: string, after: string, parseJson: string -> Result<Json>, v: Json)
    requires '{' !in before && '}' !in after
    requires 2 <= |block| && block[0] == '{' && block[|block| - 1] == '}'
    requires parseJson(block) == Ok(v)
    ensures JsonBlock(before + block + after) == Some(block)
    ensures ExtractJsonBlock(before + block + after, parseJson) == v
  {
    var text := before + block + after;
    var i, j := |before|, |before| + |block| - 1;
    assert text[i] == block[0] && text[j] == block[|block| - 1];
    assert BracePair(text, i, j);
    var span := BraceSpan(text).value;
    assert span.0 == i by {
      assert forall k :: 0 <= k < i ==> text[k] == before[k];
    }
    assert span.1 == j by {
      assert forall k :: j < k < |text| ==> text[k] == after[k - j - 1];
    }
    assert text[i..j + 1] == block;
  }

  // ---------------------------------------------------------------------------
  // The three checks
  // ---------------------------------------------------------------------------

  /** `all(k in fields for k in keys)`. */
  function AllKeysIn(keys: seq<string>, fields: map<string, Json>): (r: bool)
    ensures r <==> forall k :: k in keys ==> k in fields
  {
    if keys == [] then true
    else keys[0] in fields && AllKeysIn(keys[1..], fields)
  }

  /** `check_json_ok`: the payload is a dictionary that has every required key. */
  function CheckJsonOk(payload: Json, requiredKeys: seq<string>): (r: bool)
    ensures !payload.Obj? ==> !r
    ensures payload.Obj? ==> (r <==> forall k :: k in requiredKeys ==> k in payload.fields)
    ensures payload.Obj? && requiredKeys == [] ==> r
  {
    payload.Obj? && AllKeysIn(requiredKeys, payload.fields)
  }

  /** More keys in the payload, or fewer required keys, never turn a pass into a failure. */
  lemma CheckJsonOkMonotone(fields: map<string, Json>, more: map<string, Json>, keys: seq<string>, fewer: seq<string>)
    requires fields.Keys <= more.Keys
    requires forall k :: k in fewer ==> k in keys
    ensures CheckJsonOk(Obj(fields), keys) ==> CheckJsonOk(Obj(more), fewer)
  {
  }

  /** The needle occurs in the haystack at index `i`. */
  predicate OccursAt(haystack: string, needle: string, i: int) {
    0 <= i && i + |needle| <= |haystack| && haystack[i..i + |needle|] == needle
  }

  /** Python's `needle in haystack` on strings. */
  function Contains(haystack: string, needle: string): (r: bool)
    ensures r <==> exists i :: OccursAt(haystack, needle, i)
  {
    if needle <= haystack then
      assert OccursAt(haystack, needle, 0);
      true
    else if haystack == [] then
      false
    else
      if Contains(haystack[1..], needle) then
        var i :| OccursAt(haystack[1..], needle, i);
        OccursInTail(haystack, needle, i + 1);
        true
      else
        assert OccursAt(haystack, needle, 0) ==> needle <= haystack;
        forall i ensures !OccursAt(haystack, needle, i) {
          if i > 0 {
            OccursInTail(haystack, needle, i);
          }
        }
        false
  }

  /** An occurrence past the first character is an occurrence in the tail, one index earlier. */
  lemma OccursInTail(haystack: string, needle: string, i: int)
    requires haystack != [] && i > 0
    ensures OccursAt(haystack, needle, i) <==> OccursAt(haystack[1..], needle, i - 1)
  {
    if i + |needle| <= |haystack| {
      assert haystack[i..i + |needle|] == haystack[1..][i - 1..i - 1 + |needle|];
    }
  }

  /** `check_forbidden`: some forbidden word occurs in the text. */
  function CheckForbidden(text: string, words: seq<string>): (r: bool)
    ensures r <==> exists w :: w in words && Contains(text, w)
    ensures words == [] ==> !r
  {
    if words == [] then false
    else if Contains(text, words[0]) then
      assert words[0] in words;
      true
    else if CheckForbidden(text, words[1..]) then
      var w :| w in words[1..] && Contains(text, w);
      assert w in words;
      true
    else
      forall w | w in words ensures !Contains(text, w) {
        if w != words[0] {
          assert w in words[1..];
        }
      }
      false
  }

  /** An empty forbidden word occurs in every text. */
  lemma EmptyWordAlwaysForbidden(text: string, words: seq<string>)
    requires "" in words
    ensures CheckForbidden(text, words)
  {
    assert Contains(text, "");
  }

  /** Adding forbidden words never turns a violation into none. */
  lemma CheckForbiddenMonotone(text: string, words: seq<string>, more: seq<string>)
    requires forall w :: w in words ==> w in more
    ensures CheckForbidden(text, words) ==> CheckForbidden(text, more)
  {
  }

  /** The Korean marker for a source reference. */
  const CitationMarker: string := "출처"

  /** The English word for a citation, matched after lower-casing. */
  const CitationWord: string := "citation"

  /** Lower-casing of one character, for the ASCII letters. */
  function LowerChar(c: char): char {
    if 'A' <= c <= 'Z' then (c as int + 32) as char else c
  }

  /** `s.lower()`, for the ASCII letters. */
  function AsciiLower(s: string): (r: string)
    ensures |r| == |s|
    ensures forall i :: 0 <= i < |s| ==> r[i] == LowerChar(s[i])
  {
    seq(|s|, i requires 0 <= i < |s| => LowerChar(s[i]))
  }

  /** The characters of `text` from `i` spell "citation" in any mix of upper and lower case. */
  predicate CitationWordAt(text: string, i: int) {
    0 <= i && i + |CitationWord| <= |text| && AsciiLower(text[i..i + |CitationWord|]) == CitationWord
  }

  /**
    `check_citation`. For a dictionary: its `citations` entry is a non-empty list
    (a missing entry defaults to the empty list). For text: it holds the marker,
    or the word "citation" in any letter case. A list passes when it holds the
    marker as an element, since the marker test comes first and `or` stops there.
  */
  function CheckCitation(payloadOrText: Json): (r: bool)
    requires payloadOrText.Obj? || payloadOrText.Str? || (payloadOrText.Arr? && Str(CitationMarker) in payloadOrText.items)
    ensures payloadOrText.Obj? ==>
      (r <==> var f := payloadOrText.fields; "citations" in f && f["citations"].Arr? && f["citations"].items != [])
    ensures payloadOrText.Str? ==>
      (r <==> Contains(payloadOrText.s, CitationMarker) || exists i :: CitationWordAt(payloadOrText.s, i))
    ensures payloadOrText.Arr? ==> r
  {
    match payloadOrText
    case Obj(fields) =>
      var c := Get(fields, "citations", Arr([]));
      c.Arr? && |c.items| > 0
    case Str(text) =>
      CitationWordFound(text);
      Contains(text, CitationMarker) || Contains(AsciiLower(text), CitationWord)
    case Arr(items) => Str(CitationMarker) in items
  }

  /** Searching the lower-cased text for "citation" finds it exactly where the original spells it in any case. */
  lemma CitationWordFound(text: string)
    ensures Contains(AsciiLower(text), CitationWord) <==> exists i :: CitationWordAt(text, i)
  {
    var low := AsciiLower(text);
    if Contains(low, CitationWord) {
      var i :| OccursAt(low, CitationWord, i);
      LowerOfSlice(text, i, i + |CitationWord|);
      assert CitationWordAt(text, i);
    }
    if exists i :: CitationWordAt(text, i) {
      var i :| CitationWordAt(text, i);
      LowerOfSlice(text, i, i + |CitationWord|);
      assert OccursAt(low, CitationWord, i);
    }
  }

  /** Lower-casing commutes with taking a slice. */
  lemma LowerOfSlice(s: string, i: int, j: int)
    requires 0 <= i <= j <= |s|
    ensures AsciiLower(s)[i..j] == AsciiLower(s[i..j])
  {
    var a, b := AsciiLower(s)[i..j], AsciiLower(s[i..j]);
    forall k | 0 <= k < |a| ensures a[k] == b[k] {
      assert a[k] == AsciiLower(s)[i + k];
    }
  }

  /** A payload whose citation list is empty fails the citation check. */
  lemma EmptyCitationsFail(answer: string)
    ensures !CheckCitation(Obj(map["answer" := Str(answer), "citations" := Arr([])]))
  {
  }

  /** A response with no `{` at all yields no payload, and the payload then fails the key check. */
  lemma ProseWithoutBracesFailsKeyCheck(text: string, parseJson: string -> Result<Json>, requiredKeys: seq<string>)
    requires '{' !in text
    ensures ExtractJsonBlock(text, parseJson) == Null
    ensures !CheckJsonOk(ExtractJsonBlock(text, parseJson), requiredKeys)
  {
  }
}
