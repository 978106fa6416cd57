/**
 * The minimum-viable-graph service: the language model's reply is freed of a Markdown code
 * fence, decoded as JSON, and each step of its "path" becomes a node, linked to an existing
 * concept of the domain when one has the same name ignoring case.
 */
module MinimumViableGraph {
  import opened Wrappers
  import opened Strings
  import opened Concepts

  /** A decoded JSON value. */
  datatype Json =
    | JNull
    | JBool(b: bool)
    | JNumber(n: int)
    | JString(str: string)
    | JArray(items: seq<Json>)
    | JObject(fields: map<string, Json>)

  /** `json.loads`: the text to a value, or the decoder's message. */
  type JsonDecoder = string -> Result<Json, string>

  /** `ConceptRepository.get_by_domain`: the concepts of a domain, or `None` when the call raises. */
  type DomainQuery = string -> Option<seq<Concept>>

  /** A step of the path. The fields hold whatever JSON the reply gave; the defaults are `""` and false. */
  datatype MvgNode = MvgNode(name: Json, description: Json, isAxiom: Json, conceptId: Option<string>)

  datatype MvgResult = MvgResult(target: string, domain: string, path: seq<MvgNode>, explanation: Json)

  /** The exceptions `generate` lets escape. */
  datatype MvgError =
    | ValueError(message: string)      // the reply is not JSON
    | AttributeError(message: string)  // the reply is JSON but not an object
    | TypeError(message: string)       // "path" or one of its steps has the wrong shape
    | KeyError(key: string)            // a step without "name"

  const ParseErrorPrefix: string := "Failed to parse LLM response as JSON: "

  // ---------------------------------------------------------------------------
  // Code fences

  /**
   * What the opening pattern `^```(?:json)?\n?` matches: `t` is three backticks, then
   * `tag` (empty or "json", taken whenever it is there), then `nl` (empty or a newline,
   * taken whenever it is there), then the rest `r`.
   */
  predicate OpeningFenceMatch(t: string, tag: string, nl: string, r: string) {
    (tag == "" || tag == "json") && (nl == "" || nl == "\n") && t == "```" + tag + nl + r
    && (tag == "" ==> !StartsWith(t[3..], "json"))
    && (nl == "" ==> !StartsWith(t[3 + |tag|..], "\n"))
  }

  /** What the closing pattern `\n?```$` removes: `t` is `r`, then `nl`, then three backticks, and `nl` is taken whenever it is there. */
  predicate ClosingFenceMatch(t: string, nl: string, r: string) {
    (nl == "" || nl == "\n") && t == r + nl + "```" && (nl == "" ==> !EndsWith(r, "\n"))
  }

  /** `re.sub(r"^```(?:json)?\n?", "", t)`: the pattern is anchored, so at most one match. */
  function RemoveOpeningFence(t: string): (r: string)
    ensures StartsWith(t, "```") ==> |r| < |t| && r == t[|t| - |r|..] && |t| - |r| <= 8
    ensures StartsWith(t, "```") ==> exists tag, nl :: OpeningFenceMatch(t, tag, nl, r)
    ensures !StartsWith(t, "```") ==> r == t
  {
    if !StartsWith(t, "```") then t
    else
      var tag := if StartsWith(t[3..], "json") then "json" else "";
      var afterTag := t[3 + |tag|..];
      var nl := if StartsWith(afterTag, "\n") then "\n" else "";
      var r := afterTag[|nl|..];
      assert t == "```" + tag + nl + r by {
        assert t == t[..3] + t[3..3 + |tag|] + afterTag[..|nl|] + r;
      }
      assert OpeningFenceMatch(t, tag, nl, r);
      r
  }

  /**
   * `re.sub(r"\n?```$", "", t)`: only a match that ends the text can succeed, and the
   * leftmost one takes the newline too. (Python's `$` also matches before a final newline;
   * the text here comes from `strip()`, so it never ends with one, see `NoFinalNewline`.)
   */
  function RemoveClosingFence(t: string): (r: string)
    ensures EndsWith(t, "```") ==> |r| < |t| && r == t[..|r|] && |t| - |r| <= 4
    ensures EndsWith(t, "```") ==> exists nl :: ClosingFenceMatch(t, nl, r)
    ensures !EndsWith(t, "```") ==> r == t
  {
    if !EndsWith(t, "```") then t
    else
      var beforeTicks := t[..|t| - 3];
      var nl := if EndsWith(beforeTicks, "\n") then "\n" else "";
      var r := beforeTicks[..|beforeTicks| - |nl|];
      assert t == r + nl + "```" by {
        assert t == r + beforeTicks[|beforeTicks| - |nl|..] + t[|t| - 3..];
      }
      assert ClosingFenceMatch(t, nl, r);
      r
  }

  /** The opening match is unique: any way of reading `t` as a fenced text gives what `RemoveOpeningFence` leaves. */
  lemma OpeningFenceMatchUnique(t: string, tag: string, nl: string, r: string)
    requires OpeningFenceMatch(t, tag, nl, r)
    ensures RemoveOpeningFence(t) == r
  {
    assert t[..3] == "```";
    assert t[3..] == tag + nl + r;
    if tag == "json" {
      assert t[3..][..4] == "json";
    }
    assert t[3 + |tag|..] == nl + r;
    if nl == "\n" {
      assert t[3 + |tag|..][..1] == "\n";
    }
  }

  /** The closing match is unique too. */
  lemma ClosingFenceMatchUnique(t: string, nl: string, r: string)
    requires ClosingFenceMatch(t, nl, r)
    ensures RemoveClosingFence(t) == r
  {
    assert t[|t| - 3..] == "```";
    assert t[..|t| - 3] == r + nl;
    if nl == "\n" {
      assert (r + nl)[|r + nl| - 1..] == "\n";
    }
  }

  /** Lines 83-87 of the service: strip, then remove an opening and a closing fence if the text opens with one. */
  function StripFences(text: string): (r: string)
    ensures !StartsWith(Strip(text), "```") ==> r == Strip(text)
    ensures StartsWith(Strip(text), "```") ==>
      exists tag, nl, m :: OpeningFenceMatch(Strip(text), tag, nl, m)
        && (if EndsWith(m, "```") then exists nl' :: ClosingFenceMatch(m, nl', r) else r == m)
    ensures |r| <= |Strip(text)|
  {
    var t := Strip(text);
    if StartsWith(t, "```") then RemoveClosingFence(RemoveOpeningFence(t)) else t
  }

  /** The stripped text, and what opening-fence removal leaves of it, never ends with a newline. */
  lemma NoFinalNewline(text: string)
    ensures var t := Strip(text);
      !EndsWith(t, "\n") && !EndsWith(RemoveOpeningFence(t), "\n")
  {
    var t := Strip(text);
    assert IsSpace('\n');
    if t != [] {
      var r := RemoveOpeningFence(t);
      if r != [] {
        assert r[|r| - 1] == t[|t| - 1];
      }
    }
  }

  /** The opening fence, with or without the `json` tag, comes off a fenced body whole. */
  lemma OpeningFenceRemoved(tag: string, body: string)
    requires tag == "json" || tag == ""
    ensures RemoveOpeningFence("```" + tag + "\n" + body + "\n```") == body + "\n```"
  {
    var t := "```" + tag + "\n" + body + "\n```";
    assert StartsWith(t, "```") by { assert t[..3] == "```"; }
    var afterTicks := t[3..];
    assert afterTicks == tag + "\n" + body + "\n```";
    var afterTag := "\n" + body + "\n```";
    if tag == "json" {
      assert StartsWith(afterTicks, "json") by { assert afterTicks[..4] == "json"; }
      assert afterTicks[4..] == afterTag;
    } else {
      assert afterTicks == afterTag;
      assert afterTicks[..4][0] == '\n';
    }
    assert StartsWith(afterTag, "\n") by { assert afterTag[..1] == "\n"; }
    assert afterTag[1..] == body + "\n```";
  }

  /** The closing fence and the newline before it come off whole. */
  lemma ClosingFenceRemoved(body: string)
    ensures RemoveClosingFence(body + "\n```") == body
  {
    var t := body + "\n```";
    assert EndsWith(t, "```") by { assert t[|t| - 3..] == "```"; }
    var beforeTicks := t[..|t| - 3];
    assert beforeTicks == body + "\n";
    assert EndsWith(beforeTicks, "\n") by { assert beforeTicks[|beforeTicks| - 1..] == "\n"; }
    assert beforeTicks[..|beforeTicks| - 1] == body;
  }

  /** A fenced text starts and ends with a backtick, so `strip()` leaves it alone. */
  lemma FencedIsStripped(tag: string, body: string)
    requires tag == "json" || tag == ""
    ensures var t := "```" + tag + "\n" + body + "\n```"; Strip(t) == t && StartsWith(t, "```")
  {
    var t := "```" + tag + "\n" + body + "\n```";
    assert t[0] == '`' && t[|t| - 1] == '`';
    assert t[..3] == "```";
    BackticksUnstripped(t);
  }

  /** On a stripped text that opens with a fence, `StripFences` is the two removals. */
  lemma StripFencesOfStripped(t: string)
    requires Strip(t) == t && StartsWith(t, "```")
    ensures StripFences(t) == RemoveClosingFence(RemoveOpeningFence(t))
  {
  }

  /**
   * A body wrapped in a ```` ```json ```` or a bare ```` ``` ```` fence on lines of their own
   * comes back unchanged.
   */
  lemma FenceRoundTrip(tag: string, body: string)
    requires tag == "json" || tag == ""
    ensures StripFences("```" + tag + "\n" + body + "\n```") == body
  {
    FencedIsStripped(tag, body);
    StripFencesOfStripped("```" + tag + "\n" + body + "\n```");
    OpeningFenceRemoved(tag, body);
    ClosingFenceRemoved(body);
  }

  /**
   * The tag is optional as a whole and the newline after it too: a one-line fence whose body
   * starts with `json` loses that `json` as well, so ```` ```json1``` ```` gives `1`.
   */
  lemma TagEatsBody(rest: string)
    requires rest == [] || (rest[0] != '\n' && rest[|rest| - 1] != '\n')
    ensures StripFences("```" + ("json" + rest) + "```") == rest
  {
    var t := "```" + ("json" + rest) + "```";
    assert t[0] == '`' && t[|t| - 1] == '`';
    BackticksUnstripped(t);
    assert t[..3] == "```";
    StripFencesOfStripped(t);
    TagEatsBodyOpening(rest);
    TagEatsBodyClosing(rest);
  }

  lemma TagEatsBodyOpening(rest: string)
    requires rest == [] || rest[0] != '\n'
    ensures RemoveOpeningFence("```" + ("json" + rest) + "```") == rest + "```"
  {
    var t := "```" + ("json" + rest) + "```";
    assert StartsWith(t, "```") by { assert t[..3] == "```"; }
    var afterTicks := t[3..];
    assert afterTicks == "json" + (rest + "```");
    assert StartsWith(afterTicks, "json") by { assert afterTicks[..4] == "json"; }
    var afterTag := afterTicks[4..];
    assert afterTag == rest + "```";
    assert afterTag[..1][0] != '\n';
  }

  lemma TagEatsBodyClosing(rest: string)
    requires rest == [] || rest[|rest| - 1] != '\n'
    ensures RemoveClosingFence(rest + "```") == rest
  {
    var o := rest + "```";
    assert EndsWith(o, "```") by { assert o[|o| - 3..] == "```"; }
    assert o[..|o| - 3] == rest;
    if rest != [] {
      assert rest[|rest| - 1..] != "\n";
    }
  }

  /** A text that starts and ends with a backtick is its own `strip()`. */
  lemma BackticksUnstripped(t: string)
    requires t != [] && t[0] == '`' && t[|t| - 1] == '`'
    ensures Strip(t) == t
  {
    StripUnchanged(t);
  }

  // ---------------------------------------------------------------------------
  // Decoding the reply

  /** Lines 83-92: strip the fences and decode; a decoder failure becomes a `ValueError` with the prefix. */
  function ParseResponse(text: string, decode: JsonDecoder): (r: Result<Json, MvgError>)
    ensures r.Success? <==> decode(StripFences(text)).Success?
    ensures r.Success? ==> r.value == decode(StripFences(text)).value
    ensures r.Failure? ==> r.error.ValueError? && StartsWith(r.error.message, ParseErrorPrefix)
  {
    match decode(StripFences(text))
    case Success(data) => Success(data)
    case Failure(detail) =>
      var message := ParseErrorPrefix + detail;
      assert message[..|ParseErrorPrefix|] == ParseErrorPrefix;
      Failure(ValueError(message))
  }

  /** `dict.get(key, default)`; `None` when the value is not a dict (`.get` raises). */
  function Get(data: Json, key: string, default: Json): (r: Option<Json>)
    ensures data.JObject? <==> r.Some?
    ensures data.JObject? && key !in data.fields ==> r == Some(default)
  {
    match data
    case JObject(fields) => Some(if key in fields then fields[key] else default)
    case _ => None
  }

  /** An empty string or an empty dict: iterating it gives nothing. */
  predicate EmptyStringOrObject(value: Json) {
    (value.JString? && value.str == []) || (value.JObject? && value.fields == map[])
  }

  /**
   * `for item in value` followed by `item["name"]`: a list gives its items. A string or a dict
   * iterates its characters or keys, which are strings, so its first item already raises on
   * `item["name"]`; only an empty one gives an empty path.
   */
  function Iterate(value: Json): (r: Result<seq<Json>, MvgError>)
    ensures value.JArray? ==> r == Success(value.items)
    ensures EmptyStringOrObject(value) ==> r == Success([])
    ensures !value.JArray? && !EmptyStringOrObject(value) ==> r.Failure? && r.error.TypeError?
  {
    match value
    case JArray(items) => Success(items)
    case JString(s) => if s == [] then Success([]) else Failure(TypeError("string indices must be integers"))
    case JObject(fields) =>
      if fields == map[] then Success([]) else Failure(TypeError("string indices must be integers"))
    case _ => Failure(TypeError("object is not iterable"))
  }

  /** The items of `data.get("path", [])`. */
  function PathItems(data: Json): (r: Result<seq<Json>, MvgError>)
    ensures !data.JObject? ==> r.Failure? && r.error.AttributeError?
    ensures data.JObject? && "path" !in data.fields ==> r == Success([])
    ensures data.JObject? && "path" in data.fields && data.fields["path"].JArray? ==> r == Success(data.fields["path"].items)
    ensures data.JObject? && "path" in data.fields && EmptyStringOrObject(data.fields["path"]) ==> r == Success([])
    ensures data.JObject? && "path" in data.fields && !data.fields["path"].JArray? && !EmptyStringOrObject(data.fields["path"]) ==>
      r.Failure? && r.error.TypeError?
  {
    match Get(data, "path", JArray([]))
    case None => Failure(AttributeError("object has no attribute 'get'"))
    case Some(path) => Iterate(path)
  }

  /** `data.get("explanation", "")` */
  function Explanation(data: Json): (r: Json)
    requires data.JObject?
    ensures "explanation" !in data.fields ==> r == JString("")
    ensures "explanation" in data.fields ==> r == data.fields["explanation"]
  {
    Get(data, "explanation", JString("")).value
  }

  // ---------------------------------------------------------------------------
  // Matching names against stored concepts

  /** The position of the first concept whose lower-cased name is `name` lower-cased; `|cs|` if none. */
  function FirstNamed(cs: seq<Concept>, name: string): (k: nat)
    ensures k <= |cs|
    ensures forall i :: 0 <= i < k ==> Lower(cs[i].name) != Lower(name)
    ensures k < |cs| ==> Lower(cs[k].name) == Lower(name)
  {
    if cs == [] then 0
    else if Lower(cs[0].name) == Lower(name) then 0
    else 1 + FirstNamed(cs[1..], name)
  }

  /** What `_find_concept_by_name` returns: the first match, else `None`; a failing lookup or a non-string name also gives `None`. */
  function Lookup(name: Json, domain: string, query: DomainQuery): Option<Concept> {
    if !name.JString? || query(domain).None? then None
    else
      var cs := query(domain).value;
      var k := FirstNamed(cs, name.str);
      if k < |cs| then Some(cs[k]) else None
  }

  /** `_find_concept_by_name`: a linear scan of the domain's concepts with an early return. */
  method FindConceptByName(name: Json, domain: string, query: DomainQuery) returns (r: Option<Concept>)
    ensures r == Lookup(name, domain, query)
    ensures r.Some? ==> query(domain).Some? && r.value in query(domain).value
    ensures r.Some? ==> name.JString? && Lower(r.value.name) == Lower(name.str)
  {
    if !name.JString? {
      return None;  // `name.lower()` raises; the handler swallows it
    }
    var concepts := query(domain);
    if concepts.None? {
      return None;
    }
    var cs := concepts.value;
    var nameLower := Lower(name.str);
    var i := 0;
    while i < |cs|
      invariant 0 <= i <= |cs|
      invariant forall j :: 0 <= j < i ==> Lower(cs[j].name) != nameLower
    {
      if Lower(cs[i].name) == nameLower {
        FirstNamedIs(cs, name.str, i);
        return Some(cs[i]);
      }
      i := i + 1;
    }
    FirstNamedIs(cs, name.str, |cs|);
    return None;
  }

  /** `FirstNamed` is the only position with no match before it and a match at it (or the end). */
  lemma {:induction false} FirstNamedIs(cs: seq<Concept>, name: string, k: nat)
    requires k <= |cs|
    requires forall i :: 0 <= i < k ==> Lower(cs[i].name) != Lower(name)
    requires k < |cs| ==> Lower(cs[k].name) == Lower(name)
    ensures FirstNamed(cs, name) == k
  {
    if cs != [] && k > 0 {
      assert Lower(cs[0].name) != Lower(name);
      FirstNamedIs(cs[1..], name, k - 1);
    }
  }

  // ---------------------------------------------------------------------------
  // Building the path

  /** One step of the path: the node it becomes, or the exception it raises. */
  function NodeFor(item: Json, domain: string, query: DomainQuery): (r: Result<MvgNode, MvgError>)
    ensures !item.JObject? ==> r.Failure? && r.error.TypeError?
    ensures item.JObject? && "name" !in item.fields ==> r == Failure(KeyError("name"))
    ensures item.JObject? && "name" in item.fields ==> r.Success?
    ensures r.Success? ==> r.value.name == item.fields["name"]
    ensures r.Success? && "description" !in item.fields ==> r.value.description == JString("")
    ensures r.Success? && "is_axiom" !in item.fields ==> r.value.isAxiom == JBool(false)
    ensures r.Success? ==> r.value.conceptId == (match Lookup(item.fields["name"], domain, query)
                                                 case Some(c) => Some(c.id)
                                                 case None => None)
  {
    match item
    case JObject(fields) =>
      if "name" !in fields then Failure(KeyError("name"))
      else
        var existing := Lookup(fields["name"], domain, query);
        Success(MvgNode(
          fields["name"],
          Get(item, "description", JString("")).value,
          Get(item, "is_axiom", JBool(false)).value,
          if existing.Some? then Some(existing.value.id) else None))
    case _ => Failure(TypeError("indices must be integers"))
  }

  /** The path for a list of steps: the nodes in order, or the exception of the first step that fails. */
  function BuildPath(items: seq<Json>, domain: string, query: DomainQuery): Result<seq<MvgNode>, MvgError> {
    if items == [] then Success([])
    else
      match BuildPath(items[..|items| - 1], domain, query)
      case Failure(e) => Failure(e)
      case Success(path) =>
        match NodeFor(items[|items| - 1], domain, query)
        case Failure(e) => Failure(e)
        case Success(node) => Success(path + [node])
  }

  /** A path that was built has one node per step, the `i`-th node made from the `i`-th step. */
  lemma {:induction false} BuildPathNodes(items: seq<Json>, domain: string, query: DomainQuery)
    requires BuildPath(items, domain, query).Success?
    ensures |BuildPath(items, domain, query).value| == |items|
    ensures forall i :: 0 <= i < |items| ==>
      NodeFor(items[i], domain, query) == Success(BuildPath(items, domain, query).value[i])
    decreases |items|
  {
    if items != [] {
      var init := items[..|items| - 1];
      BuildPathNodes(init, domain, query);
      forall i | 0 <= i < |items| ensures NodeFor(items[i], domain, query) == Success(BuildPath(items, domain, query).value[i]) {
        if i < |init| { assert items[i] == init[i]; }
      }
    }
  }

  /** The path fails exactly with the exception of the first step whose node cannot be built. */
  lemma {:induction false} BuildPathFirstError(items: seq<Json>, domain: string, query: DomainQuery, k: nat)
    requires k < |items|
    requires forall i :: 0 <= i < k ==> NodeFor(items[i], domain, query).Success?
    requires NodeFor(items[k], domain, query).Failure?
    ensures BuildPath(items, domain, query) == Failure(NodeFor(items[k], domain, query).error)
    decreases |items|
  {
    var init := items[..|items| - 1];
    if k < |init| {
      BuildPathFirstError(init, domain, query, k);
    } else {
      BuildPathAllSucceed(init, domain, query);
    }
  }

  /** When every step succeeds, so does the path. */
  lemma {:induction false} BuildPathAllSucceed(items: seq<Json>, domain: string, query: DomainQuery)
    requires forall i :: 0 <= i < |items| ==> NodeFor(items[i], domain, query).Success?
    ensures BuildPath(items, domain, query).Success?
    decreases |items|
  {
    if items != [] {
      var init := items[..|items| - 1];
      assert forall i :: 0 <= i < |init| ==> init[i] == items[i];
      BuildPathAllSucceed(init, domain, query);
    }
  }

  /**
   * `generate`, given the model's reply text: decode it, then build one node per step of "path",
   * looking each name up in the domain; `target` and `domain` are echoed.
   */
  method Generate(target: string, domain: string, reply: string, decode: JsonDecoder, query: DomainQuery)
    returns (r: Result<MvgResult, MvgError>)
    ensures ParseResponse(reply, decode).Failure? ==> r == Failure(ParseResponse(reply, decode).error)
    ensures ParseResponse(reply, decode).Success? && PathItems(ParseResponse(reply, decode).value).Failure? ==>
      r == Failure(PathItems(ParseResponse(reply, decode).value).error)
    ensures r.Success? <==>
      ParseResponse(reply, decode).Success? && PathItems(ParseResponse(reply, decode).value).Success?
      && BuildPath(PathItems(ParseResponse(reply, decode).value).value, domain, query).Success?
    ensures r.Success? ==>
      r.value == MvgResult(target, domain,
                           BuildPath(PathItems(ParseResponse(reply, decode).value).value, domain, query).value,
                           Explanation(ParseResponse(reply, decode).value))
    ensures r.Failure? && ParseResponse(reply, decode).Success? && PathItems(ParseResponse(reply, decode).value).Success? ==>
      r.error == BuildPath(PathItems(ParseResponse(reply, decode).value).value, domain, query).error
  {
    var parsed := ParseResponse(reply, decode);
    if parsed.Failure? {
      return Failure(parsed.error);
    }
    var data := parsed.value;
    var items := PathItems(data);
    if items.Failure? {
      return Failure(items.error);
    }
    var path := BuildNodes(items.value, domain, query);
    if path.Failure? {
      return Failure(path.error);
    }
    var explanation := if "explanation" in data.fields then data.fields["explanation"] else JString("");
    return Success(MvgResult(target, domain, path.value, explanation));
  }

  /** The loop over the steps of "path": one node per step, returning at the first step that raises. */
  method BuildNodes(steps: seq<Json>, domain: string, query: DomainQuery) returns (r: Result<seq<MvgNode>, MvgError>)
    ensures r == BuildPath(steps, domain, query)
  {
    var path: seq<MvgNode> := [];
    var i := 0;
    while i < |steps|
      invariant 0 <= i <= |steps|
      invariant BuildPath(steps[..i], domain, query) == Success(path)
    {
      var item := steps[i];
      if !item.JObject? {
        BuildPathFirstFailing(steps, domain, query, i);
        return Failure(TypeError("indices must be integers"));
      }
      if "name" !in item.fields {
        BuildPathFirstFailing(steps, domain, query, i);
        return Failure(KeyError("name"));
      }
      var existing := FindConceptByName(item.fields["name"], domain, query);
      var conceptId: Option<string> := None;
      if existing.Some? {
        conceptId := Some(existing.value.id);
      }
      var node := MvgNode(
        item.fields["name"],
        if "description" in item.fields then item.fields["description"] else JString(""),
        if "is_axiom" in item.fields then item.fields["is_axiom"] else JBool(false),
        conceptId);
      NodeForObject(item, domain, query);
      BuildPathSnoc(steps, domain, query, i);
      path := path + [node];
      i := i + 1;
    }
    assert steps[..i] == steps;
    r := Success(path);
  }

  /** The node of a dict step with a "name". */
  lemma NodeForObject(item: Json, domain: string, query: DomainQuery)
    requires item.JObject? && "name" in item.fields
    ensures NodeFor(item, domain, query) == Success(MvgNode(
      item.fields["name"],
      if "description" in item.fields then item.fields["description"] else JString(""),
      if "is_axiom" in item.fields then item.fields["is_axiom"] else JBool(false),
      match Lookup(item.fields["name"], domain, query) case Some(c) => Some(c.id) case None => None))
  {
  }

  /** One more step that succeeds extends the path built so far by its node. */
  lemma BuildPathSnoc(steps: seq<Json>, domain: string, query: DomainQuery, i: nat)
    requires i < |steps|
    requires BuildPath(steps[..i], domain, query).Success?
    requires NodeFor(steps[i], domain, query).Success?
    ensures BuildPath(steps[..i + 1], domain, query)
         == Success(BuildPath(steps[..i], domain, query).value + [NodeFor(steps[i], domain, query).value])
  {
    assert steps[..i + 1][..i] == steps[..i];
  }

  /** Step `i` fails and the steps before it built a path: the whole path fails with step `i`'s exception. */
  lemma BuildPathFirstFailing(steps: seq<Json>, domain: string, query: DomainQuery, i: nat)
    requires i < |steps|
    requires BuildPath(steps[..i], domain, query).Success?
    requires NodeFor(steps[i], domain, query).Failure?
    ensures BuildPath(steps, domain, query) == Failure(NodeFor(steps[i], domain, query).error)
  {
    BuildPathNodes(steps[..i], domain, query);
    forall j | 0 <= j < i ensures NodeFor(steps[j], domain, query).Success? {
      assert steps[j] == steps[..i][j];
    }
    BuildPathFirstError(steps, domain, query, i);
  }
}
