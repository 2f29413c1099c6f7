/**
 * The provider layer: two interchangeable language-model back ends (a local
 * Ollama service reached over HTTP and the hosted OpenAI API reached through
 * its SDK), the factory that picks one by name, and the rule the two callers
 * use to choose between them.
 */
module LlmProvider {
  import opened Wrappers
  import opened Text
  import opened External

  const DefaultApiUrl := "http://localhost:11434/api"

  /** Fixed generation parameters of both OpenAI calls. */
  const Temperature: real := 0.4
  const MaxTokens: nat := 1500

  /** Model names with this prefix go to the chat endpoint. */
  const ChatPrefix := "gpt-"

  /** A provider; both kinds keep the fields their constructor sets and never change them. */
  datatype Provider = Ollama(apiUrl: string, apiKey: Credential) | OpenAI(apiKey: Credential)
  {
    /** `get_available_models`: a fixed list per kind. */
    function AvailableModels(): seq<string> {
      match this
      case Ollama(_, _) => ["Ollama-gpt-4", "Ollama-gpt-3.5"]
      case OpenAI(_) => ["gpt-3.5-turbo", "gpt-4"]
    }

    /** `send_prompt`: exactly one call to a model, of the kind's own sort. */
    function SendPrompt(model: string, prompt: string, context: string, w: World): (run: Run<Result<string, Exception>>)
      ensures |run.calls| == 1 && IsProviderCall(run.calls[0])
      ensures run.calls[0].Post? <==> this.Ollama?
    {
      match this
      case Ollama(url, key) => OllamaSend(url, key, model, prompt, context, w)
      case OpenAI(key) => OpenAISend(key, model, prompt, context, w)
    }
  }

  /** The keyword arguments of the factory: each absent, or given (a key may be given as `None`). */
  datatype Kwargs = Kwargs(apiUrl: Option<string>, apiKey: Option<Credential>)

  /** `get_default_provider`: the lower-cased name picks the kind; an unknown name is an error naming it. */
  function GetDefaultProvider(name: string, kw: Kwargs): (r: Result<Provider, Exception>)
    ensures (r.Ok? && r.value.Ollama?) <==> Lower(name) == "ollama"
    ensures (r.Ok? && r.value.OpenAI?) <==> Lower(name) == "openai" && kw.apiKey.Some?
    ensures (r.Err? && r.error.UnsupportedProvider?) <==> Lower(name) != "ollama" && Lower(name) != "openai"
    ensures r.Err? && r.error.UnsupportedProvider? ==>
      && StartsWith(r.error.message, "Unsupported provider: ")
      && |name| <= |r.error.message| && r.error.message[|r.error.message| - |name|..] == name
    ensures r.Err? && r.error.UnsupportedProvider? ==> r.error.message == "Unsupported provider: " + name
    // what each provider is built from: the url defaults, an absent key is no key, and
    // an OpenAI provider without an `api_key` argument is a missing-argument error
    ensures r.Ok? && r.value.Ollama? ==> r.value == Ollama(kw.apiUrl.GetOr(DefaultApiUrl), kw.apiKey.GetOr(None))
    ensures r.Ok? && r.value.OpenAI? ==> kw.apiKey.Some? && r.value.apiKey == kw.apiKey.value
    ensures Lower(name) == "openai" && kw.apiKey.None? ==> r == Err(MissingArgument("api_key"))
  {
    if Lower(name) == "ollama" then
      Ok(Ollama(kw.apiUrl.GetOr(DefaultApiUrl), kw.apiKey.GetOr(None)))
    else if Lower(name) == "openai" then
      if kw.apiKey.None? then Err(MissingArgument("api_key")) else Ok(OpenAI(kw.apiKey.value))
    else
      Err(UnsupportedProvider("Unsupported provider: " + name))
  }

  /** The factory does not see the case of the name: folding it first changes nothing but an error message. */
  lemma FactoryIgnoresCase(name: string, kw: Kwargs)
    ensures GetDefaultProvider(name, kw).Ok? ==> GetDefaultProvider(Lower(name), kw) == GetDefaultProvider(name, kw)
    ensures GetDefaultProvider(name, kw).Ok? <==> GetDefaultProvider(Lower(name), kw).Ok?
  {
    LowerIdempotent(name);
  }

  /** With no keyword arguments, "ollama" gives the local service at its default address, without a key. */
  lemma FactoryDefaults()
    ensures GetDefaultProvider("ollama", Kwargs(None, None)) == Ok(Ollama(DefaultApiUrl, None))
    ensures GetDefaultProvider("OpenAI", Kwargs(None, Some(Some("k")))) == Ok(OpenAI(Some("k")))
    ensures GetDefaultProvider("openai", Kwargs(None, None)) == Err(MissingArgument("api_key"))
  {
    LowerNames();
  }

  /** The three provider names the callers pass, folded. */
  lemma LowerNames()
    ensures Lower("ollama") == "ollama" && Lower("openai") == "openai" && Lower("OpenAI") == "openai"
  {
    LowerOllama();
    LowerOpenAI();
    LowerCapitalOpenAI();
  }

  lemma LowerOllama() ensures Lower("ollama") == "ollama" {
    var s := "ollama";
    assert forall i :: 0 <= i < |s| ==> s[i] in "olam";
    LowerFixed(s);
  }

  lemma LowerOpenAI() ensures Lower("openai") == "openai" {
    var s := "openai";
    assert forall i :: 0 <= i < |s| ==> s[i] in "openai";
    LowerFixed(s);
  }

  lemma LowerCapitalOpenAI() ensures Lower("OpenAI") == "openai" {
    var u := Lower("OpenAI");
    assert u[0] == 'o' && u[1] == 'p' && u[2] == 'e' && u[3] == 'n' && u[4] == 'a' && u[5] == 'i';
  }

  /**
   * The choice both callers make: the OpenAI provider, with the key passed through, exactly
   * when the choice is "OpenAI" (case-sensitive, and whatever the key is); the local
   * service at its default address, without a key, otherwise. The factory cannot fail here.
   */
  function ProviderFor(choice: string, apiKey: Credential): (r: Result<Provider, Exception>)
    ensures r == Ok(if choice == "OpenAI" then OpenAI(apiKey) else Ollama(DefaultApiUrl, None))
  {
    LowerNames();
    if choice == "OpenAI" then GetDefaultProvider("openai", Kwargs(None, Some(apiKey)))
    else GetDefaultProvider("ollama", Kwargs(None, None))
  }

  /** The hosted provider lists only chat models; none of the local service's names has the chat prefix. */
  lemma AvailableModelsRoute(p: Provider)
    ensures p.Ollama? ==> p.AvailableModels() == ["Ollama-gpt-4", "Ollama-gpt-3.5"]
    ensures p.OpenAI? ==> p.AvailableModels() == ["gpt-3.5-turbo", "gpt-4"]
    ensures forall m :: m in p.AvailableModels() ==> (StartsWith(m, ChatPrefix) <==> p.OpenAI?)
  {
    var ms := p.AvailableModels();
    forall m | m in ms ensures StartsWith(m, ChatPrefix) <==> p.OpenAI? {
      if p.OpenAI? {
        assert m == "gpt-3.5-turbo" || m == "gpt-4";
        assert m[..4] == "gpt-";
      } else {
        assert m == "Ollama-gpt-4" || m == "Ollama-gpt-3.5";
        assert m[..4] != "gpt-" by { assert m[0] == 'O'; }
      }
    }
  }

  // ---------------------------------------------------------------- Ollama

  /** `{"Content-Type": "application/json"}`, plus a bearer token when the key is truthy. */
  function OllamaHeaders(apiKey: Credential): map<string, string> {
    var base := map["Content-Type" := "application/json"];
    if Truthy(apiKey) then base["Authorization" := "Bearer " + apiKey.value] else base
  }

  function OllamaRequestFor(apiUrl: string, apiKey: Credential, model: string, prompt: string, context: string): OllamaRequest {
    OllamaRequest(
      apiUrl + "/generate",
      map["model" := model, "prompt" := prompt, "additional_context" := context],
      OllamaHeaders(apiKey))
  }

  /** The request goes to `<api_url>/generate`, carries its three fields unchanged, and is authorised iff the key is truthy. */
  lemma OllamaRequestShape(apiUrl: string, apiKey: Credential, model: string, prompt: string, context: string)
    ensures var r := OllamaRequestFor(apiUrl, apiKey, model, prompt, context);
      && r.url == apiUrl + "/generate"
      && r.payload.Keys == {"model", "prompt", "additional_context"}
      && r.payload["model"] == model && r.payload["prompt"] == prompt && r.payload["additional_context"] == context
      && r.headers.Keys <= {"Content-Type", "Authorization"}
      && r.headers["Content-Type"] == "application/json"
      && ("Authorization" in r.headers <==> Truthy(apiKey))
      && (Truthy(apiKey) ==> r.headers["Authorization"] == "Bearer " + apiKey.value)
  {
  }

  /** One body line's contribution: a string, or a value `"\n".join` would reject. */
  datatype Fragment = FragText(s: string) | NonText

  /** `data.get("response", "")` on a decoded object: the member if present, else the empty string. */
  function ResponsePart(response: Option<JsonValue>): (part: Fragment)
    ensures part.FragText? <==> response.None? || response.value.JString?
    ensures response.Some? && response.value.JString? ==> part == FragText(response.value.s)
    ensures response.None? ==> part == FragText("")
  {
    match response
    case None => FragText("")
    case Some(JString(s)) => FragText(s)
    case Some(JOther) => NonText
  }

  /** A blank line, an unparseable line and a non-object line contribute nothing; an object contributes its `response`. */
  function FragmentOf(line: string, parse: string -> JsonLine): seq<Fragment> {
    if Strip(line) == [] || !parse(line).Object? then [] else [ResponsePart(parse(line).response)]
  }

  /** The fragments of the body lines, in line order. */
  function Fragments(lines: seq<string>, parse: string -> JsonLine): seq<Fragment> {
    if lines == [] then [] else FragmentOf(lines[0], parse) + Fragments(lines[1..], parse)
  }

  /** The fragments of two runs of lines are the fragments of each, one after the other. */
  lemma {:induction false} FragmentsAppend(a: seq<string>, b: seq<string>, parse: string -> JsonLine)
    ensures Fragments(a + b, parse) == Fragments(a, parse) + Fragments(b, parse)
  {
    if a == [] {
      assert a + b == b;
    } else {
      var ab := a + b;
      assert ab[0] == a[0] && ab[1..] == a[1..] + b;
      assert Fragments(ab, parse) == FragmentOf(a[0], parse) + Fragments(a[1..] + b, parse);
      FragmentsAppend(a[1..], b, parse);
    }
  }

  lemma FragmentOfSingle(line: string, parse: string -> JsonLine)
    ensures Fragments([line], parse) == FragmentOf(line, parse)
  {
    assert [line][1..] == [];
  }

  /** One step of the collecting loop: adding line `i`'s fragment keeps the suffix invariant. */
  lemma CollectStep(lines: seq<string>, i: nat, parse: string -> JsonLine, before: seq<Fragment>, after: seq<Fragment>)
    requires i < |lines|
    requires before + Fragments(lines[i..], parse) == Fragments(lines, parse)
    requires after == before + FragmentOf(lines[i], parse)
    ensures after + Fragments(lines[i + 1..], parse) == Fragments(lines, parse)
  {
    FragmentsUncons(lines, i, parse);
    AppendAssoc(before, FragmentOf(lines[i], parse), Fragments(lines[i + 1..], parse));
  }

  /** The fragments from line `i` on: that line's own fragment, then those of the lines after it. */
  lemma FragmentsUncons(lines: seq<string>, i: nat, parse: string -> JsonLine)
    requires i < |lines|
    ensures Fragments(lines[i..], parse) == FragmentOf(lines[i], parse) + Fragments(lines[i + 1..], parse)
  {
    assert lines[i..][0] == lines[i] && lines[i..][1..] == lines[i + 1..];
  }

  /** A blank or unparseable line between two runs of lines is skipped without disturbing either. */
  lemma SkipsBadLine(a: seq<string>, bad: string, b: seq<string>, parse: string -> JsonLine)
    requires Strip(bad) == [] || parse(bad).Malformed? || parse(bad).NotAnObject?
    ensures Fragments(a + [bad] + b, parse) == Fragments(a, parse) + Fragments(b, parse)
  {
    assert FragmentOf(bad, parse) == [];
    FragmentOfSingle(bad, parse);
    FragmentsAppend(a, [bad], parse);
    assert Fragments(a + [bad], parse) == Fragments(a, parse);
    FragmentsAppend(a + [bad], b, parse);
  }

  /** A non-blank body line that decodes to an object whose `response` is the string `text`. */
  predicate TextLine(line: string, text: string, parse: string -> JsonLine) {
    Strip(line) != [] && parse(line) == Object(Some(JString(text)))
  }

  lemma FragmentOfText(line: string, text: string, parse: string -> JsonLine)
    requires TextLine(line, text, parse)
    ensures FragmentOf(line, parse) == [FragText(text)]
  {
  }

  /** A non-blank body line that decodes to an object without a `response` member. */
  predicate NoResponseLine(line: string, parse: string -> JsonLine) {
    Strip(line) != [] && parse(line) == Object(None)
  }

  /** An object without a `response` still contributes a fragment: the empty string. */
  lemma FragmentOfNoResponse(line: string, parse: string -> JsonLine)
    requires NoResponseLine(line, parse)
    ensures FragmentOf(line, parse) == [FragText("")]
  {
  }

  /** When every line is a non-blank object with a string `response`, the fragments are those strings, in line order. */
  lemma {:induction false} FragmentsInOrder(lines: seq<string>, texts: seq<string>, parse: string -> JsonLine)
    requires |lines| == |texts|
    requires forall i :: 0 <= i < |lines| ==> TextLine(lines[i], texts[i], parse)
    ensures |Fragments(lines, parse)| == |texts|
    ensures forall i :: 0 <= i < |texts| ==> Fragments(lines, parse)[i] == FragText(texts[i])
  {
    if lines != [] {
      var tl, tt := lines[1..], texts[1..];
      forall i | 0 <= i < |tl| ensures TextLine(tl[i], tt[i], parse) {
        assert tl[i] == lines[i + 1] && tt[i] == texts[i + 1];
      }
      FragmentsInOrder(tl, tt, parse);
      FragmentOfText(lines[0], texts[0], parse);
      var rest := Fragments(tl, parse);
      var f := Fragments(lines, parse);
      assert f == [FragText(texts[0])] + rest;
      forall i | 0 <= i < |texts| ensures f[i] == FragText(texts[i]) {
        if i > 0 {
          assert f[i] == rest[i - 1];
          assert tt[i - 1] == texts[i];
        }
      }
    }
  }

  /** The texts of the fragments, or None when one of them is not a string. */
  function FragmentTexts(frags: seq<Fragment>): (r: Option<seq<string>>)
    ensures r.Some? <==> forall i :: 0 <= i < |frags| ==> frags[i].FragText?
    ensures r.Some? ==> |r.value| == |frags| && forall i :: 0 <= i < |frags| ==> r.value[i] == frags[i].s
  {
    if frags == [] then Some([])
    else if frags[0].NonText? then None
    else
      match FragmentTexts(frags[1..])
      case None => None
      case Some(rest) => Some([frags[0].s] + rest)
  }

  /** `"\n".join(fragments).strip()`, which raises TypeError on a non-string fragment. */
  function JoinFragments(frags: seq<Fragment>): Result<string, Exception> {
    match FragmentTexts(frags)
    case None => Err(FragmentTypeError)
    case Some(texts) => Ok(Strip(Join("\n", texts)))
  }

  /**
   * Fragments are joined with line breaks, not concatenated, and only the ends of the whole
   * text are stripped: whitespace at the edges of an inner fragment is kept.
   */
  lemma JoinFragmentsByLine(a: string, b: string, c: string)
    requires a != [] && !IsSpace(a[0]) && c != [] && !IsSpace(c[|c| - 1])
    ensures JoinFragments([FragText(a), FragText(b), FragText(c)]) == Ok(a + "\n" + b + "\n" + c)
  {
    var frags := [FragText(a), FragText(b), FragText(c)];
    var texts := FragmentTexts(frags).value;
    assert texts == [a, b, c] by {
      assert frags[0].FragText? && frags[1].FragText? && frags[2].FragText?;
      assert |texts| == 3 && texts[0] == a && texts[1] == b && texts[2] == c;
    }
    var s := a + "\n" + b + "\n" + c;
    assert Join("\n", texts) == s by {
      JoinCons("\n", a, [b, c]);
      assert [a] + [b, c] == texts;
      JoinCons("\n", b, [c]);
      assert [b] + [c] == [b, c];
      AppendAssoc(a + "\n", b + "\n", c);
      assert a + "\n" + (b + "\n" + c) == (a + "\n") + (b + "\n" + c);
    }
    assert s[0] == a[0] && s[|s| - 1] == c[|c| - 1];
    StripKeeps(s);
  }

  lemma FragmentsOfThree(l1: string, l2: string, l3: string, parse: string -> JsonLine)
    ensures Fragments([l1, l2, l3], parse) == FragmentOf(l1, parse) + FragmentOf(l2, parse) + FragmentOf(l3, parse)
  {
    FragmentsCons(l1, [l2, l3], parse);
    FragmentsCons(l2, [l3], parse);
    FragmentOfSingle(l3, parse);
    ThreeAsCons(l1, l2, l3);
    AppendAssoc(FragmentOf(l1, parse), FragmentOf(l2, parse), FragmentOf(l3, parse));
  }

  lemma ThreeAsCons<T>(x: T, y: T, z: T)
    ensures [x] + [y, z] == [x, y, z] && [y] + [z] == [y, z] && [x] + [y] + [z] == [x, y, z]
  {
  }

  lemma AppendNil<T>(x: seq<T>)
    ensures x + [] == x
  {
  }

  lemma FragmentsCons(line: string, rest: seq<string>, parse: string -> JsonLine)
    ensures Fragments([line] + rest, parse) == FragmentOf(line, parse) + Fragments(rest, parse)
  {
    assert ([line] + rest)[0] == line && ([line] + rest)[1..] == rest;
  }

  /**
   * An object line without a `response` between two text lines leaves an empty line
   * between their texts in the reply: it is kept as a fragment, not skipped.
   */
  lemma NoResponseLeavesEmptyLine(l1: string, l2: string, l3: string, a: string, b: string, parse: string -> JsonLine)
    requires TextLine(l1, a, parse) && NoResponseLine(l2, parse) && TextLine(l3, b, parse)
    requires a != [] && !IsSpace(a[0]) && b != [] && !IsSpace(b[|b| - 1])
    ensures JoinFragments(Fragments([l1, l2, l3], parse)) == Ok(a + "\n" + "\n" + b)
  {
    FragmentOfText(l1, a, parse);
    FragmentOfNoResponse(l2, parse);
    FragmentOfText(l3, b, parse);
    FragmentsOfThree(l1, l2, l3, parse);
    ThreeAsCons(FragText(a), FragText(""), FragText(b));
    JoinFragmentsByLine(a, "", b);
    AppendNil(a + "\n");
  }

  /** How the local-service provider turns the HTTP outcome into text or an exception. */
  function OllamaReply(reply: HttpOutcome, parse: string -> JsonLine): Result<string, Exception> {
    match reply
    case Unreachable(msg) => Err(TransportError(msg))
    case Reply(status, text) =>
      if status == 200 then JoinFragments(Fragments(SplitLines(Strip(text)), parse))
      else Err(ApiError("Ollama API error: " + Decimal(status) + " " + text))
  }

  /** A non-200 answer is an error naming the status and quoting the body; the body lines are never decoded. */
  lemma Non200IsError(status: nat, text: string, parse1: string -> JsonLine, parse2: string -> JsonLine)
    requires status != 200
    ensures OllamaReply(Reply(status, text), parse1) == OllamaReply(Reply(status, text), parse2)
    ensures var r := OllamaReply(Reply(status, text), parse1);
      && r.Err? && r.error.ApiError?
      && r.error.message == "Ollama API error: " + Decimal(status) + " " + text
      && DigitsValue(r.error.message[18..18 + |Decimal(status)|]) == status
      && r.error.message[|r.error.message| - |text|..] == text
  {
    var m := "Ollama API error: " + Decimal(status) + " " + text;
    assert m[18..18 + |Decimal(status)|] == Decimal(status);
    DecimalRoundTrip(status);
  }

  /** `OllamaProvider.send_prompt`, as a value: one POST, then the reply handling above. */
  function OllamaSend(apiUrl: string, apiKey: Credential, model: string, prompt: string, context: string, w: World): Run<Result<string, Exception>> {
    var request := OllamaRequestFor(apiUrl, apiKey, model, prompt, context);
    Run(OllamaReply(w.post(request), w.parseJson), [Post(request)])
  }

  /** The loop of `OllamaProvider.send_prompt` over the body lines, appending one fragment per usable line. */
  method CollectFragments(lines: seq<string>, parse: string -> JsonLine) returns (fragments: seq<Fragment>)
    ensures fragments == Fragments(lines, parse)
  {
    fragments := [];
    var i := 0;
    assert fragments + Fragments(lines[i..], parse) == Fragments(lines, parse) by {
      assert lines[i..] == lines;
    }
    while i < |lines|
      invariant 0 <= i <= |lines|
      invariant fragments + Fragments(lines[i..], parse) == Fragments(lines, parse)
    {
      var line := lines[i];
      ghost var before := fragments;
      if Strip(line) != [] {
        var data := parse(line);
        if data.Object? {
          var part := ResponsePart(data.response);
          fragments := fragments + [part];
        }
      }
      CollectStep(lines, i, parse, before, fragments);
      i := i + 1;
    }
    assert lines[i..] == [];
  }

  /**
   * `OllamaProvider.send_prompt` as the source writes it: build the headers in place,
   * post, and on a 200 append the fragment of each body line in a loop.
   */
  method OllamaSendPrompt(apiUrl: string, apiKey: Credential, model: string, prompt: string, context: string, w: World)
    returns (result: Result<string, Exception>, calls: seq<Call>)
    ensures Run(result, calls) == OllamaSend(apiUrl, apiKey, model, prompt, context, w)
  {
    var payload := map["model" := model, "prompt" := prompt, "additional_context" := context];
    var headers := map["Content-Type" := "application/json"];
    if Truthy(apiKey) {
      headers := headers["Authorization" := "Bearer " + apiKey.value];
    }
    var url := apiUrl + "/generate";
    var request := OllamaRequest(url, payload, headers);
    var response := w.post(request);
    calls := [Post(request)];
    match response
    case Unreachable(msg) =>
      result := Err(TransportError(msg));
    case Reply(status, text) =>
      if status == 200 {
        var fragments := CollectFragments(SplitLines(Strip(text)), w.parseJson);
        result := JoinFragments(fragments);
      } else {
        result := Err(ApiError("Ollama API error: " + Decimal(status) + " " + text));
      }
  }

  // ---------------------------------------------------------------- OpenAI

  /** `OpenAIProvider.send_prompt`: the full prompt goes to the chat endpoint for "gpt-" models, else to the legacy one. */
  function OpenAISend(apiKey: Credential, model: string, prompt: string, context: string, w: World): Run<Result<string, Exception>> {
    var full := prompt + "\nAdditional Context: " + context;
    if StartsWith(model, ChatPrefix) then
      var request := ChatRequest(apiKey, model, [Message("user", full)], Temperature, MaxTokens);
      Run(FirstChoice(w.chat(request)), [Chat(request)])
    else
      var request := CompletionRequest(apiKey, model, full, Temperature, MaxTokens);
      Run(FirstChoice(w.complete(request)), [Complete(request)])
  }

  /** The text of the first choice; the SDK's exception, or IndexError when there is no choice. */
  function FirstChoice(reply: SdkReply): Result<string, Exception> {
    match reply
    case SdkRaised(msg) => Err(SdkError(msg))
    case Choices(texts) => if texts == [] then Err(NoChoices) else Ok(texts[0])
  }

  /** The route depends on the model name alone, and both routes carry the same full prompt. */
  lemma OpenAIRoute(apiKey: Credential, model: string, prompt: string, context: string, w: World)
    ensures var run := OpenAISend(apiKey, model, prompt, context, w);
      var full := prompt + "\nAdditional Context: " + context;
      && |run.calls| == 1
      && (run.calls[0].Chat? <==> StartsWith(model, "gpt-"))
      && (run.calls[0].Complete? <==> !StartsWith(model, "gpt-"))
      && (run.calls[0].Chat? ==>
            run.calls[0].chatRequest == ChatRequest(apiKey, model, [Message("user", full)], 0.4, 1500)
            && run.result == FirstChoice(w.chat(run.calls[0].chatRequest)))
      && (run.calls[0].Complete? ==>
            run.calls[0].completionRequest == CompletionRequest(apiKey, model, full, 0.4, 1500)
            && run.result == FirstChoice(w.complete(run.calls[0].completionRequest)))
  {
  }
}
