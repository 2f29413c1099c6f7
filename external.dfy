/**
 * The outside world the core talks to, as given functions: the file system,
 * the CSV reader, the HTTP client, the JSON decoder and the two OpenAI SDK
 * entry points. Every operation of the core that touches one of them
 * (except the JSON decoder, a pure library call) records the call in a
 * trace, so that the model can state which calls happen and which do not.
 */
module External {
  import opened Wrappers

  /** A Python value that may be `None`: an API key is `None`, `""` or a key. */
  type Credential = Option<string>

  /** Python truthiness of a credential: neither `None` nor the empty string. */
  predicate Truthy(key: Credential) {
    key.Some? && key.value != ""
  }

  /** The exceptions the core raises, or lets through from the libraries it calls. */
  datatype Exception =
    | UnsupportedProvider(message: string)  // ValueError from the provider factory
    | MissingArgument(name: string)         // KeyError on a keyword argument
    | ApiError(message: string)             // the local service answered with a non-200 status
    | TransportError(message: string)       // the HTTP client raised
    | SdkError(message: string)             // the OpenAI SDK raised
    | NoChoices                             // IndexError: the SDK reply has no choices
    | FragmentTypeError                     // TypeError: a `response` field is not a string

  /** The POST the local-service provider sends: URL, JSON payload and headers. */
  datatype OllamaRequest = OllamaRequest(url: string, payload: map<string, string>, headers: map<string, string>)

  /** What `requests.post` gives back: a status code and the body text, or an exception. */
  datatype HttpOutcome = Reply(status: nat, text: string) | Unreachable(message: string)

  /** Any JSON value that is not a string (number, boolean, null, array, object). */
  datatype JsonValue = JString(s: string) | JOther

  /** What `json.loads` makes of one body line, and whether the result supports `.get`. */
  datatype JsonLine =
    | Malformed                                 // json.loads raised
    | NotAnObject                               // parsed, but `.get` raises AttributeError
    | Object(response: Option<JsonValue>)       // a JSON object and its `response` member, if any

  datatype Message = Message(role: string, content: string)

  /** `openai.ChatCompletion.create`; the SDK reads the key from its module-level setting. */
  datatype ChatRequest = ChatRequest(apiKey: Credential, model: string, messages: seq<Message>, temperature: real, maxTokens: nat)

  /** `openai.Completion.create` */
  datatype CompletionRequest = CompletionRequest(apiKey: Credential, model: string, prompt: string, temperature: real, maxTokens: nat)

  /** What the SDK returns: the texts of the choices in order, or an exception. */
  datatype SdkReply = Choices(texts: seq<string>) | SdkRaised(message: string)

  /** The outside world, as total functions of the request. */
  datatype World = World(
    pathExists: string -> bool,
    readCsv: string -> Option<seq<seq<string>>>,
    post: OllamaRequest -> HttpOutcome,
    parseJson: string -> JsonLine,
    chat: ChatRequest -> SdkReply,
    complete: CompletionRequest -> SdkReply)

  /** One call into the outside world. */
  datatype Call =
    | PathExists(path: string)
    | ReadCsv(path: string)
    | Post(request: OllamaRequest)
    | Chat(chatRequest: ChatRequest)
    | Complete(completionRequest: CompletionRequest)

  /** A call that asks a language model for text. */
  predicate IsProviderCall(c: Call) {
    c.Post? || c.Chat? || c.Complete?
  }

  /** A result together with the calls made to produce it, in order. */
  datatype Run<+T> = Run(result: T, calls: seq<Call>)

  /** A call wrapped in `try`/`except` that returns `None` on any exception. */
  function ToOption(r: Result<string, Exception>): (o: Option<string>)
    ensures o.Some? <==> r.Ok?
    ensures o.Some? ==> o.value == r.value
  {
    match r
    case Ok(v) => Some(v)
    case Err(_) => None
  }
}
