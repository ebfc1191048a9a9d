/** The records the dispatch engine works on: recorded interactions grouped
    in pacts, HTTP requests and responses, and the mismatches the external
    matcher reports. Only the fields the engine reads or produces are kept. */
module PactModels {

  datatype Option<+T> = None | Some(value: T)

  /** An engine outcome: a response, or the "no matching request" error. */
  datatype Result<+T> = Ok(value: T) | Err(message: string)

  /** `OptionalBody`: only `Present` counts as a present body. */
  datatype Body = Missing | Empty | Null | Present(content: seq<bv8>)

  /** A header as an entry of the request's header map, in that map's
      iteration order: the name and its list of values. */
  datatype Header = Header(name: string, values: seq<string>)

  /** An HTTP request, recorded (the template) or live. `matchingRules` maps
      a rule category ("path", "query", "body", ...) to its rules, which the
      engine never looks inside. */
  datatype Request = Request(
    httpMethod: string,
    path: string,
    query: Option<map<string, seq<string>>>,
    headers: Option<seq<Header>>,
    body: Body,
    matchingRules: map<string, seq<string>>)

  datatype Response = Response(
    status: int,
    headers: Option<map<string, seq<string>>>,
    body: Body)

  /** `HttpResponse::default()`. */
  function DefaultResponse(): Response {
    Response(200, None, Missing)
  }

  datatype ProviderState = ProviderState(name: string)

  /** A synchronous HTTP interaction of a pact. */
  datatype Interaction = Interaction(
    request: Request,
    response: Response,
    providerStates: seq<ProviderState>)

  /** A loaded contract document; `interactions` holds its synchronous HTTP
      interactions in document order. */
  datatype Pact = Pact(name: string, interactions: seq<Interaction>)

  /** An interaction together with the pact it was loaded from. */
  datatype Entry = Entry(interaction: Interaction, pact: Pact)

  /** The matching context for the "path" category, built from the
      template's path rules (none when the category is absent). */
  datatype PathContext = PathContext(rules: seq<string>)

  /** One header field of the raw incoming request, before conversion. */
  datatype HeaderField = HeaderField(name: string, value: string)

  /** The head of the raw incoming request: what the transport hands over
      before the body is read and the request is converted. */
  datatype RequestParts = RequestParts(httpMethod: string, uri: string, headers: seq<HeaderField>)

  /** A provider-state selector; its semantics is external. */
  datatype Regex = Regex(pattern: string)

  /** The category of one mismatch reported by the external matcher;
      `Other` stands for every category the engine does not single out
      (header, status, body type, metadata). */
  datatype Mismatch = MethodMismatch | PathMismatch | QueryMismatch | BodyMismatch | Other(category: string)

  function PathContextOf(request: Request): PathContext {
    if "path" in request.matchingRules then PathContext(request.matchingRules["path"])
    else PathContext([])
  }

  /** The provider-state names of an interaction, in order. */
  function StateNames(interaction: Interaction): (r: seq<string>)
    ensures |r| == |interaction.providerStates|
    ensures forall k :: 0 <= k < |r| ==> r[k] == interaction.providerStates[k].name
  {
    seq(|interaction.providerStates|, k requires 0 <= k < |interaction.providerStates| =>
      interaction.providerStates[k].name)
  }

  /** The interactions of one pact, each paired with that pact. */
  function Tagged(interactions: seq<Interaction>, pact: Pact): (r: seq<Entry>)
    ensures |r| == |interactions|
    ensures forall k :: 0 <= k < |r| ==> r[k] == Entry(interactions[k], pact)
  {
    seq(|interactions|, k requires 0 <= k < |interactions| => Entry(interactions[k], pact))
  }

  /** Every interaction of every source, in source order, with its pact:
      the sequence both pipelines start from. */
  function Catalog(sources: seq<Pact>): seq<Entry> {
    if |sources| == 0 then []
    else Catalog(sources[..|sources| - 1]) + Tagged(sources[|sources| - 1].interactions, sources[|sources| - 1])
  }
}
