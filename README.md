# pact-stub-server: the matching and dispatch engine

pact-stub-server answers live HTTP requests from the interactions recorded in
a set of pact files. This project models the part of `src/server.rs` that
chooses the reply:

- **The interaction index** (`Index`). At start-up every HTTP interaction of
  every pact gets a position. The index keeps four parallel sequences: the
  interactions, their pacts, their provider-state names and their path
  matching contexts. It also maps each key `METHOD:path` (method upper-cased)
  to the ascending, non-empty list of positions with that key.
  `InteractionIndex.Built` says an index is the one built from a list of
  pacts, and `Index.BuiltIsUnique` shows that it determines the index.
- **The selection policy** (`Policy`): the provider-state rule, the rule by
  which a reported mismatch disqualifies a candidate, and the ranking of
  survivors by mismatch count.
- **The CORS preflight reply** (`Cors`) and **the 404 reply** (`Dispatch.NotFound`).
- **The optimized pipeline** (`Dispatch.OptimizedFindMatchingRequest`).
  1. Answer an OPTIONS request right away when automatic CORS is on.
  2. Take the exact-key candidates, or scan all positions with a cheap method
     and path check when there are none.
  3. Filter the candidates by provider state.
  4. Evaluate every candidate, in an arbitrary completion order.
  5. Sort the survivors by mismatch count and reply with the first.
- **The reference pipeline** (`Dispatch.FindMatchingRequest`,
  `Dispatch.HandleRequest`). It scans every interaction of every pact in
  order, filters, evaluates and ranks stably. With no survivor it gives the
  CORS reply or the error, and the 404 reply replaces the error.
- **The handler** (`Dispatch.Call`). It derives the provider-state selector
  for the request and reads the body. It runs the optimized pipeline and
  falls back to the reference pipeline when the optimized one fails.
- **The fallback analysis** (`Fallback`).
  - When the exact-key list is empty, both pipelines have the same survivors.
    A failed optimized run then always ends in the 404 reply. For a request
    that is not a preflight, both replies are generated from survivors with
    the fewest mismatches. A preflight under automatic CORS is the
    exception: the optimized pipeline answers it with the CORS reply before
    matching, and the reference pipeline answers a matching OPTIONS
    interaction with its recorded response (`Fallback.PreflightRepliesDiffer`).
  - When the exact-key list is non-empty, the optimized pipeline never looks
    past it. The fallback can then find a match that the optimized pipeline
    missed. `Fallback.OptimizedMayMissReferenceMatch` gives a concrete case.

The engine calls code it does not own: `pact_matching::match_method`,
`match_path`, `match_request` and `generate_response`, `Regex::is_match`, and
the request conversion in `pact_support`. These are the fields of
`Policy.Matchers`, each a deterministic function. Every result holds for every
choice of these functions.

## Model

| member | source | states |
|---|---|---|
| Text.ToUpper | src/server.rs:80-81 | the upper-cased method has the same length and upper-cases each ASCII letter |
| Text.ToLower | src/server.rs:340 | the lower-cased header name has the same length and lower-cases each ASCII letter |
| Index.BuiltIsUnique | src/server.rs:67-108 | two indexes built from the same pacts are equal: every stored key has a non-empty list, so the key map is determined as well as the four sequences |
| Index.FilterKeepsIncreasing | src/server.rs:142-157 | the provider-state filter keeps an ascending list of positions ascending |
| Index.EmptyIndex | src/server.rs:57-65 | the empty index is the index built from no pacts |
| Index.BuildFromSources | src/server.rs:67-108 | the result is valid: the four sequences are parallel, and every position is listed under its own key, in ascending order, and under no other key. It mirrors the catalog: position i holds the i-th interaction of the pacts in order, with its pact, its state names and its path context |
| Index.IndexPact | src/server.rs:71-104 | the inner loop keeps the index valid and extends the mirrored catalog by the pact's interactions, in order, each paired with the pact |
| Index.PushPreservesValid | src/server.rs:73-102 | appending one interaction and its position under its key keeps the index valid |
| Index.PushPreservesMirrors | src/server.rs:73-102 | appending one interaction extends the mirrored catalog by that interaction and its pact |
| Index.InteractionIndex.GetCandidatesByMethodPath | src/server.rs:111-117 | on a valid index the lookup is strictly ascending, and a position is in it exactly when its key is `UPPER(method):path` |
| Index.GetCandidatesIsAscendingKeyFilter | src/server.rs:111-117 | the lookup equals the ascending list of all positions whose key matches the request's key |
| Index.LookupIgnoresMethodCase | src/server.rs:112 | two methods that differ only in letter case give the same candidates |
| Index.ScanPositionsSpec | src/server.rs:359-363 | the full scan lists, ascending, exactly the positions that pass the quick check |
| Index.QuickCheckAgreesWithScan | src/server.rs:120-134 | on the built index the quick check with the stored context is the reference pipeline's method and path check, with the context built afresh (lines 458-465) |
| Index.GetInteractionAndPactIsCatalogEntry | src/server.rs:163-165 | on the built index position i gives the i-th interaction of the catalog with its pact |
| Index.InteractionIndex.FilterByProviderState | src/server.rs:137-160 | the loop returns the positions the provider-state rule accepts, in input order |
| Index.FilterMembership | src/server.rs:137-160 | a position is kept exactly when it is in the input and its state names pass the rule |
| Index.FilterWithoutSelectorIsIdentity | src/server.rs:151 | with no selector every position is kept, in order |
| Index.FilterDistributes | src/server.rs:142-157 | filtering distributes over concatenation, so relative order is kept |
| Policy.StatePassesScenarios | src/server.rs:893-902 | with empty states disallowed a state-less interaction fails a selector; with them allowed, a state-less interaction and a state named "" pass any selector (lines 938-942); a name the selector does not match is rejected, and a name it matches is accepted (lines 893-898) |
| Policy.SurvivesIff | src/server.rs:393-401 | a candidate survives exactly when it has no method, path or query mismatch, and no body mismatch while the request is POST, PUT or PATCH in any case with a present body |
| Policy.OtherMismatchesAreTolerated | src/server.rs:399 | mismatches of any other category never disqualify |
| Policy.BodyMismatchScenarios | src/server.rs:317-319 | a body mismatch eliminates a candidate for a PUT or `put` with a body; it does not for a PUT without a body or a GET with one (lines 650-687) |
| Policy.Outcome | src/server.rs:392-407 | evaluating one candidate gives a result exactly when the mismatch list `match_request` reports for it survives, and then exactly one, carrying that candidate's interaction and that list |
| Policy.EvaluateMembership | src/server.rs:477-497 | a result is among the survivors exactly when it is the outcome of one of the candidates |
| Policy.SortByCountPermutes | src/server.rs:500-503 | the ranking is a permutation of the survivors |
| Policy.SortByCountSorted | src/server.rs:500-503 | the ranking is in ascending order of mismatch count |
| Policy.SortByCountHead | src/server.rs:500-503 | the first ranked result is the earliest survivor with the fewest mismatches |
| Policy.SortByCountHeadIsMinimal | src/server.rs:420 | the first ranked result is a survivor, and no survivor has fewer mismatches |
| Policy.InsertPermutes | src/server.rs:501 | one insertion step adds exactly the inserted result |
| Policy.InsertSorted | src/server.rs:501 | one insertion step keeps the order by count |
| Cors.FindReferer | src/server.rs:339-341 | no header is found exactly when none is named Referer in any case; otherwise the first such header is found |
| Cors.CorsOriginSpec | src/server.rs:337-344 | the origin is `*` unless Referer reflection is on and a Referer header exists; then it is that first header's values joined with ", " |
| Cors.CorsResponse | src/server.rs:345-352 | status 200, no body, and exactly the three CORS headers: `*`, the nine-method list and the origin |
| Dispatch.SelectCandidates | src/server.rs:355-368 | the imperative selection (lookup, scan when the lookup is empty, filter when a selector is given) computes the candidate list |
| Dispatch.OptimizedCandidateSelection | src/server.rs:355-368 | a non-empty exact-key list is used as it is. Otherwise the candidates are, ascending, exactly the positions passing the quick check. For every selector the candidates are ascending, and a position is one exactly when it is in the exact-key list (or, with that list empty, passes the quick check) and the provider-state rule accepts it |
| Dispatch.OptimizedFindMatchingRequest | src/server.rs:322-434 | a preflight gets the CORS reply and nothing is evaluated. With no candidate the reply is the error, and nothing is evaluated. Otherwise every candidate is evaluated exactly once. The reply is the error exactly when nothing survives; otherwise it is the generated response of some survivor with the fewest mismatches |
| Dispatch.CollectMatchResults | src/server.rs:375-417 | in any completion order, every candidate is evaluated exactly once, and the collected results are the survivors with their multiplicities: one result per surviving candidate (lines 413-416) |
| Dispatch.ChosenIsMinimalSurvivor | src/server.rs:420-433 | sorting the collected results gives a first one exactly when there is a survivor, and it is a survivor with the fewest mismatches |
| Dispatch.ReferencePicksEarliestMinimal | src/server.rs:510-511 | with survivors, the reference reply is the generated response of the earliest survivor with the fewest mismatches |
| Dispatch.ReferenceWithoutSurvivors | src/server.rs:512-533 | with no survivor the reply is the CORS reply for a preflight and the error otherwise (lines 722-737). The error comes exactly when nothing survives and the request is not a preflight |
| Dispatch.ReferenceTieGoesToFirst | src/server.rs:580-592 | of two surviving interactions with equal mismatch counts, the first answers |
| Dispatch.NotFound | src/server.rs:552-561 | status 404 and no body; with automatic CORS exactly the header `Access-Control-Allow-Origin: *`, otherwise no headers |
| Dispatch.HandleRequest | src/server.rs:537-564 | no survivor and not a preflight gives the 404 reply. No survivor and a preflight gives the CORS reply. Otherwise the reply is generated from the earliest survivor with the fewest mismatches |
| Dispatch.NewServerHandler | src/server.rs:212-232 | the handler keeps the configuration and holds the index built from its pacts |
| Dispatch.FindField | src/server.rs:277 | no value exactly when no field has the name in any case; otherwise the value of the first such field |
| Dispatch.EffectiveProviderState | src/server.rs:274-284 | the override header's value is the selector when a header name is configured and the header is present; otherwise the configured selector |
| Dispatch.ReadBody | src/server.rs:286-297 | the body is present exactly when the read succeeded with some bytes, and then holds them; otherwise it is empty |
| Dispatch.Call | src/server.rs:263-314 | a preflight gets the CORS reply. With optimized survivors the reply is generated from one with the fewest mismatches. Otherwise the reply is the reference pipeline's reply under the same selector |
| Fallback.EntriesAtAppend | src/server.rs:377-378 | looking up the entries of two position lists in turn is looking up their concatenation |
| Fallback.ScanStep | src/server.rs:360-362 | one scan step appends position i exactly when the reference check accepts entry i |
| Fallback.ScanPositionsMirrorScanFiltered | src/server.rs:359-363 | the scanned positions hold exactly the entries that the reference method and path filter keeps, in order (lines 451-465) |
| Fallback.StateFilteredAreStateFilteredEntries | src/server.rs:137-160 | the positional provider-state filter keeps exactly the entries the reference filter keeps, in order (lines 466-474) |
| Fallback.StateFilteredEntriesWithoutSelector | src/server.rs:472 | with no selector the reference filter keeps every entry |
| Fallback.ScanPathSurvivorsAgree | src/server.rs:358-368 | with an empty exact-key list, the optimized survivors equal the reference survivors, in the same order |
| Fallback.ScanPathFallbackIsNotFound | src/server.rs:304-311 | with an empty exact-key list, a failed optimized run that is not a preflight makes the fallback give the 404 reply |
| Fallback.ScanPathReferenceAnswerIsOptimizedAnswer | src/server.rs:304-311 | with an empty exact-key list and a request that is not a preflight, the reference reply is generated from one of the survivors with the fewest mismatches that the optimized pipeline may answer from |
| Fallback.PreflightRepliesDiffer | src/server.rs:336-352 | under automatic CORS, an OPTIONS request with an empty exact-key list and a surviving OPTIONS interaction: the optimized pipeline answers with the 200 CORS reply, while the reference pipeline answers with the recorded 204 (lines 510-511) |
| Fallback.OptimizedMayMissReferenceMatch | src/server.rs:356-363 | a pact, a request and matchers for which the exact-key list is non-empty and no optimized candidate survives, yet the reference pipeline answers with a 201 from an interaction outside that list |

## Left out

- Transport: hyper request and response plumbing, `pact_response_to_hyper_response`, connection handling, tracing and `start_server` are not modelled. The request the engine sees is `Matchers.toPactRequest` applied to the raw parts and the read body.
- Logging (`info!`, `debug!`, `warn!`) has no effect on replies and is left out.
- Concurrency: the `FuturesUnordered` fan-out is a sequential loop that takes the pending candidates in an arbitrary order. Real parallel execution is not modelled.
- `pact_matching` (method, path and request matching, response generation), `Regex` and the `pact_support` request conversion are left abstract. They are parameters in `Policy.Matchers`, so every property holds for all of them.
- Response generation: `generate_response` can apply generators that draw random values or read the clock, so two calls on one template need not agree. `Matchers.generate` is a deterministic function of the template instead. Claims that relate the replies of two separate runs mean replies generated from the same interaction.
- Text.ToUpper: maps only ASCII letters, where Rust's `to_uppercase` maps all of Unicode.
- Text.ToLower: maps only ASCII letters, where Rust's `to_lowercase` maps all of Unicode.
- Text.Join: states only the cases of zero and one value.
- Parsing pacts and `filter_interactions(Synchronous_HTTP)` are not modelled. A `Pact` here holds only its HTTP interactions. The `PactSource` paired with each pact is never read by the engine and is dropped.
- Hash-map iteration order: the request headers are a sequence, and the Referer search takes the first match in that sequence. The order Rust's `HashMap` iterates in is not modelled.
- `PathContext` is only the path matching rules. The `DiffConfig::NoUnexpectedKeys` setting and the empty plugin configuration are the same for every context and are not represented.
- Dispatch.EffectiveProviderState: the header value becomes the pattern as it is. The panics of `to_str().unwrap()` on a non-ASCII value and of `Regex::new(..).unwrap()` on an invalid pattern are not modelled.
- Dispatch.ReadBody: the body-read error is a `None` input, because the network read itself is not modelled.
- Dispatch.OptimizedFindMatchingRequest: promises only some survivor with the fewest mismatches. The reply depends on the completion order, so it cannot promise the earliest.
- Dispatch.Call: in the fallback case it returns exactly `HandleRequest`. The reference pipeline's own CORS branch is unreachable from `Call`, because a preflight is always answered by the optimized pipeline.
- Status codes and response headers are plain integers and maps of strings. The HTTP types' validation is not modelled.
