/** The selection policy shared by the optimized and the reference pipeline:
    the external capabilities the engine calls, the provider-state rule, the
    disqualification rule and the ranking of the surviving candidates. */
module Policy {
  import opened PactModels
  import opened Text

  /** The code the engine calls but does not own, as plain functions:
      `pact_matching::match_method` and `match_path` (true when they return
      `Ok`), `pact_matching::match_request` (its list of mismatches),
      `Regex::is_match`, `pact_matching::generate_response`, and the
      conversion of the raw request in `pact_support`. */
  datatype Matchers = Matchers(
    matchMethod: (string, string) -> bool,
    matchPath: (string, string, PathContext) -> bool,
    matchRequest: (Request, Request, Pact, Interaction) -> seq<Mismatch>,
    isMatch: (Regex, string) -> bool,
    generate: Response -> Response,
    toPactRequest: (RequestParts, Body) -> Request)

  // ---------------------------------------------------------------------
  // Provider states

  /** Whether an interaction with provider-state names `states` is eligible
      under the selector: always without one; with one, when empty states
      are allowed and there are none, or when some name is empty (and empty
      states are allowed) or is matched by the selector. */
  predicate StatePasses(selector: Option<Regex>, emptyAllowed: bool, states: seq<string>, m: Matchers) {
    match selector
    case None => true
    case Some(re) =>
      (emptyAllowed && |states| == 0) ||
      exists k :: 0 <= k < |states| && ((emptyAllowed && states[k] == "") || m.isMatch(re, states[k]))
  }

  /** The provider-state fixtures: with empty states not allowed, a
      state-less interaction is rejected by a selector; with them allowed, an
      interaction that has no state or a state named "" is accepted by any
      selector; a named state is accepted exactly when the selector matches
      one of its names. */
  lemma StatePassesScenarios(re: Regex, m: Matchers, name: string)
    requires !m.isMatch(re, name) && name != ""
    ensures !StatePasses(Some(re), false, [], m)
    ensures StatePasses(Some(re), true, [], m)
    ensures StatePasses(Some(re), true, [""], m)
    ensures !StatePasses(Some(re), true, [name], m)
    ensures !StatePasses(Some(re), false, [""], m) <==> !m.isMatch(re, "")
    ensures forall b: bool, n: string :: m.isMatch(re, n) ==> StatePasses(Some(re), b, [n], m)
  {
    assert [""][0] == "";
    forall b: bool, n: string | m.isMatch(re, n) ensures StatePasses(Some(re), b, [n], m) {
      assert [n][0] == n;
    }
  }

  // ---------------------------------------------------------------------
  // Cheap method and path check

  /** The method-then-path check the reference pipeline applies to every
      interaction, with a path context built from the template's rules. */
  predicate ScanAccepts(e: Entry, request: Request, m: Matchers) {
    m.matchMethod(e.interaction.request.httpMethod, request.httpMethod) &&
    m.matchPath(e.interaction.request.path, request.path, PathContextOf(e.interaction.request))
  }

  // ---------------------------------------------------------------------
  // Disqualification

  /** `method_supports_payload`: POST, PUT or PATCH in any letter case. */
  predicate MethodSupportsPayload(request: Request) {
    var upper := ToUpper(request.httpMethod);
    upper == "POST" || upper == "PUT" || upper == "PATCH"
  }

  /** Whether one reported mismatch eliminates the candidate. */
  predicate Disqualifies(mismatch: Mismatch, request: Request) {
    match mismatch
    case MethodMismatch => true
    case PathMismatch => true
    case QueryMismatch => true
    case BodyMismatch => MethodSupportsPayload(request) && request.body.Present?
    case Other(_) => false
  }

  /** The `all` closure: no mismatch disqualifies. */
  predicate AllMatched(mismatches: seq<Mismatch>, request: Request) {
    forall k :: 0 <= k < |mismatches| ==> !Disqualifies(mismatches[k], request)
  }

  /** A candidate survives exactly when none of its mismatches is a method,
      path or query mismatch, and it has no body mismatch while the request
      is a POST, PUT or PATCH with a present body. */
  lemma SurvivesIff(mismatches: seq<Mismatch>, request: Request)
    ensures AllMatched(mismatches, request) <==>
      MethodMismatch !in mismatches && PathMismatch !in mismatches && QueryMismatch !in mismatches &&
      !(BodyMismatch in mismatches && ToUpper(request.httpMethod) in {"POST", "PUT", "PATCH"} && request.body.Present?)
  {
    if !AllMatched(mismatches, request) {
      var k :| 0 <= k < |mismatches| && Disqualifies(mismatches[k], request);
      assert mismatches[k] in mismatches;
    }
  }

  /** Categories other than method, path, query and body never disqualify,
      whatever the request. */
  lemma OtherMismatchesAreTolerated(mismatches: seq<Mismatch>, request: Request)
    requires forall k :: 0 <= k < |mismatches| ==> mismatches[k].Other?
    ensures AllMatched(mismatches, request)
  {
  }

  /** The body fixtures: a PUT with a present body is eliminated by a body
      mismatch; a lower-case "put" behaves the same; a PUT without a body and
      a GET with one keep the candidate. */
  lemma BodyMismatchScenarios(request: Request)
    requires request.body.Present?
    ensures !AllMatched([BodyMismatch], request.(httpMethod := "PUT"))
    ensures !AllMatched([BodyMismatch], request.(httpMethod := "put"))
    ensures AllMatched([BodyMismatch, Other("header")], request.(httpMethod := "PUT", body := Missing))
    ensures AllMatched([BodyMismatch], request.(httpMethod := "GET"))
  {
    assert ToUpper("put") == "PUT";
    assert ToUpper("GET") == "GET";
    assert ToUpper("PUT") == "PUT";
    assert Disqualifies([BodyMismatch][0], request.(httpMethod := "PUT"));
    assert Disqualifies([BodyMismatch][0], request.(httpMethod := "put"));
  }

  // ---------------------------------------------------------------------
  // Evaluation

  /** A candidate that survived, with its mismatch list. */
  datatype MatchResult = MatchResult(interaction: Interaction, mismatches: seq<Mismatch>)

  function Count(x: MatchResult): nat {
    |x.mismatches|
  }

  /** The outcome of evaluating one candidate: its result when it survives,
      nothing when it is disqualified. The result carries the mismatch list
      `match_request` reported for it. */
  function Outcome(e: Entry, request: Request, m: Matchers): (r: seq<MatchResult>)
    ensures |r| <= 1
    ensures |r| == 1 <==> AllMatched(m.matchRequest(e.interaction.request, request, e.pact, e.interaction), request)
    ensures forall x :: x in r ==>
              x.interaction == e.interaction &&
              x.mismatches == m.matchRequest(e.interaction.request, request, e.pact, e.interaction)
  {
    var mismatches := m.matchRequest(e.interaction.request, request, e.pact, e.interaction);
    if AllMatched(mismatches, request) then [MatchResult(e.interaction, mismatches)] else []
  }

  /** The surviving candidates of `entries` in their order, each with its
      mismatches (`filter_map` over the candidates). */
  function Evaluate(entries: seq<Entry>, request: Request, m: Matchers): seq<MatchResult> {
    if |entries| == 0 then []
    else Evaluate(entries[..|entries| - 1], request, m) + Outcome(entries[|entries| - 1], request, m)
  }

  /** A result is among the survivors exactly when it is the outcome of one
      of the candidates. */
  lemma {:induction false} EvaluateMembership(entries: seq<Entry>, request: Request, m: Matchers, x: MatchResult)
    ensures x in Evaluate(entries, request, m) <==>
      exists k :: 0 <= k < |entries| && x in Outcome(entries[k], request, m)
  {
    if |entries| > 0 {
      var n := |entries| - 1;
      var front := entries[..n];
      EvaluateMembership(front, request, m, x);
      assert forall k :: 0 <= k < n ==> front[k] == entries[k];
      if x in Outcome(entries[n], request, m) {
        assert x in Evaluate(entries, request, m);
      }
    }
  }

  // ---------------------------------------------------------------------
  // Ranking

  predicate SortedByCount(s: seq<MatchResult>) {
    forall i, j :: 0 <= i < j < |s| ==> Count(s[i]) <= Count(s[j])
  }

  /** Position `k` holds a result with the smallest mismatch count. */
  predicate IsMinimalAt(s: seq<MatchResult>, k: int) {
    0 <= k < |s| && forall j :: 0 <= j < |s| ==> Count(s[k]) <= Count(s[j])
  }

  /** Position `k` holds the earliest result with the smallest count. */
  predicate IsFirstMinimalAt(s: seq<MatchResult>, k: int) {
    IsMinimalAt(s, k) && forall j :: 0 <= j < k ==> Count(s[k]) < Count(s[j])
  }

  /** Places `x` before the first element whose count is not smaller. */
  function Insert(x: MatchResult, s: seq<MatchResult>): seq<MatchResult> {
    if |s| == 0 then [x]
    else if Count(x) <= Count(s[0]) then [x] + s
    else [s[0]] + Insert(x, s[1..])
  }

  /** The stable sort by mismatch count (`sort_by` / `sorted_by` on the
      length of the mismatch list). */
  function SortByCount(s: seq<MatchResult>): seq<MatchResult> {
    if |s| == 0 then [] else Insert(s[0], SortByCount(s[1..]))
  }

  lemma {:induction false} InsertPermutes(x: MatchResult, s: seq<MatchResult>)
    ensures multiset(Insert(x, s)) == multiset{x} + multiset(s)
  {
    if |s| > 0 && Count(x) > Count(s[0]) {
      InsertPermutes(x, s[1..]);
      assert s == [s[0]] + s[1..];
    }
  }

  lemma {:induction false} InsertSorted(x: MatchResult, s: seq<MatchResult>)
    requires SortedByCount(s)
    ensures SortedByCount(Insert(x, s))
  {
    if |s| > 0 && Count(x) > Count(s[0]) {
      InsertSorted(x, s[1..]);
      InsertPermutes(x, s[1..]);
      var r := Insert(x, s[1..]);
      forall y | y in r ensures Count(s[0]) <= Count(y) {
        assert y in multiset(r);
        if y != x {
          assert y in multiset(s[1..]);
        }
      }
    }
  }

  /** The sort rearranges the survivors and nothing else. */
  lemma {:induction false} SortByCountPermutes(s: seq<MatchResult>)
    ensures multiset(SortByCount(s)) == multiset(s)
  {
    if |s| > 0 {
      SortByCountPermutes(s[1..]);
      InsertPermutes(s[0], SortByCount(s[1..]));
      assert s == [s[0]] + s[1..];
    }
  }

  /** The sort orders the survivors by ascending mismatch count. */
  lemma {:induction false} SortByCountSorted(s: seq<MatchResult>)
    ensures SortedByCount(SortByCount(s))
  {
    if |s| > 0 {
      SortByCountSorted(s[1..]);
      InsertSorted(s[0], SortByCount(s[1..]));
    }
  }

  /** The first element after the stable sort is the earliest survivor with
      the smallest mismatch count: ties go to the earlier candidate. */
  lemma {:induction false} SortByCountHead(s: seq<MatchResult>)
    requires |s| > 0
    ensures |SortByCount(s)| == |s|
    ensures exists k :: IsFirstMinimalAt(s, k) && SortByCount(s)[0] == s[k]
  {
    SortByCountPermutes(s);
    assert |multiset(SortByCount(s))| == |multiset(s)|;
    var t := s[1..];
    if |t| == 0 {
      assert IsFirstMinimalAt(s, 0);
    } else {
      SortByCountHead(t);
      var k' :| IsFirstMinimalAt(t, k') && SortByCount(t)[0] == t[k'];
      var st := SortByCount(t);
      if Count(s[0]) <= Count(st[0]) {
        assert IsFirstMinimalAt(s, 0);
      } else {
        assert SortByCount(s)[0] == st[0];
        assert IsFirstMinimalAt(s, k' + 1);
      }
    }
  }

  /** The chosen result is a survivor with the smallest count. */
  lemma SortByCountHeadIsMinimal(s: seq<MatchResult>)
    requires |s| > 0
    ensures |SortByCount(s)| == |s|
    ensures SortByCount(s)[0] in s
    ensures forall y :: y in s ==> Count(SortByCount(s)[0]) <= Count(y)
  {
    SortByCountHead(s);
  }
}
