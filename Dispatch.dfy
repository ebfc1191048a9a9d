/** Per-request dispatch: the optimized pipeline over the interaction index,
    the reference pipeline over the loaded pacts, the mapping of "no match"
    to a 404 reply, and the request handler that falls back from the first
    to the second. */
module Dispatch {
  import opened PactModels
  import opened Text
  import opened Policy
  import opened Index
  import opened Cors

  /** The error both pipelines return when nothing matches. */
  function NoMatch(request: Request): Result<Response> {
    Err("No matching request found for path " + request.path)
  }

  // =====================================================================
  // Optimized pipeline

  /** The candidate positions of the optimized pipeline: the exact-key list
      when it is non-empty, otherwise the full scan; then, when a selector is
      given, the provider-state filter. */
  function OptimizedCandidates(index: InteractionIndex, request: Request, selector: Option<Regex>,
                               emptyAllowed: bool, m: Matchers): (r: seq<nat>)
    requires index.Valid()
    ensures forall k :: 0 <= k < |r| ==> r[k] < |index.allInteractions|
  {
    var exact := index.GetCandidatesByMethodPath(request.httpMethod, request.path);
    ScanPositionsSpec(index, request, m, |index.allInteractions|);
    var candidates := if |exact| > 0 then exact else index.ScanPositions(request, m, |index.allInteractions|);
    assert forall k :: 0 <= k < |candidates| ==> candidates[k] in candidates;
    if selector.Some? then
      var filtered := index.StateFiltered(candidates, selector, emptyAllowed, m);
      forall k | 0 <= k < |filtered| ensures filtered[k] < |index.allInteractions| {
        FilterMembership(index, candidates, selector, emptyAllowed, m, filtered[k]);
      }
      filtered
    else
      candidates
  }

  /** The candidates of the optimized pipeline that survive evaluation, in
      candidate order. */
  function OptimizedSurvivors(index: InteractionIndex, request: Request, selector: Option<Regex>,
                              emptyAllowed: bool, m: Matchers): seq<MatchResult>
    requires index.Valid()
  {
    Evaluate(index.EntriesAt(OptimizedCandidates(index, request, selector, emptyAllowed, m)), request, m)
  }

  /** Candidate selection: a non-empty exact-key list is used as it is;
      otherwise the candidates are, in ascending order, the positions that
      pass the quick method and path check; a selector then keeps exactly
      the candidates whose provider states it accepts, in ascending order. */
  lemma OptimizedCandidateSelection(index: InteractionIndex, request: Request, selector: Option<Regex>,
                                    emptyAllowed: bool, m: Matchers)
    requires index.Valid()
    ensures var exact := index.GetCandidatesByMethodPath(request.httpMethod, request.path);
            selector.None? && |exact| > 0 ==>
              OptimizedCandidates(index, request, selector, emptyAllowed, m) == exact
    ensures var exact := index.GetCandidatesByMethodPath(request.httpMethod, request.path);
            var c := OptimizedCandidates(index, request, selector, emptyAllowed, m);
            selector.None? && |exact| == 0 ==>
              StrictlyIncreasing(c) &&
              forall i: nat :: i in c <==> i < |index.allInteractions| && index.QuickCheckPathMatch(i, request, m)
    ensures var exact := index.GetCandidatesByMethodPath(request.httpMethod, request.path);
            var c := OptimizedCandidates(index, request, selector, emptyAllowed, m);
            StrictlyIncreasing(c) &&
            forall i: nat :: i in c <==>
              i < |index.allInteractions| &&
              (i in exact || (|exact| == 0 && index.QuickCheckPathMatch(i, request, m))) &&
              index.StateOk(i, selector, emptyAllowed, m)
  {
    var n := |index.allInteractions|;
    var exact := index.GetCandidatesByMethodPath(request.httpMethod, request.path);
    ScanPositionsSpec(index, request, m, n);
    var candidates := if |exact| > 0 then exact else index.ScanPositions(request, m, n);
    assert forall k :: 0 <= k < |candidates| ==> candidates[k] in candidates;
    if selector.Some? {
      FilterKeepsIncreasing(index, candidates, selector, emptyAllowed, m);
      forall i: nat
        ensures i in OptimizedCandidates(index, request, selector, emptyAllowed, m) <==>
                i in candidates && index.StateOk(i, selector, emptyAllowed, m)
      {
        FilterMembership(index, candidates, selector, emptyAllowed, m, i);
      }
    }
  }

  /** `optimized_find_matching_request`. The fan-out over the candidates is
      drained in an arbitrary completion order; `evaluated` records that
      order, as positions in the candidate list. */
  method OptimizedFindMatchingRequest(request: Request, autoCors: bool, corsReferer: bool, index: InteractionIndex,
                                      selector: Option<Regex>, emptyAllowed: bool, m: Matchers)
    returns (r: Result<Response>, ghost evaluated: seq<nat>)
    requires index.Valid()
    // An OPTIONS request under automatic CORS is answered before any matching.
    ensures IsPreflight(autoCors, request) ==> r == Ok(CorsResponse(request, corsReferer)) && evaluated == []
    // No candidate: the error, and nothing is evaluated.
    ensures !IsPreflight(autoCors, request) && |OptimizedCandidates(index, request, selector, emptyAllowed, m)| == 0 ==>
              r == NoMatch(request) && evaluated == []
    // Otherwise every candidate is evaluated exactly once.
    ensures !IsPreflight(autoCors, request) && |OptimizedCandidates(index, request, selector, emptyAllowed, m)| > 0 ==>
              var c := OptimizedCandidates(index, request, selector, emptyAllowed, m);
              (forall k :: 0 <= k < |evaluated| ==> evaluated[k] < |c|) &&
              (forall p :: 0 <= p < |c| ==> p in evaluated) &&
              (forall i, j :: 0 <= i < j < |evaluated| ==> evaluated[i] != evaluated[j])
    // The error exactly when no candidate survives.
    ensures !IsPreflight(autoCors, request) ==>
              (r.Err? <==> |OptimizedSurvivors(index, request, selector, emptyAllowed, m)| == 0) &&
              (r.Err? ==> r == NoMatch(request))
    // Otherwise the generated response of some survivor with the fewest mismatches.
    ensures !IsPreflight(autoCors, request) && r.Ok? ==>
              var s := OptimizedSurvivors(index, request, selector, emptyAllowed, m);
              exists k :: IsMinimalAt(s, k) && r.value == m.generate(s[k].interaction.response)
  {
    evaluated := [];
    if autoCors && ToUpper(request.httpMethod) == "OPTIONS" {
      return Ok(CorsResponse(request, corsReferer)), [];
    }

    var candidates := SelectCandidates(request, index, selector, emptyAllowed, m);
    if |candidates| == 0 {
      return NoMatch(request), [];
    }

    var matchResults;
    matchResults, evaluated := CollectMatchResults(index, candidates, request, m);
    ghost var collected := matchResults;
    matchResults := SortByCount(matchResults);
    ChosenIsMinimalSurvivor(collected, Evaluate(index.EntriesAt(candidates), request, m));
    if |matchResults| > 0 {
      r := Ok(m.generate(matchResults[0].interaction.response));
    } else {
      r := NoMatch(request);
    }
  }

  /** The candidate selection of `optimized_find_matching_request`: the
      exact-key list, or the full scan when it is empty, then the
      provider-state filter when a selector is given. */
  method SelectCandidates(request: Request, index: InteractionIndex, selector: Option<Regex>,
                          emptyAllowed: bool, m: Matchers)
    returns (candidates: seq<nat>)
    requires index.Valid()
    ensures candidates == OptimizedCandidates(index, request, selector, emptyAllowed, m)
  {
    candidates := index.GetCandidatesByMethodPath(request.httpMethod, request.path);
    if |candidates| == 0 {
      ScanPositionsSpec(index, request, m, |index.allInteractions|);
      candidates := index.ScanPositions(request, m, |index.allInteractions|);
      assert forall k :: 0 <= k < |candidates| ==> candidates[k] in candidates;
    }
    if selector.Some? {
      candidates := index.FilterByProviderState(candidates, selector, emptyAllowed, m);
    }
  }

  /** All positions below `n`. */
  function AllPositions(n: nat): (r: set<nat>)
    ensures forall p: nat :: p in r <==> p < n
  {
    if n == 0 then {} else AllPositions(n - 1) + {n - 1}
  }

  /** The outcome of every candidate, in candidate order. */
  ghost function OutcomesOf(entries: seq<Entry>, request: Request, m: Matchers): (r: seq<seq<MatchResult>>)
    ensures |r| == |entries| && forall k :: 0 <= k < |r| ==> r[k] == Outcome(entries[k], request, m)
  {
    seq(|entries|, k requires 0 <= k < |entries| => Outcome(entries[k], request, m))
  }

  /** The outcomes, in candidate order, of the candidates below `k` that
      are still in `pending`. */
  ghost function PendingOutcomes(outs: seq<seq<MatchResult>>, pending: set<nat>, k: nat): seq<MatchResult>
    requires k <= |outs|
  {
    if k == 0 then []
    else PendingOutcomes(outs, pending, k - 1) + (if k - 1 in pending then outs[k - 1] else [])
  }

  /** With every candidate pending, the pending outcomes are the survivors. */
  lemma {:induction false} PendingOutcomesAll(entries: seq<Entry>, request: Request, m: Matchers, k: nat)
    requires k <= |entries|
    ensures PendingOutcomes(OutcomesOf(entries, request, m), AllPositions(|entries|), k) ==
            Evaluate(entries[..k], request, m)
  {
    if k > 0 {
      PendingOutcomesAll(entries, request, m, k - 1);
      assert entries[..k][..k - 1] == entries[..k - 1];
    }
  }

  /** With nothing pending, no outcome is pending. */
  lemma {:induction false} PendingOutcomesNone(outs: seq<seq<MatchResult>>, k: nat)
    requires k <= |outs|
    ensures PendingOutcomes(outs, {}, k) == []
  {
    if k > 0 {
      PendingOutcomesNone(outs, k - 1);
    }
  }

  /** Completing pending candidate `p` moves its outcome out of the pending
      outcomes. */
  lemma {:induction false} PendingOutcomesRemove(outs: seq<seq<MatchResult>>, pending: set<nat>, p: nat, k: nat)
    requires k <= |outs| && p in pending && p < |outs|
    ensures p < k ==>
              multiset(PendingOutcomes(outs, pending, k)) ==
              multiset(PendingOutcomes(outs, pending - {p}, k)) + multiset(outs[p])
    ensures k <= p ==> PendingOutcomes(outs, pending, k) == PendingOutcomes(outs, pending - {p}, k)
  {
    if k > 0 {
      PendingOutcomesRemove(outs, pending, p, k - 1);
      if k - 1 < p {
        PendingStepBelow(outs, pending, p, k);
      } else if k - 1 == p {
        PendingStepAt(outs, pending, p);
      } else {
        PendingStepAbove(outs, pending, p, k);
      }
    }
  }

  lemma PendingStepBelow(outs: seq<seq<MatchResult>>, pending: set<nat>, p: nat, k: nat)
    requires 0 < k <= p < |outs|
    requires PendingOutcomes(outs, pending, k - 1) == PendingOutcomes(outs, pending - {p}, k - 1)
    ensures PendingOutcomes(outs, pending, k) == PendingOutcomes(outs, pending - {p}, k)
  {
    assert (k - 1 in pending) == (k - 1 in pending - {p});
  }

  lemma PendingStepAt(outs: seq<seq<MatchResult>>, pending: set<nat>, p: nat)
    requires p in pending && p < |outs|
    requires PendingOutcomes(outs, pending, p) == PendingOutcomes(outs, pending - {p}, p)
    ensures multiset(PendingOutcomes(outs, pending, p + 1)) ==
            multiset(PendingOutcomes(outs, pending - {p}, p + 1)) + multiset(outs[p])
  {
    assert PendingOutcomes(outs, pending, p + 1) == PendingOutcomes(outs, pending, p) + outs[p];
    assert PendingOutcomes(outs, pending - {p}, p + 1) == PendingOutcomes(outs, pending - {p}, p);
  }

  lemma PendingStepAbove(outs: seq<seq<MatchResult>>, pending: set<nat>, p: nat, k: nat)
    requires p < k - 1 && k <= |outs|
    requires multiset(PendingOutcomes(outs, pending, k - 1)) ==
             multiset(PendingOutcomes(outs, pending - {p}, k - 1)) + multiset(outs[p])
    ensures multiset(PendingOutcomes(outs, pending, k)) ==
            multiset(PendingOutcomes(outs, pending - {p}, k)) + multiset(outs[p])
  {
    var here := if k - 1 in pending then outs[k - 1] else [];
    assert (k - 1 in pending) == (k - 1 in pending - {p});
    assert PendingOutcomes(outs, pending, k) == PendingOutcomes(outs, pending, k - 1) + here;
    assert PendingOutcomes(outs, pending - {p}, k) == PendingOutcomes(outs, pending - {p}, k - 1) + here;
  }

  /** The positions listed in `s`. */
  function Members(s: seq<nat>): (r: set<nat>)
    ensures forall x :: x in r <==> x in s
  {
    if |s| == 0 then {} else Members(s[..|s| - 1]) + {s[|s| - 1]}
  }

  /** The outcomes of the evaluated candidates, in completion order. */
  ghost function Gathered(outs: seq<seq<MatchResult>>, evaluated: seq<nat>): seq<MatchResult>
    requires forall k :: 0 <= k < |evaluated| ==> evaluated[k] < |outs|
  {
    if |evaluated| == 0 then []
    else Gathered(outs, evaluated[..|evaluated| - 1]) + outs[evaluated[|evaluated| - 1]]
  }

  /** The evaluated candidates' outcomes and the outcomes of the candidates
      not yet evaluated make up all outcomes, counted with multiplicity. */
  lemma {:induction false} GatheredAccounts(outs: seq<seq<MatchResult>>, evaluated: seq<nat>)
    requires forall k :: 0 <= k < |evaluated| ==> evaluated[k] < |outs|
    requires forall i, j :: 0 <= i < j < |evaluated| ==> evaluated[i] != evaluated[j]
    ensures multiset(Gathered(outs, evaluated)) +
            multiset(PendingOutcomes(outs, AllPositions(|outs|) - Members(evaluated), |outs|)) ==
            multiset(PendingOutcomes(outs, AllPositions(|outs|), |outs|))
  {
    if |evaluated| > 0 {
      var front := evaluated[..|evaluated| - 1];
      var p := evaluated[|evaluated| - 1];
      GatheredAccounts(outs, front);
      var pending := AllPositions(|outs|) - Members(front);
      assert p !in front;
      assert p in pending;
      PendingOutcomesRemove(outs, pending, p, |outs|);
      assert pending - {p} == AllPositions(|outs|) - Members(evaluated);
      assert Gathered(outs, evaluated) == Gathered(outs, front) + outs[p];
      var total := multiset(PendingOutcomes(outs, AllPositions(|outs|), |outs|));
      var rest := multiset(PendingOutcomes(outs, pending - {p}, |outs|));
      assert multiset(Gathered(outs, front)) + multiset(outs[p]) + rest == total;
      assert multiset(Gathered(outs, evaluated)) == multiset(Gathered(outs, front)) + multiset(outs[p]);
    } else {
      assert AllPositions(|outs|) - Members(evaluated) == AllPositions(|outs|);
    }
  }

  /** Once every candidate is evaluated, once each, the gathered outcomes
      are the survivors, counted with multiplicity. */
  lemma GatheredAreSurvivors(entries: seq<Entry>, request: Request, m: Matchers, evaluated: seq<nat>)
    requires Tracked(evaluated, {}, |entries|)
    ensures multiset(Gathered(OutcomesOf(entries, request, m), evaluated)) == multiset(Evaluate(entries, request, m))
  {
    var outs := OutcomesOf(entries, request, m);
    GatheredAccounts(outs, evaluated);
    assert AllPositions(|outs|) - Members(evaluated) == {};
    PendingOutcomesNone(outs, |outs|);
    PendingOutcomesAll(entries, request, m, |entries|);
    assert entries[..|entries|] == entries;
  }

  /** One future of the fan-out: `match_request` on one candidate, keeping
      it with its mismatches when none disqualifies it. */
  method EvaluateCandidate(index: InteractionIndex, idx: nat, request: Request, m: Matchers)
    returns (outcome: seq<MatchResult>)
    requires idx < |index.allInteractions| && |index.pacts| == |index.allInteractions|
    ensures outcome == Outcome(index.GetInteractionAndPact(idx), request, m)
  {
    var entry := index.GetInteractionAndPact(idx);
    var mismatches := m.matchRequest(entry.interaction.request, request, entry.pact, entry.interaction);
    if AllMatched(mismatches, request) {
      outcome := [MatchResult(entry.interaction, mismatches)];
    } else {
      outcome := [];
    }
  }

  /** Completing pending candidate `p` records it as evaluated, once. */
  lemma EvaluatedStep(evaluated: seq<nat>, pending: set<nat>, p: nat, n: nat)
    requires p in pending && p < n && Tracked(evaluated, pending, n)
    ensures Tracked(evaluated + [p], pending - {p}, n)
  {
  }

  /** Every candidate below `n` is pending or evaluated, never both, and
      none is evaluated twice. */
  ghost predicate Tracked(evaluated: seq<nat>, pending: set<nat>, n: nat) {
    && (forall k :: 0 <= k < |evaluated| ==> evaluated[k] < n && evaluated[k] !in pending)
    && (forall q :: 0 <= q < n ==> q in pending || q in evaluated)
    && (forall i, j :: 0 <= i < j < |evaluated| ==> evaluated[i] != evaluated[j])
  }

  /** The fan-out and fan-in of `optimized_find_matching_request`: every
      candidate is evaluated once, in an arbitrary completion order, and the
      survivors are collected as they complete, one result per surviving
      candidate. */
  method CollectMatchResults(index: InteractionIndex, candidates: seq<nat>, request: Request, m: Matchers)
    returns (matchResults: seq<MatchResult>, ghost evaluated: seq<nat>)
    requires |index.pacts| == |index.allInteractions|
    requires forall k :: 0 <= k < |candidates| ==> candidates[k] < |index.allInteractions|
    ensures multiset(matchResults) == multiset(Evaluate(index.EntriesAt(candidates), request, m))
    ensures forall x :: x in matchResults <==> x in Evaluate(index.EntriesAt(candidates), request, m)
    ensures forall k :: 0 <= k < |evaluated| ==> evaluated[k] < |candidates|
    ensures forall p :: 0 <= p < |candidates| ==> p in evaluated
    ensures forall i, j :: 0 <= i < j < |evaluated| ==> evaluated[i] != evaluated[j]
  {
    ghost var outs := OutcomesOf(index.EntriesAt(candidates), request, m);
    evaluated := [];
    var pending := AllPositions(|candidates|);
    matchResults := [];
    while pending != {}
      invariant forall p :: p in pending ==> 0 <= p < |candidates|
      invariant Tracked(evaluated, pending, |candidates|)
      invariant matchResults == Gathered(outs, evaluated)
      decreases pending
    {
      var p :| p in pending;
      var outcome := EvaluateCandidate(index, candidates[p], request, m);
      assert outcome == outs[p];
      matchResults := matchResults + outcome;
      EvaluatedStep(evaluated, pending, p, |candidates|);
      assert (evaluated + [p])[..|evaluated|] == evaluated;
      pending := pending - {p};
      evaluated := evaluated + [p];
    }
    CollectedAreSurvivors(index.EntriesAt(candidates), request, m, matchResults, evaluated);
  }

  /** After the drain, the collected results are the survivors. */
  lemma CollectedAreSurvivors(entries: seq<Entry>, request: Request, m: Matchers, matchResults: seq<MatchResult>,
                              evaluated: seq<nat>)
    requires Tracked(evaluated, {}, |entries|)
    requires matchResults == Gathered(OutcomesOf(entries, request, m), evaluated)
    ensures multiset(matchResults) == multiset(Evaluate(entries, request, m))
    ensures forall x :: x in matchResults <==> x in Evaluate(entries, request, m)
  {
    GatheredAreSurvivors(entries, request, m, evaluated);
    SameMembers(matchResults, Evaluate(entries, request, m));
  }

  lemma SameMembers(a: seq<MatchResult>, b: seq<MatchResult>)
    requires multiset(a) == multiset(b)
    ensures forall x :: x in a <==> x in b
  {
    forall x ensures x in a <==> x in b {
      assert x in a <==> x in multiset(a);
      assert x in b <==> x in multiset(b);
    }
  }

  /** Sorting results that are the survivors in some order and taking the
      first gives a survivor with the fewest mismatches, and there is a
      first exactly when there is a survivor. */
  lemma ChosenIsMinimalSurvivor(collected: seq<MatchResult>, survivors: seq<MatchResult>)
    requires forall x :: x in collected <==> x in survivors
    ensures |SortByCount(collected)| > 0 <==> |survivors| > 0
    ensures |SortByCount(collected)| > 0 ==>
              exists k :: IsMinimalAt(survivors, k) && survivors[k] == SortByCount(collected)[0]
  {
    SortByCountPermutes(collected);
    assert |multiset(SortByCount(collected))| == |multiset(collected)|;
    if |survivors| > 0 {
      assert survivors[0] in collected;
    }
    if |collected| > 0 {
      SortByCountHeadIsMinimal(collected);
      var best := SortByCount(collected)[0];
      var k :| 0 <= k < |survivors| && survivors[k] == best;
      assert IsMinimalAt(survivors, k);
    }
  }

  // =====================================================================
  // Reference pipeline

  /** The entries that pass the method and path check, in order. */
  function ScanFiltered(entries: seq<Entry>, request: Request, m: Matchers): seq<Entry> {
    if |entries| == 0 then []
    else
      var last := entries[|entries| - 1];
      ScanFiltered(entries[..|entries| - 1], request, m) + (if ScanAccepts(last, request, m) then [last] else [])
  }

  /** The entries whose provider-state names the rule accepts, in order. */
  function StateFilteredEntries(entries: seq<Entry>, selector: Option<Regex>, emptyAllowed: bool, m: Matchers): seq<Entry> {
    if |entries| == 0 then []
    else
      var last := entries[|entries| - 1];
      StateFilteredEntries(entries[..|entries| - 1], selector, emptyAllowed, m) +
      (if StatePasses(selector, emptyAllowed, StateNames(last.interaction), m) then [last] else [])
  }

  /** The survivors of the reference pipeline, in catalog order. */
  function ReferenceSurvivors(request: Request, sources: seq<Pact>, selector: Option<Regex>,
                              emptyAllowed: bool, m: Matchers): seq<MatchResult>
  {
    Evaluate(StateFilteredEntries(ScanFiltered(Catalog(sources), request, m), selector, emptyAllowed, m), request, m)
  }

  /** `find_matching_request`: scan, provider-state filter, evaluation,
      stable ranking; when nothing matches, the preflight reply or the
      error. */
  function FindMatchingRequest(request: Request, autoCors: bool, corsReferer: bool, sources: seq<Pact>,
                               selector: Option<Regex>, emptyAllowed: bool, m: Matchers): Result<Response>
  {
    var matchResults := SortByCount(ReferenceSurvivors(request, sources, selector, emptyAllowed, m));
    if |matchResults| > 0 then Ok(m.generate(matchResults[0].interaction.response))
    else if IsPreflight(autoCors, request) then Ok(CorsResponse(request, corsReferer))
    else NoMatch(request)
  }

  /** The reference pipeline answers with the earliest survivor, in catalog
      order, among those with the fewest mismatches. */
  lemma ReferencePicksEarliestMinimal(request: Request, autoCors: bool, corsReferer: bool, sources: seq<Pact>,
                                      selector: Option<Regex>, emptyAllowed: bool, m: Matchers)
    ensures var s := ReferenceSurvivors(request, sources, selector, emptyAllowed, m);
            |s| > 0 ==> exists k :: (IsFirstMinimalAt(s, k) &&
              FindMatchingRequest(request, autoCors, corsReferer, sources, selector, emptyAllowed, m) ==
              Ok(m.generate(s[k].interaction.response)))
  {
    var s := ReferenceSurvivors(request, sources, selector, emptyAllowed, m);
    if |s| > 0 {
      SortByCountHead(s);
    }
  }

  /** With no survivor the reference pipeline synthesises the preflight reply
      when automatic CORS is on and the method is OPTIONS, and returns the
      error otherwise; it returns the error only then. */
  lemma ReferenceWithoutSurvivors(request: Request, autoCors: bool, corsReferer: bool, sources: seq<Pact>,
                                  selector: Option<Regex>, emptyAllowed: bool, m: Matchers)
    ensures var s := ReferenceSurvivors(request, sources, selector, emptyAllowed, m);
            |s| == 0 ==>
              FindMatchingRequest(request, autoCors, corsReferer, sources, selector, emptyAllowed, m) ==
              (if IsPreflight(autoCors, request) then Ok(CorsResponse(request, corsReferer)) else NoMatch(request))
    ensures FindMatchingRequest(request, autoCors, corsReferer, sources, selector, emptyAllowed, m).Err? <==>
              |ReferenceSurvivors(request, sources, selector, emptyAllowed, m)| == 0 && !IsPreflight(autoCors, request)
  {
    var s := ReferenceSurvivors(request, sources, selector, emptyAllowed, m);
    SortByCountPermutes(s);
    assert |multiset(SortByCount(s))| == |multiset(s)|;
  }

  /** The first fixture: two interactions of one pact that both survive
      with the same number of mismatches; the first one answers. */
  lemma ReferenceTieGoesToFirst(i1: Interaction, i2: Interaction, name: string, request: Request, m: Matchers)
    requires var p := Pact(name, [i1, i2]);
             ScanAccepts(Entry(i1, p), request, m) && ScanAccepts(Entry(i2, p), request, m) &&
             AllMatched(m.matchRequest(i1.request, request, p, i1), request) &&
             AllMatched(m.matchRequest(i2.request, request, p, i2), request) &&
             |m.matchRequest(i1.request, request, p, i1)| == |m.matchRequest(i2.request, request, p, i2)|
    ensures FindMatchingRequest(request, false, false, [Pact(name, [i1, i2])], None, false, m) ==
            Ok(m.generate(i1.response))
  {
    var p := Pact(name, [i1, i2]);
    var e1, e2 := Entry(i1, p), Entry(i2, p);
    assert [p][..0] == [];
    assert Catalog([p]) == [e1, e2];
    assert [e1, e2][..1] == [e1] && [e1][..0] == [];
    assert ScanFiltered([e1], request, m) == [e1];
    assert ScanFiltered([e1, e2], request, m) == [e1, e2];
    assert StateFilteredEntries([e1], None, false, m) == [e1];
    assert StateFilteredEntries([e1, e2], None, false, m) == [e1, e2];
    assert Evaluate([e1], request, m) == [MatchResult(i1, m.matchRequest(i1.request, request, p, i1))];
    var s := ReferenceSurvivors(request, [p], None, false, m);
    assert s == [MatchResult(i1, m.matchRequest(i1.request, request, p, i1)),
                 MatchResult(i2, m.matchRequest(i2.request, request, p, i2))];
    SortByCountHead(s);
    var k :| IsFirstMinimalAt(s, k) && SortByCount(s)[0] == s[k];
    assert k == 0;
  }

  // =====================================================================
  // handle_request

  /** The 404 reply; with automatic CORS it carries the wildcard origin. */
  function NotFound(autoCors: bool): (r: Response)
    ensures r.status == 404 && r.body == Missing
    ensures autoCors ==> r.headers == Some(map[AllowOrigin := ["*"]])
    ensures !autoCors ==> r.headers == None
  {
    DefaultResponse().(status := 404, headers := if autoCors then Some(map[AllowOrigin := ["*"]]) else None)
  }

  /** `handle_request`: the reference pipeline's response, or the 404 reply
      when it returns the error. */
  function HandleRequest(request: Request, autoCors: bool, corsReferer: bool, sources: seq<Pact>,
                         selector: Option<Regex>, emptyAllowed: bool, m: Matchers): (r: Response)
    ensures var s := ReferenceSurvivors(request, sources, selector, emptyAllowed, m);
            |s| == 0 && !IsPreflight(autoCors, request) ==> r == NotFound(autoCors)
    ensures var s := ReferenceSurvivors(request, sources, selector, emptyAllowed, m);
            |s| == 0 && IsPreflight(autoCors, request) ==> r == CorsResponse(request, corsReferer)
    ensures var s := ReferenceSurvivors(request, sources, selector, emptyAllowed, m);
            |s| > 0 ==> exists k :: IsFirstMinimalAt(s, k) && r == m.generate(s[k].interaction.response)
  {
    ReferenceWithoutSurvivors(request, autoCors, corsReferer, sources, selector, emptyAllowed, m);
    ReferencePicksEarliestMinimal(request, autoCors, corsReferer, sources, selector, emptyAllowed, m);
    match FindMatchingRequest(request, autoCors, corsReferer, sources, selector, emptyAllowed, m)
    case Ok(response) => response
    case Err(_) => NotFound(autoCors)
  }

  // =====================================================================
  // The handler

  /** The state every request handler shares: the loaded pacts, the index
      built from them, and the configuration. */
  datatype ServerHandler = ServerHandler(
    sources: seq<Pact>,
    index: InteractionIndex,
    autoCors: bool,
    corsReferer: bool,
    providerState: Option<Regex>,
    providerStateHeaderName: Option<string>,
    emptyProviderStates: bool)

  /** `ServerHandler::new`: builds the index from the sources. */
  method NewServerHandler(sources: seq<Pact>, autoCors: bool, corsReferer: bool, providerState: Option<Regex>,
                          providerStateHeaderName: Option<string>, emptyProviderStates: bool)
    returns (handler: ServerHandler)
    ensures handler.index.Built(sources)
    ensures handler == ServerHandler(sources, handler.index, autoCors, corsReferer, providerState,
                                     providerStateHeaderName, emptyProviderStates)
  {
    var index := BuildFromSources(sources);
    handler := ServerHandler(sources, index, autoCors, corsReferer, providerState,
                             providerStateHeaderName, emptyProviderStates);
  }

  /** Position `k` holds the first raw header field named `name` in some
      letter case. */
  predicate IsFirstFieldAt(fields: seq<HeaderField>, name: string, k: int) {
    0 <= k < |fields| && EqualIgnoringCase(fields[k].name, name) &&
    forall j :: 0 <= j < k ==> !EqualIgnoringCase(fields[j].name, name)
  }

  /** The first raw header field named `name`, in any letter case. */
  function FindField(fields: seq<HeaderField>, name: string): (r: Option<string>)
    ensures r.None? <==> forall k :: 0 <= k < |fields| ==> !EqualIgnoringCase(fields[k].name, name)
    ensures r.Some? ==> exists k :: IsFirstFieldAt(fields, name, k) && r.value == fields[k].value
  {
    if |fields| == 0 then None
    else if EqualIgnoringCase(fields[0].name, name) then
      assert IsFirstFieldAt(fields, name, 0);
      Some(fields[0].value)
    else
      var r := FindField(fields[1..], name);
      assert forall k :: 1 <= k < |fields| ==> fields[k] == fields[1..][k - 1];
      if r.Some? then
        var k :| IsFirstFieldAt(fields[1..], name, k) && r.value == fields[1..][k].value;
        assert IsFirstFieldAt(fields, name, k + 1);
        r
      else
        r
  }

  /** The selector for one request: the value of the configured override
      header, when a name is configured and the header is present, taken as
      a pattern; otherwise the configured selector. */
  function EffectiveProviderState(handler: ServerHandler, parts: RequestParts): (r: Option<Regex>)
    ensures handler.providerStateHeaderName.None? ==> r == handler.providerState
    ensures handler.providerStateHeaderName.Some? ==>
              var header := FindField(parts.headers, handler.providerStateHeaderName.value);
              (header.None? ==> r == handler.providerState) &&
              (header.Some? ==> r == Some(Regex(header.value)))
  {
    match handler.providerStateHeaderName
    case Some(name) =>
      (match FindField(parts.headers, name)
       case Some(value) => Some(Regex(value))
       case None => handler.providerState)
    case None => handler.providerState
  }

  /** The request body after reading it: `None` is a failed read. A failed
      read and an empty read both give an empty body. */
  function ReadBody(read: Option<seq<bv8>>): (r: Body)
    ensures r.Present? <==> read.Some? && |read.value| > 0
    ensures r.Present? ==> r.content == read.value
    ensures !r.Present? ==> r == Empty
  {
    match read
    case Some(contents) => if |contents| == 0 then Empty else Present(contents)
    case None => Empty
  }

  /** The converted request the pipelines see. */
  function PactRequest(parts: RequestParts, read: Option<seq<bv8>>, m: Matchers): Request {
    m.toPactRequest(parts, ReadBody(read))
  }

  /** `ServerHandler::call`: the optimized pipeline, and on its error the
      reference pipeline with the 404 mapping. */
  method Call(handler: ServerHandler, parts: RequestParts, read: Option<seq<bv8>>, m: Matchers)
    returns (response: Response)
    requires handler.index.Built(handler.sources)
    ensures var request := PactRequest(parts, read, m);
            IsPreflight(handler.autoCors, request) ==> response == CorsResponse(request, handler.corsReferer)
    ensures var request := PactRequest(parts, read, m);
            var s := OptimizedSurvivors(handler.index, request, EffectiveProviderState(handler, parts),
                                        handler.emptyProviderStates, m);
            !IsPreflight(handler.autoCors, request) && |s| > 0 ==>
              exists k :: IsMinimalAt(s, k) && response == m.generate(s[k].interaction.response)
    ensures var request := PactRequest(parts, read, m);
            var selector := EffectiveProviderState(handler, parts);
            var s := OptimizedSurvivors(handler.index, request, selector, handler.emptyProviderStates, m);
            !IsPreflight(handler.autoCors, request) && |s| == 0 ==>
              response == HandleRequest(request, handler.autoCors, handler.corsReferer, handler.sources,
                                        selector, handler.emptyProviderStates, m)
  {
    var selector := EffectiveProviderState(handler, parts);
    var body := ReadBody(read);
    var request := m.toPactRequest(parts, body);
    var result, _ := OptimizedFindMatchingRequest(request, handler.autoCors, handler.corsReferer, handler.index,
                                                  selector, handler.emptyProviderStates, m);
    match result
    case Ok(resp) =>
      response := resp;
    case Err(_) =>
      response := HandleRequest(request, handler.autoCors, handler.corsReferer, handler.sources,
                                selector, handler.emptyProviderStates, m);
  }
}
