/** How the optimized pipeline relates to the reference pipeline it falls
    back to: on the full-scan path both see the same survivors, so a failed
    optimized run makes the fallback reply 404; on the exact-key path the
    optimized pipeline never looks past the exact-key list, and the fallback
    can find a match it missed. */
module Fallback {
  import opened PactModels
  import opened Text
  import opened Policy
  import opened Index
  import opened Cors
  import opened Dispatch

  lemma EntriesAtAppend(index: InteractionIndex, a: seq<nat>, b: seq<nat>)
    requires |index.pacts| == |index.allInteractions|
    requires forall k :: 0 <= k < |a| ==> a[k] < |index.allInteractions|
    requires forall k :: 0 <= k < |b| ==> b[k] < |index.allInteractions|
    ensures index.EntriesAt(a + b) == index.EntriesAt(a) + index.EntriesAt(b)
  {
  }

  /** Over an index that mirrors `entries`, the scanned positions below `k`
      hold exactly the entries among the first `k` that the reference
      pipeline's method and path filter keeps, in the same order. */
  lemma {:induction false} ScanPositionsMirrorScanFiltered(index: InteractionIndex, entries: seq<Entry>, request: Request,
                                                            m: Matchers, k: nat)
    requires index.Mirrors(entries) && k <= |entries|
    ensures index.EntriesAt(index.ScanPositions(request, m, k)) == ScanFiltered(entries[..k], request, m)
  {
    if k > 0 {
      ScanPositionsMirrorScanFiltered(index, entries, request, m, k - 1);
      ScanStep(index, entries, request, m, k - 1);
      assert entries[..k][..k - 1] == entries[..k - 1];
    }
  }

  /** One step of the scan: position `i` is appended exactly when the
      reference check accepts entry `i`. */
  lemma ScanStep(index: InteractionIndex, entries: seq<Entry>, request: Request, m: Matchers, i: nat)
    requires index.Mirrors(entries) && i < |entries|
    ensures index.EntriesAt(index.ScanPositions(request, m, i + 1)) ==
            index.EntriesAt(index.ScanPositions(request, m, i)) +
            (if ScanAccepts(entries[i], request, m) then [entries[i]] else [])
  {
    var front := index.ScanPositions(request, m, i);
    var tail := if index.QuickCheckPathMatch(i, request, m) then [i] else [];
    EntriesAtAppend(index, front, tail);
    assert index.QuickCheckPathMatch(i, request, m) == ScanAccepts(entries[i], request, m);
    assert index.GetInteractionAndPact(i) == entries[i];
  }

  /** The cached provider-state names of every position are the names of
      the interaction stored there. */
  ghost predicate StatesCached(index: InteractionIndex) {
    && |index.pacts| == |index.allInteractions|
    && |index.providerStates| == |index.allInteractions|
    && forall i :: 0 <= i < |index.allInteractions| ==>
         index.providerStates[i] == StateNames(index.allInteractions[i])
  }

  /** The provider-state filter over positions keeps exactly the entries the
      reference pipeline's filter keeps, in the same order. */
  lemma {:induction false} StateFilteredAreStateFilteredEntries(index: InteractionIndex, s: seq<nat>,
                                                                 selector: Option<Regex>, emptyAllowed: bool, m: Matchers)
    requires StatesCached(index)
    requires forall k :: 0 <= k < |s| ==> s[k] < |index.allInteractions|
    ensures forall k :: 0 <= k < |index.StateFiltered(s, selector, emptyAllowed, m)| ==>
              index.StateFiltered(s, selector, emptyAllowed, m)[k] < |index.allInteractions|
    ensures index.EntriesAt(index.StateFiltered(s, selector, emptyAllowed, m)) ==
            StateFilteredEntries(index.EntriesAt(s), selector, emptyAllowed, m)
  {
    StateFilteredBounded(index, s, selector, emptyAllowed, m);
    if |s| > 0 {
      var front := s[..|s| - 1];
      StateFilteredAreStateFilteredEntries(index, front, selector, emptyAllowed, m);
      StateFilterStep(index, s, selector, emptyAllowed, m);
    }
  }

  lemma StateFilteredBounded(index: InteractionIndex, s: seq<nat>, selector: Option<Regex>, emptyAllowed: bool,
                             m: Matchers)
    requires |index.providerStates| == |index.allInteractions|
    requires forall k :: 0 <= k < |s| ==> s[k] < |index.allInteractions|
    ensures forall k :: 0 <= k < |index.StateFiltered(s, selector, emptyAllowed, m)| ==>
              index.StateFiltered(s, selector, emptyAllowed, m)[k] < |index.allInteractions|
  {
    var f := index.StateFiltered(s, selector, emptyAllowed, m);
    forall k | 0 <= k < |f| ensures f[k] < |index.allInteractions| {
      assert f[k] in f;
      FilterMembership(index, s, selector, emptyAllowed, m, f[k]);
    }
  }

  /** One step of the filter: the last position is kept exactly when the
      reference filter keeps its entry. */
  lemma StateFilterStep(index: InteractionIndex, s: seq<nat>, selector: Option<Regex>, emptyAllowed: bool, m: Matchers)
    requires StatesCached(index)
    requires |s| > 0 && forall k :: 0 <= k < |s| ==> s[k] < |index.allInteractions|
    requires var front := s[..|s| - 1];
             (forall k :: 0 <= k < |index.StateFiltered(front, selector, emptyAllowed, m)| ==>
                index.StateFiltered(front, selector, emptyAllowed, m)[k] < |index.allInteractions|) &&
             index.EntriesAt(index.StateFiltered(front, selector, emptyAllowed, m)) ==
             StateFilteredEntries(index.EntriesAt(front), selector, emptyAllowed, m)
    ensures index.EntriesAt(index.StateFiltered(s, selector, emptyAllowed, m)) ==
            StateFilteredEntries(index.EntriesAt(s), selector, emptyAllowed, m)
  {
    var front := s[..|s| - 1];
    var last := s[|s| - 1];
    var tail := if index.StateOk(last, selector, emptyAllowed, m) then [last] else [];
    EntriesAtAppend(index, index.StateFiltered(front, selector, emptyAllowed, m), tail);
    var es := index.EntriesAt(s);
    assert es[..|es| - 1] == index.EntriesAt(front);
    assert es[|es| - 1] == index.GetInteractionAndPact(last);
  }

  lemma {:induction false} StateFilteredEntriesWithoutSelector(entries: seq<Entry>, emptyAllowed: bool, m: Matchers)
    ensures StateFilteredEntries(entries, None, emptyAllowed, m) == entries
  {
    if |entries| > 0 {
      StateFilteredEntriesWithoutSelector(entries[..|entries| - 1], emptyAllowed, m);
      assert entries == entries[..|entries| - 1] + [entries[|entries| - 1]];
    }
  }

  /** When the exact-key list is empty, the optimized pipeline evaluates the
      same candidates, in the same order, as the reference pipeline, so both
      have the same survivors. */
  lemma ScanPathSurvivorsAgree(index: InteractionIndex, sources: seq<Pact>, request: Request,
                               selector: Option<Regex>, emptyAllowed: bool, m: Matchers)
    requires index.Built(sources)
    requires |index.GetCandidatesByMethodPath(request.httpMethod, request.path)| == 0
    ensures OptimizedSurvivors(index, request, selector, emptyAllowed, m) ==
            ReferenceSurvivors(request, sources, selector, emptyAllowed, m)
  {
    var n := |index.allInteractions|;
    var catalog := Catalog(sources);
    ScanPositionsMirrorScanFiltered(index, catalog, request, m, n);
    assert catalog[..n] == catalog;
    var scanned := index.ScanPositions(request, m, n);
    if selector.Some? {
      StateFilteredAreStateFilteredEntries(index, scanned, selector, emptyAllowed, m);
    } else {
      StateFilteredEntriesWithoutSelector(ScanFiltered(catalog, request, m), emptyAllowed, m);
    }
  }

  /** On the full-scan path a failed optimized run means the fallback finds
      nothing either and the reply is the 404. */
  lemma ScanPathFallbackIsNotFound(index: InteractionIndex, sources: seq<Pact>, request: Request, autoCors: bool,
                                   corsReferer: bool, selector: Option<Regex>, emptyAllowed: bool, m: Matchers)
    requires index.Built(sources)
    requires |index.GetCandidatesByMethodPath(request.httpMethod, request.path)| == 0
    requires !IsPreflight(autoCors, request)
    requires |OptimizedSurvivors(index, request, selector, emptyAllowed, m)| == 0
    ensures HandleRequest(request, autoCors, corsReferer, sources, selector, emptyAllowed, m) == NotFound(autoCors)
  {
    ScanPathSurvivorsAgree(index, sources, request, selector, emptyAllowed, m);
  }

  /** On the full-scan path, for a request that is not a preflight, the
      reference answer is generated from a survivor the optimized pipeline
      may answer from: both pipelines pick among the same survivors with the
      fewest mismatches, and differ at most in the tie-break. A preflight
      under automatic CORS is the exception (`PreflightRepliesDiffer`). */
  lemma ScanPathReferenceAnswerIsOptimizedAnswer(index: InteractionIndex, sources: seq<Pact>, request: Request,
                                                 autoCors: bool, corsReferer: bool, selector: Option<Regex>,
                                                 emptyAllowed: bool, m: Matchers)
    requires index.Built(sources)
    requires !IsPreflight(autoCors, request)
    requires |index.GetCandidatesByMethodPath(request.httpMethod, request.path)| == 0
    requires |OptimizedSurvivors(index, request, selector, emptyAllowed, m)| > 0
    ensures var s := OptimizedSurvivors(index, request, selector, emptyAllowed, m);
            exists k :: IsMinimalAt(s, k) &&
              FindMatchingRequest(request, autoCors, corsReferer, sources, selector, emptyAllowed, m) ==
              Ok(m.generate(s[k].interaction.response))
  {
    ScanPathSurvivorsAgree(index, sources, request, selector, emptyAllowed, m);
    ReferencePicksEarliestMinimal(request, autoCors, corsReferer, sources, selector, emptyAllowed, m);
  }

  /** A pact with one OPTIONS interaction recorded for `/items/42`, whose
      path rule accepts any item path, replying 204. */
  function PreflightPact(): Pact {
    Pact("preflight", [
      Interaction(Request("OPTIONS", "/items/42", None, None, Missing, map["path" := ["regex"]]),
                  Response(204, None, Missing), [])])
  }

  /** A live `OPTIONS /items/1`. */
  function PreflightRequest(): Request {
    Request("OPTIONS", "/items/1", None, None, Missing, map[])
  }

  /** The exact-key list for `OPTIONS /items/1` is empty. */
  lemma PreflightExactKeyList(index: InteractionIndex)
    requires index.Built([PreflightPact()])
    ensures |index.GetCandidatesByMethodPath("OPTIONS", "/items/1")| == 0
  {
    var p := PreflightPact();
    assert [p][..0] == [];
    assert Catalog([p]) == [Entry(p.interactions[0], p)];
    assert |index.KeyOf(0)| != |MethodPathKey("OPTIONS", "/items/1")|;
    var exact := index.GetCandidatesByMethodPath("OPTIONS", "/items/1");
    assert forall i: nat :: i !in exact;
    StrictlyIncreasingUnique(exact, []);
  }

  /** The reference method and path filter keeps the recorded interaction
      through its path rule. */
  lemma PreflightScan()
    ensures var p := PreflightPact();
            ScanFiltered(Catalog([p]), PreflightRequest(), ExampleMatchers()) == [Entry(p.interactions[0], p)]
  {
    var p := PreflightPact();
    var e := Entry(p.interactions[0], p);
    assert [p][..0] == [];
    assert Catalog([p]) == [e];
    assert [e][..0] == [];
    assert PathContextOf(e.interaction.request) == PathContext(["regex"]);
    assert ScanAccepts(e, PreflightRequest(), ExampleMatchers());
  }

  /** The recorded interaction survives with no mismatch. */
  lemma PreflightEvaluation()
    ensures var p := PreflightPact();
            Evaluate([Entry(p.interactions[0], p)], PreflightRequest(), ExampleMatchers()) ==
            [MatchResult(p.interactions[0], [])]
  {
    var p := PreflightPact();
    var a := p.interactions[0];
    var e := Entry(a, p);
    assert [e][..0] == [];
    assert ExampleMatchers().matchRequest(a.request, PreflightRequest(), p, a) == [];
  }

  /** The reference pipeline's survivors: the recorded interaction, with no
      mismatch. */
  lemma PreflightReferenceSurvivors()
    ensures ReferenceSurvivors(PreflightRequest(), [PreflightPact()], None, false, ExampleMatchers()) ==
            [MatchResult(PreflightPact().interactions[0], [])]
  {
    var p := PreflightPact();
    PreflightScan();
    StateFilteredEntriesWithoutSelector([Entry(p.interactions[0], p)], false, ExampleMatchers());
    PreflightEvaluation();
  }

  /** The optimized pipeline's survivors are the same. */
  lemma PreflightOptimizedSurvivors(index: InteractionIndex)
    requires index.Built([PreflightPact()])
    ensures OptimizedSurvivors(index, PreflightRequest(), None, false, ExampleMatchers()) ==
            [MatchResult(PreflightPact().interactions[0], [])]
  {
    PreflightExactKeyList(index);
    PreflightReferenceSurvivors();
    ScanPathSurvivorsAgree(index, [PreflightPact()], PreflightRequest(), None, false, ExampleMatchers());
  }

  /** Under automatic CORS the two pipelines can answer a preflight
      differently on the full-scan path: the exact-key list is empty and a
      recorded OPTIONS interaction survives in both pipelines, so the
      reference pipeline answers with its 204; the optimized pipeline
      answers every preflight with the 200 CORS reply before matching. */
  lemma PreflightRepliesDiffer(index: InteractionIndex)
    requires index.Built([PreflightPact()])
    ensures IsPreflight(true, PreflightRequest())
    ensures |index.GetCandidatesByMethodPath("OPTIONS", "/items/1")| == 0
    ensures |OptimizedSurvivors(index, PreflightRequest(), None, false, ExampleMatchers())| > 0
    ensures FindMatchingRequest(PreflightRequest(), true, false, [PreflightPact()], None, false, ExampleMatchers()) ==
            Ok(Response(204, None, Missing))
    ensures CorsResponse(PreflightRequest(), false).status == 200
  {
    PreflightIsPreflight();
    PreflightExactKeyList(index);
    PreflightOptimizedSurvivors(index);
    PreflightReferenceReply();
  }

  lemma PreflightIsPreflight()
    ensures IsPreflight(true, PreflightRequest())
  {
    assert ToUpper("OPTIONS") == "OPTIONS";
  }

  /** The reference pipeline answers the preflight with the recorded 204. */
  lemma PreflightReferenceReply()
    ensures FindMatchingRequest(PreflightRequest(), true, false, [PreflightPact()], None, false, ExampleMatchers()) ==
            Ok(Response(204, None, Missing))
  {
    PreflightReferenceSurvivors();
    var a := PreflightPact().interactions[0];
    assert SortByCount([MatchResult(a, [])]) == [MatchResult(a, [])];
  }

  // ---------------------------------------------------------------------
  // The exact-key path

  /** A pact with two GET interactions: one recorded for `/items/1` with
      query `x=2`, and one recorded for `/items/42` whose path rule accepts
      any item path, with query `x=1`. */
  function ExamplePact(): Pact {
    Pact("items", [
      Interaction(Request("GET", "/items/1", Some(map["x" := ["2"]]), None, Missing, map[]),
                  Response(200, None, Missing), []),
      Interaction(Request("GET", "/items/42", Some(map["x" := ["1"]]), None, Missing, map["path" := ["regex"]]),
                  Response(201, None, Missing), [])])
  }

  /** A live `GET /items/1?x=1`. */
  function ExampleRequest(): Request {
    Request("GET", "/items/1", Some(map["x" := ["1"]]), None, Missing, map[])
  }

  /** Matchers in which methods match by equality, a path matches when it is
      equal or the template has path rules, and the only mismatch reported
      is a query mismatch when the queries differ. */
  function ExampleMatchers(): Matchers {
    Matchers(
      (expected: string, actual: string) => expected == actual,
      (expected: string, actual: string, context: PathContext) => expected == actual || |context.rules| > 0,
      (expected: Request, actual: Request, pact: Pact, interaction: Interaction) =>
        if expected.query == actual.query then [] else [QueryMismatch],
      (re: Regex, name: string) => false,
      (response: Response) => response,
      (parts: RequestParts, body: Body) => Request(parts.httpMethod, parts.uri, None, None, body, map[]))
  }

  /** For `GET /items/1` the exact-key list holds only the first
      interaction. */
  lemma ExampleExactKeyList(index: InteractionIndex)
    requires index.Built([ExamplePact()])
    ensures index.GetCandidatesByMethodPath("GET", "/items/1") == [0]
  {
    var p := ExamplePact();
    assert [p][..0] == [];
    assert Catalog([p]) == [Entry(p.interactions[0], p), Entry(p.interactions[1], p)];
    var exact := index.GetCandidatesByMethodPath("GET", "/items/1");
    assert index.KeyOf(0) == MethodPathKey("GET", "/items/1");
    assert |index.KeyOf(1)| != |MethodPathKey("GET", "/items/1")|;
    assert forall i: nat :: i in exact <==> i == 0;
    StrictlyIncreasingUnique(exact, [0]);
  }

  /** The only optimized candidate is disqualified by its query mismatch. */
  lemma ExampleOptimizedFails(index: InteractionIndex)
    requires index.Built([ExamplePact()])
    ensures OptimizedSurvivors(index, ExampleRequest(), None, false, ExampleMatchers()) == []
  {
    var p := ExamplePact();
    var a := p.interactions[0];
    var request := ExampleRequest();
    var m := ExampleMatchers();
    assert [p][..0] == [];
    assert Catalog([p]) == [Entry(a, p), Entry(p.interactions[1], p)];
    ExampleExactKeyList(index);
    OptimizedCandidateSelection(index, request, None, false, m);
    assert OptimizedCandidates(index, request, None, false, m) == [0];
    assert index.EntriesAt([0]) == [Entry(a, p)];
    assert a.request.query.value["x"] != request.query.value["x"];
    assert m.matchRequest(a.request, request, p, a) == [QueryMismatch];
    assert !AllMatched([QueryMismatch], request) by {
      assert Disqualifies([QueryMismatch][0], request);
    }
    assert Evaluate([Entry(a, p)], request, m) == [];
  }

  /** The reference method and path filter keeps both interactions: the
      first by its equal path, the second through its path rule. */
  lemma ExampleReferenceScan()
    ensures var p := ExamplePact();
            ScanFiltered(Catalog([p]), ExampleRequest(), ExampleMatchers()) ==
            [Entry(p.interactions[0], p), Entry(p.interactions[1], p)]
  {
    var p := ExamplePact();
    var request := ExampleRequest();
    var m := ExampleMatchers();
    var ea, eb := Entry(p.interactions[0], p), Entry(p.interactions[1], p);
    assert [p][..0] == [];
    assert Catalog([p]) == [ea, eb];
    assert [ea, eb][..1] == [ea] && [ea][..0] == [];
    assert ScanAccepts(ea, request, m);
    assert PathContextOf(eb.interaction.request) == PathContext(["regex"]);
    assert ScanAccepts(eb, request, m);
    assert ScanFiltered([ea], request, m) == [ea];
  }

  /** Of the two interactions only the second survives, with no mismatch. */
  lemma ExampleEvaluation()
    ensures var p := ExamplePact();
            Evaluate([Entry(p.interactions[0], p), Entry(p.interactions[1], p)], ExampleRequest(), ExampleMatchers()) ==
            [MatchResult(p.interactions[1], [])]
  {
    var p := ExamplePact();
    var a, b := p.interactions[0], p.interactions[1];
    var request := ExampleRequest();
    var m := ExampleMatchers();
    var ea, eb := Entry(a, p), Entry(b, p);
    assert [ea, eb][..1] == [ea] && [ea][..0] == [];
    assert a.request.query.value["x"] != request.query.value["x"];
    assert m.matchRequest(a.request, request, p, a) == [QueryMismatch];
    assert !AllMatched([QueryMismatch], request) by {
      assert Disqualifies([QueryMismatch][0], request);
    }
    assert Evaluate([ea], request, m) == [];
    assert m.matchRequest(b.request, request, p, b) == [];
  }

  /** The reference pipeline's survivors: the second interaction alone. */
  lemma ExampleReferenceSurvivors()
    ensures ReferenceSurvivors(ExampleRequest(), [ExamplePact()], None, false, ExampleMatchers()) ==
            [MatchResult(ExamplePact().interactions[1], [])]
  {
    var p := ExamplePact();
    ExampleReferenceScan();
    StateFilteredEntriesWithoutSelector([Entry(p.interactions[0], p), Entry(p.interactions[1], p)], false, ExampleMatchers());
    ExampleEvaluation();
  }

  /** The fallback is not a no-op: the exact-key list for `GET /items/1`
      holds only the first interaction, which a query mismatch disqualifies,
      so the optimized pipeline fails; the reference pipeline scans every
      interaction, admits the second through its path rule, and answers with
      its response. */
  lemma OptimizedMayMissReferenceMatch(index: InteractionIndex)
    requires index.Built([ExamplePact()])
    ensures |index.GetCandidatesByMethodPath("GET", "/items/1")| > 0
    ensures OptimizedSurvivors(index, ExampleRequest(), None, false, ExampleMatchers()) == []
    ensures FindMatchingRequest(ExampleRequest(), false, false, [ExamplePact()], None, false, ExampleMatchers()) ==
            Ok(ExamplePact().interactions[1].response)
    ensures HandleRequest(ExampleRequest(), false, false, [ExamplePact()], None, false, ExampleMatchers()).status == 201
  {
    ExampleExactKeyList(index);
    ExampleOptimizedFails(index);
    ExampleReferenceSurvivors();
    var b := ExamplePact().interactions[1];
    assert SortByCount([MatchResult(b, [])]) == [MatchResult(b, [])];
  }
}
