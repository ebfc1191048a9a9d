/** The interaction index built once at start-up: parallel sequences of the
    interactions, their pacts, their provider-state names and their path
    contexts, and a map from `UPPER(method):path` to the positions sharing
    that key. */
module Index {
  import opened PactModels
  import opened Text
  import opened Policy

  /** The lookup key of a method and a path. */
  function MethodPathKey(httpMethod: string, path: string): string {
    ToUpper(httpMethod) + ":" + path
  }

  predicate StrictlyIncreasing(s: seq<nat>) {
    forall i, j :: 0 <= i < j < |s| ==> s[i] < s[j]
  }

  predicate EqualIgnoringCase(a: string, b: string) {
    ToLower(a) == ToLower(b)
  }

  datatype InteractionIndex = InteractionIndex(
    methodPathIndex: map<string, seq<nat>>,
    allInteractions: seq<Interaction>,
    pacts: seq<Pact>,
    providerStates: seq<seq<string>>,
    pathContexts: seq<PathContext>)
  {
    /** The key position `i` is stored under. */
    function KeyOf(i: nat): string
      requires i < |allInteractions|
    {
      MethodPathKey(allInteractions[i].request.httpMethod, allInteractions[i].request.path)
    }

    /** At least one position is stored under `key`; every one exists and
        has that key, and the positions are in strictly increasing order. */
    ghost predicate ListedUnder(key: string)
      requires key in methodPathIndex
    {
      var list := methodPathIndex[key];
      |list| > 0 && StrictlyIncreasing(list) &&
      forall j :: 0 <= j < |list| ==> list[j] < |allInteractions| && KeyOf(list[j]) == key
    }

    /** The four sequences are parallel, every position is listed under
        exactly its own key, and no key is stored without a position. */
    ghost predicate Valid() {
      && |pacts| == |allInteractions|
      && |providerStates| == |allInteractions|
      && |pathContexts| == |allInteractions|
      && (forall i :: 0 <= i < |allInteractions| ==> KeyOf(i) in methodPathIndex && i in methodPathIndex[KeyOf(i)])
      && (forall key :: key in methodPathIndex ==> ListedUnder(key))
    }

    /** Position `i` holds the i-th entry of `entries`, its provider-state
        names and its path context. */
    ghost predicate Mirrors(entries: seq<Entry>) {
      && |allInteractions| == |entries|
      && |pacts| == |entries|
      && |providerStates| == |entries|
      && |pathContexts| == |entries|
      && forall i :: 0 <= i < |entries| ==>
           && allInteractions[i] == entries[i].interaction
           && pacts[i] == entries[i].pact
           && providerStates[i] == StateNames(entries[i].interaction)
           && pathContexts[i] == PathContextOf(entries[i].interaction.request)
    }

    /** The index is the one built from `sources`. */
    ghost predicate Built(sources: seq<Pact>) {
      Valid() && Mirrors(Catalog(sources))
    }

    /** `get_candidates_by_method_path`: the positions stored under the
        request's key, or none when the key is absent. */
    function GetCandidatesByMethodPath(httpMethod: string, path: string): (r: seq<nat>)
      requires Valid()
      ensures StrictlyIncreasing(r)
      ensures forall i: nat :: i in r <==> i < |allInteractions| && KeyOf(i) == MethodPathKey(httpMethod, path)
    {
      var key := MethodPathKey(httpMethod, path);
      if key in methodPathIndex then
        assert ListedUnder(key);
        methodPathIndex[key]
      else
        []
    }

    /** `quick_check_path_match`: the method check, then the path check with
        the precomputed context. */
    predicate QuickCheckPathMatch(idx: nat, request: Request, m: Matchers)
      requires idx < |allInteractions| && |pathContexts| == |allInteractions|
    {
      var interaction := allInteractions[idx];
      m.matchMethod(interaction.request.httpMethod, request.httpMethod) &&
      m.matchPath(interaction.request.path, request.path, pathContexts[idx])
    }

    /** The positions below `k`, ascending, that pass the quick check. */
    function ScanPositions(request: Request, m: Matchers, k: nat): (r: seq<nat>)
      requires k <= |allInteractions| && |pathContexts| == |allInteractions|
      ensures forall j :: 0 <= j < |r| ==> r[j] < k
    {
      if k == 0 then []
      else ScanPositions(request, m, k - 1) + (if QuickCheckPathMatch(k - 1, request, m) then [k - 1] else [])
    }

    /** The positions below `k`, ascending, whose key is `key`. */
    function AscendingWithKey(key: string, k: nat): seq<nat>
      requires k <= |allInteractions|
    {
      if k == 0 then []
      else AscendingWithKey(key, k - 1) + (if KeyOf(k - 1) == key then [k - 1] else [])
    }

    /** Whether the provider-state rule accepts position `idx`. */
    predicate StateOk(idx: nat, selector: Option<Regex>, emptyAllowed: bool, m: Matchers)
      requires idx < |providerStates|
    {
      StatePasses(selector, emptyAllowed, providerStates[idx], m)
    }

    /** The positions of `indices` the provider-state rule accepts, in order. */
    function StateFiltered(indices: seq<nat>, selector: Option<Regex>, emptyAllowed: bool, m: Matchers): seq<nat>
      requires forall k :: 0 <= k < |indices| ==> indices[k] < |providerStates|
    {
      if |indices| == 0 then []
      else
        var last := indices[|indices| - 1];
        StateFiltered(indices[..|indices| - 1], selector, emptyAllowed, m) +
        (if StateOk(last, selector, emptyAllowed, m) then [last] else [])
    }

    /** `filter_by_provider_state`: keeps, in order, the positions whose
        provider-state names the rule accepts. */
    method FilterByProviderState(indices: seq<nat>, selector: Option<Regex>, emptyAllowed: bool, m: Matchers)
      returns (filtered: seq<nat>)
      requires forall k :: 0 <= k < |indices| ==> indices[k] < |providerStates|
      ensures filtered == StateFiltered(indices, selector, emptyAllowed, m)
    {
      filtered := [];
      for k := 0 to |indices|
        invariant filtered == StateFiltered(indices[..k], selector, emptyAllowed, m)
      {
        var idx := indices[k];
        var matches := StatePasses(selector, emptyAllowed, providerStates[idx], m);
        if matches {
          filtered := filtered + [idx];
        }
        assert indices[..k + 1][..k] == indices[..k];
      }
      assert indices[..|indices|] == indices;
    }

    /** `get_interaction_and_pact`. */
    function GetInteractionAndPact(idx: nat): Entry
      requires idx < |allInteractions| && |pacts| == |allInteractions|
    {
      Entry(allInteractions[idx], pacts[idx])
    }

    /** The entries at the given positions. */
    function EntriesAt(indices: seq<nat>): (r: seq<Entry>)
      requires |pacts| == |allInteractions|
      requires forall k :: 0 <= k < |indices| ==> indices[k] < |allInteractions|
      ensures |r| == |indices|
      ensures forall k :: 0 <= k < |r| ==> r[k] == GetInteractionAndPact(indices[k])
    {
      seq(|indices|, k requires 0 <= k < |indices| => GetInteractionAndPact(indices[k]))
    }
  }

  /** `InteractionIndex::new`: nothing indexed. */
  function EmptyIndex(): (index: InteractionIndex)
    ensures index.Built([])
  {
    InteractionIndex(map[], [], [], [], [])
  }

  /** `build_from_sources`: every interaction of every pact, in order, gets
      the next position; the four sequences grow together and the position is
      appended to the list of its key. */
  method BuildFromSources(sources: seq<Pact>) returns (index: InteractionIndex)
    ensures index.Built(sources)
  {
    index := EmptyIndex();
    for s := 0 to |sources|
      invariant index.Valid() && index.Mirrors(Catalog(sources[..s]))
    {
      var pact := sources[s];
      ghost var before := Catalog(sources[..s]);
      index := IndexPact(index, pact, before);
      assert sources[..s + 1][..s] == sources[..s];
    }
    assert sources[..|sources|] == sources;
  }

  /** The inner loop of `build_from_sources`: appends every interaction of
      one pact, in order. */
  method IndexPact(index: InteractionIndex, pact: Pact, ghost before: seq<Entry>) returns (next: InteractionIndex)
    requires index.Valid() && index.Mirrors(before)
    ensures next.Valid() && next.Mirrors(before + Tagged(pact.interactions, pact))
  {
    next := index;
    for j := 0 to |pact.interactions|
      invariant next.Valid() && next.Mirrors(before + Tagged(pact.interactions[..j], pact))
    {
      var http := pact.interactions[j];
      ghost var prev := next;
      var idx := |next.allInteractions|;
      next := next.(allInteractions := next.allInteractions + [http], pacts := next.pacts + [pact]);
      var key := MethodPathKey(http.request.httpMethod, http.request.path);
      var list := if key in next.methodPathIndex then next.methodPathIndex[key] else [];
      next := next.(methodPathIndex := next.methodPathIndex[key := list + [idx]]);
      next := next.(providerStates := next.providerStates + [StateNames(http)]);
      next := next.(pathContexts := next.pathContexts + [PathContextOf(http.request)]);
      assert PushedFrom(prev, http, pact, next);
      PushPreservesValid(prev, http, pact, next);
      PushPreservesMirrors(prev, http, pact, next, before + Tagged(pact.interactions[..j], pact));
      TaggedStep(pact, j);
      assert before + Tagged(pact.interactions[..j + 1], pact) ==
             before + Tagged(pact.interactions[..j], pact) + [Entry(http, pact)];
    }
    assert pact.interactions[..|pact.interactions|] == pact.interactions;
  }

  /** `next` is `prev` with `http` of `pact` appended the way
      `build_from_sources` appends it: the next position goes to the end of
      the four sequences and to the end of the list of its key. */
  ghost predicate PushedFrom(prev: InteractionIndex, http: Interaction, pact: Pact, next: InteractionIndex) {
    var key := MethodPathKey(http.request.httpMethod, http.request.path);
    && next.allInteractions == prev.allInteractions + [http]
    && next.pacts == prev.pacts + [pact]
    && next.providerStates == prev.providerStates + [StateNames(http)]
    && next.pathContexts == prev.pathContexts + [PathContextOf(http.request)]
    && next.methodPathIndex ==
         prev.methodPathIndex[key := (if key in prev.methodPathIndex then prev.methodPathIndex[key] else []) +
                                     [|prev.allInteractions|]]
  }

  /** Appending one interaction extends the mirrored catalog by that
      interaction and its pact. */
  lemma PushPreservesMirrors(prev: InteractionIndex, http: Interaction, pact: Pact, next: InteractionIndex,
                             entries: seq<Entry>)
    requires prev.Mirrors(entries) && PushedFrom(prev, http, pact, next)
    ensures next.Mirrors(entries + [Entry(http, pact)])
  {
  }

  lemma TaggedStep(pact: Pact, j: nat)
    requires j < |pact.interactions|
    ensures Tagged(pact.interactions[..j + 1], pact) == Tagged(pact.interactions[..j], pact) + [Entry(pact.interactions[j], pact)]
  {
    assert pact.interactions[..j + 1] == pact.interactions[..j] + [pact.interactions[j]];
  }

  /** Appending keeps the keys of the old positions, and the new position
      gets the key of the appended interaction. */
  lemma PushKeepsKeys(prev: InteractionIndex, http: Interaction, pact: Pact, next: InteractionIndex)
    requires PushedFrom(prev, http, pact, next)
    ensures forall i :: 0 <= i < |prev.allInteractions| ==> next.KeyOf(i) == prev.KeyOf(i)
    ensures next.KeyOf(|prev.allInteractions|) == MethodPathKey(http.request.httpMethod, http.request.path)
  {
  }

  /** Every list of the appended index still lists only positions of its own
      key, in strictly increasing order. */
  lemma PushListedUnder(prev: InteractionIndex, http: Interaction, pact: Pact, next: InteractionIndex, k: string)
    requires prev.Valid() && PushedFrom(prev, http, pact, next) && k in next.methodPathIndex
    ensures next.ListedUnder(k)
  {
    var n := |prev.allInteractions|;
    var key := MethodPathKey(http.request.httpMethod, http.request.path);
    PushKeepsKeys(prev, http, pact, next);
    if k == key {
      var list := if key in prev.methodPathIndex then prev.methodPathIndex[key] else [];
      if key in prev.methodPathIndex {
        assert prev.ListedUnder(key);
      }
      AppendIncreasing(list, n);
      assert next.methodPathIndex[k] == list + [n];
    } else {
      assert prev.ListedUnder(k);
      assert next.methodPathIndex[k] == prev.methodPathIndex[k];
    }
  }

  /** Every position of the appended index is listed under its key. */
  lemma PushListsPositions(prev: InteractionIndex, http: Interaction, pact: Pact, next: InteractionIndex, i: nat)
    requires prev.Valid() && PushedFrom(prev, http, pact, next) && i < |next.allInteractions|
    ensures next.KeyOf(i) in next.methodPathIndex && i in next.methodPathIndex[next.KeyOf(i)]
  {
    PushKeepsKeys(prev, http, pact, next);
    if i < |prev.allInteractions| {
      assert prev.KeyOf(i) in prev.methodPathIndex && i in prev.methodPathIndex[prev.KeyOf(i)];
    }
  }

  /** Appending one interaction the way `build_from_sources` does keeps the
      index valid. */
  lemma PushPreservesValid(prev: InteractionIndex, http: Interaction, pact: Pact, next: InteractionIndex)
    requires prev.Valid() && PushedFrom(prev, http, pact, next)
    ensures next.Valid()
  {
    forall k | k in next.methodPathIndex ensures next.ListedUnder(k) {
      PushListedUnder(prev, http, pact, next, k);
    }
    forall i | 0 <= i < |next.allInteractions|
      ensures next.KeyOf(i) in next.methodPathIndex && i in next.methodPathIndex[next.KeyOf(i)]
    {
      PushListsPositions(prev, http, pact, next, i);
    }
  }

  // ---------------------------------------------------------------------
  // Lookup

  lemma {:induction false} StrictlyIncreasingUnique(a: seq<nat>, b: seq<nat>)
    requires StrictlyIncreasing(a) && StrictlyIncreasing(b)
    requires forall x :: x in a <==> x in b
    ensures a == b
  {
    if |a| > 0 || |b| > 0 {
      var x := if |a| > 0 then a[0] else b[0];
      assert x in a && x in b;
      assert |a| > 0 && |b| > 0;
      assert a[0] in a;
      assert b[0] in b;
      assert a[0] == b[0] by {
        var i :| 0 <= i < |b| && b[i] == a[0];
        var j :| 0 <= j < |a| && a[j] == b[0];
        assert b[0] <= b[i] && a[0] <= a[j];
      }
      forall x ensures x in a[1..] <==> x in b[1..] {
        if x in a[1..] {
          var i :| 1 <= i < |a| && a[i] == x;
          assert x in b && x != b[0];
        }
        if x in b[1..] {
          var i :| 1 <= i < |b| && b[i] == x;
          assert x in a && x != a[0];
        }
      }
      StrictlyIncreasingUnique(a[1..], b[1..]);
      assert a == [a[0]] + a[1..] && b == [b[0]] + b[1..];
    }
  }

  lemma AppendIncreasing(s: seq<nat>, v: nat)
    requires StrictlyIncreasing(s)
    requires forall x :: x in s ==> x < v
    ensures StrictlyIncreasing(s + [v])
  {
    forall i, j | 0 <= i < j < |s + [v]| ensures (s + [v])[i] < (s + [v])[j] {
      if j == |s| {
        assert s[i] in s;
      }
    }
  }

  lemma {:induction false} AscendingWithKeySpec(index: InteractionIndex, key: string, k: nat)
    requires k <= |index.allInteractions|
    ensures StrictlyIncreasing(index.AscendingWithKey(key, k))
    ensures forall i: nat :: i in index.AscendingWithKey(key, k) <==> i < k && index.KeyOf(i) == key
  {
    if k > 0 {
      AscendingWithKeySpec(index, key, k - 1);
      if index.KeyOf(k - 1) == key {
        AppendIncreasing(index.AscendingWithKey(key, k - 1), k - 1);
      }
    }
  }

  /** The lookup returns exactly the positions, in ascending order, whose
      interaction's upper-cased method and path form the request's key. */
  lemma GetCandidatesIsAscendingKeyFilter(index: InteractionIndex, httpMethod: string, path: string)
    requires index.Valid()
    ensures index.GetCandidatesByMethodPath(httpMethod, path) ==
            index.AscendingWithKey(MethodPathKey(httpMethod, path), |index.allInteractions|)
  {
    AscendingWithKeySpec(index, MethodPathKey(httpMethod, path), |index.allInteractions|);
    StrictlyIncreasingUnique(index.GetCandidatesByMethodPath(httpMethod, path),
      index.AscendingWithKey(MethodPathKey(httpMethod, path), |index.allInteractions|));
  }

  lemma UpperFromLowerChar(x: char, y: char)
    requires LowerChar(x) == LowerChar(y)
    ensures UpperChar(x) == UpperChar(y)
  {
    if 'A' <= x <= 'Z' {
      assert 'a' <= LowerChar(x) <= 'z';
    } else if 'A' <= y <= 'Z' {
      assert 'a' <= LowerChar(y) <= 'z';
    }
  }

  lemma UpperFromLower(a: string, b: string)
    requires EqualIgnoringCase(a, b)
    ensures ToUpper(a) == ToUpper(b)
  {
    assert |a| == |ToLower(a)| == |ToLower(b)| == |b|;
    forall i | 0 <= i < |a| ensures UpperChar(a[i]) == UpperChar(b[i]) {
      assert ToLower(a)[i] == ToLower(b)[i];
      UpperFromLowerChar(a[i], b[i]);
    }
  }

  /** Letter case of the request method does not affect the lookup. */
  lemma LookupIgnoresMethodCase(index: InteractionIndex, method1: string, method2: string, path: string)
    requires index.Valid()
    requires EqualIgnoringCase(method1, method2)
    ensures index.GetCandidatesByMethodPath(method1, path) == index.GetCandidatesByMethodPath(method2, path)
  {
    UpperFromLower(method1, method2);
  }

  // ---------------------------------------------------------------------
  // Full scan

  /** The full scan lists, in ascending order, exactly the positions below
      `k` that pass the quick check. */
  lemma {:induction false} ScanPositionsSpec(index: InteractionIndex, request: Request, m: Matchers, k: nat)
    requires k <= |index.allInteractions| && |index.pathContexts| == |index.allInteractions|
    ensures StrictlyIncreasing(index.ScanPositions(request, m, k))
    ensures forall i: nat :: i in index.ScanPositions(request, m, k) <==>
      i < k && index.QuickCheckPathMatch(i, request, m)
  {
    if k > 0 {
      ScanPositionsSpec(index, request, m, k - 1);
      if index.QuickCheckPathMatch(k - 1, request, m) {
        AppendIncreasing(index.ScanPositions(request, m, k - 1), k - 1);
      }
    }
  }

  /** On the built index the quick check is the reference pipeline's method
      and path check on the same interaction: the cached context is the one
      the reference pipeline builds afresh. */
  lemma QuickCheckAgreesWithScan(index: InteractionIndex, sources: seq<Pact>, idx: nat, request: Request, m: Matchers)
    requires index.Built(sources) && idx < |index.allInteractions|
    ensures idx < |Catalog(sources)|
    ensures index.QuickCheckPathMatch(idx, request, m) == ScanAccepts(Catalog(sources)[idx], request, m)
  {
  }

  /** On the built index, position `idx` holds the idx-th interaction of the
      catalog and its pact. */
  lemma GetInteractionAndPactIsCatalogEntry(index: InteractionIndex, sources: seq<Pact>, idx: nat)
    requires index.Built(sources) && idx < |index.allInteractions|
    ensures idx < |Catalog(sources)|
    ensures index.GetInteractionAndPact(idx) == Catalog(sources)[idx]
  {
  }

  // ---------------------------------------------------------------------
  // Provider-state filter

  /** Without a selector the filter returns its input unchanged. */
  lemma {:induction false} FilterWithoutSelectorIsIdentity(index: InteractionIndex, indices: seq<nat>, emptyAllowed: bool, m: Matchers)
    requires forall k :: 0 <= k < |indices| ==> indices[k] < |index.providerStates|
    ensures index.StateFiltered(indices, None, emptyAllowed, m) == indices
  {
    if |indices| > 0 {
      FilterWithoutSelectorIsIdentity(index, indices[..|indices| - 1], emptyAllowed, m);
      assert indices == indices[..|indices| - 1] + [indices[|indices| - 1]];
    }
  }

  /** A position is kept exactly when it is among the input and the rule
      accepts its provider-state names. */
  lemma {:induction false} FilterMembership(index: InteractionIndex, indices: seq<nat>, selector: Option<Regex>,
                                            emptyAllowed: bool, m: Matchers, i: nat)
    requires forall k :: 0 <= k < |indices| ==> indices[k] < |index.providerStates|
    ensures i in index.StateFiltered(indices, selector, emptyAllowed, m) <==>
      i in indices && index.StateOk(i, selector, emptyAllowed, m)
  {
    if |indices| > 0 {
      var front := indices[..|indices| - 1];
      FilterMembership(index, front, selector, emptyAllowed, m, i);
      assert indices == front + [indices[|indices| - 1]];
    }
  }

  /** The filter distributes over concatenation, so it keeps the relative
      order of the positions it retains. */
  lemma {:induction false} FilterDistributes(index: InteractionIndex, a: seq<nat>, b: seq<nat>, selector: Option<Regex>,
                                             emptyAllowed: bool, m: Matchers)
    requires forall k :: 0 <= k < |a| ==> a[k] < |index.providerStates|
    requires forall k :: 0 <= k < |b| ==> b[k] < |index.providerStates|
    ensures index.StateFiltered(a + b, selector, emptyAllowed, m) ==
            index.StateFiltered(a, selector, emptyAllowed, m) + index.StateFiltered(b, selector, emptyAllowed, m)
  {
    if |b| == 0 {
      assert a + b == a;
    } else {
      var front := b[..|b| - 1];
      FilterDistributes(index, a, front, selector, emptyAllowed, m);
      assert (a + b)[..|a + b| - 1] == a + front;
      assert (a + b)[|a + b| - 1] == b[|b| - 1];
    }
  }

  /** The filter keeps an ascending list of positions ascending. */
  lemma {:induction false} FilterKeepsIncreasing(index: InteractionIndex, indices: seq<nat>, selector: Option<Regex>,
                                                 emptyAllowed: bool, m: Matchers)
    requires forall k :: 0 <= k < |indices| ==> indices[k] < |index.providerStates|
    requires StrictlyIncreasing(indices)
    ensures StrictlyIncreasing(index.StateFiltered(indices, selector, emptyAllowed, m))
  {
    if |indices| > 0 {
      var front := indices[..|indices| - 1];
      var last := indices[|indices| - 1];
      FilterKeepsIncreasing(index, front, selector, emptyAllowed, m);
      if index.StateOk(last, selector, emptyAllowed, m) {
        forall x | x in index.StateFiltered(front, selector, emptyAllowed, m) ensures x < last {
          FilterMembership(index, front, selector, emptyAllowed, m, x);
        }
        AppendIncreasing(index.StateFiltered(front, selector, emptyAllowed, m), last);
      }
    }
  }

  // ---------------------------------------------------------------------
  // Uniqueness of the built index

  /** On a valid index a key's stored list is exactly the ascending list of
      the positions with that key. */
  lemma ListIsAscendingWithKey(index: InteractionIndex, key: string)
    requires index.Valid() && key in index.methodPathIndex
    ensures index.methodPathIndex[key] == index.AscendingWithKey(key, |index.allInteractions|)
  {
    var list := index.methodPathIndex[key];
    assert index.ListedUnder(key);
    AscendingWithKeySpec(index, key, |index.allInteractions|);
    forall i: nat ensures i in list <==> i < |index.allInteractions| && index.KeyOf(i) == key {
      if i in list {
        var j :| 0 <= j < |list| && list[j] == i;
      }
    }
    StrictlyIncreasingUnique(list, index.AscendingWithKey(key, |index.allInteractions|));
  }

  /** Two valid indexes over the same interactions store the same map. */
  lemma ValidDeterminesMap(a: InteractionIndex, b: InteractionIndex)
    requires a.Valid() && b.Valid() && a.allInteractions == b.allInteractions
    ensures a.methodPathIndex == b.methodPathIndex
  {
    forall key | key in a.methodPathIndex ensures key in b.methodPathIndex {
      assert a.ListedUnder(key);
      var i := a.methodPathIndex[key][0];
      assert a.KeyOf(i) == key == b.KeyOf(i);
    }
    forall key | key in b.methodPathIndex ensures key in a.methodPathIndex {
      assert b.ListedUnder(key);
      var i := b.methodPathIndex[key][0];
      assert b.KeyOf(i) == key == a.KeyOf(i);
    }
    forall key | key in a.methodPathIndex ensures a.methodPathIndex[key] == b.methodPathIndex[key] {
      ListIsAscendingWithKey(a, key);
      ListIsAscendingWithKey(b, key);
      SameInteractionsSameKeyList(a, b, key, |a.allInteractions|);
    }
  }

  /** The ascending key list depends only on the interactions. */
  lemma {:induction false} SameInteractionsSameKeyList(a: InteractionIndex, b: InteractionIndex, key: string, k: nat)
    requires a.allInteractions == b.allInteractions && k <= |a.allInteractions|
    ensures a.AscendingWithKey(key, k) == b.AscendingWithKey(key, k)
  {
    if k > 0 {
      SameInteractionsSameKeyList(a, b, key, k - 1);
      assert a.KeyOf(k - 1) == b.KeyOf(k - 1);
    }
  }

  /** `Built` pins the index down: two indexes built from the same pacts are
      the same index. */
  lemma BuiltIsUnique(a: InteractionIndex, b: InteractionIndex, sources: seq<Pact>)
    requires a.Built(sources) && b.Built(sources)
    ensures a == b
  {
    assert a.allInteractions == b.allInteractions;
    assert a.pacts == b.pacts;
    assert a.providerStates == b.providerStates;
    assert a.pathContexts == b.pathContexts;
    ValidDeterminesMap(a, b);
  }
}
