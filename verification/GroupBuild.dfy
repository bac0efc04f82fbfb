/** The whole sort, and the loop that builds the groups from the sorted list. */
module GroupBuild {
  import opened Digraphs
  import opened Sequences
  import opened Wrappers
  import opened GroupGraph
  import opened GroupSort
  import opened GroupPeel
  import opened GroupLoops

  lemma {:induction false} NothingFinished(gs: seq<Group>)
    ensures Finished(gs, {}) == []
  {
    if |gs| > 0 { NothingFinished(gs[..|gs| - 1]); }
  }

  lemma LeftHavePrevious(gs: seq<Group>, done: set<string>, n: string)
    requires DistinctNames(gs) && Refs(gs, done, n) != 0
    ensures HasPrevious(gs, AllNames(gs) - done, n)
  {
    RefsZero(gs, done, n);
    var i :| 0 <= i < |gs| && gs[i].name !in done && n in gs[i].proxies;
    assert gs[i].name in Names(gs);
    assert Edge(gs, gs[i].name, n);
  }

  lemma LeftListLeft(gs: seq<Group>, done: set<string>, n: string, m: string)
    requires DistinctNames(gs) && Closed(gs, done) && n !in done && m in Lists(gs, n)
    ensures m in AllNames(gs) - done
  {
    ListsIsEdge(gs, n, m);
    var i :| 0 <= i < |gs| && gs[i].name == n && m in gs[i].proxies;
  }

  /** What a forward peel that stopped with names left says about them. */
  lemma Leftovers(gs: seq<Group>, done: set<string>, graph: Graph)
    requires Peeling(gs, done, graph, [])
    ensures forall n :: n in graph ==> HasPrevious(gs, graph.Keys, n)
    ensures forall n, m :: n in graph && m in Lists(gs, n) ==> m in graph
  {
    hide Lists, AllNames, HasPrevious, Refs;
    forall n | n in graph ensures HasPrevious(gs, graph.Keys, n) {
      LeftHavePrevious(gs, done, n);
    }
    forall n, m | n in graph && m in Lists(gs, n) ensures m in graph {
      LeftListLeft(gs, done, n, m);
    }
  }

  /** The forward peel, from the full graph until no source is left. */
  method PeelSources(groups: array<Group>, before: Graph, ghost gs: seq<Group>)
    returns (graph: Graph, index: nat, ghost done: set<string>)
    requires gs == groups[..] && DistinctNames(gs) && GraphOf(gs, {}, before)
    modifies groups
    ensures index <= groups.Length && Peeling(gs, done, graph, [])
    ensures Placed(gs, done, groups[groups.Length - index..])
  {
    hide AllNames, Refs, Finished, DependenciesFirst;
    graph, index, done := before, 0, {};
    var queue := FindSources(graph);
    EmptyPlaced(gs);
    assert groups[groups.Length..] == [];
    while |queue| > 0
      invariant index <= groups.Length && Peeling(gs, done, graph, queue)
      invariant Placed(gs, done, groups[groups.Length - index..])
      decreases |graph.Keys|
    {
      ghost var name := queue[0];
      graph, queue, index := PeelSource(groups, index, graph, queue, gs, done);
      done := done + {name};
    }
    assert queue == [];
  }

  lemma EmptyPlaced(gs: seq<Group>)
    ensures Placed(gs, {}, [])
  {
    NothingFinished(gs);
  }

  /** When no name is left, everything has been placed. */
  lemma AllPlaced(gs: seq<Group>, done: set<string>, out: seq<Group>)
    requires Placed(gs, done, out) && AllNames(gs) - done == {}
    ensures |out| == |gs| && multiset(out) == multiset(gs) && DependenciesFirst(out)
  {
    AllFinished(gs, done);
    forall n | n in Names(gs) ensures n in done {
      assert n in AllNames(gs) && n !in AllNames(gs) - done;
    }
  }

  method NamesOf(graph: Graph) returns (names: seq<string>)
    ensures NoDuplicates(names) && forall n :: n in names <==> n in graph
  {
    names := [];
    var todo := graph.Keys;
    while todo != {}
      invariant todo <= graph.Keys && NoDuplicates(names)
      invariant forall n :: n in names <==> n in graph.Keys - todo
      decreases todo
    {
      var name :| name in todo;
      assert name !in names;
      names := names + [name];
      todo := todo - {name};
    }
  }

  lemma SortedVerdict(gs: seq<Group>, hs: seq<Group>)
    requires multiset(gs) == multiset(hs) && DistinctNames(gs) && DependenciesFirst(hs)
    ensures !HasCycle(References(gs))
  {
    DistinctOfPermutation(gs, hs);
    SortedHasNoCycle(hs);
    CycleOfPermutation(gs, hs);
  }

  lemma {:induction false} DistinctOfPermutation(gs: seq<Group>, hs: seq<Group>)
    requires multiset(gs) == multiset(hs) && DistinctNames(gs)
    ensures DistinctNames(hs)
  {
    forall i, j | 0 <= i < j < |hs| ensures hs[i].name != hs[j].name {
      var g := hs[i];
      assert g in multiset(hs) && hs[j] in multiset(hs);
      var a :| 0 <= a < |gs| && gs[a] == g;
      var b :| 0 <= b < |gs| && gs[b] == hs[j];
      if a == b {
        TwiceInside(hs, i, j);
        OnceInside(gs, a);
      }
    }
  }

  /** Sorts the groups so that each stands behind those it lists, exactly when they can be
      decoded, have distinct names and no reference cycle. */
  method ProxyGroupsDagSort(groups: array<Group>) returns (err: Option<Error>)
    modifies groups
    ensures err.None? ==> multiset(groups[..]) == multiset(old(groups[..])) && DependenciesFirst(groups[..])
    ensures err.None? <==>
            AllDecode(old(groups[..])) && DistinctNames(old(groups[..])) && !HasCycle(References(old(groups[..])))
    ensures err.Some? && err.value.Loop? ==>
              NoDuplicates(err.value.names) && LoopSet(old(groups[..]), set n | n in err.value.names)
    ensures err.Some? && AllDecode(old(groups[..])) && DistinctNames(old(groups[..])) ==> err.value.Loop?
  {
    hide AllDecode, DistinctNames, DependenciesFirst, HasCycle, LoopSet, NoDuplicates, GraphOf, Peeling, Placed;
    ghost var gs := groups[..];
    var graph;
    err, graph := BuildGraph(groups[..]);
    if err.Some? {
      return;
    }
    var index;
    ghost var done;
    graph, index, done := PeelSources(groups, graph, gs);
    if |graph| == 0 {
      WholeArray(groups[..], groups.Length - index, gs, done, graph);
      SortedVerdict(gs, groups[..]);
      return None;
    }
    var names := LocateLoop(gs, done, graph);
    LoopSetHasCycle(gs, set n | n in names);
    return Some(Loop(names));
  }

  lemma WholeArray(a: seq<Group>, from: nat, gs: seq<Group>, done: set<string>, graph: Graph)
    requires |a| == |gs| && from <= |a| && Placed(gs, done, a[from..])
    requires |graph| == 0 && Peeling(gs, done, graph, [])
    ensures multiset(gs) == multiset(a) && DependenciesFirst(a)
  {
    hide AllNames, DependenciesFirst, Closed;
    assert graph.Keys == {};
    AllPlaced(gs, done, a[from..]);
    assert a[from..] == a;
  }

  method LocateLoop(ghost gs: seq<Group>, ghost done: set<string>, before: Graph) returns (names: seq<string>)
    requires Peeling(gs, done, before, []) && |before| > 0
    ensures NoDuplicates(names) && LoopSet(gs, set n | n in names)
  {
    hide AllNames, Refs, Lists, LoopSet, DistinctNames, Closed, HasPrevious;
    Leftovers(gs, done, before);
    var graph := LinkAll(gs, done, before);
    assert graph.Keys == before.Keys;
    graph := PeelSinks(gs, graph);
    names := NamesOf(graph);
    assert (set n | n in names) == graph.Keys;
  }

  // ---- building the groups in the sorted order ----

  /** A built proxy: a plain one, or a group holding the proxies it was built from. */
  datatype Proxy = Plain(name: string) | Selector(name: string, members: seq<Proxy>)

  /** All listed names, looked up among what has been built. */
  method GetProxies(mapping: map<string, Proxy>, list: seq<string>) returns (r: Option<seq<Proxy>>)
    ensures r.Some? <==> forall n :: n in list ==> n in mapping
    ensures r.Some? ==> Members(list, mapping, r.value)
  {
    var ps := [];
    for i := 0 to |list|
      invariant |ps| == i && forall k :: 0 <= k < i ==> list[k] in mapping && ps[k] == mapping[list[k]]
    {
      if list[i] !in mapping {
        return None;
      }
      ps := ps + [mapping[list[i]]];
    }
    return Some(ps);
  }

  /** No group takes the name of a plain proxy, and every name listed by the groups up to `n` is a
      plain proxy or a group. */
  ghost predicate Buildable(gs: seq<Group>, plain: set<string>, n: nat)
    requires n <= |gs|
  {
    forall i :: 0 <= i < n ==> gs[i].name !in plain && forall p :: p in gs[i].proxies ==> p in plain + Names(gs)
  }

  /** Each group built so far holds what its listed names were built into. */
  ghost predicate Built(gs: seq<Group>, n: nat, proxies: map<string, Proxy>)
    requires n <= |gs|
  {
    forall i :: 0 <= i < n ==>
      && gs[i].name in proxies && proxies[gs[i].name].Selector? && proxies[gs[i].name].name == gs[i].name
      && Members(gs[i].proxies, proxies, proxies[gs[i].name].members)
  }

  ghost predicate Members(list: seq<string>, proxies: map<string, Proxy>, members: seq<Proxy>) {
    |members| == |list| && forall k :: 0 <= k < |list| ==> list[k] in proxies && members[k] == proxies[list[k]]
  }

  /** The plain proxies are still there. */
  ghost predicate Kept(plain: map<string, Proxy>, proxies: map<string, Proxy>) {
    forall p :: p in plain ==> p in proxies && proxies[p] == plain[p]
  }

  lemma BuiltMore(gs: seq<Group>, n: nat, before: map<string, Proxy>, members: seq<Proxy>)
    requires n < |gs| && DistinctNames(gs) && Built(gs, n, before) && gs[n].name !in before
    requires Members(gs[n].proxies, before, members)
    ensures Built(gs, n + 1, before[gs[n].name := Selector(gs[n].name, members)])
  {
    var after := before[gs[n].name := Selector(gs[n].name, members)];
    forall i | 0 <= i < n + 1
      ensures gs[i].name in after && after[gs[i].name].Selector? && after[gs[i].name].name == gs[i].name
      ensures Members(gs[i].proxies, after, after[gs[i].name].members)
    {
      if i < n {
        assert Members(gs[i].proxies, before, before[gs[i].name].members);
      }
    }
  }

  /** The group loop of parseProxies over the sorted groups. */
  method BuildGroups(groups: array<Group>, plain: map<string, Proxy>) returns (r: Option<map<string, Proxy>>)
    requires DistinctNames(groups[..]) && DependenciesFirst(groups[..])
    ensures r.Some? <==> Buildable(groups[..], plain.Keys, groups.Length)
    ensures r.Some? ==> r.value.Keys == plain.Keys + Names(groups[..]) && Built(groups[..], groups.Length, r.value)
    ensures r.Some? ==> Kept(plain, r.value)
  {
    hide DependenciesFirst, DistinctNames, Built, Members, Buildable;
    var proxies := plain;
    var idx := 0;
    StartBuild(groups[..], plain);
    while idx < groups.Length
      invariant 0 <= idx <= groups.Length && proxies.Keys == plain.Keys + Names(groups[..idx])
      invariant Buildable(groups[..], plain.Keys, idx) && Built(groups[..], idx, proxies) && Kept(plain, proxies)
    {
      var mapping := groups[idx];
      var members := GetProxies(proxies, mapping.proxies);
      StepBuild(groups[..], plain.Keys, idx, proxies.Keys);
      if members.None? {
        return None;
      }
      if mapping.name in proxies {
        return None;
      }
      BuiltMore(groups[..], idx, proxies, members.value);
      proxies := proxies[mapping.name := Selector(mapping.name, members.value)];
      idx := idx + 1;
    }
    assert groups[..idx] == groups[..];
    return Some(proxies);
  }

  lemma StartBuild(gs: seq<Group>, plain: map<string, Proxy>)
    ensures Buildable(gs, plain.Keys, 0) && Built(gs, 0, plain) && Names(gs[..0]) == {}
  {
  }

  /** The next group can be built from what is there exactly when it can be built at all. */
  lemma StepBuild(gs: seq<Group>, plain: set<string>, n: nat, known: set<string>)
    requires DistinctNames(gs) && DependenciesFirst(gs) && n < |gs|
    requires known == plain + Names(gs[..n]) && Buildable(gs, plain, n)
    ensures (gs[n].name !in known && forall p :: p in gs[n].proxies ==> p in known) <==> Buildable(gs, plain, n + 1)
    ensures !Buildable(gs, plain, n + 1) ==> !Buildable(gs, plain, |gs|)
    ensures known + {gs[n].name} == plain + Names(gs[..n + 1])
  {
    BuiltBefore(gs, n);
    assert gs[..n + 1] == gs[..n] + [gs[n]];
    forall m ensures m in known + {gs[n].name} <==> m in plain + Names(gs[..n + 1]) {
      if i :| 0 <= i < n && gs[..n][i].name == m { assert gs[..n + 1][i].name == m; }
      assert gs[..n + 1][n].name == gs[n].name;
    }
  }

  /** A listed group stands before the one that lists it. */
  lemma BuiltBefore(gs: seq<Group>, idx: nat)
    requires DistinctNames(gs) && DependenciesFirst(gs) && idx < |gs|
    ensures gs[idx].name !in Names(gs[..idx])
    ensures forall n :: n in gs[idx].proxies && n in Names(gs) ==> n in Names(gs[..idx])
    ensures Names(gs[..idx]) <= Names(gs)
  {
    forall n | n in gs[idx].proxies && n in Names(gs) ensures n in Names(gs[..idx]) {
      var j :| 0 <= j < |gs| && gs[j].name == n;
      assert gs[..idx][j] == gs[j];
    }
    forall n | n in Names(gs[..idx]) ensures n in Names(gs) {
      var j :| 0 <= j < idx && gs[..idx][j].name == n;
      assert gs[j].name == n;
    }
  }

  // ---- sorting and building together ----

  lemma InPermutation(gs: seq<Group>, hs: seq<Group>, i: nat) returns (j: nat)
    requires multiset(gs) == multiset(hs) && i < |gs|
    ensures j < |hs| && hs[j] == gs[i]
  {
    assert gs[i] in multiset(hs);
    j :| 0 <= j < |hs| && hs[j] == gs[i];
  }

  /** Names, buildability and what is built do not depend on the order of the groups. */
  lemma SameOfPermutation(gs: seq<Group>, hs: seq<Group>, plain: set<string>, proxies: map<string, Proxy>)
    requires multiset(gs) == multiset(hs)
    ensures Names(gs) <= Names(hs)
    ensures Names(gs) == Names(hs) && Buildable(hs, plain, |hs|) ==> Buildable(gs, plain, |gs|)
    ensures Built(hs, |hs|, proxies) ==> Built(gs, |gs|, proxies)
  {
    hide Members;
    forall i | 0 <= i < |gs| ensures exists j :: 0 <= j < |hs| && hs[j] == gs[i] {
      var j := InPermutation(gs, hs, i);
    }
  }

  /** The groups of a configuration, sorted and then built: succeeds if and only if all decode, their
      names are distinct and not those of plain proxies, no references form a cycle, and every name
      listed is a plain proxy or a group. */
  method SortAndBuild(groups: array<Group>, plain: map<string, Proxy>) returns (r: Option<map<string, Proxy>>)
    modifies groups
    ensures var gs := old(groups[..]);
      r.Some? <==> AllDecode(gs) && DistinctNames(gs) && !HasCycle(References(gs)) && Buildable(gs, plain.Keys, |gs|)
    ensures var gs := old(groups[..]);
      r.Some? ==> r.value.Keys == plain.Keys + Names(gs) && Built(gs, |gs|, r.value) && Kept(plain, r.value)
  {
    hide AllDecode, DistinctNames, DependenciesFirst, HasCycle, LoopSet, NoDuplicates, Buildable, Built, Names;
    ghost var gs := groups[..];
    var err := ProxyGroupsDagSort(groups);
    if err.Some? {
      return None;
    }
    ghost var hs := groups[..];
    DistinctOfPermutation(gs, hs);
    r := BuildGroups(groups, plain);
    ghost var built := if r.Some? then r.value else map[];
    SameOfPermutation(gs, hs, plain.Keys, built);
    SameOfPermutation(hs, gs, plain.Keys, built);
  }
}
