/** The dependency sort, written into the configuration array from the back, and the reverse
    peel that locates loops. */
module GroupSort {
  import opened Wrappers
  import opened GroupGraph

  datatype Node = Node(indegree: int, data: Option<Group>, outdegree: int, from: seq<string>)

  datatype Error = DecodeFailed(name: string) | Duplicate(name: string) | Loop(names: seq<string>)

  type Graph = map<string, Node>

  /** Everything that is a group or listed by one. */
  ghost function AllNames(gs: seq<Group>): set<string> {
    Names(gs) + set i, n | 0 <= i < |gs| && n in gs[i].proxies :: n
  }

  ghost predicate DataOk(gs: seq<Group>, n: string, d: Option<Group>) {
    match d
    case None => n !in Names(gs)
    case Some(g) => g.name == n && g in gs
  }

  /** The graph of the names outside `done`, with the references among their groups counted. */
  ghost predicate GraphOf(gs: seq<Group>, done: set<string>, graph: Graph) {
    && graph.Keys == AllNames(gs) - done
    && (forall n :: n in graph ==>
          && graph[n].indegree == Refs(gs, done, n)
          && DataOk(gs, n, graph[n].data)
          && graph[n].outdegree == 0 && graph[n].from == [])
  }

  // ---- step 1.1: the graph ----

  /** While the references of group `i` up to `p` have been entered. */
  ghost predicate Partial(gs: seq<Group>, i: nat, p: nat, graph: Graph)
    requires i < |gs| && p <= |gs[i].proxies|
  {
    && graph.Keys == AllNames(gs[..i]) + {gs[i].name} + (set n | n in gs[i].proxies[..p])
    && (forall n :: n in graph ==>
          && graph[n].indegree == Refs(gs[..i], {}, n) + multiset(gs[i].proxies[..p])[n]
          && DataOk(gs[..i + 1], n, graph[n].data)
          && graph[n].outdegree == 0 && graph[n].from == [])
  }

  lemma StartPartial(gs: seq<Group>, i: nat, graph: Graph, graph': Graph)
    requires i < |gs| && GraphOf(gs[..i], {}, graph)
    requires gs[i].name !in Names(gs[..i])
    requires graph'.Keys == graph.Keys + {gs[i].name}
    requires forall n :: n in graph && n != gs[i].name ==> graph'[n] == graph[n]
    requires graph'[gs[i].name] ==
             if gs[i].name in graph then graph[gs[i].name].(data := Some(gs[i])) else Node(0, Some(gs[i]), 0, [])
    ensures Partial(gs, i, 0, graph')
  {
    hide Refs, DataOk, Names;
    assert gs[i].proxies[..0] == [];
    forall n | n in graph' ensures
        && graph'[n].indegree == Refs(gs[..i], {}, n)
        && DataOk(gs[..i + 1], n, graph'[n].data)
    {
      if n !in graph { NotListed(gs[..i], n); }
      DataGrows(gs, i, n, if n in graph then graph[n].data else None);
    }
  }

  lemma DataGrows(gs: seq<Group>, i: nat, n: string, d: Option<Group>)
    requires i < |gs| && gs[i].name !in Names(gs[..i])
    ensures n == gs[i].name ==> DataOk(gs[..i + 1], n, Some(gs[i]))
    ensures n != gs[i].name && DataOk(gs[..i], n, d) ==> DataOk(gs[..i + 1], n, d)
  {
    assert gs[..i + 1] == gs[..i] + [gs[i]];
  }

  lemma NotListed(gs: seq<Group>, n: string)
    requires n !in AllNames(gs)
    ensures Refs(gs, {}, n) == 0
  {
    RefsZero(gs, {}, n);
  }

  lemma StepPartial(gs: seq<Group>, i: nat, p: nat, graph: Graph)
    requires i < |gs| && p < |gs[i].proxies| && Partial(gs, i, p, graph)
    requires DistinctNames(gs[..i + 1])
    ensures var proxy := gs[i].proxies[p];
            Partial(gs, i, p + 1,
              if proxy in graph then graph[proxy := graph[proxy].(indegree := graph[proxy].indegree + 1)]
              else graph[proxy := Node(1, None, 0, [])])
  {
    hide AllNames, DataOk, Refs;
    var proxy := gs[i].proxies[p];
    assert gs[i].proxies[..p + 1] == gs[i].proxies[..p] + [proxy];
    if proxy !in graph {
      NotListed(gs[..i], proxy);
      assert proxy !in gs[i].proxies[..p];
      NotNamed(gs, i, proxy);
    }
  }

  lemma NotNamed(gs: seq<Group>, i: nat, n: string)
    requires i < |gs| && n !in AllNames(gs[..i]) && n != gs[i].name
    ensures DataOk(gs[..i + 1], n, None)
  {
    assert gs[..i + 1] == gs[..i] + [gs[i]];
  }

  lemma EndPartial(gs: seq<Group>, i: nat, graph: Graph)
    requires i < |gs| && Partial(gs, i, |gs[i].proxies|, graph)
    ensures GraphOf(gs[..i + 1], {}, graph)
  {
    hide AllNames, DataOk;
    var g := gs[i];
    assert g.proxies[..|g.proxies|] == g.proxies;
    assert gs[..i + 1] == gs[..i] + [g];
    assert gs[..i + 1][..i] == gs[..i];
    NamesGrow(gs[..i], g);
    assert graph.Keys == AllNames(gs[..i + 1]) - {};
    assert forall n :: Refs(gs[..i + 1], {}, n) == Refs(gs[..i], {}, n) + multiset(g.proxies)[n];
  }

  lemma NamesGrow(gs: seq<Group>, g: Group)
    ensures AllNames(gs + [g]) == AllNames(gs) + {g.name} + set n | n in g.proxies
  {
    var hs := gs + [g];
    assert hs[|gs|] == g && forall i :: 0 <= i < |gs| ==> hs[i] == gs[i];
    forall n | n in AllNames(gs) + {g.name} + (set n | n in g.proxies) ensures n in AllNames(hs) {
      if i :| 0 <= i < |gs| && n in gs[i].proxies {
        assert n in hs[i].proxies;
      }
      if n in g.proxies {
        assert n in hs[|gs|].proxies;
      }
    }
  }

  /** Builds the graph, or reports the first undecodable or repeated group. */
  method BuildGraph(gs: seq<Group>) returns (err: Option<Error>, graph: Graph)
    ensures err.None? <==> AllDecode(gs) && DistinctNames(gs)
    ensures err.None? ==> GraphOf(gs, {}, graph)
    ensures err.Some? ==> !err.value.Loop?
  {
    graph := map[];
    err := None;
    var i := 0;
    while i < |gs|
      invariant 0 <= i <= |gs| && err.None? && AllDecode(gs[..i]) && DistinctNames(gs[..i])
      invariant GraphOf(gs[..i], {}, graph)
    {
      err, graph := AddGroup(gs, i, graph);
      if err.Some? {
        return;
      }
      i := i + 1;
    }
    assert gs[..i] == gs;
  }

  method AddGroup(gs: seq<Group>, i: nat, before: Graph) returns (err: Option<Error>, graph: Graph)
    requires i < |gs| && AllDecode(gs[..i]) && DistinctNames(gs[..i]) && GraphOf(gs[..i], {}, before)
    ensures err.None? ==> AllDecode(gs[..i + 1]) && DistinctNames(gs[..i + 1]) && GraphOf(gs[..i + 1], {}, graph)
    ensures err.Some? ==> !err.value.Loop? && !(AllDecode(gs) && DistinctNames(gs))
  {
    graph := before;
    var mapping := gs[i];
    assert gs[..i + 1] == gs[..i] + [mapping];
    if !mapping.decodes {
      return Some(DecodeFailed(mapping.name)), graph;
    }
    var groupName := mapping.name;
    if groupName in graph {
      if graph[groupName].data.Some? {
        assert groupName in Names(gs[..i]);
        return Some(Duplicate(groupName)), graph;
      }
      graph := graph[groupName := graph[groupName].(data := Some(mapping))];
    } else {
      graph := graph[groupName := Node(0, Some(mapping), 0, [])];
    }
    StartPartial(gs, i, before, graph);
    DistinctGrow(gs, i);
    graph := EnterReferences(gs, i, graph);
    err := None;
  }

  lemma DistinctGrow(gs: seq<Group>, i: nat)
    requires i < |gs| && DistinctNames(gs[..i]) && gs[i].name !in Names(gs[..i])
    ensures DistinctNames(gs[..i + 1])
  {
    assert gs[..i + 1] == gs[..i] + [gs[i]];
  }

  method EnterReferences(gs: seq<Group>, i: nat, before: Graph) returns (graph: Graph)
    requires i < |gs| && DistinctNames(gs[..i + 1]) && Partial(gs, i, 0, before)
    ensures GraphOf(gs[..i + 1], {}, graph)
  {
    hide GraphOf, Partial, DistinctNames;
    graph := before;
    var p := 0;
    while p < |gs[i].proxies|
      invariant 0 <= p <= |gs[i].proxies| && Partial(gs, i, p, graph)
    {
      var proxy := gs[i].proxies[p];
      StepPartial(gs, i, p, graph);
      if proxy in graph {
        graph := graph[proxy := graph[proxy].(indegree := graph[proxy].indegree + 1)];
      } else {
        graph := graph[proxy := Node(1, None, 0, [])];
      }
      p := p + 1;
    }
    EndPartial(gs, i, graph);
  }
}
