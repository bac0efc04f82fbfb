/** The two peels of the dependency sort: from groups nobody lists, and back from names that
    list nobody. */
module GroupPeel {
  import opened GroupGraph
  import opened GroupSort

  ghost predicate NoDuplicates(s: seq<string>) {
    forall i, j :: 0 <= i < j < |s| ==> s[i] != s[j]
  }

  // ---- step 1.2: groups nobody lists any more ----

  /** The queue holds exactly the names without references, once each. */
  ghost predicate Sources(graph: Graph, queue: seq<string>) {
    NoDuplicates(queue) && forall n :: n in queue <==> n in graph && graph[n].indegree == 0
  }

  /** No unfinished group lists a finished name. */
  ghost predicate Closed(gs: seq<Group>, done: set<string>) {
    forall i, n :: 0 <= i < |gs| && gs[i].name !in done && n in gs[i].proxies ==> n !in done
  }

  ghost predicate Peeling(gs: seq<Group>, done: set<string>, graph: Graph, queue: seq<string>) {
    DistinctNames(gs) && GraphOf(gs, done, graph) && Closed(gs, done) && Sources(graph, queue)
  }

  method FindSources(graph: Graph) returns (queue: seq<string>)
    ensures Sources(graph, queue)
  {
    queue := [];
    var todo := graph.Keys;
    while todo != {}
      invariant todo <= graph.Keys && NoDuplicates(queue)
      invariant forall n :: n in queue <==> n in graph.Keys - todo && graph[n].indegree == 0
      decreases todo
    {
      var name :| name in todo;
      if graph[name].indegree == 0 {
        queue := queue + [name];
      }
      todo := todo - {name};
    }
  }

  /** The graph while the head of the queue gives up its references up to `p`. */
  ghost predicate Releasing(gs: seq<Group>, done: set<string>, graph: Graph, queue: seq<string>, proxies: seq<string>,
                            p: nat)
    requires p <= |proxies|
  {
    && graph.Keys == AllNames(gs) - done
    && Sources(graph, queue)
    && (forall n :: n in graph ==>
          && graph[n].indegree == Refs(gs, done, n) - multiset(proxies[..p])[n]
          && DataOk(gs, n, graph[n].data)
          && graph[n].outdegree == 0 && graph[n].from == [])
  }

  /** Every listed name is still there, and counts at least the references not yet given up. */
  lemma StillThere(gs: seq<Group>, done: set<string>, k: nat, p: nat)
    requires Closed(gs, done) && k < |gs| && gs[k].name !in done && p < |gs[k].proxies|
    ensures gs[k].proxies[p] in AllNames(gs) - done
    ensures Refs(gs, done, gs[k].proxies[p]) > multiset(gs[k].proxies[..p])[gs[k].proxies[p]]
  {
    var s := gs[k].proxies;
    assert s[p] in s;
    assert s == s[..p] + ([s[p]] + s[p + 1..]);
    assert multiset(s) == multiset(s[..p]) + multiset([s[p]] + s[p + 1..]);
    RefsAtLeast(gs, done, k, s[p]);
  }

  lemma {:induction false} RefsAtLeast(gs: seq<Group>, done: set<string>, k: nat, n: string)
    requires k < |gs| && gs[k].name !in done
    ensures Refs(gs, done, n) >= multiset(gs[k].proxies)[n]
  {
    if k < |gs| - 1 {
      RefsAtLeast(gs[..|gs| - 1], done, k, n);
    }
  }

  /** The head of the queue, a group, gives up its references. */
  method Release(ghost gs: seq<Group>, ghost done: set<string>, before: Graph, q: seq<string>, ghost k: nat,
                 proxies: seq<string>)
    returns (graph: Graph, queue: seq<string>)
    requires Peeling(gs, done, before, q) && k < |gs| && gs[k].name !in done && gs[k].proxies == proxies
    ensures Releasing(gs, done, graph, queue, proxies, |proxies|)
    ensures q <= queue
  {
    graph, queue := before, q;
    var p := 0;
    assert proxies[..0] == [];
    while p < |proxies|
      invariant 0 <= p <= |proxies| && Releasing(gs, done, graph, queue, proxies, p)
      invariant q <= queue
    {
      StillThere(gs, done, k, p);
      graph, queue := ReleaseOne(gs, done, graph, queue, proxies, p);
      p := p + 1;
    }
  }

  method ReleaseOne(ghost gs: seq<Group>, ghost done: set<string>, before: Graph, q: seq<string>, proxies: seq<string>,
                    p: nat)
    returns (graph: Graph, queue: seq<string>)
    requires p < |proxies| && Releasing(gs, done, before, q, proxies, p)
    requires proxies[p] in AllNames(gs) - done && Refs(gs, done, proxies[p]) > multiset(proxies[..p])[proxies[p]]
    ensures Releasing(gs, done, graph, queue, proxies, p + 1)
    ensures q <= queue
  {
    hide AllNames, DataOk, Refs;
    var proxy := proxies[p];
    assert proxies[..p + 1] == proxies[..p] + [proxy];
    var child := before[proxy].(indegree := before[proxy].indegree - 1);
    graph, queue := before[proxy := child], q;
    if child.indegree == 0 {
      queue := queue + [proxy];
    }
  }

  /** Without its head the graph is that of one more finished name. */
  lemma Released(gs: seq<Group>, done: set<string>, graph: Graph, queue: seq<string>, proxies: seq<string>,
                 name: string)
    requires DistinctNames(gs) && Closed(gs, done) && Releasing(gs, done, graph, queue, proxies, |proxies|)
    requires |queue| > 0 && queue[0] == name && Refs(gs, done, name) == 0 && name !in done
    requires if name in Names(gs) then exists k :: 0 <= k < |gs| && gs[k].name == name && gs[k].proxies == proxies
             else proxies == []
    ensures Peeling(gs, done + {name}, graph - {name}, queue[1..])
  {
    hide AllNames, DataOk, Refs, DistinctNames;
    assert proxies[..|proxies|] == proxies;
    forall n | n in graph ensures Refs(gs, done + {name}, n) == Refs(gs, done, n) - multiset(proxies)[n] {
      RefsWithout(gs, done, name, n);
    }
    RefsZero(gs, done, name);
    assert queue == [name] + queue[1..];
  }

  /** What has been written to the back of the array: the finished groups, each before those
      that list it. */
  ghost predicate Placed(gs: seq<Group>, done: set<string>, out: seq<Group>) {
    && multiset(out) == multiset(Finished(gs, done))
    && |out| == |Finished(gs, done)|
    && (forall j :: 0 <= j < |out| ==> out[j].name in done)
    && DependenciesFirst(out)
  }

  lemma PlaceFront(gs: seq<Group>, done: set<string>, out: seq<Group>, k: nat)
    requires DistinctNames(gs) && Closed(gs, done) && Placed(gs, done, out)
    requires k < |gs| && gs[k].name !in done && Refs(gs, done, gs[k].name) == 0
    ensures Placed(gs, done + {gs[k].name}, [gs[k]] + out)
    ensures |out| < |gs|
  {
    hide Finished;
    var g, name := gs[k], gs[k].name;
    FinishOne(gs, done, k);
    AllFinished(gs, done);
    RefsZero(gs, done, name);
    assert |Finished(gs, done + {name})| == |multiset(Finished(gs, done + {name}))|;
    forall i, j | 0 <= i <= j < |out| + 1 ensures ([g] + out)[j].name !in ([g] + out)[i].proxies {
      if i > 0 {
        assert out[j - 1].name !in out[i - 1].proxies;
      }
    }
  }

  lemma PlaceNothing(gs: seq<Group>, done: set<string>, out: seq<Group>, name: string)
    requires DistinctNames(gs) && Placed(gs, done, out) && name !in done && name !in Names(gs)
    ensures Placed(gs, done + {name}, out)
  {
    FinishNone(gs, done, name);
  }

  /** One turn of the forward peel. */
  method PeelSource(groups: array<Group>, index: nat, before: Graph, q: seq<string>, ghost gs: seq<Group>,
                    ghost done: set<string>)
    returns (graph: Graph, queue: seq<string>, index': nat)
    requires |gs| == groups.Length && index <= groups.Length && |q| > 0
    requires Peeling(gs, done, before, q) && Placed(gs, done, groups[groups.Length - index..])
    modifies groups
    ensures index' <= groups.Length && q[0] in before.Keys && graph.Keys == before.Keys - {q[0]}
    ensures Peeling(gs, done + {q[0]}, graph, queue)
    ensures Placed(gs, done + {q[0]}, groups[groups.Length - index'..])
  {
    hide AllNames, Refs, Finished, Closed, DependenciesFirst;
    var name := q[0];
    var node := before[name];
    assert Refs(gs, done, name) == 0;
    graph, queue, index' := before, q, index;
    if node.data.Some? {
      var g := node.data.value;
      ghost var k :| 0 <= k < |gs| && gs[k] == g;
      ghost var out := groups[groups.Length - index..];
      PlaceFront(gs, done, out, k);
      index' := index + 1;
      groups[groups.Length - index'] := g;
      assert groups[groups.Length - index'..] == [g] + out;
      graph, queue := Release(gs, done, before, q, k, g.proxies);
      Released(gs, done, graph, queue, g.proxies, name);
    } else {
      PlaceNothing(gs, done, groups[groups.Length - index..], name);
      NothingToRelease(gs, done, before, q, name);
    }
    graph := graph - {name};
    queue := queue[1..];
  }

  lemma NothingToRelease(gs: seq<Group>, done: set<string>, graph: Graph, queue: seq<string>, name: string)
    requires Peeling(gs, done, graph, queue) && |queue| > 0 && queue[0] == name && name !in Names(gs)
    ensures Peeling(gs, done + {name}, graph - {name}, queue[1..])
  {
    hide AllNames, DataOk, Refs;
    var none: seq<string> := [];
    assert none[..0] == none;
    Released(gs, done, graph, queue, none, name);
  }
}
