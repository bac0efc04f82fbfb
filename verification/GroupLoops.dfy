/** Step 2 of the sort: names that list nobody left are peeled off backwards; what stays are
    the loops. */
module GroupLoops {
  import opened Wrappers
  import opened GroupGraph
  import opened GroupSort
  import opened GroupPeel

  /** What the group named `m` lists; nothing for other names. */
  ghost function Lists(gs: seq<Group>, m: string): seq<string> {
    if i :| 0 <= i < |gs| && gs[i].name == m then gs[i].proxies else []
  }

  lemma ListsOfGroup(gs: seq<Group>, k: nat)
    requires DistinctNames(gs) && k < |gs|
    ensures Lists(gs, gs[k].name) == gs[k].proxies
  {
  }

  lemma ListsIsEdge(gs: seq<Group>, m: string, n: string)
    requires DistinctNames(gs)
    ensures n in Lists(gs, m) <==> Edge(gs, m, n)
    ensures Edge(gs, m, n) ==> m in Names(gs)
  {
    if i :| 0 <= i < |gs| && gs[i].name == m { ListsOfGroup(gs, i); }
  }

  /** How many entries of `s` lie in `names`. */
  ghost function CountIn(s: seq<string>, names: set<string>): nat {
    if |s| == 0 then 0 else CountIn(s[..|s| - 1], names) + if s[|s| - 1] in names then 1 else 0
  }

  lemma {:induction false} CountInZero(s: seq<string>, names: set<string>)
    ensures CountIn(s, names) == 0 <==> forall i :: 0 <= i < |s| ==> s[i] !in names
  {
    if |s| > 0 {
      CountInZero(s[..|s| - 1], names);
      assert s == s[..|s| - 1] + [s[|s| - 1]];
    }
  }

  lemma {:induction false} CountInAll(s: seq<string>, names: set<string>)
    requires forall i :: 0 <= i < |s| ==> s[i] in names
    ensures CountIn(s, names) == |s|
  {
    if |s| > 0 { CountInAll(s[..|s| - 1], names); }
  }

  lemma {:induction false} CountInWithout(s: seq<string>, names: set<string>, n: string)
    requires n in names
    ensures CountIn(s, names - {n}) == CountIn(s, names) - multiset(s)[n]
  {
    if |s| > 0 {
      CountInWithout(s[..|s| - 1], names, n);
      assert s == s[..|s| - 1] + [s[|s| - 1]];
    }
  }

  // ---- step 2.1: outgoing references ----

  /** `from` lists every name in `seen` as often as it lists `n`. */
  ghost predicate FromOk(gs: seq<Group>, seen: set<string>, n: string, from: seq<string>) {
    forall m :: multiset(from)[m] == if m in seen then multiset(Lists(gs, m))[n] else 0
  }

  /** The graph after the references of the names in `seen` have been entered. */
  ghost predicate Linked(gs: seq<Group>, names: set<string>, seen: set<string>, graph: Graph) {
    && graph.Keys == names
    && (forall n :: n in graph ==>
          && DataOk(gs, n, graph[n].data)
          && graph[n].outdegree == (if n in seen then |Lists(gs, n)| else 0)
          && FromOk(gs, seen, n, graph[n].from))
  }

  /** While the references of `name` up to `p` have been entered. */
  ghost predicate Linking(gs: seq<Group>, names: set<string>, seen: set<string>, graph: Graph, name: string, p: nat)
    requires p <= |Lists(gs, name)|
  {
    && graph.Keys == names
    && (forall n :: n in graph ==>
          && DataOk(gs, n, graph[n].data)
          && graph[n].outdegree == (if n == name then p else if n in seen then |Lists(gs, n)| else 0)
          && FromPart(gs, seen, n, graph[n].from, name, p))
  }

  ghost predicate FromPart(gs: seq<Group>, seen: set<string>, n: string, from: seq<string>, name: string, p: nat)
    requires p <= |Lists(gs, name)|
  {
    forall m :: multiset(from)[m] ==
      if m == name then multiset(Lists(gs, m)[..p])[n] else if m in seen then multiset(Lists(gs, m))[n] else 0
  }

  lemma FromStart(gs: seq<Group>, seen: set<string>, n: string, from: seq<string>, name: string)
    requires name !in seen
    ensures FromOk(gs, seen, n, from) == FromPart(gs, seen, n, from, name, 0)
  {
    hide Lists;
    assert Lists(gs, name)[..0] == [];
  }

  lemma FromEnd(gs: seq<Group>, seen: set<string>, n: string, from: seq<string>, name: string)
    ensures FromPart(gs, seen, n, from, name, |Lists(gs, name)|) == FromOk(gs, seen + {name}, n, from)
  {
    hide Lists;
    assert Lists(gs, name)[..|Lists(gs, name)|] == Lists(gs, name);
  }

  lemma FromStep(gs: seq<Group>, seen: set<string>, n: string, from: seq<string>, name: string, p: nat)
    requires p < |Lists(gs, name)| && FromPart(gs, seen, n, from, name, p)
    ensures FromPart(gs, seen, n, if Lists(gs, name)[p] == n then from + [name] else from, name, p + 1)
  {
    hide Lists;
    var l := Lists(gs, name);
    assert l[..p + 1] == l[..p] + [l[p]];
  }

  method LinkOne(ghost gs: seq<Group>, ghost names: set<string>, ghost seen: set<string>, before: Graph, name: string,
                 proxies: seq<string>)
    returns (graph: Graph)
    requires Linked(gs, names, seen, before) && name in names && name !in seen && proxies == Lists(gs, name)
    requires forall n :: n in proxies ==> n in names
    ensures Linked(gs, names, seen + {name}, graph)
  {
    hide DataOk, Lists, FromOk, FromPart;
    graph := before;
    var p := 0;
    forall n | n in graph ensures FromPart(gs, seen, n, graph[n].from, name, 0) {
      FromStart(gs, seen, n, graph[n].from, name);
    }
    while p < |proxies|
      invariant 0 <= p <= |proxies| && Linking(gs, names, seen, graph, name, p)
    {
      assert proxies[p] in proxies;
      graph := LinkReference(gs, names, seen, graph, name, proxies, p);
      p := p + 1;
    }
    forall n | n in graph ensures FromOk(gs, seen + {name}, n, graph[n].from) {
      FromEnd(gs, seen, n, graph[n].from, name);
    }
  }

  method LinkReference(ghost gs: seq<Group>, ghost names: set<string>, ghost seen: set<string>, before: Graph,
                       name: string, proxies: seq<string>, p: nat)
    returns (graph: Graph)
    requires p < |proxies| && proxies == Lists(gs, name) && Linking(gs, names, seen, before, name, p)
    requires name in names && proxies[p] in names
    ensures Linking(gs, names, seen, graph, name, p + 1)
  {
    hide DataOk, Lists, FromPart;
    forall n | n in before
      ensures FromPart(gs, seen, n, if proxies[p] == n then before[n].from + [name] else before[n].from, name, p + 1)
    {
      FromStep(gs, seen, n, before[n].from, name, p);
    }
    var node := before[name];
    graph := before[name := node.(outdegree := node.outdegree + 1)];
    var child := graph[proxies[p]];
    graph := graph[proxies[p] := child.(from := child.from + [name])];
  }

  lemma FromSkip(gs: seq<Group>, seen: set<string>, n: string, from: seq<string>, name: string)
    requires FromOk(gs, seen, n, from) && Lists(gs, name) == [] && name !in seen
    ensures FromOk(gs, seen + {name}, n, from)
  {
    hide Lists;
  }

  lemma SkipName(gs: seq<Group>, names: set<string>, seen: set<string>, graph: Graph, name: string)
    requires Linked(gs, names, seen, graph) && Lists(gs, name) == [] && name !in seen
    ensures Linked(gs, names, seen + {name}, graph)
  {
    hide DataOk, Lists, FromOk;
    forall n | n in graph ensures FromOk(gs, seen + {name}, n, graph[n].from) {
      FromSkip(gs, seen, n, graph[n].from, name);
    }
  }

  lemma LeftoverLists(gs: seq<Group>, done: set<string>, name: string, d: Option<Group>)
    requires DistinctNames(gs) && Closed(gs, done) && name !in done && DataOk(gs, name, d)
    ensures Lists(gs, name) == if d.Some? then d.value.proxies else []
    ensures forall n :: n in Lists(gs, name) ==> n in AllNames(gs) - done
  {
    if d.Some? {
      var k :| 0 <= k < |gs| && gs[k] == d.value;
      ListsOfGroup(gs, k);
    }
  }

  method LinkName(ghost gs: seq<Group>, ghost done: set<string>, ghost seen: set<string>, before: Graph, name: string)
    returns (graph: Graph)
    requires DistinctNames(gs) && Closed(gs, done) && name !in seen && name in AllNames(gs) - done
    requires Linked(gs, AllNames(gs) - done, seen, before)
    ensures Linked(gs, AllNames(gs) - done, seen + {name}, graph)
  {
    hide DistinctNames, Closed, AllNames, DataOk, Lists;
    var node := before[name];
    LeftoverLists(gs, done, name, node.data);
    if node.data.None? {
      SkipName(gs, AllNames(gs) - done, seen, before, name);
      graph := before;
    } else {
      graph := LinkOne(gs, AllNames(gs) - done, seen, before, name, node.data.value.proxies);
    }
  }

  /** Rebuilds the graph of what the forward peel left; no lookup of a listed name misses. */
  method LinkAll(ghost gs: seq<Group>, ghost done: set<string>, before: Graph) returns (graph: Graph)
    requires DistinctNames(gs) && GraphOf(gs, done, before) && Closed(gs, done)
    ensures Linked(gs, before.Keys, before.Keys, graph)
  {
    hide AllNames, Refs, DataOk, Lists;
    graph := before;
    var todo := graph.Keys;
    ghost var seen: set<string> := {};
    while todo != {}
      invariant todo !! seen && todo + seen == before.Keys
      invariant Linked(gs, before.Keys, seen, graph)
      decreases todo
    {
      var name :| name in todo;
      graph := LinkName(gs, done, seen, graph, name);
      todo, seen := todo - {name}, seen + {name};
    }
    assert seen == before.Keys;
  }

  // ---- step 2.2: names that list nobody left ----

  ghost predicate Sinks(graph: Graph, queue: seq<string>) {
    NoDuplicates(queue) && forall n :: n in queue <==> n in graph && graph[n].outdegree == 0
  }

  method FindSinks(graph: Graph) returns (queue: seq<string>)
    ensures Sinks(graph, queue)
  {
    queue := [];
    var todo := graph.Keys;
    while todo != {}
      invariant todo <= graph.Keys && NoDuplicates(queue)
      invariant forall n :: n in queue <==> n in graph.Keys - todo && graph[n].outdegree == 0
      decreases todo
    {
      var name :| name in todo;
      if graph[name].outdegree == 0 {
        queue := queue + [name];
      }
      todo := todo - {name};
    }
  }

  /** Counts against the names left; a removed name lists none of them, and each name left is
      listed by another. */
  ghost predicate Unwinding(gs: seq<Group>, names: set<string>, graph: Graph, queue: seq<string>) {
    && graph.Keys <= names && graph.Keys != {}
    && Sinks(graph, queue)
    && (forall n :: n in graph ==>
          graph[n].outdegree == CountIn(Lists(gs, n), graph.Keys) && FromOk(gs, names, n, graph[n].from))
    && (forall n :: n in names - graph.Keys ==> CountIn(Lists(gs, n), graph.Keys) == 0)
    && (forall n :: n in graph ==> HasPrevious(gs, graph.Keys, n))
  }

  /** While the sink `name` is being taken out of the counts of those that list it. */
  ghost predicate Retracting(gs: seq<Group>, names: set<string>, left: set<string>, graph: Graph, queue: seq<string>,
                             from: seq<string>, p: nat)
    requires p <= |from|
  {
    && graph.Keys == left
    && Sinks(graph, queue)
    && (forall n :: n in graph ==>
          graph[n].outdegree == CountIn(Lists(gs, n), left) - multiset(from[..p])[n]
          && FromOk(gs, names, n, graph[n].from))
  }

  lemma {:induction false} CountInAtLeast(s: seq<string>, names: set<string>, n: string)
    requires n in names
    ensures CountIn(s, names) >= multiset(s)[n]
  {
    CountInWithout(s, names, n);
  }

  /** The next name to adjust is still in the graph and lists more than has been retracted. */
  lemma StillLists(gs: seq<Group>, names: set<string>, left: set<string>, name: string, from: seq<string>, p: nat)
    requires name in left && p < |from|
    requires FromOk(gs, names, name, from)
    requires forall n :: n in names - left ==> CountIn(Lists(gs, n), left) == 0
    ensures from[p] in left && CountIn(Lists(gs, from[p]), left) > multiset(from[..p])[from[p]]
  {
    hide Lists;
    var f := from[p];
    assert from == from[..p] + ([f] + from[p + 1..]);
    assert multiset(from) == multiset(from[..p]) + multiset([f] + from[p + 1..]);
    CountInAtLeast(Lists(gs, f), left, name);
  }

  method Retract(ghost gs: seq<Group>, ghost names: set<string>, before: Graph, q: seq<string>, ghost name: string,
                 from: seq<string>)
    returns (graph: Graph, queue: seq<string>)
    requires Unwinding(gs, names, before, q) && name in before && before[name].from == from
    ensures Retracting(gs, names, before.Keys, graph, queue, from, |from|)
    ensures q <= queue
  {
    hide Lists, CountIn, HasPrevious, FromOk;
    graph, queue := before, q;
    var p := 0;
    assert from[..0] == [];
    while p < |from|
      invariant 0 <= p <= |from| && Retracting(gs, names, before.Keys, graph, queue, from, p)
      invariant q <= queue
    {
      StillLists(gs, names, before.Keys, name, from, p);
      graph, queue := RetractOne(gs, names, before.Keys, graph, queue, from, p);
      p := p + 1;
    }
  }

  method RetractOne(ghost gs: seq<Group>, ghost names: set<string>, ghost left: set<string>, before: Graph,
                    q: seq<string>,
                    from: seq<string>, p: nat)
    returns (graph: Graph, queue: seq<string>)
    requires p < |from| && Retracting(gs, names, left, before, q, from, p)
    requires from[p] in left && CountIn(Lists(gs, from[p]), left) > multiset(from[..p])[from[p]]
    ensures Retracting(gs, names, left, graph, queue, from, p + 1)
    ensures q <= queue
  {
    hide Lists, CountIn, FromOk;
    var f := from[p];
    assert from[..p + 1] == from[..p] + [f];
    var node := before[f].(outdegree := before[f].outdegree - 1);
    graph, queue := before[f := node], q;
    if node.outdegree == 0 {
      queue := queue + [f];
    }
  }

  /** A sink can go: nobody left depends on it for a predecessor, and it is not the last name. */
  lemma SinkCanGo(gs: seq<Group>, left: set<string>, name: string)
    requires DistinctNames(gs) && name in left && CountIn(Lists(gs, name), left) == 0
    requires forall n :: n in left ==> HasPrevious(gs, left, n)
    ensures left - {name} != {}
    ensures forall n :: n in left - {name} ==> HasPrevious(gs, left - {name}, n)
  {
    hide HasPrevious, Lists, DistinctNames;
    CountInZero(Lists(gs, name), left);
    forall n | n in left ensures HasPrevious(gs, left - {name}, n) {
      var m := PreviousOf(gs, left, n);
      ListsIsEdge(gs, m, n);
      IsPrevious(gs, left - {name}, m, n);
    }
    var m := PreviousOf(gs, left, name);
    ListsIsEdge(gs, m, name);
    assert m in left - {name};
  }

  lemma IsPrevious(gs: seq<Group>, left: set<string>, m: string, n: string)
    requires m in left && Edge(gs, m, n)
    ensures HasPrevious(gs, left, n)
  {
  }

  lemma PreviousOf(gs: seq<Group>, left: set<string>, n: string) returns (m: string)
    requires HasPrevious(gs, left, n)
    ensures m in left && Edge(gs, m, n)
  {
    m :| m in left && Edge(gs, m, n);
  }

  lemma CountAfter(gs: seq<Group>, names: set<string>, left: set<string>, name: string, from: seq<string>, n: string)
    requires FromOk(gs, names, name, from) && n in names && name in left
    ensures CountIn(Lists(gs, n), left - {name}) == CountIn(Lists(gs, n), left) - multiset(from)[n]
  {
    hide Lists;
    CountInWithout(Lists(gs, n), left, name);
  }

  lemma SourceOfNone(gs: seq<Group>, names: set<string>, left: set<string>, name: string, from: seq<string>)
    requires FromOk(gs, names, name, from) && name in left && left <= names && CountIn(Lists(gs, name), left) == 0
    ensures multiset(from)[name] == 0
  {
    hide Lists;
    CountInAtLeast(Lists(gs, name), left, name);
  }

  lemma Retracted(gs: seq<Group>, names: set<string>, before: Graph, q: seq<string>, graph: Graph, queue: seq<string>,
                  name: string, from: seq<string>)
    requires DistinctNames(gs) && Unwinding(gs, names, before, q)
    requires |q| > 0 && q[0] == name && before[name].from == from && q <= queue
    requires Retracting(gs, names, before.Keys, graph, queue, from, |from|)
    ensures Unwinding(gs, names, graph - {name}, queue[1..])
  {
    hide Lists, CountIn, HasPrevious, DistinctNames, FromOk;
    var left := before.Keys;
    assert from[..|from|] == from;
    forall n | n in names
      ensures CountIn(Lists(gs, n), left - {name}) == CountIn(Lists(gs, n), left) - multiset(from)[n]
    {
      CountAfter(gs, names, left, name, from, n);
    }
    SourceOfNone(gs, names, left, name, from);
    SinkCanGo(gs, left, name);
    assert (graph - {name}).Keys == left - {name};
    assert queue == [name] + queue[1..];
  }

  /** The reverse peel leaves a set in which every name has a predecessor and a successor. */
  method PeelSinks(ghost gs: seq<Group>, before: Graph) returns (graph: Graph)
    requires DistinctNames(gs) && before.Keys != {}
    requires Linked(gs, before.Keys, before.Keys, before)
    requires forall n :: n in before ==> HasPrevious(gs, before.Keys, n)
    requires forall n, m :: n in before && m in Lists(gs, n) ==> m in before
    ensures LoopSet(gs, graph.Keys)
  {
    hide Lists, CountIn, HasPrevious, HasNext, DistinctNames, DataOk, FromOk;
    graph := before;
    var queue := FindSinks(graph);
    forall n | n in before ensures CountIn(Lists(gs, n), before.Keys) == |Lists(gs, n)| {
      CountInAll(Lists(gs, n), before.Keys);
    }
    while |queue| > 0
      invariant Unwinding(gs, before.Keys, graph, queue)
      decreases |graph.Keys|
    {
      var name := queue[0];
      ghost var was, q := graph, queue;
      graph, queue := Retract(gs, before.Keys, graph, queue, name, graph[name].from);
      Retracted(gs, before.Keys, was, q, graph, queue, name, was[name].from);
      graph, queue := graph - {name}, queue[1..];
      assert graph.Keys == was.Keys - {name};
    }
    forall n | n in graph ensures HasNext(gs, graph.Keys, n) {
      SuccessorLeft(gs, graph.Keys, n);
    }
  }

  lemma SuccessorLeft(gs: seq<Group>, left: set<string>, n: string)
    requires DistinctNames(gs) && CountIn(Lists(gs, n), left) > 0
    ensures HasNext(gs, left, n)
  {
    CountInZero(Lists(gs, n), left);
    var i :| 0 <= i < |Lists(gs, n)| && Lists(gs, n)[i] in left;
    var m := Lists(gs, n)[i];
    ListsIsEdge(gs, n, m);
  }
}
