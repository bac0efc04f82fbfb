/** Proxy groups, the references between them, and the counts the sort keeps. */
module GroupGraph {
  import opened Digraphs

  /** A group of the configuration with what decoding makes of it. */
  datatype Group = Group(name: string, proxies: seq<string>, decodes: bool)

  predicate DistinctNames(gs: seq<Group>) {
    forall i, j :: 0 <= i < j < |gs| ==> gs[i].name != gs[j].name
  }

  predicate AllDecode(gs: seq<Group>) {
    forall i :: 0 <= i < |gs| ==> gs[i].decodes
  }

  function Names(gs: seq<Group>): (r: set<string>)
    ensures forall n :: n in r <==> exists i :: 0 <= i < |gs| && gs[i].name == n
  {
    set i | 0 <= i < |gs| :: gs[i].name
  }

  /** A group named `a` lists `b`. */
  ghost predicate Edge(gs: seq<Group>, a: string, b: string) {
    exists i :: 0 <= i < |gs| && gs[i].name == a && b in gs[i].proxies
  }

  ghost function References(gs: seq<Group>): Edges {
    iset e: (string, string) | Edge(gs, e.0, e.1)
  }

  lemma ReferencesAreEdges(gs: seq<Group>, a: string, b: string)
    ensures Leads(References(gs), a, b) <==> Edge(gs, a, b)
  {
  }

  // ---- a sorted list has no cycle ----

  /** Every group named by another group, or by itself, stands before it. */
  ghost predicate DependenciesFirst(gs: seq<Group>) {
    forall i, j :: 0 <= i <= j < |gs| ==> gs[j].name !in gs[i].proxies
  }

  /** Along a path through groups of a sorted list the places go down. */
  lemma {:induction false} PathGoesDown(gs: seq<Group>, p: seq<string>, i: nat, k: nat, m: nat)
    requires DistinctNames(gs) && DependenciesFirst(gs) && Path(References(gs), p)
    requires i < |p| && k < |gs| && gs[k].name == p[0] && m < |gs| && gs[m].name == p[i]
    ensures m + i <= k
  {
    if i > 0 {
      ReferencesAreEdges(gs, p[i - 1], p[i]);
      assert Leads(References(gs), p[i - 1], p[i]);
      var l :| 0 <= l < |gs| && gs[l].name == p[i - 1] && p[i] in gs[l].proxies;
      PathGoesDown(gs, p, i - 1, k, l);
    }
  }

  lemma SortedHasNoCycle(gs: seq<Group>)
    requires DistinctNames(gs) && DependenciesFirst(gs)
    ensures !HasCycle(References(gs))
  {
    forall p | Cycle(References(gs), p) ensures false {
      assert Edge(gs, p[0], p[1]);
      var k :| 0 <= k < |gs| && gs[k].name == p[0];
      PathGoesDown(gs, p, |p| - 1, k, k);
    }
  }

  /** Following members from proxy to proxy, however they are chosen, ends after at most one step
      per group. */
  lemma UnwrapChainEnds(gs: seq<Group>, p: seq<string>)
    requires DistinctNames(gs) && DependenciesFirst(gs) && Path(References(gs), p)
    ensures |p| <= |gs| + 1
  {
    if |p| >= 2 {
      assert Edge(gs, p[0], p[1]) && Edge(gs, p[|p| - 2], p[|p| - 1]);
      var k :| 0 <= k < |gs| && gs[k].name == p[0];
      var m :| 0 <= m < |gs| && gs[m].name == p[|p| - 2];
      PathGoesDown(gs, p, |p| - 2, k, m);
    }
  }

  /** Cycles do not depend on the order of the groups. */
  lemma CycleOfPermutation(gs: seq<Group>, hs: seq<Group>)
    requires multiset(gs) == multiset(hs)
    ensures HasCycle(References(gs)) ==> HasCycle(References(hs))
  {
    forall a, b | Edge(gs, a, b) ensures Edge(hs, a, b) {
      var i :| 0 <= i < |gs| && gs[i].name == a && b in gs[i].proxies;
      assert gs[i] in multiset(hs);
      var j :| 0 <= j < |hs| && hs[j] == gs[i];
    }
    if p :| Cycle(References(gs), p) {
      assert Cycle(References(hs), p);
    }
  }

  // ---- a set that can never be left contains a cycle ----

  ghost predicate HasNext(gs: seq<Group>, s: set<string>, n: string) {
    exists m :: m in s && Edge(gs, n, m)
  }

  ghost predicate HasPrevious(gs: seq<Group>, s: set<string>, n: string) {
    exists m :: m in s && Edge(gs, m, n)
  }

  /** Every element has a successor and a predecessor inside. */
  ghost predicate LoopSet(gs: seq<Group>, s: set<string>) {
    s != {} && forall n :: n in s ==> HasNext(gs, s, n) && HasPrevious(gs, s, n)
  }

  lemma OneStep(gs: seq<Group>, s: set<string>, n: string) returns (m: string)
    requires HasNext(gs, s, n)
    ensures m in s && Edge(gs, n, m)
  {
    m :| m in s && Edge(gs, n, m);
  }

  lemma {:induction false} WalkInside(gs: seq<Group>, s: set<string>, k: nat) returns (p: seq<string>)
    requires LoopSet(gs, s)
    ensures |p| == k + 1 && Path(References(gs), p) && forall i :: 0 <= i < |p| ==> p[i] in s
  {
    hide HasNext, HasPrevious, Edge;
    if k == 0 {
      var n :| n in s;
      p := [n];
    } else {
      var q := WalkInside(gs, s, k - 1);
      var m := OneStep(gs, s, q[|q| - 1]);
      ReferencesAreEdges(gs, q[|q| - 1], m);
      p := q + [m];
    }
  }

  lemma {:induction false} Pigeonhole(p: seq<string>, s: set<string>) returns (i: nat, j: nat)
    requires |p| > |s| && forall k :: 0 <= k < |p| ==> p[k] in s
    ensures i < j < |p| && p[i] == p[j]
  {
    var n := |p| - 1;
    if k :| 0 <= k < n && p[k] == p[n] {
      i, j := k, n;
    } else {
      i, j := Pigeonhole(p[..n], s - {p[n]});
    }
  }

  lemma LoopSetHasCycle(gs: seq<Group>, s: set<string>)
    requires LoopSet(gs, s)
    ensures HasCycle(References(gs))
  {
    hide HasNext, HasPrevious, Edge;
    var p := WalkInside(gs, s, |s|);
    var i, j := Pigeonhole(p, s);
    CloseCycle(References(gs), p, i, j);
  }

  // ---- counting references ----

  /** How often the groups outside `done` list `n`. */
  ghost function Refs(gs: seq<Group>, done: set<string>, n: string): nat {
    if |gs| == 0 then 0
    else
      var g := gs[|gs| - 1];
      Refs(gs[..|gs| - 1], done, n) + if g.name in done then 0 else multiset(g.proxies)[n]
  }

  lemma {:induction false} RefsZero(gs: seq<Group>, done: set<string>, n: string)
    ensures Refs(gs, done, n) == 0 <==>
            forall i :: 0 <= i < |gs| && gs[i].name !in done ==> n !in gs[i].proxies
  {
    if |gs| > 0 {
      RefsZero(gs[..|gs| - 1], done, n);
      assert gs == gs[..|gs| - 1] + [gs[|gs| - 1]];
      assert n in gs[|gs| - 1].proxies <==> multiset(gs[|gs| - 1].proxies)[n] > 0;
    }
  }

  /** Finishing one group takes its references away. */
  lemma {:induction false} RefsWithout(gs: seq<Group>, done: set<string>, name: string, n: string)
    requires DistinctNames(gs) && name !in done
    ensures name !in Names(gs) ==> Refs(gs, done + {name}, n) == Refs(gs, done, n)
    ensures forall i :: 0 <= i < |gs| && gs[i].name == name ==>
              Refs(gs, done + {name}, n) == Refs(gs, done, n) - multiset(gs[i].proxies)[n]
  {
    if |gs| > 0 {
      var init := gs[..|gs| - 1];
      RefsWithout(init, done, name, n);
      assert gs == init + [gs[|gs| - 1]];
      assert forall i :: 0 <= i < |init| ==> gs[i] == init[i];
      if gs[|gs| - 1].name == name {
        assert name !in Names(init);
      }
    }
  }

  /** The groups in `done`, in configuration order. */
  ghost function Finished(gs: seq<Group>, done: set<string>): (r: seq<Group>)
    ensures |r| <= |gs|
  {
    if |gs| == 0 then []
    else
      var g := gs[|gs| - 1];
      Finished(gs[..|gs| - 1], done) + if g.name in done then [g] else []
  }

  lemma {:induction false} FinishNone(gs: seq<Group>, done: set<string>, name: string)
    requires name !in Names(gs)
    ensures Finished(gs, done + {name}) == Finished(gs, done)
  {
    if |gs| > 0 {
      var init := gs[..|gs| - 1];
      forall n | n in Names(init) ensures n in Names(gs) {
        var i :| 0 <= i < |init| && init[i].name == n;
        assert gs[i].name == n;
      }
      FinishNone(init, done, name);
      assert gs[|gs| - 1].name in Names(gs);
    }
  }

  lemma FinishedLast(gs: seq<Group>, done: set<string>)
    requires |gs| > 0
    ensures var last := gs[|gs| - 1];
      multiset(Finished(gs, done))
      == multiset(Finished(gs[..|gs| - 1], done)) + if last.name in done then multiset{last} else multiset{}
  {
  }

  lemma {:induction false} FinishOne(gs: seq<Group>, done: set<string>, k: nat)
    requires DistinctNames(gs) && k < |gs| && gs[k].name !in done
    ensures multiset(Finished(gs, done + {gs[k].name})) == multiset(Finished(gs, done)) + multiset{gs[k]}
  {
    hide Finished;
    var init := gs[..|gs| - 1];
    FinishedLast(gs, done);
    FinishedLast(gs, done + {gs[k].name});
    if k == |gs| - 1 {
      FinishNone(init, done, gs[k].name);
    } else {
      FinishOne(init, done, k);
    }
  }

  lemma {:induction false} AllFinished(gs: seq<Group>, done: set<string>)
    ensures Names(gs) <= done ==> Finished(gs, done) == gs
    ensures forall i :: 0 <= i < |gs| && gs[i].name !in done ==> |Finished(gs, done)| < |gs|
  {
    if |gs| > 0 {
      var init := gs[..|gs| - 1];
      AllFinished(init, done);
      assert gs == init + [gs[|gs| - 1]];
      assert forall i :: 0 <= i < |init| ==> gs[i] == init[i];
    }
  }
}
