/** Paths and cycles of references between names. */
module Digraphs {
  type Edges = iset<(string, string)>

  ghost predicate Leads(edges: Edges, a: string, b: string) {
    (a, b) in edges
  }

  ghost predicate Path(edges: Edges, p: seq<string>) {
    forall i :: 0 <= i < |p| - 1 ==> Leads(edges, p[i], p[i + 1])
  }

  ghost predicate Cycle(edges: Edges, p: seq<string>) {
    |p| >= 2 && Path(edges, p) && p[0] == p[|p| - 1]
  }

  ghost predicate HasCycle(edges: Edges) {
    exists p :: Cycle(edges, p)
  }

  lemma ExtendPath(edges: Edges, p: seq<string>, n: string)
    requires |p| > 0 && Path(edges, p) && Leads(edges, p[|p| - 1], n)
    ensures Path(edges, p + [n])
  {
  }

  /** A path that meets a name twice contains a cycle. */
  lemma CloseCycle(edges: Edges, p: seq<string>, i: nat, j: nat)
    requires Path(edges, p) && i < j < |p| && p[i] == p[j]
    ensures HasCycle(edges)
  {
    var c := p[i..j + 1];
    forall k | 0 <= k < |c| - 1 ensures Leads(edges, c[k], c[k + 1]) {
      assert Leads(edges, p[i + k], p[i + k + 1]);
    }
    assert Cycle(edges, c);
  }
}
