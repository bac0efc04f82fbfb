/** The label trie, updated in place. A ghost map from paths to nodes flattens the tree: every
    node is reached by exactly one path, and a node's child under a label is the node of the
    longer path. */
module DomainTrie {
  import opened Sequences
  import opened Text
  import opened Wrappers
  import opened DomainPatterns

  class Node<T(0)> {
    var childMap: Option<map<string, Node<T>>>
    var childNode: Node?<T>  // used while there is only one child
    var childStr: string
    var inited: bool
    var data: T

    constructor ()
      ensures IsFreshLeaf()
    {
      childMap := None;
      childNode := null;
      childStr := "";
      inited := false;
    }

    ghost predicate IsFreshLeaf() reads this {
      childMap == None && childNode == null && !inited
    }

    function GetChild(s: string): Node?<T> reads this {
      if childMap.None? then
        if childNode != null && childStr == s then childNode else null
      else
        if s in childMap.value then childMap.value[s] else null
    }

    predicate IsEmpty() reads this {
      !inited
    }

    /** Never both representations at once. */
    ghost predicate OneForm() reads this {
      childMap.Some? ==> childNode == null
    }

    method AddChild(s: string, child: Node<T>)
      requires OneForm()
      modifies this
      ensures OneForm()
      ensures forall t :: GetChild(t) == if t == s then child else old(GetChild(t))
      ensures inited == old(inited) && data == old(data)
    {
      if childMap.None? {
        if childNode == null {
          childStr := s;
          childNode := child;
          return;
        }
        var one: map<string, Node<T>> := map[];
        one := one[childStr := childNode];
        childMap := Some(one);
        childStr := "";
        childNode := null;
      }
      childMap := Some(childMap.value[s := child]);
    }

    method GetOrNewChild(s: string) returns (node: Node<T>)
      requires OneForm()
      modifies this
      ensures OneForm()
      ensures old(GetChild(s)) != null ==> node == old(GetChild(s)) && unchanged(this)
      ensures old(GetChild(s)) == null ==> fresh(node) && node.IsFreshLeaf()
      ensures forall t :: GetChild(t) == if t == s then node else old(GetChild(t))
      ensures inited == old(inited) && data == old(data)
    {
      var c := GetChild(s);
      if c != null {
        return c;
      }
      node := new Node<T>();
      AddChild(s, node);
    }

    function GetChildren(): (m: map<string, Node<T>>)
      requires OneForm()
      reads this
      ensures forall s :: GetChild(s) == if s in m then m[s] else null
    {
      if childMap.None? then
        if childNode != null then
          var one: map<string, Node<T>> := map[];
          one[childStr := childNode]
        else map[]
      else childMap.value
    }

    /** The patterns strictly below this node, whose labels read leftmost first are `items`. */
    method Recurse(items: seq<string>, ghost g: map<Path, Node<T>>, ghost at: Path)
      returns (out: seq<(string, T)>, ghost order: seq<Path>)
      requires IsTree(g) && at in g && g[at] == this
      requires items == ReverseSeq(at) && |at| > 0
      ensures Lists(g, out, order, Strictly(g, at))
      decreases Subtree(g, at), 0
    {
      out, order := [], [];
      assert Linked(g, at);
      var children := GetChildren();
      var todo := children.Keys;
      ghost var done: set<string> := {};
      while todo != {}
        invariant todo !! done && todo + done == children.Keys
        invariant Lists(g, out, order, Reached(g, at, done))
        decreases todo
      {
        var key :| key in todo;
        assert g[at].GetChild(key) == children[key];
        SubtreeShrinks(g, at, key);
        var mine, mineOrder := children[key].Visit(key, items, g, at);
        AddBranch(g, at, done, key, out, order, mine, mineOrder);
        out, order := out + mine, order + mineOrder;
        todo, done := todo - {key}, done + {key};
      }
      AllReached(g, at, children.Keys);
    }

    /** This node, hanging under the label `key` of the node at `at`, and what is below it. */
    method Visit(key: string, items: seq<string>, ghost g: map<Path, Node<T>>, ghost at: Path)
      returns (out: seq<(string, T)>, ghost order: seq<Path>)
      requires IsTree(g) && at + [key] in g && g[at + [key]] == this
      requires items == ReverseSeq(at) && |at| > 0
      ensures Lists(g, out, order, Reached(g, at, {key}))
      decreases Subtree(g, at + [key]), 1
    {
      ReverseConcat(at, [key]);
      assert ReverseSeq([key]) == [key];
      out, order := ListSelf([key] + items, g, at + [key]);
      var below, belowOrder := Recurse([key] + items, g, at + [key]);
      Together(g, out, order, Self(g, at + [key]), below, belowOrder, Strictly(g, at + [key]));
      out, order := out + below, order + belowOrder;
      BranchReached(g, at, key);
    }

    method ListSelf(items: seq<string>, ghost g: map<Path, Node<T>>, ghost at: Path)
      returns (out: seq<(string, T)>, ghost order: seq<Path>)
      requires at in g && g[at] == this
      requires items == ReverseSeq(at) && |at| > 1
      ensures Lists(g, out, order, Self(g, at))
    {
      out, order := [], [];
      if inited {
        var domain := Join(items);
        if domain[0] == '.' {
          domain := COMPLEX_WILDCARD + domain;
        }
        out, order := [(domain, data)], [at];
      }
    }

    method SetData(d: T)
      modifies this
      ensures inited && data == d
      ensures childMap == old(childMap) && childNode == old(childNode) && childStr == old(childStr)
    {
      data := d;
      inited := true;
    }

    /** Rewrites the subtree of this node into its compact form: no child map with fewer than
        two entries. What every path leads to stays the same. */
    method Optimize(ghost g: map<Path, Node<T>>, ghost p: Path)
      requires IsTree(g) && p in g && g[p] == this
      modifies Subtree(g, p)
      ensures IsTree(g)
      ensures SameData(g)
      ensures forall q :: q in g && p <= q ==> g[q].Compact()
      decreases Subtree(g, p), if childMap.Some? then 3 else 2
    {
      if childNode != null {
        assert g[p].GetChild(childStr) == childNode;
        SubtreeShrinks(g, p, childStr);
        childNode.Optimize(g, p + [childStr]);
      }
      if childMap.None? {
        OnlyChild(g, p);
        forall q | q in g && p <= q ensures g[q].Compact() {
          if q != p { assert p + [childStr] <= q; }
        }
        return;
      }
      if |childMap.value| == 0 {
        childMap := None;
        OnlyChild(g, p);
        assert forall q :: q in g && p <= q ==> q == p;
      } else if |childMap.value| == 1 {
        var key :| key in childMap.value;
        assert |childMap.value.Keys - {key}| == 0;
        assert childMap.value.Keys == {key};
        childStr := key;
        childNode := childMap.value[key];
        childMap := None;
        Optimize(g, p);
      } else {
        RebuildChildren(g, p);
        assert forall q :: q in g && p <= q && q != p ==> p < q;
      }
    }

    /** The case of several children: copy the map, compacting each child. */
    method RebuildChildren(ghost g: map<Path, Node<T>>, ghost p: Path)
      requires IsTree(g) && p in g && g[p] == this
      requires childMap.Some? && |childMap.value| >= 2
      modifies Subtree(g, p)
      ensures IsTree(g)
      ensures SameData(g)
      ensures Compact() && CompactExcept(g, p, {})
      decreases Subtree(g, p), 1
    {
      hide IsTree, CompactExcept;
      var children: map<string, Node<T>> := map[];
      var todo := childMap.value.Keys;
      AllToDo(g, p);
      while todo != {}
        invariant childMap == old(childMap)
        invariant todo <= childMap.value.Keys && children.Keys == childMap.value.Keys - todo
        invariant forall k :: k in children ==> children[k] == childMap.value[k]
        invariant IsTree(g)
        invariant SameData(g)
        invariant CompactExcept(g, p, todo)
        decreases todo
      {
        var key :| key in todo;
        children := children[key := childMap.value[key]];
        OptimizeChild(g, p, key, todo);
        todo := todo - {key};
      }
      assert children == childMap.value;
      StoreCopy(g, p, children);
    }

    lemma AllToDo(g: map<Path, Node<T>>, p: Path)
      requires IsTree(g) && p in g && g[p] == this && childMap.Some?
      ensures CompactExcept(g, p, childMap.value.Keys)
    {
      forall q | q in g && p < q ensures q[|p|] in childMap.value.Keys {
        ChildOnTheWay(g, p, q);
      }
    }

    /** Replacing the child map by an equal copy moves no node. */
    method StoreCopy(ghost g: map<Path, Node<T>>, ghost p: Path, children: map<string, Node<T>>)
      requires IsTree(g) && p in g && g[p] == this && childMap == Some(children)
      requires CompactExcept(g, p, {})
      modifies this
      ensures IsTree(g) && SameData(g) && childMap == old(childMap)
      ensures CompactExcept(g, p, {})
    {
      childMap := Some(children);
      SameShape(g);
    }

    method OptimizeChild(ghost g: map<Path, Node<T>>, ghost p: Path, key: string, ghost todo: set<string>)
      requires IsTree(g) && p in g && g[p] == this && childMap.Some? && key in childMap.value
      requires CompactExcept(g, p, todo)
      modifies Subtree(g, p + [key])
      ensures childMap == old(childMap) && childNode == old(childNode)
      ensures IsTree(g) && SameData(g) && CompactExcept(g, p, todo - {key})
      decreases Subtree(g, p), 0
    {
      var child := childMap.value[key];
      assert g[p].GetChild(key) == child;
      SubtreeShrinks(g, p, key);
      child.OptimizeBelow(g, p, key, todo);
    }

    /** One child of the node at `p`: the other branches keep their form. */
    method OptimizeBelow(ghost g: map<Path, Node<T>>, ghost p: Path, ghost key: string, ghost todo: set<string>)
      requires IsTree(g) && p in g && p + [key] in g && g[p + [key]] == this
      requires CompactExcept(g, p, todo)
      modifies Subtree(g, p + [key])
      ensures IsTree(g)
      ensures SameData(g)
      ensures CompactExcept(g, p, todo - {key})
      decreases Subtree(g, p + [key]), 4
    {
      Optimize(g, p + [key]);
      assert forall q :: q in g && p < q && q[|p|] == key ==> p + [key] <= q;
    }

    predicate Compact() reads this {
      childMap.Some? ==> |childMap.value| >= 2
    }
  }

  /** The nodes below and at `p`. */
  ghost function Subtree<T(0)>(g: map<Path, Node<T>>, p: Path): set<Node<T>> {
    set q | q in g && p <= q :: g[q]
  }

  /** Every branch below `p` is compact, except those under the labels in `todo`. */
  ghost predicate CompactExcept<T(0)>(g: map<Path, Node<T>>, p: Path, todo: set<string>)
    reads g.Values
  {
    forall q :: q in g && p < q && q[|p|] !in todo ==> g[q].Compact()
  }

  twostate predicate SameData<T(0)>(g: map<Path, Node<T>>)
    reads g.Values
  {
    forall q :: q in g ==> g[q].inited == old(g[q].inited) && g[q].data == old(g[q].data)
  }

  /** Rewriting fields with equal values moves no node. */
  twostate lemma SameShape<T(0)>(g: map<Path, Node<T>>)
    requires old(IsTree(g))
    requires forall q :: q in g ==>
               && g[q].childMap == old(g[q].childMap)
               && g[q].childNode == old(g[q].childNode)
               && g[q].childStr == old(g[q].childStr)
    ensures IsTree(g)
  {
    forall p | p in g ensures Linked(g, p) {
      assert old(Linked(g, p));
      assert forall s :: g[p].GetChild(s) == old(g[p].GetChild(s));
    }
  }

  /** Hanging a new leaf under a free label keeps the tree. */
  lemma GrownTree<T(0)>(g: map<Path, Node<T>>, at: Path, s: string, child: Node<T>)
    requires [] in g && PrefixClosed(g.Keys)
    requires forall p, q :: p in g && q in g && g[p] == g[q] ==> p == q
    requires forall p :: p in g && p != at ==> Linked(g, p)
    requires at in g && at + [s] !in g && child !in g.Values && child.IsFreshLeaf()
    requires g[at].OneForm()
    requires forall t :: g[at].GetChild(t) ==
               if t == s then child else if at + [t] in g then g[at + [t]] else null
    ensures IsTree(g[at + [s] := child])
  {
    var h := g[at + [s] := child];
    forall p | p in h ensures Linked(h, p) {
      if p == at + [s] {
        assert forall t: string :: (p + [t])[..|p|] == p;
      } else {
        assert p != at ==> Linked(g, p);
        forall t: string ensures p + [t] == at + [s] ==> p == at && t == s {
          SnocInjective(p, t, at, s);
        }
      }
    }
    assert PrefixClosed(h.Keys) by {
      assert forall k :: 0 <= k <= |at| ==> (at + [s])[..k] == at[..k];
      assert (at + [s])[..|at| + 1] == at + [s];
    }
  }

  lemma SubtreeShrinks<T(0)>(g: map<Path, Node<T>>, p: Path, s: string)
    requires IsTree(g) && p in g && p + [s] in g
    ensures Subtree(g, p + [s]) < Subtree(g, p)
  {
    assert g[p] in Subtree(g, p);
    assert g[p] !in Subtree(g, p + [s]);
  }

  /** A node without a child map has at most one branch below it. */
  lemma OnlyChild<T(0)>(g: map<Path, Node<T>>, p: Path)
    requires IsTree(g) && p in g && g[p].childMap.None?
    ensures forall q :: q in g && p < q ==> g[p].childNode != null && p + [g[p].childStr] <= q
  {
    forall q | q in g && p < q
      ensures g[p].childNode != null && p + [g[p].childStr] <= q
    {
      ChildOnTheWay(g, p, q);
    }
  }

  lemma ChildOnTheWay<T(0)>(g: map<Path, Node<T>>, p: Path, q: Path)
    requires IsTree(g) && p in g && q in g && p < q
    ensures p + [q[|p|]] in g && g[p].GetChild(q[|p|]) == g[p + [q[|p|]]]
    ensures p + [q[|p|]] <= q
  {
    assert q[..|p| + 1] == p + [q[|p|]];
  }

  /** Local consistency: the node of `p` points exactly to the nodes one label further. */
  ghost predicate Linked<T(0)>(g: map<Path, Node<T>>, p: Path)
    requires p in g
    reads g[p]
  {
    && g[p].OneForm()
    && forall s: string :: g[p].GetChild(s) == if p + [s] in g then g[p + [s]] else null
  }

  ghost predicate IsTree<T(0)>(g: map<Path, Node<T>>)
    reads g.Values
  {
    && [] in g
    && PrefixClosed(g.Keys)
    && (forall p, q :: p in g && q in g && g[p] == g[q] ==> p == q)
    && (forall p :: p in g ==> Linked(g, p))
  }

  /** The paths that carry data, with their data. */
  ghost function ContentsOf<T(0)>(g: map<Path, Node<T>>): map<Path, T>
    reads g.Values
  {
    map p | p in g && g[p].inited :: g[p].data
  }

  twostate lemma SameDataSameContents<T(0)>(g: map<Path, Node<T>>)
    requires SameData(g)
    ensures ContentsOf(g) == old(ContentsOf(g))
  {
  }

  /** A node without data adds nothing. */
  lemma SameContents<T(0)>(h: map<Path, Node<T>>, g: map<Path, Node<T>>, p: Path)
    requires p !in g && h.Keys == g.Keys + {p} && !h[p].inited
    requires forall q :: q in g ==> h[q] == g[q]
    ensures ContentsOf(h) == ContentsOf(g)
  {
  }

  // ---- listing ----

  /** `out` names the paths of `order`, which are those of `paths`, each once. */
  ghost predicate Lists<T(0)>(g: map<Path, Node<T>>, out: seq<(string, T)>, order: seq<Path>, paths: set<Path>)
    reads g.Values
  {
    && |out| == |order|
    && (forall i, j :: 0 <= i < j < |order| ==> order[i] != order[j])
    && (forall p :: p in order <==> p in paths)
    && (forall i :: 0 <= i < |order| ==> order[i] in g && out[i] == (DomainName(order[i]), g[order[i]].data))
  }

  ghost predicate IsEntry<T>(e: (string, T), p: Path, c: map<Path, T>) {
    p in c && p != [] && e == (DomainName(p), c[p])
  }

  ghost predicate HasEntry<T>(e: (string, T), c: map<Path, T>) {
    exists p :: IsEntry(e, p, c)
  }

  /** `out` has the name and data of every stored pattern but the root's, and nothing else. */
  ghost predicate ListsAll<T>(out: seq<(string, T)>, c: map<Path, T>) {
    && (forall p :: p in c && p != [] ==> (DomainName(p), c[p]) in out)
    && (forall i :: 0 <= i < |out| ==> HasEntry(out[i], c))
  }

  lemma ListedAll<T(0)>(g: map<Path, Node<T>>, out: seq<(string, T)>, order: seq<Path>)
    requires Lists(g, out, order, ContentsOf(g).Keys - {[]})
    ensures ListsAll(out, ContentsOf(g))
  {
    var c := ContentsOf(g);
    forall p | p in c && p != [] ensures (DomainName(p), c[p]) in out {
      assert p in order;
      var i :| 0 <= i < |order| && order[i] == p;
      assert out[i] == (DomainName(p), c[p]);
    }
    forall i | 0 <= i < |out| ensures HasEntry(out[i], c) {
      assert order[i] in order;
      assert IsEntry(out[i], order[i], c);
    }
  }

  /** The patterns below `at` that leave it by a label of `keys`. */
  ghost function Reached<T(0)>(g: map<Path, Node<T>>, at: Path, keys: set<string>): set<Path>
    reads g.Values
  {
    set p | p in g && g[p].inited && at < p && p[|at|] in keys
  }

  ghost function Strictly<T(0)>(g: map<Path, Node<T>>, at: Path): set<Path>
    reads g.Values
  {
    set p | p in g && g[p].inited && at < p
  }

  ghost function Self<T(0)>(g: map<Path, Node<T>>, at: Path): set<Path>
    requires at in g
    reads g[at]
  {
    if g[at].inited then {at} else {}
  }

  lemma Together<T(0)>(g: map<Path, Node<T>>, out1: seq<(string, T)>, order1: seq<Path>, s1: set<Path>,
                       out2: seq<(string, T)>, order2: seq<Path>, s2: set<Path>)
    requires Lists(g, out1, order1, s1) && Lists(g, out2, order2, s2) && s1 !! s2
    ensures Lists(g, out1 + out2, order1 + order2, s1 + s2)
  {
    var order := order1 + order2;
    forall i, j | 0 <= i < j < |order| ensures order[i] != order[j] {
      if i < |order1| && |order1| <= j {
        assert order[i] in s1 && order[j] in s2;
      }
    }
  }

  lemma AddBranch<T(0)>(g: map<Path, Node<T>>, at: Path, done: set<string>, key: string,
                        out1: seq<(string, T)>, order1: seq<Path>, out2: seq<(string, T)>, order2: seq<Path>)
    requires key !in done
    requires Lists(g, out1, order1, Reached(g, at, done))
    requires Lists(g, out2, order2, Reached(g, at, {key}))
    ensures Lists(g, out1 + out2, order1 + order2, Reached(g, at, done + {key}))
  {
    Together(g, out1, order1, Reached(g, at, done), out2, order2, Reached(g, at, {key}));
    assert Reached(g, at, done + {key}) == Reached(g, at, done) + Reached(g, at, {key});
  }

  lemma AllReached<T(0)>(g: map<Path, Node<T>>, at: Path, keys: set<string>)
    requires IsTree(g) && at in g
    requires forall s :: g[at].GetChild(s) != null ==> s in keys
    ensures Reached(g, at, keys) == Strictly(g, at)
  {
    forall p | p in g && at < p ensures p[|at|] in keys {
      ChildOnTheWay(g, at, p);
    }
  }

  /** A child and what is below it make up the branch. */
  lemma BranchReached<T(0)>(g: map<Path, Node<T>>, at: Path, key: string)
    requires at + [key] in g
    ensures Reached(g, at, {key}) == Self(g, at + [key]) + Strictly(g, at + [key])
  {
    var top := at + [key];
    forall p | p in g ensures p in Reached(g, at, {key}) <==> p in Self(g, top) + Strictly(g, top) {
      if at < p && p[|at|] == key {
        assert p[..|at| + 1] == top;
        assert p == top || top < p;
      }
    }
  }

  /** The backtracking search below a node. */
  function SearchBelow<T(0)>(ghost g: map<Path, Node<T>>, ghost at: Path, node: Node<T>,
                             parts: seq<string>): (r: Node?<T>)
    requires IsTree(g) && at in g && g[at] == node
    reads g.Values
    ensures r != null ==> r in g.Values
    decreases |parts|
  {
    if |parts| == 0 then node
    else
      var last, rest := parts[|parts| - 1], parts[..|parts| - 1];
      assert Linked(g, at);
      var c := node.GetChild(last);
      var exact := if c != null then SearchBelow(g, at + [last], c, rest) else null;
      if exact != null && !exact.IsEmpty() then exact
      else
        var w := node.GetChild(WILDCARD);
        var star := if w != null then SearchBelow(g, at + [WILDCARD], w, rest) else null;
        if star != null && !star.IsEmpty() then star
        else node.GetChild(DOT_WILDCARD)
  }

  /** The heap search follows the search over the set of stored paths. */
  lemma {:induction false} SearchFollowsPaths<T(0)>(g: map<Path, Node<T>>, at: Path, parts: seq<string>)
    requires IsTree(g) && at in g
    ensures SearchBelow(g, at, g[at], parts) ==
            match FindPath(g.Keys, ContentsOf(g).Keys, at, parts)
            case None => null
            case Some(p) => g[p]
    decreases |parts|
  {
    if |parts| > 0 {
      var last, rest := parts[|parts| - 1], parts[..|parts| - 1];
      assert Linked(g, at);
      if at + [last] in g {
        SearchFollowsPaths(g, at + [last], rest);
      }
      if at + [WILDCARD] in g {
        SearchFollowsPaths(g, at + [WILDCARD], rest);
      }
    }
  }

  class DomainTrie<T(0)> {
    const root: Node<T>
    ghost var nodes: map<Path, Node<T>>

    ghost predicate Valid() reads this, nodes.Values {
      && IsTree(nodes)
      && nodes[[]] == root
      && forall p :: p in nodes ==> WellFormed(p)
    }

    ghost function Contents(): map<Path, T>
      reads this, nodes.Values
    {
      ContentsOf(nodes)
    }

    constructor ()
      ensures Valid() && fresh(nodes.Values)
      ensures Contents() == map[]
    {
      root := new Node<T>();
      nodes := map[[] := root];
    }

    /** Stores `data` under the path of `parts`, which are given leftmost first. */
    method InsertParts(parts: seq<string>, data: T)
      requires Valid() && WellFormed(ReverseSeq(parts))
      modifies this, nodes.Values
      ensures Valid() && fresh(nodes.Values - old(nodes.Values))
      ensures Contents() == old(Contents())[ReverseSeq(parts) := data]
    {
      var node := root;
      var i := |parts|;
      ghost var at: Path := [];
      while i > 0
        invariant 0 <= i <= |parts|
        invariant at == ReverseSeq(parts[i..])
        invariant Valid() && fresh(nodes.Values - old(nodes.Values))
        invariant at in nodes && nodes[at] == node
        invariant Contents() == old(Contents())
      {
        i := i - 1;
        assert parts[i..] == [parts[i]] + parts[i + 1..];
        ReverseConcat(parts[..i], parts[i..]);
        assert parts == parts[..i] + parts[i..];
        assert ReverseSeq(parts)[..|at| + 1] == at + [parts[i]];
        node := Descend(node, at, parts[i]);
        at := at + [parts[i]];
      }
      assert parts[0..] == parts;
      StoreAt(node, at, data);
    }

    method Descend(node: Node<T>, ghost at: Path, part: string) returns (child: Node<T>)
      requires Valid() && at in nodes && nodes[at] == node && WellFormed(at + [part])
      modifies this, nodes.Values
      ensures Valid() && fresh(nodes.Values - old(nodes.Values))
      ensures at + [part] in nodes && nodes[at + [part]] == child
      ensures Contents() == old(Contents())
    {
      assert Linked(nodes, at);
      child := node.GetOrNewChild(part);
      SameDataSameContents(nodes);
      if at + [part] !in nodes {
        forall p | p in nodes && p != at ensures Linked(nodes, p) {
          assert old(Linked(nodes, p));
        }
        Register(at, part, child);
      }
    }

    /** Records a new leaf that has been hung under a free label. */
    ghost method Register(at: Path, s: string, child: Node<T>)
      requires [] in nodes && PrefixClosed(nodes.Keys) && nodes[[]] == root
      requires forall p, q :: p in nodes && q in nodes && nodes[p] == nodes[q] ==> p == q
      requires forall p :: p in nodes && p != at ==> Linked(nodes, p)
      requires at in nodes && at + [s] !in nodes && child !in nodes.Values && child.IsFreshLeaf()
      requires nodes[at].OneForm()
      requires forall t :: nodes[at].GetChild(t) ==
                 if t == s then child else if at + [t] in nodes then nodes[at + [t]] else null
      requires WellFormed(at + [s]) && forall p :: p in nodes ==> WellFormed(p)
      modifies `nodes
      ensures Valid() && nodes == old(nodes)[at + [s] := child]
      ensures Contents() == old(Contents())
    {
      GrownTree(nodes, at, s, child);
      SameContents(nodes[at + [s] := child], nodes, at + [s]);
      nodes := nodes[at + [s] := child];
    }

    method StoreAt(node: Node<T>, ghost at: Path, data: T)
      requires Valid() && at in nodes && nodes[at] == node
      modifies nodes.Values
      ensures Valid()
      ensures Contents() == old(Contents())[at := data]
    {
      node.SetData(data);
    }

    /** "+.q" stands for "q" and ".q" together. */
    method Insert(domain: string, data: T) returns (ok: bool)
      requires Valid()
      modifies this, nodes.Values
      ensures Valid() && fresh(nodes.Values - old(nodes.Values))
      ensures ok <==> ValidAndSplitDomain(domain).Some?
      ensures Contents() == if ok then Overwritten(old(Contents()), PathsOf(domain), data) else old(Contents())
    {
      var split := ValidAndSplitDomain(domain);
      if split.None? {
        return false;
      }
      var parts := split.value;
      PathsWellFormed(domain);
      if parts[0] == COMPLEX_WILDCARD {
        InsertBoth(parts[1..], parts[0 := DOT_WILDCARD], data);
      } else {
        InsertParts(parts, data);
      }
      return true;
    }

    method InsertBoth(parts: seq<string>, dotted: seq<string>, data: T)
      requires Valid() && WellFormed(ReverseSeq(parts)) && WellFormed(ReverseSeq(dotted))
      modifies this, nodes.Values
      ensures Valid() && fresh(nodes.Values - old(nodes.Values))
      ensures Contents() == Overwritten(old(Contents()), {ReverseSeq(parts), ReverseSeq(dotted)}, data)
    {
      ghost var before := Contents();
      InsertParts(parts, data);
      InsertParts(dotted, data);
      OverwriteTwo(before, ReverseSeq(parts), ReverseSeq(dotted), data);
    }

    function Search(domain: string): (r: Node?<T>)
      requires Valid()
      reads this, nodes.Values
      ensures r != null ==> r in nodes.Values && r.inited
    {
      var split := ValidAndSplitDomain(domain);
      if split.None? || split.value[0] == "" then null
      else
        var n := SearchBelow(nodes, [], root, split.value);
        if n == null || n.IsEmpty() then null else n
    }

    /** Search returns the data of the best covering pattern, and nothing only when there is none. */
    lemma SearchIsBest(domain: string)
      requires Valid()
      ensures Search(domain) == null <==> forall p :: p in Contents() ==> !Covers(p, domain)
      ensures Search(domain) != null ==>
                exists p :: IsWinner(Contents().Keys, p, domain) && p in Contents()
                         && Search(domain) == nodes[p] && Search(domain).data == Contents()[p]
    {
      var split := ValidAndSplitDomain(domain);
      if split.Some? && split.value[0] != "" {
        var parts := split.value;
        SearchFollowsPaths(nodes, [], parts);
        FindPathIsBest(nodes.Keys, Contents().Keys, [], parts);
        assert forall p: Path :: p[0..] == p;
      }
    }

    /** Optimizing is invisible to every search. */
    method Optimize()
      requires Valid()
      modifies nodes.Values
      ensures Valid() && Contents() == old(Contents())
      ensures forall p :: p in nodes ==> nodes[p].Compact()
      ensures forall d :: Search(d) == old(Search(d))
    {
      forall d ensures Search(d) == Landing(nodes, Contents(), d) {
        SearchLands(d);
      }
      ghost var before := Contents();
      root.Optimize(nodes, []);
      SameDataSameContents(nodes);
      forall d ensures Search(d) == Landing(nodes, before, d) {
        SearchLands(d);
      }
    }

    /** Lists every stored pattern but the root's, once, under its full name. */
    method Foreach() returns (out: seq<(string, T)>, ghost order: seq<Path>)
      requires Valid()
      ensures Lists(nodes, out, order, Contents().Keys - {[]})
      ensures ListsAll(out, Contents())
    {
      out, order := [], [];
      assert Linked(nodes, []);
      var children := root.GetChildren();
      var todo := children.Keys;
      ghost var done: set<string> := {};
      while todo != {}
        invariant todo !! done && todo + done == children.Keys
        invariant Lists(nodes, out, order, Reached(nodes, [], done))
        decreases todo
      {
        var key :| key in todo;
        assert nodes[[]].GetChild(key) == children[key];
        var mine, mineOrder := VisitTop(key, children[key]);
        AddBranch(nodes, [], done, key, out, order, mine, mineOrder);
        out, order := out + mine, order + mineOrder;
        todo, done := todo - {key}, done + {key};
      }
      AllReached(nodes, [], children.Keys);
      assert Strictly(nodes, []) == Contents().Keys - {[]};
      ListedAll(nodes, out, order);
    }

    method VisitTop(key: string, child: Node<T>) returns (out: seq<(string, T)>, ghost order: seq<Path>)
      requires Valid() && [] + [key] in nodes && nodes[[] + [key]] == child
      ensures Lists(nodes, out, order, Reached(nodes, [], {key}))
    {
      assert [] + [key] == [key];
      out, order := child.Recurse([key], nodes, [key]);
      ghost var self := [];
      var mine := [];
      if child.inited {
        mine, self := [(Join([key]), child.data)], [[key]];
      }
      Together(nodes, out, order, Strictly(nodes, [key]), mine, self, Self(nodes, [key]));
      out, order := out + mine, order + self;
      BranchReached(nodes, [], key);
      assert Self(nodes, [key]) + Strictly(nodes, [key]) == Strictly(nodes, [key]) + Self(nodes, [key]);
    }

    lemma SearchLands(domain: string)
      requires Valid()
      ensures Search(domain) == Landing(nodes, Contents(), domain)
    {
      var split := ValidAndSplitDomain(domain);
      if split.Some? && split.value[0] != "" {
        SearchFollowsPaths(nodes, [], split.value);
      }
    }
  }

  ghost function Landing<T(0)>(g: map<Path, Node<T>>, c: map<Path, T>, domain: string): Node?<T>
    requires [] in g
  {
    var split := ValidAndSplitDomain(domain);
    if split.None? || split.value[0] == "" then null
    else
      match FindPath(g.Keys, c.Keys, [], split.value)
      case None => null
      case Some(p) => if p in c then g[p] else null
  }
}
