/** The group tries for IPv4 and IPv6 networks, edited in place. As for domains, a ghost map
    from paths to nodes flattens each tree. */
module IpCidrTrie {
  import opened Sequences
  import opened CidrSpec

  type Path = seq<nat>

  class IpCidrNode {
    var mark: bool
    var child: map<nat, IpCidrNode>
    const maxValue: nat

    constructor (marked: bool, max: nat)
      ensures mark == marked && child == map[] && maxValue == max
    {
      mark, child, maxValue := marked, map[], max;
    }

    /** Fails for a value over the maximum. */
    method AddChild(value: nat) returns (ok: bool)
      modifies this`child
      ensures ok <==> value <= maxValue
      ensures !ok ==> child == old(child)
      ensures ok ==> child.Keys == old(child.Keys) + {value} && fresh(child[value])
      ensures ok ==> !child[value].mark && child[value].child == map[] && child[value].maxValue == maxValue
      ensures ok ==> forall v :: v in old(child) && v != value ==> child[v] == old(child)[v]
    {
      if value > maxValue {
        return false;
      }
      var n := new IpCidrNode(false, maxValue);
      child := child[value := n];
      return true;
    }

    function GetChild(value: nat): IpCidrNode? reads this {
      if value <= maxValue && value in child then child[value] else null
    }
  }

  ghost predicate Linked(g: map<Path, IpCidrNode>, max: nat, p: Path)
    requires p in g
    reads g[p]
  {
    && g[p].maxValue == max
    && forall v: nat :: g[p].GetChild(v) == if p + [v] in g then g[p + [v]] else null
  }

  ghost predicate IsTrie(g: map<Path, IpCidrNode>, max: nat)
    reads g.Values
  {
    && [] in g && PrefixClosed(g.Keys)
    && (forall p, q :: p in g && q in g && g[p] == g[q] ==> p == q)
    && (forall p :: p in g ==> Linked(g, max, p))
  }

  /** Some nonempty prefix of the path is marked. */
  ghost predicate Covered(g: map<Path, IpCidrNode>, p: Path)
    reads g.Values
  {
    exists k :: 0 < k <= |p| && p[..k] in g && g[p[..k]].mark
  }

  // ---- insertion ----

  /** A new leaf under a free value keeps the trie and covers nothing new. */
  lemma GrownTrie(g: map<Path, IpCidrNode>, max: nat, at: Path, s: nat, n: IpCidrNode)
    requires [] in g && PrefixClosed(g.Keys)
    requires forall p, q :: p in g && q in g && g[p] == g[q] ==> p == q
    requires forall p :: p in g && p != at ==> Linked(g, max, p)
    requires at in g && at + [s] !in g && n !in g.Values
    requires n.child == map[] && n.maxValue == max && !n.mark && g[at].maxValue == max
    requires forall v :: g[at].GetChild(v) == if v == s then n else if at + [v] in g then g[at + [v]] else null
    ensures IsTrie(g[at + [s] := n], max)
    ensures forall p :: Covered(g[at + [s] := n], p) <==> Covered(g, p)
  {
    var h := g[at + [s] := n];
    forall p | p in h ensures Linked(h, max, p) {
      if p == at + [s] {
        assert forall v: nat :: (p + [v])[..|p|] == p;
      } else {
        assert p != at ==> Linked(g, max, p);
        forall v: nat ensures p + [v] == at + [s] ==> p == at && v == s {
          SnocInjective(p, v, at, s);
        }
      }
    }
    assert PrefixClosed(h.Keys) by {
      assert forall k :: 0 <= k <= |at| ==> (at + [s])[..k] == at[..k];
      assert (at + [s])[..|at| + 1] == at + [s];
    }
    forall p ensures Covered(h, p) <==> Covered(g, p) {
      assert forall k :: 0 < k <= |p| && p[..k] in g ==> h[p[..k]] == g[p[..k]];
    }
  }

  /** The child for one more value, created when missing. */
  method Descend(node: IpCidrNode, value: nat, ghost g: map<Path, IpCidrNode>, ghost max: nat, ghost at: Path)
    returns (next: IpCidrNode, ghost h: map<Path, IpCidrNode>)
    requires IsTrie(g, max) && at in g && g[at] == node && value <= max
    modifies node`child
    ensures IsTrie(h, max) && at + [value] in h && h[at + [value]] == next
    ensures h[[]] == g[[]] && fresh(h.Values - g.Values)
    ensures forall p :: Covered(h, p) <==> old(Covered(g, p))
  {
    h := g;
    assert Linked(g, max, at);
    var c := node.GetChild(value);
    if c != null {
      return c, h;
    }
    var _ := node.AddChild(value);
    next := node.child[value];
    forall p | p in g && p != at ensures Linked(g, max, p) {
      assert old(Linked(g, max, p));
    }
    GrownTrie(g, max, at, value, next);
    h := g[at + [value] := next];
  }

  function From(keys: set<nat>, k: nat): set<nat> {
    set v | v in keys && v >= k
  }

  /** The first value that is not below the number of children from it on. */
  ghost predicate StopsAt(keys: set<nat>, k: nat) {
    |From(keys, k)| <= k && forall j: nat :: j < k ==> j < |From(keys, j)|
  }

  /** Deletes the children with the values 0, 1, ... below the shrinking number of children. */
  method CleanChild(node: IpCidrNode, ghost g: map<Path, IpCidrNode>, ghost max: nat, ghost at: Path)
    returns (ghost h: map<Path, IpCidrNode>)
    requires IsTrie(g, max) && at in g && g[at] == node && node.mark && |at| > 0
    modifies node`child
    ensures IsTrie(h, max) && h[[]] == g[[]] && h.Values <= g.Values
    ensures forall p :: Covered(h, p) <==> old(Covered(g, p))
    ensures exists k :: StopsAt(old(node.child.Keys), k) && node.child.Keys == From(old(node.child.Keys), k)
  {
    assert [] in g;
    hide Covered, IsTrie, From;
    h := g;
    var i := 0;
    Fewer(node.child, 0);
    FromZero(node.child.Keys);
    while i < |node.child|
      invariant IsTrie(h, max) && at in h && h[at] == node && [] in h && h[[]] == g[[]] && h.Values <= g.Values
      invariant forall p :: Covered(h, p) <==> old(Covered(g, p))
      invariant |node.child| == |node.child.Keys| && node.child.Keys == From(old(node.child.Keys), i)
      invariant forall j: nat :: j < i ==> j < |From(old(node.child.Keys), j)|
      decreases |node.child| - i
    {
      h := DeleteChild(node, i, h, max, at);
      FromNext(old(node.child.Keys), i);
      i := i + 1;
    }
    assert StopsAt(old(node.child.Keys), i);
  }

  lemma FromZero(keys: set<nat>)
    ensures From(keys, 0) == keys
  {
  }

  lemma FromNext(keys: set<nat>, k: nat)
    ensures From(keys, k) - {k} == From(keys, k + 1)
  {
  }

  /** Deletes one child of a marked node, and with it everything below. */
  method DeleteChild(node: IpCidrNode, i: nat, ghost g: map<Path, IpCidrNode>, ghost max: nat, ghost at: Path)
    returns (ghost h: map<Path, IpCidrNode>)
    requires IsTrie(g, max) && at in g && g[at] == node && node.mark && |at| > 0
    modifies node`child
    ensures IsTrie(h, max) && at in h && h[at] == node && [] in h && h[[]] == g[[]] && h.Values <= g.Values
    ensures forall p :: Covered(h, p) <==> old(Covered(g, p))
    ensures node.child.Keys == old(node.child.Keys) - {i} && |node.child| <= old(|node.child|)
    ensures |node.child| == |node.child.Keys|
  {
    assert Linked(g, max, at);
    Fewer(node.child, i);
    node.child := node.child - {i};
    Fewer(node.child, i);
    PrunedTrie(g, max, at, i);
    h := Pruned(g, at + [i]);
  }

  lemma Fewer<T>(children: map<nat, T>, i: nat)
    ensures |children - {i}| <= |children| && |children.Keys| == |children|
    ensures (children - {i}).Keys == children.Keys - {i}
  {
    assert (children - {i}).Keys == children.Keys - {i};
    SubsetSize((children - {i}).Keys, children.Keys);
  }

  /** Without the subtree at `cut`. */
  ghost function Pruned(g: map<Path, IpCidrNode>, cut: Path): map<Path, IpCidrNode> {
    map p | p in g && !(cut <= p) :: g[p]
  }

  lemma PrunedTrie(g: map<Path, IpCidrNode>, max: nat, at: Path, i: nat)
    requires [] in g && PrefixClosed(g.Keys) && at in g && |at| > 0 && g[at].mark
    requires forall p, q :: p in g && q in g && g[p] == g[q] ==> p == q
    requires forall p :: p in g && p != at ==> Linked(g, max, p)
    requires g[at].maxValue == max
    requires forall v: nat :: g[at].GetChild(v) == if v != i && at + [v] in g then g[at + [v]] else null
    ensures IsTrie(Pruned(g, at + [i]), max)
    ensures forall p :: Covered(Pruned(g, at + [i]), p) <==> Covered(g, p)
  {
    var cut := at + [i];
    var h := Pruned(g, cut);
    forall p | p in h ensures Linked(h, max, p) {
      assert p != at ==> Linked(g, max, p);
      forall v: nat ensures p + [v] in h <==> p + [v] in g && !(p == at && v == i) {
        ExtendsCut(p, v, at, i);
      }
    }
    assert at in h;
    forall p ensures Covered(h, p) <==> Covered(g, p) {
      if k :| 0 < k <= |p| && p[..k] in g && g[p[..k]].mark {
        PrunedCovers(g, at, i, p, k);
      }
    }
  }

  lemma ExtendsCut(p: Path, v: nat, at: Path, i: nat)
    ensures at + [i] <= p + [v] <==> at + [i] <= p || (p == at && v == i)
  {
    SnocInjective(p, v, at, i);
    if at + [i] <= p + [v] && |p| >= |at| + 1 {
      assert (p + [v])[..|at| + 1] == p[..|at| + 1];
    }
  }

  /** A path below the cut is covered by the marked node above it. */
  lemma PrunedCovers(g: map<Path, IpCidrNode>, at: Path, i: nat, p: Path, k: nat)
    requires at in g && |at| > 0 && g[at].mark
    requires 0 < k <= |p| && p[..k] in g && g[p[..k]].mark
    ensures Covered(Pruned(g, at + [i]), p)
  {
    if at + [i] <= p[..k] {
      assert p[..|at|] == at;
      assert at in Pruned(g, at + [i]);
    } else {
      assert p[..k] in Pruned(g, at + [i]);
    }
  }

  /** Marks the node of a group path, unless a node on the way is marked already. */
  method AddGroups(root: IpCidrNode, groups: Path, ghost g: map<Path, IpCidrNode>, ghost max: nat)
    returns (ghost h: map<Path, IpCidrNode>)
    requires IsTrie(g, max) && g[[]] == root && |groups| > 0 && forall i :: 0 <= i < |groups| ==> groups[i] <= max
    modifies g.Values
    ensures IsTrie(h, max) && h[[]] == root && fresh(h.Values - g.Values)
    ensures forall p :: Covered(h, p) <==> old(Covered(g, p)) || groups <= p
  {
    hide Covered, Linked;
    var node;
    node, h := Descend(root, groups[0], g, max, []);
    ghost var at := [groups[0]];
    assert [] + [groups[0]] == at == groups[..1];
    var i := 1;
    while i < |groups|
      invariant 1 <= i <= |groups| && at == groups[..i]
      invariant IsTrie(h, max) && h[[]] == root && at in h && h[at] == node && fresh(h.Values - g.Values)
      invariant forall p :: Covered(h, p) <==> old(Covered(g, p))
    {
      if node.mark {
        AlreadyCovered(h, at, groups);
        return;
      }
      node, h := Descend(node, groups[i], h, max, at);
      at := at + [groups[i]];
      i := i + 1;
    }
    assert at == groups;
    SetMark(node, h, max, at);
    h := CleanChild(node, h, max, at);
  }

  lemma AlreadyCovered(g: map<Path, IpCidrNode>, at: Path, groups: Path)
    requires at in g && |at| > 0 && g[at].mark && at <= groups
    ensures forall p :: groups <= p ==> Covered(g, p)
  {
    forall p | groups <= p ensures Covered(g, p) {
      assert p[..|at|] == at;
    }
  }

  method SetMark(node: IpCidrNode, ghost g: map<Path, IpCidrNode>, ghost max: nat, ghost at: Path)
    requires IsTrie(g, max) && at in g && g[at] == node && |at| > 0
    modifies node`mark
    ensures IsTrie(g, max) && node.mark
    ensures forall p :: Covered(g, p) <==> old(Covered(g, p)) || at <= p
  {
    node.mark := true;
    forall p | p in g ensures Linked(g, max, p) {
      assert old(Linked(g, max, p));
      assert forall v :: g[p].GetChild(v) == old(g[p].GetChild(v));
    }
    forall p ensures Covered(g, p) <==> old(Covered(g, p)) || at <= p {
      if at <= p { assert p[..|at|] == at; }
    }
  }

  // ---- search ----

  /** Follows the values until a marked node; fails where a child is missing or the end is not
      marked. */
  method Search(root: IpCidrNode, values: Path, ghost g: map<Path, IpCidrNode>, ghost max: nat) returns (r: IpCidrNode?)
    requires IsTrie(g, max) && g[[]] == root && |values| > 0
    ensures r != null <==> Covered(g, values)
  {
    assert Linked(g, max, []);
    assert [] + [values[0]] == values[..1];
    var node := root.GetChild(values[0]);
    if node == null || node.mark {
      if node == null { MissingCovers(g, values, 1); }
      return node;
    }
    var i := 1;
    while i < |values|
      invariant 1 <= i <= |values| && values[..i] in g && g[values[..i]] == node && !node.mark
      invariant forall k :: 0 < k <= i && values[..k] in g ==> !g[values[..k]].mark
    {
      assert Linked(g, max, values[..i]);
      assert values[..i] + [values[i]] == values[..i + 1];
      if node.GetChild(values[i]) == null {
        MissingCovers(g, values, i + 1);
        return null;
      }
      node := node.GetChild(values[i]);
      i := i + 1;
      if node.mark {
        return node;
      }
    }
    assert values[..i] == values;
    return null;
  }

  /** Behind a missing node nothing is stored. */
  lemma MissingCovers(g: map<Path, IpCidrNode>, values: Path, i: nat)
    requires PrefixClosed(g.Keys) && 0 < i <= |values| && values[..i] !in g
    requires forall k :: 0 < k < i && values[..k] in g ==> !g[values[..k]].mark
    ensures !Covered(g, values)
  {
    forall k | i <= k <= |values| ensures values[..k] !in g {
      assert values[..k][..i] == values[..i];
    }
  }

  // ---- the two families ----

  /** The values an address is looked up by: bytes, or pairs of bytes. */
  function GroupValues(ip: Bytes): (r: Path)
    requires |ip| == 4 || |ip| == 16
    ensures |r| == |ip| / GroupBytes(ip)
    ensures forall i :: 0 <= i < |r| ==> r[i] == GroupValue(ip, i) <= MaxValue(ip)
  {
    seq(|ip| / GroupBytes(ip), i requires 0 <= i < |ip| / GroupBytes(ip) => GroupValue(ip, i))
  }

  function GroupValue(ip: Bytes, i: nat): (v: nat)
    requires (|ip| == 4 || |ip| == 16) && i < |ip| / GroupBytes(ip)
    ensures v <= MaxValue(ip)
  {
    var first: int, second: int := ip[i * GroupBytes(ip)], ip[(i + 1) * GroupBytes(ip) - 1];
    if IsV4(ip) then first else 256 * first + second
  }

  function MaxValue(ip: Bytes): nat {
    if IsV4(ip) then 0xFF else 0xFFFF
  }

  /** Agreeing on whole groups is agreeing on their bytes. */
  lemma GroupsAgree(a: Bytes, b: Bytes, n: nat)
    requires (|a| == 4 || |a| == 16) && |b| == |a| && n <= |a| && n % GroupBytes(a) == 0
    ensures GroupValues(a)[..n / GroupBytes(a)] <= GroupValues(b) <==> a[..n] == b[..n]
  {
    var w := GroupBytes(a);
    var x, y := GroupValues(a), GroupValues(b);
    if x[..n / w] <= y {
      assert forall i :: 0 <= i < n / w ==> x[i] == x[..n / w][i] == y[i];
      forall j | 0 <= j < n ensures a[j] == b[j] {
        var i := j / w;
        assert i < n / w && x[i] == y[i];
        assert w == 2 ==> j == 2 * i || j == 2 * i + 1;
      }
    }
    if a[..n] == b[..n] {
      assert forall j :: 0 <= j < n ==> a[j] == a[..n][j] == b[..n][j];
      forall i | 0 <= i < n / w ensures x[i] == y[i] {
        assert w == 2 ==> 2 * i + 1 < n && a[2 * i] == b[2 * i] && a[2 * i + 1] == b[2 * i + 1];
      }
    }
  }

  class IpCidrTrie {
    const ipv4Trie: IpCidrNode
    const ipv6Trie: IpCidrNode
    ghost var nodes4: map<Path, IpCidrNode>
    ghost var nodes6: map<Path, IpCidrNode>
    ghost var added: seq<Cidr>

    ghost predicate Shape() reads this, nodes4.Values, nodes6.Values {
      && IsTrie(nodes4, 0xFF) && nodes4[[]] == ipv4Trie
      && IsTrie(nodes6, 0xFFFF) && nodes6[[]] == ipv6Trie
      && nodes4.Values !! nodes6.Values
    }

    /** An address is covered in its trie exactly when one of the added networks covers it. */
    ghost predicate Valid() reads this, nodes4.Values, nodes6.Values {
      && Shape()
      && (forall c :: c in added ==> Sized(c))
      && (forall ip: Bytes :: |ip| == 4 ==> (Covered(nodes4, GroupValues(ip)) <==> CoveredBy(added, ip)))
      && (forall ip: Bytes :: |ip| == 16 ==> (Covered(nodes6, GroupValues(ip)) <==> CoveredBy(added, ip)))
    }

    constructor ()
      ensures Valid() && added == [] && fresh(nodes4.Values + nodes6.Values)
    {
      ipv4Trie := new IpCidrNode(false, 0xFF);
      ipv6Trie := new IpCidrNode(false, 0xFFFF);
      nodes4, nodes6, added := map[[] := ipv4Trie], map[[] := ipv6Trie], [];
    }

    /** Adds one network of whole groups to the trie of its family. */
    method AddSub(sub: Bytes, n: nat)
      requires Shape() && (|sub| == 4 || |sub| == 16) && 0 < n <= |sub| && n % GroupBytes(sub) == 0
      modifies this`nodes4, this`nodes6, nodes4.Values, nodes6.Values
      ensures Shape() && fresh(nodes4.Values + nodes6.Values - old(nodes4.Values + nodes6.Values))
      ensures forall p :: Covered(nodes4, p) <==>
                old(Covered(nodes4, p)) || (|sub| == 4 && GroupValues(sub)[..n / GroupBytes(sub)] <= p)
      ensures forall p :: Covered(nodes6, p) <==>
                old(Covered(nodes6, p)) || (|sub| == 16 && GroupValues(sub)[..n / GroupBytes(sub)] <= p)
    {
      var groups := GroupValues(sub)[..n / GroupBytes(sub)];
      if IsV4(sub) {
        nodes4 := AddGroups(ipv4Trie, groups, nodes4, 0xFF);
      } else {
        nodes6 := AddGroups(ipv6Trie, groups, nodes6, 0xFFFF);
      }
    }

    /** Both tries answer for `added` and the first `i` sub-networks of `c`. */
    ghost predicate Between(c: Cidr, i: nat)
      requires Sized(c) && i <= |Subs(c)|
      reads this, nodes4.Values, nodes6.Values
    {
      && Shape()
      && (forall ip: Bytes :: |ip| == 4 ==>
            (Covered(nodes4, GroupValues(ip)) <==> CoveredBy(added, ip) || SubsCover(c, i, ip)))
      && (forall ip: Bytes :: |ip| == 16 ==>
            (Covered(nodes6, GroupValues(ip)) <==> CoveredBy(added, ip) || SubsCover(c, i, ip)))
    }

    method AddSubOf(c: Cidr, sub: Bytes, n: nat, ghost i: nat)
      requires Sized(c) && i < |Subs(c)| && sub == Subs(c)[i] && n == SubBytes(c) && Between(c, i)
      modifies this`nodes4, this`nodes6, nodes4.Values, nodes6.Values
      ensures Between(c, i + 1)
      ensures fresh(nodes4.Values + nodes6.Values - old(nodes4.Values + nodes6.Values))
    {
      hide IsTrie, Covered, CoveredBy, SubsCover, SubBytes, Sized;
      SubLength(c, i);
      forall ip: Bytes | |ip| == 4 || |ip| == 16
        ensures SubsCover(c, i + 1, ip) <==>
                SubsCover(c, i, ip) || (|ip| == |sub| && GroupValues(sub)[..n / GroupBytes(sub)] <= GroupValues(ip))
      {
        OneMoreSub(c, i, ip);
      }
      AddSub(sub, n);
    }

    /** Adds a network: all its sub-networks of whole groups. */
    method AddIpCidr(c: Cidr)
      requires Valid() && Sized(c)
      modifies this, nodes4.Values, nodes6.Values
      ensures Valid() && added == old(added) + [c]
      ensures fresh(nodes4.Values + nodes6.Values - old(nodes4.Values + nodes6.Values))
    {
      hide IsTrie, Covered, CoveredBy, SubsCover, SubBytes, GroupValues, Subs, Sized, Between;
      var list, mask := SubIpCidr(c);
      var n := if mask == 0 then GroupBytes(c.ip) else mask / 8;
      assert n == SubBytes(c) by { SubBytesIs(c); }
      StartBetween(c);
      var i := 0;
      while i < |list|
        invariant 0 <= i <= |list| && added == old(added) && Between(c, i)
        invariant fresh(nodes4.Values + nodes6.Values - old(nodes4.Values + nodes6.Values))
      {
        AddSubOf(c, list[i], n, i);
        i := i + 1;
      }
      Record(c);
    }

    lemma StartBetween(c: Cidr)
      requires Valid() && Sized(c)
      ensures Between(c, 0)
    {
      hide IsTrie, Covered, CoveredBy, SubsCover, SubBytes, GroupValues, Subs, Sized;
      forall ip: Bytes ensures !SubsCover(c, 0, ip) { NoSubs(c, ip); }
    }

    ghost method Record(c: Cidr)
      requires Sized(c) && Between(c, |Subs(c)|) && forall d :: d in added ==> Sized(d)
      modifies `added
      ensures Valid() && added == old(added) + [c]
    {
      hide IsTrie, Covered, CoveredBy, SubsCover, GroupValues, Subs, Sized;
      forall ip: Bytes ensures CoveredBy(added + [c], ip) <==> CoveredBy(added, ip) || SubsCover(c, |Subs(c)|, ip) {
        AllSubs(added, c, ip);
      }
      added := added + [c];
    }

    /** The answer for an address is whether an added network covers it; for no address, no. */
    method IsContain(ip: Bytes) returns (r: bool)
      requires Valid() && (|ip| == 0 || |ip| == 4 || |ip| == 16)
      ensures r <==> CoveredBy(added, ip)
    {
      if |ip| == 0 {
        return false;
      }
      var node: IpCidrNode?;
      if IsV4(ip) {
        node := Search(ipv4Trie, GroupValues(ip), nodes4, 0xFF);
      } else {
        node := Search(ipv6Trie, GroupValues(ip), nodes6, 0xFFFF);
      }
      return node != null;
    }
  }

  ghost predicate CoveredBy(cs: seq<Cidr>, ip: Bytes)
  {
    exists c :: c in cs && Sized(c) && Covers(c, ip)
  }

  /** One of the first `n` sub-networks agrees with the address. */
  ghost predicate SubsCover(c: Cidr, n: nat, ip: Bytes)
    requires Sized(c) && n <= |Subs(c)|
  {
    |ip| == |c.ip| && exists i :: 0 <= i < n && Subs(c)[i][..SubBytes(c)] == ip[..SubBytes(c)]
  }

  lemma SubBytesIs(c: Cidr)
    requires Sized(c)
    ensures SubBytes(c) == if SubMask(c) == 0 then GroupBytes(c.ip) else SubMask(c) / 8
  {
  }

  lemma SubLength(c: Cidr, i: nat)
    requires Sized(c) && i < |Subs(c)|
    ensures |Subs(c)[i]| == |c.ip| && (|c.ip| == 4 || |c.ip| == 16)
    ensures 0 < SubBytes(c) <= |c.ip| && SubBytes(c) % GroupBytes(Subs(c)[i]) == 0
  {
  }

  lemma NoSubs(c: Cidr, ip: Bytes)
    requires Sized(c)
    ensures !SubsCover(c, 0, ip)
  {
  }

  lemma OneMoreSub(c: Cidr, i: nat, ip: Bytes)
    requires Sized(c) && i < |Subs(c)| && (|ip| == 4 || |ip| == 16)
    requires |Subs(c)[i]| == |c.ip| && SubBytes(c) % GroupBytes(Subs(c)[i]) == 0
    ensures SubsCover(c, i + 1, ip) <==>
            SubsCover(c, i, ip) ||
            (|ip| == |c.ip| && GroupValues(Subs(c)[i])[..SubBytes(c) / GroupBytes(Subs(c)[i])] <= GroupValues(ip))
  {
    hide GroupValues, Subs, SubBytes;
    if |ip| == |c.ip| {
      GroupsAgree(Subs(c)[i], ip, SubBytes(c));
    }
  }

  lemma AllSubs(cs: seq<Cidr>, c: Cidr, ip: Bytes)
    requires Sized(c)
    ensures CoveredBy(cs + [c], ip) <==> CoveredBy(cs, ip) || SubsCover(c, |Subs(c)|, ip)
  {
    hide Subs, SubBytes;
    assert c in cs + [c];
  }

  /** With lengths the expansion completes, the trie answers membership in the added networks. */
  lemma AnswersMembership(cs: seq<Cidr>, ip: Bytes)
    requires forall c :: c in cs ==> Sized(c) && GoodLength(c) && Aligned(c)
    ensures CoveredBy(cs, ip) <==> exists c :: c in cs && Sized(c) && Contains(c, ip)
  {
    forall c | c in cs && |ip| == |c.ip| ensures Covers(c, ip) <==> Contains(c, ip) {
      CoversExactly(c, ip);
      NearIsContains(c, ip);
    }
  }

  /** Adds networks to an empty trie and asks for an address. */
  method FillAndAsk(cs: seq<Cidr>, ip: Bytes) returns (r: bool)
    requires forall c :: c in cs ==> Sized(c)
    requires |ip| == 0 || |ip| == 4 || |ip| == 16
    ensures r <==> CoveredBy(cs, ip)
    ensures (forall c :: c in cs ==> Sized(c) && GoodLength(c) && Aligned(c)) ==>
            (r <==> exists c :: c in cs && Sized(c) && Contains(c, ip))
  {
    hide IpCidrTrie.Valid, CoveredBy, Sized, GoodLength, Aligned, Contains;
    var t := new IpCidrTrie();
    for n := 0 to |cs|
      invariant t.Valid() && fresh(t) && fresh(t.nodes4.Values) && fresh(t.nodes6.Values)
      invariant t.added == cs[..n]
    {
      t.AddIpCidr(cs[n]);
      assert cs[..n] + [cs[n]] == cs[..n + 1];
    }
    assert cs[..|cs|] == cs;
    r := t.IsContain(ip);
    if forall c :: c in cs ==> Sized(c) && GoodLength(c) && Aligned(c) {
      AnswersMembership(cs, ip);
    }
  }
}
