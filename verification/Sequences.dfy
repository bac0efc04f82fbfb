/** Facts about sequences that several models share. */
module Sequences {
  function ReverseSeq<A>(s: seq<A>): (r: seq<A>)
    ensures |r| == |s|
    ensures forall i :: 0 <= i < |s| ==> r[i] == s[|s| - 1 - i]
  {
    seq(|s|, i requires 0 <= i < |s| => s[|s| - 1 - i])
  }

  lemma ReverseConcat<A>(a: seq<A>, b: seq<A>)
    ensures ReverseSeq(a + b) == ReverseSeq(b) + ReverseSeq(a)
  {
  }

  lemma ReverseCons<A>(x: A, s: seq<A>)
    ensures ReverseSeq([x] + s) == ReverseSeq(s) + [x]
  {
  }

  lemma ReverseTwice<A>(s: seq<A>)
    ensures ReverseSeq(ReverseSeq(s)) == s
  {
  }

  lemma ReverseInjective<A>(a: seq<A>, b: seq<A>)
    requires ReverseSeq(a) == ReverseSeq(b)
    ensures a == b
  {
    ReverseTwice(a);
    ReverseTwice(b);
  }

  lemma SnocInjective<A>(p: seq<A>, s: A, q: seq<A>, t: A)
    ensures p + [s] == q + [t] ==> p == q && s == t
  {
    assert (p + [s])[..|p|] == p && (q + [t])[..|q|] == q;
    assert (p + [s])[|p|] == s && (q + [t])[|q|] == t;
  }

  lemma Associate<A>(x: seq<A>, y: seq<A>, z: seq<A>)
    ensures (x + y) + z == x + (y + z)
  {
  }

  lemma SubsetSize<A>(x: set<A>, y: set<A>)
    requires x <= y
    ensures |x| <= |y|
  {
    assert y == x + (y - x);
  }

  function Image<A, B>(s: set<A>, f: A -> B): (t: set<B>)
    ensures forall x :: x in s ==> f(x) in t
    ensures forall y :: y in t ==> exists x :: x in s && f(x) == y
  {
    set x | x in s :: f(x)
  }

  /** Different elements have different images: the image is as large. */
  lemma {:induction false} ImageSize<A, B>(s: set<A>, f: A -> B)
    requires forall x, y :: x in s && y in s && f(x) == f(y) ==> x == y
    ensures |Image(s, f)| == |s|
    decreases |s|
  {
    if s != {} {
      var x :| x in s;
      var rest := s - {x};
      ImageSize(rest, f);
      assert Image(s, f) == Image(rest, f) + {f(x)};
    }
  }

  /** The paths of a tree: every path comes with its prefixes. */
  ghost predicate PrefixClosed<A>(paths: set<seq<A>>) {
    forall p {:trigger p in paths} :: p in paths ==> forall k :: 0 <= k <= |p| ==> p[..k] in paths
  }

  // ---- repetitions ----

  ghost predicate Repeats<A>(s: seq<A>) {
    exists i, j :: 0 <= i < j < |s| && s[i] == s[j]
  }

  lemma TwiceInside<A>(s: seq<A>, i: nat, j: nat)
    requires i < j < |s| && s[i] == s[j]
    ensures multiset(s)[s[i]] >= 2
  {
    assert s == s[..j] + ([s[j]] + s[j + 1..]);
    assert s[..j] == s[..i] + ([s[i]] + s[..j][i + 1..]);
    assert multiset(s) == multiset(s[..j]) + multiset([s[j]] + s[j + 1..]);
    assert multiset(s[..j]) == multiset(s[..i]) + multiset([s[i]] + s[..j][i + 1..]);
  }

  lemma OnceInside<A>(s: seq<A>, a: nat)
    requires a < |s| && !Repeats(s)
    ensures multiset(s)[s[a]] == 1
  {
    assert s == s[..a] + ([s[a]] + s[a + 1..]);
    assert multiset(s) == multiset(s[..a]) + multiset([s[a]] + s[a + 1..]);
    assert s[a] !in s[..a] && s[a] !in s[a + 1..];
    assert multiset(s[..a])[s[a]] == 0 && multiset(s[a + 1..])[s[a]] == 0;
    assert multiset([s[a]] + s[a + 1..]) == multiset{s[a]} + multiset(s[a + 1..]);
  }

  /** Rearranging keeps repetitions out. */
  lemma RepeatsOfPermutation<A>(s: seq<A>, t: seq<A>)
    requires multiset(s) == multiset(t) && Repeats(t)
    ensures Repeats(s)
  {
    var i, j :| 0 <= i < j < |t| && t[i] == t[j];
    TwiceInside(t, i, j);
    assert t[i] in multiset(s);
    var a :| 0 <= a < |s| && s[a] == t[i];
    if !Repeats(s) { OnceInside(s, a); }
  }
}
