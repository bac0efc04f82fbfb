/** Strings in ascending byte order, and the prefix groups they fall into. */
module SortedKeys {
  import opened Sequences

  predicate StrLess(a: string, b: string) {
    if |b| == 0 then false
    else if |a| == 0 then true
    else a[0] < b[0] || (a[0] == b[0] && StrLess(a[1..], b[1..]))
  }

  /** Strictly ascending, hence free of repetitions. */
  predicate Ascending(keys: seq<string>) {
    forall i, j :: 0 <= i < j < |keys| ==> StrLess(keys[i], keys[j])
  }

  /** Ascending, repetitions allowed. */
  predicate Sorted(keys: seq<string>) {
    forall i, j :: 0 <= i < j < |keys| ==> !StrLess(keys[j], keys[i])
  }

  lemma {:induction false} StrLessAsymmetric(a: string, b: string)
    ensures StrLess(a, b) ==> !StrLess(b, a) && a != b
  {
    if |a| > 0 && |b| > 0 { StrLessAsymmetric(a[1..], b[1..]); }
  }

  lemma AscendingExactly(keys: seq<string>)
    ensures Ascending(keys) <==> Sorted(keys) && !Repeats(keys)
  {
    forall i, j | 0 <= i < j < |keys|
      ensures StrLess(keys[i], keys[j]) <==> !StrLess(keys[j], keys[i]) && keys[i] != keys[j]
    {
      StrLessAsymmetric(keys[i], keys[j]);
      StrLessTotal(keys[i], keys[j]);
    }
  }

  lemma {:induction false} StrLessTotal(a: string, b: string)
    ensures a == b || StrLess(a, b) || StrLess(b, a)
  {
    if |a| > 0 && |b| > 0 && a[0] == b[0] {
      StrLessTotal(a[1..], b[1..]);
      assert a == [a[0]] + a[1..] && b == [b[0]] + b[1..];
    }
  }

  lemma {:induction false} StrLessTransitive(a: string, b: string, c: string)
    requires StrLess(a, b) && StrLess(b, c)
    ensures StrLess(a, c)
  {
    if |a| > 0 && a[0] == b[0] == c[0] { StrLessTransitive(a[1..], b[1..], c[1..]); }
  }

  /** Two keys with a common prefix are compared behind it. */
  lemma {:induction false} BehindPrefix(p: string, a: string, b: string)
    requires p <= a && p <= b && StrLess(a, b)
    ensures |b| > |p|
    ensures |a| > |p| ==> a[|p|] <= b[|p|]
  {
    if |p| > 0 { BehindPrefix(p[1..], a[1..], b[1..]); }
  }

  /** sort.Strings: insertion keeps the order. */
  method SortStrings(s: seq<string>) returns (r: seq<string>)
    ensures Sorted(r) && multiset(r) == multiset(s)
  {
    r := [];
    for n := 0 to |s|
      invariant Sorted(r) && multiset(r) == multiset(s[..n])
    {
      r := InsertSorted(r, s[n]);
      assert s[..n + 1] == s[..n] + [s[n]];
    }
    assert s[..|s|] == s;
  }

  function InsertSorted(r: seq<string>, x: string): (t: seq<string>)
    requires Sorted(r)
    ensures Sorted(t) && multiset(t) == multiset(r) + multiset{x}
  {
    if |r| == 0 then [x]
    else
      assert r == [r[0]] + r[1..];
      if StrLess(r[0], x) then
        var rest := InsertSorted(r[1..], x);
        InsertBehind(r, x, rest);
        [r[0]] + rest
      else
        InsertFront(r, x);
        [x] + r
  }

  lemma InsertFront(r: seq<string>, x: string)
    requires Sorted(r) && |r| > 0 && !StrLess(r[0], x)
    ensures Sorted([x] + r)
  {
    var t := [x] + r;
    forall j | 0 < j < |t| ensures !StrLess(t[j], x) {
      StrLessTotal(r[0], t[j]);
      if StrLess(t[j], x) && r[0] != t[j] { StrLessTransitive(r[0], t[j], x); }
    }
  }

  lemma InsertBehind(r: seq<string>, x: string, rest: seq<string>)
    requires Sorted(r) && |r| > 0 && StrLess(r[0], x)
    requires Sorted(rest) && multiset(rest) == multiset(r[1..]) + multiset{x}
    ensures Sorted([r[0]] + rest)
  {
    forall j | 0 <= j < |rest| ensures !StrLess(rest[j], r[0]) {
      assert rest[j] in multiset(r[1..]) + multiset{x};
      StrLessAsymmetric(r[0], x);
      if rest[j] != x {
        var k :| 0 <= k < |r[1..]| && r[1..][k] == rest[j];
        assert r[k + 1] == rest[j];
      }
    }
  }

  /** Some key starts with `p`. */
  ghost predicate HasPrefix(keys: seq<string>, p: string) {
    exists j :: 0 <= j < |keys| && p <= keys[j]
  }

  /** `p` is a key at most once. */
  ghost predicate AtMostOnce(keys: seq<string>, p: string) {
    forall i, j :: 0 <= i < j < |keys| ==> !(keys[i] == p == keys[j])
  }

  /** The keys that start with `p` are exactly those at positions `s` to `e`. */
  ghost predicate Group(keys: seq<string>, s: nat, e: nat, p: string) {
    && s < e <= |keys|
    && forall j :: 0 <= j < |keys| ==> (p <= keys[j] <==> s <= j < e)
  }

  /** Within a group the keys equal to the prefix come first; the bytes behind the prefix ascend. */
  lemma GroupOrder(keys: seq<string>, s: nat, e: nat, p: string)
    requires Sorted(keys) && Group(keys, s, e, p)
    ensures |keys[s]| >= |p|
    ensures forall i, j :: s <= i < j < e && |keys[i]| > |p| ==> |keys[j]| > |p| && keys[i][|p|] <= keys[j][|p|]
    ensures p in keys <==> keys[s] == p
  {
    forall i, j | s <= i < j < e
      ensures keys[i] == keys[j] || |keys[j]| > |p|
      ensures |keys[i]| > |p| ==> |keys[j]| > |p| && keys[i][|p|] <= keys[j][|p|]
    {
      StrLessTotal(keys[i], keys[j]);
      if keys[i] != keys[j] { BehindPrefix(p, keys[i], keys[j]); }
    }
  }

  /** A maximal run of equal bytes behind the prefix is the group of the longer prefix. */
  lemma SubGroup(keys: seq<string>, s: nat, e: nat, p: string, frm: nat, to: nat)
    requires Sorted(keys) && Group(keys, s, e, p)
    requires s <= frm < to <= e
    requires forall j :: frm <= j < e ==> |keys[j]| > |p|
    requires forall j :: frm <= j < to ==> keys[j][|p|] == keys[frm][|p|]
    requires to < e ==> keys[to][|p|] != keys[frm][|p|]
    requires forall j :: s <= j < frm && |keys[j]| > |p| ==> keys[j][|p|] != keys[frm][|p|]
    ensures Group(keys, frm, to, p + [keys[frm][|p|]])
  {
    var c := keys[frm][|p|];
    GroupOrder(keys, s, e, p);
    assert forall j :: to <= j < e ==> c < keys[to][|p|] <= keys[j][|p|];
    forall j | 0 <= j < |keys|
      ensures p + [c] <= keys[j] <==> frm <= j < to
    {
      if p + [c] <= keys[j] {
        assert keys[j][|p|] == c;
        assert p <= keys[j];
      }
    }
  }
}
