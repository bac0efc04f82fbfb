/** Strings as the matcher uses them: one char per byte, ASCII case folding, dot-separated
    labels. A "path" lists the labels of a domain from the rightmost to the leftmost, which
    is the order in which the trie stores them. */
module Text {
  import opened Sequences

  function LowerChar(c: char): char {
    if 'A' <= c <= 'Z' then ((c as int) + 32) as char else c
  }

  function ToLower(s: string): (r: string)
    ensures |r| == |s|
    ensures forall i :: 0 <= i < |s| ==> r[i] == LowerChar(s[i])
  {
    seq(|s|, i requires 0 <= i < |s| => LowerChar(s[i]))
  }

  /** A capital and its small letter. */
  predicate Capital(c: char, d: char) {
    0x41 <= c as int <= 0x5A && d as int == c as int + 0x20
  }

  predicate CasePair(c: char, d: char) {
    c == d || Capital(c, d) || Capital(d, c)
  }

  predicate SameButCase(s: string, t: string) {
    |s| == |t| && forall i :: 0 <= i < |s| ==> CasePair(s[i], t[i])
  }

  predicate NoCapitals(s: string) {
    forall i :: 0 <= i < |s| ==> !(0x41 <= s[i] as int <= 0x5A)
  }

  lemma LowerPair(c: char, d: char)
    ensures LowerChar(c) == LowerChar(d) <==> CasePair(c, d)
    ensures CasePair(c, LowerChar(c)) && NoCapitals([LowerChar(c)])
  {
  }

  /** Lower-casing takes away the case of letters and nothing else. */
  lemma LowerExactly(s: string, t: string)
    ensures ToLower(s) == ToLower(t) <==> SameButCase(s, t)
    ensures SameButCase(s, ToLower(s)) && NoCapitals(ToLower(s))
  {
    hide LowerChar, CasePair;
    forall i | 0 <= i < |s| ensures CasePair(s[i], ToLower(s)[i]) && NoCapitals([ToLower(s)[i]]) {
      LowerPair(s[i], s[i]);
    }
    assert forall i :: 0 <= i < |s| ==> ToLower(s)[i] == [ToLower(s)[i]][0];
    forall i | 0 <= i < |s| && i < |t| ensures ToLower(s)[i] == ToLower(t)[i] <==> CasePair(s[i], t[i]) {
      LowerPair(s[i], t[i]);
    }
  }

  lemma SameButCaseTurns(s: string, t: string)
    ensures SameButCase(s, t) <==> SameButCase(t, s)
  {
  }

  lemma LowerOfReverse(s: string)
    ensures ToLower(ReverseSeq(s)) == ReverseSeq(ToLower(s))
  {
  }

  predicate DotFree(s: string) {
    '.' !in s
  }

  predicate DotFreeLabels(labels: seq<string>) {
    forall i :: 0 <= i < |labels| ==> DotFree(labels[i])
  }

  /** Splitting at every dot; always at least one label. */
  function Split(s: string): (labels: seq<string>)
    ensures |labels| > 0
    ensures DotFreeLabels(labels)
    ensures Join(labels) == s
  {
    if s == "" then [""]
    else
      var rest := Split(s[1..]);
      if s[0] == '.' then [""] + rest else [[s[0]] + rest[0]] + rest[1..]
  }

  predicate IsLower(s: string) {
    forall i :: 0 <= i < |s| ==> LowerChar(s[i]) == s[i]
  }

  predicate LowerLabels(labels: seq<string>) {
    forall i :: 0 <= i < |labels| ==> IsLower(labels[i])
  }

  lemma LowerIsLower(s: string)
    ensures IsLower(ToLower(s))
    ensures IsLower(s) ==> ToLower(s) == s
  {
  }

  lemma {:induction false} SplitLower(s: string)
    requires IsLower(s)
    ensures LowerLabels(Split(s))
  {
    if s != "" {
      assert IsLower(s[1..]);
      SplitLower(s[1..]);
    }
  }

  function Join(labels: seq<string>): string {
    if |labels| == 0 then ""
    else if |labels| == 1 then labels[0]
    else labels[0] + "." + Join(labels[1..])
  }

  /** The characters of the domain read backwards, computed from its path. */
  function BackKey(path: seq<string>): string {
    if |path| == 0 then ""
    else if |path| == 1 then ReverseSeq(path[0])
    else BackKey(path[..|path| - 1]) + "." + ReverseSeq(path[|path| - 1])
  }

  lemma {:induction false} BackKeyIsReversedJoin(path: seq<string>)
    ensures ReverseSeq(Join(ReverseSeq(path))) == BackKey(path)
  {
    if |path| > 1 {
      var init, last := path[..|path| - 1], path[|path| - 1];
      assert path == init + [last];
      ReverseConcat(init, [last]);
      var labels := ReverseSeq(path);
      assert labels[0] == last && labels[1..] == ReverseSeq(init);
      BackKeyIsReversedJoin(init);
      var tail := Join(ReverseSeq(init));
      ReverseConcat(last + ".", tail);
      ReverseConcat(last, ".");
      assert ReverseSeq(Join(labels)) == ReverseSeq(tail) + (ReverseSeq(".") + ReverseSeq(last));
      assert ReverseSeq(tail) + (ReverseSeq(".") + ReverseSeq(last)) == ReverseSeq(tail) + "." + ReverseSeq(last);
    } else if |path| == 1 {
      assert ReverseSeq(path) == path;
    }
  }

  /** Reversing the whole text commutes with splitting it. */
  lemma ReversedDomain(s: string)
    ensures ReverseSeq(s) == BackKey(ReverseSeq(Split(s)))
  {
    var labels := Split(s);
    BackKeyIsReversedJoin(ReverseSeq(labels));
    ReverseTwice(labels);
  }

  lemma ReverseDotFree(s: string)
    requires DotFree(s)
    ensures DotFree(ReverseSeq(s))
  {
  }

  /** Two texts with their last dots exposed are equal only part by part. */
  lemma LastDot(a: string, x: string, b: string, y: string)
    requires DotFree(x) && DotFree(y)
    requires a + "." + x == b + "." + y
    ensures a == b && x == y
  {
    var s := a + "." + x;
    assert s[|a|] == '.' && s[|b|] == '.';
    assert forall k :: |a| < k < |s| ==> s[k] == x[k - |a| - 1];
    assert forall k :: |b| < k < |s| ==> s[k] == y[k - |b| - 1];
    assert a == s[..|a|] && b == s[..|b|];
    assert x == s[|a| + 1..] && y == s[|b| + 1..];
  }

  /** More than one label means at least one dot. */
  lemma BackKeyDotFree(p: seq<string>)
    requires DotFreeLabels(p) && |p| > 0
    ensures DotFree(BackKey(p)) <==> |p| == 1
  {
    ReverseDotFree(p[|p| - 1]);
    if |p| > 1 {
      assert BackKey(p)[|BackKey(p[..|p| - 1])|] == '.';
    }
  }

  lemma {:induction false} BackKeyInjective(p: seq<string>, q: seq<string>)
    requires DotFreeLabels(p) && DotFreeLabels(q)
    requires |p| > 0 && |q| > 0
    requires BackKey(p) == BackKey(q)
    ensures p == q
  {
    BackKeyDotFree(p);
    BackKeyDotFree(q);
    var pl, ql := p[|p| - 1], q[|q| - 1];
    var pi, qi := p[..|p| - 1], q[..|q| - 1];
    assert p == pi + [pl] && q == qi + [ql];
    if |p| > 1 {
      ReverseDotFree(pl);
      ReverseDotFree(ql);
      LastDot(BackKey(pi), ReverseSeq(pl), BackKey(qi), ReverseSeq(ql));
      BackKeyInjective(pi, qi);
    }
    ReverseInjective(pl, ql);
  }

  /** Reading the reversed text up to a dot is reading whole labels. */
  lemma {:induction false} BackKeyPrefix(q: seq<string>, path: seq<string>)
    requires DotFreeLabels(q) && DotFreeLabels(path)
    requires |q| > 0 && |path| > 0
    ensures BackKey(q) + "." <= BackKey(path) <==> q < path
  {
    var n := |path| - 1;
    var init, tail := path[..n], ReverseSeq(path[n]);
    ReverseDotFree(path[n]);
    var x := BackKey(q) + ".";
    assert x <= BackKey(path) ==> BackKey(path)[|x| - 1] == '.';
    if n > 0 {
      var y := BackKey(init) + ".";
      BackKeyPrefix(q, init);
      assert BackKey(path) == y + tail;
      assert forall k :: |y| <= k < |BackKey(path)| ==> BackKey(path)[k] == tail[k - |y|];
      if x <= BackKey(path) {
        if |x| == |y| {
          assert x == y;
          assert BackKey(q) == x[..|x| - 1] && BackKey(init) == y[..|y| - 1];
          BackKeyInjective(q, init);
        } else {
          assert x <= BackKey(init);
        }
      }
      if q < path {
        if |q| == n {
          assert q == init;
        } else {
          assert q < init;
        }
      }
    }
  }
}
