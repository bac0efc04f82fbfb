/** The succinct set answers like the trie it was built from, and exactly when. */
module DomainAgreement {
  import opened Sequences
  import opened Text
  import opened Wrappers
  import opened DomainPatterns
  import opened SortedKeys
  import opened DomainSet
  import opened DomainSetBuild
  import DomainTrie

  /** The key of a stored path: its full name read backwards. */
  function KeyOf(p: Path): string {
    ReverseSeq(DomainName(p))
  }

  /** A wildcard path keyed as if "+" were its leftmost label. */
  function Spelled(p: Path): Path {
    if |p| >= 2 && p[|p| - 1] == "" then p[..|p| - 1] + ["+"] else p
  }

  lemma KeyIsSpelled(p: Path)
    requires WellFormed(p) && |p| > 0
    ensures KeyOf(p) == BackKey(Spelled(p))
    ensures DotFreeLabels(Spelled(p))
  {
    var n := |p| - 1;
    var labels := ReverseSeq(p);
    BackKeyIsReversedJoin(p);
    if n > 0 {
      assert labels[0] == p[n];
      assert Join(labels)[0] == '.' <==> p[n] == "";
      if p[n] == "" { SpelledKey(p, n); }
    }
  }

  lemma SpelledKey(p: Path, n: nat)
    requires n > 0 && |p| == n + 1 && p[n] == "" && DotFreeLabels(p)
    ensures ReverseSeq("+" + Join(ReverseSeq(p))) == BackKey(Spelled(p))
    ensures DotFreeLabels(Spelled(p))
  {
    hide Join;
    BackKeyIsReversedJoin(p);
    ReverseConcat("+", Join(ReverseSeq(p)));
    assert ReverseSeq("+") == "+" && ReverseSeq("") == "";
    assert Spelled(p)[..n] == p[..n] && Spelled(p)[n] == "+";
    assert BackKey(p) == BackKey(p[..n]) + "." + "";
  }

  /** `keys` are the keys of all stored paths but the root's. */
  ghost predicate KeysFor(patterns: set<Path>, keys: seq<string>) {
    && Ascending(keys)
    && (forall p :: p in patterns && |p| > 0 ==> KeyOf(p) in keys)
    && (forall k :: k in keys ==> exists p :: p in patterns && |p| > 0 && KeyOf(p) == k)
  }

  /** No pattern is `x` + "+" beside the wildcard `x` + "": those two would have one key. */
  ghost predicate NoCollision(patterns: set<Path>) {
    forall p :: p in patterns && |p| >= 2 && p[|p| - 1] == "" ==> Spelled(p) !in patterns
  }

  /** Two patterns have one key exactly if they are equal or collide. */
  lemma KeysDistinct(p: Path, q: Path)
    requires WellFormed(p) && WellFormed(q) && |p| > 0 && |q| > 0
    ensures KeyOf(p) == KeyOf(q) <==> p == q || p == Spelled(q) || Spelled(p) == q
  {
    KeyIsSpelled(p);
    KeyIsSpelled(q);
    if KeyOf(p) == KeyOf(q) {
      BackKeyInjective(Spelled(p), Spelled(q));
      SpelledInjective(p, q);
    }
  }

  lemma StoredApart(patterns: set<Path>, p: Path, q: Path)
    requires NoCollision(patterns) && p in patterns && q in patterns
    requires WellFormed(p) && WellFormed(q) && |p| > 0 && |q| > 0
    ensures KeyOf(p) == KeyOf(q) ==> p == q
  {
    hide KeyOf;
    KeysDistinct(p, q);
  }

  lemma SpelledInjective(p: Path, q: Path)
    requires |p| > 0 && |q| > 0 && Spelled(p) == Spelled(q)
    ensures p == q || p == Spelled(q) || Spelled(p) == q
  {
    var n := |p| - 1;
    assert |q| == n + 1;
    assert p == p[..n] + [p[n]] && q == q[..n] + [q[n]];
    assert Spelled(p)[..n] == p[..n] && Spelled(q)[..n] == q[..n];
  }

  /** `ds` is what building from these patterns gives, and `keys` are its keys. */
  ghost predicate BuiltFor(ds: Option<DomainSet>, patterns: set<Path>, keys: seq<string>) {
    KeysFor(patterns, keys) && (ds.None? <==> keys == []) && (ds.Some? ==> Represents(ds.value, keys))
  }

  /** The reversed listing, sorted, holds the keys. */
  lemma ListedKeys(patterns: set<Path>, order: seq<Path>, reserve: seq<string>, keys: seq<string>)
    requires |reserve| == |order| && forall i :: 0 <= i < |order| ==> reserve[i] == KeyOf(order[i])
    requires forall p :: p in order <==> p in patterns - {[]}
    requires Ascending(keys) && forall k :: k in keys <==> k in reserve
    ensures KeysFor(patterns, keys)
  {
    hide KeyOf, Ascending;
    forall p | p in patterns && |p| > 0 ensures KeyOf(p) in keys {
      assert p in order;
      var i :| 0 <= i < |order| && order[i] == p;
      assert reserve[i] == KeyOf(p);
    }
    forall k | k in keys ensures exists p :: p in patterns && |p| > 0 && KeyOf(p) == k {
      var i :| 0 <= i < |reserve| && reserve[i] == k;
      assert order[i] in order && KeyOf(order[i]) == k;
    }
  }

  /** The reversed listing has a repetition exactly if two patterns collide. */
  lemma RepeatsOfListing(patterns: set<Path>, order: seq<Path>, reserve: seq<string>)
    requires forall p :: p in patterns ==> WellFormed(p)
    requires |reserve| == |order| && forall i :: 0 <= i < |order| ==> reserve[i] == KeyOf(order[i])
    requires forall p :: p in order <==> p in patterns - {[]}
    requires !Repeats(order)
    ensures Repeats(reserve) <==> !NoCollision(patterns)
  {
    hide KeyOf, WellFormed;
    if Repeats(reserve) {
      var i, j :| 0 <= i < j < |reserve| && reserve[i] == reserve[j];
      assert order[i] in order && order[j] in order;
      if NoCollision(patterns) { StoredApart(patterns, order[i], order[j]); }
    }
    if !NoCollision(patterns) {
      var p :| p in patterns && |p| >= 2 && p[|p| - 1] == "" && Spelled(p) in patterns;
      assert p in order && Spelled(p) in order;
      var i :| 0 <= i < |order| && order[i] == p;
      var j :| 0 <= j < |order| && order[j] == Spelled(p);
      KeysDistinct(p, Spelled(p));
      assert Spelled(p)[|p| - 1] == "+";
      assert reserve[if i < j then i else j] == reserve[if i < j then j else i];
    }
  }

  lemma RepeatsAlike<A>(s: seq<A>, t: seq<A>)
    requires multiset(s) == multiset(t)
    ensures Repeats(s) <==> Repeats(t)
    ensures forall k :: k in s <==> k in t
  {
    if Repeats(t) { RepeatsOfPermutation(s, t); }
    if Repeats(s) { RepeatsOfPermutation(t, s); }
    assert forall k :: k in s <==> k in multiset(s);
    assert forall k :: k in t <==> k in multiset(t);
  }

  /** Lists the trie, reverses and sorts the names, and builds the succinct set. It reads out of range
      exactly when two patterns have one key. */
  method NewDomainSet<T(0)>(t: DomainTrie.DomainTrie<T>) returns (r: Outcome, ghost keys: seq<string>)
    requires t.Valid()
    ensures r == OutOfRange <==> !NoCollision(t.Contents().Keys)
    ensures r.Built? ==> BuiltFor(r.value, t.Contents().Keys, keys)
    ensures r.Built? ==> exists ks :: BuiltFor(r.value, t.Contents().Keys, ks)
  {
    hide NoCollision, WellFormed, KeysFor, Represents, Sorted, DomainTrie.ListsAll;
    var listed, order := t.Foreach();
    var reserve: seq<string> := seq(|listed|, i requires 0 <= i < |listed| => ReverseSeq(listed[i].0));
    assert !Repeats(order);
    RepeatsOfListing(t.Contents().Keys, order, reserve);
    var sorted := SortStrings(reserve);
    RepeatsAlike(reserve, sorted);
    r := Build(sorted);
    keys := sorted;
    if r.Built? {
      AscendingExactly(keys);
      ListedKeys(t.Contents().Keys, order, reserve, keys);
    }
  }

  // ---- patterns without '*' and '+' inside labels ----

  predicate PlainLabel(s: string) {
    '*' !in s && '+' !in s
  }

  ghost predicate Plain(patterns: set<Path>) {
    forall p :: p in patterns ==> WellFormed(p) && forall i :: 0 <= i < |p| ==> PlainLabel(p[i])
  }

  /** Without "*" a pattern covers its own domain, or everything below its stem. */
  lemma {:induction false} PlainMatch(p: Path, labels: seq<string>)
    requires WellFormed(p) && Proper(labels) && forall i :: 0 <= i < |p| ==> PlainLabel(p[i])
    ensures Matches(p, labels) <==> p == labels || (|p| > 0 && p[|p| - 1] == "" && p[..|p| - 1] < labels)
  {
    if |p| > 0 && |labels| > 0 && p != [""] {
      assert p == [p[0]] + p[1..] && labels == [labels[0]] + labels[1..];
      if p[0] == labels[0] {
        PlainMatch(p[1..], labels[1..]);
        if |p| > 1 {
          assert p[..|p| - 1] == [p[0]] + p[1..][..|p| - 2];
          assert p[..|p| - 1] < labels <==> p[1..][..|p| - 2] < labels[1..];
        }
      } else {
        assert |p| > 1 ==> p[..|p| - 1][0] == p[0];
      }
    }
  }

  /** In the text of a spelled path a '+' can only be the very last character. */
  lemma {:induction false} PlusAtEnd(path: Path, j: nat)
    requires DotFreeLabels(path) && |path| > 0
    requires forall i :: 0 <= i < |path| - 1 ==> PlainLabel(path[i])
    requires PlainLabel(path[|path| - 1]) || path[|path| - 1] == "+"
    requires j < |BackKey(path)| && BackKey(path)[j] == '+'
    ensures path[|path| - 1] == "+" && j == |BackKey(path)| - 1
  {
    var n := |path| - 1;
    var tail := ReverseSeq(path[n]);
    assert ReverseSeq("+") == "+";
    assert forall i :: 0 <= i < |tail| ==> tail[i] in path[n];
    if n > 0 {
      var init := BackKey(path[..n]);
      assert BackKey(path) == init + "." + tail;
      if j < |init| { PlainKey(path[..n], j); }
    }
  }

  lemma {:induction false} PlainKey(path: Path, j: nat)
    requires forall i :: 0 <= i < |path| ==> PlainLabel(path[i])
    requires j < |BackKey(path)|
    ensures BackKey(path)[j] != '+' && BackKey(path)[j] != '*'
  {
    var n := |path| - 1;
    var tail := ReverseSeq(path[n]);
    assert forall i :: 0 <= i < |tail| ==> tail[i] in path[n];
    if n > 0 {
      var init := BackKey(path[..n]);
      assert BackKey(path) == init + "." + tail;
      if j < |init| { PlainKey(path[..n], j); }
    }
  }

  lemma WildcardKey(q: Path)
    requires |q| > 0 && WellFormed(q + [""])
    ensures Spelled(q + [""]) == q + ["+"] && DotFreeLabels(q)
    ensures KeyOf(q + [""]) == BackKey(q + ["+"]) == BackKey(q) + "." + "+"
  {
    var p := q + [""];
    KeyIsSpelled(p);
    assert p[..|q|] == q;
    assert forall i :: 0 <= i < |q| ==> q[i] == p[i];
    BackKeySnoc(q, "+");
    assert ReverseSeq("+") == "+";
  }

  lemma BackKeySnoc(q: Path, s: string)
    requires |q| > 0
    ensures BackKey(q + [s]) == BackKey(q) + "." + ReverseSeq(s)
  {
    assert (q + [s])[..|q|] == q;
  }

  /** A wildcard marker behind `x` stands for a pattern with the stem `x` spells. */
  lemma MarkerMeansWildcard(patterns: set<Path>, keys: seq<string>, x: string) returns (q: Path)
    requires Plain(patterns) && KeysFor(patterns, keys) && HasPrefix(keys, x + "+")
    ensures |q| > 0 && q + [""] in patterns && x == BackKey(q) + "."
  {
    var n :| 0 <= n < |keys| && x + "+" <= keys[n];
    assert keys[n] in keys;
    var p :| p in patterns && |p| > 0 && KeyOf(p) == keys[n];
    q := StemOfMarked(p, x);
  }

  lemma StemOfMarked(p: Path, x: string) returns (q: Path)
    requires WellFormed(p) && |p| > 0 && forall i :: 0 <= i < |p| ==> PlainLabel(p[i])
    requires x + "+" <= KeyOf(p)
    ensures |q| > 0 && p == q + [""] && x == BackKey(q) + "."
  {
    hide KeyOf, BackKey;
    MarkerPlace(p, |x|);
    q := p[..|p| - 1];
    assert p == q + [""];
    WildcardKey(q);
    assert x == KeyOf(p)[..|x|];
  }

  /** A '+' in a key is the last byte of a wildcard pattern's key. */
  lemma MarkerPlace(p: Path, j: nat)
    requires WellFormed(p) && |p| > 0 && forall i :: 0 <= i < |p| ==> PlainLabel(p[i])
    requires j < |KeyOf(p)| && KeyOf(p)[j] == '+'
    ensures |p| >= 2 && p[|p| - 1] == "" && j == |KeyOf(p)| - 1
  {
    KeyIsSpelled(p);
    PlusAtEnd(Spelled(p), j);
    assert PlainLabel(p[|p| - 1]);
  }

  // ---- the walk against the patterns ----

  /** Some key is the text, or a wildcard marker lies on its way. */
  ghost predicate Accepted(keys: seq<string>, text: string, i: nat) {
    text in keys || exists j :: i <= j < |text| && HasPrefix(keys, text[..j] + "+")
  }

  /** Acceptance is a matching pattern. */
  lemma AcceptedIsMatched(patterns: set<Path>, keys: seq<string>, labels: seq<string>)
    requires Plain(patterns) && [""] !in patterns && KeysFor(patterns, keys)
    requires |labels| > 0 && Proper(labels) && DotFreeLabels(labels)
    ensures Accepted(keys, BackKey(labels), 0) <==> exists p :: p in patterns && Matches(p, labels)
  {
    var text := BackKey(labels);
    if p :| p in patterns && Matches(p, labels) {
      MatchedIsAccepted(keys, labels, p);
    }
    if text in keys {
      var p :| p in patterns && |p| > 0 && KeyOf(p) == text;
      KeyMatches(p, labels);
    }
    if j :| 0 <= j < |text| && HasPrefix(keys, text[..j] + "+") {
      var q := MarkerMeansWildcard(patterns, keys, text[..j]);
      StemMatches(q, labels);
    }
  }

  lemma KeyMatches(p: Path, labels: seq<string>)
    requires WellFormed(p) && |p| > 0 && forall i :: 0 <= i < |p| ==> PlainLabel(p[i])
    requires |labels| > 0 && Proper(labels) && DotFreeLabels(labels)
    requires KeyOf(p) == BackKey(labels)
    ensures Matches(p, labels)
  {
    KeyIsSpelled(p);
    BackKeyInjective(Spelled(p), labels);
    PlainMatch(p, labels);
    assert Spelled(p)[..|p| - 1] == p[..|p| - 1];
  }

  /** A wildcard pattern matches what continues behind its stem and a dot. */
  lemma StemMatches(q: Path, labels: seq<string>)
    requires |q| > 0 && WellFormed(q + [""]) && forall i :: 0 <= i < |q| ==> PlainLabel((q + [""])[i])
    requires |labels| > 0 && Proper(labels) && DotFreeLabels(labels)
    ensures Matches(q + [""], labels) <==> BackKey(q) + "." <= BackKey(labels)
    ensures BackKey(q) + "." != BackKey(labels)
  {
    WildcardKey(q);
    BackKeyPrefix(q, labels);
    PlainMatch(q + [""], labels);
    assert (q + [""])[..|q|] == q;
    BackKeySnoc(q, "");
    assert BackKey(q + [""]) == BackKey(q) + ".";
    if BackKey(q) + "." == BackKey(labels) {
      BackKeyInjective(q + [""], labels);
    }
  }

  lemma MatchedIsAccepted(keys: seq<string>, labels: seq<string>, p: Path)
    requires WellFormed(p) && |p| > 0 && p != [""] && forall i :: 0 <= i < |p| ==> PlainLabel(p[i])
    requires |labels| > 0 && Proper(labels) && DotFreeLabels(labels)
    requires KeyOf(p) in keys && Matches(p, labels)
    ensures Accepted(keys, BackKey(labels), 0)
  {
    if p[|p| - 1] != "" {
      PlainAccepted(p, labels);
    } else {
      var x := WildcardAccepted(p, labels);
      assert BackKey(labels)[..|x|] == x;
      assert HasPrefix(keys, x + "+");
    }
  }

  lemma PlainAccepted(p: Path, labels: seq<string>)
    requires WellFormed(p) && |p| > 0 && forall i :: 0 <= i < |p| ==> PlainLabel(p[i])
    requires Proper(labels) && Matches(p, labels) && p[|p| - 1] != ""
    ensures KeyOf(p) == BackKey(labels)
  {
    PlainMatch(p, labels);
    KeyIsSpelled(p);
  }

  /** A matching wildcard pattern has its marker inside the text. */
  lemma WildcardAccepted(p: Path, labels: seq<string>) returns (x: string)
    requires WellFormed(p) && |p| > 1 && forall i :: 0 <= i < |p| ==> PlainLabel(p[i])
    requires |labels| > 0 && Proper(labels) && DotFreeLabels(labels)
    requires p[|p| - 1] == "" && Matches(p, labels)
    ensures x < BackKey(labels) && KeyOf(p) == x + "+"
  {
    var q := p[..|p| - 1];
    assert p == q + [""];
    x := BackKey(q) + ".";
    StemMatches(q, labels);
    WildcardKey(q);
  }

  /** A node that offers a wildcard marker and, before it, another byte: the walk prefers the
      byte. It is harmful when the walk can get there. */
  ghost predicate ShadowedAt(keys: seq<string>, p: string, b: char) {
    && b < '+'
    && HasPrefix(keys, p + [b]) && HasPrefix(keys, p + "+")
    && forall j :: 0 <= j < |p| ==> !HasPrefix(keys, p[..j] + "+")
  }

  ghost predicate Shadowed(keys: seq<string>) {
    exists p, b :: ShadowedAt(keys, p, b)
  }

  lemma ShorterPrefix(keys: seq<string>, x: string, y: string)
    requires HasPrefix(keys, y) && x <= y
    ensures HasPrefix(keys, x)
  {
  }

  lemma {:induction false} WalkIsAccepted(keys: seq<string>, text: string, i: nat)
    requires i <= |text| && !Shadowed(keys)
    requires forall j :: 0 <= j < i ==> !HasPrefix(keys, text[..j] + "+")
    ensures Walk(keys, text, i) <==> Accepted(keys, text, i)
    decreases |text| - i
  {
    if i < |text| {
      var p := text[..i];
      assert text[..i + 1] == p + [text[i]];
      assert forall j :: 0 <= j < i ==> p[..j] == text[..j];
      if HasPrefix(keys, p + "+") {
        assert !ShadowedAt(keys, p, text[i]);
      } else {
        if HasPrefix(keys, text[..i + 1]) {
          WalkIsAccepted(keys, text, i + 1);
        }
        assert forall j :: i < j < |text| ==> text[..i + 1] <= text[..j] + "+";
        assert text[..i + 1] <= text;
      }
    }
  }

  // ---- the theorem ----

  /** The text the set walks for a query. */
  function TextOf(domain: string): string {
    ToLower(ReverseSeq(domain))
  }

  lemma TextIsKey(domain: string)
    requires ValidQuery(domain)
    ensures var labels := ReverseSeq(ValidAndSplitDomain(domain).value);
            |labels| > 0 && Proper(labels) && DotFreeLabels(labels) && TextOf(domain) == BackKey(labels)
  {
    LowerOfReverse(domain);
    ReversedDomain(ToLower(domain));
  }

  /** The set and the patterns agree on every valid query. */
  ghost predicate Agree(patterns: set<Path>, keys: seq<string>) {
    forall d :: ValidQuery(d) ==> (Walk(keys, TextOf(d), 0) <==> exists p :: p in patterns && Covers(p, d))
  }

  lemma AgreeOn(patterns: set<Path>, keys: seq<string>, domain: string)
    requires Plain(patterns) && KeysFor(patterns, keys)
    requires [""] !in patterns && !Shadowed(keys) && ValidQuery(domain)
    ensures Walk(keys, TextOf(domain), 0) <==> exists p :: p in patterns && Covers(p, domain)
  {
    var labels := ReverseSeq(ValidAndSplitDomain(domain).value);
    TextIsKey(domain);
    WalkIsAccepted(keys, TextOf(domain), 0);
    AcceptedIsMatched(patterns, keys, labels);
    assert forall p :: Covers(p, domain) <==> Matches(p, labels);
  }

  /** The exact condition: no lone "+" and no shadowed wildcard. */
  lemma AgreeExactly(patterns: set<Path>, keys: seq<string>)
    requires Plain(patterns) && KeysFor(patterns, keys)
    ensures Agree(patterns, keys) <==> [""] !in patterns && !Shadowed(keys)
  {
    if [""] in patterns {
      LoneWildcardFails(patterns, keys);
    } else if Shadowed(keys) {
      var p, b :| ShadowedAt(keys, p, b);
      ShadowFails(patterns, keys, p, b);
    } else {
      forall d | ValidQuery(d) ensures Walk(keys, TextOf(d), 0) <==> exists p :: p in patterns && Covers(p, d) {
        AgreeOn(patterns, keys, d);
      }
    }
  }

  /** Label bytes behind '+' suffice. */
  lemma HighBytesAgree(patterns: set<Path>, keys: seq<string>)
    requires KeysFor(patterns, keys) && [""] !in patterns
    requires forall p :: p in patterns ==> WellFormed(p) && forall i :: 0 <= i < |p| ==> HighBytes(p[i])
    ensures Plain(patterns) && !Shadowed(keys) && Agree(patterns, keys)
  {
    forall p: string, b | b < '+' ensures !HasPrefix(keys, p + [b]) {
      NoLowByte(patterns, keys, p, b);
    }
    forall p, i | p in patterns && 0 <= i < |p| ensures PlainLabel(p[i]) {
      assert HighBytes(p[i]);
    }
    AgreeExactly(patterns, keys);
  }

  lemma NoLowByte(patterns: set<Path>, keys: seq<string>, p: string, b: char)
    requires KeysFor(patterns, keys) && b < '+'
    requires forall p :: p in patterns ==> WellFormed(p) && forall i :: 0 <= i < |p| ==> HighBytes(p[i])
    ensures !HasPrefix(keys, p + [b])
  {
    forall n | 0 <= n < |keys| ensures !(p + [b] <= keys[n]) {
      assert keys[n] in keys;
      var path :| path in patterns && |path| > 0 && KeyOf(path) == keys[n];
      HighKey(path);
      assert (p + [b])[|p|] == b;
    }
  }

  lemma HighKey(p: Path)
    requires WellFormed(p) && |p| > 0 && forall i :: 0 <= i < |p| ==> HighBytes(p[i])
    ensures forall j :: 0 <= j < |KeyOf(p)| ==> KeyOf(p)[j] >= '+'
  {
    KeyIsSpelled(p);
    forall j | 0 <= j < |KeyOf(p)| ensures KeyOf(p)[j] >= '+' {
      KeyBytes(Spelled(p), j);
    }
  }

  predicate HighBytes(s: string) {
    forall i :: 0 <= i < |s| ==> s[i] > '+'
  }

  lemma {:induction false} KeyBytes(path: Path, j: nat)
    requires forall i :: 0 <= i < |path| ==> HighBytes(path[i]) || path[i] == "+"
    requires j < |BackKey(path)|
    ensures BackKey(path)[j] >= '+'
  {
    var n := |path| - 1;
    assert forall i :: 0 <= i < |path[n]| ==> path[n][i] >= '+';
    var tail := ReverseSeq(path[n]);
    assert forall i :: 0 <= i < |tail| ==> tail[i] >= '+';
    if n > 0 {
      var init := BackKey(path[..n]);
      assert BackKey(path) == init + "." + tail;
      if j < |init| { KeyBytes(path[..n], j); }
    }
  }

  // ---- where the set fails ----

  lemma {:induction false} BackKeyLower(path: Path)
    requires LowerLabels(path)
    ensures IsLower(BackKey(path))
    ensures |path| > 0 && path[0] != "" && DotFree(path[0]) ==> |BackKey(path)| > 0 && BackKey(path)[0] != '.'
  {
    if |path| > 0 {
      var n := |path| - 1;
      var tail := ReverseSeq(path[n]);
      assert IsLower(path[n]) && IsLower(tail);
      if n > 0 {
        BackKeyLower(path[..n]);
        assert BackKey(path) == BackKey(path[..n]) + "." + tail;
      }
    }
  }

  /** The domain spelled by proper lower-case labels is a valid query for them. */
  lemma QueryFor(labels: Path) returns (d: string)
    requires |labels| > 0 && Proper(labels) && DotFreeLabels(labels) && LowerLabels(labels)
    ensures ValidQuery(d) && ReverseSeq(ValidAndSplitDomain(d).value) == labels
    ensures TextOf(d) == BackKey(labels)
  {
    hide BackKey, Split, Proper, DotFreeLabels, LowerLabels, IsLower, DotFree, ValidQuery, TextOf;
    var text := BackKey(labels);
    d := ReverseSeq(text);
    ReverseTwice(text);
    BackKeyLower(labels);
    FirstLabel(labels);
    LowerReversed(text);
    SplitBack(d, labels);
    ValidFromSplit(d);
  }

  lemma FirstLabel(labels: Path)
    requires |labels| > 0 && Proper(labels) && DotFreeLabels(labels)
    ensures labels[0] != "" && DotFree(labels[0])
  {
  }

  lemma LowerReversed(text: string)
    requires IsLower(text) && |text| > 0 && text[0] != '.'
    ensures var d := ReverseSeq(text); ToLower(d) == d && d[|d| - 1] != '.' && TextOf(d) == text
  {
    hide ReverseSeq, ToLower, LowerChar, IsLower;
    ReverseTwice(text);
    LowerIsLower(text);
    LowerOfReverse(text);
  }

  lemma ValidFromSplit(d: string)
    requires d != "" && d[|d| - 1] != '.' && ToLower(d) == d && Proper(Split(d))
    ensures ValidQuery(d) && ValidAndSplitDomain(d).value == Split(d)
  {
    hide Split;
  }

  lemma SplitBack(d: string, labels: Path)
    requires |labels| > 0 && Proper(labels) && DotFreeLabels(labels)
    requires ReverseSeq(d) == BackKey(labels)
    ensures ReverseSeq(Split(d)) == labels && Proper(Split(d))
  {
    hide BackKey, Split, DotFree;
    ReversedDomain(d);
    BackKeyInjective(ReverseSeq(Split(d)), labels);
    assert forall i :: 0 <= i < |Split(d)| ==> Split(d)[i] == labels[|labels| - 1 - i];
  }

  function MaxLen(keys: seq<string>): (m: nat)
    ensures forall k :: k in keys ==> |k| <= m
  {
    if |keys| == 0 then 0
    else
      var rest := MaxLen(keys[1..]);
      if |keys[0]| > rest then |keys[0]| else rest
  }

  function Zs(n: nat): (s: string)
    ensures |s| == n && forall i :: 0 <= i < n ==> s[i] == 'z'
  {
    seq(n, i => 'z')
  }

  /** A text longer than every key is rejected where no marker is left. */
  lemma {:induction false} TailRejected(keys: seq<string>, text: string, i: nat)
    requires i <= |text| && |text| > MaxLen(keys)
    requires forall k :: i <= k < |text| ==> NoMarkerAt(keys, text, k)
    ensures !Walk(keys, text, i)
    decreases |text| - i
  {
    if i < |text| {
      assert NoMarkerAt(keys, text, i);
      TailRejected(keys, text, i + 1);
    }
  }

  lemma NoMarker(patterns: set<Path>, keys: seq<string>, x: string)
    requires Plain(patterns) && KeysFor(patterns, keys)
    requires |x| > 0 ==> x[|x| - 1] != '.'
    ensures !HasPrefix(keys, x + "+")
  {
    if HasPrefix(keys, x + "+") {
      var q := MarkerMeansWildcard(patterns, keys, x);
    }
  }

  lemma LongTailRejected(patterns: set<Path>, keys: seq<string>, x: string, n: nat)
    requires Plain(patterns) && KeysFor(patterns, keys) && n > MaxLen(keys)
    requires |x| > 0 ==> x[|x| - 1] != '.'
    ensures !Walk(keys, x + Zs(n), |x|)
  {
    hide Plain, KeysFor, Walk, HasPrefix, MaxLen, Zs;
    forall k | |x| <= k < |x| + n ensures NoMarkerAt(keys, x + Zs(n), k) {
      TailEnd(x, n, k);
      NoMarker(patterns, keys, (x + Zs(n))[..k]);
    }
    TailRejected(keys, x + Zs(n), |x|);
  }

  ghost predicate NoMarkerAt(keys: seq<string>, text: string, k: nat) {
    k < |text| && text[k] == 'z' && !HasPrefix(keys, text[..k] + "+")
  }

  lemma TailEnd(x: string, n: nat, k: nat)
    requires |x| <= k <= |x| + n
    requires |x| > 0 ==> x[|x| - 1] != '.'
    ensures k < |x| + n ==> (x + Zs(n))[k] == 'z'
    ensures k > 0 ==> (x + Zs(n))[..k][k - 1] != '.'
  {
  }

  lemma LoneWildcardFails(patterns: set<Path>, keys: seq<string>)
    requires Plain(patterns) && KeysFor(patterns, keys) && [""] in patterns
    ensures !Agree(patterns, keys)
  {
    var n := MaxLen(keys) + 1;
    var d := LoneQuery(Zs(n));
    LoneLost(patterns, keys, n);
    Disagree(patterns, keys, d, [""]);
  }

  lemma LoneLost(patterns: set<Path>, keys: seq<string>, n: nat)
    requires Plain(patterns) && KeysFor(patterns, keys) && n > MaxLen(keys)
    ensures !Walk(keys, Zs(n), 0)
  {
    LongTailRejected(patterns, keys, "", n);
    assert "" + Zs(n) == Zs(n);
  }

  lemma LoneQuery(z: string) returns (d: string)
    requires |z| > 0 && IsLower(z) && DotFree(z)
    ensures ValidQuery(d) && TextOf(d) == z && Covers([""], d)
  {
    ReverseTwice(z);
    ReverseDotFree(z);
    assert IsLower(ReverseSeq(z));
    d := QueryFor([ReverseSeq(z)]);
  }

  /** Below a shadowed wildcard the walk takes the other byte and is lost. */
  lemma ShadowFails(patterns: set<Path>, keys: seq<string>, p: string, b: char)
    requires Plain(patterns) && KeysFor(patterns, keys) && ShadowedAt(keys, p, b)
    ensures !Agree(patterns, keys)
  {
    hide KeysFor, Agree, Walk, MaxLen, BackKey, TextOf, ValidQuery, Covers;
    var q := MarkerMeansWildcard(patterns, keys, p);
    var n := MaxLen(keys) + 1;
    var d := ShadowQuery(q, b, Zs(n));
    Associate(p, [b], Zs(n));
    ShadowLost(patterns, keys, p, b, n);
    Disagree(patterns, keys, d, q + [""]);
  }

  /** A case of it: the patterns ".a" and "!.a". The set misses names below "a" that start with "!"
      from the right. */
  lemma ShadowExample()
    ensures Plain({["a", ""], ["a", "!"]}) && KeysFor({["a", ""], ["a", "!"]}, ["a.!", "a.+"])
    ensures !Agree({["a", ""], ["a", "!"]}, ["a.!", "a.+"])
  {
    hide KeysFor, ShadowedAt, Agree;
    ExampleKey("", "+");
    ExampleKey("!", "!");
    ExampleKeysFor();
    ExampleShadowed();
    ShadowFails({["a", ""], ["a", "!"]}, ["a.!", "a.+"], "a.", '!');
  }

  lemma ExampleKeysFor()
    ensures KeysFor({["a", ""], ["a", "!"]}, ["a.!", "a.+"])
  {
    hide KeyOf;
    ExampleKey("", "+");
    ExampleKey("!", "!");
    var patterns: set<Path>, keys := {["a", ""], ["a", "!"]}, ["a.!", "a.+"];
    assert "a." + "!" == keys[0] && "a." + "+" == keys[1];
    assert ["a", ""] in patterns && ["a", "!"] in patterns;
    assert StrLess(keys[0][2..], keys[1][2..]) && StrLess(keys[0][1..], keys[1][1..]);
  }

  lemma ExampleShadowed()
    ensures ShadowedAt(["a.!", "a.+"], "a.", '!')
  {
    var keys := ["a.!", "a.+"];
    assert "a." + ['!'] <= keys[0] && "a." + "+" <= keys[1];
    forall j, n | 0 <= j < 2 && 0 <= n < 2 ensures !("a."[..j] + "+" <= keys[n]) {
      assert ("a."[..j] + "+")[j] == '+' && keys[n][j] != '+';
    }
  }

  lemma ExampleKey(name: string, mark: string)
    requires (name == "" && mark == "+") || (name == "!" && mark == "!")
    ensures WellFormed(["a", name]) && KeyOf(["a", name]) == "a." + mark
  {
    KeyIsSpelled(["a", name]);
    assert ["a", mark][..1] == ["a"] == ["a", name][..1];
    assert Spelled(["a", name]) == ["a", mark];
    assert ReverseSeq("a") == "a" && ReverseSeq(mark) == mark;
  }

  lemma ShadowLost(patterns: set<Path>, keys: seq<string>, p: string, b: char, n: nat)
    requires Plain(patterns) && KeysFor(patterns, keys) && ShadowedAt(keys, p, b) && n > MaxLen(keys)
    ensures !Walk(keys, p + [b] + Zs(n), 0)
  {
    ReachShadow(keys, p, b, p + [b] + Zs(n), 0);
    LongTailRejected(patterns, keys, p + [b], n);
  }

  lemma Disagree(patterns: set<Path>, keys: seq<string>, d: string, p: Path)
    requires ValidQuery(d) && p in patterns && Covers(p, d) && !Walk(keys, TextOf(d), 0)
    ensures !Agree(patterns, keys)
  {
  }

  /** A query below the stem `q` whose next byte is `b`, followed by `z` in the reversed text. */
  lemma ShadowQuery(q: Path, b: char, z: string) returns (d: string)
    requires |q| > 0 && WellFormed(q + [""]) && forall i :: 0 <= i < |q| ==> PlainLabel((q + [""])[i])
    requires b < '+' && IsLower(z) && DotFree(z)
    ensures ValidQuery(d) && TextOf(d) == BackKey(q) + "." + ([b] + z)
    ensures Covers(q + [""], d)
  {
    hide BackKey, ValidQuery, TextOf, IsLower, DotFree, WellFormed, Proper, DotFreeLabels, LowerLabels;
    hide ReverseSeq, LowerChar, PlainLabel;
    var lab := ReverseSeq([b] + z);
    TailLabel(b, z);
    StemLabels(q, lab);
    BackKeySnoc(q, lab);
    d := QueryFor(q + [lab]);
    StemMatches(q, q + [lab]);
    CoveredBy(q, lab, d);
    StemPrefix(BackKey(q) + ".", [b] + z);
  }

  lemma StemPrefix(x: string, y: string)
    ensures x <= x + y
  {
  }

  lemma CoveredBy(q: Path, lab: string, d: string)
    requires ValidQuery(d) && ReverseSeq(ValidAndSplitDomain(d).value) == q + [lab]
    requires Matches(q + [""], q + [lab])
    ensures Covers(q + [""], d)
  {
  }

  lemma TailLabel(b: char, z: string)
    requires b < '+' && IsLower(z) && DotFree(z)
    ensures var lab := ReverseSeq([b] + z);
            lab != "" && IsLower(lab) && DotFree(lab) && ReverseSeq(lab) == [b] + z
  {
    hide LowerChar, ReverseSeq, IsLower;
    ReverseTwice([b] + z);
    ReverseDotFree([b] + z);
    LowBytes(b);
    LowerCons(b, z);
    LowerReverse([b] + z);
  }

  lemma LowBytes(b: char)
    ensures b < '+' ==> LowerChar(b) == b
  {
  }

  lemma LowerCons(b: char, z: string)
    requires LowerChar(b) == b && IsLower(z)
    ensures IsLower([b] + z)
  {
    hide LowerChar;
  }

  lemma LowerReverse(s: string)
    requires IsLower(s)
    ensures IsLower(ReverseSeq(s))
  {
    hide LowerChar;
  }

  lemma StemLabels(q: Path, lab: string)
    requires WellFormed(q + [""]) && lab != "" && DotFree(lab) && IsLower(lab)
    ensures Proper(q + [lab]) && DotFreeLabels(q + [lab]) && LowerLabels(q + [lab])
  {
    assert forall i :: 0 <= i < |q| ==> q[i] == (q + [""])[i];
  }

  lemma {:induction false} ReachShadow(keys: seq<string>, p: string, b: char, text: string, i: nat)
    requires ShadowedAt(keys, p, b) && p + [b] <= text && i <= |p|
    ensures Walk(keys, text, i) == Walk(keys, text, |p| + 1)
    decreases |p| - i
  {
    assert p == text[..|p|] && text[..|p| + 1] == p + [b];
    if i < |p| {
      ReachShadow(keys, p, b, text, i + 1);
      assert text[..i] == p[..i];
      ShorterPrefix(keys, text[..i + 1], p + [b]);
    }
  }
}
