/** What a stored pattern means and which of several matching patterns wins. A pattern is
    stored as a path: its labels from the rightmost on, "*" for any one label and a final
    "" for one or more further labels. */
module DomainPatterns {
  import opened Sequences
  import opened Text
  import opened Wrappers

  type Path = seq<string>

  const WILDCARD := "*"
  const DOT_WILDCARD := ""
  const COMPLEX_WILDCARD := "+"

  /** Splits a domain into labels, leftmost first, or rejects it: no trailing dot, no empty
      label except possibly the first of several. */
  function ValidAndSplitDomain(domain: string): (r: Option<seq<string>>)
    ensures r.Some? ==> |r.value| > 0 && DotFreeLabels(r.value)
    ensures r.Some? ==> LowerLabels(r.value)
    ensures r.Some? ==> r.value == Split(ToLower(domain))
    ensures r.Some? ==> forall i :: 1 <= i < |r.value| ==> r.value[i] != ""
    ensures r.Some? && |r.value| == 1 ==> r.value[0] != ""
  {
    if domain != "" && domain[|domain| - 1] == '.' then None
    else
      var parts := Split(ToLower(domain));
      SplitLower(ToLower(domain));
      if |parts| == 1 then
        if parts[0] == "" then None else Some(parts)
      else if exists i :: 1 <= i < |parts| && parts[i] == "" then None
      else Some(parts)
  }

  predicate DotsFollowed(s: string) {
    forall j :: 0 <= j < |s| && s[j] == '.' ==> j + 1 < |s| && s[j + 1] != '.'
  }

  predicate NoEmptyTail(labels: seq<string>) {
    forall i :: 1 <= i < |labels| ==> labels[i] != ""
  }

  lemma SplitHead(s: string)
    ensures Split(s)[0] == "" <==> s == "" || s[0] == '.'
  {
  }

  lemma DotsShift(s: string)
    requires s != ""
    ensures DotsFollowed(s) <==> DotsFollowed(s[1..]) && (s[0] == '.' ==> s[1..] != "" && s[1] != '.')
  {
    var t := s[1..];
    assert forall j :: 0 <= j < |t| ==> t[j] == s[j + 1];
    assert forall j :: 1 <= j < |s| ==> s[j] == t[j - 1];
  }

  lemma LabelsShift(labels: seq<string>, rest: seq<string>, d: nat)
    requires |rest| > 0 && d <= 1 && |labels| == |rest| + d
    requires forall i :: 1 - d <= i < |rest| ==> labels[i + d] == rest[i]
    ensures NoEmptyTail(labels) <==> NoEmptyTail(rest) && (d == 1 ==> rest[0] != "")
  {
    assert forall i :: 1 <= i < |labels| ==> labels[i] == rest[i - d];
    assert d == 1 ==> labels[1] == rest[0];
  }

  /** Behind the first label, an empty one comes from a dot without a label character behind it. */
  lemma {:induction false} SplitTail(s: string)
    ensures NoEmptyTail(Split(s)) <==> DotsFollowed(s)
  {
    hide DotsFollowed, NoEmptyTail;
    if s == "" {
      SplitTailEmpty();
    } else {
      SplitTail(s[1..]);
      SplitHead(s[1..]);
      DotsShift(s);
      LabelsShift(Split(s), Split(s[1..]), if s[0] == '.' then 1 else 0);
    }
  }

  lemma SplitTailEmpty()
    ensures NoEmptyTail(Split("")) && DotsFollowed("")
  {
  }

  /** Exactly the non-empty names in which a character other than a dot follows every dot are accepted. */
  lemma AcceptedExactly(domain: string)
    ensures ValidAndSplitDomain(domain).Some? <==> domain != "" && DotsFollowed(domain)
  {
    var low := ToLower(domain);
    SplitTail(low);
    SplitHead(low);
    assert forall i :: 0 <= i < |low| ==> (low[i] == '.' <==> domain[i] == '.');
    assert DotsFollowed(low) <==> DotsFollowed(domain);
    assert low != "" && |Split(low)| == 1 ==> Split(low)[0] == low;
  }

  /** A path that insertion can produce: lower case, the empty label only at the left end. */
  predicate WellFormed(p: Path) {
    DotFreeLabels(p) && LowerLabels(p) && forall i :: 0 <= i < |p| - 1 ==> p[i] != ""
  }

  /** Does the pattern cover the domain whose labels, rightmost first, are given? */
  predicate Matches(p: Path, labels: seq<string>) {
    if |p| == 0 then |labels| == 0
    else if |labels| == 0 then false
    else
      || p == [DOT_WILDCARD]
      || ((p[0] == labels[0] || p[0] == WILDCARD) && Matches(p[1..], labels[1..]))
  }

  /** The choice made at each label: 0 the label itself, 1 "*", 2 the dot wildcard. */
  function Rank(p: Path, labels: seq<string>): (r: seq<nat>)
    requires Matches(p, labels)
  {
    if |p| == 0 then []
    else if p == [DOT_WILDCARD] then [2]
    else [if p[0] == labels[0] then 0 else 1] + Rank(p[1..], labels[1..])
  }

  predicate LexLe(a: seq<nat>, b: seq<nat>) {
    if |a| == 0 then true
    else if |b| == 0 then false
    else a[0] < b[0] || (a[0] == b[0] && LexLe(a[1..], b[1..]))
  }

  /** Domain labels are never empty. */
  predicate Proper(labels: seq<string>) {
    forall i :: 0 <= i < |labels| ==> labels[i] != ""
  }

  /** Ranks tell matching patterns apart, so the best one is unique. */
  lemma {:induction false} RankDeterminesPath(p: Path, q: Path, labels: seq<string>)
    requires Proper(labels) && Matches(p, labels) && Matches(q, labels)
    requires Rank(p, labels) == Rank(q, labels)
    ensures p == q
  {
    if |p| > 0 {
      assert Rank(p, labels) != [];
      assert |q| > 0;
      assert Rank(p, labels)[0] == Rank(q, labels)[0];
      if p != [DOT_WILDCARD] {
        assert q != [DOT_WILDCARD];
        assert Rank(p[1..], labels[1..]) == Rank(p, labels)[1..];
        assert Rank(q[1..], labels[1..]) == Rank(q, labels)[1..];
        RankDeterminesPath(p[1..], q[1..], labels[1..]);
        assert p == [p[0]] + p[1..] && q == [q[0]] + q[1..];
      }
    }
  }

  lemma LexLeReflexive(a: seq<nat>)
    ensures LexLe(a, a)
  {
  }

  /** `p` is a pattern of `patterns` below `at` covering `labels`, and none ranks before it. */
  ghost predicate Best(patterns: set<Path>, at: Path, p: Path, labels: seq<string>) {
    && p in patterns
    && at <= p
    && Matches(p[|at|..], labels)
    && forall q :: q in patterns && at <= q && Matches(q[|at|..], labels) ==>
         LexLe(Rank(p[|at|..], labels), Rank(q[|at|..], labels))
  }

  ghost predicate NoneMatches(patterns: set<Path>, at: Path, labels: seq<string>) {
    forall q :: q in patterns && at <= q ==> !Matches(q[|at|..], labels)
  }

  // ---- the backtracking descent, on the set of stored paths ----

  /** The node at which the search ends, as a path: `tree` holds the paths of all nodes and
      `patterns` those that carry data. */
  function FindPath(tree: set<Path>, patterns: set<Path>, at: Path, parts: seq<string>): (r: Option<Path>)
    requires at in tree
    ensures r.Some? ==> r.value in tree
    decreases |parts|
  {
    if |parts| == 0 then Some(at)
    else
      var last, rest := parts[|parts| - 1], parts[..|parts| - 1];
      var exact := if at + [last] in tree then FindPath(tree, patterns, at + [last], rest) else None;
      if exact.Some? && exact.value in patterns then exact
      else
        var star := if at + [WILDCARD] in tree then FindPath(tree, patterns, at + [WILDCARD], rest) else None;
        if star.Some? && star.value in patterns then star
        else if at + [DOT_WILDCARD] in tree then Some(at + [DOT_WILDCARD]) else None
  }

  /** The three ways a pattern strictly below `at` can cover a nonempty list of labels. */
  lemma StepCases(at: Path, q: Path, labels: seq<string>)
    requires |labels| > 0 && labels[0] != ""
    requires at <= q && Matches(q[|at|..], labels)
    ensures |q| > |at| && at + [q[|at|]] <= q
    ensures q[|at|..] == [q[|at|]] + q[|at| + 1..]
    ensures q == at + [DOT_WILDCARD]
         || ((q[|at|] == labels[0] || q[|at|] == WILDCARD) && Matches(q[|at| + 1..], labels[1..]))
  {
    assert q[|at|..] == [q[|at|]] + q[|at| + 1..];
    assert q == at + q[|at|..];
  }

  /** Matching and ranking one label further down. */
  lemma StepDown(at: Path, s: string, q: Path, labels: seq<string>)
    requires |labels| > 0 && labels[0] != "" && s != ""
    requires s == labels[0] || s == WILDCARD
    requires at + [s] <= q
    ensures at <= q
    ensures Matches(q[|at|..], labels) == Matches(q[|at + [s]|..], labels[1..])
    ensures Matches(q[|at|..], labels) ==>
              Rank(q[|at|..], labels) ==
                [if s == labels[0] then 0 else 1] + Rank(q[|at + [s]|..], labels[1..])
  {
    assert q[|at|] == s;
    assert q[|at|..][1..] == q[|at + [s]|..];
  }

  /** What a search that ended in `r` owes its caller. */
  ghost predicate Answers(patterns: set<Path>, at: Path, labels: seq<string>, r: Option<Path>) {
    if r.Some? && r.value in patterns then Best(patterns, at, r.value, labels)
    else NoneMatches(patterns, at, labels)
  }

  /** The descent finds a covering pattern when there is one, and the best one. */
  lemma {:induction false} FindPathIsBest(tree: set<Path>, patterns: set<Path>, at: Path, parts: seq<string>)
    requires at in tree && patterns <= tree && PrefixClosed(tree)
    requires Proper(parts)
    ensures Answers(patterns, at, ReverseSeq(parts), FindPath(tree, patterns, at, parts))
    decreases |parts|, 1
  {
    var labels := ReverseSeq(parts);
    if |parts| == 0 {
      OnlyItself(patterns, at);
    } else {
      var last := parts[|parts| - 1];
      var exact := FindBelow(tree, patterns, at, last, parts);
      var star := FindBelow(tree, patterns, at, WILDCARD, parts);
      if exact.Some? && exact.value in patterns {
        ExactWins(patterns, at, labels, exact.value);
      } else if star.Some? && star.value in patterns {
        StarWins(patterns, at, labels, star.value);
      } else {
        DotOrNothing(tree, patterns, at, labels);
      }
    }
  }

  lemma OnlyItself(patterns: set<Path>, at: Path)
    ensures Answers(patterns, at, [], Some(at))
  {
    forall q | q in patterns && at <= q && Matches(q[|at|..], [])
      ensures q == at
    {
      assert q == at + q[|at|..];
    }
    assert at[|at|..] == [];
  }

  /** One branch: the search below the child `s` answers for the patterns through it. */
  lemma {:induction false} FindBelow(tree: set<Path>, patterns: set<Path>, at: Path, s: string, parts: seq<string>)
    returns (r: Option<Path>)
    requires at in tree && patterns <= tree && PrefixClosed(tree)
    requires |parts| > 0 && Proper(parts)
    ensures r == if at + [s] in tree then FindPath(tree, patterns, at + [s], parts[..|parts| - 1]) else None
    ensures Answers(patterns, at + [s], ReverseSeq(parts)[1..], r)
    decreases |parts|, 0
  {
    var last, rest := parts[|parts| - 1], parts[..|parts| - 1];
    assert parts == rest + [last];
    ReverseConcat(rest, [last]);
    assert ReverseSeq(parts)[1..] == ReverseSeq(rest);
    if at + [s] in tree {
      r := FindPath(tree, patterns, at + [s], rest);
      FindPathIsBest(tree, patterns, at + [s], rest);
    } else {
      r := None;
      assert forall q :: q in patterns && at + [s] <= q ==> q in tree && q[..|at| + 1] == at + [s];
    }
  }

  lemma ExactWins(patterns: set<Path>, at: Path, labels: seq<string>, p: Path)
    requires |labels| > 0 && Proper(labels)
    requires Best(patterns, at + [labels[0]], p, labels[1..])
    ensures Best(patterns, at, p, labels)
  {
    StepDown(at, labels[0], p, labels);
    forall q | q in patterns && at <= q && Matches(q[|at|..], labels)
      ensures LexLe(Rank(p[|at|..], labels), Rank(q[|at|..], labels))
    {
      StepCases(at, q, labels);
      if q != at + [DOT_WILDCARD] {
        StepDown(at, q[|at|], q, labels);
      }
    }
  }

  lemma StarWins(patterns: set<Path>, at: Path, labels: seq<string>, p: Path)
    requires |labels| > 0 && Proper(labels)
    requires NoneMatches(patterns, at + [labels[0]], labels[1..])
    requires Best(patterns, at + [WILDCARD], p, labels[1..])
    ensures Best(patterns, at, p, labels)
  {
    StepDown(at, WILDCARD, p, labels);
    forall q | q in patterns && at <= q && Matches(q[|at|..], labels)
      ensures LexLe(Rank(p[|at|..], labels), Rank(q[|at|..], labels))
    {
      StepCases(at, q, labels);
      if q != at + [DOT_WILDCARD] {
        StepDown(at, q[|at|], q, labels);
      }
    }
  }

  lemma DotOrNothing(tree: set<Path>, patterns: set<Path>, at: Path, labels: seq<string>)
    requires patterns <= tree
    requires |labels| > 0 && Proper(labels)
    requires NoneMatches(patterns, at + [labels[0]], labels[1..])
    requires NoneMatches(patterns, at + [WILDCARD], labels[1..])
    ensures Answers(patterns, at, labels,
                    if at + [DOT_WILDCARD] in tree then Some(at + [DOT_WILDCARD]) else None)
  {
    var dot := at + [DOT_WILDCARD];
    assert dot[|at|..] == [DOT_WILDCARD];
    forall q | q in patterns && at <= q && Matches(q[|at|..], labels)
      ensures q == dot
    {
      StepCases(at, q, labels);
      if q != dot {
        StepDown(at, q[|at|], q, labels);
      }
    }
    LexLeReflexive(Rank(dot[|at|..], labels));
  }

  // ---- patterns and queries as texts ----

  /** The paths stored for a pattern text; none when it is invalid. */
  function PathsOf(domain: string): set<Path> {
    match ValidAndSplitDomain(domain)
    case None => {}
    case Some(parts) =>
      if parts[0] == COMPLEX_WILDCARD
      then {ReverseSeq(parts[1..]), ReverseSeq(parts[0 := DOT_WILDCARD])}
      else {ReverseSeq(parts)}
  }

  lemma ReversedWellFormed(parts: seq<string>)
    requires DotFreeLabels(parts) && LowerLabels(parts) && NoEmptyTail(parts)
    ensures WellFormed(ReverseSeq(parts))
  {
    hide DotFree, IsLower;
  }

  lemma PathsWellFormed(domain: string)
    ensures forall p :: p in PathsOf(domain) ==> WellFormed(p)
  {
    hide WellFormed, DotFree, IsLower, ValidAndSplitDomain;
    var split := ValidAndSplitDomain(domain);
    if split.Some? {
      var parts := split.value;
      ReversedWellFormed(parts);
      ReversedWellFormed(parts[1..]);
      EmptyFine();
      ReversedWellFormed(parts[0 := DOT_WILDCARD]);
    }
  }

  lemma EmptyFine()
    ensures DotFree("") && IsLower("")
  {
  }

  function Overwritten<T>(c: map<Path, T>, paths: set<Path>, data: T): map<Path, T> {
    map p | p in c.Keys + paths :: if p in paths then data else c[p]
  }

  lemma OverwriteTwo<T>(c: map<Path, T>, p: Path, q: Path, data: T)
    ensures c[p := data][q := data] == Overwritten(c, {p, q}, data)
  {
  }

  /** Does the stored pattern cover the queried text? Invalid queries are covered by nothing. */
  predicate Covers(p: Path, domain: string) {
    match ValidAndSplitDomain(domain)
    case None => false
    case Some(parts) => parts[0] != "" && Matches(p, ReverseSeq(parts))
  }

  /** A query the trie does not turn down. */
  predicate ValidQuery(domain: string) {
    var split := ValidAndSplitDomain(domain);
    split.Some? && split.value[0] != ""
  }

  /** The winner among the patterns that cover the query: label by label from the right, the
      label itself before "*" before the dot wildcard. */
  ghost predicate IsWinner(patterns: set<Path>, p: Path, domain: string) {
    && p in patterns && Covers(p, domain)
    && forall q :: q in patterns && Covers(q, domain) ==>
         var labels := ReverseSeq(ValidAndSplitDomain(domain).value);
         LexLe(Rank(p, labels), Rank(q, labels))
  }

  /** The full name of a stored path: ".q" is spelled "+.q". */
  function DomainName(p: Path): string {
    var name := Join(ReverseSeq(p));
    if |p| >= 2 && |name| > 0 && name[0] == '.' then COMPLEX_WILDCARD + name else name
  }
}
