/** What patterns and names mean as texts: labels compared one by one, the wildcards spelled out. */
module DomainTexts {
  import opened Sequences
  import opened Text
  import opened Wrappers
  import opened DomainPatterns
  import DomainTrie

  // ---- one pattern ----

  /** A label of a pattern stands for a label of a name. */
  predicate Stands(a: string, b: string) {
    a == "*" || a == b
  }

  /** Label by label, from the left. */
  predicate StandFor(p: seq<string>, q: seq<string>) {
    |p| == |q| && forall i :: 0 <= i < |p| ==> Stands(p[i], q[i])
  }

  /** A pattern's labels against those of a name, both leftmost first: "+" in front leaves out any number
      of labels, a dot in front at least one. */
  predicate Meets(p: seq<string>, q: seq<string>)
    requires |p| > 0
  {
    if p[0] == "+" then |q| >= |p| - 1 && StandFor(p[1..], q[|q| - |p| + 1..])
    else if p[0] == "" then |q| >= |p| && StandFor(p[1..], q[|q| - |p| + 1..])
    else StandFor(p, q)
  }

  /** A stored path against labels, both rightmost first. */
  predicate PathMeets(p: Path, labels: seq<string>) {
    if |p| > 0 && p[|p| - 1] == ""
    then |labels| >= |p| && StandFor(p[..|p| - 1], labels[..|p| - 1])
    else StandFor(p, labels)
  }

  lemma {:induction false} MatchesByPosition(p: Path, labels: seq<string>)
    requires WellFormed(p) && Proper(labels)
    ensures Matches(p, labels) <==> PathMeets(p, labels)
  {
    if |p| > 0 && |labels| > 0 && p != [""] {
      var p', labels' := p[1..], labels[1..];
      assert p == [p[0]] + p' && labels == [labels[0]] + labels';
      MatchesByPosition(p', labels');
      MeetsBehind(p, labels);
    }
  }

  lemma MeetsBehind(p: Path, labels: seq<string>)
    requires |p| > 0 && |labels| > 0 && p != [""] && WellFormed(p) && Proper(labels)
    ensures PathMeets(p, labels) <==> Stands(p[0], labels[0]) && PathMeets(p[1..], labels[1..])
  {
    hide Stands, DotFreeLabels, LowerLabels;
    var p', labels' := p[1..], labels[1..];
    if p[|p| - 1] == "" {
      if |labels| >= |p| {
        StandForBehind(p[..|p| - 1], labels[..|p| - 1]);
        assert p[..|p| - 1][1..] == p'[..|p'| - 1] && labels[..|p| - 1][1..] == labels'[..|p'| - 1];
      }
    } else {
      StandForBehind(p, labels);
      assert |p| == 1 ==> p[0] != "";
    }
  }

  lemma StandForBehind(p: seq<string>, q: seq<string>)
    requires |p| > 0 && |q| > 0
    ensures StandFor(p, q) <==> Stands(p[0], q[0]) && StandFor(p[1..], q[1..])
  {
    hide Stands;
    if Stands(p[0], q[0]) && StandFor(p[1..], q[1..]) {
      forall i | 0 <= i < |p| ensures Stands(p[i], q[i]) {
        assert i > 0 ==> Stands(p[1..][i - 1], q[1..][i - 1]);
      }
    }
  }

  /** "*" and a final "" are the only labels that cover another one. */
  lemma LabelCovers(a: string, b: string)
    requires b != ""
    ensures Matches([a], [b]) <==> a == "" || a == "*" || a == b
  {
    assert [a][1..] == [] && [b][1..] == [];
  }

  lemma StandForReversed(p: seq<string>, q: seq<string>)
    ensures StandFor(ReverseSeq(p), ReverseSeq(q)) <==> StandFor(p, q)
  {
    hide Stands;
    if StandFor(ReverseSeq(p), ReverseSeq(q)) {
      forall i | 0 <= i < |p| ensures Stands(p[i], q[i]) {
        var j := |p| - 1 - i;
        assert Stands(ReverseSeq(p)[j], ReverseSeq(q)[j]);
      }
    }
  }

  lemma ReversedTail<A>(s: seq<A>, k: nat)
    requires k <= |s|
    ensures ReverseSeq(s)[..|s| - k] == ReverseSeq(s[k..])
  {
  }

  /** A path whose leftmost label is empty. */
  lemma DottedMeets(p: seq<string>, q: seq<string>)
    requires |p| > 0 && p[0] == ""
    ensures PathMeets(ReverseSeq(p), ReverseSeq(q)) <==> |q| >= |p| && StandFor(p[1..], q[|q| - |p| + 1..])
  {
    hide StandFor;
    if |q| >= |p| {
      ReversedTail(p, 1);
      ReversedTail(q, |q| - |p| + 1);
      StandForReversed(p[1..], q[|q| - |p| + 1..]);
    }
  }

  lemma PlainMeets(p: seq<string>, q: seq<string>)
    requires |p| > 0 ==> p[0] != ""
    ensures PathMeets(ReverseSeq(p), ReverseSeq(q)) <==> StandFor(p, q)
  {
    hide StandFor;
    StandForReversed(p, q);
  }

  lemma LongEnough(p: seq<string>, q: seq<string>)
    ensures StandFor(p, q) ==> |p| == |q| && q[|q| - |p|..] == q
  {
  }

  /** The labels of a text. */
  function Labels(text: string): seq<string> {
    Split(ToLower(text))
  }

  /** A pattern covers a name exactly if its labels meet those of the name. */
  lemma CoversByLabels(pattern: string, name: string)
    requires ValidAndSplitDomain(pattern).Some? && ValidQuery(name)
    ensures (exists p :: p in PathsOf(pattern) && Covers(p, name)) <==> Meets(Labels(pattern), Labels(name))
  {
    hide ValidAndSplitDomain, WellFormed, StandFor, PathMeets, Split, ToLower, Matches;
    var p, q := Labels(pattern), Labels(name);
    PathsWellFormed(pattern);
    SplitParts(pattern);
    SplitParts(name);
    forall path | path in PathsOf(pattern) ensures Covers(path, name) <==> PathMeets(path, ReverseSeq(q)) {
      MatchesByPosition(path, ReverseSeq(q));
    }
    if p[0] == "+" {
      PlainMeets(p[1..], q);
      DottedMeets(p[0 := ""], q);
      LongEnough(p[1..], q);
      assert p[0 := ""][1..] == p[1..];
      assert ReverseSeq(p[1..]) in PathsOf(pattern) && ReverseSeq(p[0 := ""]) in PathsOf(pattern);
      if |q| == |p| - 1 { assert q[|q| - |p| + 1..] == q; }
    } else {
      assert PathsOf(pattern) == {ReverseSeq(p)};
      if p[0] == "" { DottedMeets(p, q); } else { PlainMeets(p, q); }
    }
  }

  lemma SplitParts(text: string)
    requires ValidAndSplitDomain(text).Some?
    ensures ValidAndSplitDomain(text).value == Labels(text) && |Labels(text)| > 0
    ensures forall i :: 1 <= i < |Labels(text)| ==> Labels(text)[i] != ""
    ensures Labels(text)[0] != "" ==> Proper(ReverseSeq(Labels(text)))
  {
    hide Split, ToLower;
  }

  // ---- which of two patterns wins ----

  /** At the first label from the right in which they differ, `p` has the label itself, or it has "*" where
      `q` has its dot. */
  ghost predicate Beats(p: Path, q: Path, labels: seq<string>) {
    exists i :: 0 <= i < |p| && i < |q| && i < |labels| && BeatsAt(p, q, labels, i)
  }

  predicate BeatsAt(p: Path, q: Path, labels: seq<string>, i: nat)
    requires i < |p| && i < |q| && i < |labels|
  {
    p[..i] == q[..i] && p[i] != q[i] && (p[i] == labels[i] || (p[i] == "*" && q[i] == ""))
  }

  lemma {:induction false} RankByLabels(p: Path, q: Path, labels: seq<string>)
    requires Proper(labels) && Matches(p, labels) && Matches(q, labels)
    ensures LexLe(Rank(p, labels), Rank(q, labels)) <==> p == q || Beats(p, q, labels)
  {
    if |p| > 0 && |q| > 0 && p[0] == q[0] && p[0] != "" {
      RankByLabels(p[1..], q[1..], labels[1..]);
      assert p == [p[0]] + p[1..] && q == [q[0]] + q[1..];
      BeatsBehind(p, q, labels);
    } else if |p| > 0 && |q| > 0 {
      assert p[..0] == q[..0];
      assert p[0] != q[0] ==> (Beats(p, q, labels) <==> BeatsAt(p, q, labels, 0));
    }
  }

  lemma BeatsBehind(p: Path, q: Path, labels: seq<string>)
    requires |p| > 0 && |q| > 0 && |labels| > 0 && p[0] == q[0]
    ensures Beats(p, q, labels) <==> Beats(p[1..], q[1..], labels[1..])
  {
    var p', q', labels' := p[1..], q[1..], labels[1..];
    forall i | 0 <= i < |p'| && i < |q'| && i < |labels'|
      ensures BeatsAt(p', q', labels', i) <==> BeatsAt(p, q, labels, i + 1)
    {
      assert p[..i + 1] == [p[0]] + p'[..i] && q[..i + 1] == [q[0]] + q'[..i];
      assert p[..i + 1][1..] == p'[..i] && q[..i + 1][1..] == q'[..i];
    }
    if i :| 0 <= i < |p| && i < |q| && i < |labels| && BeatsAt(p, q, labels, i) {
      assert i > 0;
      assert BeatsAt(p', q', labels', i - 1);
    }
  }

  // ---- a trie of patterns ----

  /** The trie stores what the patterns stand for, each path with the last pattern that stands for it. */
  ghost predicate Holds(c: map<Path, string>, patterns: seq<string>) {
    && (forall p, i :: 0 <= i < |patterns| && p in PathsOf(patterns[i]) ==> p in c)
    && (forall p :: p in c ==> exists i :: LastFor(patterns, p, i) && c[p] == patterns[i])
  }

  ghost predicate LastFor(patterns: seq<string>, p: Path, i: int) {
    && 0 <= i < |patterns| && p in PathsOf(patterns[i])
    && forall j :: i < j < |patterns| ==> p !in PathsOf(patterns[j])
  }

  lemma HoldsMore(c: map<Path, string>, patterns: seq<string>, pattern: string)
    requires Holds(c, patterns)
    ensures Holds(Overwritten(c, PathsOf(pattern), pattern), patterns + [pattern])
  {
    hide PathsOf;
    var more, d := patterns + [pattern], Overwritten(c, PathsOf(pattern), pattern);
    forall p | p in d ensures exists i :: LastFor(more, p, i) && d[p] == more[i] {
      if p in PathsOf(pattern) {
        assert LastFor(more, p, |patterns|);
      } else {
        var i :| LastFor(patterns, p, i) && c[p] == patterns[i];
        assert LastFor(more, p, i);
      }
    }
  }

  /** A pattern stands for a path that covers the name. */
  predicate Meeting(pattern: string, name: string) {
    ValidAndSplitDomain(pattern).Some? && ValidQuery(name) && Meets(Labels(pattern), Labels(name))
  }

  /** The pattern `patterns[i]`, by its path `p`, comes before every other that covers the name. */
  ghost predicate Wins(patterns: seq<string>, name: string, i: nat, p: Path) {
    && LastFor(patterns, p, i) && Covers(p, name)
    && forall j, q :: 0 <= j < |patterns| && q in PathsOf(patterns[j]) && Covers(q, name) ==>
         q == p || Beats(p, q, ReverseSeq(Labels(name)))
  }

  lemma MeetingIsCovering(pattern: string, name: string)
    ensures Meeting(pattern, name) <==> exists p :: p in PathsOf(pattern) && Covers(p, name)
  {
    hide Meets, Labels, Matches;
    if ValidAndSplitDomain(pattern).Some? && ValidQuery(name) {
      CoversByLabels(pattern, name);
    }
  }

  /** Inserts the patterns one after the other and looks up the name. The answer is a pattern that wins, and
      there is none exactly if no pattern's labels meet those of the name. */
  method FillAndSearch(patterns: seq<string>, name: string) returns (r: Option<string>)
    ensures r.None? <==> forall i :: 0 <= i < |patterns| ==> !Meeting(patterns[i], name)
    ensures r.Some? ==> exists i: nat, p :: Wins(patterns, name, i, p) && r.value == patterns[i]
  {
    hide PathsOf, Meeting, Holds, Covers, Wins;
    var t := new DomainTrie.DomainTrie<string>();
    HoldsNothing();
    for n := 0 to |patterns|
      invariant t.Valid() && fresh(t) && fresh(t.nodes.Values)
      invariant Holds(t.Contents(), patterns[..n])
    {
      HoldsMore(t.Contents(), patterns[..n], patterns[n]);
      NothingInvalid(t.Contents(), patterns[n]);
      assert patterns[..n] + [patterns[n]] == patterns[..n + 1];
      var _ := t.Insert(patterns[n], patterns[n]);
    }
    assert patterns[..|patterns|] == patterns;
    t.SearchIsBest(name);
    var node := t.Search(name);
    FoundByLabels(t, patterns, name);
    if node == null {
      return None;
    }
    return Some(node.data);
  }

  lemma HoldsNothing()
    ensures Holds(map[], [])
  {
  }

  lemma NothingInvalid(c: map<Path, string>, pattern: string)
    ensures ValidAndSplitDomain(pattern).None? ==> Overwritten(c, PathsOf(pattern), pattern) == c
  {
  }

  lemma FoundByLabels(t: DomainTrie.DomainTrie<string>, patterns: seq<string>, name: string)
    requires t.Valid() && Holds(t.Contents(), patterns)
    ensures t.Search(name) == null <==> forall i :: 0 <= i < |patterns| ==> !Meeting(patterns[i], name)
    ensures t.Search(name) != null ==>
              exists i: nat, p :: Wins(patterns, name, i, p) && t.Search(name).data == patterns[i]
  {
    hide PathsOf, Meeting, Covers, IsWinner, Wins;
    t.SearchIsBest(name);
    var c := t.Contents();
    forall i | 0 <= i < |patterns|
      ensures Meeting(patterns[i], name) <==> exists p :: p in PathsOf(patterns[i]) && Covers(p, name)
    {
      MeetingIsCovering(patterns[i], name);
    }
    if t.Search(name) != null {
      var p :| IsWinner(c.Keys, p, name) && p in c && t.Search(name).data == c[p];
      var i :| LastFor(patterns, p, i) && c[p] == patterns[i];
      WinnerWins(c, patterns, name, i, p);
    }
  }

  lemma WinnerWins(c: map<Path, string>, patterns: seq<string>, name: string, i: nat, p: Path)
    requires Holds(c, patterns) && IsWinner(c.Keys, p, name) && LastFor(patterns, p, i)
    ensures Wins(patterns, name, i, p) && Meeting(patterns[i], name)
  {
    hide PathsOf, Meeting, Matches, Rank, LexLe, Beats, Meets;
    MeetingIsCovering(patterns[i], name);
    SplitParts(name);
    forall j, q | 0 <= j < |patterns| && q in PathsOf(patterns[j]) && Covers(q, name)
      ensures q == p || Beats(p, q, ReverseSeq(Labels(name)))
    {
      RankByLabels(p, q, ReverseSeq(Labels(name)));
    }
  }

  // ---- patterns spelled with wildcards ----

  lemma {:induction false} LabelInFront(x: string, s: string)
    requires DotFree(x)
    ensures Split(x + "." + s) == [x] + Split(s)
    decreases |x|
  {
    var t := x + "." + s;
    if x == "" {
      assert t[1..] == s;
    } else {
      LabelInFront(x[1..], s);
      assert t[1..] == x[1..] + "." + s && [x[0]] + x[1..] == x;
      assert ([x[1..]] + Split(s))[1..] == Split(s);
    }
  }

  lemma LowerInFront(x: string, s: string)
    ensures ToLower(x + "." + s) == ToLower(x) + "." + ToLower(s)
    ensures DotFree(x) ==> DotFree(ToLower(x))
  {
  }

  /** One more label in front of a valid name. */
  lemma NameInFront(x: string, name: string)
    requires DotFree(x) && ValidQuery(name)
    ensures Labels(x + "." + name) == [ToLower(x)] + Labels(name)
    ensures ValidAndSplitDomain(x + "." + name).Some?
    ensures ValidQuery(x + "." + name) <==> x != ""
  {
    hide Split, LowerChar;
    LowerInFront(x, name);
    LabelInFront(ToLower(x), ToLower(name));
    SplitParts(name);
    assert name != "";
    var t := x + "." + name;
    assert t[|t| - 1] == name[|name| - 1];
    assert forall i :: 1 <= i < |Labels(t)| ==> Labels(t)[i] == Labels(name)[i - 1];
  }

  lemma StandForItself(p: seq<string>)
    ensures StandFor(p, p)
  {
  }

  /** What "*.q", ".q" and "+.q" cover of q itself, of a name one label longer, and of one two labels longer. */
  lemma WildcardForms(x: string, y: string, q: string)
    requires ValidQuery(q) && x != "" && DotFree(x) && y != "" && DotFree(y)
    ensures !Meeting("*." + q, q) && Meeting("*." + q, x + "." + q) && !Meeting("*." + q, y + "." + (x + "." + q))
    ensures !Meeting("." + q, q) && Meeting("." + q, x + "." + q) && Meeting("." + q, y + "." + (x + "." + q))
    ensures Meeting("+." + q, q) && Meeting("+." + q, x + "." + q) && Meeting("+." + q, y + "." + (x + "." + q))
  {
    hide ValidAndSplitDomain, Labels, StandFor, DotFree;
    var labels := Labels(q);
    WildcardsAreLabels();
    NameInFront(x, q);
    NameInFront(y, x + "." + q);
    NameInFront("*", q);
    NameInFront("", q);
    NameInFront("+", q);
    assert "" + "." + q == "." + q && "*" + "." + q == "*." + q && "+" + "." + q == "+." + q;
    StandForItself(labels);
    StarStands(ToLower(x), labels);
    StandForLength(["*"] + labels, labels);
    StandForLength(["*"] + labels, [ToLower(y)] + ([ToLower(x)] + labels));
    assert ([ToLower(x)] + labels)[1..] == labels && ([ToLower(y)] + ([ToLower(x)] + labels))[2..] == labels;
    assert labels[0..] == labels && ([""] + labels)[1..] == labels && (["+"] + labels)[1..] == labels;
  }

  lemma WildcardsAreLabels()
    ensures DotFree("*") && DotFree("") && DotFree("+")
    ensures ToLower("*") == "*" && ToLower("") == "" && ToLower("+") == "+"
  {
  }

  lemma StarStands(x: string, labels: seq<string>)
    ensures StandFor(["*"] + labels, [x] + labels)
  {
  }

  lemma StandForLength(p: seq<string>, q: seq<string>)
    ensures StandFor(p, q) ==> |p| == |q|
  {
  }

  /** A "*" between two labels. */
  lemma StarInside(a: string, x: string, q: string)
    requires ValidQuery(q) && DotFree(a) && a != "" && x != "" && DotFree(x)
    ensures Meeting(a + "." + ("*." + q), a + "." + (x + "." + q))
  {
    hide ValidAndSplitDomain, Labels, StandFor, DotFree;
    var labels := Labels(q);
    WildcardsAreLabels();
    NameInFront("*", q);
    NameInFront(x, q);
    assert "*" + "." + q == "*." + q;
    NameInFront(a, "*." + q);
    NameInFront(a, x + "." + q);
    StarStands(ToLower(x), labels);
    LabelStands(ToLower(a), ["*"] + labels, [ToLower(x)] + labels);
    var p, r := [ToLower(a)] + (["*"] + labels), [ToLower(a)] + ([ToLower(x)] + labels);
    assert p[1..] == ["*"] + labels && r[1..] == [ToLower(x)] + labels;
  }

  lemma LabelStands(a: string, p: seq<string>, q: seq<string>)
    requires StandFor(p, q)
    ensures StandFor([a] + p, [a] + q)
  {
  }

  /** A name is found as soon as one pattern that meets it is stored. */
  lemma StoredIsFound<T(0)>(t: DomainTrie.DomainTrie<T>, pattern: string, name: string)
    requires t.Valid() && PathsOf(pattern) <= t.Contents().Keys && Meeting(pattern, name)
    ensures t.Search(name) != null
  {
    hide PathsOf, Meeting, Covers;
    MeetingIsCovering(pattern, name);
    t.SearchIsBest(name);
    var p :| p in PathsOf(pattern) && Covers(p, name);
    assert p in t.Contents();
  }

  /** Neither patterns nor names are told apart by the case of letters. */
  lemma CaseIsIgnored<T(0)>(t: DomainTrie.DomainTrie<T>, s: string, s': string)
    requires SameButCase(s, s')
    ensures PathsOf(s) == PathsOf(s')
    ensures t.Valid() ==> t.Search(s) == t.Search(s')
  {
    hide SameButCase, ToLower, Split;
    LowerExactly(s, s');
    SameEnd(s, s');
    assert ValidAndSplitDomain(s) == ValidAndSplitDomain(s');
  }

  lemma SameEnd(s: string, s': string)
    requires SameButCase(s, s')
    ensures |s| == |s'| && (s != "" ==> (s[|s| - 1] == '.' <==> s'[|s'| - 1] == '.'))
  {
    assert s != "" ==> CasePair(s[|s| - 1], s'[|s'| - 1]);
  }
}
