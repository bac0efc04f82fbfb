/** Has on the set built from a trie against Search on the trie. */
module DomainSetAnswers {
  import opened Sequences
  import opened Text
  import opened Wrappers
  import opened DomainPatterns
  import opened DomainTexts
  import opened SortedKeys
  import opened DomainSet
  import opened DomainAgreement

  // ---- what a built set brings along ----

  /** A spelled wildcard ends in the label "+", which no plain pattern has. */
  lemma PlainNoCollision(patterns: set<Path>)
    requires Plain(patterns)
    ensures NoCollision(patterns)
  {
    forall p | p in patterns && |p| >= 2 && p[|p| - 1] == "" ensures Spelled(p) !in patterns {
      var q := Spelled(p);
      assert q[|q| - 1] == "+" && !PlainLabel(q[|q| - 1]);
    }
  }

  lemma {:induction false} StarFreeText(path: Path, j: nat)
    requires forall i :: 0 <= i < |path| ==> '*' !in path[i]
    requires j < |BackKey(path)|
    ensures BackKey(path)[j] != '*'
  {
    var n := |path| - 1;
    var tail := ReverseSeq(path[n]);
    assert forall i :: 0 <= i < |tail| ==> tail[i] in path[n];
    if n > 0 {
      var init := BackKey(path[..n]);
      assert BackKey(path) == init + "." + tail;
      if j < |init| { StarFreeText(path[..n], j); }
    }
  }

  lemma StarFreeKey(p: Path, j: nat)
    requires WellFormed(p) && |p| > 0 && forall i :: 0 <= i < |p| ==> PlainLabel(p[i])
    requires j < |KeyOf(p)|
    ensures KeyOf(p)[j] != '*'
  {
    hide KeyOf, BackKey;
    KeyIsSpelled(p);
    StarFreeText(Spelled(p), j);
  }

  /** The labels of a set of plain patterns are bytes of their keys. */
  lemma StarFreeLabels(patterns: set<Path>, keys: seq<string>, ss: DomainSet)
    requires Plain(patterns) && KeysFor(patterns, keys) && Represents(ss, keys)
    ensures '*' !in ss.labels
  {
    hide KeyOf;
    var first, prefixes :| Encodes(keys, ss, first, prefixes);
    forall l | 0 <= l < |ss.labels| ensures ss.labels[l] != '*' {
      var k := RunOf(keys, ss, first, prefixes, |prefixes|, l);
      assert NodeOk(keys, ss, first, prefixes, k) && NodeOk(keys, ss, first, prefixes, l + 1);
      assert prefixes[l + 1] == prefixes[k] + [ss.labels[l]];
      ByteOfKey(patterns, keys, prefixes[l + 1]);
    }
  }

  lemma ByteOfKey(patterns: set<Path>, keys: seq<string>, x: string)
    requires Plain(patterns) && KeysFor(patterns, keys) && HasPrefix(keys, x) && x != ""
    ensures x[|x| - 1] != '*'
  {
    hide KeyOf, WellFormed, PlainLabel, Ascending;
    var j :| 0 <= j < |keys| && x <= keys[j];
    assert keys[j] in keys;
    var p :| p in patterns && |p| > 0 && KeyOf(p) == keys[j];
    StarFreeKey(p, |x| - 1);
  }

  lemma BuiltIsLegible(patterns: set<Path>, ds: Option<DomainSet>, keys: seq<string>)
    requires Plain(patterns) && BuiltFor(ds, patterns, keys)
    ensures Legible(ds)
  {
    hide Plain, KeysFor, Represents;
    if ds.Some? { StarFreeLabels(patterns, keys, ds.value); }
  }

  lemma SaysOfBuilt(patterns: set<Path>, ds: Option<DomainSet>, keys: seq<string>, domain: string)
    requires BuiltFor(ds, patterns, keys) && ValidQuery(domain)
    ensures Says(ds, domain) <==> Walk(keys, TextOf(domain), 0)
  {
    hide KeysFor, Represents;
    if ds.Some? { SaysByKeys(ds, domain, keys); }
  }

  // ---- the theorems ----

  /** The set and the trie answer alike on every valid query. */
  ghost predicate AnswerAlike<T(0)>(t: DomainTrie.DomainTrie<T>, ds: Option<DomainSet>)
    reads t, t.nodes.Values
    requires t.Valid()
  {
    forall d :: ValidQuery(d) ==> (Says(ds, d) <==> t.Search(d) != null)
  }

  /** What Has says of the set built from a trie is what Search answers, on every valid query, if and
      only if "+" alone is not stored and no wildcard is shadowed. */
  lemma HasIsSearchExactly<T(0)>(t: DomainTrie.DomainTrie<T>, ds: Option<DomainSet>, keys: seq<string>)
    requires t.Valid() && Plain(t.Contents().Keys) && BuiltFor(ds, t.Contents().Keys, keys)
    ensures Legible(ds)
    ensures AnswerAlike(t, ds) <==> [""] !in t.Contents() && !Shadowed(keys)
  {
    hide Plain, BuiltFor, Shadowed, Legible;
    BuiltIsLegible(t.Contents().Keys, ds, keys);
    BuiltForKeys(t.Contents().Keys, ds, keys);
    AgreeExactly(t.Contents().Keys, keys);
    AlikeIsAgree(t, ds, keys);
  }

  lemma BuiltForKeys(patterns: set<Path>, ds: Option<DomainSet>, keys: seq<string>)
    requires BuiltFor(ds, patterns, keys)
    ensures KeysFor(patterns, keys)
  {
  }

  lemma AlikeIsAgree<T(0)>(t: DomainTrie.DomainTrie<T>, ds: Option<DomainSet>, keys: seq<string>)
    requires t.Valid() && BuiltFor(ds, t.Contents().Keys, keys)
    ensures AnswerAlike(t, ds) <==> Agree(t.Contents().Keys, keys)
  {
    forall d | ValidQuery(d)
      ensures Says(ds, d) <==> Walk(keys, TextOf(d), 0)
      ensures t.Search(d) != null <==> exists p :: p in t.Contents().Keys && Covers(p, d)
    {
      hide *;
      SaysOfBuilt(t.Contents().Keys, ds, keys, d);
      t.SearchIsBest(d);
    }
    hide Says, Walk, BuiltFor, ValidQuery, Covers;
  }

  /** Builds the set and asks it. */
  method BuildAndAsk<T(0)>(t: DomainTrie.DomainTrie<T>, domain: string) returns (r: bool, ghost keys: seq<string>)
    requires t.Valid() && Plain(t.Contents().Keys) && ValidQuery(domain)
    ensures KeysFor(t.Contents().Keys, keys)
    ensures [""] !in t.Contents() && !Shadowed(keys) ==> (r <==> t.Search(domain) != null)
  {
    hide Plain, NoCollision, Shadowed, KeysFor, Represents, ValidQuery, Legible, Says;
    PlainNoCollision(t.Contents().Keys);
    var built;
    built, keys := NewDomainSet(t);
    HasIsSearchExactly(t, built.value, keys);
    r := Has(built.value, domain);
  }

  /** With all label bytes above "+" and no lone "+" the built set answers like the trie. */
  method AskHighBytes<T(0)>(t: DomainTrie.DomainTrie<T>, domain: string) returns (r: bool)
    requires t.Valid() && [""] !in t.Contents() && ValidQuery(domain)
    requires forall p :: p in t.Contents() ==> forall i :: 0 <= i < |p| ==> HighBytes(p[i])
    ensures r <==> t.Search(domain) != null
  {
    hide Plain, Shadowed, KeysFor, ValidQuery, Agree;
    HighIsPlain(t.Contents().Keys);
    ghost var keys;
    r, keys := BuildAndAsk(t, domain);
    HighBytesAgree(t.Contents().Keys, keys);
  }

  lemma HighIsPlain(patterns: set<Path>)
    requires forall p :: p in patterns ==> WellFormed(p) && forall i :: 0 <= i < |p| ==> HighBytes(p[i])
    ensures Plain(patterns)
  {
    forall p, i | p in patterns && 0 <= i < |p| ensures PlainLabel(p[i]) {
      assert HighBytes(p[i]);
    }
  }

  // ---- where the build reads out of range ----

  lemma PlusInFront(domain: string)
    requires ValidQuery(domain)
    ensures ValidQuery("+." + domain)
    ensures ValidAndSplitDomain("+." + domain).value == ["+"] + ValidAndSplitDomain(domain).value
  {
    hide ValidAndSplitDomain, Labels;
    WildcardsAreLabels();
    NameInFront("+", domain);
    assert "+" + "." + domain == "+." + domain;
    SplitParts(domain);
    SplitParts("+." + domain);
  }

  /** "+.q" stores q and the wildcard below it. */
  lemma PathsOfPlus(q: string)
    requires ValidQuery(q)
    ensures var stem := ReverseSeq(ValidAndSplitDomain(q).value);
            stem != [] && PathsOf("+." + q) == {stem, stem + [""]}
  {
    hide ValidAndSplitDomain, ReverseSeq;
    var parts := ValidAndSplitDomain(q).value;
    PlusInFront(q);
    assert (["+"] + parts)[0 := ""] == [""] + parts && (["+"] + parts)[1..] == parts;
    ReverseCons("", parts);
  }

  /** Storing "+.q" and "+.+.q" makes two patterns with one key. */
  lemma CollidingNames(q: string)
    requires ValidQuery(q)
    ensures !NoCollision(PathsOf("+." + q) + PathsOf("+.+." + q))
  {
    hide ValidAndSplitDomain, PathsOf;
    var parts := ValidAndSplitDomain(q).value;
    var stem := ReverseSeq(parts);
    PlusInFront(q);
    PathsOfPlus(q);
    PathsOfPlus("+." + q);
    assert "+." + ("+." + q) == "+.+." + q;
    ReverseCons("+", parts);
    var p := stem + [""];
    assert p[..|p| - 1] == stem;
    assert Spelled(p) == stem + ["+"];
    assert p in PathsOf("+." + q) && Spelled(p) in PathsOf("+.+." + q);
  }
}
