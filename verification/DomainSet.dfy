/** The succinct form of a set of reversed domain names. Nodes are numbered breadth first; the
    edges leaving a node are a run of zeros closed by a one in `labelBitmap`, and the l-th zero
    carries `labels[l]` and leads to node l + 1. */
module DomainSet {
  import opened Sequences
  import opened Text
  import opened Wrappers
  import opened Bitmap
  import opened SortedKeys

  datatype DomainSet = DomainSet(leaves: seq<Word>, labelBitmap: seq<Word>, labels: string)

  /** A queued node: the keys from `s` to `e` share their first `col` bytes. */
  datatype QElt = QElt(s: nat, e: nat, col: nat)

  /** Node `k`: `first[k]` labels precede it, at least one for each earlier node but the root;
      `prefixes[k]` is the text on the way to it. */
  ghost predicate NodeOk(keys: seq<string>, ss: DomainSet, first: seq<nat>, prefixes: seq<string>, k: nat)
    requires k + 1 < |first| && k < |prefixes|
  {
    RunOk(ss, first, prefixes, k) && KeysOk(keys, ss, first, prefixes, k)
  }

  /** Its run in the bitmap and the nodes its labels lead to. */
  ghost predicate RunOk(ss: DomainSet, first: seq<nat>, prefixes: seq<string>, k: nat)
    requires k + 1 < |first| && k < |prefixes|
  {
    && k <= first[k] <= first[k + 1] <= |ss.labels| < |prefixes|
    && Bit(ss.labelBitmap, first[k + 1] + k)
    && (forall b :: first[k] + k <= b < first[k + 1] + k ==> !Bit(ss.labelBitmap, b))
    && (forall l :: first[k] <= l < first[k + 1] ==> prefixes[l + 1] == prefixes[k] + [ss.labels[l]])
    && (forall l, m :: first[k] <= l < m < first[k + 1] ==> ss.labels[l] < ss.labels[m])
  }

  /** Its prefix, its bytes and its leaf bit against the keys. */
  ghost predicate KeysOk(keys: seq<string>, ss: DomainSet, first: seq<nat>, prefixes: seq<string>, k: nat)
    requires k + 1 < |first| && k < |prefixes|
    requires first[k] <= first[k + 1] <= |ss.labels|
  {
    && HasPrefix(keys, prefixes[k])
    && (forall c :: HasPrefix(keys, prefixes[k] + [c]) ==> c in ss.labels[first[k]..first[k + 1]])
    && (Bit(ss.leaves, k) <==> prefixes[k] in keys)
    && AtMostOnce(keys, prefixes[k])
  }

  ghost predicate Encodes(keys: seq<string>, ss: DomainSet, first: seq<nat>, prefixes: seq<string>) {
    && |prefixes| == |ss.labels| + 1
    && |first| == |prefixes| + 1
    && first[0] == 0 && prefixes[0] == ""
    && first[|prefixes|] == |ss.labels|
    && (forall k :: 0 <= k < |prefixes| ==> NodeOk(keys, ss, first, prefixes, k))
    && (forall k :: 0 <= k < |prefixes| ==> k / 64 < |ss.leaves|)
  }

  ghost predicate Represents(ss: DomainSet, keys: seq<string>) {
    exists first, prefixes :: Encodes(keys, ss, first, prefixes)
  }

  // ---- rank and select on the layout ----

  /** Inside the run of node `k` exactly `k` ones lie behind. */
  lemma {:induction false} OnesInRun(keys: seq<string>, ss: DomainSet, first: seq<nat>, prefixes: seq<string>, k: nat,
                                     l: nat)
    requires Encodes(keys, ss, first, prefixes) && k < |prefixes|
    requires first[k] <= l <= first[k + 1]
    ensures Ones(ss.labelBitmap, l + k) == k
    decreases k, l
  {
    assert NodeOk(keys, ss, first, prefixes, k);
    if l > first[k] {
      OnesInRun(keys, ss, first, prefixes, k, l - 1);
      assert !Bit(ss.labelBitmap, l - 1 + k);
    } else if k > 0 {
      assert NodeOk(keys, ss, first, prefixes, k - 1);
      OnesInRun(keys, ss, first, prefixes, k - 1, first[k]);
      assert Bit(ss.labelBitmap, first[k] + k - 1);
    }
  }

  /** The child behind label `l` is node l + 1. */
  lemma ChildId(keys: seq<string>, ss: DomainSet, first: seq<nat>, prefixes: seq<string>, k: nat, l: nat)
    requires Encodes(keys, ss, first, prefixes) && k < |prefixes|
    requires first[k] <= l < first[k + 1]
    ensures (l + k + 1) / 64 < |ss.labelBitmap|
    ensures CountZeros(ss.labelBitmap, l + k + 1) == l + 1
  {
    assert NodeOk(keys, ss, first, prefixes, k);
    OnesInRun(keys, ss, first, prefixes, k, l + 1);
    assert (l + k + 1) / 64 <= (first[k + 1] + k) / 64;
  }

  /** The run of node `n` starts behind the one that closes node n - 1. */
  lemma RunStart(keys: seq<string>, ss: DomainSet, first: seq<nat>, prefixes: seq<string>, n: nat)
    requires Encodes(keys, ss, first, prefixes) && 0 < n < |prefixes|
    ensures Bit(ss.labelBitmap, first[n] + n - 1) && Ones(ss.labelBitmap, first[n] + n - 1) == n - 1
    ensures SelectIthOne(ss.labelBitmap, n - 1) + 1 == first[n] + n
  {
    assert NodeOk(keys, ss, first, prefixes, n - 1);
    hide KeysOk, SelectIthOne, Ones;
    OnesInRun(keys, ss, first, prefixes, n - 1, first[n]);
    SelectUnique(ss.labelBitmap, first[n] + n - 1);
  }

  // ---- every key has its node ----

  lemma {:induction false} NodeOfPrefix(keys: seq<string>, ss: DomainSet, first: seq<nat>, prefixes: seq<string>,
                                        p: string)
    returns (k: nat)
    requires Encodes(keys, ss, first, prefixes) && HasPrefix(keys, p)
    ensures k < |prefixes| && prefixes[k] == p
    decreases |p|
  {
    if p == "" {
      k := 0;
    } else {
      var q, c := p[..|p| - 1], p[|p| - 1];
      assert p == q + [c];
      var m := NodeOfPrefix(keys, ss, first, prefixes, q);
      Continuations(keys, ss, first, prefixes, m, c);
      var l :| first[m] <= l < first[m + 1] && ss.labels[l] == c;
      assert NodeOk(keys, ss, first, prefixes, m);
      assert prefixes[l + 1] == prefixes[m] + [ss.labels[l]];
      k := l + 1;
    }
  }

  /** A set is built only from keys without repetitions. */
  lemma NothingRepeats(keys: seq<string>, ss: DomainSet, first: seq<nat>, prefixes: seq<string>)
    requires Encodes(keys, ss, first, prefixes)
    ensures !Repeats(keys)
  {
    forall i, j | 0 <= i < j < |keys| ensures keys[i] != keys[j] {
      var k := NodeOfPrefix(keys, ss, first, prefixes, keys[i]);
      assert NodeOk(keys, ss, first, prefixes, k);
    }
  }

  // ---- the set decides the keys ----

  /** The node whose run holds label `l`, among the first `n`. */
  lemma {:induction false} RunOf(keys: seq<string>, ss: DomainSet, first: seq<nat>, prefixes: seq<string>, n: nat,
                                 l: nat)
    returns (k: nat)
    requires Encodes(keys, ss, first, prefixes) && n <= |prefixes| && l < first[n]
    ensures k < n && first[k] <= l < first[k + 1]
    decreases n
  {
    k := n - 1;
    if l < first[k] { k := RunOf(keys, ss, first, prefixes, n - 1, l); }
  }

  /** Both ends of a run are read off the bitmap. */
  lemma {:induction false} SameRuns(ss: DomainSet, keys: seq<string>, first: seq<nat>, prefixes: seq<string>,
                                    keys': seq<string>, first': seq<nat>, prefixes': seq<string>, n: nat)
    requires Encodes(keys, ss, first, prefixes) && Encodes(keys', ss, first', prefixes') && n <= |prefixes|
    ensures first[n] == first'[n]
  {
    if n > 0 {
      SameRuns(ss, keys, first, prefixes, keys', first', prefixes', n - 1);
      assert NodeOk(keys, ss, first, prefixes, n - 1) && NodeOk(keys', ss, first', prefixes', n - 1);
      assert Bit(ss.labelBitmap, first[n] + n - 1) && Bit(ss.labelBitmap, first'[n] + n - 1);
    }
  }

  lemma {:induction false} SamePrefixes(ss: DomainSet, keys: seq<string>, first: seq<nat>, prefixes: seq<string>,
                                        keys': seq<string>, first': seq<nat>, prefixes': seq<string>, n: nat)
    requires Encodes(keys, ss, first, prefixes) && Encodes(keys', ss, first', prefixes') && n < |prefixes|
    ensures prefixes[n] == prefixes'[n]
  {
    if n > 0 {
      var l := n - 1;
      var k := RunOf(keys, ss, first, prefixes, |prefixes|, l);
      SameRuns(ss, keys, first, prefixes, keys', first', prefixes', k);
      SameRuns(ss, keys, first, prefixes, keys', first', prefixes', k + 1);
      assert NodeOk(keys, ss, first, prefixes, k) && NodeOk(keys', ss, first', prefixes', k);
      SamePrefixes(ss, keys, first, prefixes, keys', first', prefixes', k);
      assert prefixes[l + 1] == prefixes[k] + [ss.labels[l]];
      assert prefixes'[l + 1] == prefixes'[k] + [ss.labels[l]];
    }
  }

  lemma KeyCarriesOver(ss: DomainSet, keys: seq<string>, first: seq<nat>, prefixes: seq<string>,
                       keys': seq<string>, first': seq<nat>, prefixes': seq<string>, key: string)
    requires Encodes(keys, ss, first, prefixes) && Encodes(keys', ss, first', prefixes')
    ensures key in keys ==> key in keys'
  {
    if key in keys {
      var n := NodeOfPrefix(keys, ss, first, prefixes, key);
      SamePrefixes(ss, keys, first, prefixes, keys', first', prefixes', n);
      assert NodeOk(keys, ss, first, prefixes, n) && NodeOk(keys', ss, first', prefixes', n);
    }
  }

  /** No key is lost and none is added: a set represents one collection of keys. */
  lemma SetDecidesKeys(ss: DomainSet, keys: seq<string>, keys': seq<string>, key: string)
    requires Represents(ss, keys) && Represents(ss, keys')
    ensures key in keys <==> key in keys'
  {
    hide Encodes;
    var first, prefixes :| Encodes(keys, ss, first, prefixes);
    var first', prefixes' :| Encodes(keys', ss, first', prefixes');
    KeyCarriesOver(ss, keys, first, prefixes, keys', first', prefixes', key);
    KeyCarriesOver(ss, keys', first', prefixes', keys, first, prefixes, key);
  }

  // ---- the walk ----

  /** What the walk computes on the set of keys: byte by byte, a label before '+' is followed
      first, then '+' accepts, then a label behind '+' is followed. */
  ghost predicate Walk(keys: seq<string>, text: string, i: nat)
    requires i <= |text|
    decreases |text| - i
  {
    if i == |text| then text in keys
    else if text[i] < '+' && HasPrefix(keys, text[..i + 1]) then Walk(keys, text, i + 1)
    else if HasPrefix(keys, text[..i] + "+") then true
    else HasPrefix(keys, text[..i + 1]) && Walk(keys, text, i + 1)
  }

  /** The run lists exactly the bytes that continue the prefix. */
  lemma Continuations(keys: seq<string>, ss: DomainSet, first: seq<nat>, prefixes: seq<string>, k: nat, c: char)
    requires Encodes(keys, ss, first, prefixes) && k < |prefixes|
    ensures first[k] <= first[k + 1] <= |ss.labels|
    ensures HasPrefix(keys, prefixes[k] + [c]) <==> InRun(ss, first, k, c)
  {
    assert NodeOk(keys, ss, first, prefixes, k);
    var run := ss.labels[first[k]..first[k + 1]];
    if HasPrefix(keys, prefixes[k] + [c]) {
      var m :| 0 <= m < |run| && run[m] == c;
      assert ss.labels[first[k] + m] == c;
    }
    if l :| first[k] <= l < first[k + 1] && ss.labels[l] == c {
      assert prefixes[l + 1] == prefixes[k] + [c];
      assert NodeOk(keys, ss, first, prefixes, l + 1);
    }
  }

  ghost predicate InRun(ss: DomainSet, first: seq<nat>, k: nat, c: char)
    requires k + 1 < |first| && first[k] <= first[k + 1] <= |ss.labels|
  {
    exists l :: first[k] <= l < first[k + 1] && ss.labels[l] == c
  }

  /** What the labels of a node say about the next byte. */
  datatype Verdict = Absent | Accepts | Follows

  /** The scan of one node's run, from its first label on. */
  method Scan(ss: DomainSet, nodeId: nat, start: nat, c: char, ghost first: seq<nat>, ghost prefixes: seq<string>)
    returns (v: Verdict, bmIdx: nat)
    requires nodeId + 1 < |first| && nodeId < |prefixes| && RunOk(ss, first, prefixes, nodeId)
    requires start == first[nodeId] + nodeId && '*' !in ss.labels
    ensures v == Accepts <==> InRun(ss, first, nodeId, '+') && !(c < '+' && InRun(ss, first, nodeId, c))
    ensures v == Follows <==> InRun(ss, first, nodeId, c) && (c < '+' || !InRun(ss, first, nodeId, '+'))
    ensures v == Follows ==> first[nodeId] <= bmIdx - nodeId < first[nodeId + 1] && ss.labels[bmIdx - nodeId] == c
  {
    bmIdx := start;
    while true
      invariant first[nodeId] <= bmIdx - nodeId <= first[nodeId + 1]
      invariant forall l :: first[nodeId] <= l < bmIdx - nodeId ==> ss.labels[l] != c && ss.labels[l] != '+'
      decreases first[nodeId + 1] + nodeId - bmIdx
    {
      if GetBit(ss.labelBitmap, bmIdx) {
        assert Bit(ss.labelBitmap, bmIdx);
        return Absent, bmIdx;
      }
      assert InRun(ss, first, nodeId, ss.labels[bmIdx - nodeId]);
      if ss.labels[bmIdx - nodeId] == '+' {
        return Accepts, bmIdx;
      } else if ss.labels[bmIdx - nodeId] == c {
        return Follows, bmIdx;
      }
      bmIdx := bmIdx + 1;
    }
  }

  /** From a label to the node behind it and the start of that node's run. */
  method Child(ss: DomainSet, nodeId: nat, bmIdx: nat,
               ghost keys: seq<string>, ghost first: seq<nat>, ghost prefixes: seq<string>)
    returns (id: nat, start: nat)
    requires Encodes(keys, ss, first, prefixes) && nodeId < |prefixes|
    requires nodeId <= bmIdx && first[nodeId] <= bmIdx - nodeId < first[nodeId + 1] <= |ss.labels|
    ensures id < |prefixes| && start == first[id] + id
    ensures prefixes[id] == prefixes[nodeId] + [ss.labels[bmIdx - nodeId]]
  {
    assert NodeOk(keys, ss, first, prefixes, nodeId);
    ghost var l := bmIdx - nodeId;
    assert prefixes[l + 1] == prefixes[nodeId] + [ss.labels[l]];
    ChildId(keys, ss, first, prefixes, nodeId, l);
    id := CountZeros(ss.labelBitmap, bmIdx + 1);
    RunStart(keys, ss, first, prefixes, id);
    start := SelectIthOne(ss.labelBitmap, id - 1) + 1;
  }

  lemma {:induction false} WalkSame(keys: seq<string>, keys': seq<string>, text: string, i: nat)
    requires i <= |text| && forall k :: k in keys <==> k in keys'
    ensures Walk(keys, text, i) <==> Walk(keys', text, i)
    decreases |text| - i
  {
    forall p ensures HasPrefix(keys, p) <==> HasPrefix(keys', p) { SamePrefixTests(keys, keys', p); }
    if i < |text| { WalkSame(keys, keys', text, i + 1); }
  }

  lemma SamePrefixTests(keys: seq<string>, keys': seq<string>, p: string)
    requires forall k :: k in keys <==> k in keys'
    ensures HasPrefix(keys, p) <==> HasPrefix(keys', p)
  {
    if j :| 0 <= j < |keys| && p <= keys[j] { assert keys[j] in keys'; }
    if j :| 0 <= j < |keys'| && p <= keys'[j] { assert keys'[j] in keys; }
  }

  /** What the set says of a name: the walk over the keys it represents accepts the reversed name. */
  ghost predicate Says(ds: Option<DomainSet>, domain: string) {
    ds.Some? && exists keys :: Represents(ds.value, keys) && Walk(keys, ToLower(ReverseSeq(domain)), 0)
  }

  /** It says so by any list of its keys. */
  lemma SaysByKeys(ds: Option<DomainSet>, domain: string, keys: seq<string>)
    requires ds.Some? && Represents(ds.value, keys)
    ensures Says(ds, domain) <==> Walk(keys, ToLower(ReverseSeq(domain)), 0)
  {
    hide Represents, Walk;
    if Says(ds, domain) {
      var keys' :| Represents(ds.value, keys') && Walk(keys', ToLower(ReverseSeq(domain)), 0);
      forall k ensures k in keys <==> k in keys' { SetDecidesKeys(ds.value, keys, keys', k); }
      WalkSame(keys, keys', ToLower(ReverseSeq(domain)), 0);
    }
  }

  /** A set of some keys, without the single-label wildcard. */
  ghost predicate Legible(ds: Option<DomainSet>) {
    ds.Some? ==> '*' !in ds.value.labels && exists keys :: Represents(ds.value, keys)
  }

  method Has(ds: Option<DomainSet>, domain: string) returns (r: bool)
    requires Legible(ds)
    ensures r <==> Says(ds, domain)
  {
    if ds.None? {
      return false;
    }
    ghost var keys :| Represents(ds.value, keys);
    r := WalkSet(ds.value, ToLower(ReverseSeq(domain)), keys);
    SaysByKeys(ds, domain, keys);
  }

  /** The loop over the bytes of the reversed name. */
  method WalkSet(ss: DomainSet, key: string, ghost keys: seq<string>) returns (r: bool)
    requires Represents(ss, keys) && '*' !in ss.labels
    ensures r <==> Walk(keys, key, 0)
  {
    ghost var first, prefixes :| Encodes(keys, ss, first, prefixes);
    var nodeId: nat, bmIdx: nat := 0, 0;
    var i := 0;
    while i < |key|
      invariant 0 <= i <= |key|
      invariant nodeId < |prefixes| && bmIdx == first[nodeId] + nodeId
      invariant prefixes[nodeId] == key[..i]
      invariant Walk(keys, key, 0) <==> Walk(keys, key, i)
    {
      assert key[..i + 1] == key[..i] + [key[i]];
      assert NodeOk(keys, ss, first, prefixes, nodeId);
      Continuations(keys, ss, first, prefixes, nodeId, '+');
      Continuations(keys, ss, first, prefixes, nodeId, key[i]);
      var v, at := Scan(ss, nodeId, bmIdx, key[i], first, prefixes);
      if v == Absent {
        return false;
      }
      if v == Accepts {
        return true;
      }
      nodeId, bmIdx := Child(ss, nodeId, at, keys, first, prefixes);
      i := i + 1;
    }
    assert prefixes[nodeId] == key;
    assert NodeOk(keys, ss, first, prefixes, nodeId);
    assert Bit(ss.leaves, nodeId) <==> prefixes[nodeId] in keys;
    assert Walk(keys, key, i) <==> key in keys;
    return GetBit(ss.leaves, nodeId);
  }
}
