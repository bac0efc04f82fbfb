/** Who gets an address, and to whom it leads back: the answers of a pool over whole runs. */
module FakeIpAnswers {
  import opened Text
  import opened Wrappers
  import opened FakeIpSpec
  import opened FakeIpRuns

  /** The pair at `i` has become the most recent one. */
  predicate Moved(before: Pairs<string, Addr>, after: Pairs<string, Addr>, i: nat) {
    i < |before| && after == before[..i] + before[i + 1..] + [before[i]]
  }

  lemma PairOfAddress(pairs: Pairs<string, Addr>, a: Addr)
    requires OneToOne(pairs)
    ensures var i := PlaceOf(Swap(pairs), a);
      if i >= 0 then pairs[i].1 == a && forall h :: (h, a) in pairs <==> h == pairs[i].0
      else forall h :: (h, a) !in pairs
  {
    hide PlaceOf;
    var i := PlaceOf(Swap(pairs), a);
    if i >= 0 { assert pairs[i] == (pairs[i].0, a); }
    forall h | (h, a) in pairs ensures i >= 0 && h == pairs[i].0 {
      var j :| 0 <= j < |pairs| && pairs[j] == (h, a);
      assert Swap(pairs)[j].0 == a;
    }
  }

  /** An address leads back to the host of its pair and to no other; the pair becomes the most recent one.
      An address without a pair leads nowhere and changes nothing. */
  lemma LookBackExactly(st: State, a: Addr)
    requires OneToOne(st.pairs)
    ensures var (t, r) := LookBack(st, a);
      && (forall h :: r == Some(h) <==> (h, a) in st.pairs)
      && (r.None? ==> t == st)
      && (r.Some? ==> t == st.(pairs := t.pairs)
                      && exists i: nat :: Moved(st.pairs, t.pairs, i) && st.pairs[i] == (r.value, a))
    ensures Exist(st, a) <==> exists h :: (h, a) in st.pairs
  {
    PairOfAddress(st.pairs, a);
    hide OneToOne;
    var i := PlaceOf(Swap(st.pairs), a);
    if i >= 0 {
      assert (st.pairs[i].0, a) in st.pairs;
      assert Moved(st.pairs, LookBack(st, a).0.pairs, i);
    }
  }

  /** A host gets the address of its pair, which becomes the most recent one, or else the next address of
      the ring, whose old pair goes. */
  lemma LookupExactly(ring: Ring, st: State, host: string)
    requires Inv(ring, st)
    ensures var (t, a) := Lookup(ring, st, host); var h := ToLower(host);
      && (forall b :: (h, b) in st.pairs ==>
            && a == b && t == st.(pairs := t.pairs)
            && exists i: nat :: Moved(st.pairs, t.pairs, i) && st.pairs[i] == (h, b))
      && ((forall b :: (h, b) !in st.pairs) ==>
            && a == t.offset
            && a == Addr(ring.first.is4, if st.offset.n + 1 < ring.last.n then st.offset.n + 1 else ring.first.n)
            && forall p :: p in t.pairs ==> p == (h, a) || (p in st.pairs && p.1 != a))
  {
    var h := ToLower(host);
    var i := PlaceOf(st.pairs, h);
    if i >= 0 {
      assert st.pairs[i] == (h, st.pairs[i].1);
      assert Moved(st.pairs, Lookup(ring, st, host).0.pairs, i);
      forall b | (h, b) in st.pairs ensures b == st.pairs[i].1 {
        var j :| 0 <= j < |st.pairs| && st.pairs[j] == (h, b);
      }
    } else {
      FreedIsFree(st.pairs, Advance(ring, st.offset), h);
    }
  }

  /** Of the lookups that were answered with `a`, the `i`-th operation is the last one, and its host is `h`
      but for case. */
  ghost predicate LastHolder(ring: Ring, st: State, ops: seq<Op>, i: nat, h: string, a: Addr) {
    && i < |ops| && Gives(ring, st, ops, i, a) && ToLower(ops[i].host) == h
    && forall j :: i < j < |ops| ==> !Gives(ring, st, ops, j, a) || ToLower(ops[j].host) == h
  }

  /** The `i`-th operation is a lookup answered with `a`. */
  ghost predicate Gives(ring: Ring, st: State, ops: seq<Op>, i: nat, a: Addr)
    requires i < |ops|
  {
    ops[i].Look? && Lookup(ring, Run(ring, st, ops[..i]), ops[i].host).1 == a
  }

  lemma HolderStays(ring: Ring, st: State, ops: seq<Op>, op: Op, i: nat, h: string, a: Addr)
    requires LastHolder(ring, st, ops, i, h, a)
    requires op.Look? ==> Lookup(ring, Run(ring, st, ops), op.host).1 != a || ToLower(op.host) == h
    ensures LastHolder(ring, st, ops + [op], i, h, a)
  {
    hide Run, Lookup;
    var more := ops + [op];
    forall j | 0 <= j < |ops| ensures Gives(ring, st, more, j, a) <==> Gives(ring, st, ops, j, a) {
      assert more[..j] == ops[..j];
    }
    assert more[..|ops|] == ops;
  }

  /** In every run of a pool that starts empty, every pair it holds was handed out, and to the host that got
      its address last. */
  lemma {:induction false} PairsWereGiven(ring: Ring, st: State, ops: seq<Op>, p: (string, Addr)) returns (i: nat)
    requires Inv(ring, st) && st.pairs == [] && p in Run(ring, st, ops).pairs
    ensures LastHolder(ring, st, ops, i, p.0, p.1)
    decreases |ops|
  {
    hide Run, Lookup, LookBack, Exist, LastHolder, Inv;
    if ops == [] {
      RunNothing(ring, st);
      assert false;
    } else {
      var n := |ops| - 1;
      var before, op := ops[..n], ops[n];
      assert ops == before + [op];
      RunSnoc(ring, st, before, op);
      RunKeepsInv(ring, st, before);
      var now := Run(ring, st, before);
      PairBefore(ring, now, op, p);
      if p in now.pairs {
        i := PairsWereGiven(ring, st, before, p);
        HolderStays(ring, st, before, op, i, p.0, p.1);
      } else {
        i := n;
        JustGiven(ring, st, before, op, p);
      }
    }
  }

  lemma JustGiven(ring: Ring, st: State, ops: seq<Op>, op: Op, p: (string, Addr))
    requires op.Look? && p == (ToLower(op.host), Lookup(ring, Run(ring, st, ops), op.host).1)
    ensures LastHolder(ring, st, ops + [op], |ops|, p.0, p.1)
  {
    hide Run, Lookup;
    assert (ops + [op])[..|ops|] == ops;
  }

  /** Where a pair comes from, and why no lookup gives its address to another host. */
  lemma PairBefore(ring: Ring, st: State, op: Op, p: (string, Addr))
    requires Inv(ring, st) && p in Step(ring, st, op).pairs
    ensures p !in st.pairs ==> op.Look? && p == (ToLower(op.host), Lookup(ring, st, op.host).1)
    ensures op.Look? ==> Lookup(ring, st, op.host).1 != p.1 || ToLower(op.host) == p.0
  {
    hide Lookup, LookBack, Exist;
    match op
    case Look(host) => LookupPairs(ring, st, host, p);
    case Back(ip) => LookBackExactly(st, ip); MovedPairs(st.pairs, LookBack(st, ip).0.pairs, p);
    case Ask(ip) =>
  }

  lemma MovedPairs(before: Pairs<string, Addr>, after: Pairs<string, Addr>, p: (string, Addr))
    ensures (exists i: nat :: Moved(before, after, i)) ==> (p in after <==> p in before)
  {
    if i: nat :| Moved(before, after, i) {
      assert before == before[..i] + [before[i]] + before[i + 1..];
    }
  }

  lemma LookupPairs(ring: Ring, st: State, host: string, p: (string, Addr))
    requires Inv(ring, st) && p in Lookup(ring, st, host).0.pairs
    ensures p in st.pairs || p == (ToLower(host), Lookup(ring, st, host).1)
    ensures Lookup(ring, st, host).1 != p.1 || ToLower(host) == p.0
  {
    LookupExactly(ring, st, host);
    InvOneToOne(ring, st);
    hide Lookup, Inv, OneToOne, Moved, ToLower;
    var h, t := ToLower(host), Lookup(ring, st, host).0;
    if b :| (h, b) in st.pairs {
      MovedPairs(st.pairs, t.pairs, p);
      if p.1 == b { SamePair(st.pairs, (h, b), p); }
    }
  }

  lemma SamePair(pairs: Pairs<string, Addr>, p: (string, Addr), q: (string, Addr))
    requires OneToOne(pairs) && p in pairs && q in pairs && p.1 == q.1
    ensures p == q
  {
  }

  /** In every run of an empty pool, an address leads back to a host only if it was handed out, and then to
      the host that got it last, in lower case. */
  lemma LeadsToLastHolder(ring: Ring, st: State, ops: seq<Op>, a: Addr)
    requires Inv(ring, st) && st.pairs == []
    ensures var r := LookBack(Run(ring, st, ops), a).1;
      r.Some? ==> exists i: nat :: LastHolder(ring, st, ops, i, r.value, a)
    ensures Exist(Run(ring, st, ops), a) ==> exists i: nat, h :: LastHolder(ring, st, ops, i, h, a)
  {
    hide Run, LookBack, Exist, LastHolder, Inv;
    RunKeepsInv(ring, st, ops);
    InvOneToOne(ring, Run(ring, st, ops));
    LookBackExactly(Run(ring, st, ops), a);
    var s := Run(ring, st, ops);
    if h :| (h, a) in s.pairs {
      var i := PairsWereGiven(ring, st, ops, (h, a));
    }
  }
}
