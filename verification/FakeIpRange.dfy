/** Which addresses of a network a fake-ip pool hands out, and which it recognises. */
module FakeIpRange {
  import opened Powers
  import opened Text
  import opened FakeIpSpec
  import opened FakeIpRuns
  import opened NetIp

  /** The network address: the first of the block of addresses. */
  function Base(p: Prefix): nat
    requires ValidPrefix(p)
  {
    p.addr.n / Pow2(HostBits(p)) * Pow2(HostBits(p))
  }

  /** The last address of the pool: the last one of the block, or of the smaller block that the computation
      fills when the prefix is IPv6 and has at most 32 bits. */
  function LastOf(p: Prefix): nat
    requires ValidPrefix(p)
  {
    var m := Pow2(if p.addr.is4 || p.bits > 32 then HostBits(p) else 32 - p.bits);
    p.addr.n / m * m + m - 1
  }

  lemma PoolInNumbers(p: Prefix, size: int)
    requires ValidPrefix(p)
    ensures PoolNetwork(p, size).Some? <==> Base(p) + 4 < LastOf(p)
    ensures PoolNetwork(p, size).Some? ==>
      var net := PoolNetwork(p, size).value;
      && net.gateway == Addr(p.addr.is4, Base(p) + 1)
      && net.ring == Ring(Addr(p.addr.is4, Base(p) + 4), Addr(p.addr.is4, LastOf(p)), size)
  {
    hide Pow2, OrLow, ClearLow;
    LowInNumbers(p.addr.n, HostBits(p));
    LowInNumbers(p.addr.n, FilledBits(p));
  }

  /** An address is in the prefix exactly if it is one of the block that starts at the network address. */
  lemma ContainsInNumbers(p: Prefix, a: Addr)
    requires ValidPrefix(p)
    ensures Contains(p, a) <==> a.is4 == p.addr.is4 && Base(p) <= a.n < Base(p) + Pow2(HostBits(p))
  {
    hide Pow2, OrLow, ClearLow, ShiftRight;
    var h := HostBits(p);
    LowInNumbers(p.addr.n, h);
    ShiftIsQuotient(p.addr.n, h);
    ShiftIsQuotient(a.n, h);
    OrLowSize(p.addr.n, h, Width(p.addr.is4));
    if Contains(p, a) { OrLowGreatestAt(p.addr.n, h, a.n); }
    if Base(p) <= a.n < Base(p) + Pow2(h) { BetweenSameHigh(p.addr.n, h, a.n); }
  }

  /** Which addresses are recognised as fake. */
  lemma FakeExactly(mode: Mode, p: Prefix, size: int, a: Addr)
    requires ValidPrefix(p)
    ensures IsFakeIP(mode, p, PoolNetwork(p, size), a) <==>
      && mode == FakeIp && Base(p) + 4 < LastOf(p)
      && a.is4 == p.addr.is4 && Base(p) <= a.n < Base(p) + Pow2(HostBits(p))
      && a.n != Base(p) + 1 && a.n != LastOf(p)
  {
    hide PoolNetwork, Contains, Base, LastOf, Pow2;
    PoolInNumbers(p, size);
    ContainsInNumbers(p, a);
  }

  // ---- which addresses are handed out ----

  function Name(n: nat): (s: string)
    ensures |s| == n && ToLower(s) == s
  {
    seq(n, i => 'a')
  }

  /** Lookups of `n` different names. */
  function Asked(n: nat): seq<Op> {
    if n == 0 then [] else Asked(n - 1) + [Look(Name(n - 1))]
  }

  ghost predicate Shorter(pairs: Pairs<string, Addr>, n: nat) {
    forall i :: 0 <= i < |pairs| ==> |pairs[i].0| < n
  }

  lemma OneMoreName(ring: Ring, st: State, n: nat)
    requires Inv(ring, st) && Shorter(st.pairs, n) && ring.first.n > 0
    requires st.offset == Addr(ring.first.is4, ring.first.n + n - 1) && ring.first.n + n < ring.last.n
    ensures Lookup(ring, st, Name(n)).1 == Addr(ring.first.is4, ring.first.n + n)
    ensures Lookup(ring, st, Name(n)).0.offset == Addr(ring.first.is4, ring.first.n + n)
    ensures Shorter(Lookup(ring, st, Name(n)).0.pairs, n + 1)
  {
    hide Name, OneToOne;
    var ip := Addr(ring.first.is4, ring.first.n + n);
    assert PlaceOf(st.pairs, Name(n)) < 0;
    FreedIsFree(st.pairs, ip, Name(n));
    hide Freed, PlaceOf;
    var kept := Freed(st.pairs, ip);
    forall i | 0 <= i < |kept| ensures |kept[i].0| < n { assert kept[i] in kept; }
  }

  lemma {:induction false} AskedGoes(ring: Ring, n: nat)
    requires ring.first.n > 0 && Inv(ring, Start(ring)) && ring.first.n + n <= ring.last.n
    ensures var st := Run(ring, Start(ring), Asked(n));
      Inv(ring, st) && Shorter(st.pairs, n) && st.offset == Addr(ring.first.is4, ring.first.n + n - 1)
  {
    hide Inv, Run, Shorter, Lookup, Name;
    RunKeepsInv(ring, Start(ring), Asked(n));
    if n == 0 {
      RunNothing(ring, Start(ring));
      NothingStored(ring);
    } else {
      AskedGoes(ring, n - 1);
      RunSnoc(ring, Start(ring), Asked(n - 1), Look(Name(n - 1)));
      OneMoreName(ring, Run(ring, Start(ring), Asked(n - 1)), n - 1);
    }
  }

  lemma NothingStored(ring: Ring)
    requires ring.first.n > 0
    ensures Shorter(Start(ring).pairs, 0)
  {
  }

  ghost predicate HandedOut(ring: Ring, a: Addr)
    requires ring.first.n > 0
  {
    exists ops, host :: Lookup(ring, Run(ring, Start(ring), ops), host).1 == a
  }

  /** A fresh pool hands an address out in some run exactly if it lies from the fourth behind the network
      address up to the one before the last. */
  lemma HandedOutExactly(p: Prefix, size: int, a: Addr)
    requires ValidPrefix(p) && PoolNetwork(p, size).Some?
    ensures HandedOut(PoolNetwork(p, size).value.ring, a) <==>
            a.is4 == p.addr.is4 && Base(p) + 4 <= a.n < LastOf(p)
  {
    hide Base, LastOf, PoolNetwork, Lookup, Run, Inv;
    PoolInNumbers(p, size);
    var ring := PoolNetwork(p, size).value.ring;
    StartKeepsInv(p, size);
    if HandedOut(ring, a) {
      var ops, host :| Lookup(ring, Run(ring, Start(ring), ops), host).1 == a;
      RunKeepsInv(ring, Start(ring), ops);
      LookupKeepsInv(ring, Run(ring, Start(ring), ops), host);
    }
    if a.is4 == p.addr.is4 && Base(p) + 4 <= a.n < LastOf(p) {
      var n := a.n - ring.first.n;
      AskedGoes(ring, n);
      OneMoreName(ring, Run(ring, Start(ring), Asked(n)), n);
      assert Lookup(ring, Run(ring, Start(ring), Asked(n)), Name(n)).1 == a;
    }
  }
}
