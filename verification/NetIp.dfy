/** The range of a fake-ip network: its last address, computed on two 64-bit words, and the
    test that recognises the pool's addresses. */
module NetIp {
  import opened Powers
  import opened Text
  import opened Wrappers
  import opened FakeIpSpec
  import FakeIpRuns

  /** `x` with its `k` lowest bits set. */
  function OrLow(x: nat, k: nat): nat {
    if k == 0 then x else 2 * OrLow(x / 2, k - 1) + 1
  }

  /** `x` with its `k` lowest bits cleared. */
  function ClearLow(x: nat, k: nat): nat {
    if k == 0 then x else 2 * ClearLow(x / 2, k - 1)
  }

  datatype Prefix = Prefix(addr: Addr, bits: nat)

  function Width(is4: bool): nat {
    if is4 then 32 else 128
  }

  predicate ValidAddr(a: Addr) {
    a.n < Pow2(Width(a.is4))
  }

  predicate ValidPrefix(p: Prefix) {
    ValidAddr(p.addr) && p.bits <= Width(p.addr.is4)
  }

  function HostBits(p: Prefix): nat
    requires ValidPrefix(p)
  {
    Width(p.addr.is4) - p.bits
  }

  predicate Contains(p: Prefix, a: Addr)
    requires ValidPrefix(p)
  {
    a.is4 == p.addr.is4 && ValidAddr(a) && a.n / Pow2(HostBits(p)) == p.addr.n / Pow2(HostBits(p))
  }

  ghost predicate IsGreatest(p: Prefix, last: Addr)
    requires ValidPrefix(p)
  {
    Contains(p, last) && forall a :: Contains(p, a) ==> a.n <= last.n
  }

  // ---- the last address ----

  /** The sixteen bytes of an address; IPv4 addresses are mapped to ::ffff:0:0/96. */
  function As16(a: Addr): nat {
    if a.is4 then 0xffff_0000_0000 + a.n else a.n
  }

  /** Works on the two halves of the sixteen bytes. */
  method UnMasked(p: Prefix) returns (r: Addr)
    requires ValidPrefix(p)
    ensures r == Addr(p.addr.is4, OrLow(p.addr.n, FilledBits(p)))
  {
    hide OrLow, Pow2;
    Pow2Known();
    var hi: nat, lo: nat := As16(p.addr) / 0x1_0000_0000_0000_0000, As16(p.addr) % 0x1_0000_0000_0000_0000;
    var bits := p.bits;
    if bits <= 32 {
      bits := bits + 96;
    }
    hi := OrLow(hi, if bits < 64 then 64 - bits else 0);
    lo := OrLow(lo, if 128 - bits < 64 then 128 - bits else 64);
    var n: nat := hi * 0x1_0000_0000_0000_0000 + lo;
    HalvesTogether(As16(p.addr), 128 - bits);
    assert n == OrLow(As16(p.addr), 128 - bits);
    if p.addr.is4 {
      OrLowAbove(0xffff, p.addr.n, 32, 128 - bits);
      r := Addr(true, n % 0x1_0000_0000);
    } else {
      r := Addr(false, n);
    }
  }

  /** The number of low bits the computation sets: too few for short IPv6 prefixes. */
  function FilledBits(p: Prefix): nat
    requires ValidPrefix(p)
  {
    if p.addr.is4 || p.bits <= 32 then 32 - p.bits else 128 - p.bits
  }

  /** The last address is the greatest of the prefix exactly when the prefix is IPv4, or longer
      than 32 bits, or the bits it leaves out are already set in the given address. */
  lemma UnMaskedIsGreatest(p: Prefix)
    requires ValidPrefix(p)
    ensures IsGreatest(p, Addr(p.addr.is4, OrLow(p.addr.n, FilledBits(p)))) <==>
            p.addr.is4 || p.bits > 32 || AllSet(p.addr.n, 32 - p.bits, 128 - p.bits)
  {
    hide OrLow, ClearLow, AllSet, Contains, Pow2;
    var h, f := HostBits(p), FilledBits(p);
    var last := Addr(p.addr.is4, OrLow(p.addr.n, h));
    LastIsGreatest(p);
    if f < h {
      OrLowTwice(p.addr.n, f, h);
      FilledAlready(ShiftRight(p.addr.n, f), h - f);
      BitsAbove(p.addr.n, f, h);
    }
  }

  lemma LastIsGreatest(p: Prefix)
    requires ValidPrefix(p)
    ensures IsGreatest(p, Addr(p.addr.is4, OrLow(p.addr.n, HostBits(p))))
  {
    hide OrLow, ClearLow, Pow2, ShiftRight;
    var h := HostBits(p);
    var last := Addr(p.addr.is4, OrLow(p.addr.n, h));
    OrLowSize(p.addr.n, h, Width(p.addr.is4));
    OrLowGreatest(p.addr.n, h);
    ShiftIsQuotient(p.addr.n, h);
    ShiftIsQuotient(last.n, h);
    forall a | Contains(p, a) ensures a.n <= last.n {
      ShiftIsQuotient(a.n, h);
      OrLowGreatestAt(p.addr.n, h, a.n);
    }
  }

  /** The bits of weight 2^lo up to 2^(hi - 1) are set. */
  predicate AllSet(x: nat, lo: nat, hi: nat) {
    forall i: nat :: lo <= i < hi ==> BitAt(x, i) == 1
  }

  lemma {:induction false} FilledAlready(x: nat, k: nat)
    ensures x == OrLow(x, k) <==> AllSet(x, 0, k)
  {
    if k > 0 {
      FilledAlready(x / 2, k - 1);
      LowestBit(x);
      forall i: nat ensures BitAt(x, i + 1) == BitAt(x / 2, i) { NextBit(x, i); }
      if AllSet(x / 2, 0, k - 1) && BitAt(x, 0) == 1 {
        forall i: nat | i < k ensures BitAt(x, i) == 1 {
          assert i > 0 ==> BitAt(x, i - 1 + 1) == BitAt(x / 2, i - 1);
        }
      }
      if AllSet(x, 0, k) {
        forall i: nat | i < k - 1 ensures BitAt(x / 2, i) == 1 { assert BitAt(x, i + 1) == 1; }
      }
    }
  }

  lemma LowestBit(x: nat)
    ensures BitAt(x, 0) == x % 2
  {
  }

  lemma NextBit(x: nat, i: nat)
    ensures BitAt(x, i + 1) == BitAt(x / 2, i)
  {
    HalfFirst(x, Pow2(i));
  }

  lemma {:induction false} BitsAbove(x: nat, lo: nat, hi: nat)
    requires lo <= hi
    ensures AllSet(x, lo, hi) <==> AllSet(ShiftRight(x, lo), 0, hi - lo)
  {
    if lo > 0 {
      BitsAbove(x / 2, lo - 1, hi - 1);
      forall i: nat ensures BitAt(x, i + 1) == BitAt(x / 2, i) { NextBit(x, i); }
      if AllSet(x / 2, lo - 1, hi - 1) {
        forall i: nat | lo <= i < hi ensures BitAt(x, i) == 1 {
          assert BitAt(x, i - 1 + 1) == BitAt(x / 2, i - 1);
        }
      }
      if AllSet(x, lo, hi) {
        forall i: nat | lo - 1 <= i < hi - 1 ensures BitAt(x / 2, i) == 1 { assert BitAt(x, i + 1) == 1; }
      }
    }
  }

  /** With the greatest address or below it, what lies between the network address and the last
      address is inside the prefix. */
  lemma BetweenIsInside(p: Prefix, n: nat)
    requires ValidPrefix(p)
    requires ClearLow(p.addr.n, HostBits(p)) <= n <= OrLow(p.addr.n, FilledBits(p))
    ensures Contains(p, Addr(p.addr.is4, n))
  {
    hide OrLow, ClearLow, Pow2, ShiftRight;
    var h := HostBits(p);
    OrLowMonotone(p.addr.n, FilledBits(p), h);
    OrLowSize(p.addr.n, h, Width(p.addr.is4));
    BetweenSameHigh(p.addr.n, h, n);
    ShiftIsQuotient(p.addr.n, h);
    ShiftIsQuotient(n, h);
  }

  // ---- the pool over the network ----

  datatype Network = Network(gateway: Addr, ring: Ring)

  /** Gateway, first and last address, or nothing when no address is left between them. */
  method NewNetwork(p: Prefix, size: int) returns (r: Option<Network>)
    requires ValidPrefix(p)
    ensures r == PoolNetwork(p, size)
  {
    var hostAddr := Addr(p.addr.is4, ClearLow(p.addr.n, HostBits(p)));
    var gateway := Next(hostAddr);
    var first := Next(Next(Next(gateway)));
    var last := UnMasked(p);
    if !Less(first, last) {
      return None;
    }
    return Some(Network(gateway, Ring(first, last, size)));
  }

  function PoolNetwork(p: Prefix, size: int): (r: Option<Network>)
    requires ValidPrefix(p)
    ensures r.Some? ==> r.value.ring.first.n > 0
  {
    var low := ClearLow(p.addr.n, HostBits(p));
    var last := Addr(p.addr.is4, OrLow(p.addr.n, FilledBits(p)));
    if low + 4 < last.n
    then Some(Network(Addr(p.addr.is4, low + 1), Ring(Addr(p.addr.is4, low + 4), last, size)))
    else None
  }

  datatype Mode = Normal | FakeIp | Mapping

  /** Only in fake-IP mode and with a pool is an address a fake one. */
  predicate IsFakeIP(mode: Mode, p: Prefix, pool: Option<Network>, a: Addr)
    requires ValidPrefix(p)
  {
    mode == FakeIp && pool.Some? && Contains(p, a) && a != pool.value.gateway && a != pool.value.ring.last
  }

  /** A pool that has handed out nothing. */
  function Start(ring: Ring): State
    requires ring.first.n > 0
  {
    State(Addr(ring.first.is4, ring.first.n - 1), false, [])
  }

  /** Every address that any run of a fresh pool hands out is recognised as a fake one, in fake-IP mode
      and no other, for every network, also where the last address is not the greatest. */
  lemma LookupIsFakeIP(mode: Mode, p: Prefix, size: int, ops: seq<FakeIpRuns.Op>, host: string)
    requires ValidPrefix(p) && PoolNetwork(p, size).Some?
    ensures var net := PoolNetwork(p, size);
            var a := Lookup(net.value.ring, FakeIpRuns.Run(net.value.ring, Start(net.value.ring), ops), host).1;
            IsFakeIP(mode, p, net, a) <==> mode == FakeIp
  {
    hide Lookup, FakeIpRuns.Run, Contains, OrLow, ClearLow, ToLower;
    var ring := PoolNetwork(p, size).value.ring;
    StartKeepsInv(p, size);
    FakeIpRuns.RunKeepsInv(ring, Start(ring), ops);
    var st := FakeIpRuns.Run(ring, Start(ring), ops);
    FakeIpRuns.LookupKeepsInv(ring, st, host);
    BetweenIsInside(p, Lookup(ring, st, host).1.n);
  }

  lemma StartKeepsInv(p: Prefix, size: int)
    requires ValidPrefix(p) && PoolNetwork(p, size).Some?
    ensures var ring := PoolNetwork(p, size).value.ring; FakeIpRuns.Inv(ring, Start(ring))
  {
  }

  // ---- arithmetic of low bits ----

  /** Set and cleared low bits in numbers. */
  lemma {:induction false} LowInNumbers(x: nat, k: nat)
    ensures var m := Pow2(k);
      ClearLow(x, k) == x / m * m && OrLow(x, k) == x / m * m + m - 1
  {
    if k > 0 {
      LowInNumbers(x / 2, k - 1);
      HalfFirst(x, Pow2(k - 1));
      DoubleTimes(x / Pow2(k), Pow2(k - 1));
    }
  }

  lemma {:induction false} OrLowGreatest(x: nat, k: nat)
    ensures ShiftRight(OrLow(x, k), k) == ShiftRight(x, k)
  {
    if k > 0 { OrLowGreatest(x / 2, k - 1); }
  }

  lemma {:induction false} OrLowGreatestAt(x: nat, k: nat, y: nat)
    requires ShiftRight(y, k) == ShiftRight(x, k)
    ensures ClearLow(x, k) <= y <= OrLow(x, k)
  {
    if k > 0 { OrLowGreatestAt(x / 2, k - 1, y / 2); }
  }

  lemma {:induction false} BetweenSameHigh(x: nat, k: nat, y: nat)
    requires ClearLow(x, k) <= y <= OrLow(x, k)
    ensures ShiftRight(y, k) == ShiftRight(x, k)
  {
    if k > 0 { BetweenSameHigh(x / 2, k - 1, y / 2); }
  }

  lemma {:induction false} OrLowMonotone(x: nat, j: nat, k: nat)
    requires j <= k
    ensures OrLow(x, j) <= OrLow(x, k)
  {
    if j > 0 {
      OrLowMonotone(x / 2, j - 1, k - 1);
    } else if k > 0 {
      OrLowMonotone(x / 2, 0, k - 1);
    }
  }

  lemma {:induction false} OrLowSize(x: nat, k: nat, w: nat)
    requires x < Pow2(w) && k <= w
    ensures OrLow(x, k) < Pow2(w)
  {
    if k > 0 { OrLowSize(x / 2, k - 1, w - 1); }
  }

  /** Setting more low bits changes nothing exactly when they are set already. */
  lemma {:induction false} OrLowTwice(x: nat, j: nat, k: nat)
    requires j <= k
    ensures OrLow(x, j) == OrLow(x, k) <==> ShiftRight(x, j) == OrLow(ShiftRight(x, j), k - j)
  {
    if j > 0 { OrLowTwice(x / 2, j - 1, k - 1); }
  }

  /** A word above is left alone. */
  lemma {:induction false} OrLowAbove(hi: nat, lo: nat, w: nat, k: nat)
    requires k <= w && lo < Pow2(w)
    ensures OrLow(hi * Pow2(w) + lo, k) == hi * Pow2(w) + OrLow(lo, k)
    ensures OrLow(lo, k) < Pow2(w)
  {
    if k > 0 {
      var m := Pow2(w - 1);
      OrLowAbove(hi, lo / 2, w - 1, k - 1);
      DoubleWord(hi, m, lo);
    }
  }

  /** The word below fills up. */
  lemma {:induction false} OrLowBelow(hi: nat, lo: nat, w: nat, j: nat)
    requires lo < Pow2(w)
    ensures OrLow(hi * Pow2(w) + lo, w + j) == OrLow(hi, j) * Pow2(w) + Pow2(w) - 1
    decreases w
  {
    if w > 0 {
      var m := Pow2(w - 1);
      OrLowBelow(hi, lo / 2, w - 1, j);
      DoubleWord(hi, m, lo);
      DoubleWord(OrLow(hi, j), m, 0);
    }
  }

  lemma OrLowNothing(x: nat)
    ensures OrLow(x, 0) == x && OrLow(0, 0) == 0
  {
  }

  lemma DoubleWord(hi: nat, m: nat, lo: nat)
    ensures (hi * (2 * m) + lo) / 2 == hi * m + lo / 2
    ensures hi * (2 * m) == 2 * (hi * m)
  {
    assert hi * (2 * m) == 2 * (hi * m);
  }

  /** Setting low bits half by half is setting them at once. */
  lemma HalvesTogether(x: nat, k: nat)
    requires k <= 128
    ensures var hi: nat, lo: nat := x / 0x1_0000_0000_0000_0000, x % 0x1_0000_0000_0000_0000;
            OrLow(x, k) ==
              OrLow(hi, if k > 64 then k - 64 else 0) * 0x1_0000_0000_0000_0000 + OrLow(lo, if k < 64 then k else 64)
  {
    hide OrLow, Pow2;
    Pow2Known();
    OrLowNothing(x / Pow2(64));
    var hi: nat, lo: nat := x / Pow2(64), x % Pow2(64);
    if k <= 64 {
      OrLowAbove(hi, lo, 64, k);
    } else {
      OrLowBelow(hi, lo, 64, k - 64);
      OrLowBelow(0, lo, 64, 0);
    }
  }
}
