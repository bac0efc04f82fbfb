/** The allocator over two independent caches. Nothing ties the caches but the order of calls;
    the ghost `pairs` shows that they keep the same pairs in the same order. */
module FakeIpPool {
  import opened Text
  import opened Wrappers
  import opened FakeIpSpec
  import opened LruCache

  /** A pair has the same place in both caches and moves alike. */
  lemma PlaceOfPair(pairs: Pairs<string, Addr>, i: nat)
    requires OneToOne(pairs) && i < |pairs|
    ensures PlaceOf(pairs, pairs[i].0) == i && PlaceOf(Swap(pairs), pairs[i].1) == i
    ensures Swap(ToBack(pairs, i)) == ToBack(Swap(pairs), i)
  {
    SwapParts(pairs, i, pairs[i]);
  }

  /** Deleting a pair just moved to the back is deleting it where it was. */
  lemma DeletedPair(pairs: Pairs<string, Addr>, i: nat)
    requires OneToOne(pairs) && i < |pairs|
    ensures PlaceOf(ToBack(Swap(pairs), i), pairs[i].1) == |pairs| - 1
    ensures LruSpec.Cut(ToBack(Swap(pairs), i), |pairs| - 1) == Swap(LruSpec.Cut(pairs, i))
  {
    var ps := Swap(pairs);
    var t := ToBack(ps, i);
    SwapParts(pairs, i, pairs[i]);
    assert forall j :: 0 <= j < |t| - 1 ==> t[j] == ps[if j < i then j else j + 1];
    assert forall j :: 0 <= j < |t| - 1 ==> t[j].0 != pairs[i].1;
    assert t[|t| - 1].0 == pairs[i].1;
    assert LruSpec.Cut(t, |pairs| - 1) == LruSpec.Cut(ps, i);
  }

  lemma SetOnSwapped(size: int, pairs: Pairs<string, Addr>, host: string, ip: Addr, now: int)
    requires PlaceOf(Swap(pairs), ip) < 0
    ensures LruSpec.Set(NoAge(size), View(Swap(pairs)), ip, host, now) == View(Swap(Trim(size, pairs + [(host, ip)])))
  {
    SetOnView(size, Swap(pairs), ip, host, now);
    SwapParts(pairs, -1, (host, ip));
    SwapTrim(size, pairs + [(host, ip)]);
  }

  /** A new pair stored in both caches evicts the same pair from both. */
  lemma SetEvictsAlike(size: int, pairs: Pairs<string, Addr>, host: string, ip: Addr, now: int)
    requires PlaceOf(pairs, host) < 0 && PlaceOf(Swap(pairs), ip) < 0
    ensures var t := Trim(size, pairs + [(host, ip)]);
      LruSpec.Set(NoAge(size), View(pairs), host, ip, now) == View(t)
      && LruSpec.Set(NoAge(size), View(Swap(pairs)), ip, host, now) == View(Swap(t))
  {
    SetOnView(size, pairs, host, ip, now);
    SetOnSwapped(size, pairs, host, ip, now);
  }

  class MemoryStore {
    const cacheIP: LruCache<string, Addr>
    const cacheHost: LruCache<Addr, string>
    const size: int
    ghost var Repr: set<object>

    ghost predicate Valid() reads this, Repr {
      && this in Repr && cacheIP in Repr && cacheHost in Repr
      && cacheIP.Repr + cacheHost.Repr <= Repr
      && cacheIP.Valid() && cacheHost.Valid()
      && cacheIP.Repr !! cacheHost.Repr && this !in cacheIP.Repr + cacheHost.Repr
      && cacheIP.cfg == NoAge(size) && cacheHost.cfg == NoAge(size)
    }

    /** Both caches hold `pairs`, from the least to the most recently used. */
    ghost predicate InStep(pairs: Pairs<string, Addr>)
      reads cacheIP, cacheHost
    {
      cacheIP.model == View(pairs) && cacheHost.model == View(Swap(pairs))
    }

    constructor (s: int)
      ensures Valid() && fresh(Repr) && size == s && InStep([])
    {
      cacheIP := new LruCache(NoAge(s));
      cacheHost := new LruCache(NoAge(s));
      size := s;
      new;
      Repr := {this} + cacheIP.Repr + cacheHost.Repr;
    }

    // ---- each cache alone ----

    method UseHost(host: string, now: int, ghost ps: Pairs<string, Addr>) returns (r: Option<Addr>)
      requires Valid() && cacheIP.model == View(ps)
      modifies this`Repr, cacheIP.Repr
      ensures Valid() && fresh(Repr - old(Repr))
      ensures PlaceOf(ps, host) < 0 ==> r == None && cacheIP.model == View(ps)
      ensures PlaceOf(ps, host) >= 0 ==>
                r == Some(ps[PlaceOf(ps, host)].1) && cacheIP.model == View(ToBack(ps, PlaceOf(ps, host)))
    {
      GetOnView(size, ps, host, now);
      r := cacheIP.Get(host, now);
      Repr := Repr + cacheIP.Repr;
    }

    method UseIP(ip: Addr, now: int, ghost ps: Pairs<Addr, string>) returns (r: Option<string>)
      requires Valid() && cacheHost.model == View(ps)
      modifies this`Repr, cacheHost.Repr
      ensures Valid() && fresh(Repr - old(Repr))
      ensures PlaceOf(ps, ip) < 0 ==> r == None && cacheHost.model == View(ps)
      ensures PlaceOf(ps, ip) >= 0 ==>
                r == Some(ps[PlaceOf(ps, ip)].1) && cacheHost.model == View(ToBack(ps, PlaceOf(ps, ip)))
    {
      GetOnView(size, ps, ip, now);
      r := cacheHost.Get(ip, now);
      Repr := Repr + cacheHost.Repr;
    }

    method DropHost(host: string, ghost ps: Pairs<string, Addr>)
      requires Valid() && cacheIP.model == View(ps)
      modifies cacheIP.Repr
      ensures Valid() && cacheIP.model == View(LruSpec.Cut(ps, PlaceOf(ps, host)))
    {
      DeleteOnView(ps, host);
      cacheIP.Delete(host);
    }

    method DropIP(ip: Addr, ghost ps: Pairs<Addr, string>)
      requires Valid() && cacheHost.model == View(ps)
      modifies cacheHost.Repr
      ensures Valid() && cacheHost.model == View(LruSpec.Cut(ps, PlaceOf(ps, ip)))
    {
      DeleteOnView(ps, ip);
      cacheHost.Delete(ip);
    }

    // ---- the store's operations ----

    /** A hit moves the pair to the back of both caches. */
    method GetByHost(host: string, now: int, ghost pairs: Pairs<string, Addr>) returns (r: Option<Addr>)
      requires Valid() && InStep(pairs) && OneToOne(pairs)
      modifies Repr
      ensures Valid() && fresh(Repr - old(Repr))
      ensures PlaceOf(pairs, host) < 0 ==> r == None && InStep(pairs)
      ensures PlaceOf(pairs, host) >= 0 ==>
                r == Some(pairs[PlaceOf(pairs, host)].1) && InStep(ToBack(pairs, PlaceOf(pairs, host)))
    {
      hide Consistent, Shows, PlaceOf, View, Swap;
      ghost var i := PlaceOf(pairs, host);
      if i >= 0 { PlaceOfPair(pairs, i); }
      r := UseHost(host, now, pairs);
      if r.Some? {
        var _ := UseIP(r.value, now, Swap(pairs));
      }
    }

    method GetByIP(ip: Addr, now: int, ghost pairs: Pairs<string, Addr>) returns (r: Option<string>)
      requires Valid() && InStep(pairs) && OneToOne(pairs)
      modifies Repr
      ensures Valid() && fresh(Repr - old(Repr))
      ensures PlaceOf(Swap(pairs), ip) < 0 ==> r == None && InStep(pairs)
      ensures PlaceOf(Swap(pairs), ip) >= 0 ==>
                r == Some(pairs[PlaceOf(Swap(pairs), ip)].0) && InStep(ToBack(pairs, PlaceOf(Swap(pairs), ip)))
    {
      hide Consistent, Shows, PlaceOf, View, Swap;
      ghost var i := PlaceOf(Swap(pairs), ip);
      if i >= 0 { PlaceOfPair(pairs, i); }
      r := UseIP(ip, now, Swap(pairs));
      if r.Some? {
        var _ := UseHost(r.value, now, pairs);
      }
    }

    method PutByIP(ip: Addr, host: string, now: int)
      requires Valid()
      modifies Repr
      ensures Valid() && fresh(Repr - old(Repr)) && cacheIP.model == old(cacheIP.model)
      ensures cacheHost.model == LruSpec.Set(NoAge(size), old(cacheHost.model), ip, host, now)
    {
      hide Consistent, Shows, LruSpec.Set;
      cacheHost.Set(ip, host, now);
      Repr := Repr + cacheHost.Repr;
    }

    method PutByHost(host: string, ip: Addr, now: int)
      requires Valid()
      modifies Repr
      ensures Valid() && fresh(Repr - old(Repr)) && cacheHost.model == old(cacheHost.model)
      ensures cacheIP.model == LruSpec.Set(NoAge(size), old(cacheIP.model), host, ip, now)
    {
      hide Consistent, Shows, LruSpec.Set;
      cacheIP.Set(host, ip, now);
      Repr := Repr + cacheIP.Repr;
    }

    /** The pair of an address leaves both caches. */
    method DelByIP(ip: Addr, now: int, ghost pairs: Pairs<string, Addr>)
      requires Valid() && InStep(pairs) && OneToOne(pairs)
      modifies Repr
      ensures Valid() && fresh(Repr - old(Repr))
      ensures InStep(Freed(pairs, ip))
    {
      hide Consistent, Shows, PlaceOf, View, Swap;
      ghost var i := PlaceOf(Swap(pairs), ip);
      var host := UseIP(ip, now, Swap(pairs));
      if host.Some? {
        PlaceOfPair(pairs, i);
        DeletedPair(pairs, i);
        DropHost(host.value, pairs);
        DropIP(ip, ToBack(Swap(pairs), i));
      } else {
        DropIP(ip, Swap(pairs));
      }
    }

    method Exist(ip: Addr, ghost pairs: Pairs<string, Addr>) returns (r: bool)
      requires Valid() && InStep(pairs)
      ensures r <==> PlaceOf(Swap(pairs), ip) >= 0
    {
      r := cacheHost.Exist(ip);
      ghost var i := cacheHost.PlaceOf(ip);
    }
  }

  class Pool {
    const ring: Ring
    var offset: Addr
    var cycle: bool
    const store: MemoryStore
    ghost var pairs: Pairs<string, Addr>

    ghost predicate Valid() reads this, store, store.Repr {
      && store.Valid() && this !in store.Repr && store.size == ring.size
      && OneToOne(pairs) && store.InStep(pairs)
    }

    ghost function View(): State reads this {
      State(offset, cycle, pairs)
    }

    constructor (r: Ring, before: Addr)
      requires Next(before) == r.first
      ensures Valid() && fresh(store.Repr) && ring == r
      ensures View() == State(before, false, [])
    {
      ring, offset, cycle := r, before, false;
      store := new MemoryStore(r.size);
      pairs := [];
    }

    method LookUp(name: string, now: int) returns (ip: Addr)
      requires Valid()
      modifies this, store.Repr
      ensures Valid() && fresh(store.Repr - old(store.Repr))
      ensures (View(), ip) == Lookup(ring, old(View()), name)
    {
      hide Consistent, Shows, PlaceOf, FakeIpSpec.View, Swap, OneToOne;
      var host := ToLower(name);
      var hit := store.GetByHost(host, now, pairs);
      if hit.Some? {
        MovedOneToOne(pairs, PlaceOf(pairs, host));
        pairs := ToBack(pairs, PlaceOf(pairs, host));
        return hit.value;
      }
      ip := Allocate(host, now);
    }

    /** The pool's get, and the host side's entry that follows it. */
    method Allocate(host: string, now: int) returns (ip: Addr)
      requires Valid() && PlaceOf(pairs, host) < 0
      modifies this, store.Repr
      ensures Valid() && fresh(store.Repr - old(store.Repr))
      ensures ip == Advance(ring, old(offset)) && offset == ip
      ensures cycle == (old(cycle) || !Less(Next(old(offset)), ring.last))
      ensures pairs == Trim(ring.size, Freed(old(pairs), ip) + [(host, ip)])
    {
      hide Consistent, Shows, PlaceOf, FakeIpSpec.View, Swap, OneToOne, LruSpec.Set, Trim, Freed;
      offset := Next(offset);
      if !Less(offset, ring.last) {
        cycle := true;
        offset := ring.first;
      }
      ip := offset;
      FreedIsFree(pairs, ip, host);
      Evict(ip, now);
      AddedOneToOne(ring.size, pairs, host, ip);
      SetEvictsAlike(ring.size, pairs, host, ip, now);
      store.PutByIP(ip, host, now);
      store.PutByHost(host, ip, now);
      pairs := Trim(ring.size, pairs + [(host, ip)]);
    }

    /** Frees the address when the ring has come around or it is still taken. */
    method Evict(ip: Addr, now: int)
      requires Valid()
      modifies this`pairs, store.Repr
      ensures Valid() && fresh(store.Repr - old(store.Repr))
      ensures pairs == Freed(old(pairs), ip)
    {
      hide Consistent, Shows, PlaceOf, FakeIpSpec.View, Swap, OneToOne;
      FreedIsFree(pairs, ip, "");
      var taken := store.Exist(ip, pairs);
      if cycle || taken {
        store.DelByIP(ip, now, pairs);
        pairs := Freed(pairs, ip);
      }
    }

    method LookBackIP(ip: Addr, now: int) returns (host: Option<string>)
      requires Valid()
      modifies this, store.Repr
      ensures Valid() && fresh(store.Repr - old(store.Repr))
      ensures (View(), host) == LookBack(old(View()), ip)
    {
      hide Consistent, Shows, PlaceOf, FakeIpSpec.View, Swap, OneToOne;
      host := store.GetByIP(ip, now, pairs);
      if host.Some? {
        MovedOneToOne(pairs, PlaceOf(Swap(pairs), ip));
        pairs := ToBack(pairs, PlaceOf(Swap(pairs), ip));
      }
    }

    method ExistIP(ip: Addr) returns (r: bool)
      requires Valid()
      ensures r <==> FakeIpSpec.Exist(View(), ip)
    {
      r := store.Exist(ip, pairs);
    }
  }
}
