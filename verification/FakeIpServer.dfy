/** A pool made for a network and asked any list of questions. */
module FakeIpServer {
  import opened Wrappers
  import opened FakeIpSpec
  import opened FakeIpRuns
  import opened FakeIpPool
  import opened NetIp

  datatype Answer = Address(ip: Addr) | Host(host: Option<string>) | Known(known: bool)

  ghost function AnswerTo(ring: Ring, st: State, op: Op): Answer {
    match op
    case Look(host) => Address(Lookup(ring, st, host).1)
    case Back(ip) => Host(LookBack(st, ip).1)
    case Ask(ip) => Known(Exist(st, ip))
  }

  method Serve(pool: Pool, op: Op, now: int) returns (r: Answer)
    requires pool.Valid()
    modifies pool, pool.store.Repr
    ensures pool.Valid() && fresh(pool.store.Repr - old(pool.store.Repr))
    ensures pool.View() == Step(pool.ring, old(pool.View()), op)
    ensures r == AnswerTo(pool.ring, old(pool.View()), op)
  {
    hide Lookup, LookBack, Exist, Pool.Valid;
    match op
    case Look(host) =>
      var ip := pool.LookUp(host, now);
      r := Address(ip);
    case Back(ip) =>
      var host := pool.LookBackIP(ip, now);
      r := Host(host);
    case Ask(ip) =>
      var known := pool.ExistIP(ip);
      r := Known(known);
  }

  /** The two caches of a fresh pool go through any run as one list of pairs: the answers are those of the
      abstract pool, and every address handed out is a fake IP. */
  method ServeAll(p: Prefix, size: int, ops: seq<Op>, clock: nat -> int) returns (answers: Option<seq<Answer>>)
    requires ValidPrefix(p)
    ensures answers.None? <==> PoolNetwork(p, size).None?
    ensures answers.Some? ==> |answers.value| == |ops|
    ensures answers.Some? ==> forall i :: 0 <= i < |ops| ==>
      var ring := PoolNetwork(p, size).value.ring;
      answers.value[i] == AnswerTo(ring, Run(ring, Start(ring), ops[..i]), ops[i])
    ensures answers.Some? ==> forall i :: 0 <= i < |ops| && ops[i].Look? ==>
      answers.value[i].Address? && IsFakeIP(FakeIp, p, PoolNetwork(p, size), answers.value[i].ip)
  {
    hide Run, Step, AnswerTo, IsFakeIP, PoolNetwork, Pool.Valid;
    var net := NewNetwork(p, size);
    if net.None? {
      return None;
    }
    var ring := net.value.ring;
    var pool := new Pool(ring, Addr(ring.first.is4, ring.first.n - 1));
    var said: seq<Answer> := [];
    RunNothing(ring, Start(ring));
    assert ops[..0] == [];
    for i := 0 to |ops|
      invariant pool.Valid() && fresh(pool) && fresh(pool.store.Repr) && pool.ring == ring
      invariant pool.View() == Run(ring, Start(ring), ops[..i])
      invariant |said| == i
      invariant forall j :: 0 <= j < i ==> said[j] == AnswerTo(ring, Run(ring, Start(ring), ops[..j]), ops[j])
    {
      RunSnoc(ring, Start(ring), ops[..i], ops[i]);
      assert ops[..i + 1] == ops[..i] + [ops[i]];
      var r := Serve(pool, ops[i], clock(i));
      said := said + [r];
    }
    forall i | 0 <= i < |ops| && ops[i].Look?
      ensures said[i].Address? && IsFakeIP(FakeIp, p, net, said[i].ip)
    {
      LooksAreFake(p, size, ops, i);
    }
    return Some(said);
  }

  lemma LooksAreFake(p: Prefix, size: int, ops: seq<Op>, i: nat)
    requires ValidPrefix(p) && PoolNetwork(p, size).Some? && i < |ops| && ops[i].Look?
    ensures var ring := PoolNetwork(p, size).value.ring;
      var a := AnswerTo(ring, Run(ring, Start(ring), ops[..i]), ops[i]);
      a.Address? && IsFakeIP(FakeIp, p, PoolNetwork(p, size), a.ip)
  {
    hide Run, IsFakeIP, PoolNetwork, Lookup;
    LookupIsFakeIP(FakeIp, p, size, ops[..i], ops[i].host);
  }
}
