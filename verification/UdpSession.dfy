/** The NAT table, and the handler of a UDP packet as it is written: straight through, while other
    handlers and receivers run between its steps. */
module UdpSession {
  import opened UdpSpec
  import opened UdpPaths
  import opened UdpDelivery

  /** Two concurrent maps: sessions and locks by local address. */
  class Table {
    var mapping: map<string, Id>
    var lockMap: map<string, Id>

    constructor ()
      ensures mapping == map[] && lockMap == map[]
    {
      mapping, lockMap := map[], map[];
    }

    method Set(key: string, session: Id)
      modifies this`mapping
      ensures mapping == old(mapping)[key := session]
    {
      mapping := mapping[key := session];
    }

    method Get(key: string) returns (found: bool, session: Id)
      ensures found <==> key in mapping
      ensures found ==> session == mapping[key]
    {
      found, session := key in mapping, 0;
      if found {
        session := mapping[key];
      }
    }

    /** The lock in the map, or else the caller's, put there in the same step. */
    method GetOrCreateLock(key: string, made: Id) returns (cond: Id, loaded: bool)
      modifies this`lockMap
      ensures loaded <==> key in old(lockMap)
      ensures lockMap == if loaded then old(lockMap) else old(lockMap)[key := made]
      ensures key in lockMap && cond == lockMap[key]
    {
      loaded := key in lockMap;
      if !loaded {
        lockMap := lockMap[key := made];
      }
      cond := lockMap[key];
    }

    method Delete(key: string)
      modifies this`mapping
      ensures mapping == old(mapping) - {key}
    {
      mapping := mapping - {key};
    }

    method DeleteLock(key: string)
      modifies this`lockMap
      ensures lockMap == old(lockMap) - {key}
    {
      lockMap := lockMap - {key};
    }
  }

  class Tunnel {
    const natTable: Table
    var packets: map<Id, Packet>
    var live: set<Id>
    ghost var stale: set<string>
    ghost var trace: seq<Step>

    ghost function Now(): State
      reads this, natTable
    {
      State(packets, natTable.mapping, natTable.lockMap, live, stale)
    }

    /** Tables and packets are what the run so far makes of an empty tunnel. */
    ghost predicate Valid()
      reads this, natTable
    {
      Runs(INIT, trace) && Now() == After(INIT, trace)
    }

    constructor ()
      ensures Valid() && fresh(natTable) && trace == []
    {
      natTable := new Table();
      packets, live, stale, trace := map[], {}, {}, [];
      new;
      EmptyRun(INIT);
    }

    method Goto(id: Id, pc: Pc)
      requires id in packets
      modifies this`packets
      ensures packets == old(packets)[id := old(packets)[id].(pc := pc)]
    {
      packets := packets[id := packets[id].(pc := pc)];
    }

    /** The closure `handle`: hands the packet to the session of its key and says whether there was one. */
    method Handle(id: Id) returns (ok: bool)
      requires id in packets
      modifies this`packets
      ensures ok <==> old(packets)[id].key in natTable.mapping
      ensures var p := old(packets)[id];
        packets == old(packets)[id := p.(sent := if ok then p.sent + [natTable.mapping[p.key]] else p.sent)]
    {
      var p := packets[id];
      var session;
      ok, session := natTable.Get(p.key);
      packets := packets[id := p.(sent := if ok then p.sent + [session] else p.sent)];
    }

    method TakeTheLock(id: Id)
      requires Enabled(Now(), TakeLock(id))
      modifies this, natTable
      ensures Now() == Apply(old(Now()), TakeLock(id)) && trace == old(trace)
    {
      var key := packets[id].key;
      var cond, loaded := natTable.GetOrCreateLock(key, id);
      if !loaded && key in natTable.mapping {
        stale := stale + {key};
      }
      Goto(id, if loaded then Spawned(cond) else Creating);
    }

    /** What one step does to tables and packets. */
    method Execute(step: Step)
      requires Enabled(Now(), step)
      modifies this, natTable
      ensures Now() == Apply(old(Now()), step) && trace == old(trace)
    {
      match step
      case Arrive(id, key) => packets := packets[id := Packet(key, Start, [], 0)];
      case Reject(id) => Goto(id, Returning);
      case Lookup(id) =>
        var ok := Handle(id);
        Goto(id, if ok then Returning else Missed);
      case TakeLock(id) => TakeTheLock(id);
      case BeginWait(id) => Goto(id, Waiting(packets[id].pc.cond));
      case Fail(id) => Goto(id, Closing);
      case Store(id) =>
        natTable.Set(packets[id].key, id);
        live := live + {id};
        Goto(id, Stored);
      case Forward(id) =>
        var next := if packets[id].pc == Stored then Closing else Returning;
        var _ := Handle(id);
        Goto(id, next);
      case Unlock(id) =>
        natTable.DeleteLock(packets[id].key);
        Goto(id, Broadcasting);
      case Broadcast(id) =>
        packets := map i | i in packets :: WakeOne(packets[i], id);
        Goto(id, Returning);
      case Drop(id) =>
        var p := packets[id];
        packets := packets[id := p.(pc := Done, dropped := p.dropped + 1)];
      case EndSession(id) =>
        live := live - {id};
        natTable.Delete(packets[id].key);
    }

    method Perform(step: Step)
      requires Valid() && Enabled(Now(), step)
      modifies this, natTable
      ensures Valid() && trace == old(trace) + [step] && Now() == Apply(old(Now()), step)
    {
      hide Enabled, Apply, Runs, After;
      Then(INIT, trace, step);
      Execute(step);
      trace := trace + [step];
    }

    predicate Ready(step: Step)
      reads this
    {
      match step
      case Arrive(id, _) => id !in packets
      case EndSession(id) => id in live && id in packets
      case _ => Enabled(State(packets, map[], map[], live, {}), step)
    }

    /** Whatever of `steps` can be done by others than the handler of `id`. */
    method Others(id: Id, steps: seq<Step>)
      requires Valid() && id in packets
      modifies this, natTable
      ensures Valid() && Own(id, trace) == Own(id, old(trace)) && old(trace) <= trace
      ensures id in packets && (packets[id] == old(packets)[id] || Awoken(old(packets)[id], packets[id]))
    {
      hide Valid, Apply, Runs, After, Enabled, Own, Awoken;
      for n := 0 to |steps|
        invariant Valid() && Own(id, trace) == Own(id, old(trace)) && old(trace) <= trace
        invariant id in packets && (packets[id] == old(packets)[id] || Awoken(old(packets)[id], packets[id]))
      {
        if Ready(steps[n]) && !IsOwn(id, steps[n]) {
          ReadyEnabled(steps[n]);
          OtherStep(Now(), id, old(packets)[id], steps[n]);
          OwnAppend(id, trace, steps[n]);
          Perform(steps[n]);
        }
      }
    }

    lemma ReadyEnabled(step: Step)
      requires Ready(step)
      ensures Enabled(Now(), step)
    {
    }

    /** The next step of the handler of `id`; then others run. */
    method Next(id: Id, step: Step, steps: seq<Step>)
      requires Valid() && IsOwn(id, step) && Enabled(Now(), step)
      modifies this, natTable
      ensures Valid() && id in packets && old(trace) <= trace
      ensures Own(id, trace) == Own(id, old(trace)) + [step]
      ensures step.Arrive? ==> packets[id] == Packet(step.key, Start, [], 0)
      ensures !step.Arrive? && !step.BeginWait? ==>
        id in old(packets) && LeadsTo(id, old(packets)[id], step, packets[id])
      ensures step.BeginWait? ==> id in old(packets) && packets[id].key == old(packets)[id].key
      ensures step.BeginWait? ==> packets[id].pc.Waiting? || packets[id].pc.Woken?
    {
      hide Valid, Apply, Runs, After, Enabled, Own;
      OwnAppend(id, trace, step);
      OwnStepLeads(Now(), id, step);
      Perform(step);
      Others(id, steps);
    }

    /** The goroutine of a packet whose session another handler creates. */
    method AwaitSession(id: Id, others: nat -> seq<Step>) returns (waiting: bool)
      requires Valid() && id in packets && packets[id].pc.Spawned?
      modifies this, natTable
      ensures Valid() && id in packets && packets[id].key == old(packets)[id].key
      ensures waiting ==> packets[id].pc.Waiting? && Own(id, trace) == Own(id, old(trace)) + [BeginWait(id)]
      ensures !waiting ==> packets[id].pc == Done
      ensures !waiting ==> Own(id, trace) == Own(id, old(trace)) + [BeginWait(id)] + [Forward(id)] + [Drop(id)]
    {
      hide Valid, Apply, Runs, After, Own;
      Next(id, BeginWait(id), others(3));
      if packets[id].pc.Waiting? {
        return true;
      }
      Next(id, Forward(id), others(4));
      Next(id, Drop(id), others(5));
      return false;
    }

    /** The deferred calls of a creator. */
    method Release(id: Id, others: nat -> seq<Step>)
      requires Valid() && id in packets && packets[id].pc == Closing
      modifies this, natTable
      ensures Valid() && id in packets && packets[id].key == old(packets)[id].key && packets[id].pc == Done
      ensures Own(id, trace) == Own(id, old(trace)) + [Unlock(id)] + [Broadcast(id)] + [Drop(id)]
    {
      hide Valid, Apply, Runs, After, Own;
      Next(id, Unlock(id), others(5));
      Next(id, Broadcast(id), others(6));
      Next(id, Drop(id), others(7));
    }

    /** The goroutine that creates the session. */
    method CreateSession(id: Id, dialed: bool, others: nat -> seq<Step>)
      requires Valid() && id in packets && packets[id].pc == Creating
      modifies this, natTable
      ensures Valid() && id in packets && packets[id].key == old(packets)[id].key && packets[id].pc == Done
      ensures Own(id, trace) == (if dialed then Own(id, old(trace)) + [Store(id)] + [Forward(id)]
                                 else Own(id, old(trace)) + [Fail(id)]) + [Unlock(id)] + [Broadcast(id)] + [Drop(id)]
    {
      hide Valid, Apply, Runs, After, Own;
      if dialed {
        Next(id, Store(id), others(3));
        Next(id, Forward(id), others(4));
      } else {
        Next(id, Fail(id), others(3));
      }
      Release(id, others);
    }

    /** The handler of one packet, step by step in the order of its code, among any steps of others.
        `valid` and `dialed` are the outcomes of the checks and of the dialing. It ends with the packet
        dropped once, or it is still waiting for another handler. */
    method HandleUdpConn(id: Id, key: string, valid: bool, dialed: bool,
                         others: nat -> seq<Step>) returns (waiting: bool)
      requires Valid() && id !in packets
      modifies this, natTable
      ensures Valid() && id in packets && packets[id].key == key
      ensures waiting ==> packets[id].pc.Waiting? && Own(id, trace) == Waited(id, key)[..4]
      ensures !waiting ==> packets[id].pc == Done && packets[id].dropped == 1 && |packets[id].sent| <= 1
      ensures !waiting ==> IsPathFor(id, key, valid, dialed, Own(id, trace))
      ensures !waiting ==> DeliveredIn(trace, id, packets[id])
    {
      hide Valid, Apply, Runs, After, Own, Refused, Found, Waited, Established, Failed, DeliveredIn;
      Unseen(trace, id);
      StepByStep(id, key);
      Next(id, Arrive(id, key), others(0));
      if !valid {
        Next(id, Reject(id), others(1));
        Next(id, Drop(id), others(2));
        Finished(id, key);
        return false;
      }
      Next(id, Lookup(id), others(1));
      if packets[id].pc == Returning {
        Next(id, Drop(id), others(2));
        Finished(id, key);
        return false;
      }
      Next(id, TakeLock(id), others(2));
      if packets[id].pc.Spawned? {
        waiting := AwaitSession(id, others);
      } else {
        CreateSession(id, dialed, others);
        waiting := false;
      }
      if !waiting {
        Finished(id, key);
      }
    }

    lemma Unseen(steps: seq<Step>, id: Id)
      requires Valid() && steps == trace && id !in packets
      ensures Own(id, steps) == []
    {
      RunTraced(steps, id);
    }

    lemma Finished(id: Id, key: string)
      requires Valid() && id in packets && packets[id].key == key && packets[id].pc == Done
      ensures packets[id].dropped == 1 && |packets[id].sent| <= 1
      ensures DeliveredIn(trace, id, packets[id])
    {
      hide Runs, After, Own, SessionAt, Delivered;
      DroppedOnce(trace, id);
      SentRightly(trace, id);
    }
  }

  /** The paths that fit the outcomes of checks and dialing. */
  predicate IsPathFor(id: Id, key: string, valid: bool, dialed: bool, own: seq<Step>) {
    if !valid then own == Refused(id, key)
    else
      own == Found(id, key) || own == Waited(id, key)
      || own == (if dialed then Established(id, key) else Failed(id, key))
  }

  lemma StepByStep(id: Id, key: string)
    ensures var a := [] + [Arrive(id, key)]; var t := a + [Lookup(id)] + [TakeLock(id)];
      && Refused(id, key) == a + [Reject(id)] + [Drop(id)]
      && Found(id, key) == a + [Lookup(id)] + [Drop(id)]
      && |Waited(id, key)| >= 4 && Waited(id, key)[..4] == t + [BeginWait(id)]
      && Waited(id, key) == t + [BeginWait(id)] + [Forward(id)] + [Drop(id)]
      && Established(id, key) == t + [Store(id)] + [Forward(id)] + [Unlock(id)] + [Broadcast(id)] + [Drop(id)]
      && Failed(id, key) == t + [Fail(id)] + [Unlock(id)] + [Broadcast(id)] + [Drop(id)]
  {
  }

  ghost predicate Awoken(p: Packet, q: Packet) {
    p.pc.Waiting? && q == p.(pc := Woken(p.pc.cond))
  }

  lemma OtherStep(s: State, id: Id, p: Packet, step: Step)
    requires Enabled(s, step) && !IsOwn(id, step) && id in s.packets
    requires s.packets[id] == p || Awoken(p, s.packets[id])
    ensures id in Apply(s, step).packets
    ensures Apply(s, step).packets[id] == p || Awoken(p, Apply(s, step).packets[id])
  {
  }

  lemma OwnAppend(id: Id, steps: seq<Step>, step: Step)
    ensures Own(id, steps + [step]) == Own(id, steps) + if IsOwn(id, step) then [step] else []
  {
    assert (steps + [step])[..|steps|] == steps;
  }
}
