/** To which session a packet is handed, for every handler of every interleaving. */
module UdpDelivery {
  import opened Wrappers
  import opened UdpSpec
  import opened UdpPaths

  /** The session of `key` in the table when `step` was done; none without a session, or without the step. */
  ghost function SessionAt(steps: seq<Step>, step: Step, key: string): Option<Id>
    decreases |steps|
  {
    if steps == [] then None
    else
      var before := steps[..|steps| - 1];
      if steps[|steps| - 1] == step && Runs(INIT, before) then InTable(After(INIT, before), key)
      else SessionAt(before, step, key)
  }

  function InTable(s: State, key: string): Option<Id> {
    if key in s.mapping then Some(s.mapping[key]) else None
  }

  function Listed(c: Option<Id>): seq<Id> {
    if c.Some? then [c.value] else []
  }

  /** What a handler has delivered at each point of its code; `first` and `later` are the sessions that
      were there at its lookup and when it forwarded. */
  predicate Delivers(id: Id, p: Packet, own: seq<Step>, first: Option<Id>, later: Option<Id>) {
    && p.sent == Listed(first) + Listed(later)
    && match p.pc
       case Closing => first.None? && (own == Failed(id, p.key)[..4] ==> later.None?)
       case Broadcasting => first.None? && (own == Failed(id, p.key)[..5] ==> later.None?)
       case Returning => Finally(id, p.key, own + [Drop(id)], first, later)
       case Done => Finally(id, p.key, own, first, later)
       case _ => first.None? && later.None?
  }

  predicate Finally(id: Id, key: string, path: seq<Step>, first: Option<Id>, later: Option<Id>) {
    && (first.Some? <==> path == Found(id, key))
    && (path == Refused(id, key) || path == Found(id, key) || path == Failed(id, key) ==> later.None?)
  }

  lemma StartsUndelivered(id: Id, key: string, own: seq<Step>)
    ensures Delivers(id, Packet(key, Start, [], 0), own, None, None)
  {
  }

  lemma FinallyFound(id: Id, key: string, first: Option<Id>)
    ensures first.Some? ==> Finally(id, key, Found(id, key), first, None)
  {
    assert Found(id, key)[1] != Refused(id, key)[1];
  }

  lemma FinallyRefused(id: Id, key: string)
    ensures Finally(id, key, Refused(id, key), None, None)
  {
    assert Found(id, key)[1] != Refused(id, key)[1];
  }

  lemma FinallyWaited(id: Id, key: string, later: Option<Id>)
    ensures Finally(id, key, Waited(id, key), None, later)
  {
    assert |Waited(id, key)| == 6;
  }

  lemma FinallyCreated(id: Id, key: string, path: seq<Step>, later: Option<Id>)
    requires path == Established(id, key) || (path == Failed(id, key) && later.None?)
    ensures Finally(id, key, path, None, later)
  {
    assert |Established(id, key)| == 8 && |Failed(id, key)| == 7;
  }

  lemma OwnStepDelivers(s: State, id: Id, own: seq<Step>, step: Step, first: Option<Id>, later: Option<Id>)
    requires Enabled(s, step) && IsOwn(id, step) && !step.Arrive?
    requires id in s.packets && Traced(id, s.packets[id], own) && Delivers(id, s.packets[id], own, first, later)
    ensures id in Apply(s, step).packets
    ensures var now := InTable(s, s.packets[id].key);
      Delivers(id, Apply(s, step).packets[id], own + [step],
               if step == Lookup(id) then now else first, if step == Forward(id) then now else later)
  {
    hide Finally;
    var p, key := s.packets[id], s.packets[id].key;
    assert Listed(None) + Listed(None) == [];
    if step == Lookup(id) {
      assert own + [step] + [Drop(id)] == Found(id, key);
      FinallyFound(id, key, InTable(s, key));
    } else if step == Reject(id) {
      assert own + [step] + [Drop(id)] == Refused(id, key);
      FinallyRefused(id, key);
    } else if step == Forward(id) && p.pc.Woken? {
      assert own + [step] + [Drop(id)] == Waited(id, key);
      FinallyWaited(id, key, InTable(s, key));
    } else if step == Broadcast(id) {
      FinallyCreated(id, key, own + [step] + [Drop(id)], later);
    }
  }

  lemma OtherStepDelivers(s: State, id: Id, own: seq<Step>, step: Step, first: Option<Id>, later: Option<Id>)
    requires Enabled(s, step) && !IsOwn(id, step)
    requires id in s.packets && Delivers(id, s.packets[id], own, first, later)
    ensures id in Apply(s, step).packets && Delivers(id, Apply(s, step).packets[id], own, first, later)
    ensures Apply(s, step).packets[id].key == s.packets[id].key
  {
  }

  /** The handler, and what it did with the table, before its packet arrived: nothing. */
  ghost predicate Untouched(steps: seq<Step>, id: Id) {
    forall key :: SessionAt(steps, Lookup(id), key).None? && SessionAt(steps, Forward(id), key).None?
  }

  lemma NextSession(steps: seq<Step>, step: Step, key: string)
    requires Runs(INIT, steps) && steps != []
    ensures var n := |steps| - 1;
      Runs(INIT, steps[..n]) && SessionAt(steps, step, key)
        == if steps[n] == step then InTable(After(INIT, steps[..n]), key) else SessionAt(steps[..n], step, key)
  {
    hide Runs, After, InTable;
    LastStep(INIT, steps);
  }

  /** The state of a run and what the handler of `id` has delivered. */
  ghost predicate Accounted(steps: seq<Step>, id: Id)
    requires Runs(INIT, steps)
  {
    var s := After(INIT, steps);
    if id in s.packets then
      var key := s.packets[id].key;
      Delivers(id, s.packets[id], Own(id, steps), SessionAt(steps, Lookup(id), key), SessionAt(steps, Forward(id), key))
    else Untouched(steps, id)
  }

  lemma {:induction false} RunAccounted(steps: seq<Step>, id: Id)
    requires Runs(INIT, steps)
    ensures Accounted(steps, id)
    decreases |steps|
  {
    hide Enabled, Apply, Accounted, Runs, After;
    if steps == [] {
      EmptyRun(INIT);
      NothingDone(id);
    } else {
      var n := |steps| - 1;
      LastStep(INIT, steps);
      RunAccounted(steps[..n], id);
      if steps[n].Arrive? && steps[n].id == id {
        ArriveAccounted(steps, id);
      } else if IsOwn(id, steps[n]) {
        OwnAccounted(steps, id);
      } else {
        OtherAccounted(steps, id);
      }
    }
  }

  lemma NothingDone(id: Id)
    requires Runs(INIT, [])
    ensures Accounted([], id)
  {
  }

  lemma ArriveAccounted(steps: seq<Step>, id: Id)
    requires |steps| > 0 && Runs(INIT, steps) && Runs(INIT, steps[..|steps| - 1])
    requires Accounted(steps[..|steps| - 1], id)
    requires steps[|steps| - 1].Arrive? && steps[|steps| - 1].id == id
    ensures Accounted(steps, id)
  {
    hide Runs, After, Delivers, SessionAt, Own;
    var n := |steps| - 1;
    LastStep(INIT, steps);
    var key := steps[n].key;
    NextSession(steps, Lookup(id), key);
    NextSession(steps, Forward(id), key);
    StartsUndelivered(id, key, Own(id, steps));
  }

  lemma OwnAccounted(steps: seq<Step>, id: Id)
    requires |steps| > 0 && Runs(INIT, steps) && Runs(INIT, steps[..|steps| - 1])
    requires Accounted(steps[..|steps| - 1], id)
    requires IsOwn(id, steps[|steps| - 1]) && !steps[|steps| - 1].Arrive?
    ensures Accounted(steps, id)
  {
    hide Runs, After, Delivers, SessionAt, Traced, Apply, Enabled, LeadsTo, InTable;
    var n := |steps| - 1;
    LastStep(INIT, steps);
    RunTraced(steps[..n], id);
    var s := After(INIT, steps[..n]);
    OwnStepLeads(s, id, steps[n]);
    var key := s.packets[id].key;
    NextSession(steps, Lookup(id), key);
    NextSession(steps, Forward(id), key);
    OwnStepDelivers(s, id, Own(id, steps[..n]), steps[n], SessionAt(steps[..n], Lookup(id), key),
                    SessionAt(steps[..n], Forward(id), key));
    KeyStays(s, id, steps[n]);
  }

  lemma KeyStays(s: State, id: Id, step: Step)
    requires Enabled(s, step) && id in s.packets
    ensures id in Apply(s, step).packets && Apply(s, step).packets[id].key == s.packets[id].key
  {
  }

  lemma OtherAccounted(steps: seq<Step>, id: Id)
    requires |steps| > 0 && Runs(INIT, steps) && Runs(INIT, steps[..|steps| - 1])
    requires Accounted(steps[..|steps| - 1], id)
    requires !IsOwn(id, steps[|steps| - 1])
    ensures Accounted(steps, id)
  {
    hide Runs, After, Delivers, SessionAt, Apply, Enabled, InTable;
    var n := |steps| - 1;
    LastStep(INIT, steps);
    var s := After(INIT, steps[..n]);
    forall key
      ensures SessionAt(steps, Lookup(id), key) == SessionAt(steps[..n], Lookup(id), key)
      ensures SessionAt(steps, Forward(id), key) == SessionAt(steps[..n], Forward(id), key)
    {
      NextSession(steps, Lookup(id), key);
      NextSession(steps, Forward(id), key);
    }
    OwnOfOther(steps, id);
    if id in s.packets {
      var key := s.packets[id].key;
      OtherStepDelivers(s, id, Own(id, steps), steps[n], SessionAt(steps, Lookup(id), key),
                        SessionAt(steps, Forward(id), key));
    } else {
      StillAway(s, id, steps[n]);
    }
  }

  lemma OwnOfOther(steps: seq<Step>, id: Id)
    requires |steps| > 0 && !IsOwn(id, steps[|steps| - 1])
    ensures Own(id, steps) == Own(id, steps[..|steps| - 1])
  {
  }

  lemma StillAway(s: State, id: Id, step: Step)
    requires Enabled(s, step) && !IsOwn(id, step) && id !in s.packets
    ensures id !in Apply(s, step).packets
  {
  }

  // ---- main results ----

  /** What a handler that went this path has delivered: the session that was in the table when it handed
      the packet over, if one was. */
  predicate Delivered(id: Id, p: Packet, path: seq<Step>, first: Option<Id>, later: Option<Id>) {
    && (path == Refused(id, p.key) || path == Failed(id, p.key) ==> p.sent == [])
    && (path == Found(id, p.key) ==> first.Some? && p.sent == [first.value])
    && (path == Waited(id, p.key) || path == Established(id, p.key) ==>
          p.sent == if later.Some? then [later.value] else [])
  }

  lemma DeliversDelivered(id: Id, p: Packet, path: seq<Step>, first: Option<Id>, later: Option<Id>)
    requires p.pc == Done && Delivers(id, p, path, first, later)
    ensures Delivered(id, p, path, first, later)
  {
    assert |Waited(id, p.key)| == 6 && |Established(id, p.key)| == 8 && |Found(id, p.key)| == 3;
  }

  /** The packet went where the table said when it was handed over. */
  ghost predicate DeliveredIn(steps: seq<Step>, id: Id, p: Packet) {
    Delivered(id, p, Own(id, steps), SessionAt(steps, Lookup(id), p.key), SessionAt(steps, Forward(id), p.key))
  }

  /** In every interleaving, a handler that is done has handed its packet to nobody if it refused it or
      failed; to the session it found at its lookup; or else to the session that was in the table when it
      forwarded, if one was. */
  lemma SentRightly(steps: seq<Step>, id: Id)
    requires Runs(INIT, steps) && id in After(INIT, steps).packets && After(INIT, steps).packets[id].pc == Done
    ensures DeliveredIn(steps, id, After(INIT, steps).packets[id])
  {
    hide Runs, After, Delivers, SessionAt, Own, Delivered;
    RunAccounted(steps, id);
    var p := After(INIT, steps).packets[id];
    DeliversDelivered(id, p, Own(id, steps), SessionAt(steps, Lookup(id), p.key), SessionAt(steps, Forward(id), p.key));
  }

  predicate WithinKeys(s: State) {
    forall id, c :: id in s.packets && c in s.packets[id].sent ==>
      c in s.packets && s.packets[c].key == s.packets[id].key
  }

  lemma StepWithinKeys(s: State, step: Step)
    requires Sessions(s) && WithinKeys(s) && Enabled(s, step)
    ensures WithinKeys(Apply(s, step))
  {
    hide Enabled, Apply;
    var t := Apply(s, step);
    forall id, c | id in t.packets && c in t.packets[id].sent
      ensures c in t.packets && t.packets[c].key == t.packets[id].key
    {
      SentGrows(s, step, id);
      if c in s.packets { KeyStays(s, c, step); }
    }
  }

  /** A step hands a packet to the session of its key, or to none. */
  lemma SentGrows(s: State, step: Step, id: Id)
    requires Enabled(s, step) && id in Apply(s, step).packets
    ensures var p := Apply(s, step).packets[id];
      if id in s.packets then
        p.key == s.packets[id].key
        && (p.sent == s.packets[id].sent || (p.key in s.mapping && p.sent == s.packets[id].sent + [s.mapping[p.key]]))
      else p.sent == []
  {
  }

  /** No packet goes to a session of another key. */
  lemma {:induction false} SentWithinKeys(steps: seq<Step>)
    requires Runs(INIT, steps)
    ensures WithinKeys(After(INIT, steps))
    decreases |steps|
  {
    hide WithinKeys, Enabled, Apply, Sessions, Counts, Locks, Fresh, Conds, Runs, After;
    if steps == [] {
      EmptyRun(INIT);
      NoPackets();
    } else {
      LastStep(INIT, steps);
      SentWithinKeys(steps[..|steps| - 1]);
      ReachableInv(steps[..|steps| - 1]);
      StepWithinKeys(After(INIT, steps[..|steps| - 1]), steps[|steps| - 1]);
    }
  }

  lemma NoPackets()
    ensures WithinKeys(INIT)
  {
  }

  // ---- the creator's own packet ----

  lemma StoredStep(s: State, id: Id, step: Step)
    requires Locks(s) && At(s, id, Stored) && Enabled(s, step) && At(Apply(s, step), id, Stored)
    ensures Apply(s, step).packets[id] == s.packets[id]
    ensures InTable(Apply(s, step), s.packets[id].key)
         == if EndsKey(s, step, s.packets[id].key) then None else InTable(s, s.packets[id].key)
  {
  }

  predicate PastStored(s: State, id: Id) {
    id in s.packets && !Unsent(s.packets[id].pc)
  }

  lemma PastStoredStep(s: State, id: Id, step: Step)
    requires Enabled(s, step)
    ensures PastStored(s, id) ==> PastStored(Apply(s, step), id)
    ensures At(s, id, Stored) ==> At(Apply(s, step), id, Stored) || PastStored(Apply(s, step), id)
  {
  }

  lemma {:induction false} PastStoredRun(s: State, id: Id, steps: seq<Step>)
    requires Runs(s, steps)
    ensures PastStored(s, id) ==> PastStored(After(s, steps), id)
    ensures At(s, id, Stored) ==> At(After(s, steps), id, Stored) || PastStored(After(s, steps), id)
    decreases |steps|
  {
    hide PastStored, Enabled, Apply, At;
    if steps != [] {
      PastStoredStep(s, id, steps[0]);
      PastStoredRun(Apply(s, steps[0]), id, steps[1..]);
    }
  }

  /** While the creator has not forwarded yet, its session stays in the table until a session of its key
      ends. */
  lemma {:induction false} StoredStays(s: State, id: Id, steps: seq<Step>)
    requires Inv(s) && At(s, id, Stored) && Runs(s, steps) && At(After(s, steps), id, Stored)
    ensures After(s, steps).packets[id] == s.packets[id]
    ensures InTable(After(s, steps), s.packets[id].key)
         == if Ends(s, steps, s.packets[id].key) then None else InTable(s, s.packets[id].key)
    decreases |steps|
  {
    hide Counts, LocksHeld, OwnersLocked, Sessions, Fresh, Conds, Apply, Enabled, InTable, PastStored, EndsKey;
    if steps != [] {
      var t := Apply(s, steps[0]);
      PastStoredStep(s, id, steps[0]);
      if PastStored(t, id) {
        PastStoredRun(t, id, steps[1..]);
        PastIsNotStored(After(t, steps[1..]), id);
      }
      StoredStep(s, id, steps[0]);
      StepKeepsInv(s, steps[0]);
      StoredStays(t, id, steps[1..]);
    }
  }

  lemma PastIsNotStored(s: State, id: Id)
    ensures PastStored(s, id) ==> !At(s, id, Stored)
  {
  }

  /** A creator's own packet goes to the session it has just stored, unless a session of its key ends
      before it forwards; then it goes to nobody. */
  lemma CreatorSendsExactly(s: State, id: Id, between: seq<Step>)
    requires Inv(s) && Enabled(s, Store(id))
    requires Runs(Apply(s, Store(id)), between) && Enabled(After(Apply(s, Store(id)), between), Forward(id))
    ensures var t := Apply(s, Store(id));
      var p := Apply(After(t, between), Forward(id)).packets[id];
      p.sent == if Ends(t, between, s.packets[id].key) then [] else [id]
  {
    hide Runs, After, Ends, Counts, Locks, Sessions, Fresh, Conds;
    var key, t := s.packets[id].key, Apply(s, Store(id));
    StepKeepsInv(s, Store(id));
    assert At(t, id, Stored) && t.packets[id].key == key && InTable(t, key) == Some(id);
    PastStoredRun(t, id, between);
    StoredStays(t, id, between);
    StoredUnsent(t, id);
  }

  lemma StoredUnsent(s: State, id: Id)
    requires Inv(s) && At(s, id, Stored)
    ensures s.packets[id].sent == []
  {
  }
}
