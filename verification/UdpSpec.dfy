/** UDP session creation as interleaved steps of packet handlers. A condition variable and a session
    are each named by the packet whose handler made them. */
module UdpSpec {
  type Id = nat

  datatype Pc =
    | Start                 // before the session lookup
    | Missed                // no session was found
    | Spawned(cond: Id)     // another handler creates the session; not waiting yet
    | Waiting(cond: Id)
    | Woken(cond: Id)
    | Creating              // got the lock
    | Stored                // the session is in the table
    | Closing               // about to release the lock
    | Broadcasting          // released the lock, waiters not yet woken
    | Returning             // about to drop the packet
    | Done

  /** `sent` lists the sessions it was handed to. */
  datatype Packet = Packet(key: string, pc: Pc, sent: seq<Id>, dropped: nat)

  /** `live` holds the sessions whose receiver runs; `stale` the keys whose lock was once granted while
      a session was in the table. */
  datatype State = State(
    packets: map<Id, Packet>, mapping: map<string, Id>, lockMap: map<string, Id>, live: set<Id>,
    stale: set<string>)

  datatype Step =
    | Arrive(id: Id, key: string)
    | Reject(id: Id)
    | Lookup(id: Id)
    | TakeLock(id: Id)
    | BeginWait(id: Id)
    | Fail(id: Id)
    | Store(id: Id)
    | Forward(id: Id)
    | Unlock(id: Id)
    | Broadcast(id: Id)
    | Drop(id: Id)
    | EndSession(id: Id)

  const INIT := State(map[], map[], map[], {}, {})

  predicate At(s: State, id: Id, pc: Pc) {
    id in s.packets && s.packets[id].pc == pc
  }

  predicate Enabled(s: State, step: Step) {
    match step
    case Arrive(id, _) => id !in s.packets
    case Reject(id) => At(s, id, Start)
    case Lookup(id) => At(s, id, Start)
    case TakeLock(id) => At(s, id, Missed)
    case BeginWait(id) => id in s.packets && s.packets[id].pc.Spawned?
    case Fail(id) => At(s, id, Creating)
    case Store(id) => At(s, id, Creating)
    case Forward(id) => id in s.packets && (s.packets[id].pc == Stored || s.packets[id].pc.Woken?)
    case Unlock(id) => At(s, id, Closing)
    case Broadcast(id) => At(s, id, Broadcasting)
    case Drop(id) => At(s, id, Returning)
    case EndSession(id) => id in s.live && id in s.packets
  }

  function Goto(s: State, id: Id, pc: Pc): State
    requires id in s.packets
  {
    s.(packets := s.packets[id := s.packets[id].(pc := pc)])
  }

  /** The packet is handed to the session of its key, if the table has one. */
  function Handle(s: State, id: Id, pc: Pc): State
    requires id in s.packets
  {
    var p := s.packets[id];
    var sent := if p.key in s.mapping then p.sent + [s.mapping[p.key]] else p.sent;
    s.(packets := s.packets[id := p.(pc := pc, sent := sent)])
  }

  function WakeOne(p: Packet, cond: Id): Packet {
    if p.pc == Waiting(cond) then p.(pc := Woken(cond)) else p
  }

  function Apply(s: State, step: Step): State
    requires Enabled(s, step)
  {
    match step
    case Arrive(id, key) => s.(packets := s.packets[id := Packet(key, Start, [], 0)])
    case Reject(id) => Goto(s, id, Returning)
    case Lookup(id) => Handle(s, id, if s.packets[id].key in s.mapping then Returning else Missed)
    case TakeLock(id) =>
      var key := s.packets[id].key;
      if key in s.lockMap then Goto(s, id, Spawned(s.lockMap[key]))
      else Goto(s, id, Creating).(
        lockMap := s.lockMap[key := id],
        stale := if key in s.mapping then s.stale + {key} else s.stale)
    case BeginWait(id) => Goto(s, id, Waiting(s.packets[id].pc.cond))
    case Fail(id) => Goto(s, id, Closing)
    case Store(id) => Goto(s, id, Stored).(mapping := s.mapping[s.packets[id].key := id], live := s.live + {id})
    case Forward(id) => Handle(s, id, if s.packets[id].pc == Stored then Closing else Returning)
    case Unlock(id) => Goto(s, id, Broadcasting).(lockMap := s.lockMap - {s.packets[id].key})
    case Broadcast(id) =>
      Goto(s.(packets := map i | i in s.packets :: WakeOne(s.packets[i], id)), id, Returning)
    case Drop(id) =>
      var p := s.packets[id];
      s.(packets := s.packets[id := p.(pc := Done, dropped := p.dropped + 1)])
    case EndSession(id) => s.(live := s.live - {id}, mapping := s.mapping - {s.packets[id].key})
  }

  // ---- what every step keeps ----

  /** Handlers between taking and releasing the lock. */
  predicate Owns(pc: Pc) {
    pc.Creating? || pc.Stored? || pc.Closing?
  }

  predicate Unsent(pc: Pc) {
    !pc.Closing? && !pc.Broadcasting? && !pc.Returning? && !pc.Done?
  }

  predicate Counted(p: Packet) {
    && p.dropped == (if p.pc.Done? then 1 else 0)
    && |p.sent| <= 1
    && (Unsent(p.pc) ==> p.sent == [])
  }

  predicate Counts(s: State) {
    forall id :: id in s.packets ==> Counted(s.packets[id])
  }

  predicate LocksHeld(s: State) {
    forall k :: k in s.lockMap ==>
      s.lockMap[k] in s.packets && s.packets[s.lockMap[k]].key == k && Owns(s.packets[s.lockMap[k]].pc)
  }

  predicate OwnersLocked(s: State) {
    forall id :: id in s.packets && Owns(s.packets[id].pc) ==>
      s.packets[id].key in s.lockMap && s.lockMap[s.packets[id].key] == id
  }

  /** The lock of a key is held exactly by the one handler that creates its session. */
  predicate Locks(s: State) {
    LocksHeld(s) && OwnersLocked(s)
  }

  predicate Created(pc: Pc) {
    pc.Stored? || !Unsent(pc)
  }

  predicate Sessions(s: State) {
    && (forall k :: k in s.mapping ==>
        s.mapping[k] in s.live && s.mapping[k] in s.packets && s.packets[s.mapping[k]].key == k)
    && (forall c :: c in s.live ==> c in s.packets && Created(s.packets[c].pc))
  }

  predicate CreatorsFree(s: State) {
    forall id :: id in s.packets && s.packets[id].pc.Creating? && s.packets[id].key !in s.stale ==>
      s.packets[id].key !in s.mapping
  }

  predicate LiveInTable(s: State) {
    forall c :: c in s.live && c in s.packets && s.packets[c].key !in s.stale ==>
      s.packets[c].key in s.mapping && s.mapping[s.packets[c].key] == c
  }

  /** Unless a lock was granted over a session, a creator finds its key free, and every running session
      is the one in the table. */
  predicate Fresh(s: State) {
    CreatorsFree(s) && LiveInTable(s)
  }

  /** Handlers that got the lock at some time. */
  predicate GotLock(pc: Pc) {
    Owns(pc) || pc.Broadcasting? || pc.Returning? || pc.Done?
  }

  /** The condition variable somebody waits for, or is about to, belongs to a handler that got the lock
      of the same key. */
  predicate Conds(s: State) {
    forall id :: id in s.packets && (s.packets[id].pc.Spawned? || s.packets[id].pc.Waiting?) ==>
      var c := s.packets[id].pc.cond;
      c in s.packets && GotLock(s.packets[c].pc) && s.packets[c].key == s.packets[id].key
  }

  predicate Inv(s: State) {
    Counts(s) && Locks(s) && Sessions(s) && Fresh(s) && Conds(s)
  }

  lemma CountsKept(s: State, step: Step)
    requires Counts(s) && Enabled(s, step)
    ensures Counts(Apply(s, step))
  {
  }

  lemma LocksHeldKept(s: State, step: Step)
    requires Locks(s) && Enabled(s, step)
    ensures LocksHeld(Apply(s, step))
  {
  }

  lemma OwnersLockedKept(s: State, step: Step)
    requires Locks(s) && Enabled(s, step)
    ensures OwnersLocked(Apply(s, step))
  {
  }

  lemma SessionsKept(s: State, step: Step)
    requires Sessions(s) && Enabled(s, step)
    ensures Sessions(Apply(s, step))
  {
  }

  lemma CreatorsFreeKept(s: State, step: Step)
    requires Locks(s) && CreatorsFree(s) && Enabled(s, step)
    ensures CreatorsFree(Apply(s, step))
  {
  }

  lemma LiveInTableKept(s: State, step: Step)
    requires Sessions(s) && Fresh(s) && Enabled(s, step)
    ensures LiveInTable(Apply(s, step))
  {
  }

  lemma CondsKept(s: State, step: Step)
    requires LocksHeld(s) && Conds(s) && Enabled(s, step)
    ensures Conds(Apply(s, step))
  {
  }

  lemma StepKeepsInv(s: State, step: Step)
    requires Inv(s) && Enabled(s, step)
    ensures Inv(Apply(s, step))
  {
    hide Counts, LocksHeld, OwnersLocked, Sessions, CreatorsFree, LiveInTable, Conds, Enabled, Apply;
    CountsKept(s, step);
    CondsKept(s, step);
    LocksHeldKept(s, step);
    OwnersLockedKept(s, step);
    SessionsKept(s, step);
    CreatorsFreeKept(s, step);
    LiveInTableKept(s, step);
  }

  // ---- runs ----

  predicate Runs(s: State, steps: seq<Step>)
    decreases |steps|
  {
    steps == [] || (Enabled(s, steps[0]) && Runs(Apply(s, steps[0]), steps[1..]))
  }

  function After(s: State, steps: seq<Step>): State
    requires Runs(s, steps)
    decreases |steps|
  {
    if steps == [] then s else After(Apply(s, steps[0]), steps[1..])
  }

  lemma {:induction false} RunKeepsInv(s: State, steps: seq<Step>)
    requires Inv(s) && Runs(s, steps)
    ensures Inv(After(s, steps))
    decreases |steps|
  {
    hide Inv, Enabled, Apply;
    if steps != [] {
      StepKeepsInv(s, steps[0]);
      RunKeepsInv(Apply(s, steps[0]), steps[1..]);
    }
  }

  lemma ReachableInv(steps: seq<Step>)
    requires Runs(INIT, steps)
    ensures Inv(After(INIT, steps))
  {
    assert Inv(INIT);
    hide *;
    RunKeepsInv(INIT, steps);
  }

  // ---- what holds in every run ----

  function Creators(s: State, key: string): set<Id> {
    set id | id in s.packets && s.packets[id].key == key && Owns(s.packets[id].pc)
  }

  /** In every interleaving one handler creates a session for a key when its lock is in the map, and
      none when it is not. */
  lemma OneCreator(steps: seq<Step>, key: string)
    requires Runs(INIT, steps)
    ensures var s := After(INIT, steps);
      Creators(s, key) == (if key in s.lockMap then {s.lockMap[key]} else {})
      && |Creators(s, key)| == if key in s.lockMap then 1 else 0
  {
    hide Counts, Sessions, Fresh, Conds, Apply, Enabled;
    ReachableInv(steps);
    var s := After(INIT, steps);
    assert Creators(s, key) == if key in s.lockMap then {s.lockMap[key]} else {};
  }

  /** Only the handler that holds the lock of a key stores a session for it. */
  lemma OnlyCreatorStores(steps: seq<Step>, id: Id)
    requires Runs(INIT, steps) && Enabled(After(INIT, steps), Store(id))
    ensures var s := After(INIT, steps); var key := s.packets[id].key;
      key in s.lockMap && s.lockMap[key] == id
  {
    hide Counts, Sessions, Fresh, Conds, Apply;
    ReachableInv(steps);
  }

  /** No packet is dropped twice or sent twice, and it is dropped exactly when its handler is done. */
  lemma DroppedOnce(steps: seq<Step>, id: Id)
    requires Runs(INIT, steps) && id in After(INIT, steps).packets
    ensures var p := After(INIT, steps).packets[id];
      p.dropped <= 1 && |p.sent| <= 1 && (p.dropped == 1 <==> p.pc == Done)
  {
    hide Locks, Sessions, Fresh, Conds, Apply, Enabled;
    ReachableInv(steps);
  }

  /** A key whose lock was never granted over a session has at most one running session, the one that
      the table finds. */
  lemma SessionIsFound(steps: seq<Step>, c: Id)
    requires Runs(INIT, steps) && c in After(INIT, steps).live
    ensures var s := After(INIT, steps); c in s.packets
    ensures var s := After(INIT, steps);
      s.packets[c].key !in s.stale ==> s.packets[c].key in s.mapping && s.mapping[s.packets[c].key] == c
  {
    hide Counts, Locks, Conds, Apply, Enabled;
    ReachableInv(steps);
  }

  // ---- storing over a running session ----

  predicate EndsKey(s: State, step: Step, key: string) {
    step.EndSession? && step.id in s.packets && s.packets[step.id].key == key
  }

  /** A session of `key` ends in the run. */
  predicate Ends(s: State, steps: seq<Step>, key: string)
    requires Runs(s, steps)
    decreases |steps|
  {
    steps != [] && (EndsKey(s, steps[0], key) || Ends(Apply(s, steps[0]), steps[1..], key))
  }

  /** While a handler creates, nobody else stores under its key; a session found there stays until it ends. */
  lemma CreatingStep(s: State, id: Id, step: Step)
    requires Locks(s) && At(s, id, Creating) && Enabled(s, step) && At(Apply(s, step), id, Creating)
    ensures Apply(s, step).packets[id].key == s.packets[id].key
    ensures s.packets[id].key in Apply(s, step).mapping
      <==> s.packets[id].key in s.mapping && !EndsKey(s, step, s.packets[id].key)
    ensures s.packets[id].key in Apply(s, step).mapping
      ==> Apply(s, step).mapping[s.packets[id].key] == s.mapping[s.packets[id].key]
  {
  }

  predicate PastCreating(s: State, id: Id) {
    id in s.packets && !s.packets[id].pc.Creating? && s.packets[id].pc != Start && s.packets[id].pc != Missed
  }

  lemma PastCreatingStep(s: State, id: Id, step: Step)
    requires PastCreating(s, id) && Enabled(s, step)
    ensures PastCreating(Apply(s, step), id)
  {
  }

  lemma {:induction false} PastCreatingRun(s: State, id: Id, steps: seq<Step>)
    requires Runs(s, steps) && PastCreating(s, id)
    ensures PastCreating(After(s, steps), id)
    decreases |steps|
  {
    hide PastCreating, Enabled, Apply;
    if steps != [] {
      PastCreatingStep(s, id, steps[0]);
      PastCreatingRun(Apply(s, steps[0]), id, steps[1..]);
    }
  }

  lemma StillCreating(s: State, id: Id, step: Step, rest: seq<Step>)
    requires Enabled(s, step) && At(s, id, Creating) && Runs(Apply(s, step), rest)
    requires At(After(Apply(s, step), rest), id, Creating)
    ensures At(Apply(s, step), id, Creating)
  {
    hide After, Runs;
    if PastCreating(Apply(s, step), id) {
      PastCreatingRun(Apply(s, step), id, rest);
    }
  }

  /** What a creator will store over is exactly the session that was in the table when it got the lock,
      unless a session of the key has ended since. */
  lemma {:induction false} ReplacesExactly(s: State, id: Id, steps: seq<Step>)
    requires Inv(s) && At(s, id, Creating) && Runs(s, steps) && At(After(s, steps), id, Creating)
    ensures After(s, steps).packets[id].key == s.packets[id].key
    ensures s.packets[id].key in After(s, steps).mapping
      <==> s.packets[id].key in s.mapping && !Ends(s, steps, s.packets[id].key)
    ensures s.packets[id].key in After(s, steps).mapping
      ==> After(s, steps).mapping[s.packets[id].key] == s.mapping[s.packets[id].key]
    decreases |steps|
  {
    hide Counts, LocksHeld, OwnersLocked, Sessions, Fresh, Conds, Apply, Enabled;
    if steps != [] {
      StillCreating(s, id, steps[0], steps[1..]);
      CreatingStep(s, id, steps[0]);
      StepKeepsInv(s, steps[0]);
      ReplacesExactly(Apply(s, steps[0]), id, steps[1..]);
    }
  }

  // ---- waiting for a broadcast that has been ----

  predicate Stuck(s: State, id: Id, c: Id) {
    At(s, id, Waiting(c)) && c in s.packets && (s.packets[c].pc == Returning || s.packets[c].pc == Done)
  }

  lemma StuckStep(s: State, id: Id, c: Id, step: Step)
    requires Stuck(s, id, c) && Enabled(s, step)
    ensures Stuck(Apply(s, step), id, c) && Apply(s, step).packets[id] == s.packets[id]
  {
  }

  /** A handler that starts to wait after the broadcast waits in every continuation: its packet is neither
      sent nor dropped. */
  lemma {:induction false} StuckForever(s: State, id: Id, c: Id, steps: seq<Step>)
    requires Stuck(s, id, c) && Runs(s, steps)
    ensures Stuck(After(s, steps), id, c) && After(s, steps).packets[id] == s.packets[id]
    decreases |steps|
  {
    hide Stuck, Enabled, Apply;
    if steps != [] {
      StuckStep(s, id, c, steps[0]);
      StuckForever(Apply(s, steps[0]), id, c, steps[1..]);
    }
  }

  ghost predicate CanLeave(s: State, id: Id, c: Id) {
    exists more :: Runs(s, more) && !At(After(s, more), id, Waiting(c))
  }

  /** How far a creator is from its broadcast. */
  function StepsToBroadcast(pc: Pc): nat {
    match pc
    case Creating => 3
    case Stored => 3
    case Closing => 2
    case Broadcasting => 1
    case _ => 0
  }

  /** The creator's own next step. */
  function TowardsBroadcast(c: Id, pc: Pc): Step {
    match pc
    case Creating => Fail(c)
    case Stored => Forward(c)
    case Closing => Unlock(c)
    case _ => Broadcast(c)
  }

  lemma NextTowards(s: State, id: Id, c: Id)
    requires At(s, id, Waiting(c)) && c in s.packets && StepsToBroadcast(s.packets[c].pc) > 0
    ensures var step := TowardsBroadcast(c, s.packets[c].pc);
      Enabled(s, step) && c in Apply(s, step).packets
      && (At(Apply(s, step), id, Waiting(c)) ==>
          0 < StepsToBroadcast(Apply(s, step).packets[c].pc) < StepsToBroadcast(s.packets[c].pc))
  {
  }

  lemma {:induction false} WakeRun(s: State, id: Id, c: Id) returns (more: seq<Step>)
    requires At(s, id, Waiting(c)) && c in s.packets && StepsToBroadcast(s.packets[c].pc) > 0
    ensures Runs(s, more) && !At(After(s, more), id, Waiting(c))
    decreases StepsToBroadcast(s.packets[c].pc)
  {
    hide Enabled, Apply, TowardsBroadcast, StepsToBroadcast;
    var step := TowardsBroadcast(c, s.packets[c].pc);
    NextTowards(s, id, c);
    var t := Apply(s, step);
    EmptyRun(t);
    more := [step];
    if At(t, id, Waiting(c)) {
      var rest := WakeRun(t, id, c);
      more := [step] + rest;
      assert more[1..] == rest;
    } else {
      assert more[1..] == [];
    }
  }

  /** A waiter can be woken in some continuation if and only if it is not stuck: if and only if it began
      to wait before the broadcast. */
  lemma WakesExactly(steps: seq<Step>, id: Id, c: Id)
    requires Runs(INIT, steps) && At(After(INIT, steps), id, Waiting(c))
    ensures CanLeave(After(INIT, steps), id, c) <==> !Stuck(After(INIT, steps), id, c)
  {
    hide Counts, Locks, Sessions, Fresh, Apply, Enabled, Runs, After;
    ReachableInv(steps);
    var s := After(INIT, steps);
    if Stuck(s, id, c) {
      forall more | Runs(s, more) ensures At(After(s, more), id, Waiting(c)) {
        StuckForever(s, id, c, more);
      }
    } else {
      var more := WakeRun(s, id, c);
    }
  }

  // ---- two runs the code allows ----

  lemma {:induction false} Then(s: State, steps: seq<Step>, step: Step)
    requires Runs(s, steps) && Enabled(After(s, steps), step)
    ensures Runs(s, steps + [step]) && After(s, steps + [step]) == Apply(After(s, steps), step)
    decreases |steps|
  {
    hide Enabled, Apply;
    if steps == [] {
      assert Runs(Apply(s, step), []);
    } else {
      assert (steps + [step])[1..] == steps[1..] + [step];
      Then(Apply(s, steps[0]), steps[1..], step);
    }
  }

  /** Extends a run whose last state is `s` by a step into `t`. */
  lemma Next(steps: seq<Step>, s: State, step: Step, t: State) returns (more: seq<Step>)
    requires Runs(INIT, steps) && After(INIT, steps) == s && Enabled(s, step) && Apply(s, step) == t
    ensures Runs(INIT, more) && After(INIT, more) == t
  {
    hide Enabled, Apply, After, Runs;
    Then(INIT, steps, step);
    more := steps + [step];
  }

  lemma EmptyRun(s: State)
    ensures Runs(s, []) && After(s, []) == s
  {
  }

  /** A run that ends with the packets 1 and 2 of one key at these points. */
  ghost predicate Leads(steps: seq<Step>, s: State) {
    Runs(INIT, steps) && After(INIT, steps) == s
  }

  function Both(key: string, a: Pc, sent: seq<Id>, b: Pc): map<Id, Packet> {
    map[1 := Packet(key, a, sent, 0), 2 := Packet(key, b, [], 0)]
  }

  /** Two packets of one key have both missed the session. */
  lemma BothMissed(key: string) returns (steps: seq<Step>)
    ensures Leads(steps, State(Both(key, Missed, [], Missed), map[], map[], {}, {}))
  {
    hide Runs, After;
    EmptyRun(INIT);
    var s1 := State(map[1 := Packet(key, Start, [], 0)], map[], map[], {}, {});
    steps := Next([], INIT, Arrive(1, key), s1);
    var s2 := State(Both(key, Start, [], Start), map[], map[], {}, {});
    steps := Next(steps, s1, Arrive(2, key), s2);
    var s3 := State(Both(key, Missed, [], Start), map[], map[], {}, {});
    steps := Next(steps, s2, Lookup(1), s3);
    steps := Next(steps, s3, Lookup(2), State(Both(key, Missed, [], Missed), map[], map[], {}, {}));
  }

  lemma FirstStored(key: string) returns (steps: seq<Step>)
    ensures Leads(steps, State(Both(key, Stored, [], Missed), map[key := 1], map[key := 1], {1}, {}))
  {
    hide Runs, After;
    steps := BothMissed(key);
    var s1 := State(Both(key, Creating, [], Missed), map[], map[key := 1], {}, {});
    steps := Next(steps, State(Both(key, Missed, [], Missed), map[], map[], {}, {}), TakeLock(1), s1);
    steps := Next(steps, s1, Store(1), State(Both(key, Stored, [], Missed), map[key := 1], map[key := 1], {1}, {}));
  }

  lemma FirstReleased(key: string) returns (steps: seq<Step>)
    ensures Leads(steps, State(Both(key, Broadcasting, [1], Missed), map[key := 1], map[], {1}, {}))
  {
    hide Runs, After;
    steps := FirstStored(key);
    var s1 := State(Both(key, Closing, [1], Missed), map[key := 1], map[key := 1], {1}, {});
    assert [] + [1] == [1];
    steps := Next(steps, State(Both(key, Stored, [], Missed), map[key := 1], map[key := 1], {1}, {}), Forward(1), s1);
    steps := Next(steps, s1, Unlock(1), State(Both(key, Broadcasting, [1], Missed), map[key := 1], map[], {1}, {}));
  }

  /** A handler that missed the session gets the lock after the session was stored, stores a second one
      over it, and loses its own when the first one ends. */
  lemma LateCreator(key: string) returns (steps: seq<Step>)
    ensures Leads(steps, State(Both(key, Broadcasting, [1], Stored), map[], map[key := 2], {2}, {key}))
  {
    hide Runs, After;
    steps := FirstReleased(key);
    var s0 := State(Both(key, Broadcasting, [1], Missed), map[key := 1], map[], {1}, {});
    var s1 := State(Both(key, Broadcasting, [1], Creating), map[key := 1], map[key := 2], {1}, {key});
    steps := Next(steps, s0, TakeLock(2), s1);
    var s2 := State(Both(key, Broadcasting, [1], Stored), map[key := 2], map[key := 2], {1, 2}, {key});
    steps := Next(steps, s1, Store(2), s2);
    var s3 := State(Both(key, Broadcasting, [1], Stored), map[], map[key := 2], {2}, {key});
    steps := Next(steps, s2, EndSession(1), s3);
  }

  lemma SecondSpawned(key: string) returns (steps: seq<Step>)
    ensures Leads(steps, State(Both(key, Creating, [], Spawned(1)), map[], map[key := 1], {}, {}))
  {
    hide Runs, After;
    steps := BothMissed(key);
    var s1 := State(Both(key, Creating, [], Missed), map[], map[key := 1], {}, {});
    steps := Next(steps, State(Both(key, Missed, [], Missed), map[], map[], {}, {}), TakeLock(1), s1);
    steps := Next(steps, s1, TakeLock(2), State(Both(key, Creating, [], Spawned(1)), map[], map[key := 1], {}, {}));
  }

  lemma FirstFailed(key: string) returns (steps: seq<Step>)
    ensures Leads(steps, State(Both(key, Broadcasting, [], Spawned(1)), map[], map[], {}, {}))
  {
    hide Runs, After;
    steps := SecondSpawned(key);
    var s1 := State(Both(key, Closing, [], Spawned(1)), map[], map[key := 1], {}, {});
    steps := Next(steps, State(Both(key, Creating, [], Spawned(1)), map[], map[key := 1], {}, {}), Fail(1), s1);
    steps := Next(steps, s1, Unlock(1), State(Both(key, Broadcasting, [], Spawned(1)), map[], map[], {}, {}));
  }

  /** A handler that is not waiting yet when its creator broadcasts is stuck. */
  lemma LostWakeup(key: string) returns (steps: seq<Step>)
    ensures Runs(INIT, steps) && Stuck(After(INIT, steps), 2, 1)
  {
    hide Runs, After;
    steps := FirstFailed(key);
    var s1 := State(Both(key, Returning, [], Spawned(1)), map[], map[], {}, {});
    steps := Next(steps, State(Both(key, Broadcasting, [], Spawned(1)), map[], map[], {}, {}), Broadcast(1), s1);
    steps := Next(steps, s1, BeginWait(2), State(Both(key, Returning, [], Waiting(1)), map[], map[], {}, {}));
  }
}
