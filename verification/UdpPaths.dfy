/** The steps of one handler, taken out of an interleaving, are a path through its code. */
module UdpPaths {
  import opened UdpSpec

  /** A step of the handler of packet `id`; the end of a session is its receiver's. */
  predicate IsOwn(id: Id, step: Step) {
    !step.EndSession? && step.id == id
  }

  function Own(id: Id, steps: seq<Step>): seq<Step> {
    if steps == [] then []
    else
      var n := |steps| - 1;
      Own(id, steps[..n]) + if IsOwn(id, steps[n]) then [steps[n]] else []
  }

  // ---- the code of the handler ----

  /** A packet that is dropped before any lookup. */
  function Refused(id: Id, key: string): seq<Step> {
    [Arrive(id, key), Reject(id), Drop(id)]
  }

  /** The session is there. */
  function Found(id: Id, key: string): seq<Step> {
    [Arrive(id, key), Lookup(id), Drop(id)]
  }

  /** Another handler creates the session. */
  function Waited(id: Id, key: string): seq<Step> {
    [Arrive(id, key), Lookup(id), TakeLock(id), BeginWait(id), Forward(id), Drop(id)]
  }

  /** This handler creates the session: deferred calls run last, the unlocking before the drop. */
  function Established(id: Id, key: string): seq<Step> {
    [Arrive(id, key), Lookup(id), TakeLock(id), Store(id), Forward(id), Unlock(id), Broadcast(id), Drop(id)]
  }

  /** It fails to. */
  function Failed(id: Id, key: string): seq<Step> {
    [Arrive(id, key), Lookup(id), TakeLock(id), Fail(id), Unlock(id), Broadcast(id), Drop(id)]
  }

  predicate IsPath(id: Id, key: string, own: seq<Step>) {
    own == Refused(id, key) || own == Found(id, key) || own == Waited(id, key)
    || own == Established(id, key) || own == Failed(id, key)
  }

  /** A path, or a beginning of one. */
  ghost predicate OnPath(id: Id, key: string, own: seq<Step>) {
    exists path :: IsPath(id, key, path) && own <= path
  }

  /** Which beginning belongs to which point of the code. */
  predicate Traced(id: Id, p: Packet, own: seq<Step>) {
    match p.pc
    case Start => own == Found(id, p.key)[..1]
    case Missed => own == Waited(id, p.key)[..2]
    case Spawned(_) => own == Waited(id, p.key)[..3]
    case Waiting(_) => own == Waited(id, p.key)[..4]
    case Woken(_) => own == Waited(id, p.key)[..4]
    case Creating => own == Established(id, p.key)[..3]
    case Stored => own == Established(id, p.key)[..4]
    case Closing => own == Established(id, p.key)[..5] || own == Failed(id, p.key)[..4]
    case Broadcasting => own == Established(id, p.key)[..6] || own == Failed(id, p.key)[..5]
    case Returning => IsPath(id, p.key, own + [Drop(id)])
    case Done => IsPath(id, p.key, own)
  }

  lemma {:induction false} LastStep(s: State, steps: seq<Step>)
    requires Runs(s, steps) && |steps| > 0
    ensures var n := |steps| - 1;
      Runs(s, steps[..n]) && Enabled(After(s, steps[..n]), steps[n])
      && After(s, steps) == Apply(After(s, steps[..n]), steps[n])
    decreases |steps|
  {
    hide Enabled, Apply;
    var n := |steps| - 1;
    if n == 0 {
      EmptyRun(s);
      EmptyRun(Apply(s, steps[0]));
      assert steps[1..] == [] && steps[..0] == [];
    } else {
      LastStep(Apply(s, steps[0]), steps[1..]);
      assert steps[1..][..n - 1] == steps[..n][1..];
    }
  }

  /** The point of the code that an own step leads to. */
  predicate LeadsTo(id: Id, p: Packet, step: Step, q: Packet) {
    q.key == p.key && match step
    case Reject(_) => p.pc == Start && q.pc == Returning
    case Lookup(_) => p.pc == Start && (q.pc == Returning || q.pc == Missed)
    case TakeLock(_) => p.pc == Missed && (q.pc.Spawned? || q.pc == Creating)
    case BeginWait(_) => p.pc.Spawned? && q.pc.Waiting?
    case Fail(_) => p.pc == Creating && q.pc == Closing
    case Store(_) => p.pc == Creating && q.pc == Stored
    case Forward(_) => if p.pc == Stored then q.pc == Closing else p.pc.Woken? && q.pc == Returning
    case Unlock(_) => p.pc == Closing && q.pc == Broadcasting
    case Broadcast(_) => p.pc == Broadcasting && q.pc == Returning
    case Drop(_) => p.pc == Returning && q.pc == Done
    case _ => false
  }

  lemma OwnStepLeads(s: State, id: Id, step: Step)
    requires Enabled(s, step) && IsOwn(id, step)
    ensures id in Apply(s, step).packets
    ensures step.Arrive? ==> id !in s.packets && Apply(s, step).packets[id] == Packet(step.key, Start, [], 0)
    ensures !step.Arrive? ==> id in s.packets && LeadsTo(id, s.packets[id], step, Apply(s, step).packets[id])
  {
  }

  lemma LeadsTraced(id: Id, p: Packet, own: seq<Step>, step: Step, q: Packet)
    requires Traced(id, p, own) && IsOwn(id, step) && LeadsTo(id, p, step, q)
    ensures Traced(id, q, own + [step])
  {
  }

  lemma OwnStepTraced(s: State, id: Id, own: seq<Step>, step: Step)
    requires Enabled(s, step) && IsOwn(id, step)
    requires if id in s.packets then Traced(id, s.packets[id], own) else own == []
    ensures id in Apply(s, step).packets && Traced(id, Apply(s, step).packets[id], own + [step])
  {
    hide Enabled, Apply, LeadsTo;
    OwnStepLeads(s, id, step);
    if !step.Arrive? {
      hide Traced;
      LeadsTraced(id, s.packets[id], own, step, Apply(s, step).packets[id]);
    }
  }

  lemma OtherStepTraced(s: State, id: Id, own: seq<Step>, step: Step)
    requires Enabled(s, step) && !IsOwn(id, step)
    requires if id in s.packets then Traced(id, s.packets[id], own) else own == []
    ensures id in Apply(s, step).packets <==> id in s.packets
    ensures id in s.packets ==> Traced(id, Apply(s, step).packets[id], own)
  {
  }

  lemma {:induction false} RunTraced(steps: seq<Step>, id: Id)
    requires Runs(INIT, steps)
    ensures var s := After(INIT, steps);
      if id in s.packets then Traced(id, s.packets[id], Own(id, steps)) else Own(id, steps) == []
    decreases |steps|
  {
    hide Enabled, Apply, Traced, IsOwn;
    if steps == [] {
      EmptyRun(INIT);
    } else {
      var n := |steps| - 1;
      LastStep(INIT, steps);
      RunTraced(steps[..n], id);
      var s, own := After(INIT, steps[..n]), Own(id, steps[..n]);
      if IsOwn(id, steps[n]) {
        OwnStepTraced(s, id, own, steps[n]);
      } else {
        OtherStepTraced(s, id, own, steps[n]);
        assert own + [] == own;
      }
    }
  }

  lemma DropIsLast(id: Id, key: string, path: seq<Step>)
    ensures IsPath(id, key, path) ==>
      path != [] && forall i :: 0 <= i < |path| ==> (path[i] == Drop(id) <==> i == |path| - 1)
  {
  }

  /** A handler that is not done is on its way through a path. */
  lemma Unfinished(id: Id, p: Packet, own: seq<Step>) returns (path: seq<Step>)
    requires Traced(id, p, own) && p.pc != Done
    ensures IsPath(id, p.key, path) && own < path
  {
    var k := p.key;
    var waited, established, failed := Waited(id, k), Established(id, k), Failed(id, k);
    if p.pc == Returning {
      path := own + [Drop(id)];
    } else if p.pc == Start || p.pc == Missed || p.pc.Spawned? || p.pc.Waiting? || p.pc.Woken? {
      assert Found(id, k)[..1] == waited[..1];
      path := waited;
    } else if own < established {
      path := established;
    } else {
      path := failed;
    }
  }

  lemma TracedOnPath(id: Id, p: Packet, own: seq<Step>)
    requires Traced(id, p, own)
    ensures OnPath(id, p.key, own)
    ensures p.pc == Done <==> IsPath(id, p.key, own)
  {
    if p.pc != Done {
      var path := Unfinished(id, p, own);
      hide IsPath;
      DropIsLast(id, p.key, path);
      DropIsLast(id, p.key, own);
      assert own != [] ==> own[|own| - 1] == path[|own| - 1] != Drop(id);
    }
  }

  /** In every interleaving the steps of one handler are a beginning of one of the five paths through
      its code, and a whole path exactly when it is done. */
  lemma HandlerFollowsCode(steps: seq<Step>, id: Id)
    requires Runs(INIT, steps) && id in After(INIT, steps).packets
    ensures var p := After(INIT, steps).packets[id];
      OnPath(id, p.key, Own(id, steps)) && (p.pc == Done <==> IsPath(id, p.key, Own(id, steps)))
  {
    hide Traced, OnPath, IsPath, Runs, After, Own;
    RunTraced(steps, id);
    TracedOnPath(id, After(INIT, steps).packets[id], Own(id, steps));
  }
}
