/**
The batch protocol of JLJITLinkMemoryManager (src/cgmemmgr.cpp): the last in-flight allocation
to complete applies the page protections for all of them and releases the callbacks that had
to wait.  Each event is one critical section of the mutex, or one callback run outside it, so
a run is any interleaving of the calls of any number of threads.
 */
module JitBatch {

  /** A finalization callback, with whether its memory includes executable memory. */
  datatype Pending = Pending(id: nat, exec: bool)

  /** The manager's own fields. */
  datatype Batch = Batch(inFlight: nat, deferred: seq<Pending>)

  /**
  One allocation less: the batch, the released callbacks, and whether protections were applied.
  Only called with an allocation in flight, which `InFlightPositive` shows of every run.
   */
  function Complete(b: Batch): (r: (Batch, seq<Pending>, bool)) {
    if b.inFlight > 1 then (b.(inFlight := b.inFlight - 1), [], false)
    else (Batch(0, []), b.deferred, true)
  }

  /** A finalized allocation: its callback is deferred if it covers executable memory. */
  function Finalize(b: Batch, p: Pending): (r: (Batch, seq<Pending>, bool)) {
    if p.exec then Complete(b.(deferred := b.deferred + [p]))
    else
      var (b', released, last) := Complete(b);
      (b', [p] + released, last)
  }

  class MemoryManager {
    var inFlight: nat
    var finalizedCallbacks: seq<Pending>
    var passes: nat                    // protection passes over both allocators

    function State(): Batch
      reads this
    {
      Batch(inFlight, finalizedCallbacks)
    }

    constructor ()
      ensures State() == Batch(0, []) && passes == 0
    {
      inFlight, finalizedCallbacks, passes := 0, [], 0;
    }

    /** Laying out the graph may fail, and then nothing is in flight. */
    method Allocate(applied: bool) returns (handedOut: bool)
      modifies `inFlight
      ensures handedOut == applied
      ensures State() == if applied then old(State()).(inFlight := old(inFlight) + 1) else old(State())
    {
      if !applied {
        return false;
      }
      inFlight := inFlight + 1;
      return true;
    }

    method CompleteBatch(ready0: seq<Pending>) returns (ready: seq<Pending>)
      requires inFlight > 0
      modifies this
      ensures var (b, released, last) := Complete(old(State()));
        State() == b && ready == ready0 + released && passes == old(passes) + if last then 1 else 0
    {
      ready := ready0;
      inFlight := inFlight - 1;
      if inFlight > 0 {
        return;
      }
      passes := passes + 1;
      for i := 0 to |finalizedCallbacks|
        invariant ready == ready0 + finalizedCallbacks[..i]
        invariant inFlight == 0 && finalizedCallbacks == old(finalizedCallbacks) && passes == old(passes) + 1
      {
        ready := ready + [finalizedCallbacks[i]];
      }
      finalizedCallbacks := [];
    }

    method FinalizeAlloc(p: Pending) returns (ready: seq<Pending>)
      requires inFlight > 0
      modifies this
      ensures var (b, now, last) := Finalize(old(State()), p);
        State() == b && ready == now && passes == old(passes) + if last then 1 else 0
    {
      ready := [];
      if p.exec {
        finalizedCallbacks := finalizedCallbacks + [p];
      } else {
        ready := ready + [p];
      }
      ready := CompleteBatch(ready);
    }

    method Abandon() returns (ready: seq<Pending>)
      requires inFlight > 0
      modifies this
      ensures var (b, released, last) := Complete(old(State()));
        State() == b && ready == released && passes == old(passes) + if last then 1 else 0
    {
      ready := CompleteBatch([]);
    }
  }

  // ---------------------------------------------------------------------------
  // Runs.
  // ---------------------------------------------------------------------------

  datatype Phase = Open | Finalized | Released

  /** An allocation that was handed out. */
  datatype Alloc = Alloc(exec: bool, phase: Phase)

  /** What happened, in order. */
  datatype Act =
    | Allocated(id: nat, exec: bool)
    | Flushed(id: nat)
    | Completed(id: nat)
    | Protected
    | Fired(id: nat)

  /** `running[t]` are the callbacks that call number `t` still has to run. */
  datatype State = State(batch: Batch, allocs: seq<Alloc>, running: seq<seq<Pending>>, log: seq<Act>)

  datatype Event =
    | Allocate(exec: bool)
    | AllocateFails
    | FinalizeIt(id: nat)
    | Abandon(id: nat)
    | Drop(id: nat)
    | RunCallback(t: nat)

  const Init: State := State(Batch(0, []), [], [], [])

  predicate IsOpen(s: State, id: nat) {
    id < |s.allocs| && s.allocs[id].phase == Open
  }

  /** An allocation is finalized or abandoned at most once; it may be dropped at any time. */
  predicate Enabled(s: State, e: Event) {
    match e
    case Allocate(_) => true
    case AllocateFails => true
    case FinalizeIt(id) => IsOpen(s, id)
    case Abandon(id) => IsOpen(s, id)
    case Drop(id) => id < |s.allocs|
    case RunCallback(t) => t < |s.running| && s.running[t] != []
  }

  function Release(s: State, id: nat): State
    requires IsOpen(s, id)
  {
    var (b, ready, last) := Complete(s.batch);
    State(b, s.allocs[id := s.allocs[id].(phase := Released)], s.running + [ready],
          s.log + [Completed(id)] + (if last then [Protected] else []))
  }

  function Step(s: State, e: Event): State
    requires Enabled(s, e)
  {
    match e
    case Allocate(exec) =>
      s.(batch := s.batch.(inFlight := s.batch.inFlight + 1),
         allocs := s.allocs + [Alloc(exec, Open)],
         log := s.log + [Allocated(|s.allocs|, exec)])
    case AllocateFails => s
    case FinalizeIt(id) =>
      var (b, ready, last) := Finalize(s.batch, Pending(id, s.allocs[id].exec));
      State(b, s.allocs[id := s.allocs[id].(phase := Finalized)], s.running + [ready],
            s.log + [Flushed(id), Completed(id)] + (if last then [Protected] else []))
    case Abandon(id) => Release(s, id)
    case Drop(id) => if s.allocs[id].phase == Open then Release(s, id) else s
    case RunCallback(t) =>
      s.(running := s.running[t := s.running[t][1..]], log := s.log + [Fired(s.running[t][0].id)])
  }

  ghost predicate IsRun(s: State, es: seq<Event>, s': State)
    decreases |es|
  {
    if es == [] then s' == s
    else Enabled(s, es[0]) && IsRun(Step(s, es[0]), es[1..], s')
  }

  // ---------------------------------------------------------------------------
  // Counting.
  // ---------------------------------------------------------------------------

  function CountOpen(allocs: seq<Alloc>): nat {
    if |allocs| == 0 then 0
    else CountOpen(allocs[..|allocs| - 1]) + (if allocs[|allocs| - 1].phase == Open then 1 else 0)
  }

  lemma {:induction false} CountOpenClose(allocs: seq<Alloc>, id: nat, a: Alloc)
    requires id < |allocs| && allocs[id].phase == Open && a.phase != Open
    ensures CountOpen(allocs[id := a]) == CountOpen(allocs) - 1
  {
    var n := |allocs| - 1;
    if id == n {
      assert allocs[id := a][..n] == allocs[..n];
    } else {
      assert allocs[id := a][..n] == allocs[..n][id := a];
      CountOpenClose(allocs[..n], id, a);
    }
  }

  lemma {:induction false} CountOpenZero(allocs: seq<Alloc>)
    ensures CountOpen(allocs) == 0 <==> forall id :: 0 <= id < |allocs| ==> allocs[id].phase != Open
  {
    if |allocs| > 0 {
      CountOpenZero(allocs[..|allocs| - 1]);
      assert forall id :: 0 <= id < |allocs| - 1 ==> allocs[id] == allocs[..|allocs| - 1][id];
    }
  }

  /** How often the callback of `id` occurs in a list. */
  function Occurs(ps: seq<Pending>, id: nat): nat {
    if |ps| == 0 then 0 else (if ps[0].id == id then 1 else 0) + Occurs(ps[1..], id)
  }

  lemma {:induction false} OccursAppend(ps: seq<Pending>, qs: seq<Pending>, id: nat)
    ensures Occurs(ps + qs, id) == Occurs(ps, id) + Occurs(qs, id)
  {
    if |ps| == 0 {
      assert ps + qs == qs;
    } else {
      assert (ps + qs)[1..] == ps[1..] + qs;
      OccursAppend(ps[1..], qs, id);
    }
  }

  function OccursRunning(running: seq<seq<Pending>>, id: nat): nat {
    if |running| == 0 then 0
    else OccursRunning(running[..|running| - 1], id) + Occurs(running[|running| - 1], id)
  }

  lemma OccursRunningAppend(running: seq<seq<Pending>>, ps: seq<Pending>, id: nat)
    ensures OccursRunning(running + [ps], id) == OccursRunning(running, id) + Occurs(ps, id)
  {
    assert (running + [ps])[..|running|] == running;
  }

  lemma {:induction false} OccursRunningPop(running: seq<seq<Pending>>, t: nat, id: nat)
    requires t < |running| && running[t] != []
    ensures OccursRunning(running[t := running[t][1..]], id) + (if running[t][0].id == id then 1 else 0)
         == OccursRunning(running, id)
  {
    var n := |running| - 1;
    var running' := running[t := running[t][1..]];
    if t == n {
      assert running'[..n] == running[..n];
    } else {
      assert running'[..n] == running[..n][t := running[t][1..]];
      OccursRunningPop(running[..n], t, id);
    }
  }

  /** How often the callback of `id` fired. */
  function Fires(log: seq<Act>, id: nat): nat {
    if |log| == 0 then 0 else Fires(log[..|log| - 1], id) + (if log[|log| - 1] == Fired(id) then 1 else 0)
  }

  lemma FiresAppend(log: seq<Act>, a: Act, id: nat)
    ensures Fires(log + [a], id) == Fires(log, id) + (if a == Fired(id) then 1 else 0)
  {
    assert (log + [a])[..|log|] == log;
  }

  // ---------------------------------------------------------------------------
  // What a log may say.
  // ---------------------------------------------------------------------------

  /** A protection pass followed the flush of `id`. */
  ghost predicate Usable(log: seq<Act>, id: nat) {
    exists f, p :: 0 <= f < p < |log| && log[f] == Flushed(id) && log[p] == Protected
  }

  /** Whether the act at position `k` was allowed then. */
  ghost predicate ActOk(log: seq<Act>, allocs: seq<Alloc>, k: nat)
    requires k < |log|
  {
    match log[k]
    case Protected => forall j, id, exec :: 0 <= j < k && log[j] == Allocated(id, exec) ==> Completed(id) in log[j..k]
    case Fired(id) =>
      && id < |allocs| && Flushed(id) in log[..k]
      && (allocs[id].exec ==> Usable(log[..k], id))
    case _ => true
  }

  ghost predicate LogOk(log: seq<Act>, allocs: seq<Alloc>) {
    forall k :: 0 <= k < |log| ==> ActOk(log, allocs, k)
  }

  /** A callback that has been released may run. */
  ghost predicate ReadyOk(s: State, p: Pending) {
    && p.id < |s.allocs| && s.allocs[p.id] == Alloc(p.exec, Finalized) && Flushed(p.id) in s.log
    && (p.exec ==> Usable(s.log, p.id))
  }

  ghost predicate DeferredOk(s: State, p: Pending) {
    p.exec && p.id < |s.allocs| && s.allocs[p.id] == Alloc(true, Finalized) && Flushed(p.id) in s.log
  }

  /** The log tells which allocations there are and which have completed. */
  ghost predicate LogComplete(s: State) {
    && (forall j :: 0 <= j < |s.log| && s.log[j].Allocated? ==> s.log[j].id < |s.allocs|)
    && (forall j :: 0 <= j < |s.log| && s.log[j].Allocated? && s.allocs[s.log[j].id].phase != Open ==>
          Completed(s.log[j].id) in s.log[j..])
  }

  /** Every finalized allocation's callback is in exactly one place: waiting, released, or fired. */
  ghost predicate Once(s: State) {
    forall id: nat ::
      Occurs(s.batch.deferred, id) + OccursRunning(s.running, id) + Fires(s.log, id)
      == if id < |s.allocs| && s.allocs[id].phase == Finalized then 1 else 0
  }

  ghost predicate Core(s: State) {
    && s.batch.inFlight == CountOpen(s.allocs)
    && (forall k :: 0 <= k < |s.batch.deferred| ==> DeferredOk(s, s.batch.deferred[k]))
    && (forall t, k :: 0 <= t < |s.running| && 0 <= k < |s.running[t]| ==> ReadyOk(s, s.running[t][k]))
    && LogOk(s.log, s.allocs)
    && LogComplete(s)
    && Once(s)
  }

  ghost predicate Inv(s: State) {
    Core(s) && (s.batch.inFlight == 0 ==> s.batch.deferred == [])
  }

  // ---------------------------------------------------------------------------
  // Growing logs.
  // ---------------------------------------------------------------------------

  /** Later states know the same allocations, and what is finalized stays finalized. */
  ghost predicate Grows(allocs: seq<Alloc>, allocs': seq<Alloc>) {
    && |allocs| <= |allocs'|
    && forall id :: 0 <= id < |allocs| ==>
         allocs'[id].exec == allocs[id].exec && (allocs[id].phase != Open ==> allocs'[id].phase == allocs[id].phase)
  }

  lemma UsableGrows(log: seq<Act>, more: seq<Act>, id: nat)
    requires Usable(log, id)
    ensures Usable(log + more, id)
  {
    var f, p :| 0 <= f < p < |log| && log[f] == Flushed(id) && log[p] == Protected;
    assert (log + more)[f] == Flushed(id) && (log + more)[p] == Protected;
  }

  lemma BecomesUsable(log: seq<Act>, id: nat)
    requires Flushed(id) in log
    ensures Usable(log + [Protected], id)
  {
    var f :| 0 <= f < |log| && log[f] == Flushed(id);
    assert (log + [Protected])[f] == Flushed(id) && (log + [Protected])[|log|] == Protected;
  }

  lemma ReadyGrows(s: State, s': State, more: seq<Act>, p: Pending)
    requires ReadyOk(s, p) && Grows(s.allocs, s'.allocs) && s'.log == s.log + more
    ensures ReadyOk(s', p)
  {
    if p.exec {
      UsableGrows(s.log, more, p.id);
    }
  }

  lemma LogGrows(log: seq<Act>, allocs: seq<Alloc>, allocs': seq<Alloc>, a: Act)
    requires LogOk(log, allocs) && Grows(allocs, allocs') && ActOk(log + [a], allocs', |log|)
    ensures LogOk(log + [a], allocs')
  {
    var log' := log + [a];
    forall k | 0 <= k < |log'|
      ensures ActOk(log', allocs', k)
    {
      if k < |log| {
        assert ActOk(log, allocs, k);
        assert log'[..k] == log[..k];
        assert forall j :: 0 <= j < k ==> log'[j] == log[j] && log'[j..k] == log[j..k];
      }
    }
  }

  lemma PlainActOk(log: seq<Act>, allocs: seq<Alloc>, a: Act)
    requires !a.Protected? && !a.Fired?
    ensures ActOk(log + [a], allocs, |log|)
  {
  }

  /** A completion is logged for every allocation that is no longer open. */
  lemma LogCompleteGrows(s: State, s': State, more: seq<Act>, id: nat)
    requires LogComplete(s) && Grows(s.allocs, s'.allocs) && s'.log == s.log + more
    requires forall k :: 0 <= k < |more| ==> !more[k].Allocated?
    requires Completed(id) in more
    requires |s'.allocs| == |s.allocs| && forall i :: 0 <= i < |s.allocs| && i != id ==>
               s'.allocs[i].phase == s.allocs[i].phase
    ensures LogComplete(s')
  {
    forall j | 0 <= j < |s'.log| && s'.log[j].Allocated?
      ensures s'.log[j].id < |s'.allocs|
      ensures s'.allocs[s'.log[j].id].phase != Open ==> Completed(s'.log[j].id) in s'.log[j..]
    {
      assert j < |s.log| && s.log[j] == s'.log[j];
      var i := s.log[j].id;
      assert s'.log[j..] == s.log[j..] + more;
      if i != id && s'.allocs[i].phase != Open {
        assert Completed(i) in s.log[j..];
      }
    }
  }

  /** When nothing is open any more, protections may be applied. */
  lemma ProtectOk(s: State, log: seq<Act>)
    requires LogComplete(s) && s.log == log && CountOpen(s.allocs) == 0 && LogOk(log, s.allocs)
    ensures LogOk(log + [Protected], s.allocs)
  {
    CountOpenZero(s.allocs);
    var log' := log + [Protected];
    forall j, id, exec | 0 <= j < |log| && log'[j] == Allocated(id, exec)
      ensures Completed(id) in log'[j..|log|]
    {
      assert log[j] == Allocated(id, exec);
      assert log'[j..|log|] == log[j..];
    }
    assert ActOk(log', s.allocs, |log|);
    LogGrows(log, s.allocs, s.allocs, Protected);
  }

  // ---------------------------------------------------------------------------
  // Every step keeps the invariant.
  // ---------------------------------------------------------------------------

  lemma InFlightPositive(s: State, id: nat)
    requires Inv(s) && IsOpen(s, id)
    ensures s.batch.inFlight > 0
  {
    CountOpenZero(s.allocs);
  }

  lemma AllocateKeeps(s: State, exec: bool)
    requires Inv(s)
    ensures Inv(Step(s, Allocate(exec)))
  {
    var s' := Step(s, Allocate(exec));
    var a := Allocated(|s.allocs|, exec);
    assert s'.allocs[..|s.allocs|] == s.allocs;
    PlainActOk(s.log, s'.allocs, a);
    LogGrows(s.log, s.allocs, s'.allocs, a);
    forall t, k | 0 <= t < |s.running| && 0 <= k < |s.running[t]|
      ensures ReadyOk(s', s.running[t][k])
    {
      ReadyGrows(s, s', [a], s.running[t][k]);
    }
    forall id: nat
      ensures Fires(s'.log, id) == Fires(s.log, id)
    {
      FiresAppend(s.log, a, id);
    }
    AllocateComplete(s, s', a);
    hide ReadyOk, LogOk, LogComplete, Occurs, OccursRunning, Fires;
  }

  lemma AllocateComplete(s: State, s': State, a: Act)
    requires LogComplete(s) && a.Allocated? && a.id == |s.allocs| && s'.log == s.log + [a]
    requires s'.allocs == s.allocs + [Alloc(a.exec, Open)]
    ensures LogComplete(s')
  {
    forall j | 0 <= j < |s'.log| && s'.log[j].Allocated?
      ensures s'.log[j].id < |s'.allocs|
      ensures s'.allocs[s'.log[j].id].phase != Open ==> Completed(s'.log[j].id) in s'.log[j..]
    {
      if j < |s.log| {
        assert s'.log[j] == s.log[j];
        assert s'.log[j..] == s.log[j..] + [a];
      }
    }
  }

  lemma RunCallbackKeeps(s: State, t: nat)
    requires Inv(s) && Enabled(s, RunCallback(t))
    ensures Inv(Step(s, RunCallback(t)))
  {
    hide ReadyOk, LogOk, LogComplete, Occurs, OccursRunning, Fires;
    var s' := Step(s, RunCallback(t));
    var a := Fired(s.running[t][0].id);
    assert LogOk(s'.log, s'.allocs) by { FiredIsOk(s, s.running[t][0]); }
    ReadyPop(s, t);
    forall id: nat
      ensures OccursRunning(s'.running, id) + Fires(s'.log, id) == OccursRunning(s.running, id) + Fires(s.log, id)
    {
      OccursRunningPop(s.running, t, id);
      FiresAppend(s.log, a, id);
    }
    LogCompleteFired(s, s', a);
  }

  lemma FiredIsOk(s: State, p: Pending)
    requires LogOk(s.log, s.allocs) && ReadyOk(s, p)
    ensures LogOk(s.log + [Fired(p.id)], s.allocs)
  {
    hide LogOk;
    assert (s.log + [Fired(p.id)])[..|s.log|] == s.log;
    LogGrows(s.log, s.allocs, s.allocs, Fired(p.id));
  }

  lemma ReadyPop(s: State, t: nat)
    requires forall u, k :: 0 <= u < |s.running| && 0 <= k < |s.running[u]| ==> ReadyOk(s, s.running[u][k])
    requires Enabled(s, RunCallback(t))
    ensures var s' := Step(s, RunCallback(t));
      forall u, k :: 0 <= u < |s'.running| && 0 <= k < |s'.running[u]| ==> ReadyOk(s', s'.running[u][k])
  {
    hide ReadyOk;
    var s' := Step(s, RunCallback(t));
    forall u, k | 0 <= u < |s'.running| && 0 <= k < |s'.running[u]|
      ensures ReadyOk(s', s'.running[u][k])
    {
      var q := s.running[u][if u == t then k + 1 else k];
      assert s'.running[u][k] == q && ReadyOk(s, q);
      ReadyGrows(s, s', [Fired(s.running[t][0].id)], q);
    }
  }

  lemma LogCompleteFired(s: State, s': State, a: Act)
    requires LogComplete(s) && !a.Allocated? && s'.log == s.log + [a] && s'.allocs == s.allocs
    ensures LogComplete(s')
  {
    forall j | 0 <= j < |s'.log| && s'.log[j].Allocated?
      ensures s'.log[j].id < |s'.allocs|
      ensures s'.allocs[s'.log[j].id].phase != Open ==> Completed(s'.log[j].id) in s'.log[j..]
    {
      assert s'.log[j] == s.log[j];
      assert s'.log[j..] == s.log[j..] + [a];
    }
  }

  // Completing an allocation, in two halves: its own bookkeeping, then the end of the batch.

  /** The callback of `id`, if it is finalized, goes to the deferred ones or to the caller. */
  ghost function Own(s: State, id: nat, phase: Phase): seq<Pending>
    requires id < |s.allocs|
  {
    if phase == Finalized then [Pending(id, s.allocs[id].exec)] else []
  }

  ghost function Half(s: State, id: nat, phase: Phase): State
    requires Inv(s) && IsOpen(s, id) && phase != Open
  {
    InFlightPositive(s, id);
    var exec := s.allocs[id].exec;
    State(Batch(s.batch.inFlight - 1, s.batch.deferred + (if exec then Own(s, id, phase) else [])),
          s.allocs[id := s.allocs[id].(phase := phase)],
          s.running + [if exec then [] else Own(s, id, phase)],
          s.log + (if phase == Finalized then [Flushed(id), Completed(id)] else [Completed(id)]))
  }

  ghost function EndBatch(h: State): State
    requires |h.running| > 0
  {
    var t := |h.running| - 1;
    if h.batch.inFlight > 0 then h
    else State(Batch(0, []), h.allocs, h.running[t := h.running[t] + h.batch.deferred], h.log + [Protected])
  }

  lemma FinalizeInHalves(s: State, id: nat)
    requires Inv(s) && IsOpen(s, id)
    ensures Step(s, FinalizeIt(id)) == EndBatch(Half(s, id, Finalized))
  {
    InFlightPositive(s, id);
    hide Inv;
    var exec := s.allocs[id].exec;
    var p := Pending(id, exec);
    var f, h := Step(s, FinalizeIt(id)), Half(s, id, Finalized);
    var t := |s.running|;
    assert h.running[t] == if exec then [] else [p];
    assert h.batch.deferred == if exec then s.batch.deferred + [p] else s.batch.deferred;
    var ready := if s.batch.inFlight > 1 then h.running[t] else h.running[t] + h.batch.deferred;
    assert [p] + [] == [p] && [] + h.batch.deferred == h.batch.deferred;
    assert f.running == s.running + [ready];
    assert EndBatch(h).running == s.running + [ready];
    assert f.log == EndBatch(h).log;
  }

  lemma ReleaseInHalves(s: State, id: nat)
    requires Inv(s) && IsOpen(s, id)
    ensures Step(s, Abandon(id)) == Step(s, Drop(id)) == EndBatch(Half(s, id, Released))
  {
    InFlightPositive(s, id);
    hide Inv;
    var r, h := Step(s, Abandon(id)), Half(s, id, Released);
    var t := |s.running|;
    assert h.running[t] == [] && h.batch.deferred == s.batch.deferred;
    var ready := if s.batch.inFlight > 1 then [] else h.batch.deferred;
    assert [] + h.batch.deferred == h.batch.deferred;
    assert r.running == s.running + [ready];
    assert EndBatch(h).running == s.running + [ready];
    assert r.log == EndBatch(h).log;
  }

  lemma HalfKeepsLists(s: State, id: nat, phase: Phase)
    requires Inv(s) && IsOpen(s, id) && phase != Open
    ensures var h := Half(s, id, phase);
      && (forall k :: 0 <= k < |h.batch.deferred| ==> DeferredOk(h, h.batch.deferred[k]))
      && (forall t, k :: 0 <= t < |h.running| && 0 <= k < |h.running[t]| ==> ReadyOk(h, h.running[t][k]))
  {
    var h := Half(s, id, phase);
    var more := if phase == Finalized then [Flushed(id), Completed(id)] else [Completed(id)];
    assert phase == Finalized ==> more[0] == Flushed(id);
    assert h.log == s.log + more;
    forall k | 0 <= k < |s.batch.deferred|
      ensures DeferredOk(h, s.batch.deferred[k])
    {
      assert DeferredOk(s, s.batch.deferred[k]);
    }
    forall t, k | 0 <= t < |s.running| && 0 <= k < |s.running[t]|
      ensures ReadyOk(h, s.running[t][k])
    {
      assert ReadyOk(s, s.running[t][k]);
      ReadyGrows(s, h, more, s.running[t][k]);
    }
  }

  lemma HalfKeepsOnce(s: State, id: nat, phase: Phase)
    requires Inv(s) && IsOpen(s, id) && phase != Open
    ensures Once(Half(s, id, phase))
  {
    var h := Half(s, id, phase);
    var exec := s.allocs[id].exec;
    forall i: nat
      ensures Occurs(h.batch.deferred, i) + OccursRunning(h.running, i) + Fires(h.log, i)
           == if i < |h.allocs| && h.allocs[i].phase == Finalized then 1 else 0
    {
      OccursAppend(s.batch.deferred, if exec then Own(s, id, phase) else [], i);
      OccursRunningAppend(s.running, if exec then [] else Own(s, id, phase), i);
      FiresAppend(s.log, Flushed(id), i);
      FiresAppend(s.log, Completed(id), i);
      FiresAppend(s.log + [Flushed(id)], Completed(id), i);
      assert s.log + [Flushed(id), Completed(id)] == s.log + [Flushed(id)] + [Completed(id)];
      assert Occurs(Own(s, id, phase), i) == if phase == Finalized && i == id then 1 else 0;
      hide OccursRunning, Fires, LogOk, LogComplete, ReadyOk, DeferredOk, CountOpen;
    }
  }

  lemma HalfKeepsLog(s: State, id: nat, phase: Phase)
    requires Inv(s) && IsOpen(s, id) && phase != Open
    ensures LogOk(Half(s, id, phase).log, Half(s, id, phase).allocs) && LogComplete(Half(s, id, phase))
  {
    var h := Half(s, id, phase);
    var more := if phase == Finalized then [Flushed(id), Completed(id)] else [Completed(id)];
    assert h.log == s.log + more;
    assert Completed(id) in more by { assert more[|more| - 1] == Completed(id); }
    LogCompleteGrows(s, h, more, id);
    hide LogComplete, LogOk;
    PlainActOk(s.log, h.allocs, Flushed(id));
    PlainActOk(s.log, h.allocs, Completed(id));
    PlainActOk(s.log + [Flushed(id)], h.allocs, Completed(id));
    if phase == Finalized {
      LogGrows(s.log, s.allocs, h.allocs, Flushed(id));
      LogGrows(s.log + [Flushed(id)], h.allocs, h.allocs, Completed(id));
      assert h.log == s.log + [Flushed(id)] + [Completed(id)];
    } else {
      LogGrows(s.log, s.allocs, h.allocs, Completed(id));
    }
  }

  lemma HalfKeeps(s: State, id: nat, phase: Phase)
    requires Inv(s) && IsOpen(s, id) && phase != Open
    ensures Core(Half(s, id, phase)) && |Half(s, id, phase).running| > 0
  {
    CountOpenClose(s.allocs, id, s.allocs[id].(phase := phase));
    HalfKeepsLists(s, id, phase);
    HalfKeepsOnce(s, id, phase);
    HalfKeepsLog(s, id, phase);
    InFlightPositive(s, id);
    hide ReadyOk, DeferredOk, LogOk, LogComplete, Once, Inv;
  }

  lemma EndBatchKeeps(h: State)
    requires Core(h) && |h.running| > 0
    ensures Inv(EndBatch(h))
  {
    if h.batch.inFlight == 0 {
      var s' := EndBatch(h);
      ProtectOk(h, h.log);
      LogCompleteFired(h, s', Protected);
      EndBatchLists(h);
      EndBatchOnce(h);
      hide ReadyOk, DeferredOk, LogOk, LogComplete, Once;
    }
  }

  lemma EndBatchOnce(h: State)
    requires Once(h) && |h.running| > 0 && h.batch.inFlight == 0
    ensures Once(EndBatch(h))
  {
    var s' := EndBatch(h);
    var t := |h.running| - 1;
    forall id: nat
      ensures Occurs(s'.batch.deferred, id) + OccursRunning(s'.running, id) + Fires(s'.log, id)
           == Occurs(h.batch.deferred, id) + OccursRunning(h.running, id) + Fires(h.log, id)
    {
      FiresAppend(h.log, Protected, id);
      OccursAppend(h.running[t], h.batch.deferred, id);
      OccursRunningAppend(h.running[..t], h.running[t], id);
      OccursRunningAppend(h.running[..t], h.running[t] + h.batch.deferred, id);
      assert h.running == h.running[..t] + [h.running[t]];
      assert s'.running == h.running[..t] + [h.running[t] + h.batch.deferred];
      hide OccursRunning, Fires, Once;
    }
  }

  lemma EndBatchLists(h: State)
    requires Core(h) && |h.running| > 0 && h.batch.inFlight == 0
    ensures var s' := EndBatch(h);
      forall t, k :: 0 <= t < |s'.running| && 0 <= k < |s'.running[t]| ==> ReadyOk(s', s'.running[t][k])
  {
    var s' := EndBatch(h);
    var last := |h.running| - 1;
    forall t, k | 0 <= t < |s'.running| && 0 <= k < |s'.running[t]|
      ensures ReadyOk(s', s'.running[t][k])
    {
      if k < |h.running[t]| {
        assert s'.running[t][k] == h.running[t][k];
        assert ReadyOk(h, h.running[t][k]);
        ReadyGrows(h, s', [Protected], h.running[t][k]);
      } else {
        var p := h.batch.deferred[k - |h.running[t]|];
        assert s'.running[t][k] == p && DeferredOk(h, p);
        BecomesUsable(h.log, p.id);
      }
    }
  }

  lemma StepKeeps(s: State, e: Event)
    requires Inv(s) && Enabled(s, e)
    ensures Inv(Step(s, e))
  {
    hide Inv, Core, Step, Half, EndBatch;
    match e
    case Allocate(exec) => AllocateKeeps(s, exec);
    case AllocateFails => Idle(s, e);
    case FinalizeIt(id) =>
      FinalizeInHalves(s, id);
      HalfKeeps(s, id, Finalized);
      EndBatchKeeps(Half(s, id, Finalized));
    case Abandon(id) =>
      ReleaseInHalves(s, id);
      HalfKeeps(s, id, Released);
      EndBatchKeeps(Half(s, id, Released));
    case Drop(id) =>
      if s.allocs[id].phase == Open {
        ReleaseInHalves(s, id);
        HalfKeeps(s, id, Released);
        EndBatchKeeps(Half(s, id, Released));
      } else {
        Idle(s, e);
      }
    case RunCallback(t) => RunCallbackKeeps(s, t);
  }

  lemma Idle(s: State, e: Event)
    requires Enabled(s, e) && (e.AllocateFails? || (e.Drop? && s.allocs[e.id].phase != Open))
    ensures Step(s, e) == s
  {
  }

  lemma InitKeeps()
    ensures Inv(Init)
  {
  }

  lemma {:induction false} RunKeeps(s: State, es: seq<Event>, s': State)
    requires Inv(s) && IsRun(s, es, s')
    ensures Inv(s')
    decreases |es|
  {
    hide Inv, Step, Enabled;
    if es != [] {
      StepKeeps(s, es[0]);
      RunKeeps(Step(s, es[0]), es[1..], s');
    }
  }

  // ---------------------------------------------------------------------------
  // The theorems, for every run.
  // ---------------------------------------------------------------------------

  /**
  The counter counts the open allocations; protections were applied only while none was open;
  a callback that fired did so once, after the flush of its own allocation, and, if it covers
  executable memory, after a protection pass that followed this flush.
   */
  lemma BatchSafety(es: seq<Event>, s: State)
    requires IsRun(Init, es, s)
    ensures s.batch.inFlight == CountOpen(s.allocs)
    ensures forall k: nat, j: nat, id: nat, exec: bool ::
         0 <= j < k < |s.log| && s.log[k] == Protected && s.log[j] == Allocated(id, exec) ==>
              Completed(id) in s.log[j..k]
    ensures forall k: nat, id: nat :: k < |s.log| && s.log[k] == Fired(id) ==>
              && id < |s.allocs| && s.allocs[id].phase == Finalized && Flushed(id) in s.log[..k]
              && (s.allocs[id].exec ==> Usable(s.log[..k], id))
    ensures forall id: nat :: Fires(s.log, id) <= 1
  {
    InitKeeps();
    RunKeeps(Init, es, s);
    hide IsRun, LogComplete, DeferredOk, ReadyOk, CountOpen, Usable;
    forall k: nat, id: nat | k < |s.log| && s.log[k] == Fired(id)
      ensures id < |s.allocs| && s.allocs[id].phase == Finalized && Flushed(id) in s.log[..k]
      ensures s.allocs[id].exec ==> Usable(s.log[..k], id)
    {
      assert ActOk(s.log, s.allocs, k);
      FiredCounts(s.log, k, id);
    }
    forall k: nat, j: nat, id: nat, exec: bool | 0 <= j < k < |s.log| && s.log[k] == Protected &&
           s.log[j] == Allocated(id, exec)
      ensures Completed(id) in s.log[j..k]
    {
      assert ActOk(s.log, s.allocs, k);
    }
  }

  lemma {:induction false} FiredCounts(log: seq<Act>, k: nat, id: nat)
    requires k < |log| && log[k] == Fired(id)
    ensures Fires(log, id) >= 1
  {
    if k < |log| - 1 {
      FiredCounts(log[..|log| - 1], k, id);
    }
  }

  /** Once nothing is open and no call has callbacks left to run, exactly the finalized ones have fired. */
  lemma QuietMeansFired(es: seq<Event>, s: State, id: nat)
    requires IsRun(Init, es, s) && Quiet(s) && id < |s.allocs|
    ensures Fires(s.log, id) == if s.allocs[id].phase == Finalized then 1 else 0
  {
    InitKeeps();
    RunKeeps(Init, es, s);
    CountOpenZero(s.allocs);
    NothingRuns(s.running, id);
  }

  ghost predicate Quiet(s: State) {
    && (forall id :: 0 <= id < |s.allocs| ==> s.allocs[id].phase != Open)
    && (forall t :: 0 <= t < |s.running| ==> s.running[t] == [])
  }

  lemma {:induction false} NothingRuns(running: seq<seq<Pending>>, id: nat)
    requires forall t :: 0 <= t < |running| ==> running[t] == []
    ensures OccursRunning(running, id) == 0
  {
    if |running| > 0 {
      NothingRuns(running[..|running| - 1], id);
    }
  }

  function ToRun(running: seq<seq<Pending>>): nat {
    if |running| == 0 then 0 else ToRun(running[..|running| - 1]) + |running[|running| - 1]|
  }

  lemma {:induction false} ToRunPop(running: seq<seq<Pending>>, t: nat)
    requires t < |running| && running[t] != []
    ensures ToRun(running[t := running[t][1..]]) < ToRun(running)
  {
    var n := |running| - 1;
    var running' := running[t := running[t][1..]];
    if t == n {
      assert running'[..n] == running[..n];
    } else {
      assert running'[..n] == running[..n][t := running[t][1..]];
      ToRunPop(running[..n], t);
    }
  }

  /**
  No reachable state is stuck: dropping what is open and running what is ready always leads
  to a quiet state, so no finalized callback can be lost.
   */
  lemma {:induction false} CanSettle(s: State) returns (es: seq<Event>, s': State)
    requires Inv(s)
    ensures IsRun(s, es, s') && Quiet(s') && Inv(s')
    ensures Grows(s.allocs, s'.allocs)
    decreases CountOpen(s.allocs), ToRun(s.running), 1
  {
    if id: nat :| IsOpen(s, id) {
      es, s' := SettleBy(s, Drop(id));
    } else if t: nat :| t < |s.running| && s.running[t] != [] {
      ToRunPop(s.running, t);
      es, s' := SettleBy(s, RunCallback(t));
    } else {
      forall id | 0 <= id < |s.allocs|
        ensures s.allocs[id].phase != Open
      {
        assert !IsOpen(s, id);
      }
      es, s' := [], s;
    }
  }

  lemma {:induction false} SettleBy(s: State, e: Event) returns (es: seq<Event>, s': State)
    requires Inv(s) && Enabled(s, e)
    requires (e.Drop? && IsOpen(s, e.id)) || (e.RunCallback? && ToRun(Step(s, e).running) < ToRun(s.running))
    ensures IsRun(s, es, s') && Quiet(s') && Inv(s')
    ensures Grows(s.allocs, s'.allocs)
    decreases CountOpen(s.allocs), ToRun(s.running), 0
  {
    hide Inv, CountOpen, ToRun, Quiet;
    StepKeeps(s, e);
    if e.Drop? {
      CountOpenClose(s.allocs, e.id, s.allocs[e.id].(phase := Released));
    }
    var mid := Step(s, e);
    assert Grows(s.allocs, mid.allocs);
    var rest;
    rest, s' := CanSettle(mid);
    es := [e] + rest;
    assert es[1..] == rest;
  }

  /**
  A callback without executable memory is the first that its own call runs, and nothing that
  any other call does meanwhile can hold it back.
   */
  lemma PlainCallbackNeverWaits(s: State, id: nat, es: seq<Event>, s': State)
    requires Inv(s) && IsOpen(s, id) && !s.allocs[id].exec
    requires IsRun(Step(s, FinalizeIt(id)), es, s') && RunCallback(|s.running|) !in es
    ensures var e := RunCallback(|s.running|);
      Enabled(s', e) && Step(s', e).log == s'.log + [Fired(id)]
  {
    var s1 := Step(s, FinalizeIt(id));
    var t := |s.running|;
    assert s1.running[t][0] == Pending(id, false);
    OthersLeaveAlone(s1, es, s', t);
  }

  lemma {:induction false} OthersLeaveAlone(s: State, es: seq<Event>, s': State, t: nat)
    requires IsRun(s, es, s') && t < |s.running| && RunCallback(t) !in es
    ensures t < |s'.running| && s'.running[t] == s.running[t]
    decreases |es|
  {
    if es != [] {
      assert es[0] != RunCallback(t);
      OthersLeaveAlone(Step(s, es[0]), es[1..], s', t);
    }
  }
}
