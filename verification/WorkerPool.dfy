/**
The elastic worker pool of add_output (src/aotcompile.cpp) as a step system.

Worker threads pull partition indices from a shared counter, the main thread grows the pool
with tokens of a semaphore that sibling processes use too, and every thread that runs out of
work may return a token.  One event is one atomic action of one participant; a run is any
sequence of enabled events, so the theorems range over every interleaving.
 */
module WorkerPool {
  import opened Basics

  /** `threads` partitions, at most `workers` of them in flight, with or without a jobserver. */
  datatype Pool = Pool(threads: nat, workers: nat, jobserver: bool) {
    // What add_output asserts on entry.
    predicate Valid() {
      1 <= workers <= threads
    }
  }

  /** Where a worker thread is. */
  datatype Worker =
    | Looking                // about to claim the next partition
    | Compiling(part: nat)
    | OutOfWork              // about to take the pool mutex
    | Returning              // holds the mutex, about to post its token
    | Exited

  /** Where the main thread is. */
  datatype Main =
    | FirstAcquire(got: nat)              // acquiring up to workers - 1 tokens
    | FirstSpawn(pool: nat)               // spawning the initial pool
    | Polling
    | Acquiring(want: nat, got: nat)
    | Publishing(got: nat)                // about to take the pool mutex
    | Spawning(left: nat)
    | Joining(t: nat)
    | Finished

  datatype Lock = Free | HeldBy(t: nat)

  /**
  `claims[i]` is the thread that claimed partition `i`, and `outputs[i]` how often partition
  `i` was compiled; `siblings` are the tokens in the hands of other processes.
   */
  datatype State = State(
    main: Main,
    next: nat,
    held: nat,
    live: nat,
    lock: Lock,
    workers: seq<Worker>,
    tokens: nat,
    siblings: nat,
    claims: seq<nat>,
    outputs: seq<nat>)

  datatype Event = MainStep | WorkerStep(t: nat) | SiblingTakes | SiblingReturns

  // ---------------------------------------------------------------------------
  // The steps.
  // ---------------------------------------------------------------------------

  function Init(p: Pool, tokens: nat, siblings: nat): State {
    var main := if p.jobserver then FirstAcquire(0) else FirstSpawn(p.workers);
    var live := if p.jobserver then 0 else p.workers;
    State(main, 0, 0, live, Free, [], tokens, siblings, [], seq(p.threads, i => 0))
  }

  predicate Enabled(p: Pool, s: State, e: Event) {
    match e
    case MainStep => (
      match s.main
      case Publishing(_) => s.lock == Free
      case Joining(t) => t < |s.workers| ==> s.workers[t] == Exited
      case Finished => false
      case _ => true)
    case WorkerStep(t) =>
      && t < |s.workers|
      && s.workers[t] != Exited
      && (s.workers[t] == OutOfWork ==> s.lock == Free)
    case SiblingTakes => s.tokens > 0
    case SiblingReturns => s.siblings > 0
  }

  function StepMain(p: Pool, s: State): State
    requires p.Valid() && Enabled(p, s, MainStep)
  {
    match s.main
    case FirstAcquire(got) =>
      if got < p.workers - 1 && s.tokens > 0 then
        s.(main := FirstAcquire(got + 1), tokens := s.tokens - 1)
      else
        s.(main := FirstSpawn(1 + got), held := got, live := 1 + got)
    case FirstSpawn(pool) =>
      if |s.workers| < pool then s.(workers := s.workers + [Looking])
      else if p.jobserver then s.(main := Polling)
      else s.(main := Joining(0))
    case Polling =>
      if |s.workers| < p.workers && s.next < p.threads then
        s.(main := Acquiring(Min(p.threads - s.next, p.workers - |s.workers|), 0))
      else
        s.(main := Joining(0))
    case Acquiring(want, got) =>
      if got < want && s.tokens > 0 then
        s.(main := Acquiring(want, got + 1), tokens := s.tokens - 1)
      else if got > 0 then s.(main := Publishing(got))
      else s.(main := Polling)
    case Publishing(got) =>
      s.(main := Spawning(got), held := s.held + got, live := s.live + got)
    case Spawning(left) =>
      if left > 0 then s.(main := Spawning(left - 1), workers := s.workers + [Looking])
      else s.(main := Polling)
    case Joining(t) =>
      if t < |s.workers| then s.(main := Joining(t + 1)) else s.(main := Finished)
    case Finished => s
  }

  /** What the code relies on: a claimed index is in range and a leaving thread is counted. */
  predicate CanStep(p: Pool, s: State, t: nat) {
    && Enabled(p, s, WorkerStep(t))
    && |s.outputs| == p.threads
    && (s.workers[t].Compiling? ==> s.workers[t].part < p.threads)
    && (s.workers[t] == OutOfWork ==> s.live > 0)
  }

  function StepWorker(p: Pool, s: State, t: nat): State
    requires CanStep(p, s, t)
  {
    match s.workers[t]
    case Looking =>
      if s.next < p.threads then
        s.(next := s.next + 1, workers := s.workers[t := Compiling(s.next)], claims := s.claims + [t])
      else
        s.(next := s.next + 1, workers := s.workers[t := if p.jobserver then OutOfWork else Exited])
    case Compiling(i) =>
      s.(workers := s.workers[t := Looking], outputs := s.outputs[i := s.outputs[i] + 1])
    case OutOfWork =>
      var live := s.live - 1;
      if s.held > 0 && s.held >= live then
        s.(live := live, held := s.held - 1, lock := HeldBy(t), workers := s.workers[t := Returning])
      else
        s.(live := live, workers := s.workers[t := Exited])
    case Returning =>
      s.(tokens := s.tokens + 1, lock := Free, workers := s.workers[t := Exited])
    case Exited => s
  }

  // ---------------------------------------------------------------------------
  // The invariant.
  // ---------------------------------------------------------------------------

  /** Worker threads that the live counter still counts. */
  function Counted(ws: seq<Worker>): nat {
    if |ws| == 0 then 0
    else Counted(ws[..|ws| - 1]) + (if IsCounted(ws[|ws| - 1]) then 1 else 0)
  }

  predicate IsCounted(w: Worker) {
    w.Looking? || w.Compiling? || w.OutOfWork?
  }

  /** Threads that are counted before they are spawned. */
  function Promised(s: State): nat {
    match s.main
    case FirstSpawn(pool) => if |s.workers| <= pool then pool - |s.workers| else 0
    case Spawning(left) => left
    case _ => 0
  }

  /** Tokens taken from the semaphore and not yet in `held`, or out of `held` and not yet posted. */
  function InTransit(s: State): nat {
    (match s.main
     case FirstAcquire(got) => got
     case Acquiring(_, got) => got
     case Publishing(got) => got
     case _ => 0)
    + (if s.lock.HeldBy? then 1 else 0)
  }

  predicate MainOk(p: Pool, s: State) {
    match s.main
    case FirstAcquire(got) => p.jobserver && s.workers == [] && got <= p.workers - 1 && s.held == 0 && s.live == 0
    case FirstSpawn(pool) => |s.workers| <= pool <= p.workers && 1 <= pool
    case Polling => p.jobserver && 1 <= |s.workers| <= p.workers
    case Acquiring(want, got) => p.jobserver && 1 <= |s.workers| && got <= want <= p.workers - |s.workers|
    case Publishing(got) => p.jobserver && 1 <= |s.workers| && 1 <= got <= p.workers - |s.workers|
    case Spawning(left) => p.jobserver && 1 <= |s.workers| && |s.workers| + left <= p.workers
    case Joining(t) =>
      1 <= |s.workers| <= p.workers && t <= |s.workers| && forall u :: 0 <= u < t ==> s.workers[u] == Exited
    case Finished => 1 <= |s.workers| <= p.workers && forall u :: 0 <= u < |s.workers| ==> s.workers[u] == Exited
  }

  /** Each claimed partition is compiled, or being compiled by the thread that claimed it. */
  ghost predicate ClaimsOk(p: Pool, s: State) {
    && |s.outputs| == p.threads
    && |s.claims| == Min(s.next, p.threads)
    && (forall i :: 0 <= i < |s.claims| ==>
          && s.claims[i] < |s.workers|
          && (s.outputs[i] == 1 || (s.outputs[i] == 0 && s.workers[s.claims[i]] == Compiling(i))))
    && (forall i :: |s.claims| <= i < p.threads ==> s.outputs[i] == 0)
    && (forall t :: 0 <= t < |s.workers| && s.workers[t].Compiling? ==>
          && s.workers[t].part < |s.claims|
          && s.claims[s.workers[t].part] == t
          && s.outputs[s.workers[t].part] == 0)
    && (forall t :: 0 <= t < |s.workers| && s.workers[t] in {OutOfWork, Returning, Exited} ==> s.next >= p.threads)
  }

  ghost predicate LockOk(s: State) {
    && (s.lock.HeldBy? ==> s.lock.t < |s.workers|)
    && (forall t :: 0 <= t < |s.workers| ==> (s.workers[t] == Returning <==> s.lock == HeldBy(t)))
  }

  predicate TokensOk(p: Pool, s: State, total: nat) {
    && s.tokens + s.held + InTransit(s) + s.siblings == total
    && (!p.jobserver ==> s.held == 0 && s.lock == Free)
    && (p.jobserver && !s.main.FirstAcquire? ==> s.live - 1 <= s.held <= s.live)
    && (p.jobserver ==> s.live == Counted(s.workers) + Promised(s))
    && (!p.jobserver ==> forall t :: 0 <= t < |s.workers| ==> !s.workers[t].OutOfWork?)
  }

  /** The main thread waits for the workers only when the pool is complete or all partitions are claimed. */
  predicate GrowthOk(p: Pool, s: State) {
    match s.main
    case FirstSpawn(pool) => !p.jobserver ==> pool == p.workers
    case Joining(_) => if p.jobserver then |s.workers| == p.workers || s.next >= p.threads else |s.workers| == p.workers
    case Finished => if p.jobserver then |s.workers| == p.workers || s.next >= p.threads else |s.workers| == p.workers
    case _ => true
  }

  ghost predicate Inv(p: Pool, s: State, total: nat) {
    p.Valid() && MainOk(p, s) && ClaimsOk(p, s) && LockOk(s) && TokensOk(p, s, total) && GrowthOk(p, s)
  }

  lemma {:induction false} CountedUpdate(ws: seq<Worker>, t: nat, w: Worker)
    requires t < |ws|
    ensures Counted(ws[t := w]) ==
            Counted(ws) - (if IsCounted(ws[t]) then 1 else 0) + (if IsCounted(w) then 1 else 0)
  {
    var n := |ws| - 1;
    if t < n {
      assert ws[t := w][..n] == ws[..n][t := w];
      CountedUpdate(ws[..n], t, w);
    } else {
      assert ws[t := w][..n] == ws[..n];
    }
  }

  lemma CountedAppend(ws: seq<Worker>, w: Worker)
    ensures Counted(ws + [w]) == Counted(ws) + (if IsCounted(w) then 1 else 0)
  {
    assert (ws + [w])[..|ws|] == ws;
  }

  lemma {:induction false} CountedSome(ws: seq<Worker>, t: nat)
    requires t < |ws| && IsCounted(ws[t])
    ensures Counted(ws) > 0
  {
    if t < |ws| - 1 {
      CountedSome(ws[..|ws| - 1], t);
    }
  }

  lemma {:induction false} CountedNone(ws: seq<Worker>)
    requires forall t :: 0 <= t < |ws| ==> ws[t] == Exited
    ensures Counted(ws) == 0
  {
    if |ws| > 0 {
      CountedNone(ws[..|ws| - 1]);
    }
  }

  lemma InitInv(p: Pool, tokens: nat, siblings: nat)
    requires p.Valid()
    ensures Inv(p, Init(p, tokens, siblings), tokens + siblings)
  {
  }

  // The main thread.

  lemma MainKeepsMain(p: Pool, s: State)
    requires p.Valid() && MainOk(p, s) && Enabled(p, s, MainStep)
    ensures MainOk(p, StepMain(p, s))
  {
  }

  lemma MainKeepsClaims(p: Pool, s: State)
    requires p.Valid() && ClaimsOk(p, s) && Enabled(p, s, MainStep)
    ensures ClaimsOk(p, StepMain(p, s))
  {
    MainKeepsWorkers(p, s);
  }

  lemma MainKeepsWorkers(p: Pool, s: State)
    requires p.Valid() && Enabled(p, s, MainStep)
    ensures var s' := StepMain(p, s);
            && (s'.workers == s.workers || s'.workers == s.workers + [Looking])
            && s'.next == s.next && s'.claims == s.claims && s'.outputs == s.outputs && s'.lock == s.lock
  {
  }

  lemma MainKeepsLock(p: Pool, s: State)
    requires p.Valid() && LockOk(s) && Enabled(p, s, MainStep)
    ensures LockOk(StepMain(p, s))
  {
    MainKeepsWorkers(p, s);
  }

  lemma MainKeepsTokens(p: Pool, s: State, total: nat)
    requires p.Valid() && MainOk(p, s) && TokensOk(p, s, total) && Enabled(p, s, MainStep)
    ensures TokensOk(p, StepMain(p, s), total)
  {
    hide Counted;
    CountedAppend(s.workers, Looking);
    match s.main
    case FirstAcquire(_) =>
      CountedNone(s.workers);
    case _ =>
  }

  // The worker threads.

  lemma StepWorkerCallable(p: Pool, s: State, total: nat, t: nat)
    requires Inv(p, s, total) && Enabled(p, s, WorkerStep(t))
    ensures CanStep(p, s, t)
  {
    if s.workers[t] == OutOfWork {
      CountedSome(s.workers, t);
    }
  }

  lemma WorkerKeepsMain(p: Pool, s: State, t: nat)
    requires p.Valid() && MainOk(p, s) && CanStep(p, s, t)
    ensures MainOk(p, StepWorker(p, s, t))
  {
    var s' := StepWorker(p, s, t);
    assert |s'.workers| == |s.workers| && s'.main == s.main;
    assert s'.main.FirstAcquire? ==> s.workers == [];
  }

  lemma WorkerKeepsClaims(p: Pool, s: State, t: nat)
    requires ClaimsOk(p, s) && CanStep(p, s, t)
    ensures ClaimsOk(p, StepWorker(p, s, t))
  {
    hide Counted;
    var s' := StepWorker(p, s, t);
    match s.workers[t]
    case Looking =>
      assert s'.outputs == s.outputs;
    case Compiling(i) =>
      assert s'.claims == s.claims;
    case _ =>
  }

  lemma WorkerKeepsLock(p: Pool, s: State, t: nat)
    requires LockOk(s) && CanStep(p, s, t)
    ensures LockOk(StepWorker(p, s, t))
  {
  }

  lemma WorkerKeepsTokens(p: Pool, s: State, total: nat, t: nat)
    requires TokensOk(p, s, total) && LockOk(s) && !s.main.FirstAcquire? && CanStep(p, s, t)
    ensures TokensOk(p, StepWorker(p, s, t), total)
  {
    var s' := StepWorker(p, s, t);
    CountedUpdate(s.workers, t, s'.workers[t]);
    assert Promised(s') == Promised(s);
  }

  // ---------------------------------------------------------------------------
  // Runs.
  // ---------------------------------------------------------------------------

  ghost predicate Next(p: Pool, s: State, e: Event, s': State) {
    && p.Valid()
    && Enabled(p, s, e)
    && match e
       case MainStep => s' == StepMain(p, s)
       case WorkerStep(t) => CanStep(p, s, t) && s' == StepWorker(p, s, t)
       case SiblingTakes => s' == s.(tokens := s.tokens - 1, siblings := s.siblings + 1)
       case SiblingReturns => s' == s.(tokens := s.tokens + 1, siblings := s.siblings - 1)
  }

  /** The states of a run that starts with the given tokens free and in sibling hands. */
  ghost predicate IsRun(p: Pool, tokens: nat, siblings: nat, es: seq<Event>, ss: seq<State>) {
    && p.Valid()
    && |ss| == |es| + 1
    && ss[0] == Init(p, tokens, siblings)
    && forall k :: 0 <= k < |es| ==> Next(p, ss[k], es[k], ss[k + 1])
  }

  lemma NextKeeps(p: Pool, s: State, total: nat, e: Event, s': State)
    requires Inv(p, s, total) && Next(p, s, e, s')
    ensures Inv(p, s', total)
  {
    hide MainOk, ClaimsOk, LockOk, TokensOk, StepMain, GrowthOk;
    GrowthKept(p, s, e, s');
    match e
    case MainStep =>
      MainKeepsMain(p, s);
      MainKeepsClaims(p, s);
      MainKeepsLock(p, s);
      MainKeepsTokens(p, s, total);
    case WorkerStep(t) =>
      WorkerKeepsMain(p, s, t);
      WorkerKeepsClaims(p, s, t);
      WorkerKeepsLock(p, s, t);
      assert !s.main.FirstAcquire? by { FirstAcquireHasNoWorkers(p, s); }
      WorkerKeepsTokens(p, s, total, t);
    case _ =>
      SiblingKeeps(p, s, total, s'.tokens, s'.siblings);
  }

  lemma GrowthKept(p: Pool, s: State, e: Event, s': State)
    requires p.Valid() && GrowthOk(p, s) && MainOk(p, s) && Next(p, s, e, s')
    ensures GrowthOk(p, s')
  {
  }

  lemma FirstAcquireHasNoWorkers(p: Pool, s: State)
    requires MainOk(p, s)
    ensures s.main.FirstAcquire? ==> |s.workers| == 0
  {
  }

  lemma SiblingKeeps(p: Pool, s: State, total: nat, tokens: nat, siblings: nat)
    requires Inv(p, s, total) && tokens + siblings == s.tokens + s.siblings
    ensures Inv(p, s.(tokens := tokens, siblings := siblings), total)
  {
    hide Counted;
  }

  lemma {:induction false} RunKeeps(p: Pool, tokens: nat, siblings: nat, es: seq<Event>, ss: seq<State>, k: nat)
    requires IsRun(p, tokens, siblings, es, ss) && k < |ss|
    ensures Inv(p, ss[k], tokens + siblings)
  {
    if k == 0 {
      InitInv(p, tokens, siblings);
    } else {
      RunKeeps(p, tokens, siblings, es, ss, k - 1);
      assert Next(p, ss[k - 1], es[k - 1], ss[k]);
      NextKeeps(p, ss[k - 1], tokens + siblings, es[k - 1], ss[k]);
    }
  }

  /**
  Safety of every run: the pool never exceeds its ceiling, tokens are conserved, the pool holds
  a token for every live thread but at most one, no partition is compiled twice, and no thread
  takes the live counter or an output index out of range.
   */
  lemma PoolSafety(p: Pool, tokens: nat, siblings: nat, es: seq<Event>, ss: seq<State>, k: nat)
    requires IsRun(p, tokens, siblings, es, ss) && k < |ss|
    ensures |ss[k].workers| + Promised(ss[k]) <= p.workers
    ensures ss[k].tokens + ss[k].held + InTransit(ss[k]) + ss[k].siblings == tokens + siblings
    ensures p.jobserver && !ss[k].main.FirstAcquire? ==> ss[k].live - 1 <= ss[k].held <= ss[k].live
    ensures ss[k].main.Joining? || ss[k].main.Finished? ==>
              |ss[k].workers| == p.workers || (p.jobserver && ss[k].next >= p.threads)
    ensures |ss[k].outputs| == p.threads
    ensures forall i :: 0 <= i < p.threads ==> ss[k].outputs[i] <= 1
    ensures forall t :: Enabled(p, ss[k], WorkerStep(t)) ==> CanStep(p, ss[k], t)
  {
    RunKeeps(p, tokens, siblings, es, ss, k);
    forall t | Enabled(p, ss[k], WorkerStep(t))
      ensures CanStep(p, ss[k], t)
    {
      StepWorkerCallable(p, ss[k], tokens + siblings, t);
    }
  }

  /**
  After all joins no token is held, every thread has left, and every partition was compiled
  exactly once, however tokens arrived: also when the last live thread had left before.
   */
  lemma PoolDone(p: Pool, tokens: nat, siblings: nat, es: seq<Event>, ss: seq<State>, k: nat)
    requires IsRun(p, tokens, siblings, es, ss) && k < |ss| && ss[k].main.Finished?
    ensures ss[k].held == 0 && ss[k].tokens + ss[k].siblings == tokens + siblings
    ensures forall t :: 0 <= t < |ss[k].workers| ==> ss[k].workers[t] == Exited
    ensures ss[k].outputs == seq(p.threads, i => 1)
  {
    var s := ss[k];
    RunKeeps(p, tokens, siblings, es, ss, k);
    CountedNone(s.workers);
    assert s.workers[0] == Exited;
    assert |s.claims| == p.threads;
    forall i | 0 <= i < p.threads
      ensures s.outputs[i] == 1
    {
      assert s.workers[s.claims[i]] == Exited;
    }
  }

  /** Until it finishes, some thread of the pool can always move: the mutex never deadlocks. */
  lemma PoolNeverStuck(p: Pool, tokens: nat, siblings: nat, es: seq<Event>, ss: seq<State>, k: nat)
    requires IsRun(p, tokens, siblings, es, ss) && k < |ss| && !ss[k].main.Finished?
    ensures Enabled(p, ss[k], MainStep) || exists t :: Enabled(p, ss[k], WorkerStep(t))
  {
    var s := ss[k];
    RunKeeps(p, tokens, siblings, es, ss, k);
    if s.lock.HeldBy? {
      assert Enabled(p, s, WorkerStep(s.lock.t));
    } else if s.main.Joining? && s.main.t < |s.workers| && s.workers[s.main.t] != Exited {
      assert Enabled(p, s, WorkerStep(s.main.t));
    }
  }

  // Bounded work.

  function Weight(w: Worker): nat {
    match w
    case Looking => 3
    case Compiling(_) => 4
    case OutOfWork => 2
    case Returning => 1
    case Exited => 0
  }

  function Weights(ws: seq<Worker>): nat {
    if |ws| == 0 then 0 else Weights(ws[..|ws| - 1]) + Weight(ws[|ws| - 1])
  }

  lemma {:induction false} WeightsUpdate(ws: seq<Worker>, t: nat, w: Worker)
    requires t < |ws|
    ensures Weights(ws[t := w]) == Weights(ws) - Weight(ws[t]) + Weight(w)
  {
    var n := |ws| - 1;
    if t < n {
      assert ws[t := w][..n] == ws[..n][t := w];
      WeightsUpdate(ws[..n], t, w);
    } else {
      assert ws[t := w][..n] == ws[..n];
    }
  }

  lemma WeightsAppend(ws: seq<Worker>, w: Worker)
    ensures Weights(ws + [w]) == Weights(ws) + Weight(w)
  {
    assert (ws + [w])[..|ws|] == ws;
  }

  /** What the workers can still do: claims left, threads under way, threads not yet spawned. */
  function WorkLeft(p: Pool, s: State): int {
    2 * (p.threads - Min(s.next, p.threads)) + Weights(s.workers) + 4 * (p.workers - |s.workers|)
  }

  function WorkerSteps(es: seq<Event>): nat {
    if |es| == 0 then 0
    else WorkerSteps(es[..|es| - 1]) + (if es[|es| - 1].WorkerStep? then 1 else 0)
  }

  lemma NextUsesWork(p: Pool, s: State, e: Event, s': State)
    requires Next(p, s, e, s')
    ensures WorkLeft(p, s') <= WorkLeft(p, s) - (if e.WorkerStep? then 1 else 0)
  {
    match e
    case MainStep =>
      MainKeepsWorkers(p, s);
      WeightsAppend(s.workers, Looking);
    case WorkerStep(t) =>
      WeightsUpdate(s.workers, t, s'.workers[t]);
    case _ =>
  }

  lemma {:induction false} RunUsesWork(p: Pool, tokens: nat, siblings: nat, es: seq<Event>, ss: seq<State>)
    requires IsRun(p, tokens, siblings, es, ss)
    ensures WorkerSteps(es) + WorkLeft(p, ss[|es|]) <= 2 * p.threads + 4 * p.workers
    decreases |es|
  {
    var n := |es| - 1;
    if n >= 0 {
      assert Next(p, ss[n], es[n], ss[n + 1]);
      NextUsesWork(p, ss[n], es[n], ss[n + 1]);
      RunUsesWork(p, tokens, siblings, es[..n], ss[..n + 1]);
    }
  }

  /** In every run, of whatever length, the worker threads take a bounded number of steps. */
  lemma PoolWorkBounded(p: Pool, tokens: nat, siblings: nat, es: seq<Event>, ss: seq<State>)
    requires IsRun(p, tokens, siblings, es, ss)
    ensures WorkerSteps(es) <= 2 * p.threads + 4 * p.workers
  {
    RunUsesWork(p, tokens, siblings, es, ss);
    RunKeeps(p, tokens, siblings, es, ss, |es|);
    PoolSafety(p, tokens, siblings, es, ss, |es|);
  }

  // ---------------------------------------------------------------------------
  // Finishing.
  // ---------------------------------------------------------------------------

  /** From `s` the pool's own threads, without any help from siblings, take the steps `es` to `s'`. */
  ghost predicate Continues(p: Pool, s: State, es: seq<Event>, s': State)
    decreases |es|
  {
    if es == [] then s' == s
    else
      && (es[0].MainStep? || es[0].WorkerStep?)
      && exists s1 :: Next(p, s, es[0], s1) && Continues(p, s1, es[1..], s')
  }

  /** How far the main thread is from the end, as long as it need not poll again. */
  function MainLeft(p: Pool, s: State): int {
    match s.main
    case FirstAcquire(got) => 3 * p.workers + 11 - got
    case FirstSpawn(_) => 2 * p.workers + 10
    case Acquiring(want, got) => p.workers + 5 + want - got
    case Publishing(_) => p.workers + 4
    case Spawning(_) => p.workers + 3
    case Polling => p.workers + 2
    case Joining(t) => 1 + |s.workers| - t
    case Finished => 0
  }

  /** The next step on the way to the end: a worker's if there is one, otherwise the main thread's. */
  lemma StepTowardsEnd(p: Pool, s: State, total: nat) returns (e: Event, s': State)
    requires Inv(p, s, total) && !s.main.Finished?
    ensures Next(p, s, e, s') && (e.MainStep? || e.WorkerStep?)
    ensures WorkLeft(p, s') < WorkLeft(p, s) || (WorkLeft(p, s') == WorkLeft(p, s) && MainLeft(p, s') < MainLeft(p, s))
  {
    if s.lock.HeldBy? {
      e := WorkerStep(s.lock.t);
      s' := TakeWorkerStep(p, s, total, s.lock.t);
    } else if t: nat :| t < |s.workers| && s.workers[t] != Exited {
      e := WorkerStep(t);
      s' := TakeWorkerStep(p, s, total, t);
    } else {
      e := MainStep;
      s' := TakeMainStep(p, s, total);
    }
  }

  lemma TakeWorkerStep(p: Pool, s: State, total: nat, t: nat) returns (s': State)
    requires Inv(p, s, total) && Enabled(p, s, WorkerStep(t))
    ensures Next(p, s, WorkerStep(t), s') && WorkLeft(p, s') < WorkLeft(p, s)
  {
    StepWorkerCallable(p, s, total, t);
    s' := StepWorker(p, s, t);
    hide Inv;
    NextUsesWork(p, s, WorkerStep(t), s');
  }

  lemma TakeMainStep(p: Pool, s: State, total: nat) returns (s': State)
    requires Inv(p, s, total) && !s.main.Finished? && s.lock == Free
    requires forall t :: 0 <= t < |s.workers| ==> s.workers[t] == Exited
    ensures Next(p, s, MainStep, s')
    ensures WorkLeft(p, s') < WorkLeft(p, s) || (WorkLeft(p, s') == WorkLeft(p, s) && MainLeft(p, s') < MainLeft(p, s))
  {
    assert s.workers != [] ==> s.workers[0] == Exited && s.next >= p.threads;
    assert MainOk(p, s);
    hide Inv, ClaimsOk, LockOk, TokensOk, GrowthOk, Weights;
    assert Enabled(p, s, MainStep);
    s' := StepMain(p, s);
    MainSpawns(p, s);
    MainAdvances(p, s);
  }

  /** The main thread spawns a thread or leaves the work as it is. */
  lemma MainSpawns(p: Pool, s: State)
    requires p.Valid() && Enabled(p, s, MainStep)
    ensures var s' := StepMain(p, s);
      WorkLeft(p, s') < WorkLeft(p, s) || (WorkLeft(p, s') == WorkLeft(p, s) && s'.workers == s.workers)
  {
    hide StepMain, Enabled, Weights;
    MainKeepsWorkers(p, s);
    WeightsAppend(s.workers, Looking);
  }

  /** When all partitions are claimed, a step of the main thread that spawns nothing brings it nearer to the end. */
  lemma MainAdvances(p: Pool, s: State)
    requires p.Valid() && MainOk(p, s) && Enabled(p, s, MainStep) && !s.main.Finished?
    requires s.workers != [] ==> s.next >= p.threads
    ensures var s' := StepMain(p, s); s'.workers == s.workers ==> MainLeft(p, s') < MainLeft(p, s)
  {
    var s' := StepMain(p, s);
    if |s'.workers| > |s.workers| {
      assert s'.workers != s.workers;
    }
  }

  /**
  From every reachable state the threads of the pool can bring the run to its end on their own,
  whatever tokens the siblings keep; by `PoolDone` every partition is then compiled once.
   */
  lemma PoolCanFinish(p: Pool, tokens: nat, siblings: nat, es: seq<Event>, ss: seq<State>, k: nat)
    returns (rest: seq<Event>, end: State)
    requires IsRun(p, tokens, siblings, es, ss) && k < |ss|
    ensures Continues(p, ss[k], rest, end) && end.main.Finished? && Inv(p, end, tokens + siblings)
  {
    RunKeeps(p, tokens, siblings, es, ss, k);
    rest, end := Finish(p, ss[k], tokens + siblings);
  }

  lemma {:induction false} Finish(p: Pool, s: State, total: nat) returns (es: seq<Event>, end: State)
    requires Inv(p, s, total)
    ensures Continues(p, s, es, end) && end.main.Finished? && Inv(p, end, total)
    decreases NatPart(WorkLeft(p, s)), NatPart(MainLeft(p, s))
  {
    if s.main.Finished? {
      es, end := [], s;
    } else {
      hide Inv, WorkLeft, MainLeft, Next;
      var e, s1 := StepTowardsEnd(p, s, total);
      MeasuresOk(p, s, total);
      NextKeeps(p, s, total, e, s1);
      MeasuresOk(p, s1, total);
      var rest;
      rest, end := Finish(p, s1, total);
      es := [e] + rest;
      assert es[0] == e && es[1..] == rest;
    }
  }

  function NatPart(x: int): nat {
    if x >= 0 then x else 0
  }

  lemma MeasuresOk(p: Pool, s: State, total: nat)
    requires Inv(p, s, total)
    ensures WorkLeft(p, s) >= 0 && MainLeft(p, s) >= 0
  {
  }

  // ---------------------------------------------------------------------------
  // Growing.
  // ---------------------------------------------------------------------------

  /** The main thread alone takes `n` steps from `s` to `s'`. */
  ghost predicate MainRuns(p: Pool, s: State, n: nat, s': State)
    requires p.Valid()
    decreases n
  {
    if n == 0 then s' == s else Enabled(p, s, MainStep) && MainRuns(p, StepMain(p, s), n - 1, s')
  }

  lemma {:induction false} MainRunsOn(p: Pool, s: State, m: nat, s1: State, n: nat, s2: State)
    requires p.Valid() && MainRuns(p, s, m, s1) && MainRuns(p, s1, n, s2)
    ensures MainRuns(p, s, m + n, s2)
    decreases m
  {
    if m > 0 {
      MainRunsOn(p, StepMain(p, s), m - 1, s1, n, s2);
    }
  }

  function Fresh(n: nat): seq<Worker> {
    seq(n, i => Looking)
  }

  /** Threads that have been counted are spawned. */
  lemma {:induction false} SpawnsAll(p: Pool, s: State, left: nat)
    requires p.Valid() && s.main == Spawning(left)
    ensures MainRuns(p, s, left + 1, s.(main := Polling, workers := s.workers + Fresh(left)))
    decreases left
  {
    var s1 := StepMain(p, s);
    if left == 0 {
      assert s.workers + Fresh(0) == s.workers;
      assert MainRuns(p, s1, 0, s1);
    } else {
      SpawnsAll(p, s1, left - 1);
      assert [Looking] + Fresh(left - 1) == Fresh(left);
      assert s.workers + [Looking] + Fresh(left - 1) == s.workers + Fresh(left);
    }
  }

  /** As many tokens are acquired as are wanted and free. */
  lemma {:induction false} AcquiresAll(p: Pool, s: State, want: nat, got: nat)
    requires p.Valid() && s.main == Acquiring(want, got) && got <= want
    ensures var g := Min(want - got, s.tokens);
      MainRuns(p, s, g, s.(main := Acquiring(want, got + g), tokens := s.tokens - g))
    decreases want - got
  {
    if got < want && s.tokens > 0 {
      AcquiresAll(p, StepMain(p, s), want, got + 1);
    }
  }

  /** The pool after `g` more threads, each with its token. */
  function Grown(s: State, g: nat): State
    requires g <= s.tokens
  {
    s.(main := Polling, workers := s.workers + Fresh(g), tokens := s.tokens - g, held := s.held + g, live := s.live + g)
  }

  /**
  One poll: while partitions are unclaimed and the pool is not complete, the main thread turns
  every free token it can use into a thread, and takes no other.
   */
  lemma PollGrows(p: Pool, s: State) returns (n: nat)
    requires p.Valid() && s.main == Polling && s.lock == Free && |s.workers| < p.workers && s.next < p.threads
    ensures n > 0
    ensures MainRuns(p, s, n, Grown(s, Min(s.tokens, Min(p.threads - s.next, p.workers - |s.workers|))))
  {
    var want := Min(p.threads - s.next, p.workers - |s.workers|);
    var g := Min(want, s.tokens);
    var s1 := StepMain(p, s);
    assert s1 == s.(main := Acquiring(want, 0));
    AcquiresAll(p, s1, want, 0);
    var s2 := s1.(main := Acquiring(want, g), tokens := s.tokens - g);
    assert MainRuns(p, s, 1, s1) by { assert MainRuns(p, s1, 0, s1); }
    MainRunsOn(p, s, 1, s1, g, s2);
    hide MainRuns, Enabled;
    var m := AfterAcquire(p, s2, want, g);
    MainRunsOn(p, s, 1 + g, s2, m, Grown(s2.(tokens := s2.tokens + g), g));
    n := 1 + g + m;
  }

  lemma AfterAcquire(p: Pool, s: State, want: nat, g: nat) returns (m: nat)
    requires p.Valid() && s.main == Acquiring(want, g) && g <= want && (g == want || s.tokens == 0) && s.lock == Free
    ensures MainRuns(p, s, m, Grown(s.(tokens := s.tokens + g), g))
  {
    var s1 := StepMain(p, s);
    if g == 0 {
      m := 1;
      assert s.workers + Fresh(0) == s.workers;
      assert s1 == Grown(s, 0);
      assert MainRuns(p, s1, 0, s1);
    } else {
      assert s1 == s.(main := Publishing(g));
      var s2 := StepMain(p, s1);
      assert s2 == s.(main := Spawning(g), held := s.held + g, live := s.live + g);
      SpawnsAll(p, s2, g);
      m := g + 3;
      var s' := Grown(s.(tokens := s.tokens + g), g);
      assert MainRuns(p, s2, g + 1, s');
      assert MainRuns(p, s1, g + 2, s');
    }
  }

  /** The first pool: one thread that needs no token, and one more for each token that is free and useful. */
  lemma FirstPool(p: Pool, tokens: nat, siblings: nat) returns (n: nat, s: State)
    requires p.Valid()
    ensures MainRuns(p, Init(p, tokens, siblings), n, s)
    ensures var g := if p.jobserver then Min(p.workers - 1, tokens) else 0;
      && s.workers == Fresh(if p.jobserver then 1 + g else p.workers)
      && s.main == (if p.jobserver then Polling else Joining(0))
      && s.tokens == tokens - g && s.held == g && s.live == |s.workers|
  {
    var s0 := Init(p, tokens, siblings);
    if p.jobserver {
      var g := Min(p.workers - 1, tokens);
      FirstAcquires(p, s0, 0);
      var s1 := s0.(main := FirstSpawn(1 + g), held := g, live := 1 + g, tokens := tokens - g);
      FirstSpawns(p, s1, 1 + g);
      s := s1.(main := Polling, workers := Fresh(1 + g));
      MainRunsOn(p, s0, g + 1, s1, 2 + g, s);
      n := g + 1 + (2 + g);
    } else {
      FirstSpawns(p, s0, p.workers);
      n, s := p.workers + 1, s0.(main := Joining(0), workers := Fresh(p.workers));
    }
  }

  lemma {:induction false} FirstAcquires(p: Pool, s: State, got: nat)
    requires p.Valid() && s.main == FirstAcquire(got) && got <= p.workers - 1
    ensures var g := Min(p.workers - 1 - got, s.tokens);
      MainRuns(p, s, g + 1,
               s.(main := FirstSpawn(1 + got + g), held := got + g, live := 1 + got + g, tokens := s.tokens - g))
    decreases p.workers - got
  {
    var s1 := StepMain(p, s);
    if got < p.workers - 1 && s.tokens > 0 {
      FirstAcquires(p, s1, got + 1);
    } else {
      assert MainRuns(p, s1, 0, s1);
    }
  }

  lemma {:induction false} FirstSpawns(p: Pool, s: State, pool: nat)
    requires p.Valid() && s.main == FirstSpawn(pool) && |s.workers| <= pool && s.workers == Fresh(|s.workers|)
    ensures MainRuns(p, s, pool - |s.workers| + 1,
                     s.(main := if p.jobserver then Polling else Joining(0), workers := Fresh(pool)))
    decreases pool - |s.workers|
  {
    var s1 := StepMain(p, s);
    if |s.workers| < pool {
      assert s1.workers == Fresh(|s.workers| + 1);
      FirstSpawns(p, s1, pool);
    } else {
      assert MainRuns(p, s1, 0, s1);
    }
  }
}
