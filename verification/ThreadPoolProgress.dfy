/** lib/thread_pool.c: what can still happen in every reachable state. Lost signals may keep a job
    waiting, but no state rules out that the jobs are handled and the pool is destroyed. */
module ThreadPoolProgress {
  import opened ThreadPools
  import opened ThreadPoolRuns

  lemma {:induction false} RunConcat(p: Pool, a: seq<Step>, b: seq<Step>)
    ensures Run(p, a + b) == Run(Run(p, a), b)
    decreases |a|
  {
    hide Next;
    if a == [] {
      assert a + b == b;
    } else {
      assert (a + b)[1..] == a[1..] + b && (a + b)[0] == a[0];
      RunConcat(Next(p, a[0]), a[1..], b);
    }
  }

  lemma RunOne(p: Pool, s: Step, more: seq<Step>)
    ensures Run(p, [s] + more) == Run(Next(p, s), more)
  {
    assert ([s] + more)[1..] == more;
  }

  // ---- One worker

  /** How many steps a killed worker is from its exit, at most. */
  function StepsToExit(w: Worker): nat {
    match w.place
    case Waiting => 5
    case Popping => 4
    case Handling(_) => 3
    case Testing => 2
    case Leaving => 1
    case Exited => 0
  }

  lemma OneWorkerStep(p: Pool, i: nat)
    requires PoolOk(p) && i < |p.workers|
    ensures var q := Next(p, WorkerStep(i));
            && PoolOk(q) && q == p.(workers := p.workers[i := WorkerNext(p.workers[i])])
            && WorkerOk(p.workers[i]) && WorkerOk(WorkerNext(p.workers[i]))
            && WorkerNext(p.workers[i]).killed == p.workers[i].killed
            && WorkerNext(p.workers[i]).dispatched == p.workers[i].dispatched
  {
    hide WorkerOk;
    hide WorkerNext;
    NextIsOk(p, WorkerStep(i));
    assert WorkerOk(p.workers[i]);
    WorkerNextIsOk(p.workers[i]);
  }

  /** A killed worker can always leave. */
  lemma {:induction false} WorkerCanExit(p: Pool, i: nat) returns (steps: seq<Step>)
    requires PoolOk(p) && i < |p.workers| && p.workers[i].killed
    ensures var q := Run(p, steps);
            && PoolOk(q) && |q.workers| == |p.workers| && q.dispatcher == p.dispatcher && q.workers[i].killAck
    decreases StepsToExit(p.workers[i])
  {
    hide PoolOk;
    hide Run;
    OneWorkerStep(p, i);
    if p.workers[i].place.Exited? {
      steps := [];
      RunNothing(p);
    } else {
      var more := WorkerCanExit(Next(p, WorkerStep(i)), i);
      steps := [WorkerStep(i)] + more;
      RunOne(p, WorkerStep(i), more);
    }
  }

  lemma RunNothing(p: Pool)
    ensures Run(p, []) == p
  {
  }

  /** How many steps a worker is from its next pop. */
  function StepsToPop(w: Worker): nat {
    match w.place case Handling(_) => 3 case Testing => 2 case Waiting => 1 case _ => 0
  }

  /** As long as it has not been killed, a worker can always handle every job in its queue. */
  lemma {:induction false} QueueCanBeHandled(p: Pool, i: nat) returns (steps: seq<Step>)
    requires PoolOk(p) && i < |p.workers| && !p.workers[i].killed
    ensures var q := Run(p, steps);
            && i < |q.workers| && q.workers[i].dispatched == p.workers[i].dispatched
            && q.workers[i].handled == NonNull(p.workers[i].dispatched)
    decreases |p.workers[i].queue|, StepsToPop(p.workers[i])
  {
    hide PoolOk;
    hide Run;
    hide NonNull;
    var w := p.workers[i];
    OneWorkerStep(p, i);
    if w.queue == [] && !w.place.Handling? {
      steps := [];
      RunNothing(p);
      assert w.popped + [] + [] == w.popped && w.handled + [] == w.handled;
    } else {
      var more := QueueCanBeHandled(Next(p, WorkerStep(i)), i);
      steps := [WorkerStep(i)] + more;
      RunOne(p, WorkerStep(i), more);
    }
  }

  // ---- The dispatcher

  lemma OneDispatcherStep(p: Pool)
    requires PoolOk(p)
    ensures PoolOk(Next(p, DispatcherStep))
  {
    hide PoolOk;
    NextIsOk(p, DispatcherStep);
  }

  function PhaseRank(phase: Phase): nat {
    match phase case Kill => 2 case AwaitAck => 1 case Free => 0
  }

  /** A destruction that has begun can always be completed. */
  lemma {:induction false} DestructionCanComplete(p: Pool) returns (steps: seq<Step>)
    requires PoolOk(p) && p.dispatcher.Destroying?
    ensures Run(p, steps).dispatcher.Gone?
    decreases if p.dispatcher.w < |p.workers| then |p.workers| - p.dispatcher.w else 0, PhaseRank(p.dispatcher.phase)
  {
    hide Run;
    hide PoolOk;
    var Destroying(w, phase) := p.dispatcher;
    var before, q := [], p;
    RunNothing(p);
    if w < |p.workers| && phase.AwaitAck? {
      AwaitedIsKilled(p);
      before := WorkerCanExit(p, w);
      q := Run(p, before);
    }
    OneDispatcherStep(q);
    var r := Next(q, DispatcherStep);
    var more: seq<Step> := [];
    if w < |p.workers| { more := DestructionCanComplete(r); } else { RunNothing(r); }
    steps := before + ([DispatcherStep] + more);
    RunConcat(p, before, [DispatcherStep] + more);
    RunOne(q, DispatcherStep, more);
  }

  lemma AwaitedIsKilled(p: Pool)
    requires PoolOk(p) && p.dispatcher.Destroying? && p.dispatcher.w < |p.workers| && !p.dispatcher.phase.Kill?
    ensures p.workers[p.dispatcher.w].killed
  {
    hide WorkerOk;
    assert DestroyedUpTo(p.dispatcher, p.dispatcher.w, p.workers[p.dispatcher.w]);
  }

  /** A dispatch that has begun can always be completed. */
  lemma {:induction false} DispatchCanComplete(p: Pool) returns (steps: seq<Step>)
    requires PoolOk(p) && p.dispatcher.Sampling?
    ensures PoolOk(Run(p, steps)) && Run(p, steps).dispatcher.Idle?
    ensures Run(p, steps).submitted == p.submitted + [p.dispatcher.job]
    decreases |p.workers| - |p.dispatcher.samples|
  {
    hide Run;
    hide PoolOk;
    SamplingHasWorkers(p);
    OneDispatcherStep(p);
    var q := Next(p, DispatcherStep);
    var more: seq<Step> := [];
    if q.dispatcher.Sampling? { more := DispatchCanComplete(q); } else { RunNothing(q); }
    steps := [DispatcherStep] + more;
    RunOne(p, DispatcherStep, more);
  }

  lemma SamplingHasWorkers(p: Pool)
    requires PoolOk(p) && p.dispatcher.Sampling?
    ensures p.workers != [] && |p.dispatcher.samples| <= |p.workers|
  {
    hide WorkerOk;
  }

  /** In every reachable state the pool can still be destroyed. */
  lemma PoolCanBeDestroyed(size: nat, steps: seq<Step>) returns (more: seq<Step>)
    ensures Run(NewPool(size), steps + more).dispatcher.Gone?
  {
    hide Run;
    hide NewPool;
    hide PoolOk;
    NewPoolIsOk(size);
    RunIsOk(NewPool(size), steps);
    var p := Run(NewPool(size), steps);
    var first, q := [], p;
    RunNothing(p);
    if p.dispatcher.Sampling? {
      first := DispatchCanComplete(p);
      q := Run(p, first);
    }
    var last: seq<Step> := [];
    RunNothing(q);
    if q.dispatcher.Destroying? {
      last := DestructionCanComplete(q);
    } else if q.dispatcher.Idle? {
      NextIsOk(q, BeginDestroy);
      var rest := DestructionCanComplete(Next(q, BeginDestroy));
      last := [BeginDestroy] + rest;
      RunOne(q, BeginDestroy, rest);
    }
    more := first + last;
    RunConcat(p, first, last);
    RunConcat(NewPool(size), steps, more);
  }
}
