/** The thread pool as interleaved steps of its workers and its dispatcher. A waiting worker may wake
    at any time, so signals may be lost and wake-ups may be spurious. */
module ThreadPoolRuns {
  import opened ThreadPools

  // ---- Steps

  /** Where a worker's thread is. */
  datatype Place = Testing | Waiting | Popping | Handling(job: Job) | Leaving | Exited

  /** A worker with its queue and flags, and the history of its jobs: those pushed to its queue, those
      popped, those passed to the handler to the end, and those freed with the queue. */
  datatype Worker = Worker(place: Place, queue: seq<Job>, killed: bool, killAck: bool, destroyed: bool,
                           dispatched: seq<Job>, popped: seq<Job>, handled: seq<Job>, freed: seq<Job>)

  datatype Phase = Kill | AwaitAck | Free

  /** What the dispatching thread is doing. */
  datatype Dispatcher = Idle | Sampling(job: Job, samples: seq<nat>) | Destroying(w: nat, phase: Phase) | Gone

  datatype Pool = Pool(workers: seq<Worker>, dispatcher: Dispatcher, submitted: seq<Job>, handledHere: seq<Job>)

  datatype Step = WorkerStep(i: nat) | Submit(job: Job) | DispatcherStep | BeginDestroy

  const NEW_WORKER: Worker := Worker(Testing, [], false, false, false, [], [], [], [])

  function NewPool(size: nat): Pool {
    Pool(seq(size, _ => NEW_WORKER), Idle, [], [])
  }

  function WorkerNext(w: Worker): Worker {
    match w.place
    case Testing => w.(place := if w.killed then Leaving else Waiting)
    case Waiting => w.(place := Popping)
    case Popping =>
      if w.queue == [] then w.(place := Testing)
      else
        var job := w.queue[0];
        w.(place := if job != NULL then Handling(job) else Testing, queue := w.queue[1..], popped := w.popped + [job])
    case Handling(job) => w.(place := Testing, handled := w.handled + [job])
    case Leaving => w.(place := Exited, killAck := true)
    case Exited => w
  }

  function Push(w: Worker, job: Job): Worker {
    w.(queue := w.queue + [job], dispatched := w.dispatched + [job])
  }

  function DestroyQueue(w: Worker): Worker {
    w.(queue := [], freed := w.freed + w.queue, destroyed := true)
  }

  function SubmitNext(p: Pool, job: Job): Pool {
    if p.workers == [] then p.(submitted := p.submitted + [job], handledHere := p.handledHere + [job])
    else p.(dispatcher := Sampling(job, []))
  }

  /** The next length is sampled, or, when all are, the job is pushed to the least loaded worker. */
  function SampleNext(p: Pool): Pool
    requires p.dispatcher.Sampling? && p.workers != []
  {
    var Sampling(job, samples) := p.dispatcher;
    if |samples| < |p.workers| then
      p.(dispatcher := Sampling(job, samples + [|p.workers[|samples|].queue|]))
    else
      var k := LeastLoaded(samples);
      if k < |p.workers| then
        p.(workers := p.workers[k := Push(p.workers[k], job)], dispatcher := Idle, submitted := p.submitted + [job])
      else p
  }

  function DestroyNext(p: Pool): Pool
    requires p.dispatcher.Destroying?
  {
    var Destroying(w, phase) := p.dispatcher;
    if w >= |p.workers| then p.(dispatcher := Gone)
    else
      match phase
      case Kill => p.(workers := p.workers[w := p.workers[w].(killed := true)], dispatcher := Destroying(w, AwaitAck))
      case AwaitAck => if p.workers[w].killAck then p.(dispatcher := Destroying(w, Free)) else p
      case Free => p.(workers := p.workers[w := DestroyQueue(p.workers[w])], dispatcher := Destroying(w + 1, Kill))
  }

  /** One step of one thread; a step that cannot be taken changes nothing. */
  function Next(p: Pool, s: Step): Pool {
    match s
    case WorkerStep(i) => if i < |p.workers| then p.(workers := p.workers[i := WorkerNext(p.workers[i])]) else p
    case Submit(job) => if p.dispatcher.Idle? then SubmitNext(p, job) else p
    case BeginDestroy => if p.dispatcher.Idle? then p.(dispatcher := Destroying(0, Kill)) else p
    case DispatcherStep =>
      match p.dispatcher
      case Sampling(_, _) => if p.workers == [] then p else SampleNext(p)
      case Destroying(_, _) => DestroyNext(p)
      case _ => p
  }

  function Run(p: Pool, steps: seq<Step>): Pool
    decreases |steps|
  {
    if steps == [] then p else Run(Next(p, steps[0]), steps[1..])
  }

  // ---- The invariant

  function InFlight(w: Worker): seq<Job> {
    if w.place.Handling? then [w.place.job] else []
  }

  function NonNull(jobs: seq<Job>): seq<Job> {
    if jobs == [] then [] else (if jobs[0] == NULL then [] else [jobs[0]]) + NonNull(jobs[1..])
  }

  /** A worker's jobs are, in the order in which they were dispatched, those popped, those freed and
      those still queued; the ones popped have been handled, but for the one in flight and null
      pointers; and only a worker that has left has its queue freed. */
  predicate WorkerOk(w: Worker) {
    && w.dispatched == w.popped + w.freed + w.queue
    && w.handled + InFlight(w) == NonNull(w.popped)
    && (w.killAck <==> w.place.Exited?)
    && (w.place.Leaving? || w.place.Exited? ==> w.killed)
    && (w.destroyed ==> w.place.Exited? && w.queue == [])
    && (!w.destroyed ==> w.freed == [])
  }

  /** How far the destruction has come for worker `i`. */
  predicate DestroyedUpTo(d: Dispatcher, i: nat, w: Worker) {
    match d
    case Idle => !w.killed && !w.destroyed
    case Sampling(_, _) => !w.killed && !w.destroyed
    case Gone => w.destroyed
    case Destroying(n, phase) =>
      if i < n then w.destroyed
      else if i > n then !w.killed && !w.destroyed
      else !w.destroyed && (w.killed <==> !phase.Kill?) && (phase.Free? ==> w.killAck)
  }

  predicate SamplesOk(p: Pool) {
    p.dispatcher.Sampling? ==>
      && p.workers != [] && |p.dispatcher.samples| <= |p.workers|
      && forall j | 0 <= j < |p.dispatcher.samples| :: |p.workers[j].queue| <= p.dispatcher.samples[j]
  }

  function Total(ws: seq<Worker>, f: Worker -> multiset<Job>): multiset<Job> {
    if ws == [] then multiset{} else f(ws[0]) + Total(ws[1..], f)
  }

  function DispatchedBag(w: Worker): multiset<Job> { multiset(w.dispatched) }
  function HandledBag(w: Worker): multiset<Job> { multiset(w.handled) }
  function FreedBag(w: Worker): multiset<Job> { multiset(NonNull(w.freed)) }

  ghost predicate PoolOk(p: Pool) {
    && (forall i | 0 <= i < |p.workers| :: WorkerOk(p.workers[i]) && DestroyedUpTo(p.dispatcher, i, p.workers[i]))
    && SamplesOk(p)
    && multiset(p.submitted) == multiset(p.handledHere) + Total(p.workers, DispatchedBag)
    && (p.workers != [] ==> p.handledHere == [])
  }

  lemma {:induction false} NonNullAppend(a: seq<Job>, b: seq<Job>)
    ensures NonNull(a + b) == NonNull(a) + NonNull(b)
  {
    if a == [] {
      assert a + b == b;
    } else {
      assert (a + b)[1..] == a[1..] + b;
      NonNullAppend(a[1..], b);
    }
  }

  lemma {:induction false} TotalUpdate(ws: seq<Worker>, i: nat, w: Worker, f: Worker -> multiset<Job>)
    requires i < |ws|
    ensures Total(ws[i := w], f) + f(ws[i]) == Total(ws, f) + f(w)
  {
    var us := ws[i := w];
    assert Total(us, f) == f(us[0]) + Total(us[1..], f) && Total(ws, f) == f(ws[0]) + Total(ws[1..], f);
    if i == 0 {
      assert us[1..] == ws[1..];
    } else {
      assert us[1..] == ws[1..][i - 1 := w];
      TotalUpdate(ws[1..], i - 1, w, f);
      assert us[0] == ws[0] && ws[1..][i - 1] == ws[i];
      AddBoth(f(ws[0]), Total(us[1..], f), f(ws[i]), Total(ws[1..], f), f(w));
    }
  }

  lemma AddBoth(a: multiset<Job>, t': multiset<Job>, x: multiset<Job>, t: multiset<Job>, y: multiset<Job>)
    requires t' + x == t + y
    ensures a + t' + x == a + t + y
  {
    forall j: Job ensures (a + t' + x)[j] == (a + t + y)[j] {
      assert (t' + x)[j] == (t + y)[j];
    }
  }

  lemma WorkerNextIsOk(w: Worker)
    requires WorkerOk(w)
    ensures var v := WorkerNext(w);
            && WorkerOk(v) && v.dispatched == w.dispatched && v.killed == w.killed && v.destroyed == w.destroyed
            && |v.queue| <= |w.queue| && (w.killAck ==> v.killAck)
  {
    if w.place.Popping? && w.queue != [] {
      var job := w.queue[0];
      NonNullAppend(w.popped, [job]);
      assert NonNull([job]) == if job == NULL then [] else [job];
      assert w.queue == [job] + w.queue[1..];
      assert w.popped + w.freed + w.queue == w.popped + [job] + w.freed + w.queue[1..];
    }
  }

  /** One worker is replaced, the dispatcher moves on, and the books stay balanced. */
  lemma ReplaceWorker(p: Pool, k: nat, v: Worker, d: Dispatcher, submitted: seq<Job>)
    requires PoolOk(p) && k < |p.workers|
    requires WorkerOk(v) && DestroyedUpTo(d, k, v)
    requires forall j | 0 <= j < |p.workers| && j != k :: DestroyedUpTo(d, j, p.workers[j])
    requires SamplesOk(p.(workers := p.workers[k := v], dispatcher := d, submitted := submitted))
    requires multiset(submitted) + DispatchedBag(p.workers[k]) == multiset(p.submitted) + DispatchedBag(v)
    ensures PoolOk(p.(workers := p.workers[k := v], dispatcher := d, submitted := submitted))
  {
    hide WorkerOk;
    hide DestroyedUpTo;
    hide SamplesOk;
    hide DispatchedBag;
    hide Total;
    TotalUpdate(p.workers, k, v, DispatchedBag);
    Balance(multiset(submitted), multiset(p.submitted), multiset(p.handledHere), Total(p.workers, DispatchedBag),
            Total(p.workers[k := v], DispatchedBag), DispatchedBag(p.workers[k]), DispatchedBag(v));
  }

  lemma Balance(s': multiset<Job>, s: multiset<Job>, h: multiset<Job>, t: multiset<Job>, t': multiset<Job>,
                w: multiset<Job>, v: multiset<Job>)
    requires s == h + t && t' + w == t + v && s' + w == s + v
    ensures s' == h + t'
  {
    forall j: Job ensures s'[j] == (h + t')[j] {
      assert s[j] == h[j] + t[j] && (t' + w)[j] == (t + v)[j] && (s' + w)[j] == (s + v)[j];
    }
  }

  lemma WorkerStepIsOk(p: Pool, i: nat)
    requires PoolOk(p) && i < |p.workers|
    ensures PoolOk(Next(p, WorkerStep(i)))
  {
    hide WorkerNext;
    hide WorkerOk;
    hide Total;
    var w := p.workers[i];
    assert WorkerOk(w) && DestroyedUpTo(p.dispatcher, i, w);
    WorkerNextIsOk(w);
    ReplaceWorker(p, i, WorkerNext(w), p.dispatcher, p.submitted);
  }

  lemma PushedIsOk(w: Worker, job: Job)
    requires WorkerOk(w) && !w.destroyed
    ensures WorkerOk(Push(w, job))
  {
    hide NonNull;
    assert w.popped + w.freed + w.queue + [job] == w.popped + w.freed + (w.queue + [job]);
  }

  lemma DestroyedIsOk(w: Worker)
    requires WorkerOk(w) && w.killAck
    ensures WorkerOk(DestroyQueue(w))
  {
    hide NonNull;
    assert w.popped + w.freed + w.queue == w.popped + (w.freed + w.queue) + [];
  }

  lemma PushIsOk(p: Pool, k: nat, job: Job)
    requires PoolOk(p) && p.dispatcher.Sampling? && k < |p.workers|
    ensures PoolOk(p.(workers := p.workers[k := Push(p.workers[k], job)], dispatcher := Idle, submitted := p.submitted + [job]))
  {
    hide WorkerOk;
    hide Total;
    var w := p.workers[k];
    assert WorkerOk(w) && DestroyedUpTo(p.dispatcher, k, w);
    PushedIsOk(w, job);
    ReplaceWorker(p, k, Push(w, job), Idle, p.submitted + [job]);
  }

  lemma DestroyIsOk(p: Pool)
    requires PoolOk(p) && p.dispatcher.Destroying?
    ensures PoolOk(DestroyNext(p))
  {
    hide Total;
    hide NonNull;
    var Destroying(n, phase) := p.dispatcher;
    if n < |p.workers| {
      var w := p.workers[n];
      assert WorkerOk(w) && DestroyedUpTo(p.dispatcher, n, w);
      match phase
      case Kill => ReplaceWorker(p, n, w.(killed := true), Destroying(n, AwaitAck), p.submitted);
      case AwaitAck =>
      case Free =>
        DestroyedIsOk(w);
        ReplaceWorker(p, n, DestroyQueue(w), Destroying(n + 1, Kill), p.submitted);
    }
  }

  lemma NextIsOk(p: Pool, s: Step)
    requires PoolOk(p)
    ensures PoolOk(Next(p, s))
  {
    hide PoolOk;
    hide SubmitNext;
    hide SampleNext;
    hide DestroyNext;
    match s {
      case WorkerStep(i) => if i < |p.workers| { WorkerStepIsOk(p, i); }
      case Submit(job) => if p.dispatcher.Idle? { SubmitIsOk(p, job); }
      case BeginDestroy => if p.dispatcher.Idle? { BeginIsOk(p); }
      case DispatcherStep => DispatcherStepIsOk(p);
    }
  }

  lemma SubmitIsOk(p: Pool, job: Job)
    requires PoolOk(p) && p.dispatcher.Idle?
    ensures PoolOk(SubmitNext(p, job))
  {
    hide WorkerOk;
    hide Total;
    if p.workers == [] {
      assert multiset(p.submitted + [job]) == multiset(p.submitted) + multiset{job};
    }
  }

  lemma BeginIsOk(p: Pool)
    requires PoolOk(p) && p.dispatcher.Idle?
    ensures PoolOk(p.(dispatcher := Destroying(0, Kill)))
  {
    hide WorkerOk;
    hide Total;
  }

  lemma DispatcherStepIsOk(p: Pool)
    requires PoolOk(p)
    ensures PoolOk(Next(p, DispatcherStep))
  {
    hide WorkerOk;
    hide LeastLoaded;
    hide Total;
    match p.dispatcher
    case Sampling(job, samples) =>
      if |samples| >= |p.workers| { PushIsOk(p, LeastLoaded(samples), job); }
    case Destroying(_, _) => DestroyIsOk(p);
    case _ =>
  }

  lemma {:induction false} RunIsOk(p: Pool, steps: seq<Step>)
    requires PoolOk(p)
    ensures PoolOk(Run(p, steps))
    decreases |steps|
  {
    hide PoolOk;
    hide Next;
    if steps != [] {
      NextIsOk(p, steps[0]);
      RunIsOk(Next(p, steps[0]), steps[1..]);
    }
  }

  lemma {:induction false} NewPoolTotals(size: nat)
    ensures Total(NewPool(size).workers, DispatchedBag) == multiset{}
  {
    if size > 0 {
      assert NewPool(size).workers[1..] == NewPool(size - 1).workers;
      NewPoolTotals(size - 1);
    }
  }

  lemma NewPoolIsOk(size: nat)
    ensures PoolOk(NewPool(size))
  {
    NewPoolTotals(size);
  }

  // ---- What the pool promises

  /** In every reachable state of every interleaving, each worker's jobs are, in the order of their
      dispatch, those popped, those freed and those queued, and of those popped the handler has seen,
      or is seeing, exactly the ones that are no null pointers. */
  lemma DispatchOrderIsKept(size: nat, steps: seq<Step>, i: nat)
    requires i < |Run(NewPool(size), steps).workers|
    ensures var w := Run(NewPool(size), steps).workers[i];
            && w.dispatched == w.popped + w.freed + w.queue
            && w.handled + InFlight(w) == NonNull(w.popped)
            && (!w.destroyed ==> w.dispatched == w.popped + w.queue)
            && (w.destroyed ==> w.place.Exited? && w.queue == [])
  {
    hide Run;
    hide NonNull;
    hide NewPool;
    NewPoolIsOk(size);
    RunIsOk(NewPool(size), steps);
    var p := Run(NewPool(size), steps);
    assert WorkerOk(p.workers[i]);
    var w := p.workers[i];
    assert w.popped + [] + w.queue == w.popped + w.queue;
  }

  function NonNullBag(b: multiset<Job>): multiset<Job> {
    b[NULL := 0]
  }

  lemma {:induction false} NonNullIsBag(jobs: seq<Job>)
    ensures multiset(NonNull(jobs)) == NonNullBag(multiset(jobs))
  {
    if jobs != [] {
      NonNullIsBag(jobs[1..]);
      assert jobs == [jobs[0]] + jobs[1..];
      assert multiset(jobs) == multiset{jobs[0]} + multiset(jobs[1..]);
      assert multiset(NonNull(jobs)) == (if jobs[0] == NULL then multiset{} else multiset{jobs[0]}) + multiset(NonNull(jobs[1..]));
    }
  }

  lemma {:induction false} DestroyedTotals(ws: seq<Worker>)
    requires forall i | 0 <= i < |ws| :: WorkerOk(ws[i]) && ws[i].destroyed
    ensures NonNullBag(Total(ws, DispatchedBag)) == Total(ws, HandledBag) + Total(ws, FreedBag)
  {
    if ws != [] {
      var w := ws[0];
      assert WorkerOk(w) && w.destroyed;
      DestroyedTotals(ws[1..]);
      DestroyedBooks(w);
      BagSum(DispatchedBag(w), Total(ws[1..], DispatchedBag), HandledBag(w), FreedBag(w),
             Total(ws[1..], HandledBag), Total(ws[1..], FreedBag));
    }
  }

  lemma DestroyedBooks(w: Worker)
    requires WorkerOk(w) && w.destroyed
    ensures NonNullBag(DispatchedBag(w)) == HandledBag(w) + FreedBag(w)
  {
    hide NonNull;
    assert w.popped + w.freed + [] == w.popped + w.freed && w.handled + [] == w.handled;
    NonNullAppend(w.popped, w.freed);
    NonNullIsBag(w.dispatched);
  }

  lemma BagSum(d: multiset<Job>, t: multiset<Job>, h: multiset<Job>, f: multiset<Job>, th: multiset<Job>, tf: multiset<Job>)
    requires NonNullBag(d) == h + f && NonNullBag(t) == th + tf
    ensures NonNullBag(d + t) == h + th + (f + tf)
  {
    forall j: Job ensures NonNullBag(d + t)[j] == (h + th + (f + tf))[j] {
      assert NonNullBag(d)[j] == (h + f)[j] && NonNullBag(t)[j] == (th + tf)[j];
    }
  }

  /** Once the pool is destroyed, every job that was ever submitted has been handled exactly once or
      freed exactly once, and never both: counted with their multiplicity, the submitted jobs are the
      handled ones and the freed ones. Null pointers are neither. */
  lemma EveryJobHandledOrFreed(size: nat, steps: seq<Step>)
    requires Run(NewPool(size), steps).dispatcher.Gone?
    ensures var p := Run(NewPool(size), steps);
            && (p.workers != [] ==>
                  NonNullBag(multiset(p.submitted)) == Total(p.workers, HandledBag) + Total(p.workers, FreedBag))
            && (p.workers == [] ==> multiset(p.submitted) == multiset(p.handledHere))
  {
    hide Run;
    hide WorkerOk;
    hide NewPool;
    NewPoolIsOk(size);
    RunIsOk(NewPool(size), steps);
    var p := Run(NewPool(size), steps);
    forall i | 0 <= i < |p.workers| ensures WorkerOk(p.workers[i]) && p.workers[i].destroyed {
      assert DestroyedUpTo(p.dispatcher, i, p.workers[i]);
    }
    DestroyedTotals(p.workers);
    if p.workers != [] {
      assert multiset{} + Total(p.workers, DispatchedBag) == Total(p.workers, DispatchedBag);
    }
  }

  /** With pops interleaved, the chosen queue is, right after the push, at most one longer than any
      queue was when it was looked at. */
  lemma PushIsLeastLoaded(size: nat, steps: seq<Step>, j: nat)
    requires var p := Run(NewPool(size), steps);
             p.dispatcher.Sampling? && |p.dispatcher.samples| == |p.workers| && j < |p.dispatcher.samples|
    ensures var p := Run(NewPool(size), steps);
            var k := LeastLoaded(p.dispatcher.samples);
            && k < |p.workers| && |p.workers[k].queue| <= p.dispatcher.samples[k]
            && |Next(p, DispatcherStep).workers[k].queue| <= 1 + p.dispatcher.samples[j]
  {
    hide Run;
    hide NewPool;
    hide WorkerOk;
    NewPoolIsOk(size);
    RunIsOk(NewPool(size), steps);
  }

  // ---- Dispatching to workers that do not pop

  function DispatchAll(queues: seq<seq<Job>>, jobs: seq<Job>): seq<seq<Job>>
    requires queues != []
    decreases |jobs|
  {
    if jobs == [] then queues else DispatchAll(Dispatched(queues, jobs[0]), jobs[1..])
  }

  /** After `q * m + r` jobs dealt in turn to `m` queues: the first `r` queues have one job more than
      the others, and the job at position `a` of queue `b` is number `a * m + b`. */
  ghost predicate Dealt(queues: seq<seq<Job>>, jobs: seq<Job>, q: nat, r: nat) {
    var m := |queues|;
    && r < m && |jobs| == q * m + r
    && forall b | 0 <= b < m ::
         && |queues[b]| == q + (if b < r then 1 else 0)
         && forall a | 0 <= a < |queues[b]| :: IsJob(queues[b][a], jobs, a * m + b)
  }

  predicate IsJob(job: Job, jobs: seq<Job>, n: int) {
    0 <= n < |jobs| && jobs[n] == job
  }

  lemma DealOne(queues: seq<seq<Job>>, jobs: seq<Job>, q: nat, r: nat, job: Job)
    requires Dealt(queues, jobs, q, r)
    ensures LeastLoaded(Lengths(queues)) == r
    ensures var m := |queues|;
            if r + 1 < m then Dealt(Dispatched(queues, job), jobs + [job], q, r + 1)
            else Dealt(Dispatched(queues, job), jobs + [job], q + 1, 0)
  {
    hide LeastLoaded;
    var m := |queues|;
    LeastLoadedIs(Lengths(queues), r);
    var next := Dispatched(queues, job);
    assert next == queues[r := queues[r] + [job]];
    forall b, a | 0 <= b < m && 0 <= a < |next[b]| ensures IsJob(next[b][a], jobs + [job], a * m + b) {
      if b == r && a == |queues[r]| {
        assert a * m + b == |jobs|;
      } else {
        assert IsJob(queues[b][a], jobs, a * m + b);
      }
    }
    assert (q + 1) * m == q * m + m;
  }

  lemma {:induction false} DealAll(queues: seq<seq<Job>>, before: seq<Job>, jobs: seq<Job>, q: nat, r: nat)
    returns (q': nat, r': nat)
    requires Dealt(queues, before, q, r)
    ensures Dealt(DispatchAll(queues, jobs), before + jobs, q', r') && |DispatchAll(queues, jobs)| == |queues|
    decreases |jobs|
  {
    hide Dealt;
    hide LeastLoaded;
    if jobs == [] {
      assert before + jobs == before;
      q', r' := q, r;
    } else {
      DealOne(queues, before, q, r, jobs[0]);
      DealtBounds(queues, before, q, r);
      assert before + [jobs[0]] + jobs[1..] == before + jobs;
      if r + 1 < |queues| {
        q', r' := DealAll(Dispatched(queues, jobs[0]), before + [jobs[0]], jobs[1..], q, r + 1);
      } else {
        q', r' := DealAll(Dispatched(queues, jobs[0]), before + [jobs[0]], jobs[1..], q + 1, 0);
      }
    }
  }

  lemma DealtBounds(queues: seq<seq<Job>>, jobs: seq<Job>, q: nat, r: nat)
    requires Dealt(queues, jobs, q, r)
    ensures r < |queues|
  {
  }

  lemma DealtEvenly(m: nat, jobs: seq<Job>)
    requires m > 0
    ensures var queues := DispatchAll(seq(m, _ => []), jobs);
            && |queues| == m
            && (forall b, a | 0 <= b < m && 0 <= a < |queues[b]| :: IsJob(queues[b][a], jobs, a * m + b))
            && (forall b, c | 0 <= b < m && 0 <= c < m :: |queues[b]| <= |queues[c]| + 1)
            && exists q: nat, r: nat :: Dealt(queues, jobs, q, r)
  {
    hide LeastLoaded;
    hide DispatchAll;
    var empty: seq<seq<Job>> := seq(m, _ => []);
    assert Dealt(empty, [], 0, 0);
    var q, r := DealAll(empty, [], jobs, 0, 0);
    assert [] + jobs == jobs;
  }

  lemma {:induction false} DispatchAllSnoc(queues: seq<seq<Job>>, jobs: seq<Job>, job: Job)
    requires queues != []
    ensures DispatchAll(queues, jobs) != []
    ensures DispatchAll(queues, jobs + [job]) == Dispatched(DispatchAll(queues, jobs), job)
    decreases |jobs|
  {
    hide LeastLoaded;
    hide Dispatched;
    if jobs == [] {
      assert jobs + [job] == [job] && [job][1..] == [];
      DispatchedLength(queues, job);
    } else {
      assert (jobs + [job])[1..] == jobs[1..] + [job] && (jobs + [job])[0] == jobs[0];
      DispatchedLength(queues, jobs[0]);
      DispatchAllSnoc(Dispatched(queues, jobs[0]), jobs[1..], job);
    }
  }

  lemma DispatchedLength(queues: seq<seq<Job>>, job: Job)
    requires queues != []
    ensures |Dispatched(queues, job)| == |queues|
  {
    hide LeastLoaded;
  }

  // ---- Runs in which no worker moves

  function Queues(p: Pool): seq<seq<Job>> {
    seq(|p.workers|, i requires 0 <= i < |p.workers| => p.workers[i].queue)
  }

  /** What holds of a pool of `m` workers none of which has moved: the queues are those of the jobs
      pushed so far, and the lengths sampled are current. */
  ghost predicate Unmoved(p: Pool, m: nat) {
    && m > 0 && |p.workers| == m
    && Queues(p) == DispatchAll(seq(m, _ => []), p.submitted)
    && (forall i | 0 <= i < m :: !p.workers[i].killAck)
    && (p.dispatcher.Sampling? ==>
          |p.dispatcher.samples| <= m && p.dispatcher.samples == Lengths(Queues(p))[..|p.dispatcher.samples|])
    && (p.dispatcher.Destroying? ==> p.dispatcher.w < m && !p.dispatcher.phase.Free?)
    && !p.dispatcher.Gone?
  }

  lemma PushUnmoved(p: Pool, m: nat)
    requires Unmoved(p, m) && p.dispatcher.Sampling? && |p.dispatcher.samples| == m
    ensures Unmoved(SampleNext(p), m)
  {
    hide LeastLoaded;
    hide DispatchAll;
    var Sampling(job, samples) := p.dispatcher;
    assert samples == Lengths(Queues(p));
    var k := LeastLoaded(samples);
    var q := SampleNext(p);
    assert q.workers == p.workers[k := Push(p.workers[k], job)];
    assert Queues(q) == Queues(p)[k := Queues(p)[k] + [job]] == Dispatched(Queues(p), job);
    DispatchAllSnoc(seq(m, _ => []), p.submitted, job);
  }

  lemma NextUnmoved(p: Pool, m: nat, s: Step)
    requires Unmoved(p, m) && !s.WorkerStep?
    ensures Unmoved(Next(p, s), m)
  {
    hide LeastLoaded;
    hide DispatchAll;
    if s.DispatcherStep? && p.dispatcher.Sampling? {
      if |p.dispatcher.samples| == m {
        PushUnmoved(p, m);
      } else {
        assert Queues(SampleNext(p)) == Queues(p);
      }
    } else {
      assert Queues(Next(p, s)) == Queues(p);
    }
  }

  lemma {:induction false} RunUnmoved(p: Pool, m: nat, steps: seq<Step>)
    requires Unmoved(p, m) && forall i | 0 <= i < |steps| :: !steps[i].WorkerStep?
    ensures Unmoved(Run(p, steps), m)
    decreases |steps|
  {
    hide Unmoved;
    hide Next;
    if steps != [] {
      NextUnmoved(p, m, steps[0]);
      RunUnmoved(Next(p, steps[0]), m, steps[1..]);
    }
  }

  /** In every run of a pool of `m` workers in which no worker moves, job number n is in the queue of
      worker n mod m, in order, and the queue lengths never differ by more than one. */
  lemma RoundRobin(m: nat, steps: seq<Step>)
    requires m > 0 && forall i | 0 <= i < |steps| :: !steps[i].WorkerStep?
    ensures var p := Run(NewPool(m), steps);
            && |p.workers| == m
            && (forall b, a | 0 <= b < m && 0 <= a < |p.workers[b].queue| ::
                  IsJob(p.workers[b].queue[a], p.submitted, a * m + b))
            && (forall b, c | 0 <= b < m && 0 <= c < m :: |p.workers[b].queue| <= |p.workers[c].queue| + 1)
            && exists q: nat, r: nat :: Dealt(Queues(p), p.submitted, q, r)
  {
    hide Run;
    hide Dealt;
    hide DispatchAll;
    NewIsUnmoved(m);
    RunUnmoved(NewPool(m), m, steps);
    var p := Run(NewPool(m), steps);
    DealtEvenly(m, p.submitted);
    assert forall b | 0 <= b < m :: Queues(p)[b] == p.workers[b].queue;
  }

  /** Nothing keeps the dispatcher from dealing: `m + 1` of its steps after a submission push the job. */
  lemma {:induction false} SubmittedIsPushed(p: Pool, m: nat, n: nat)
    requires Unmoved(p, m) && p.dispatcher.Sampling? && |p.dispatcher.samples| + n == m
    ensures var q := Run(p, seq(n + 1, _ => DispatcherStep));
            q.dispatcher.Idle? && q.submitted == p.submitted + [p.dispatcher.job]
    decreases n
  {
    hide LeastLoaded;
    hide DispatchAll;
    var steps := seq(n + 1, _ => DispatcherStep);
    NextUnmoved(p, m, DispatcherStep);
    var q := Next(p, DispatcherStep);
    if n == 0 {
      assert |steps[1..]| == 0 && Run(p, steps) == q;
    } else {
      assert steps[1..] == seq(n, _ => DispatcherStep);
      SubmittedIsPushed(q, m, n - 1);
    }
  }

  lemma NewIsUnmoved(m: nat)
    requires m > 0
    ensures Unmoved(NewPool(m), m)
  {
    assert Queues(NewPool(m)) == seq(m, _ => []);
  }
}
