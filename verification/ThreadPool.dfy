/** lib/thread_pool.c: one dispatcher and many workers, each with a job queue of its own. */
module ThreadPools {
  import opened Text
  import opened LinkedLists

  /** A job is a pointer; 0 is the null pointer. */
  type Job = nat

  const NULL: Job := 0
  const SIZE_MAX: nat := 0xFFFF_FFFF_FFFF_FFFF

  /** The first index of a least element. */
  function LeastLoaded(lens: seq<nat>): (k: nat)
    requires lens != []
    ensures k < |lens|
    ensures forall j | 0 <= j < |lens| :: lens[k] <= lens[j]
    ensures forall j | 0 <= j < k :: lens[k] < lens[j]
  {
    if |lens| == 1 then 0
    else
      var k := LeastLoaded(lens[..|lens| - 1]);
      if lens[|lens| - 1] < lens[k] then |lens| - 1 else k
  }

  lemma LeastLoadedIs(lens: seq<nat>, k: nat)
    requires k < |lens|
    requires forall j | 0 <= j < |lens| :: lens[k] <= lens[j]
    requires forall j | 0 <= j < k :: lens[k] < lens[j]
    ensures LeastLoaded(lens) == k
  {
    var l := LeastLoaded(lens);
    assert !(k < l) && !(l < k);
  }

  function Lengths(queues: seq<seq<Job>>): seq<nat> {
    seq(|queues|, i requires 0 <= i < |queues| => |queues[i]|)
  }

  /** Where a dispatched job goes. */
  function Dispatched(queues: seq<seq<Job>>, job: Job): seq<seq<Job>>
    requires queues != []
  {
    var k := LeastLoaded(Lengths(queues));
    queues[k := queues[k] + [job]]
  }

  class ThreadPool {
    const queues: seq<LinkedList<Job>>
    ghost var contents: seq<seq<Job>>
    ghost var repr: set<object>

    /** The queues are separate lists that share nothing, and hold the contents. */
    ghost predicate Valid()
      reads this, repr
    {
      && this in repr && |contents| == |queues|
      && (forall i | 0 <= i < |queues| ::
            queues[i] in repr && queues[i].repr <= repr && this !in queues[i].repr
            && queues[i].Valid() && queues[i].contents == contents[i])
      && (forall i, j | 0 <= i < j < |queues| :: queues[i] != queues[j] && queues[i].repr !! queues[j].repr)
    }

    /** The worker with the fewest jobs, the first one in case of a tie. */
    method FindLeastLoaded() returns (k: nat)
      requires Valid() && queues != [] && forall i | 0 <= i < |contents| :: |contents[i]| < SIZE_MAX
      ensures k == LeastLoaded(Lengths(contents))
    {
      hide LeastLoaded;
      k := 0;
      var minJobs := SIZE_MAX;
      var i := 0;
      while i < |queues|
        invariant 0 <= i <= |queues| && 0 <= k < |queues|
        invariant minJobs == (if i == 0 then SIZE_MAX else |contents[k]|) && (i > 0 ==> k < i)
        invariant forall j | 0 <= j < i :: minJobs <= |contents[j]|
        invariant i > 0 ==> forall j | 0 <= j < k :: minJobs < |contents[j]|
      {
        var jobs := queues[i].Len();
        if jobs < minJobs {
          k := i;
          minJobs := jobs;
        }
        i := i + 1;
      }
      LeastLoadedIs(Lengths(contents), k);
    }

    /** Pushing to one queue leaves the others as they are. */
    method PushTo(k: nat, data: Job)
      requires Valid() && k < |queues|
      modifies repr
      ensures Valid() && fresh(repr - old(repr))
      ensures contents == old(contents)[k := old(contents)[k] + [data]]
    {
      var q := queues[k];
      q.PushBack(data);
      contents := contents[k := contents[k] + [data]];
      repr := repr + q.repr;
      forall i | 0 <= i < |queues| && i != k
        ensures queues[i].Valid() && queues[i].contents == contents[i] && queues[i].repr == old(queues[i].repr)
      {
        assert queues[i].repr !! old(q.repr);
      }
    }

    /** Nobody else is at the queues: what the dispatcher does between two pops. Without workers the
        job is handled at once, which the result tells. */
    method DispatchWork(data: Job) returns (handledHere: bool)
      requires Valid() && forall i | 0 <= i < |contents| :: |contents[i]| < SIZE_MAX
      modifies repr
      ensures Valid() && (handledHere <==> queues == [])
      ensures contents == if queues == [] then old(contents) else Dispatched(old(contents), data)
    {
      hide LeastLoaded;
      if |queues| == 0 {
        return true;
      }
      var k := FindLeastLoaded();
      PushTo(k, data);
      handledHere := false;
    }
  }
}
