/** The bookkeeping of srv/lib/pronto.c: admission, the choice of a worker, reservation and
    release, on the C integer types that the code uses. */
module Cluster {
  import opened CInts
  import opened PriorityQueue

  // ----- specification on values -----

  function Sum(ts: seq<int>): int {
    if ts == [] then 0 else Sum(ts[..|ts| - 1]) + ts[|ts| - 1]
  }

  /** The first n rounds of the best-fit loop: the capacity and the worker index it holds. The
      resources rs are unsigned long, the capacity is the narrowed int. */
  function FitScan(rs: seq<int>, value: int, n: nat): (r: (int, int))
    requires n <= |rs|
    ensures -1 <= r.1 < n
  {
    if n == 0 then (-1, -1)
    else
      var (capacity, index) := FitScan(rs, value, n - 1);
      if value <= rs[n - 1] && capacity < ToInt32(rs[n - 1]) then (ToInt32(rs[n - 1]), n - 1)
      else (capacity, index)
  }

  /** pronto_best_current_fit on its integer types: capacity is an int, compared as unsigned. */
  function BestFitC(capacity: int, rs: seq<int>, value: int): (w: int)
    ensures -1 <= w < |rs|
  {
    if ToUint32(capacity) < value then -1 else FitScan(rs, value, |rs|).1
  }

  /** The same call seen from the true remaining resources, which may be negative. */
  function BestFit(ts: seq<int>, value: int): (w: int)
    ensures -1 <= w < |ts|
  {
    BestFitC(ToInt32(Sum(ts)), seq(|ts|, i requires 0 <= i < |ts| => ToUint64(ts[i])), value)
  }

  /** Worker w is the first among those with the most resources, and the value fits it. */
  ghost predicate FirstMaximal(ts: seq<int>, w: int, value: int) {
    && 0 <= w < |ts|
    && value <= ts[w]
    && (forall k :: 0 <= k < |ts| ==> ts[k] <= ts[w])
    && (forall k :: 0 <= k < w ==> ts[k] < ts[w])
  }

  ghost predicate NoneFits(ts: seq<int>, value: int) {
    forall k :: 0 <= k < |ts| ==> ts[k] < value
  }

  ghost predicate InRange(ts: seq<int>) {
    && IsInt32(Sum(ts))
    && forall k :: 0 <= k < |ts| ==> IsInt32(ts[k])
  }

  ghost predicate NonNegative(ts: seq<int>) {
    forall k :: 0 <= k < |ts| ==> 0 <= ts[k]
  }

  lemma {:induction false} FitScanChooses(ts: seq<int>, rs: seq<int>, value: int, n: nat)
    requires n <= |ts| == |rs| && 0 <= value
    requires forall k :: 0 <= k < |ts| ==> IsInt32(ts[k]) && rs[k] == ToUint64(ts[k])
    ensures var (c, w) := FitScan(rs, value, n);
            || (c == -1 && w == -1 && NoneFits(ts[..n], value))
            || (FirstMaximal(ts[..n], w, value) && c == ts[w])
  {
    if n > 0 {
      FitScanChooses(ts, rs, value, n - 1);
      NarrowingUndoesWrapping(ts[n - 1]);
      assert ts[..n] == ts[..n - 1] + [ts[n - 1]];
    }
  }

  /** Despite the wrapped comparison and the narrowing, the worker returned truly fits: it is the
      first one with maximal resources. */
  lemma BestFitIsFirstMaximal(ts: seq<int>, value: int)
    requires 0 <= value && forall k :: 0 <= k < |ts| ==> IsInt32(ts[k])
    ensures BestFit(ts, value) == -1 || FirstMaximal(ts, BestFit(ts, value), value)
  {
    var rs := seq(|ts|, i requires 0 <= i < |ts| => ToUint64(ts[i]));
    FitScanChooses(ts, rs, value, |ts|);
    assert ts[..|ts|] == ts;
  }

  /** No worker is returned exactly when the early exit on the total fires or no worker fits. */
  lemma BestFitChooses(ts: seq<int>, value: int)
    requires InRange(ts) && 0 <= value < TWO_31
    ensures BestFit(ts, value) == -1 || FirstMaximal(ts, BestFit(ts, value), value)
    ensures BestFit(ts, value) == -1 <==> 0 <= Sum(ts) < value || NoneFits(ts, value)
  {
    var rs := seq(|ts|, i requires 0 <= i < |ts| => ToUint64(ts[i]));
    FitScanChooses(ts, rs, value, |ts|);
    assert ts[..|ts|] == ts;
    NarrowingUndoesWrapping(Sum(ts));
    if Sum(ts) < 0 {
      assert ToUint32(ToInt32(Sum(ts))) == Sum(ts) + TWO_32;
    }
  }

  lemma {:induction false} SumBounds(ts: seq<int>, k: nat)
    requires forall i :: 0 <= i < |ts| ==> 0 <= ts[i]
    requires k < |ts|
    ensures ts[k] <= Sum(ts)
  {
    var n := |ts| - 1;
    if k < n {
      SumBounds(ts[..n], k);
    } else if n > 0 {
      SumBounds(ts[..n], 0);
    }
  }

  lemma {:induction false} SumUpdate(ts: seq<int>, w: nat, x: int)
    requires w < |ts|
    ensures Sum(ts[w := x]) == Sum(ts) - ts[w] + x
  {
    var n := |ts| - 1;
    if w < n {
      SumUpdate(ts[..n], w, x);
      assert ts[w := x][..n] == ts[..n][w := x];
    } else {
      assert ts[w := x][..n] == ts[..n];
    }
  }

  /** Adding to the wrapped fields is adding to the true resources they stand for. */
  lemma ShiftRepresented(ts: seq<int>, w: nat, d: int)
    requires w < |ts|
    ensures ToInt32(ToInt32(Sum(ts)) + d) == ToInt32(Sum(ts[w := ts[w] + d]))
    ensures ToUint64(ToUint64(ts[w]) + d) == ToUint64(ts[w] + d)
  {
    SumUpdate(ts, w, ts[w] + d);
    WrapThenAdd(Sum(ts), d);
    WrapThenAdd(ts[w], d);
  }

  /** The early exit on the total is sound while no worker is overcommitted. */
  lemma NoFitMeansNoneFits(ts: seq<int>, value: int)
    requires InRange(ts) && NonNegative(ts) && 0 <= value < TWO_31
    ensures BestFit(ts, value) == -1 <==> NoneFits(ts, value)
  {
    BestFitChooses(ts, value);
    if Sum(ts) < value {
      forall k | 0 <= k < |ts| ensures ts[k] < value {
        SumBounds(ts, k);
      }
    }
  }

  /** The early exit never hides a worker that fits, whatever the value. */
  ghost predicate EarlyExitSound(ts: seq<int>) {
    forall value :: 0 <= value < TWO_31 ==> (BestFit(ts, value) == -1 <==> NoneFits(ts, value))
  }

  /** That is so exactly when the total is negative or no worker has more than the total. */
  lemma EarlyExitSoundExactly(ts: seq<int>)
    requires InRange(ts)
    ensures EarlyExitSound(ts) <==> Sum(ts) < 0 || forall k :: 0 <= k < |ts| ==> ts[k] <= Sum(ts)
  {
    hide BestFit;
    forall value | 0 <= value < TWO_31
      ensures BestFit(ts, value) == -1 <==> 0 <= Sum(ts) < value || NoneFits(ts, value)
    {
      BestFitChooses(ts, value);
    }
    if k :| 0 <= Sum(ts) && 0 <= k < |ts| && Sum(ts) < ts[k] {
      assert BestFit(ts, ts[k]) == -1 && !NoneFits(ts, ts[k]);
    }
  }

  /** With an overcommitted worker it can fail: the total can refuse a job that a worker could take. */
  lemma EarlyExitCanMissAWorker()
    ensures BestFit([-3, 10], 8) == -1 && !NoneFits([-3, 10], 8)
  {
    var ts := [-3, 10];
    assert ts[..1] == [-3] && ts[..1][..0] == [];
    assert Sum(ts) == 7;
    BestFitChooses(ts, 8);
    assert ts[1] == 10;
  }

  /** pronto_is_schedulable: the total is an int, and the maxima are unsigned long, so a negative value
      converts to a huge one. */
  function Schedulable(maxima: seq<int>, value: int): bool {
    && value < ToInt32(Sum(maxima))
    && exists k :: 0 <= k < |maxima| && ToUint64(value) <= maxima[k]
  }

  /** Admitted is exactly what is not negative, below the total and within some worker's maximum: the
      conversions change nothing, and a smaller value is admitted wherever a larger one is. */
  lemma SchedulableExactly(maxima: seq<int>, value: int)
    requires InRange(maxima) && NonNegative(maxima) && IsInt32(value)
    ensures Schedulable(maxima, value) <==> 0 <= value < Sum(maxima) && !NoneFits(maxima, value)
    ensures Schedulable(maxima, value) ==> forall v :: 0 <= v <= value ==> Schedulable(maxima, v)
  {
    hide Sum;
    NarrowingUndoesWrapping(Sum(maxima));
    if k :| 0 <= k < |maxima| && value <= maxima[k] && value >= 0 {
      assert ToUint64(value) <= maxima[k];
    }
    if k :| 0 <= k < |maxima| && ToUint64(value) <= maxima[k] {
      assert value >= 0 && value <= maxima[k];
      forall v | 0 <= v <= value < Sum(maxima) ensures Schedulable(maxima, v) {
        assert ToUint64(v) <= maxima[k];
      }
    }
  }

  /** Every admitted request is a real request and fits an idle cluster. */
  lemma AdmittedFitsIdleCluster(maxima: seq<int>, value: int)
    requires InRange(maxima) && NonNegative(maxima) && IsInt32(value) && Schedulable(maxima, value)
    ensures 0 <= value && BestFit(maxima, value) != -1
    ensures exists k :: 0 <= k < |maxima| && value <= maxima[k]
  {
    var k :| 0 <= k < |maxima| && ToUint64(value) <= maxima[k];
    NarrowingUndoesWrapping(value);
    NarrowingUndoesWrapping(Sum(maxima));
    assert IsInt32(maxima[k]);
    NoFitMeansNoneFits(maxima, value);
  }

  // ----- the objects -----

  const MAX_RESOURCES: int := 15

  class ClusterWorker {
    const maxResources: int
    const schedulerJobs: PrioQueue
    var currentResources: int
    var scheduledJobs: int
    var notify: nat

    constructor (maxResources: int)
      requires IsUint64(maxResources)
      ensures this.maxResources == currentResources == maxResources
      ensures scheduledJobs == 0 && notify == 0
      ensures fresh(schedulerJobs) && schedulerJobs.Valid() && schedulerJobs.nodes == []
    {
      this.maxResources := maxResources;
      currentResources := maxResources;
      scheduledJobs := 0;
      notify := 0;
      schedulerJobs := new PrioQueue();
    }

    /** cluster_worker_add_job, under the worker's mutex: the job is queued in a node of its own, no
        other job of the queue is lost or overtaken by a larger one, and no other queue changes. */
    method AddJob(job: Job, ghost queues: seq<PrioQueue>)
      requires Apart(queues) && schedulerJobs in queues
      modifies schedulerJobs`size, schedulerJobs`head, schedulerJobs`tail, schedulerJobs`nodes
      modifies schedulerJobs.nodes`next
      ensures Apart(queues) && fresh(NodesOf(queues) - old(NodesOf(queues)))
      ensures schedulerJobs.Contents() == Insert(old(schedulerJobs.Contents()), job)
      ensures forall r :: r in queues && r != schedulerJobs ==> r.Contents() == old(r.Contents())
      ensures multiset(schedulerJobs.Contents()) == multiset(old(schedulerJobs.Contents())) + multiset{job}
      ensures Ascending(old(schedulerJobs.Contents())) ==> Ascending(schedulerJobs.Contents())
    {
      hide Insert, Ascending;
      InsertMultiset(schedulerJobs.Contents(), job);
      if Ascending(schedulerJobs.Contents()) {
        InsertAscending(schedulerJobs.Contents(), job);
      }
      Put(schedulerJobs, job, queues);
    }

    /** One round of _cluster_loop up to the send: a post is taken, and the first node of the queue. */
    method TakeJob(ghost queues: seq<PrioQueue>) returns (node: Node?)
      requires notify > 0 && Apart(queues) && schedulerJobs in queues
      modifies `notify, schedulerJobs`size, schedulerJobs`head, schedulerJobs`tail, schedulerJobs`nodes
      ensures Apart(queues) && notify == old(notify) - 1
      ensures node == null <==> old(schedulerJobs.Contents()) == []
      ensures node == null ==> schedulerJobs.Contents() == []
      ensures node != null ==> [node.value] + schedulerJobs.Contents() == old(schedulerJobs.Contents())
      ensures forall r :: r in queues && r != schedulerJobs ==> r.Contents() == old(r.Contents())
    {
      notify := notify - 1;
      node := Take(schedulerJobs, queues);
    }
  }

  lemma {:induction false} IdleSum(maxima: seq<int>)
    requires forall i :: 0 <= i < |maxima| ==> maxima[i] == MAX_RESOURCES
    ensures Sum(maxima) == |maxima| * MAX_RESOURCES
  {
    if maxima != [] {
      IdleSum(maxima[..|maxima| - 1]);
    }
  }

  ghost function QueuesOf(ws: seq<ClusterWorker>): (qs: seq<PrioQueue>)
    ensures |qs| == |ws| && forall i :: 0 <= i < |ws| ==> qs[i] == ws[i].schedulerJobs
  {
    seq(|ws|, i requires 0 <= i < |ws| => ws[i].schedulerJobs)
  }

  ghost predicate Idle(w: ClusterWorker)
    reads w, w.schedulerJobs, w.schedulerJobs.nodes
  {
    && w.maxResources == w.currentResources == MAX_RESOURCES && w.scheduledJobs == w.notify == 0
    && w.schedulerJobs.Valid() && w.schedulerJobs.nodes == []
  }

  /** Idle workers, each with a queue of its own. */
  ghost predicate AllIdle(ws: seq<ClusterWorker>)
    reads ws, QueuesOf(ws), NodesOf(QueuesOf(ws))
  {
    && (forall k :: 0 <= k < |ws| ==> assert QueuesOf(ws)[k] in QueuesOf(ws); Idle(ws[k]))
    && (forall j, k :: 0 <= j < k < |ws| ==> ws[j] != ws[k] && ws[j].schedulerJobs != ws[k].schedulerJobs)
  }

  /** The loop of pronto_init over the workers. */
  method IdleWorkers(count: nat) returns (ws: seq<ClusterWorker>, total: int)
    ensures |ws| == count && total == ToInt32(count * MAX_RESOURCES)
    ensures AllIdle(ws) && forall k :: 0 <= k < count ==> fresh(ws[k]) && fresh(ws[k].schedulerJobs)
  {
    ws, total := [], 0;
    for i := 0 to count
      invariant |ws| == i && total == ToInt32(i * MAX_RESOURCES)
      invariant forall k :: 0 <= k < i ==> fresh(ws[k]) && fresh(ws[k].schedulerJobs) && Idle(ws[k])
      invariant forall j, k :: 0 <= j < k < i ==> ws[j] != ws[k] && ws[j].schedulerJobs != ws[k].schedulerJobs
    {
      var w := new ClusterWorker(MAX_RESOURCES);
      ws := ws + [w];
      WrapThenAdd(i * MAX_RESOURCES, w.maxResources);
      total := ToInt32(total + w.maxResources);
    }
  }

  class Pronto {
    const workers: seq<ClusterWorker>
    const totalCapacity: int
    const jobQueue: PrioQueue
    const waitingQueue: PrioQueue
    ghost const queues: seq<PrioQueue>
    var currentCapacity: int

    /** pronto_init: count idle workers of MAX_RESOURCES each, and empty queues. */
    constructor (count: nat)
      ensures Valid() && |workers| == count && fresh(workers)
      ensures Represents(Maxima()) && totalCapacity == ToInt32(Sum(Maxima())) && Sum(Maxima()) == count * MAX_RESOURCES
      ensures Wired() && fresh(queues) && Apart(queues) && forall q :: q in queues ==> q.Contents() == []
      ensures AllIdle(workers)
    {
      hide Apart, NodesOf, Sum, Valid, Represents;
      jobQueue := new PrioQueue();
      waitingQueue := new PrioQueue();
      var ws, total := IdleWorkers(count);
      workers := ws;
      totalCapacity := total;
      currentCapacity := total;
      queues := [jobQueue, waitingQueue] + QueuesOf(ws);
      new;
      IdleBooks();
      QueuesApart();
    }

    /** All queues: of jobs that arrive, of jobs that wait, and of each worker. */
    ghost predicate Wired() {
      queues == [jobQueue, waitingQueue] + QueuesOf(workers)
    }

    lemma QueueAt(i: nat)
      requires Wired()
      ensures |queues| == 2 + |workers| && queues[0] == jobQueue && queues[1] == waitingQueue
      ensures i < |workers| ==> queues[2 + i] == workers[i].schedulerJobs
    {
    }

    /** With all workers idle the totals are the sum of the maxima. */
    lemma IdleBooks()
      requires currentCapacity == totalCapacity == ToInt32(|workers| * MAX_RESOURCES)
      requires AllIdle(workers)
      ensures Valid() && Represents(Maxima()) && totalCapacity == ToInt32(Sum(Maxima()))
      ensures Sum(Maxima()) == |workers| * MAX_RESOURCES
    {
      hide Sum, ToUint64;
      IdleSum(Maxima());
      NarrowingUndoesWrapping(MAX_RESOURCES);
    }

    /** Empty queues that are all different share nothing. */
    lemma QueuesApart()
      requires Wired() && jobQueue != waitingQueue
      requires forall q :: q in {jobQueue, waitingQueue} ==> q.Valid() && q.nodes == []
      requires AllIdle(workers)
      requires forall i :: 0 <= i < |workers| ==> workers[i].schedulerJobs !in {jobQueue, waitingQueue}
      ensures Apart(queues) && forall q :: q in queues ==> q.Contents() == []
    {
      forall i, k | 0 <= i < k < |queues| ensures queues[i] != queues[k] {
        if i >= 2 {
          assert workers[i - 2].schedulerJobs != workers[k - 2].schedulerJobs;
        }
      }
    }

    /** pronto_add_job. */
    method AddJob(job: Job)
      requires Wired() && Apart(queues)
      modifies jobQueue`size, jobQueue`head, jobQueue`tail, jobQueue`nodes, jobQueue.nodes`next
      ensures Apart(queues) && fresh(NodesOf(queues) - old(NodesOf(queues)))
      ensures jobQueue.Contents() == Insert(old(jobQueue.Contents()), job)
      ensures forall r :: r in queues && r != jobQueue ==> r.Contents() == old(r.Contents())
    {
      QueueAt(0);
      Put(jobQueue, job, queues);
    }

    /** pronto_add_waiting_job. */
    method AddWaitingJob(job: Job)
      requires Wired() && Apart(queues)
      modifies waitingQueue`size, waitingQueue`head, waitingQueue`tail, waitingQueue`nodes, waitingQueue.nodes`next
      ensures Apart(queues) && fresh(NodesOf(queues) - old(NodesOf(queues)))
      ensures waitingQueue.Contents() == Insert(old(waitingQueue.Contents()), job)
      ensures forall r :: r in queues && r != waitingQueue ==> r.Contents() == old(r.Contents())
    {
      QueueAt(0);
      Put(waitingQueue, job, queues);
    }

    ghost predicate Valid()
      reads `currentCapacity, workers`currentResources, workers`scheduledJobs
    {
      && IsInt32(currentCapacity) && IsInt32(totalCapacity)
      && (forall i :: 0 <= i < |workers| ==>
           IsUint64(workers[i].currentResources) && IsUint64(workers[i].maxResources) &&
           IsUint32(workers[i].scheduledJobs))
      && (forall i, k :: 0 <= i < k < |workers| ==> workers[i] != workers[k])
    }

    ghost function Resources(): (rs: seq<int>)
      reads workers
      ensures |rs| == |workers|
    {
      seq(|workers|, i requires 0 <= i < |workers| reads workers => workers[i].currentResources)
    }

    ghost function Maxima(): (rs: seq<int>)
      ensures |rs| == |workers|
    {
      seq(|workers|, i requires 0 <= i < |workers| => workers[i].maxResources)
    }

    /** The true resources that the wrapped fields stand for. */
    ghost predicate Represents(ts: seq<int>)
      reads `currentCapacity, workers`currentResources
    {
      && |ts| == |workers|
      && currentCapacity == ToInt32(Sum(ts))
      && forall i :: 0 <= i < |workers| ==> workers[i].currentResources == ToUint64(ts[i])
    }

    method IsSchedulable(value: int) returns (b: bool)
      requires Valid() && IsInt32(value) && totalCapacity == ToInt32(Sum(Maxima()))
      ensures b == Schedulable(Maxima(), value)
      ensures InRange(Maxima()) && NonNegative(Maxima()) ==>
                (b <==> 0 <= value < Sum(Maxima()) && !NoneFits(Maxima(), value))
    {
      if InRange(Maxima()) && NonNegative(Maxima()) {
        SchedulableExactly(Maxima(), value);
      }
      if totalCapacity <= value {
        return false;
      }
      ghost var maxima := Maxima();
      for i := 0 to |workers|
        invariant forall k :: 0 <= k < i ==> maxima[k] < ToUint64(value)
      {
        assert maxima[i] == workers[i].maxResources;
        if workers[i].maxResources >= ToUint64(value) {
          return true;
        }
      }
      return false;
    }

    method BestCurrentFit(value: int) returns (workerIndex: int)
      requires Valid() && IsUint32(value)
      ensures workerIndex == BestFitC(currentCapacity, Resources(), value)
      ensures -1 <= workerIndex < |workers|
    {
      if ToUint32(currentCapacity) < value {
        return -1;
      }
      var capacity := -1;
      workerIndex := -1;
      for i := 0 to |workers|
        invariant (capacity, workerIndex) == FitScan(Resources(), value, i)
        invariant -1 <= workerIndex < |workers|
      {
        var worker := workers[i];
        if value <= worker.currentResources {
          var ithCapacity := ToInt32(worker.currentResources);
          if capacity < ithCapacity {
            capacity := ithCapacity;
            workerIndex := i;
          }
        }
      }
    }

    /** The call on the true resources. */
    lemma FitOfRepresented(ts: seq<int>, value: int)
      requires Represents(ts)
      ensures BestFitC(currentCapacity, Resources(), value) == BestFit(ts, value)
    {
      assert Resources() == seq(|ts|, i requires 0 <= i < |ts| => ToUint64(ts[i]));
    }

    /** Whatever true resources the fields stood for, they now stand for the changed ones. */
    method ReserveCapacity(worker: ClusterWorker, ghost w: nat, qty: int, ghost ts: seq<int>)
      requires Valid() && w < |workers| && workers[w] == worker && IsUint32(qty)
      modifies this`currentCapacity, worker`currentResources, worker`scheduledJobs
      ensures Valid()
      ensures currentCapacity == ToInt32(old(currentCapacity) - qty)
      ensures Resources() == old(Resources())[w := ToUint64(old(Resources())[w] - qty)]
      ensures old(Represents(ts)) ==> Represents(ts[w := ts[w] - qty])
      ensures worker.scheduledJobs == ToUint32(old(worker.scheduledJobs) + 1)
    {
      hide Sum;
      if |ts| == |workers| {
        ShiftRepresented(ts, w, -qty);
      }
      currentCapacity := ToInt32(currentCapacity - qty);
      worker.currentResources := ToUint64(worker.currentResources - qty);
      worker.scheduledJobs := ToUint32(worker.scheduledJobs + 1);
    }

    /** Whatever true resources the fields stood for, they now stand for the changed ones. */
    method FreeCapacity(worker: ClusterWorker, ghost w: nat, qty: int, ghost ts: seq<int>)
      requires Valid() && w < |workers| && workers[w] == worker && IsUint32(qty)
      modifies this`currentCapacity, worker`currentResources, worker`scheduledJobs
      ensures Valid()
      ensures currentCapacity == ToInt32(old(currentCapacity) + qty)
      ensures Resources() == old(Resources())[w := ToUint64(old(Resources())[w] + qty)]
      ensures old(Represents(ts)) ==> Represents(ts[w := ts[w] + qty])
      ensures worker.scheduledJobs == ToUint32(old(worker.scheduledJobs) - 1)
    {
      hide Sum;
      if |ts| == |workers| {
        ShiftRepresented(ts, w, qty);
      }
      currentCapacity := ToInt32(currentCapacity + qty);
      worker.currentResources := ToUint64(worker.currentResources + qty);
      worker.scheduledJobs := ToUint32(worker.scheduledJobs - 1);
    }
  }
}
