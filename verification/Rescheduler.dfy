/** The draining pass of srv/lib/rescheduler.c: while the head of the waiting queue fits some
    worker, it is popped, its capacity is reserved and it moves to that worker's queue. */
module Rescheduler {
  import opened CInts
  import opened PriorityQueue
  import opened Cluster

  /** What a pass changes: the waiting queue, the free resources of each worker, the jobs queued
      on each worker and the posts on its semaphore. */
  datatype State = State(waiting: seq<Job>, free: seq<int>, queues: seq<seq<Job>>, posts: seq<nat>) {
    predicate Shaped() { |free| == |queues| == |posts| }
  }

  predicate HeadFits(c: State) {
    c.waiting != [] && BestFit(c.free, c.waiting[0].request) != -1
  }

  /** A decision carried out: capacity reserved, job queued on the worker, its semaphore posted. */
  function Booked(c: State, w: nat, j: Job): (d: State)
    requires c.Shaped() && w < |c.free|
    ensures d.Shaped() && |d.free| == |c.free| && d.waiting == c.waiting
  {
    c.(free := c.free[w := c.free[w] - j.request],
       queues := c.queues[w := Insert(c.queues[w], j)],
       posts := c.posts[w := c.posts[w] + 1])
  }

  function Place(c: State): (d: State)
    requires c.Shaped() && HeadFits(c)
    ensures d.Shaped() && |d.free| == |c.free| && d.waiting == c.waiting[1..]
  {
    var j := c.waiting[0];
    Booked(c.(waiting := c.waiting[1..]), BestFit(c.free, j.request), j)
  }

  function Drain(c: State): (d: State)
    requires c.Shaped()
    ensures d.Shaped() && |d.free| == |c.free|
    decreases |c.waiting|
  {
    if HeadFits(c) then Drain(Place(c)) else c
  }

  ghost predicate Requests(q: seq<Job>) {
    forall k :: 0 <= k < |q| ==> q[k].request < TWO_31
  }

  lemma PlaceKeeps(c: State)
    requires c.Shaped() && HeadFits(c)
    requires NonNegative(c.free) && InRange(c.free) && Requests(c.waiting)
    ensures NonNegative(Place(c).free) && InRange(Place(c).free)
    ensures forall k :: 0 <= k < |c.free| ==> Place(c).free[k] <= c.free[k]
  {
    var j := c.waiting[0];
    BestFitChooses(c.free, j.request);
    var w := BestFit(c.free, j.request);
    SumUpdate(c.free, w, c.free[w] - j.request);
    SumBounds(c.free, w);
  }

  /** The pass is complete: it leaves no waiting job that some worker could take, and it never
      overcommits a worker. This rests on the queue being ascending, since only its head is tried. */
  lemma {:induction false} DrainComplete(c: State)
    requires c.Shaped() && NonNegative(c.free) && InRange(c.free)
    requires Requests(c.waiting) && Ascending(c.waiting)
    ensures var d := Drain(c);
            && NonNegative(d.free) && InRange(d.free)
            && |d.waiting| <= |c.waiting| && d.waiting == c.waiting[|c.waiting| - |d.waiting|..]
            && (forall j :: j in d.waiting ==> NoneFits(d.free, j.request))
    decreases |c.waiting|
  {
    if HeadFits(c) {
      PlaceKeeps(c);
      DrainComplete(Place(c));
    } else if c.waiting != [] {
      NoFitMeansNoneFits(c.free, c.waiting[0].request);
    }
  }

  /** Reservations made after the pass cannot make a waiting job fit. */
  lemma ReservationsKeepNoneFits(ts: seq<int>, ts': seq<int>, value: int)
    requires |ts| == |ts'| && NoneFits(ts, value)
    requires forall k :: 0 <= k < |ts| ==> ts'[k] <= ts[k]
    ensures NoneFits(ts', value)
  {
  }

  ghost function Jobs(queues: seq<seq<Job>>): multiset<Job> {
    if queues == [] then multiset{} else Jobs(queues[1..]) + multiset(queues[0])
  }

  lemma {:induction false} JobsUpdate(queues: seq<seq<Job>>, w: nat, j: Job)
    requires w < |queues|
    ensures Jobs(queues[w := Insert(queues[w], j)]) == Jobs(queues) + multiset{j}
  {
    if w == 0 {
      InsertMultiset(queues[0], j);
    } else {
      JobsUpdate(queues[1..], w - 1, j);
      assert queues[w := Insert(queues[w], j)][1..] == queues[1..][w - 1 := Insert(queues[w], j)];
    }
  }

  /** Jobs and capacity moved together: no job is lost, and on each worker the free resources and the
      queued requests keep their sum, one post going with each job. */
  ghost predicate Conserved(c: State, d: State)
    requires c.Shaped() && d.Shaped()
  {
    && |d.free| == |c.free|
    && Jobs(d.queues) + multiset(d.waiting) == Jobs(c.queues) + multiset(c.waiting)
    && (forall w :: 0 <= w < |c.free| ==>
         && d.free[w] + Load(d.queues[w]) == c.free[w] + Load(c.queues[w])
         && d.posts[w] + |c.queues[w]| == c.posts[w] + |d.queues[w]|)
  }

  lemma PlaceConserves(c: State)
    requires c.Shaped() && HeadFits(c)
    ensures Conserved(c, Place(c))
  {
    hide BestFit, Insert, Jobs, Load;
    var j := c.waiting[0];
    assert c.waiting == [j] + c.waiting[1..];
    BookedConserves(c.(waiting := c.waiting[1..]), BestFit(c.free, j.request), j);
  }

  /** A booking adds the job to a queue and its request to the load, and takes it from the worker. */
  lemma BookedConserves(c: State, w: nat, j: Job)
    requires c.Shaped() && w < |c.free|
    ensures var d := Booked(c, w, j);
      && Jobs(d.queues) == Jobs(c.queues) + multiset{j}
      && forall k :: 0 <= k < |c.free| ==>
           && d.free[k] + Load(d.queues[k]) == c.free[k] + Load(c.queues[k])
           && d.posts[k] + |c.queues[k]| == c.posts[k] + |d.queues[k]|
  {
    hide Insert, Jobs, Load;
    JobsUpdate(c.queues, w, j);
    LoadInsert(c.queues[w], j);
  }

  lemma {:induction false} DrainConserves(c: State)
    requires c.Shaped()
    ensures Conserved(c, Drain(c))
    decreases |c.waiting|
  {
    if HeadFits(c) {
      PlaceConserves(c);
      hide Place, Jobs, Load, BestFit;
      DrainConserves(Place(c));
    }
  }

  // ----- the loop on the heap -----

  ghost predicate BooksHold(p: Pronto, free: seq<int>, posts: seq<nat>)
    reads p`currentCapacity, p.workers`currentResources, p.workers`scheduledJobs, p.workers`notify
  {
    && |free| == |posts| == |p.workers|
    && p.Valid() && p.Represents(free)
    && forall i :: 0 <= i < |p.workers| ==> p.workers[i].notify == posts[i]
  }

  /** The queues, all apart, hold these jobs. */
  ghost predicate QueuesHold(p: Pronto, jobs: seq<Job>, waiting: seq<Job>, queues: seq<seq<Job>>)
    reads p.queues`size, p.queues`head, p.queues`tail, p.queues`nodes, NodesOf(p.queues)`next
  {
    && p.Wired() && Apart(p.queues) && |p.queues| == 2 + |queues|
    && p.queues[0].Contents() == jobs && p.queues[1].Contents() == waiting
    && forall i :: 0 <= i < |queues| ==> p.queues[2 + i].Contents() == queues[i]
  }

  /** The objects stand for the state c, with these jobs still to be scheduled. */
  ghost predicate Models(p: Pronto, jobs: seq<Job>, c: State)
    reads p`currentCapacity, p.workers`currentResources, p.workers`scheduledJobs, p.workers`notify
    reads p.queues`size, p.queues`head, p.queues`tail, p.queues`nodes, NodesOf(p.queues)`next
  {
    c.Shaped() && BooksHold(p, c.free, c.posts) && QueuesHold(p, jobs, c.waiting, c.queues)
  }

  /** A new cluster stands for empty queues and idle workers. */
  lemma InitiallyModels(p: Pronto)
    requires p.Valid() && p.Represents(p.Maxima())
    requires p.Wired() && Apart(p.queues) && AllIdle(p.workers)
    requires forall q :: q in p.queues ==> q.Contents() == []
    ensures var n := |p.workers|;
            Models(p, [], State([], p.Maxima(), seq(n, _ => []), seq(n, _ => 0)))
  {
    p.QueueAt(0);
  }

  /** Every node in a queue was in one before, or is new. */
  twostate predicate NodesAreOld(p: Pronto)
    reads p.queues`nodes
  {
    forall n :: n in NodesOf(p.queues) ==> n in old(NodesOf(p.queues)) || fresh(n)
  }

  // The books and the queues are separate parts of the heap: each of the next steps is first proved on
  // the part that it changes, and then on the whole.

  lemma OneEach(p: Pronto, free: seq<int>, posts: seq<nat>)
    requires BooksHold(p, free, posts)
    ensures |free| == |posts| == |p.workers|
  {
  }

  method ReserveBooks(p: Pronto, bestFit: ClusterWorker, ghost b: nat, request: nat,
                      ghost free: seq<int>, ghost posts: seq<nat>)
    requires BooksHold(p, free, posts) && IsUint32(request)
    requires b < |p.workers| && p.workers[b] == bestFit
    modifies p`currentCapacity, bestFit`currentResources, bestFit`scheduledJobs
    ensures BooksHold(p, free[b := free[b] - request], posts)
  {
    p.ReserveCapacity(bestFit, b, request, free);
  }

  method Reserve(p: Pronto, b: nat, request: nat, ghost jobs: seq<Job>, ghost c: State)
    requires Models(p, jobs, c) && b < |p.workers| && IsUint32(request)
    modifies p`currentCapacity, p.workers`currentResources, p.workers`scheduledJobs
    ensures b < |c.free| && Models(p, jobs, c.(free := c.free[b := c.free[b] - request])) && NodesAreOld(p)
  {
    hide BooksHold, Insert, PrioQueue.Contents, NodesOf;
    OneEach(p, c.free, c.posts);
    ReserveBooks(p, p.workers[b], b, request, c.free, c.posts);
  }

  /** One of the queues, and the others. */
  lemma QueueStands(p: Pronto, k: nat, jobs: seq<Job>, waiting: seq<Job>, queues: seq<seq<Job>>)
    requires QueuesHold(p, jobs, waiting, queues) && k < 2 + |p.workers|
    ensures p.Wired() && Apart(p.queues) && |p.queues| == 2 + |queues| && |queues| == |p.workers|
    ensures p.queues[k] in p.queues && forall i :: 0 <= i < |p.queues| && i != k ==> p.queues[i] != p.queues[k]
    ensures p.queues[0].Contents() == jobs && p.queues[1].Contents() == waiting
    ensures forall i :: 0 <= i < |queues| ==> p.queues[2 + i].Contents() == queues[i]
  {
    p.QueueAt(0);
  }

  method QueueOnly(p: Pronto, bestFit: ClusterWorker, ghost b: nat, job: Job, ghost jobs: seq<Job>,
                   ghost waiting: seq<Job>, ghost queues: seq<seq<Job>>)
    requires QueuesHold(p, jobs, waiting, queues) && b < |p.workers| && p.workers[b] == bestFit
    modifies bestFit.schedulerJobs`size, bestFit.schedulerJobs`head, bestFit.schedulerJobs`tail
    modifies bestFit.schedulerJobs`nodes, bestFit.schedulerJobs.nodes`next
    ensures b < |queues| && QueuesHold(p, jobs, waiting, queues[b := Insert(queues[b], job)]) && NodesAreOld(p)
  {
    hide Insert, Apart, NodesOf, Ascending, Pronto.Wired, PrioQueue.Valid, PrioQueue.Contents;
    QueueStands(p, 2 + b, jobs, waiting, queues);
    p.QueueAt(b);
    bestFit.AddJob(job, p.queues);
  }

  method QueueOn(p: Pronto, b: nat, job: Job, ghost jobs: seq<Job>, ghost c: State)
    requires Models(p, jobs, c) && b < |p.workers|
    modifies p.queues`size, p.queues`head, p.queues`tail, p.queues`nodes, NodesOf(p.queues)`next
    ensures b < |c.queues| && Models(p, jobs, c.(queues := c.queues[b := Insert(c.queues[b], job)])) && NodesAreOld(p)
  {
    hide BooksHold, QueuesHold, NodesOf, Insert, PrioQueue.Contents, PrioQueue.Valid;
    QueueStands(p, 2 + b, jobs, c.waiting, c.queues);
    p.QueueAt(b);
    QueueOnly(p, p.workers[b], b, job, jobs, c.waiting, c.queues);
  }

  method PostBooks(p: Pronto, bestFit: ClusterWorker, ghost b: nat, ghost free: seq<int>, ghost posts: seq<nat>)
    requires BooksHold(p, free, posts) && b < |p.workers| && p.workers[b] == bestFit
    modifies bestFit`notify
    ensures BooksHold(p, free, posts[b := posts[b] + 1])
  {
    bestFit.notify := bestFit.notify + 1;
  }

  method Post(p: Pronto, b: nat, ghost jobs: seq<Job>, ghost c: State)
    requires Models(p, jobs, c) && b < |p.workers|
    modifies p.workers`notify
    ensures b < |c.posts| && Models(p, jobs, c.(posts := c.posts[b := c.posts[b] + 1])) && NodesAreOld(p)
  {
    hide BooksHold, Insert, PrioQueue.Contents, NodesOf;
    OneEach(p, c.free, c.posts);
    PostBooks(p, p.workers[b], b, c.free, c.posts);
  }

  /** What both deciding threads do with a worker they have found: reserve, queue, post. */
  method Book(p: Pronto, b: nat, job: Job, ghost jobs: seq<Job>, ghost c: State)
    requires Models(p, jobs, c) && b < |p.workers| && job.request < TWO_31
    modifies p`currentCapacity, p.workers`currentResources, p.workers`scheduledJobs, p.workers`notify
    modifies p.queues`size, p.queues`head, p.queues`tail, p.queues`nodes, NodesOf(p.queues)`next
    ensures b < |c.free| && Models(p, jobs, Booked(c, b, job)) && NodesAreOld(p)
  {
    hide Models, NodesOf, Insert;
    Reserve(p, b, job.request, jobs, c);
    ghost var d := c.(free := c.free[b := c.free[b] - job.request]);
    QueueOn(p, b, job, jobs, d);
    assert NodesAreOld(p);
    Post(p, b, jobs, d.(queues := d.queues[b := Insert(d.queues[b], job)]));
  }

  method TakeWaitingOnly(p: Pronto, ghost jobs: seq<Job>, ghost waiting: seq<Job>, ghost queues: seq<seq<Job>>)
    returns (node: Node)
    requires QueuesHold(p, jobs, waiting, queues) && waiting != []
    modifies p.waitingQueue`size, p.waitingQueue`head, p.waitingQueue`tail, p.waitingQueue`nodes
    ensures node.value == waiting[0] && QueuesHold(p, jobs, waiting[1..], queues) && NodesAreOld(p)
  {
    hide Insert, Apart, NodesOf, Ascending, Pronto.Wired, PrioQueue.Valid, PrioQueue.Contents;
    QueueStands(p, 1, jobs, waiting, queues);
    p.QueueAt(0);
    var taken := Take(p.waitingQueue, p.queues);
    node := taken;
  }

  /** The head of the waiting queue is taken out. */
  method TakeWaiting(p: Pronto, ghost jobs: seq<Job>, ghost c: State) returns (node: Node)
    requires Models(p, jobs, c) && c.waiting != []
    modifies p.waitingQueue`size, p.waitingQueue`head, p.waitingQueue`tail, p.waitingQueue`nodes
    ensures node.value == c.waiting[0] && Models(p, jobs, c.(waiting := c.waiting[1..])) && NodesAreOld(p)
  {
    hide BooksHold, QueuesHold, NodesOf, Insert, PrioQueue.Contents, PrioQueue.Valid;
    node := TakeWaitingOnly(p, jobs, c.waiting, c.queues);
  }

  /** The head leaves the queue and goes to the worker found for it. */
  method PlaceHead(p: Pronto, b: nat, ghost jobs: seq<Job>, ghost c: State)
    requires Models(p, jobs, c) && Requests(c.waiting) && HeadFits(c) && b == BestFit(c.free, c.waiting[0].request)
    modifies p`currentCapacity, p.workers`currentResources, p.workers`scheduledJobs, p.workers`notify
    modifies p.queues`size, p.queues`head, p.queues`tail, p.queues`nodes, NodesOf(p.queues)`next
    ensures Models(p, jobs, Place(c)) && NodesAreOld(p)
  {
    assert |c.free| == |p.workers| && p.queues[1] == p.waitingQueue && p.waitingQueue in p.queues;
    hide Models, BestFit, Booked, NodesOf;
    var node := TakeWaiting(p, jobs, c);
    Book(p, b, node.value, jobs, c.(waiting := c.waiting[1..]));
  }

  /** The worker for the head of the waiting queue, if there is a head and a worker. */
  method HeadFit(p: Pronto, ghost jobs: seq<Job>, ghost c: State) returns (fits: bool, b: int)
    requires Models(p, jobs, c) && Requests(c.waiting)
    ensures Models(p, jobs, c) && NodesOf(p.queues) == old(NodesOf(p.queues))
    ensures fits == HeadFits(c) && (fits ==> b == BestFit(c.free, c.waiting[0].request) && 0 <= b)
  {
    p.QueueAt(0);
    assert p.waitingQueue.Valid() && p.waitingQueue.Contents() == c.waiting;
    if p.waitingQueue.head == null {
      return false, -1;
    }
    var headValue := p.waitingQueue.head.value.request;
    p.FitOfRepresented(c.free, headValue);
    b := p.BestCurrentFit(headValue);
    fits := b != -1;
  }

  /** One round of the loop: more is false when it is time to leave. */
  method Round(p: Pronto, ghost jobs: seq<Job>, ghost c: State) returns (more: bool)
    requires Models(p, jobs, c) && Requests(c.waiting)
    modifies p`currentCapacity, p.workers`currentResources, p.workers`scheduledJobs, p.workers`notify
    modifies p.queues`size, p.queues`head, p.queues`tail, p.queues`nodes, NodesOf(p.queues)`next
    ensures more == HeadFits(c) && NodesAreOld(p)
    ensures more ==> c.waiting != [] && Requests(Place(c).waiting)
    ensures if more then Models(p, jobs, Place(c)) else Models(p, jobs, c)
  {
    assert c.Shaped();
    hide Models, Place, BestFit, NodesOf;
    var fits, b := HeadFit(p, jobs, c);
    if fits {
      PlaceHead(p, b, jobs, c);
    }
    more := fits;
  }

  /** One wake-up of the rescheduler, which holds the waiting queue's mutex throughout. */
  method Pass(p: Pronto, ghost jobs: seq<Job>, ghost c: State)
    requires Models(p, jobs, c) && Requests(c.waiting)
    modifies p`currentCapacity, p.workers`currentResources, p.workers`scheduledJobs, p.workers`notify
    modifies p.queues`size, p.queues`head, p.queues`tail, p.queues`nodes, NodesOf(p.queues)`next
    ensures Models(p, jobs, Drain(c)) && NodesAreOld(p)
  {
    ghost var d := c;
    assert c.Shaped();
    hide Models, Place, HeadFits, NodesOf, Requests;
    while true
      invariant d.Shaped() && Models(p, jobs, d) && Requests(d.waiting)
      invariant Drain(d) == Drain(c) && NodesAreOld(p)
      decreases |d.waiting|
    {
      var more := Round(p, jobs, d);
      if !more {
        break;
      }
      d := Place(d);
    }
  }
}
