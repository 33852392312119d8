/** The work of a scheduler on one job, srv/lib/scheduler_worker.c, and the protocol steps that it and
    the rescheduler are made of, and passes of the rescheduler among the steps of all threads. */
module SchedulerWorker {
  import opened CInts
  import opened PriorityQueue
  import opened Cluster
  import opened Rescheduler
  import P = Protocol
  import S = ProtocolSafety
  import T = ProtocolTight

  /** A job is booked on the worker found for it, or has to wait. */
  function Dispatch(c: State, j: Job): (d: State)
    requires c.Shaped()
    ensures d.Shaped() && |d.free| == |c.free|
  {
    var b := BestFit(c.free, j.request);
    if b == -1 then c.(waiting := Insert(c.waiting, j)) else Booked(c, b, j)
  }

  // As for the rescheduler, first on the queues alone and then on the whole.

  method TakeJobOnly(p: Pronto, ghost jobs: seq<Job>, ghost waiting: seq<Job>, ghost queues: seq<seq<Job>>)
    returns (node: Node?)
    requires QueuesHold(p, jobs, waiting, queues)
    modifies p.jobQueue`size, p.jobQueue`head, p.jobQueue`tail, p.jobQueue`nodes
    ensures node == null <==> jobs == []
    ensures node != null ==> node.value == jobs[0]
    ensures QueuesHold(p, if jobs == [] then [] else jobs[1..], waiting, queues) && NodesAreOld(p)
  {
    hide Insert, Apart, NodesOf, Ascending, Pronto.Wired, PrioQueue.Valid, PrioQueue.Contents;
    QueueStands(p, 0, jobs, waiting, queues);
    p.QueueAt(0);
    node := Take(p.jobQueue, p.queues);
  }

  /** The first job is taken out of the job queue. */
  method TakeJob(p: Pronto, ghost jobs: seq<Job>, ghost c: State) returns (node: Node?)
    requires Models(p, jobs, c)
    modifies p.jobQueue`size, p.jobQueue`head, p.jobQueue`tail, p.jobQueue`nodes
    ensures node == null <==> jobs == []
    ensures node != null ==> node.value == jobs[0]
    ensures Models(p, if jobs == [] then [] else jobs[1..], c) && NodesAreOld(p)
  {
    hide BooksHold, QueuesHold, NodesOf, Insert, PrioQueue.Contents, PrioQueue.Valid;
    node := TakeJobOnly(p, jobs, c.waiting, c.queues);
  }

  method DeferOnly(p: Pronto, job: Job, ghost jobs: seq<Job>, ghost waiting: seq<Job>, ghost queues: seq<seq<Job>>)
    requires QueuesHold(p, jobs, waiting, queues)
    modifies p.waitingQueue`size, p.waitingQueue`head, p.waitingQueue`tail, p.waitingQueue`nodes
    modifies p.waitingQueue.nodes`next
    ensures QueuesHold(p, jobs, Insert(waiting, job), queues) && NodesAreOld(p)
  {
    hide Insert, Apart, NodesOf, Ascending, Pronto.Wired, PrioQueue.Valid, PrioQueue.Contents;
    QueueStands(p, 1, jobs, waiting, queues);
    p.QueueAt(0);
    p.AddWaitingJob(job);
  }

  /** A job that fits nowhere goes to the waiting queue. */
  method Defer(p: Pronto, job: Job, ghost jobs: seq<Job>, ghost c: State)
    requires Models(p, jobs, c)
    modifies p.waitingQueue`size, p.waitingQueue`head, p.waitingQueue`tail, p.waitingQueue`nodes
    modifies p.waitingQueue.nodes`next
    ensures Models(p, jobs, c.(waiting := Insert(c.waiting, job))) && NodesAreOld(p)
  {
    hide BooksHold, QueuesHold, NodesOf, Insert, PrioQueue.Contents, PrioQueue.Valid;
    DeferOnly(p, job, jobs, c.waiting, c.queues);
  }

  /** The worker for a job. */
  method Fit(p: Pronto, value: nat, ghost jobs: seq<Job>, ghost c: State) returns (b: int)
    requires Models(p, jobs, c) && IsUint32(value)
    ensures Models(p, jobs, c) && b == BestFit(c.free, value) && -1 <= b < |p.workers|
  {
    p.FitOfRepresented(c.free, value);
    b := p.BestCurrentFit(value);
  }

  /** One round of _scheduler_loop, without interference: the first job of the job queue. */
  method ScheduleOne(p: Pronto, ghost jobs: seq<Job>, ghost c: State)
    requires Models(p, jobs, c) && Requests(jobs)
    modifies p`currentCapacity, p.workers`currentResources, p.workers`scheduledJobs, p.workers`notify
    modifies p.queues`size, p.queues`head, p.queues`tail, p.queues`nodes, NodesOf(p.queues)`next
    ensures c.Shaped() && if jobs == [] then Models(p, jobs, c) else Models(p, jobs[1..], Dispatch(c, jobs[0]))
  {
    p.QueueAt(0);
    assert c.Shaped() && p.queues[0] in p.queues && p.queues[1] in p.queues;
    assert jobs != [] ==> jobs[0].request < TWO_31;
    hide Models, BestFit, Insert, Booked, NodesOf, Requests;
    var node := TakeJob(p, jobs, c);
    if node == null {
      return;
    }
    ghost var rest := jobs[1..];
    var b := Fit(p, node.value.request, rest, c);
    if b == -1 {
      Defer(p, node.value, rest, c);
    } else {
      Book(p, b, node.value, rest, c);
    }
  }

  // ----- the same work as protocol steps -----

  /** The part of a protocol state that this work changes. */
  function View(st: P.State): (c: State)
    ensures c.Shaped() && |c.free| == |st.workers|
  {
    State(st.waiting, P.Free(st.workers),
          seq(|st.workers|, i requires 0 <= i < |st.workers| => st.workers[i].queue),
          seq(|st.workers|, i requires 0 <= i < |st.workers| => st.workers[i].posts))
  }

  /** Three steps carry out the decision of thread t. */
  lemma BookSteps(s0: P.State, st: P.State, t: nat) returns (st': P.State)
    requires T.Reaches(s0, st) && t < |st.threads| && st.threads[t].Decided? && st.threads[t].w < |st.workers|
    ensures T.Reaches(s0, st')
    ensures var (pc, idle) := (st.threads[t], if st.threads[t].role == P.Scheduler then P.SIdle else P.RLooking);
      && st' == st.(threads := st.threads[t := idle], workers := st'.workers, capacity := st.capacity - pc.j.request)
      && |st'.workers| == |st.workers| && View(st') == Booked(View(st), pc.w, pc.j)
  {
    hide T.Reaches, BestFit, Insert;
    var pc := st.threads[t];
    var k := st.workers[pc.w];
    var k' := P.Worker(k.max, k.free - pc.j.request, k.scheduled + 1, Insert(k.queue, pc.j), k.posts + 1);
    var a := P.Apply(st, P.Reserve(t));
    T.Then(s0, st, P.Reserve(t));
    var b := P.Apply(a, P.Queue(t));
    T.Then(s0, a, P.Queue(t));
    st' := P.Apply(b, P.Step.Post(t));
    T.Then(s0, b, P.Step.Post(t));
    assert st'.workers == st.workers[pc.w := k'];
    BookedWorker(st, st', pc.w, pc.j);
  }

  lemma BookedWorker(st: P.State, st': P.State, w: nat, j: Job)
    requires w < |st.workers| && st'.waiting == st.waiting
    requires var k := st.workers[w];
      st'.workers ==
        st.workers[w := P.Worker(k.max, k.free - j.request, k.scheduled + 1, Insert(k.queue, j), k.posts + 1)]
    ensures View(st') == Booked(View(st), w, j)
  {
    hide Insert;
    assert View(st').free == Booked(View(st), w, j).free;
    assert View(st').queues == Booked(View(st), w, j).queues;
    assert View(st').posts == Booked(View(st), w, j).posts;
  }

  /** A scheduler that is not interrupted does to the protocol's state what ScheduleOne does. */
  lemma SchedulerSteps(s0: P.State, st: P.State, s: nat) returns (st': P.State)
    requires T.Reaches(s0, st) && s < |st.threads| && st.threads[s].SHolding? && P.LockFree(st)
    ensures T.Reaches(s0, st') && st'.threads == st.threads[s := P.SIdle]
    ensures View(st') == Dispatch(View(st), st.threads[s].j)
  {
    hide T.Reaches, BestFit, P.LockFree;
    var j := st.threads[s].j;
    var a := P.Apply(st, P.SFit(s));
    T.Then(s0, st, P.SFit(s));
    assert a.workers == st.workers;
    if BestFit(P.Free(st.workers), j.request) == -1 {
      StillFree(st, a, s);
      st' := P.Apply(a, P.SDefer(s));
      T.Then(s0, a, P.SDefer(s));
      assert st'.workers == st.workers;
    } else {
      st' := BookSteps(s0, a, s);
    }
    assert st'.threads == st.threads[s := P.SIdle];
  }

  lemma StillFree(st: P.State, st': P.State, s: nat)
    requires P.LockFree(st) && s < |st.threads| == |st'.threads|
    requires st'.threads == st.threads[s := st'.threads[s]] && !P.HoldsLock(st'.threads[s])
    ensures P.LockFree(st')
  {
    forall pc | pc in st'.threads ensures !P.HoldsLock(pc) {
      var i :| 0 <= i < |st'.threads| && st'.threads[i] == pc;
      assert i != s ==> st.threads[i] in st.threads;
    }
  }

  /** One placement of the rescheduler, as five steps. */
  lemma PlaceSteps(s0: P.State, st: P.State, r: nat) returns (st': P.State)
    requires T.Reaches(s0, st) && r < |st.threads| && st.threads[r] == P.RLooking && HeadFits(View(st))
    ensures T.Reaches(s0, st') && st'.threads == st.threads && View(st') == Place(View(st))
  {
    hide T.Reaches, BestFit;
    var j := st.waiting[0];
    var a := P.Apply(st, P.RLook(r));
    T.Then(s0, st, P.RLook(r));
    var b := P.Apply(a, P.RPop(r));
    T.Then(s0, a, P.RPop(r));
    st' := BookSteps(s0, b, r);
    assert b.workers == st.workers && b.waiting == st.waiting[1..];
    assert st'.threads == st.threads;
  }

  /** A rescheduler that is not interrupted drains the waiting queue as Pass does, and goes back to
      sleep. */
  lemma {:induction false} PassSteps(s0: P.State, st: P.State, r: nat) returns (st': P.State)
    requires T.Reaches(s0, st) && r < |st.threads| && st.threads[r] == P.RLooking
    ensures T.Reaches(s0, st') && st'.threads == st.threads[r := P.RIdle] && View(st') == Drain(View(st))
    decreases |st.waiting|
  {
    hide T.Reaches, BestFit, Place;
    if HeadFits(View(st)) {
      var a := PlaceSteps(s0, st, r);
      st' := PassSteps(s0, a, r);
    } else {
      var a := P.Apply(st, P.RLook(r));
      T.Then(s0, st, P.RLook(r));
      st' := P.Apply(a, P.RUnlock(r));
      T.Then(s0, a, P.RUnlock(r));
      assert st'.workers == st.workers && st'.waiting == st.waiting;
      assert st'.threads == st.threads[r := P.RIdle];
    }
  }

  // ----- on every run -----

  /** Every queue is kept in ascending order of requests. */
  ghost predicate QueuesAscend(st: P.State) {
    Ascending(st.jobQueue) && Ascending(st.waiting) &&
    forall w :: 0 <= w < |st.workers| ==> Ascending(st.workers[w].queue)
  }

  lemma QueuesAscendStep(st: P.State, step: P.Step)
    requires P.Enabled(st, step) && QueuesAscend(st)
    ensures QueuesAscend(P.Apply(st, step))
  {
    var j := if st.threads[P.Actor(step)].HAdmitted? || st.threads[P.Actor(step)].SUnfit? ||
                st.threads[P.Actor(step)].Reserved? then st.threads[P.Actor(step)].j else Job(0, 0);
    InsertAscending(st.jobQueue, j);
    InsertAscending(st.waiting, j);
    forall w | 0 <= w < |st.workers| ensures Ascending(P.Apply(st, step).workers[w].queue) {
      InsertAscending(st.workers[w].queue, j);
    }
  }

  lemma {:induction false} AlwaysAscend(s0: P.State, steps: seq<P.Step>)
    requires P.Init(s0) && P.Runs(s0, steps)
    ensures QueuesAscend(P.Exec(s0, steps)) && P.Maxima(P.Exec(s0, steps).workers) == P.Maxima(s0.workers)
  {
    if steps != [] {
      var n := |steps| - 1;
      AlwaysAscend(s0, steps[..n]);
      S.AlwaysInv(s0, steps[..n]);
      QueuesAscendStep(P.Exec(s0, steps[..n]), steps[n]);
      S.ExecKeeps(P.Exec(s0, steps[..n]), steps[n]);
    }
  }

  lemma FreeAtMostMax(st: P.State, w: nat)
    requires S.Inv(st) && w < |st.workers|
    ensures st.workers[w].free <= st.workers[w].max
  {
    assert S.WorkerBalanced(st, w);
    S.TotalNonNegative(P.ReservedOn(w), st.threads);
    S.LoadNonNegative(st.workers[w].queue);
  }

  lemma {:induction false} SumAtMost(xs: seq<int>, ys: seq<int>)
    requires |xs| == |ys| && forall i :: 0 <= i < |xs| ==> 0 <= xs[i] <= ys[i]
    ensures 0 <= Sum(xs) <= Sum(ys)
  {
    if xs != [] {
      SumAtMost(xs[..|xs| - 1], ys[..|ys| - 1]);
    }
  }

  lemma ModestStep(st: P.State, step: P.Step)
    requires P.Enabled(st, step) && S.RequestsUpTo(st, TWO_31 - 1)
    requires InRange(P.Maxima(st.workers))
    ensures S.RequestsUpTo(P.Apply(st, step), TWO_31 - 1)
  {
    hide BestFit, InRange, Insert;
    if step.Admit? {
      AdmittedFitsIdleCluster(P.Maxima(st.workers), step.value);
    } else {
      assert P.Apply(st, step).admitted == st.admitted;
    }
  }

  /** Every admitted request is below the total, so below 2 to the 31st. */
  lemma {:induction false} AlwaysModest(s0: P.State, steps: seq<P.Step>)
    requires P.Init(s0) && P.Runs(s0, steps) && Sum(P.Maxima(s0.workers)) < TWO_31
    ensures S.RequestsUpTo(P.Exec(s0, steps), TWO_31 - 1)
  {
    if steps != [] {
      var n := |steps| - 1;
      AlwaysModest(s0, steps[..n]);
      AlwaysAscend(s0, steps[..n]);
      MaximaInRange(P.Maxima(P.Exec(s0, steps[..n]).workers));
      ModestStep(P.Exec(s0, steps[..n]), steps[n]);
    }
  }

  lemma MaximaInRange(maxima: seq<int>)
    requires NonNegative(maxima) && Sum(maxima) < TWO_31
    ensures InRange(maxima)
  {
    SumAtMost(maxima, maxima);
    forall w | 0 <= w < |maxima| ensures IsInt32(maxima[w]) {
      SumBounds(maxima, w);
    }
  }

  /** What the passes rest on, in every state of every run. */
  ghost predicate Ready(st: P.State) {
    && S.Inv(st) && QueuesAscend(st) && S.RequestsUpTo(st, TWO_31 - 1)
    && Sum(P.Maxima(st.workers)) < TWO_31
  }

  lemma AlwaysReady(s0: P.State, steps: seq<P.Step>)
    requires P.Init(s0) && P.Runs(s0, steps) && Sum(P.Maxima(s0.workers)) < TWO_31
    ensures Ready(P.Exec(s0, steps))
  {
    S.AlwaysInv(s0, steps);
    AlwaysAscend(s0, steps);
    AlwaysModest(s0, steps);
  }

  lemma WaitingModest(st: P.State)
    requires Ready(st)
    ensures Requests(st.waiting)
  {
    forall k | 0 <= k < |st.waiting| ensures st.waiting[k].request < TWO_31 {
      S.SomewhereIsAdmitted(st, st.waiting[k]);
    }
  }

  lemma FreeInRange(st: P.State)
    requires Ready(st) && NonNegative(P.Free(st.workers))
    ensures InRange(P.Free(st.workers))
  {
    var free, maxima := P.Free(st.workers), P.Maxima(st.workers);
    forall w | 0 <= w < |free| ensures 0 <= free[w] <= maxima[w] {
      FreeAtMostMax(st, w);
    }
    SumAtMost(free, maxima);
    forall w | 0 <= w < |free| ensures IsInt32(free[w]) {
      SumBounds(maxima, w);
    }
  }

  // ----- a pass among the steps of all the other threads -----

  /** No waiting job fits any worker. */
  ghost predicate NoneWaitingFits(st: P.State) {
    forall j :: j in st.waiting ==> NoneFits(P.Free(st.workers), j.request)
  }

  /** When the look at the head finds no worker, no waiting job fits one. */
  lemma LookGivesUp(st: P.State, r: nat)
    requires Ready(st) && NonNegative(P.Free(st.workers))
    requires P.Enabled(st, P.RLook(r)) && P.NextPc(st, P.RLook(r)).RLeaving?
    ensures NoneWaitingFits(P.Apply(st, P.RLook(r)))
  {
    WaitingModest(st);
    FreeInRange(st);
    if st.waiting != [] {
      NoFitMeansNoneFits(P.Free(st.workers), st.waiting[0].request);
    }
  }

  /** Only a release gives a worker more resources. */
  lemma FreeShrinks(st: P.State, step: P.Step)
    requires P.Enabled(st, step) && !step.Done?
    ensures |P.Apply(st, step).workers| == |st.workers|
    ensures forall w :: 0 <= w < |st.workers| ==> P.Apply(st, step).workers[w].free <= st.workers[w].free
  {
  }

  /** While one thread is in the rescheduler's critical section, nobody else changes the waiting
      queue: insertion needs the lock, and there is no second rescheduler. */
  lemma WaitingIsLocked(st: P.State, step: P.Step, r: nat)
    requires P.Enabled(st, step) && S.OneRescheduler(st) && r < |st.threads|
    requires P.HoldsLock(st.threads[r]) && P.Actor(step) != r
    ensures P.Apply(st, step).waiting == st.waiting && P.Apply(st, step).threads[r] == st.threads[r]
  {
    assert st.threads[r] in st.threads;
    if step.RPop? {
      S.OnlyRescheduler(st, r, step.r);
    }
  }

  /** So while the rescheduler is on its way out, any step but a release keeps it so. */
  lemma KeptWhileLeaving(st: P.State, step: P.Step, r: nat)
    requires P.Enabled(st, step) && !step.Done? && S.OneRescheduler(st)
    requires r < |st.threads| && st.threads[r].RLeaving? && P.Apply(st, step).threads[r].RLeaving?
    requires NoneWaitingFits(st)
    ensures NoneWaitingFits(P.Apply(st, step))
  {
    hide NoneFits;
    WaitingIsLocked(st, step, r);
    FreeShrinks(st, step);
    forall j | j in P.Apply(st, step).waiting ensures NoneFits(P.Free(P.Apply(st, step).workers), j.request) {
      ReservationsKeepNoneFits(P.Free(st.workers), P.Free(P.Apply(st, step).workers), j.request);
    }
  }

  /** Only a look leads to the unlock. */
  lemma StillLeaving(st: P.State, step: P.Step, r: nat)
    requires P.Enabled(st, step) && step != P.RLook(r)
    requires r < |P.Apply(st, step).threads| && P.Apply(st, step).threads[r].RLeaving?
    ensures r < |st.threads| && st.threads[r].RLeaving?
  {
  }

  /** Where in the run the rescheduler last looked at the head. */
  function LastLook(steps: seq<P.Step>, r: nat): (k: int)
    ensures -1 <= k < |steps| && (0 <= k ==> steps[k] == P.RLook(r))
    ensures forall i :: k < i < |steps| ==> steps[i] != P.RLook(r)
  {
    if steps == [] then -1
    else
      var n := |steps| - 1;
      if steps[n] == P.RLook(r) then n else LastLook(steps[..n], r)
  }

  /** No capacity is released by the steps after the k-th. */
  ghost predicate NoReleaseSince(steps: seq<P.Step>, k: int) {
    forall i :: 0 <= i < |steps| && k < i ==> !steps[i].Done?
  }

  /** A pass among any steps of all other threads. Whenever the rescheduler is about to unlock: if at
      its last look no worker was overcommitted, and no capacity was released since, then no waiting
      job fits any worker. */
  lemma {:induction false} PassUnderInterference(s0: P.State, steps: seq<P.Step>, r: nat)
    requires P.Init(s0) && P.Runs(s0, steps) && Sum(P.Maxima(s0.workers)) < TWO_31
    requires var st := P.Exec(s0, steps); r < |st.threads| && st.threads[r].RLeaving?
    ensures var k := LastLook(steps, r);
      && 0 <= k && P.Runs(s0, steps[..k])
      && (NonNegative(P.Free(P.Exec(s0, steps[..k]).workers)) && NoReleaseSince(steps, k) ==>
           NoneWaitingFits(P.Exec(s0, steps)))
  {
    hide NoneWaitingFits;
    assert steps != [] by {
      assert steps == [] ==> P.Starting(s0.threads[r], |s0.workers|);
    }
    var n := |steps| - 1;
    var st, k := P.Exec(s0, steps[..n]), LastLook(steps, r);
    AlwaysReady(s0, steps[..n]);
    if k == n {
      if NonNegative(P.Free(st.workers)) {
        LookGivesUp(st, r);
      }
    } else {
      StillLeaving(st, steps[n], r);
      PassUnderInterference(s0, steps[..n], r);
      assert steps[..n][..k] == steps[..k];
      if NoneWaitingFits(st) && !steps[n].Done? {
        KeptWhileLeaving(st, steps[n], r);
      }
    }
  }

  // ----- how long a pass takes -----

  /** How many steps of its own the rescheduler is from the unlock at most: five for each waiting job,
      and a last look. */
  function StepsLeft(pc: P.Pc, waiting: nat): int {
    match pc
    case RLooking => 5 * waiting + 1
    case RChosen(_, _) => 5 * waiting
    case Decided(_, _, _) => 5 * waiting + 4
    case Reserved(_, _, _) => 5 * waiting + 3
    case Queued(_, _) => 5 * waiting + 2
    case _ => 0
  }

  /** How many of the steps from the cut on are those of thread r. */
  function Own(steps: seq<P.Step>, cut: nat, r: nat): nat {
    if |steps| <= cut then 0
    else
      var n := |steps| - 1;
      Own(steps[..n], cut, r) + P.One(P.Actor(steps[n]) == r)
  }

  /** The rescheduler r is in a pass, has taken that many steps in it, and will not exceed the bound. */
  ghost predicate Within(st: P.State, r: nat, own: nat, bound: int) {
    && r < |st.threads| && P.HoldsLock(st.threads[r])
    && own <= own + StepsLeft(st.threads[r], |st.waiting|) <= bound
  }

  lemma WithinStep(st: P.State, step: P.Step, r: nat, own: nat, bound: int)
    requires P.Enabled(st, step) && S.OneRescheduler(st) && Within(st, r, own, bound) && step != P.RUnlock(r)
    ensures Within(P.Apply(st, step), r, own + P.One(P.Actor(step) == r), bound)
  {
    hide BestFit;
    if P.Actor(step) != r {
      WaitingIsLocked(st, step, r);
    }
  }

  lemma WithinNext(s0: P.State, steps: seq<P.Step>, cut: nat, r: nat, bound: int)
    requires P.Init(s0) && P.Runs(s0, steps) && cut < |steps| && steps[|steps| - 1] != P.RUnlock(r)
    requires var most := steps[..|steps| - 1]; Within(P.Exec(s0, most), r, Own(most, cut, r), bound)
    ensures Within(P.Exec(s0, steps), r, Own(steps, cut, r), bound)
  {
    var most, step := steps[..|steps| - 1], steps[|steps| - 1];
    S.AlwaysInv(s0, most);
    assert S.OneRescheduler(P.Exec(s0, most));
    WithinStep(P.Exec(s0, most), step, r, Own(most, cut, r), bound);
  }

  /** From the lock on, whatever the other threads do, releases included, the rescheduler takes at most
      five steps for each job that was waiting, and one more, before it is ready to unlock. */
  lemma {:induction false} PassIsBounded(s0: P.State, steps: seq<P.Step>, cut: nat, r: nat)
    requires P.Init(s0) && P.Runs(s0, steps) && cut <= |steps| && P.Runs(s0, steps[..cut])
    requires r < |P.Exec(s0, steps[..cut]).threads| && P.Exec(s0, steps[..cut]).threads[r].RLooking?
    requires forall k :: cut <= k < |steps| ==> steps[k] != P.RUnlock(r)
    ensures Within(P.Exec(s0, steps), r, Own(steps, cut, r), 5 * |P.Exec(s0, steps[..cut]).waiting| + 1)
  {
    if cut == |steps| {
      assert steps[..cut] == steps;
    } else {
      var most := steps[..|steps| - 1];
      assert most[..cut] == steps[..cut];
      PassIsBounded(s0, most, cut, r);
      WithinNext(s0, steps, cut, r, 5 * |P.Exec(s0, steps[..cut]).waiting| + 1);
    }
  }

  /** The step that the rescheduler takes next in a pass. */
  function NextOf(pc: P.Pc, r: nat): P.Step
    requires P.HoldsLock(pc)
  {
    match pc
    case RLooking => P.RLook(r)
    case RChosen(_, _) => P.RPop(r)
    case RLeaving => P.RUnlock(r)
    case Decided(_, _, _) => P.Step.Reserve(r)
    case Reserved(_, _, _) => P.Step.Queue(r)
    case Queued(_, _) => P.Step.Post(r)
  }

  /** That step can always be taken: a pass waits for nobody, so it ends after the steps counted. */
  lemma PassIsNeverStuck(s0: P.State, steps: seq<P.Step>, r: nat)
    requires P.Init(s0) && P.Runs(s0, steps)
    requires r < |P.Exec(s0, steps).threads| && P.HoldsLock(P.Exec(s0, steps).threads[r])
    ensures var st := P.Exec(s0, steps);
            P.Actor(NextOf(st.threads[r], r)) == r && P.Enabled(st, NextOf(st.threads[r], r))
  {
    S.AlwaysInv(s0, steps);
    NextIsEnabled(P.Exec(s0, steps), r);
  }

  lemma NextIsEnabled(st: P.State, r: nat)
    requires S.WorkersExist(st) && S.HeadChosen(st) && r < |st.threads| && P.HoldsLock(st.threads[r])
    ensures P.Actor(NextOf(st.threads[r], r)) == r && P.Enabled(st, NextOf(st.threads[r], r))
  {
    assert S.WorkerOf(st.threads[r]) < |st.workers|;
  }

  // ----- after the pass -----

  /** No job fits that is waiting or about to wait. */
  ghost predicate Settled(st: P.State) {
    && NoneWaitingFits(st)
    && forall i :: 0 <= i < |st.threads| && st.threads[i].SUnfit? ==>
         NoneFits(P.Free(st.workers), st.threads[i].j.request)
  }

  lemma HeldModest(st: P.State, i: nat)
    requires Ready(st) && i < |st.threads| && st.threads[i].SHolding?
    ensures st.threads[i].j.request < TWO_31
  {
    S.SomewhereIsAdmitted(st, st.threads[i].j);
  }

  /** Every step but a release keeps it so, as long as a scheduler that finds no worker looks while no
      worker is overcommitted. */
  lemma SettledStep(st: P.State, step: P.Step)
    requires P.Enabled(st, step) && !step.Done? && Ready(st) && Settled(st)
    requires step.SFit? ==> NonNegative(P.Free(st.workers))
    ensures Settled(P.Apply(st, step))
  {
    hide NoneFits, BestFit;
    var st' := P.Apply(st, step);
    var free, free' := P.Free(st.workers), P.Free(st'.workers);
    FreeShrinks(st, step);
    forall i | 0 <= i < |st'.threads| && st'.threads[i].SUnfit? ensures NoneFits(free', st'.threads[i].j.request) {
      var value := st'.threads[i].j.request;
      if step.SFit? && step.s == i {
        HeldModest(st, i);
        FreeInRange(st);
        NoFitMeansNoneFits(free, value);
      }
      ReservationsKeepNoneFits(free, free', value);
    }
    forall j | j in st'.waiting ensures NoneFits(free', j.request) {
      if step.SDefer? {
        InsertMembers(st.waiting, st.threads[step.s].j);
      }
      ReservationsKeepNoneFits(free, free', j.request);
    }
  }

  /** From the cut on, whenever a scheduler looks for a worker, none is overcommitted. */
  ghost predicate LooksAtNonNegative(s0: P.State, steps: seq<P.Step>, cut: nat)
    requires P.Runs(s0, steps)
  {
    if |steps| <= cut then true
    else
      var n := |steps| - 1;
      && (steps[n].SFit? ==> NonNegative(P.Free(P.Exec(s0, steps[..n]).workers)))
      && LooksAtNonNegative(s0, steps[..n], cut)
  }

  /** Whatever happens then, until the next release no waiting job fits. */
  lemma {:induction false} SettledUntilARelease(s0: P.State, steps: seq<P.Step>, cut: nat)
    requires P.Init(s0) && Sum(P.Maxima(s0.workers)) < TWO_31
    requires P.Runs(s0, steps) && cut <= |steps| && P.Runs(s0, steps[..cut]) && Settled(P.Exec(s0, steps[..cut]))
    requires NoReleaseSince(steps, cut - 1) && LooksAtNonNegative(s0, steps, cut)
    ensures Settled(P.Exec(s0, steps))
  {
    var n := |steps| - 1;
    if cut == |steps| {
      assert steps[..cut] == steps;
    } else {
      hide Settled;
      assert steps[..n][..cut] == steps[..cut];
      SettledUntilARelease(s0, steps[..n], cut);
      AlwaysReady(s0, steps[..n]);
      SettledStep(P.Exec(s0, steps[..n]), steps[n]);
    }
  }

  // ----- a pass that nobody interrupts -----

  /** In any state of any run: if no worker is overcommitted, a pass of the rescheduler that nobody
      interrupts ends with no waiting job that fits any worker. */
  lemma PassOnAnyRun(s0: P.State, steps: seq<P.Step>, r: nat) returns (st': P.State)
    requires P.Init(s0) && P.Runs(s0, steps) && Sum(P.Maxima(s0.workers)) < TWO_31
    requires r < |P.Exec(s0, steps).threads| && P.Exec(s0, steps).threads[r] == P.RLooking
    requires NonNegative(P.Free(P.Exec(s0, steps).workers))
    ensures T.Reaches(s0, st') && st'.threads == P.Exec(s0, steps).threads[r := P.RIdle]
    ensures NoneWaitingFits(st') && NonNegative(P.Free(st'.workers))
  {
    var st := P.Exec(s0, steps);
    AlwaysReady(s0, steps);
    FreeInRange(st);
    WaitingModest(st);
    hide T.Reaches, Drain, NoneFits;
    DrainComplete(View(st));
    ReachedBy(s0, steps);
    st' := PassSteps(s0, st, r);
  }

  lemma ReachedBy(s0: P.State, steps: seq<P.Step>)
    requires P.Runs(s0, steps)
    ensures T.Reaches(s0, P.Exec(s0, steps))
  {
  }
}
