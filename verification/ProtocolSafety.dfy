/** What every run of the protocol keeps: the semaphores account for the queues, capacity and
    jobs are conserved, and overcommitment is bounded by the decisions that are pending at a time. */
module ProtocolSafety {
  import opened CInts
  import opened PriorityQueue
  import opened Cluster
  import opened Protocol

  // ----- shape -----

  /** The worker that a thread is concerned with, if any. */
  function WorkerOf(pc: Pc): int {
    if pc.RChosen? || pc.Decided? || pc.Reserved? || pc.Queued? || pc.DIdle? || pc.DWoken? ||
       pc.DSending? || pc.DCrashed? || pc.CRunning? || pc.CLost?
    then pc.w else -1
  }

  ghost predicate WorkersExist(st: State) {
    forall i :: 0 <= i < |st.threads| ==> WorkerOf(st.threads[i]) < |st.workers|
  }

  lemma WorkersExistStep(st: State, step: Step)
    requires Enabled(st, step) && WorkersExist(st)
    ensures WorkersExist(Apply(st, step))
  {
    assert WorkerOf(NextPc(st, step)) < |st.workers|;
  }

  // ----- semaphore accounting -----

  ghost predicate WorkerAccounted(st: State, w: nat)
    requires w < |st.workers|
  {
    |st.workers[w].queue| ==
      st.workers[w].posts + Total(WokenOn(w), st.threads) + Total(PostingTo(w), st.threads)
  }

  /** Each queue holds one job for every unit of its semaphore, every consumer that was woken but
      has not dequeued, and every producer that has enqueued but not posted. */
  ghost predicate Accounted(st: State) {
    && |st.jobQueue| == st.notify + Total(WokenSchedulers, st.threads) + Total(QueuedHandlers, st.threads)
    && forall w :: 0 <= w < |st.workers| ==> WorkerAccounted(st, w)
  }

  /** Total is at least the weight of any one thread, when no weight is negative. */
  lemma {:induction false} TotalAtLeast(m: Measure, ts: seq<Pc>, i: nat)
    requires i < |ts|
    ensures 0 <= Weigh(m, ts[i]) <= Total(m, ts)
  {
    TotalNonNegative(m, ts[..|ts| - 1]);
    if i < |ts| - 1 {
      TotalAtLeast(m, ts[..|ts| - 1], i);
    }
  }

  lemma {:induction false} TotalNonNegative(m: Measure, ts: seq<Pc>)
    ensures 0 <= Total(m, ts)
  {
    if ts != [] {
      TotalNonNegative(m, ts[..|ts| - 1]);
    }
  }

  lemma WorkerAccountedStep(st: State, step: Step, w: nat)
    requires Enabled(st, step) && w < |st.workers| && WorkerAccounted(st, w)
    ensures WorkerAccounted(Apply(st, step), w)
  {
    hide BestFit, Insert, Schedulable;
    TotalAfter(WokenOn(w), st, step);
    TotalAfter(PostingTo(w), st, step);
    TotalAtLeast(WokenOn(w), st.threads, Actor(step));
    TotalNonNegative(PostingTo(w), st.threads);
  }

  lemma AccountedStep(st: State, step: Step)
    requires Enabled(st, step) && Accounted(st)
    ensures Accounted(Apply(st, step))
  {
    TotalAfter(WokenSchedulers, st, step);
    TotalAfter(QueuedHandlers, st, step);
    TotalAtLeast(WokenSchedulers, st.threads, Actor(step));
    TotalNonNegative(QueuedHandlers, st.threads);
    forall w | 0 <= w < |st.workers| ensures WorkerAccounted(Apply(st, step), w) {
      WorkerAccountedStep(st, step, w);
    }
  }

  // ----- capacity -----

  /** The free resources of a worker and the jobs reserved on it make up its maximum, wherever
      those jobs are: in a decider's hand, in its queue, at its dispatcher or at a client. */
  ghost predicate WorkerBalanced(st: State, w: nat)
    requires w < |st.workers|
  {
    var k := st.workers[w];
    && k.free + Load(k.queue) + Total(ReservedOn(w), st.threads) == k.max
    && k.scheduled == |k.queue| + Total(JobsOn(w), st.threads)
  }

  ghost predicate Balanced(st: State) {
    && st.capacity == Sum(Free(st.workers))
    && forall w :: 0 <= w < |st.workers| ==> WorkerBalanced(st, w)
  }

  function RequestAt(pc: Pc, w: nat): int
    requires pc.Decided? || pc.Reserved? || pc.DSending? || pc.CRunning?
  {
    if pc.w == w then pc.j.request else 0
  }

  /** What a step takes from the free resources of w, and what it adds to the queue of w. */
  function Taken(st: State, step: Step, w: nat): int
    requires Enabled(st, step)
  {
    match step
    case Reserve(t) => RequestAt(st.threads[t], w)
    case Done(_, c) => -RequestAt(st.threads[c], w)
    case _ => 0
  }

  function Enqueued(st: State, step: Step, w: nat): int
    requires Enabled(st, step)
  {
    match step
    case Queue(t) => RequestAt(st.threads[t], w)
    case DDequeue(_) => if NextPc(st, step).DSending? then -RequestAt(NextPc(st, step), w) else 0
    case _ => 0
  }

  lemma ReservedGain(st: State, step: Step, w: nat)
    requires Enabled(st, step)
    ensures Gain(ReservedOn(w), st, step) == Taken(st, step, w) - Enqueued(st, step, w)
  {
  }

  lemma QueueLoadAfter(st: State, step: Step, w: nat)
    requires Enabled(st, step) && w < |st.workers|
    ensures var (k, k') := (st.workers[w], Apply(st, step).workers[w]);
      && k'.max == k.max
      && k'.free == k.free - Taken(st, step, w)
      && Load(k'.queue) == Load(k.queue) + Enqueued(st, step, w)
  {
    if step.Queue? {
      LoadInsert(st.workers[w].queue, st.threads[step.t].j);
    }
  }

  lemma WorkerFreeStep(st: State, step: Step, w: nat)
    requires Enabled(st, step) && w < |st.workers| && WorkerBalanced(st, w)
    ensures var k := Apply(st, step).workers[w];
            k.free + Load(k.queue) + Total(ReservedOn(w), Apply(st, step).threads) == k.max == st.workers[w].max
  {
    TotalAfter(ReservedOn(w), st, step);
    ReservedGain(st, step, w);
    QueueLoadAfter(st, step, w);
  }

  lemma JobsGain(st: State, step: Step, w: nat)
    requires Enabled(st, step)
    ensures Gain(JobsOn(w), st, step) ==
              One(step.Reserve? && st.threads[step.t].w == w)
              - One(step.Queue? && st.threads[step.t].w == w)
              - One(step.Done? && st.threads[step.c].w == w)
              + One(step.DDequeue? && NextPc(st, step).DSending? && NextPc(st, step).w == w)
  {
  }

  lemma WorkerScheduledStep(st: State, step: Step, w: nat)
    requires Enabled(st, step) && w < |st.workers| && WorkerBalanced(st, w)
    ensures var k := Apply(st, step).workers[w];
            k.scheduled == |k.queue| + Total(JobsOn(w), Apply(st, step).threads)
  {
    TotalAfter(JobsOn(w), st, step);
    JobsGain(st, step, w);
  }

  lemma BalancedStep(st: State, step: Step)
    requires Enabled(st, step) && Balanced(st)
    ensures Balanced(Apply(st, step))
  {
    forall w | 0 <= w < |st.workers| ensures WorkerBalanced(Apply(st, step), w) {
      WorkerFreeStep(st, step, w);
      WorkerScheduledStep(st, step, w);
    }
    CapacityStep(st, step);
  }

  lemma CapacityStep(st: State, step: Step)
    requires Enabled(st, step) && st.capacity == Sum(Free(st.workers))
    ensures Apply(st, step).capacity == Sum(Free(Apply(st, step).workers))
  {
    var free, free' := Free(st.workers), Free(Apply(st, step).workers);
    if step.Done? {
      var c := st.threads[step.c];
      SumUpdate(free, c.w, free[c.w] + c.j.request);
      assert free' == free[c.w := free[c.w] + c.j.request];
    } else if step.Reserve? {
      var d := st.threads[step.t];
      SumUpdate(free, d.w, free[d.w] - d.j.request);
      assert free' == free[d.w := free[d.w] - d.j.request];
    } else {
      assert free' == free;
    }
  }

  // ----- jobs -----

  ghost function Queued(ws: seq<Worker>, j: Job): int {
    if ws == [] then 0 else Queued(ws[..|ws| - 1], j) + multiset(ws[|ws| - 1].queue)[j]
  }

  lemma {:induction false} QueuedUpdate(ws: seq<Worker>, w: nat, k: Worker, j: Job)
    requires w < |ws|
    ensures Queued(ws[w := k], j) == Queued(ws, j) - multiset(ws[w].queue)[j] + multiset(k.queue)[j]
  {
    var n := |ws| - 1;
    if w < n {
      QueuedUpdate(ws[..n], w, k, j);
      assert ws[w := k][..n] == ws[..n][w := k];
    } else {
      assert ws[w := k][..n] == ws[..n];
    }
  }

  /** In how many places the job is: the job queue, the waiting queue, the workers' queues, and the
      hands of the threads. */
  ghost function Places(st: State, j: Job): int {
    multiset(st.jobQueue)[j] + multiset(st.waiting)[j] + Queued(st.workers, j) + Total(Holding(j), st.threads)
  }

  ghost predicate Admitted(st: State, j: Job) {
    j.id < |st.admitted| && st.admitted[j.id] == j
  }

  /** Every admitted job is in exactly one place and no other job is anywhere. */
  ghost predicate Placed(st: State) {
    && (forall i :: 0 <= i < |st.admitted| ==> st.admitted[i].id == i)
    && forall j :: Places(st, j) == One(Admitted(st, j))
  }

  lemma {:induction false} SameQueues(ws: seq<Worker>, vs: seq<Worker>, j: Job)
    requires |ws| == |vs| && forall w :: 0 <= w < |ws| ==> ws[w].queue == vs[w].queue
    ensures Queued(ws, j) == Queued(vs, j)
  {
    if ws != [] {
      SameQueues(ws[..|ws| - 1], vs[..|vs| - 1], j);
    }
  }

  /** What a step does to the workers' queues. */
  lemma QueuesAfter(st: State, step: Step)
    requires Enabled(st, step)
    ensures var (ws, ws') := (st.workers, Apply(st, step).workers);
      && |ws'| == |ws|
      && if step.Queue? then
           var pc := st.threads[step.t];
           ws' == ws[pc.w := ws[pc.w].(queue := Insert(ws[pc.w].queue, pc.j))]
         else if step.DDequeue? && NextPc(st, step).DSending? then
           var (w, q) := (st.threads[step.d].w, ws[st.threads[step.d].w].queue);
           q != [] && NextPc(st, step).j == q[0] && ws' == ws[w := ws[w].(queue := q[1..])]
         else
           forall w :: 0 <= w < |ws| ==> ws'[w].queue == ws[w].queue
  {
    hide BestFit, Insert;
  }

  lemma QueuedAfter(st: State, step: Step, j: Job)
    requires Enabled(st, step)
    ensures Queued(Apply(st, step).workers, j) == Queued(st.workers, j)
              + One(step.Queue? && st.threads[step.t].j == j)
              - One(step.DDequeue? && NextPc(st, step).DSending? && NextPc(st, step).j == j)
  {
    hide BestFit, Insert, NextPc, NextThreads, NextWorkers, Apply, Queued;
    var ws, ws' := st.workers, Apply(st, step).workers;
    QueuesAfter(st, step);
    if step.Queue? {
      var pc := st.threads[step.t];
      QueuedUpdate(ws, pc.w, ws'[pc.w], j);
      InsertMultiset(ws[pc.w].queue, pc.j);
    } else if step.DDequeue? && NextPc(st, step).DSending? {
      var w := st.threads[step.d].w;
      QueuedUpdate(ws, w, ws'[w], j);
      assert ws[w].queue == [ws[w].queue[0]] + ws[w].queue[1..];
    } else {
      SameQueues(ws, ws', j);
    }
  }

  lemma FrontQueuesAfter(st: State, step: Step, j: Job)
    requires Enabled(st, step)
    ensures multiset(Apply(st, step).jobQueue)[j] == multiset(st.jobQueue)[j]
              + One(step.Enqueue? && st.threads[step.h].j == j)
              - One(step.SDequeue? && NextPc(st, step).SHolding? && NextPc(st, step).j == j)
    ensures multiset(Apply(st, step).waiting)[j] == multiset(st.waiting)[j]
              + One(step.SDefer? && st.threads[step.s].j == j)
              - One(step.RPop? && NextPc(st, step).j == j)
  {
    hide BestFit, Insert, Schedulable, NextThreads, NextWorkers;
    if step.Enqueue? {
      InsertMultiset(st.jobQueue, st.threads[step.h].j);
    } else if step.SDefer? {
      InsertMultiset(st.waiting, st.threads[step.s].j);
    } else if step.SDequeue? && st.jobQueue != [] {
      FirstOfMany(st.jobQueue, j);
    } else if step.RPop? {
      FirstOfMany(st.waiting, j);
    }
  }

  lemma FirstOfMany(q: seq<Job>, j: Job)
    requires q != []
    ensures multiset(q)[j] == multiset(q[1..])[j] + One(q[0] == j)
  {
    assert q == [q[0]] + q[1..];
  }

  lemma HoldingGain(st: State, step: Step, j: Job)
    requires Enabled(st, step)
    ensures Gain(Holding(j), st, step) == One(step.Admit? && NextPc(st, step).j == j)
              - One(step.Enqueue? && st.threads[step.h].j == j)
              + One(step.SDequeue? && NextPc(st, step).SHolding? && NextPc(st, step).j == j)
              - One(step.SDefer? && st.threads[step.s].j == j)
              + One(step.RPop? && NextPc(st, step).j == j)
              - One(step.Queue? && st.threads[step.t].j == j)
              + One(step.DDequeue? && NextPc(st, step).DSending? && NextPc(st, step).j == j)
  {
  }

  /** A step moves jobs; only an admission adds one. */
  lemma PlacesAfter(st: State, step: Step, j: Job)
    requires Enabled(st, step)
    ensures Places(Apply(st, step), j) == Places(st, j) + One(step.Admit? && NextPc(st, step).j == j)
  {
    QueuedAfter(st, step, j);
    FrontQueuesAfter(st, step, j);
    HoldingGain(st, step, j);
    TotalAfter(Holding(j), st, step);
  }

  /** An admission is the only step that changes what has been admitted. */
  lemma AdmittedAfter(st: State, step: Step)
    requires Enabled(st, step)
    ensures Apply(st, step).admitted ==
      if step.Admit? then st.admitted + [Job(|st.admitted|, ToUint32(step.value))] else st.admitted
    ensures step.Admit? ==> NextPc(st, step) == HAdmitted(Job(|st.admitted|, ToUint32(step.value)))
  {
  }

  lemma PlacedStep(st: State, step: Step)
    requires Enabled(st, step) && Placed(st)
    ensures Placed(Apply(st, step))
  {
    hide BestFit, Places, NextPc, NextThreads, NextWorkers, Enabled, Apply, ToUint32;
    var st' := Apply(st, step);
    AdmittedAfter(st, step);
    forall j ensures Places(st', j) == One(Admitted(st', j)) {
      PlacesAfter(st, step, j);
    }
  }

  // ----- the rescheduler's lock and its choice -----

  ghost predicate OneRescheduler(st: State) {
    Total(Rescheduling, st.threads) == 1
  }

  lemma ReschedulingGain(st: State, step: Step)
    requires Enabled(st, step)
    ensures Gain(Rescheduling, st, step) == 0
  {
  }

  lemma DecidersGain(st: State, step: Step)
    requires Enabled(st, step)
    ensures Gain(Deciders, st, step) == 0
  {
  }

  /** No thread changes its role. */
  lemma RolesAfter(st: State, step: Step)
    requires Enabled(st, step)
    ensures Total(Rescheduling, Apply(st, step).threads) == Total(Rescheduling, st.threads)
    ensures Total(Deciders, Apply(st, step).threads) == Total(Deciders, st.threads)
  {
    TotalAfter(Rescheduling, st, step);
    TotalAfter(Deciders, st, step);
    ReschedulingGain(st, step);
    DecidersGain(st, step);
  }

  lemma OnlyRescheduler(st: State, i: nat, k: nat)
    requires OneRescheduler(st) && i < |st.threads| && k < |st.threads|
    requires IsRescheduler(st.threads[i]) && IsRescheduler(st.threads[k])
    ensures i == k
  {
    if i != k {
      TotalUpdate(Rescheduling, st.threads, i, HIdle);
      TotalAtLeast(Rescheduling, st.threads[i := HIdle], k);
    }
  }

  /** Between the choice and the pop, the head of the waiting queue is the job the choice is for:
      the mutex keeps schedulers from inserting in front of it. */
  ghost predicate HeadChosen(st: State) {
    forall i :: 0 <= i < |st.threads| && st.threads[i].RChosen? ==>
      st.waiting != [] && st.waiting[0].request == st.threads[i].v
  }

  lemma HeadChosenStep(st: State, step: Step)
    requires Enabled(st, step) && HeadChosen(st) && OneRescheduler(st)
    ensures HeadChosen(Apply(st, step))
  {
    var st' := Apply(st, step);
    forall i | 0 <= i < |st'.threads| && st'.threads[i].RChosen?
      ensures st'.waiting != [] && st'.waiting[0].request == st'.threads[i].v
    {
      if i != Actor(step) {
        assert i < |st.threads| && st'.threads[i] == st.threads[i];
        assert HoldsLock(st.threads[i]) && st.threads[i] in st.threads;
        if step.RPop? {
          OnlyRescheduler(st, i, step.r);
        }
      }
    }
  }

  // ----- overcommitment -----

  /** No request anywhere exceeds m. */
  ghost predicate RequestsUpTo(st: State, m: nat) {
    forall i :: 0 <= i < |st.admitted| ==> st.admitted[i].request <= m
  }

  lemma SomewhereIsAdmitted(st: State, j: Job)
    requires Placed(st)
    requires (exists i :: 0 <= i < |st.threads| && HasJob(st.threads[i], j)) || j in st.waiting
    ensures Admitted(st, j)
  {
    QueuedNonNegative(st.workers, j);
    TotalNonNegative(Holding(j), st.threads);
    if j in st.waiting {
      assert multiset(st.waiting)[j] > 0;
    } else {
      var i :| 0 <= i < |st.threads| && HasJob(st.threads[i], j);
      TotalAtLeast(Holding(j), st.threads, i);
    }
    assert Places(st, j) == One(Admitted(st, j));
  }

  lemma {:induction false} QueuedNonNegative(ws: seq<Worker>, j: Job)
    ensures 0 <= Queued(ws, j)
  {
    if ws != [] {
      QueuedNonNegative(ws[..|ws| - 1], j);
    }
  }

  lemma PendingUpTo(st: State, m: nat, w: nat, i: nat)
    requires Placed(st) && HeadChosen(st) && RequestsUpTo(st, m) && i < |st.threads|
    ensures Weigh(PendingOn(w), st.threads[i]) <= m
  {
    var pc := st.threads[i];
    if pc.Decided? {
      SomewhereIsAdmitted(st, pc.j);
    } else if pc.RChosen? {
      SomewhereIsAdmitted(st, st.waiting[0]);
    }
  }

  /** Decisions pending on a worker ask for at most m each. */
  lemma {:induction false} PendingAtMost(ts: seq<Pc>, m: nat, w: nat)
    requires forall i :: 0 <= i < |ts| ==> Weigh(PendingOn(w), ts[i]) <= m
    ensures Total(PendingOn(w), ts) <= Total(ChoicesOn(w), ts) * m
  {
    if ts != [] {
      var n := |ts| - 1;
      PendingAtMost(ts[..n], m, w);
      assert Total(ChoicesOn(w), ts) * m == Total(ChoicesOn(w), ts[..n]) * m + Weigh(ChoicesOn(w), ts[n]) * m;
    }
  }

  lemma ChoiceGain(st: State, step: Step, w: nat)
    requires Enabled(st, step) && (step.SFit? || step.RLook?)
    ensures Gain(ChoicesOn(w), st, step) == Weigh(ChoicesOn(w), NextPc(st, step))
  {
    hide BestFit;
  }

  /** A thread that is about to decide has nothing pending. If no more than p decisions are pending on
      the worker afterwards, those of the others ask for at most (p - 1) * m. */
  lemma OthersPending(st: State, step: Step, m: nat, w: nat, p: int)
    requires Enabled(st, step) && (step.SFit? || step.RLook?)
    requires Placed(st) && HeadChosen(st) && RequestsUpTo(st, m)
    requires Total(ChoicesOn(w), Apply(st, step).threads) <= p
    requires Weigh(ChoicesOn(w), NextPc(st, step)) == 1
    ensures Total(PendingOn(w), st.threads) <= (p - 1) * m
  {
    hide NextPc, Gain, Apply, Enabled, Placed, HeadChosen, RequestsUpTo, Total, Weigh;
    TotalAfter(ChoicesOn(w), st, step);
    ChoiceGain(st, step, w);
    AllPending(st, m, w);
    Scaled(Total(ChoicesOn(w), st.threads), p - 1, m);
  }

  lemma AllPending(st: State, m: nat, w: nat)
    requires Placed(st) && HeadChosen(st) && RequestsUpTo(st, m)
    ensures Total(PendingOn(w), st.threads) <= Total(ChoicesOn(w), st.threads) * m
  {
    hide Placed, HeadChosen, RequestsUpTo, Total, Weigh;
    forall i | 0 <= i < |st.threads| ensures Weigh(PendingOn(w), st.threads[i]) <= m {
      PendingUpTo(st, m, w, i);
    }
    PendingAtMost(st.threads, m, w);
  }

  lemma Scaled(k: int, n: int, m: nat)
    requires k <= n
    ensures k * m <= n * m
  {
  }

  /** A worker's resources minus every decision pending on it. */
  ghost function Margin(st: State, w: nat): int
    requires w < |st.workers|
  {
    st.workers[w].free - Total(PendingOn(w), st.threads)
  }

  /** No worker is overcommitted by more than (p - 1) * m, even after every pending decision has been
      carried out. */
  ghost predicate Bounded(st: State, p: int, m: nat) {
    forall w :: 0 <= w < |st.workers| ==> Margin(st, w) >= -((p - 1) * m)
  }

  /** On no worker are more than p decisions pending. */
  ghost predicate FewPending(st: State, p: int) {
    forall w :: 0 <= w < |st.workers| ==> Total(ChoicesOn(w), st.threads) <= p
  }

  lemma PendingGain(st: State, step: Step, w: nat)
    requires Enabled(st, step) && HeadChosen(st)
    ensures Gain(PendingOn(w), st, step) ==
      if step.Reserve? then -RequestAt(st.threads[step.t], w)
      else Weigh(PendingOn(w), NextPc(st, step)) * One(step.SFit? || step.RLook?)
  {
  }

  /** The cluster is small enough for the C types: maxima are int, and so is the deepest deficit. */
  ghost predicate FitsTypes(st: State, p: int, m: nat) {
    && (forall w :: 0 <= w < |st.workers| ==> st.workers[w].max < TWO_31)
    && (p - 1) * m <= TWO_31
  }

  lemma {:induction false} LoadNonNegative(q: seq<Job>)
    ensures 0 <= Load(q)
  {
    if q != [] {
      LoadNonNegative(q[1..]);
    }
  }

  lemma FreeInRange(st: State, p: int, m: nat, w: nat)
    requires Balanced(st) && Bounded(st, p, m) && FitsTypes(st, p, m) && w < |st.workers|
    ensures IsInt32(Free(st.workers)[w])
    ensures -((p - 1) * m) <= st.workers[w].free <= st.workers[w].max
  {
    assert WorkerBalanced(st, w);
    assert Margin(st, w) >= -((p - 1) * m);
    TotalNonNegative(PendingOn(w), st.threads);
    TotalNonNegative(ReservedOn(w), st.threads);
    LoadNonNegative(st.workers[w].queue);
  }

  /** A decision counts on resources that were there when it was taken. */
  lemma DecisionFits(st: State, p: int, m: nat, value: nat)
    requires Balanced(st) && Bounded(st, p, m) && FitsTypes(st, p, m)
    ensures var b := BestFit(Free(st.workers), value); b == -1 || value <= st.workers[b].free
  {
    forall w | 0 <= w < |st.workers| ensures IsInt32(Free(st.workers)[w]) {
      FreeInRange(st, p, m, w);
    }
    BestFitIsFirstMaximal(Free(st.workers), value);
  }

  lemma MarginStep(st: State, step: Step, p: int, m: nat, w: nat)
    requires Enabled(st, step) && w < |st.workers|
    requires Placed(st) && HeadChosen(st) && Balanced(st) && RequestsUpTo(st, m)
    requires Bounded(st, p, m) && FitsTypes(st, p, m) && FewPending(Apply(st, step), p)
    ensures Margin(Apply(st, step), w) >= -((p - 1) * m)
  {
    assert Margin(st, w) >= -((p - 1) * m);
    TotalAfter(PendingOn(w), st, step);
    PendingGain(st, step, w);
    QueueLoadAfter(st, step, w);
    if (step.SFit? || step.RLook?) && Weigh(ChoicesOn(w), NextPc(st, step)) == 1 {
      OthersPending(st, step, m, w, p);
      var i := Actor(step);
      DecisionFits(st, p, m, if step.SFit? then st.threads[i].j.request else st.waiting[0].request);
    }
  }

  // ----- every run -----

  ghost predicate NoneCrashed(st: State) {
    forall i :: 0 <= i < |st.threads| ==> !st.threads[i].DCrashed?
  }

  lemma NoneCrashedStep(st: State, step: Step)
    requires Enabled(st, step) && Accounted(st) && NoneCrashed(st)
    ensures NoneCrashed(Apply(st, step))
  {
    if step.DDequeue? {
      var w := st.threads[step.d].w;
      assert WorkerAccounted(st, w);
      TotalAtLeast(WokenOn(w), st.threads, step.d);
      TotalNonNegative(PostingTo(w), st.threads);
    }
  }

  ghost predicate Inv(st: State) {
    && WorkersExist(st)
    && OneRescheduler(st)
    && Accounted(st)
    && Balanced(st)
    && Placed(st)
    && HeadChosen(st)
    && NoneCrashed(st)
  }

  lemma InvStep(st: State, step: Step)
    requires Enabled(st, step) && Inv(st)
    ensures Inv(Apply(st, step))
  {
    WorkersExistStep(st, step);
    RolesAfter(st, step);
    AccountedStep(st, step);
    BalancedStep(st, step);
    PlacedStep(st, step);
    HeadChosenStep(st, step);
    NoneCrashedStep(st, step);
  }

  lemma {:induction false} StartsWithout(m: Measure, ts: seq<Pc>, workers: nat)
    requires m != Deciders && m != Rescheduling
    requires forall i :: 0 <= i < |ts| ==> Starting(ts[i], workers)
    ensures Total(m, ts) == 0
  {
    if ts != [] {
      StartsWithout(m, ts[..|ts| - 1], workers);
    }
  }

  lemma {:induction false} NothingQueued(ws: seq<Worker>, j: Job)
    requires forall w :: 0 <= w < |ws| ==> ws[w].queue == []
    ensures Queued(ws, j) == 0
  {
    if ws != [] {
      NothingQueued(ws[..|ws| - 1], j);
    }
  }

  lemma InitInv(st: State)
    requires Init(st)
    ensures Inv(st)
  {
    var n := |st.workers|;
    StartsWithout(WokenSchedulers, st.threads, n);
    StartsWithout(QueuedHandlers, st.threads, n);
    forall w | 0 <= w < n ensures WorkerAccounted(st, w) && WorkerBalanced(st, w) {
      StartsWithout(WokenOn(w), st.threads, n);
      StartsWithout(PostingTo(w), st.threads, n);
      StartsWithout(ReservedOn(w), st.threads, n);
      StartsWithout(JobsOn(w), st.threads, n);
    }
    assert Free(st.workers) == Maxima(st.workers);
    forall j ensures Places(st, j) == One(Admitted(st, j)) {
      NothingQueued(st.workers, j);
      StartsWithout(Holding(j), st.threads, n);
    }
  }

  /** Every reachable state satisfies the invariant. */
  lemma {:induction false} AlwaysInv(s0: State, steps: seq<Step>)
    requires Init(s0) && Runs(s0, steps)
    ensures Inv(Exec(s0, steps))
  {
    if steps == [] {
      InitInv(s0);
    } else {
      var n := |steps| - 1;
      AlwaysInv(s0, steps[..n]);
      InvStep(Exec(s0, steps[..n]), steps[n]);
    }
  }

  // ----- the rescheduler is woken once for every release -----

  ghost function Releases(steps: seq<Step>): nat {
    if steps == [] then 0
    else Releases(steps[..|steps| - 1]) + One(steps[|steps| - 1].Done?)
  }

  ghost function Wakings(steps: seq<Step>): nat {
    if steps == [] then 0
    else Wakings(steps[..|steps| - 1]) + One(steps[|steps| - 1].RWait?)
  }

  lemma FreedGain(st: State, step: Step)
    requires Enabled(st, step)
    ensures Gain(FreedHandlers, st, step) == One(step.Done?) - One(step.PostReschedule?)
    ensures Apply(st, step).reschedule == st.reschedule + One(step.PostReschedule?) - One(step.RWait?)
  {
    hide BestFit, Insert, Schedulable;
  }

  lemma {:induction false} NoneFreed(ts: seq<Pc>)
    requires forall i :: 0 <= i < |ts| ==> !ts[i].HFreed?
    ensures Total(FreedHandlers, ts) == 0
  {
    if ts != [] {
      NoneFreed(ts[..|ts| - 1]);
    }
  }

  /** No waking is lost and none is made up: every release has woken the rescheduler, is still in its
      semaphore, or is about to be posted. */
  lemma {:induction false} ReleasesAreCounted(s0: State, steps: seq<Step>)
    requires Init(s0) && Runs(s0, steps)
    ensures var st := Exec(s0, steps);
      Releases(steps) == Wakings(steps) + st.reschedule + Total(FreedHandlers, st.threads)
  {
    hide Enabled, Apply, Init, Gain, NextPc, Total;
    if steps == [] {
      InitFreed(s0);
    } else {
      var n := |steps| - 1;
      var st := Exec(s0, steps[..n]);
      ReleasesAreCounted(s0, steps[..n]);
      FreedGain(st, steps[n]);
      TotalAfter(FreedHandlers, st, steps[n]);
    }
  }

  lemma InitFreed(s0: State)
    requires Init(s0)
    ensures s0.reschedule == 0 && Total(FreedHandlers, s0.threads) == 0
  {
    NoneFreed(s0.threads);
  }

  /** The two impossible dequeues: a woken scheduler and a woken dispatcher find a job. */
  lemma DequeuesFindAJob(s0: State, steps: seq<Step>, i: nat)
    requires Init(s0) && Runs(s0, steps) && i < |Exec(s0, steps).threads|
    ensures var st := Exec(s0, steps);
      && (st.threads[i].SWoken? ==> st.jobQueue != [])
      && (st.threads[i].DWoken? ==>
           st.threads[i].w < |st.workers| && st.workers[st.threads[i].w].queue != [])
      && !st.threads[i].DCrashed?
  {
    AlwaysInv(s0, steps);
    SchedulerFindsAJob(Exec(s0, steps), i);
    DispatcherFindsAJob(Exec(s0, steps), i);
  }

  lemma SchedulerFindsAJob(st: State, i: nat)
    requires Inv(st) && i < |st.threads|
    ensures st.threads[i].SWoken? ==> st.jobQueue != []
  {
    TotalAtLeast(WokenSchedulers, st.threads, i);
    TotalNonNegative(QueuedHandlers, st.threads);
  }

  lemma DispatcherFindsAJob(st: State, i: nat)
    requires Inv(st) && i < |st.threads|
    ensures st.threads[i].DWoken? ==>
              st.threads[i].w < |st.workers| && st.workers[st.threads[i].w].queue != []
    ensures !st.threads[i].DCrashed?
  {
    if st.threads[i].DWoken? {
      var w := st.threads[i].w;
      assert WorkerOf(st.threads[i]) == w;
      assert WorkerAccounted(st, w);
      TotalAtLeast(WokenOn(w), st.threads, i);
      TotalNonNegative(PostingTo(w), st.threads);
    }
  }

  lemma ExecKeeps(st: State, step: Step)
    requires Enabled(st, step)
    ensures |Apply(st, step).workers| == |st.workers|
    ensures Maxima(Apply(st, step).workers) == Maxima(st.workers)
    ensures st.admitted <= Apply(st, step).admitted
    ensures Total(Deciders, Apply(st, step).threads) == Total(Deciders, st.threads)
  {
    RolesAfter(st, step);
    forall w | 0 <= w < |st.workers| ensures Apply(st, step).workers[w].max == st.workers[w].max {
      QueueLoadAfter(st, step, w);
    }
  }

  lemma SomeDecider(st: State)
    requires OneRescheduler(st)
    ensures Total(Deciders, st.threads) >= 1
  {
    DecidersCoverReschedulers(st.threads);
  }

  lemma {:induction false} DecidersCoverReschedulers(ts: seq<Pc>)
    ensures Total(Rescheduling, ts) <= Total(Deciders, ts)
  {
    if ts != [] {
      DecidersCoverReschedulers(ts[..|ts| - 1]);
    }
  }

  lemma InitBounded(st: State, p: int, m: nat)
    requires Init(st) && 0 < p
    ensures Bounded(st, p, m)
  {
    assert 0 <= (p - 1) * m;
    forall w | 0 <= w < |st.workers| ensures Margin(st, w) >= -((p - 1) * m) {
      StartsWithout(PendingOn(w), st.threads, |st.workers|);
    }
  }

  lemma BoundedStep(st: State, step: Step, p: int, m: nat)
    requires Enabled(st, step) && Inv(st) && RequestsUpTo(st, m) && FewPending(Apply(st, step), p)
    requires Bounded(st, p, m) && FitsTypes(st, p, m)
    ensures Bounded(Apply(st, step), p, m) && FitsTypes(Apply(st, step), p, m)
  {
    var st' := Apply(st, step);
    ExecKeeps(st, step);
    assert Maxima(st'.workers) == Maxima(st.workers);
    forall w | 0 <= w < |st'.workers|
      ensures Margin(st', w) >= -((p - 1) * m) && st'.workers[w].max < TWO_31
    {
      MarginStep(st, step, p, m, w);
      assert st'.workers[w].max == Maxima(st'.workers)[w] == Maxima(st.workers)[w];
    }
  }

  /** In no state of the run are more than p decisions pending on one worker. */
  ghost predicate AlwaysFewPending(s0: State, steps: seq<Step>, p: int)
    requires Runs(s0, steps)
    decreases |steps|
  {
    && FewPending(Exec(s0, steps), p)
    && (steps != [] ==> AlwaysFewPending(s0, steps[..|steps| - 1], p))
  }

  /** Bounded overcommitment in every interleaving. With at most p decisions pending on a worker at a
      time and m the largest admitted request, the free resources of a worker minus all decisions
      pending on it never fall below -(p - 1) * m. */
  lemma {:induction false} PendingBounds(s0: State, steps: seq<Step>, p: int, m: nat)
    requires Init(s0) && Runs(s0, steps) && 0 < p && AlwaysFewPending(s0, steps, p)
    requires FitsTypes(s0, p, m) && RequestsUpTo(Exec(s0, steps), m)
    ensures FitsTypes(Exec(s0, steps), p, m) && Bounded(Exec(s0, steps), p, m)
  {
    if steps == [] {
      InitBounded(s0, p, m);
    } else {
      var n := |steps| - 1;
      var st := Exec(s0, steps[..n]);
      ExecKeeps(st, steps[n]);
      assert forall i :: 0 <= i < |st.admitted| ==> st.admitted[i] == Exec(s0, steps).admitted[i];
      PendingBounds(s0, steps[..n], p, m);
      AlwaysInv(s0, steps[..n]);
      BoundedStep(st, steps[n], p, m);
    }
  }

  /** The same bound on what a worker really has left. */
  lemma FreeBounded(s0: State, steps: seq<Step>, p: int, m: nat, w: nat)
    requires Init(s0) && Runs(s0, steps) && 0 < p && AlwaysFewPending(s0, steps, p)
    requires FitsTypes(s0, p, m) && RequestsUpTo(Exec(s0, steps), m)
    requires w < |Exec(s0, steps).workers|
    ensures var k := Exec(s0, steps).workers[w]; -((p - 1) * m) <= k.free <= k.max
  {
    PendingBounds(s0, steps, p, m);
    AlwaysInv(s0, steps);
    FreeInRange(Exec(s0, steps), p, m, w);
  }

  /** Choosing and reserving one after the other never overcommits a worker, whatever the number of
      deciding threads. */
  lemma SerialisedNeverOvercommits(s0: State, steps: seq<Step>, w: nat)
    requires Init(s0) && Runs(s0, steps) && AlwaysFewPending(s0, steps, 1)
    requires forall k :: 0 <= k < |s0.workers| ==> s0.workers[k].max < TWO_31
    requires w < |Exec(s0, steps).workers|
    ensures 0 <= Exec(s0, steps).workers[w].free
  {
    var m := Largest(Exec(s0, steps).admitted);
    assert FitsTypes(s0, 1, m);
    FreeBounded(s0, steps, 1, m, w);
  }

  ghost function Largest(js: seq<Job>): (m: nat)
    ensures forall i :: 0 <= i < |js| ==> js[i].request <= m
  {
    if js == [] then 0
    else
      var n := |js| - 1;
      var most := Largest(js[..n]);
      if js[n].request > most then js[n].request else most
  }

  lemma {:induction false} ChoicesAreDeciders(ts: seq<Pc>, w: nat)
    ensures Total(ChoicesOn(w), ts) <= Total(Deciders, ts)
  {
    if ts != [] {
      ChoicesAreDeciders(ts[..|ts| - 1], w);
    }
  }

  /** A thread has one decision pending at most. */
  lemma {:induction false} DecidersArePending(s0: State, steps: seq<Step>)
    requires Runs(s0, steps)
    ensures Total(Deciders, Exec(s0, steps).threads) == Total(Deciders, s0.threads)
    ensures AlwaysFewPending(s0, steps, Total(Deciders, s0.threads))
  {
    if steps != [] {
      var n := |steps| - 1;
      DecidersArePending(s0, steps[..n]);
      ExecKeeps(Exec(s0, steps[..n]), steps[n]);
    }
    var st := Exec(s0, steps);
    forall w | 0 <= w < |st.workers| ensures Total(ChoicesOn(w), st.threads) <= Total(Deciders, st.threads) {
      ChoicesAreDeciders(st.threads, w);
    }
  }

  /** So with D deciding threads the bound is -(D - 1) * m, in every interleaving. */
  lemma OvercommitBounded(s0: State, steps: seq<Step>, m: nat)
    requires Init(s0) && Runs(s0, steps)
    requires FitsTypes(s0, Total(Deciders, s0.threads), m) && RequestsUpTo(Exec(s0, steps), m)
    ensures var (st, d) := (Exec(s0, steps), Total(Deciders, s0.threads));
      && Total(Deciders, st.threads) == d && Bounded(st, d, m)
      && forall w :: 0 <= w < |st.workers| ==> -((d - 1) * m) <= st.workers[w].free <= st.workers[w].max
  {
    var st, d := Exec(s0, steps), Total(Deciders, s0.threads);
    DecidersArePending(s0, steps);
    SomeDecider(s0);
    PendingBounds(s0, steps, d, m);
    forall w | 0 <= w < |st.workers| ensures -((d - 1) * m) <= st.workers[w].free <= st.workers[w].max {
      FreeBounded(s0, steps, d, m, w);
    }
  }
}
