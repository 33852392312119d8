/** The scheduling protocol as a transition system: any number of handler, scheduler, dispatcher
    and client threads and one rescheduler, interleaved at the granularity of one step per
    critical section or semaphore operation. */
module Protocol {
  import opened CInts
  import opened PriorityQueue
  import opened Cluster
  import opened Wrappers

  datatype Role = Scheduler | Rescheduler

  /** Where a thread stands and what it has in hand. */
  datatype Pc =
    // handlers: /schedule and /done
    | HIdle
    | HAdmitted(j: Job)            // passed pronto_is_schedulable, not yet in the job queue
    | HQueued                      // in the job queue, sem_post(notify) still to come
    | HFreed                       // capacity freed, sem_post(reschedule) still to come
    // schedulers
    | SIdle
    | SWoken                       // past sem_wait(notify), not yet dequeued
    | SHolding(j: Job)
    | SUnfit(j: Job)               // no worker found, not yet in the waiting queue
    // the rescheduler
    | RIdle
    | RWoken                       // past sem_wait(reschedule), waiting_queue_mutex not yet held
    | RLooking                     // mutex held, at the top of the loop
    | RChosen(v: nat, w: nat)      // worker found for the head, head not yet popped
    | RLeaving                     // about to unlock
    // both deciders, after a worker has been found for the job in hand
    | Decided(role: Role, j: Job, w: nat)
    | Reserved(role: Role, j: Job, w: nat)
    | Queued(role: Role, w: nat)     // in the worker's queue, sem_post still to come
    // dispatchers
    | DIdle(w: nat)
    | DWoken(w: nat)
    | DSending(w: nat, j: Job)
    | DCrashed(w: nat)             // dereferenced the NULL of an empty queue
    // the client's thread for one job
    | CRunning(j: Job, w: nat)
    | CDone(j: Job)
    | CLost(j: Job, w: nat)        // the send or the /done failed: the reservation stays

  datatype Worker = Worker(max: nat, free: int, scheduled: int, queue: seq<Job>, posts: nat)

  datatype State = State(
    threads: seq<Pc>,
    jobQueue: seq<Job>,
    notify: nat,
    waiting: seq<Job>,
    reschedule: nat,
    workers: seq<Worker>,
    capacity: int,
    admitted: seq<Job>)

  function Maxima(ws: seq<Worker>): (r: seq<int>)
    ensures |r| == |ws|
  {
    seq(|ws|, i requires 0 <= i < |ws| => ws[i].max)
  }

  function Free(ws: seq<Worker>): (r: seq<int>)
    ensures |r| == |ws|
  {
    seq(|ws|, i requires 0 <= i < |ws| => ws[i].free)
  }

  // ----- steps -----

  datatype Step =
    | Admit(h: nat, value: int)
    | Enqueue(h: nat)
    | Notify(h: nat)
    | Done(h: nat, c: nat)
    | PostReschedule(h: nat)
    | SWait(s: nat)
    | SDequeue(s: nat)
    | SFit(s: nat)
    | SDefer(s: nat)
    | RWait(r: nat)
    | RLock(r: nat)
    | RLook(r: nat)
    | RPop(r: nat)
    | RUnlock(r: nat)
    | Reserve(t: nat)
    | Queue(t: nat)
    | Post(t: nat)
    | DWait(d: nat)
    | DDequeue(d: nat)
    | DSend(d: nat, ok: bool)
    | CFail(c: nat)

  function Actor(step: Step): nat {
    match step
    case Admit(h, _) => h
    case Enqueue(h) => h
    case Notify(h) => h
    case Done(h, _) => h
    case PostReschedule(h) => h
    case SWait(s) => s
    case SDequeue(s) => s
    case SFit(s) => s
    case SDefer(s) => s
    case RWait(r) => r
    case RLock(r) => r
    case RLook(r) => r
    case RPop(r) => r
    case RUnlock(r) => r
    case Reserve(t) => t
    case Queue(t) => t
    case Post(t) => t
    case DWait(d) => d
    case DDequeue(d) => d
    case DSend(d, _) => d
    case CFail(c) => c
  }

  /** Somebody is inside waiting_queue_mutex for longer than one step. */
  predicate HoldsLock(pc: Pc) {
    || pc.RLooking? || pc.RChosen? || pc.RLeaving?
    || ((pc.Decided? || pc.Reserved? || pc.Queued?) && pc.role.Rescheduler?)
  }

  predicate LockFree(st: State) {
    forall pc :: pc in st.threads ==> !HoldsLock(pc)
  }

  predicate Enabled(st: State, step: Step) {
    && Actor(step) < |st.threads|
    && var pc := st.threads[Actor(step)];
       match step
       case Admit(_, value) => pc.HIdle? && IsInt32(value) && Schedulable(Maxima(st.workers), value)
       case Enqueue(_) => pc.HAdmitted?
       case Notify(_) => pc.HQueued?
       case Done(_, c) => pc.HIdle? && c < |st.threads| && st.threads[c].CRunning? && st.threads[c].w < |st.workers|
       case PostReschedule(_) => pc.HFreed?
       case SWait(_) => pc.SIdle? && st.notify > 0
       case SDequeue(_) => pc.SWoken?
       case SFit(_) => pc.SHolding?
       case SDefer(_) => pc.SUnfit? && LockFree(st)
       case RWait(_) => pc.RIdle? && st.reschedule > 0
       case RLock(_) => pc.RWoken? && LockFree(st)
       case RLook(_) => pc.RLooking?
       case RPop(_) => pc.RChosen? && st.waiting != []
       case RUnlock(_) => pc.RLeaving?
       case Reserve(_) => pc.Decided? && pc.w < |st.workers|
       case Queue(_) => pc.Reserved? && pc.w < |st.workers|
       case Post(_) => pc.Queued? && pc.w < |st.workers|
       case DWait(_) => pc.DIdle? && pc.w < |st.workers| && st.workers[pc.w].posts > 0
       case DDequeue(_) => pc.DWoken? && pc.w < |st.workers|
       case DSend(_, _) => pc.DSending?
       case CFail(_) => pc.CRunning?
  }

  /** Where the acting thread stands after the step. */
  function NextPc(st: State, step: Step): Pc
    requires Enabled(st, step)
  {
    var pc := st.threads[Actor(step)];
    match step
    case Admit(_, value) => HAdmitted(Job(|st.admitted|, ToUint32(value)))
    case Enqueue(_) => HQueued
    case Notify(_) => HIdle
    case Done(_, _) => HFreed
    case PostReschedule(_) => HIdle
    case SWait(_) => SWoken
    case SDequeue(_) => if st.jobQueue == [] then SIdle else SHolding(st.jobQueue[0])
    case SFit(_) =>
      var b := BestFit(Free(st.workers), pc.j.request);
      if b == -1 then SUnfit(pc.j) else Decided(Scheduler, pc.j, b)
    case SDefer(_) => SIdle
    case RWait(_) => RWoken
    case RLock(_) => RLooking
    case RLook(_) =>
      if st.waiting == [] then RLeaving
      else
        var b := BestFit(Free(st.workers), st.waiting[0].request);
        if b == -1 then RLeaving else RChosen(st.waiting[0].request, b)
    case RPop(_) => Decided(Rescheduler, st.waiting[0], pc.w)
    case RUnlock(_) => RIdle
    case Reserve(_) => Reserved(pc.role, pc.j, pc.w)
    case Queue(_) => Queued(pc.role, pc.w)
    case Post(_) => if pc.role.Scheduler? then SIdle else RLooking
    case DWait(_) => DWoken(pc.w)
    case DDequeue(_) =>
      var q := st.workers[pc.w].queue;
      if q == [] then DCrashed(pc.w) else DSending(pc.w, q[0])
    case DSend(_, _) => DIdle(pc.w)
    case CFail(_) => CLost(pc.j, pc.w)
  }

  /** A send starts a client thread; a /done message ends one. */
  function NextThreads(st: State, step: Step): seq<Pc>
    requires Enabled(st, step)
  {
    var ts := st.threads[Actor(step) := NextPc(st, step)];
    match step
    case Done(_, c) => ts[c := CDone(st.threads[c].j)]
    case DSend(d, ok) =>
      var pc := st.threads[d];
      ts + [if ok then CRunning(pc.j, pc.w) else CLost(pc.j, pc.w)]
    case _ => ts
  }

  function NextWorkers(st: State, step: Step): (ws: seq<Worker>)
    requires Enabled(st, step)
    ensures |ws| == |st.workers|
  {
    var ws := st.workers;
    var pc := st.threads[Actor(step)];
    match step
    case Done(_, c) =>
      var (w, v) := (st.threads[c].w, st.threads[c].j.request);
      ws[w := ws[w].(free := ws[w].free + v, scheduled := ws[w].scheduled - 1)]
    case Reserve(_) =>
      ws[pc.w := ws[pc.w].(free := ws[pc.w].free - pc.j.request, scheduled := ws[pc.w].scheduled + 1)]
    case Queue(_) => ws[pc.w := ws[pc.w].(queue := Insert(ws[pc.w].queue, pc.j))]
    case Post(_) => ws[pc.w := ws[pc.w].(posts := ws[pc.w].posts + 1)]
    case DWait(_) => ws[pc.w := ws[pc.w].(posts := ws[pc.w].posts - 1)]
    case DDequeue(_) =>
      var q := ws[pc.w].queue;
      if q == [] then ws else ws[pc.w := ws[pc.w].(queue := q[1..])]
    case _ => ws
  }

  function Apply(st: State, step: Step): State
    requires Enabled(st, step)
  {
    var pc := st.threads[Actor(step)];
    var next := st.(threads := NextThreads(st, step), workers := NextWorkers(st, step));
    match step
    case Admit(_, _) => next.(admitted := st.admitted + [NextPc(st, step).j])
    case Enqueue(_) => next.(jobQueue := Insert(st.jobQueue, pc.j))
    case Notify(_) => next.(notify := st.notify + 1)
    case Done(_, c) => next.(capacity := st.capacity + st.threads[c].j.request)
    case PostReschedule(_) => next.(reschedule := st.reschedule + 1)
    case SWait(_) => next.(notify := st.notify - 1)
    case SDequeue(_) => if st.jobQueue == [] then next else next.(jobQueue := st.jobQueue[1..])
    case SDefer(_) => next.(waiting := Insert(st.waiting, pc.j))
    case RWait(_) => next.(reschedule := st.reschedule - 1)
    case RPop(_) => next.(waiting := st.waiting[1..])
    case Reserve(_) => next.(capacity := st.capacity - pc.j.request)
    case _ => next
  }

  // ----- runs -----

  ghost predicate Starting(pc: Pc, workers: nat) {
    pc.HIdle? || pc.SIdle? || pc.RIdle? || (pc.DIdle? && pc.w < workers)
  }

  ghost predicate Init(st: State) {
    && (forall i :: 0 <= i < |st.threads| ==> Starting(st.threads[i], |st.workers|))
    && Total(Rescheduling, st.threads) == 1
    && st.jobQueue == [] && st.waiting == [] && st.admitted == []
    && st.notify == 0 && st.reschedule == 0
    && (forall w :: 0 <= w < |st.workers| ==>
         st.workers[w] == Worker(st.workers[w].max, st.workers[w].max, 0, [], 0))
    && st.capacity == Sum(Maxima(st.workers))
  }

  /** The steps are taken one after the other, each where it is enabled. */
  ghost predicate Runs(s0: State, steps: seq<Step>)
    decreases |steps|, 0
  {
    if steps == [] then true
    else
      var n := |steps| - 1;
      Runs(s0, steps[..n]) && Enabled(Exec(s0, steps[..n]), steps[n])
  }

  ghost function Exec(s0: State, steps: seq<Step>): State
    requires Runs(s0, steps)
    decreases |steps|, 1
  {
    if steps == [] then s0
    else
      var n := |steps| - 1;
      Apply(Exec(s0, steps[..n]), steps[n])
  }

  // ----- sums over all threads -----

  /** What can be counted or added up over the threads. */
  datatype Measure =
    | Deciders
    | Rescheduling
    | Locking
    | WokenSchedulers
    | QueuedHandlers
    | FreedHandlers
    | WokenOn(worker: nat)
    | PostingTo(worker: nat)
    | ChoicesOn(worker: nat)       // decisions taken but not yet reserved
    | PendingOn(worker: nat)       // their requests
    | ReservedOn(worker: nat)      // requests reserved, outside the worker's queue
    | JobsOn(worker: nat)          // jobs reserved, outside the worker's queue
    | Holding(job: Job)

  predicate IsRescheduler(pc: Pc) {
    || pc.RIdle? || pc.RWoken? || pc.RLooking? || pc.RChosen? || pc.RLeaving?
    || ((pc.Decided? || pc.Reserved? || pc.Queued?) && pc.role.Rescheduler?)
  }

  predicate IsDecider(pc: Pc) {
    IsRescheduler(pc) || pc.SIdle? || pc.SWoken? || pc.SHolding? || pc.SUnfit?
    || pc.Decided? || pc.Reserved? || pc.Queued?
  }

  predicate HasJob(pc: Pc, j: Job) {
    match pc
    case HAdmitted(k) => k == j
    case SHolding(k) => k == j
    case SUnfit(k) => k == j
    case Decided(_, k, _) => k == j
    case Reserved(_, k, _) => k == j
    case DSending(_, k) => k == j
    case CRunning(k, _) => k == j
    case CDone(k) => k == j
    case CLost(k, _) => k == j
    case _ => false
  }

  /** The request that the thread has reserved on worker w and that is in no queue. */
  function ReservedBy(pc: Pc, w: nat): Option<nat> {
    match pc
    case Reserved(_, j, k) => if k == w then Some(j.request) else None
    case DSending(k, j) => if k == w then Some(j.request) else None
    case CRunning(j, k) => if k == w then Some(j.request) else None
    case CLost(j, k) => if k == w then Some(j.request) else None
    case _ => None
  }

  function One(b: bool): int { if b then 1 else 0 }

  function Weigh(m: Measure, pc: Pc): int {
    match m
    case Deciders => One(IsDecider(pc))
    case Rescheduling => One(IsRescheduler(pc))
    case Locking => One(HoldsLock(pc))
    case WokenSchedulers => One(pc.SWoken?)
    case QueuedHandlers => One(pc.HQueued?)
    case FreedHandlers => One(pc.HFreed?)
    case WokenOn(w) => One(pc.DWoken? && pc.w == w)
    case PostingTo(w) => One(pc.Queued? && pc.w == w)
    case ChoicesOn(w) => One((pc.Decided? || pc.RChosen?) && pc.w == w)
    case PendingOn(w) =>
      if pc.Decided? && pc.w == w then pc.j.request
      else if pc.RChosen? && pc.w == w then pc.v
      else 0
    case ReservedOn(w) => if ReservedBy(pc, w).Some? then ReservedBy(pc, w).value else 0
    case JobsOn(w) => One(ReservedBy(pc, w).Some?)
    case Holding(j) => One(HasJob(pc, j))
  }

  function Total(m: Measure, ts: seq<Pc>): int {
    if ts == [] then 0 else Total(m, ts[..|ts| - 1]) + Weigh(m, ts[|ts| - 1])
  }

  lemma {:induction false} TotalUpdate(m: Measure, ts: seq<Pc>, i: nat, pc: Pc)
    requires i < |ts|
    ensures Total(m, ts[i := pc]) == Total(m, ts) - Weigh(m, ts[i]) + Weigh(m, pc)
  {
    var n := |ts| - 1;
    if i < n {
      TotalUpdate(m, ts[..n], i, pc);
      assert ts[i := pc][..n] == ts[..n][i := pc];
    } else {
      assert ts[i := pc][..n] == ts[..n];
    }
  }

  /** What a step adds to a sum: the change of the acting thread and of the client it touches. */
  function Gain(m: Measure, st: State, step: Step): int
    requires Enabled(st, step)
  {
    Weigh(m, NextPc(st, step)) - Weigh(m, st.threads[Actor(step)]) +
    match step
    case Done(_, c) => Weigh(m, CDone(st.threads[c].j)) - Weigh(m, st.threads[c])
    case DSend(d, ok) =>
      var pc := st.threads[d];
      Weigh(m, if ok then CRunning(pc.j, pc.w) else CLost(pc.j, pc.w))
    case _ => 0
  }

  lemma TotalAfter(m: Measure, st: State, step: Step)
    requires Enabled(st, step)
    ensures Total(m, Apply(st, step).threads) == Total(m, st.threads) + Gain(m, st, step)
  {
    var ts := st.threads[Actor(step) := NextPc(st, step)];
    TotalUpdate(m, st.threads, Actor(step), NextPc(st, step));
    match step
    case Done(_, c) => TotalUpdate(m, ts, c, CDone(st.threads[c].j));
    case DSend(_, _) => assert NextThreads(st, step)[..|ts|] == ts;
    case _ =>
  }
}
