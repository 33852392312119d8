/** The bound on overcommitment is reached: for every number of deciding threads above one and every
    size of the largest job that two workers of that size can take in the C types, there is a run in
    which all of them decide on the same worker at once. */
module ProtocolTight {
  import opened CInts
  import opened PriorityQueue
  import opened Cluster
  import opened Protocol
  import opened ProtocolSafety

  ghost predicate Reaches(s0: State, st: State) {
    exists steps :: Runs(s0, steps) && Exec(s0, steps) == st
  }

  lemma Then(s0: State, st: State, step: Step)
    requires Reaches(s0, st) && Enabled(st, step)
    ensures Reaches(s0, Apply(st, step))
  {
    var steps :| Runs(s0, steps) && Exec(s0, steps) == st;
    var more := steps + [step];
    assert more[..|more| - 1] == steps;
    assert Runs(s0, more) && Exec(s0, more) == Apply(st, step);
  }

  // ----- pieces of a run -----

  lemma SmallIsItself(m: nat)
    requires m < TWO_31
    ensures ToUint32(m) == m && IsInt32(m)
  {
  }

  lemma InsertAlone(j: Job)
    ensures Insert([], j) == [j]
  {
  }

  /** A job of request m arrives through handler 0. */
  lemma Enters(s0: State, st: State, m: nat) returns (st': State)
    requires Reaches(s0, st) && 0 < |st.threads| && st.threads[0] == HIdle
    requires st.jobQueue == [] && st.notify == 0 && m < TWO_31 && Schedulable(Maxima(st.workers), m)
    ensures Reaches(s0, st')
    ensures var j := Job(|st.admitted|, m); st' == st.(jobQueue := [j], notify := 1, admitted := st.admitted + [j])
  {
    hide Schedulable, Maxima, Reaches, BestFit, Insert, ToUint32;
    var j := Job(|st.admitted|, m);
    SmallIsItself(m);
    InsertAlone(j);
    var a := Apply(st, Admit(0, m));
    assert a == st.(threads := st.threads[0 := HAdmitted(j)], admitted := st.admitted + [j]);
    Then(s0, st, Admit(0, m));
    var b := Apply(a, Step.Enqueue(0));
    assert b == a.(threads := st.threads[0 := HQueued], jobQueue := [j]);
    Then(s0, a, Step.Enqueue(0));
    st' := Apply(b, Notify(0));
    assert st'.threads == st.threads;
    Then(s0, b, Notify(0));
  }

  /** And it is taken up by scheduler s. */
  lemma Arrives(s0: State, st: State, s: nat, m: nat) returns (st': State)
    requires Reaches(s0, st) && 0 < s < |st.threads| && st.threads[0] == HIdle && st.threads[s] == SIdle
    requires st.jobQueue == [] && st.notify == 0 && m < TWO_31 && Schedulable(Maxima(st.workers), m)
    ensures Reaches(s0, st')
    ensures var j := Job(|st.admitted|, m);
            st' == st.(threads := st.threads[s := SHolding(j)], admitted := st.admitted + [j])
  {
    hide Schedulable, Maxima, Reaches, BestFit, Insert;
    var c := Enters(s0, st, m);
    var d := Apply(c, SWait(s));
    Then(s0, c, SWait(s));
    st' := Apply(d, SDequeue(s));
    Then(s0, d, SDequeue(s));
    assert st'.threads == st.threads[s := SHolding(c.jobQueue[0])];
    assert st'.jobQueue == [];
  }

  /** The scheduler looks for a worker. */
  lemma Decides(s0: State, st: State, s: nat) returns (st': State)
    requires Reaches(s0, st) && s < |st.threads| && st.threads[s].SHolding?
    ensures Reaches(s0, st')
    ensures var j := st.threads[s].j;
            var b := BestFit(Free(st.workers), j.request);
            st' == st.(threads := st.threads[s := if b == -1 then SUnfit(j) else Decided(Scheduler, j, b)])
  {
    hide Reaches, BestFit;
    st' := Apply(st, SFit(s));
    Then(s0, st, SFit(s));
  }

  /** The decision is carried out: the job is reserved, queued and sent to the client. */
  lemma Delivers(s0: State, st: State, s: nat, w: nat, d: nat) returns (st': State)
    requires Reaches(s0, st) && s < |st.threads| && d < |st.threads| && w < |st.workers|
    requires st.threads[s].Decided? && st.threads[s].role == Scheduler && st.threads[s].w == w
    requires st.threads[d] == DIdle(w) && st.workers[w].queue == [] && st.workers[w].posts == 0
    ensures Reaches(s0, st')
    ensures var (j, k) := (st.threads[s].j, st.workers[w]);
      st' == st.(threads := st.threads[s := SIdle] + [CRunning(j, w)],
                 workers := st.workers[w := k.(free := k.free - j.request, scheduled := k.scheduled + 1)],
                 capacity := st.capacity - j.request)
  {
    hide Reaches, BestFit, Insert;
    var (j, k) := (st.threads[s].j, st.workers[w]);
    var taken := k.(free := k.free - j.request, scheduled := k.scheduled + 1);
    InsertAlone(j);
    var a := Apply(st, Reserve(s));
    assert a.workers == st.workers[w := taken];
    Then(s0, st, Reserve(s));
    var b := Apply(a, Queue(s));
    assert b.workers == st.workers[w := taken.(queue := [j])];
    Then(s0, a, Queue(s));
    var c := Apply(b, Post(s));
    assert c.workers == st.workers[w := taken.(queue := [j], posts := 1)];
    assert c.threads == st.threads[s := SIdle];
    Then(s0, b, Post(s));
    st' := Sends(s0, c, w, d, j);
    assert st'.workers == st.workers[w := taken];
  }

  /** The dispatcher takes the only job of its queue. */
  lemma TakesUp(s0: State, st: State, w: nat, d: nat, j: Job) returns (st': State)
    requires Reaches(s0, st) && d < |st.threads| && w < |st.workers|
    requires st.threads[d] == DIdle(w) && st.workers[w].queue == [j] && st.workers[w].posts == 1
    ensures Reaches(s0, st')
    ensures st' == st.(threads := st.threads[d := DSending(w, j)],
                       workers := st.workers[w := st.workers[w].(queue := [], posts := 0)])
  {
    hide Reaches, BestFit;
    var k := st.workers[w];
    var a := Apply(st, DWait(d));
    assert a.workers == st.workers[w := k.(posts := 0)];
    Then(s0, st, DWait(d));
    st' := Apply(a, DDequeue(d));
    assert [j][1..] == [];
    assert st'.workers == st.workers[w := k.(queue := [], posts := 0)];
    Then(s0, a, DDequeue(d));
  }

  /** And sends it. */
  lemma Sends(s0: State, st: State, w: nat, d: nat, j: Job) returns (st': State)
    requires Reaches(s0, st) && d < |st.threads| && w < |st.workers|
    requires st.threads[d] == DIdle(w) && st.workers[w].queue == [j] && st.workers[w].posts == 1
    ensures Reaches(s0, st')
    ensures st' == st.(threads := st.threads + [CRunning(j, w)],
                       workers := st.workers[w := st.workers[w].(queue := [], posts := 0)])
  {
    hide Reaches, BestFit;
    var b := TakesUp(s0, st, w, d, j);
    st' := Apply(b, DSend(d, true));
    Then(s0, b, DSend(d, true));
    assert st'.threads == st.threads + [CRunning(j, w)];
  }

  /** A job that fits nowhere goes to the waiting queue. */
  lemma Defers(s0: State, st: State, s: nat) returns (st': State)
    requires Reaches(s0, st) && s < |st.threads| && st.threads[s].SUnfit? && LockFree(st) && st.waiting == []
    ensures Reaches(s0, st')
    ensures st' == st.(threads := st.threads[s := SIdle], waiting := [st.threads[s].j])
  {
    hide Reaches, LockFree, BestFit;
    st' := Apply(st, SDefer(s));
    Then(s0, st, SDefer(s));
  }

  /** The job of client c is done. */
  lemma Frees(s0: State, st: State, c: nat) returns (st': State)
    requires Reaches(s0, st) && 0 < c < |st.threads| && st.threads[0] == HIdle
    requires st.threads[c].CRunning? && st.threads[c].w < |st.workers|
    ensures Reaches(s0, st')
    ensures var (j, w) := (st.threads[c].j, st.threads[c].w);
      st' == st.(threads := st.threads[c := CDone(j)], reschedule := st.reschedule + 1,
                 workers := st.workers[w := st.workers[w].(free := st.workers[w].free + j.request,
                                                           scheduled := st.workers[w].scheduled - 1)],
                 capacity := st.capacity + j.request)
  {
    hide Reaches, BestFit;
    var a := Apply(st, Done(0, c));
    Then(s0, st, Done(0, c));
    st' := Apply(a, PostReschedule(0));
    assert st'.threads == st.threads[c := CDone(st.threads[c].j)];
    Then(s0, a, PostReschedule(0));
  }

  /** The rescheduler r looks for a worker for the head of the waiting queue. */
  lemma Looks(s0: State, st: State, r: nat) returns (st': State)
    requires Reaches(s0, st) && r < |st.threads| && st.threads[r] == RIdle
    requires st.reschedule == 1 && LockFree(st) && st.waiting != []
    ensures Reaches(s0, st')
    ensures var b := BestFit(Free(st.workers), st.waiting[0].request);
      st' == st.(threads := st.threads[r := if b == -1 then RLeaving else RChosen(st.waiting[0].request, b)],
                 reschedule := 0)
  {
    hide Reaches, BestFit;
    var a := Apply(st, RWait(r));
    Then(s0, st, RWait(r));
    assert LockFree(a) by {
      forall pc | pc in a.threads ensures !HoldsLock(pc) {
        var i :| 0 <= i < |a.threads| && a.threads[i] == pc;
        assert st.threads[i] in st.threads;
      }
    }
    var b := Apply(a, RLock(r));
    Then(s0, a, RLock(r));
    st' := Apply(b, RLook(r));
    Then(s0, b, RLook(r));
  }

  // ----- the run -----

  /** One handler, the rescheduler, two workers of the same size, their dispatchers, and some
      schedulers. */
  function Start(schedulers: nat, m: nat): State {
    State([HIdle, RIdle, DIdle(0), DIdle(1)] + seq(schedulers, _ => SIdle), [], 0, [], 0,
          [Worker(m, m, 0, [], 0), Worker(m, m, 0, [], 0)], 2 * m, [])
  }

  lemma {:induction false} IdleSchedulers(x: Measure, ts: seq<Pc>, n: nat)
    ensures Total(x, ts + seq(n, _ => SIdle)) == Total(x, ts) + n * Weigh(x, SIdle)
  {
    var idle := seq(n, _ => SIdle);
    if n == 0 {
      assert ts + idle == ts;
    } else {
      IdleSchedulers(x, ts, n - 1);
      assert (ts + idle)[..|ts| + n - 1] == ts + seq(n - 1, _ => SIdle);
      assert n * Weigh(x, SIdle) == (n - 1) * Weigh(x, SIdle) + Weigh(x, SIdle);
    }
  }

  lemma OneThread(x: Measure, ts: seq<Pc>, pc: Pc)
    ensures Total(x, ts + [pc]) == Total(x, ts) + Weigh(x, pc)
  {
    assert (ts + [pc])[..|ts|] == ts;
  }

  lemma StartTotal(x: Measure, schedulers: nat, m: nat)
    ensures Total(x, Start(schedulers, m).threads) ==
            Weigh(x, HIdle) + Weigh(x, RIdle) + Weigh(x, DIdle(0)) + Weigh(x, DIdle(1)) + schedulers * Weigh(x, SIdle)
  {
    OneThread(x, [], HIdle);
    OneThread(x, [HIdle], RIdle);
    OneThread(x, [HIdle, RIdle], DIdle(0));
    OneThread(x, [HIdle, RIdle, DIdle(0)], DIdle(1));
    assert [] + [HIdle] == [HIdle] && [HIdle] + [RIdle] == [HIdle, RIdle];
    assert [HIdle, RIdle] + [DIdle(0)] == [HIdle, RIdle, DIdle(0)];
    assert [HIdle, RIdle, DIdle(0)] + [DIdle(1)] == [HIdle, RIdle, DIdle(0), DIdle(1)];
    IdleSchedulers(x, [HIdle, RIdle, DIdle(0), DIdle(1)], schedulers);
  }

  lemma SumOfTwo(x: int, y: int)
    ensures Sum([x, y]) == x + y
  {
    assert [x, y][..1] == [x] && [x][..0] == [];
    assert Sum([x]) == x;
  }

  lemma StartIsInit(schedulers: nat, m: nat)
    ensures Init(Start(schedulers, m))
    ensures Total(Deciders, Start(schedulers, m).threads) == schedulers + 1
  {
    StartTotal(Rescheduling, schedulers, m);
    StartTotal(Deciders, schedulers, m);
    SumOfTwo(m, m);
    assert Maxima(Start(schedulers, m).workers) == [m, m];
  }

  /** The choice between two workers. */
  lemma PairFits(x: nat, y: nat, m: nat)
    requires 0 < m && x <= m && y <= m && 2 * m < TWO_31
    ensures x == m ==> BestFit([x, y], m) == 0
    ensures x == 0 && y == m ==> BestFit([x, y], m) == 1
    ensures x == 0 && y == 0 ==> BestFit([x, y], m) == -1
  {
    var ts := [x, y];
    SumOfTwo(x, y);
    BestFitChooses(ts, m);
    assert NoneFits(ts, m) <==> ts[0] < m && ts[1] < m;
    assert ts[0] == x && ts[1] == y;
  }

  lemma PairAdmits(m: nat)
    requires 0 < m && 2 * m < TWO_31
    ensures Schedulable([m, m], m)
  {
    SumOfTwo(m, m);
    NarrowingUndoesWrapping(2 * m);
    assert ToInt32(2 * m) == 2 * m && ToUint64(m) <= [m, m][0];
  }

  const FIRST: nat := 4   // the first scheduler

  /** The schedulers up to k have chosen the first worker, and so has the rescheduler before them. */
  ghost predicate Crowd(st: State, schedulers: nat, m: nat, k: nat) {
    && k <= schedulers && |st.threads| == FIRST + schedulers + 2
    && st.threads[0] == HIdle && st.threads[1] == RChosen(m, 0)
    && (forall i :: FIRST <= i < FIRST + k ==>
          st.threads[i].Decided? && st.threads[i].w == 0 && st.threads[i].j.request == m)
    && (forall i :: FIRST + k <= i < FIRST + schedulers ==> st.threads[i] == SIdle)
    && Total(PendingOn(0), st.threads) == (k + 1) * m
    && st.workers == [Worker(m, m, 0, [], 0), Worker(m, 0, 1, [], 0)] && st.jobQueue == [] && st.notify == 0
    && |st.waiting| == 1 && st.waiting[0].request == m
    && (forall i :: 0 <= i < |st.admitted| ==> st.admitted[i].request == m)
  }

  lemma Nothing(s0: State)
    ensures Reaches(s0, s0)
  {
    assert Runs(s0, []) && Exec(s0, []) == s0;
  }

  /** A job that fits worker w runs there. */
  lemma JobRuns(s0: State, st: State, m: nat, w: nat, d: nat) returns (st': State)
    requires Reaches(s0, st) && FIRST < |st.threads| && st.threads[0] == HIdle && st.threads[FIRST] == SIdle
    requires st.jobQueue == [] && st.notify == 0 && m < TWO_31 && Schedulable(Maxima(st.workers), m)
    requires w < |st.workers| && BestFit(Free(st.workers), m) == w
    requires d < |st.threads| && st.threads[d] == DIdle(w) && st.workers[w].queue == [] && st.workers[w].posts == 0
    ensures Reaches(s0, st')
    ensures var (j, k) := (Job(|st.admitted|, m), st.workers[w]);
      st' == st.(threads := st.threads + [CRunning(j, w)], admitted := st.admitted + [j],
                 workers := st.workers[w := k.(free := k.free - m, scheduled := k.scheduled + 1)],
                 capacity := st.capacity - m)
  {
    hide Reaches, BestFit, Schedulable, Maxima;
    var a := Arrives(s0, st, FIRST, m);
    var b := Decides(s0, a, FIRST);
    st' := Delivers(s0, b, FIRST, w, d);
    assert st'.threads == st.threads + [CRunning(Job(|st.admitted|, m), w)];
  }

  /** The first two jobs fill both workers. */
  lemma BothFilled(schedulers: nat, m: nat) returns (st: State)
    requires schedulers > 0 && 0 < m && 2 * m < TWO_31
    ensures var s0, j, k := Start(schedulers, m), Job(0, m), Job(1, m);
      && Reaches(s0, st)
      && st == s0.(threads := s0.threads + [CRunning(j, 0), CRunning(k, 1)], capacity := 0,
                   workers := [Worker(m, 0, 1, [], 0), Worker(m, 0, 1, [], 0)], admitted := [j, k])
  {
    hide Reaches, BestFit, Schedulable;
    var s0 := Start(schedulers, m);
    Nothing(s0);
    PairFits(m, m, m);
    PairFits(0, m, m);
    PairAdmits(m);
    assert Maxima(s0.workers) == [m, m] && Free(s0.workers) == [m, m];
    st := JobRuns(s0, s0, m, 0, 2);
    assert Maxima(st.workers) == [m, m] && Free(st.workers) == [0, m];
    st := JobRuns(s0, st, m, 1, 3);
    assert st.threads == s0.threads + [CRunning(Job(0, m), 0), CRunning(Job(1, m), 1)];
  }

  /** A third job has to wait. */
  lemma ThirdWaits(schedulers: nat, m: nat) returns (st: State)
    requires schedulers > 0 && 0 < m && 2 * m < TWO_31
    ensures var (s0, i, j, k) := (Start(schedulers, m), Job(0, m), Job(1, m), Job(2, m));
      && Reaches(s0, st)
      && st == s0.(threads := s0.threads + [CRunning(i, 0), CRunning(j, 1)], capacity := 0, waiting := [k],
                   workers := [Worker(m, 0, 1, [], 0), Worker(m, 0, 1, [], 0)], admitted := [i, j, k])
  {
    hide Reaches, BestFit, Schedulable;
    PairFits(0, 0, m);
    PairAdmits(m);
    var before := BothFilled(schedulers, m);
    assert Maxima(before.workers) == [m, m] && Free(before.workers) == [0, 0];
    st := Arrives(Start(schedulers, m), before, FIRST, m);
    st := Decides(Start(schedulers, m), st, FIRST);
    assert LockFree(st);
    st := Defers(Start(schedulers, m), st, FIRST);
    assert st.threads == before.threads;
  }

  /** When the first is done, the rescheduler chooses its worker for the third. */
  lemma FirstIsDone(schedulers: nat, m: nat) returns (st: State)
    requires schedulers > 0 && 0 < m && 2 * m < TWO_31
    ensures var (s0, i, j, k) := (Start(schedulers, m), Job(0, m), Job(1, m), Job(2, m));
      && Reaches(s0, st)
      && st == s0.(threads := s0.threads[1 := RChosen(m, 0)] + [CDone(i), CRunning(j, 1)],
                   capacity := m, waiting := [k],
                   workers := [Worker(m, m, 0, [], 0), Worker(m, 0, 1, [], 0)], admitted := [i, j, k])
  {
    hide Reaches, BestFit, Schedulable, LockFree;
    var s0 := Start(schedulers, m);
    var before := ThirdWaits(schedulers, m);
    var freed := Frees(s0, before, FIRST + schedulers);
    assert freed.threads == s0.threads + [CDone(Job(0, m)), CRunning(Job(1, m), 1)];
    NobodyLocks(schedulers, m, freed);
    PairFits(m, 0, m);
    assert Free(freed.workers) == [m, 0];
    st := Looks(s0, freed, 1);
    assert st.threads == s0.threads[1 := RChosen(m, 0)] + [CDone(Job(0, m)), CRunning(Job(1, m), 1)];
  }

  lemma NobodyLocks(schedulers: nat, m: nat, st: State)
    requires st.threads == Start(schedulers, m).threads + [CDone(Job(0, m)), CRunning(Job(1, m), 1)]
    ensures LockFree(st)
  {
  }

  /** So far it alone has chosen. */
  lemma FirstChoice(schedulers: nat, m: nat) returns (st: State)
    requires schedulers > 0 && 0 < m && 2 * m < TWO_31
    ensures Reaches(Start(schedulers, m), st) && Crowd(st, schedulers, m, 0)
  {
    hide Reaches;
    st := FirstIsDone(schedulers, m);
    StartTotal(PendingOn(0), schedulers, m);
    ChosenTotal(Start(schedulers, m).threads, m, Job(0, m), Job(1, m), st.threads);
  }

  lemma ChosenTotal(ts: seq<Pc>, m: nat, j: Job, k: Job, us: seq<Pc>)
    requires |ts| > 1 && ts[1] == RIdle && Total(PendingOn(0), ts) == 0
    requires us == ts[1 := RChosen(m, 0)] + [CDone(j), CRunning(k, 1)]
    ensures Total(PendingOn(0), us) == m
  {
    var chosen := ts[1 := RChosen(m, 0)];
    TotalUpdate(PendingOn(0), ts, 1, RChosen(m, 0));
    OneThread(PendingOn(0), chosen, CDone(j));
    OneThread(PendingOn(0), chosen + [CDone(j)], CRunning(k, 1));
    assert us == chosen + [CDone(j)] + [CRunning(k, 1)];
  }

  /** While its choice is pending, one scheduler after the other chooses the same worker. */
  lemma {:induction false} AllChoose(s0: State, st: State, schedulers: nat, m: nat, k: nat) returns (st': State)
    requires Reaches(s0, st) && Crowd(st, schedulers, m, k) && 0 < m && 2 * m < TWO_31
    ensures Reaches(s0, st') && Crowd(st', schedulers, m, schedulers)
    decreases schedulers - k
  {
    st' := st;
    if k < schedulers {
      st' := OneChooses(s0, st, schedulers, m, k);
      hide Reaches, Crowd;
      st' := AllChoose(s0, st', schedulers, m, k + 1);
    }
  }

  lemma OneChooses(s0: State, st: State, schedulers: nat, m: nat, k: nat) returns (st': State)
    requires Reaches(s0, st) && Crowd(st, schedulers, m, k) && k < schedulers && 0 < m && 2 * m < TWO_31
    ensures Reaches(s0, st') && Crowd(st', schedulers, m, k + 1)
  {
    hide Reaches, BestFit, Schedulable;
    PairFits(m, 0, m);
    PairAdmits(m);
    assert Maxima(st.workers) == [m, m] && Free(st.workers) == [m, 0];
    var a := Arrives(s0, st, FIRST + k, m);
    st' := Decides(s0, a, FIRST + k);
    var pc := Decided(Scheduler, Job(|st.admitted|, m), 0);
    assert st'.threads == st.threads[FIRST + k := pc];
    TotalUpdate(PendingOn(0), st.threads, FIRST + k, pc);
    assert (k + 2) * m == (k + 1) * m + m;
  }

  /** Decisions carried out by the rescheduler and by the schedulers up to k. */
  ghost predicate CarriedOut(st: State, schedulers: nat, m: nat, k: nat) {
    && k <= schedulers && |st.threads| == FIRST + schedulers + 2 && |st.workers| == 2
    && (forall i :: FIRST + k <= i < FIRST + schedulers ==>
          st.threads[i].Decided? && st.threads[i].w == 0 && st.threads[i].j.request == m)
    && st.workers[0].free == -(k * m)
    && (forall i :: 0 <= i < |st.admitted| ==> st.admitted[i].request == m)
  }

  lemma ReschedulerReserves(s0: State, st: State, schedulers: nat, m: nat) returns (st': State)
    requires Reaches(s0, st) && Crowd(st, schedulers, m, schedulers)
    ensures Reaches(s0, st') && CarriedOut(st', schedulers, m, 0)
  {
    hide Reaches;
    var a := Apply(st, RPop(1));
    Then(s0, st, RPop(1));
    st' := Apply(a, Reserve(1));
    Then(s0, a, Reserve(1));
  }

  lemma {:induction false} AllReserve(s0: State, st: State, schedulers: nat, m: nat, k: nat) returns (st': State)
    requires Reaches(s0, st) && CarriedOut(st, schedulers, m, k)
    ensures Reaches(s0, st') && CarriedOut(st', schedulers, m, schedulers)
    decreases schedulers - k
  {
    st' := st;
    if k < schedulers {
      hide Reaches;
      var a := Apply(st, Reserve(FIRST + k));
      Then(s0, st, Reserve(FIRST + k));
      assert (k + 1) * m == k * m + m;
      st' := AllReserve(s0, a, schedulers, m, k + 1);
    }
  }

  /** The bound of OvercommitBounded is reached, for any number of deciding threads above one and any
      size m of the largest job with 2 * m below 2 to the 31st; and the worker's resources then really
      fall to it. */
  lemma BoundIsReached(deciders: nat, m: nat) returns (s0: State, choices: seq<Step>, reservations: seq<Step>)
    requires deciders > 1 && 0 < m && 2 * m < TWO_31
    ensures Init(s0) && Total(Deciders, s0.threads) == deciders && |s0.workers| > 0
    ensures Runs(s0, choices) && RequestsUpTo(Exec(s0, choices), m)
    ensures |Exec(s0, choices).workers| > 0 && Margin(Exec(s0, choices), 0) == -((deciders - 1) * m)
    ensures Runs(s0, reservations) && RequestsUpTo(Exec(s0, reservations), m)
    ensures |Exec(s0, reservations).workers| > 0
    ensures Exec(s0, reservations).workers[0].free == -((deciders - 1) * m)
  {
    var schedulers := deciders - 1;
    s0 := Start(schedulers, m);
    StartIsInit(schedulers, m);
    var a := FirstChoice(schedulers, m);
    var b := AllChoose(s0, a, schedulers, m, 0);
    choices :| Runs(s0, choices) && Exec(s0, choices) == b;
    assert (schedulers + 1) * m == schedulers * m + m;
    var c := ReschedulerReserves(s0, b, schedulers, m);
    var d := AllReserve(s0, c, schedulers, m, 0);
    reservations :| Runs(s0, reservations) && Exec(s0, reservations) == d;
  }
}
