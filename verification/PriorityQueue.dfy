/** The linked priority queue of srv/lib/prio_queue.c: a singly linked list with head, tail and
    size, and the ordered sequence of jobs that it refines. */
module PriorityQueue {

  /** A queued job. The C job carries the request alone; the id stands for the identity of its
      node, and ids are handed out in the order in which jobs are admitted. */
  datatype Job = Job(id: nat, request: nat)

  /** Where prio_queue_enqueue puts a job: in front of the first job that is not smaller. */
  function Insert(q: seq<Job>, j: Job): (r: seq<Job>)
    ensures |r| == |q| + 1
  {
    if q == [] || q[0].request >= j.request then [j] + q
    else [q[0]] + Insert(q[1..], j)
  }

  ghost predicate Ascending(q: seq<Job>) {
    forall i, k :: 0 <= i < k < |q| ==> q[i].request <= q[k].request
  }

  /** Ascending, and among equal requests the newer job stands first. */
  ghost predicate Ordered(q: seq<Job>) {
    forall i, k :: 0 <= i < k < |q| ==>
      q[i].request < q[k].request || (q[i].request == q[k].request && q[i].id > q[k].id)
  }

  /** Insertion neither loses nor invents a job. */
  lemma {:induction false} InsertMultiset(q: seq<Job>, j: Job)
    ensures multiset(Insert(q, j)) == multiset(q) + multiset{j}
  {
    if q == [] || q[0].request >= j.request {
    } else {
      InsertMultiset(q[1..], j);
      assert q == [q[0]] + q[1..];
    }
  }

  lemma {:induction false} InsertMembers(q: seq<Job>, j: Job)
    ensures forall x :: x in Insert(q, j) <==> x == j || x in q
  {
    InsertMultiset(q, j);
    forall x ensures x in Insert(q, j) <==> x == j || x in q {
      assert x in multiset(Insert(q, j)) <==> x in multiset(q) + multiset{j};
    }
  }

  lemma {:induction false} InsertAscending(q: seq<Job>, j: Job)
    requires Ascending(q)
    ensures Ascending(Insert(q, j))
  {
    if q == [] || q[0].request >= j.request {
    } else {
      InsertAscending(q[1..], j);
      InsertMembers(q[1..], j);
      var r := Insert(q[1..], j);
      forall k | 0 <= k < |r| ensures q[0].request <= r[k].request {
        assert r[k] in r;
      }
    }
  }

  /** A job newer than everything queued keeps the queue ordered newest-first among equals. */
  lemma {:induction false} InsertOrdered(q: seq<Job>, j: Job)
    requires Ordered(q)
    requires forall x :: x in q ==> x.id < j.id
    ensures Ordered(Insert(q, j))
  {
    if q == [] || q[0].request >= j.request {
    } else {
      InsertOrdered(q[1..], j);
      InsertMembers(q[1..], j);
      var r := Insert(q[1..], j);
      forall k | 0 <= k < |r|
        ensures q[0].request < r[k].request || (q[0].request == r[k].request && q[0].id > r[k].id)
      {
        assert r[k] in r;
      }
    }
  }

  /** The requests in a queue, added up. */
  ghost function Load(q: seq<Job>): int {
    if q == [] then 0 else q[0].request + Load(q[1..])
  }

  lemma {:induction false} LoadInsert(q: seq<Job>, j: Job)
    ensures Load(Insert(q, j)) == Load(q) + j.request
  {
    if q == [] || q[0].request >= j.request {
    } else {
      LoadInsert(q[1..], j);
    }
  }

  /** The position found by walking past the smaller jobs is the position of Insert. */
  lemma {:induction false} InsertAt(q: seq<Job>, j: Job, i: nat)
    requires i <= |q|
    requires forall k :: 0 <= k < i ==> q[k].request < j.request
    requires i == |q| || q[i].request >= j.request
    ensures Insert(q, j) == q[..i] + [j] + q[i..]
  {
    if i > 0 {
      InsertAt(q[1..], j, i - 1);
    }
  }

  /** One operation of a client of the queue. */
  datatype Op = Enqueue(request: nat) | Dequeue

  /** The queue, the jobs enqueued so far and the jobs dequeued so far, oldest first. */
  datatype Trace = Trace(queue: seq<Job>, added: seq<Job>, removed: seq<Job>)

  function Perform(t: Trace, op: Op): Trace {
    match op
    case Enqueue(r) =>
      var j := Job(|t.added|, r);
      Trace(Insert(t.queue, j), t.added + [j], t.removed)
    case Dequeue =>
      if t.queue == [] then t
      else Trace(t.queue[1..], t.added, t.removed + [t.queue[0]])
  }

  function PerformAll(ops: seq<Op>): Trace {
    if ops == [] then Trace([], [], [])
    else Perform(PerformAll(ops[..|ops| - 1]), ops[|ops| - 1])
  }

  /** What every operation keeps: the order of the queue, the bound on its ids, and no job lost. */
  ghost predicate Sound(t: Trace) {
    && Ordered(t.queue)
    && (forall x :: x in t.queue ==> x.id < |t.added|)
    && multiset(t.queue) + multiset(t.removed) == multiset(t.added)
  }

  lemma RestOrdered(q: seq<Job>)
    requires Ordered(q) && q != []
    ensures Ordered(q[1..])
  {
  }

  lemma PerformSound(t: Trace, op: Op)
    requires Sound(t)
    ensures Sound(Perform(t, op))
  {
    hide Insert, Ordered;
    match op
    case Enqueue(r) =>
      var j := Job(|t.added|, r);
      InsertOrdered(t.queue, j);
      InsertMultiset(t.queue, j);
      InsertMembers(t.queue, j);
    case Dequeue =>
      if t.queue != [] {
        assert t.queue == [t.queue[0]] + t.queue[1..];
        RestOrdered(t.queue);
      }
  }

  /** Over any run of operations the queue is ordered and the jobs are conserved. */
  lemma {:induction false} AnyRun(ops: seq<Op>)
    ensures Sound(PerformAll(ops))
  {
    if ops != [] {
      AnyRun(ops[..|ops| - 1]);
      PerformSound(PerformAll(ops[..|ops| - 1]), ops[|ops| - 1]);
    }
  }

  /** What a dequeue hands out after any run: the newest among the smallest requests. */
  lemma {:induction false} DequeueTakesNewestOfSmallest(ops: seq<Op>)
    requires PerformAll(ops).queue != []
    ensures var q := PerformAll(ops).queue;
            forall x :: x in q && x != q[0] ==>
              q[0].request < x.request || (q[0].request == x.request && q[0].id > x.id)
  {
    AnyRun(ops);
  }

  /** How many jobs in front are smaller than the request. */
  ghost function Leading(q: seq<Job>, request: nat): (i: nat)
    ensures i <= |q| && forall k :: 0 <= k < i ==> q[k].request < request
    ensures i < |q| ==> q[i].request >= request
  {
    if q == [] || q[0].request >= request then 0 else 1 + Leading(q[1..], request)
  }

  class Node {
    const value: Job
    var next: Node?

    constructor (value: Job)
      ensures this.value == value && next == null
    {
      this.value := value;
      this.next := null;
    }
  }

  class PrioQueue {
    var size: nat
    var head: Node?
    var tail: Node?
    ghost var nodes: seq<Node>

    ghost predicate Valid()
      reads `size, `head, `tail, `nodes, nodes`next
    {
      && size == |nodes|
      && head == (if nodes == [] then null else nodes[0])
      && tail == (if nodes == [] then null else nodes[|nodes| - 1])
      && (forall i {:trigger nodes[i].next} :: 0 <= i < |nodes| ==>
           nodes[i].next == if i + 1 < |nodes| then nodes[i + 1] else null)
      && (forall i, k :: 0 <= i < k < |nodes| ==> nodes[i] != nodes[k])
    }

    /** The jobs of the list from head to tail. */
    ghost function Contents(): (q: seq<Job>)
      reads `nodes
      ensures |q| == |nodes|
    {
      Values(nodes)
    }

    static ghost function Values(ns: seq<Node>): (q: seq<Job>)
      ensures |q| == |ns|
      ensures forall i :: 0 <= i < |ns| ==> q[i] == ns[i].value
    {
      seq(|ns|, i requires 0 <= i < |ns| => ns[i].value)
    }

    constructor ()
      ensures Valid() && Contents() == [] && nodes == []
    {
      size := 0;
      head := null;
      tail := null;
      nodes := [];
    }

    /** The pointer walk: prev is the last smaller node and curr the one that follows it. */
    method FindPosition(request: nat) returns (prev: Node?, curr: Node?)
      requires Valid()
      ensures var i := Leading(Contents(), request);
        && curr == (if i < |nodes| then nodes[i] else null)
        && prev == (if i > 0 then nodes[i - 1] else null)
    {
      curr, prev := head, null;
      ghost var i := 0;
      while curr != null && curr.value.request < request
        invariant 0 <= i <= |nodes|
        invariant curr == if i < |nodes| then nodes[i] else null
        invariant prev == if i > 0 then nodes[i - 1] else null
        invariant forall k :: 0 <= k < i ==> Contents()[k].request < request
        decreases |nodes| - i
      {
        prev := curr;
        curr := curr.next;
        i := i + 1;
      }
      assert i < |nodes| ==> Contents()[i].request >= request;
    }

    static lemma SplicedValues(was: seq<Node>, el: Node, i: nat)
      requires i == Leading(Values(was), el.value.request)
      ensures Values(was[..i] + [el] + was[i..]) == Insert(Values(was), el.value)
      ensures forall n :: n in was[..i] + [el] + was[i..] <==> n in was || n == el
    {
      InsertAt(Values(was), el.value, i);
      assert Values(was[..i] + [el] + was[i..]) == Values(was)[..i] + [el.value] + Values(was)[i..];
      assert was == was[..i] + was[i..];
    }

    /** The three ways of linking a node into a non-empty list: on top, at the bottom, between. */
    method Link(prev: Node?, curr: Node?, el: Node, ghost i: nat)
      requires Valid() && el !in nodes && nodes != [] && i <= |nodes|
      requires curr == if i < |nodes| then nodes[i] else null
      requires prev == if i > 0 then nodes[i - 1] else null
      modifies `size, `head, `tail, `nodes, nodes`next, el`next
      ensures Valid()
      ensures nodes == old(nodes[..i]) + [el] + old(nodes[i..])
    {
      size := size + 1;
      if prev == null {
        head := el;
        el.next := curr;
        nodes := [el] + nodes;
      } else if curr == null {
        el.next := null;
        tail.next := el;
        tail := el;
        nodes := nodes + [el];
      } else {
        prev.next := el;
        el.next := curr;
        nodes := nodes[..i] + [el] + nodes[i..];
      }
    }

    method Enqueue(el: Node)
      requires Valid() && el !in nodes
      modifies `size, `head, `tail, `nodes, nodes`next, el`next
      ensures Valid()
      ensures Contents() == Insert(old(Contents()), el.value)
      ensures forall n :: n in nodes <==> n in old(nodes) || n == el
    {
      if size == 0 {
        head := el;
        tail := el;
        tail.next := null;
        nodes := [el];
        size := size + 1;
      } else {
        hide Insert, Leading;
        ghost var was, i := nodes, Leading(Contents(), el.value.request);
        var prev, curr := FindPosition(el.value.request);
        SplicedValues(was, el, i);
        Link(prev, curr, el, i);
      }
    }

    method FifoDequeue() returns (node: Node?)
      requires Valid()
      modifies `size, `head, `tail, `nodes
      ensures Valid()
      ensures node == null <==> old(Contents()) == []
      ensures node == null ==> Contents() == []
      ensures node != null ==> node == old(nodes)[0] && node.value == old(Contents())[0] &&
                               Contents() == old(Contents())[1..] && nodes == old(nodes)[1..]
    {
      if size == 0 {
        return null;
      }
      node := head;
      assert node == nodes[0];
      head := head.next;
      size := size - 1;
      nodes := nodes[1..];
      if head == null {
        tail := null;
      }
    }
  }

  // ----- several queues -----

  ghost function NodesOf(queues: seq<PrioQueue>): (ns: set<Node>)
    reads queues`nodes
    ensures forall q :: q in queues ==> forall n :: n in q.nodes ==> n in ns
  {
    set q, n | q in queues && n in q.nodes :: n
  }

  /** Valid queues that share no node. */
  ghost predicate Apart(queues: seq<PrioQueue>)
    reads queues`size, queues`head, queues`tail, queues`nodes, NodesOf(queues)`next
  {
    && (forall q :: q in queues ==> q.Valid())
    && (forall i, k :: 0 <= i < k < |queues| ==> queues[i] != queues[k])
    && (forall q, r :: q in queues && r in queues && q != r ==> Disjoint(q, r))
  }

  ghost predicate Disjoint(q: PrioQueue, r: PrioQueue)
    reads q`nodes, r`nodes
  {
    forall n :: n in q.nodes ==> n !in r.nodes
  }

  /** A job in a node of its own is enqueued in one of the queues. */
  method Put(q: PrioQueue, job: Job, ghost queues: seq<PrioQueue>)
    requires Apart(queues) && q in queues
    modifies q`size, q`head, q`tail, q`nodes, q.nodes`next
    ensures Apart(queues) && fresh(NodesOf(queues) - old(NodesOf(queues)))
    ensures q.Contents() == Insert(old(q.Contents()), job)
    ensures forall r :: r in queues && r != q ==> r.Contents() == old(r.Contents())
  {
    hide Insert;
    assert forall n :: n in q.nodes ==> n in NodesOf(queues);
    var node := new Node(job);
    label before:
    q.Enqueue(node);
    forall r | r in queues ensures r.Valid() {
      if r != q {
        assert old(r.Valid()) && old(Disjoint(r, q)) && old@before(r.Valid());
        assert forall n :: n in r.nodes ==> n !in old(q.nodes) && n != node && n.next == old@before(n.next);
      }
    }
    forall r, t | r in queues && t in queues && r != t ensures Disjoint(r, t) {
      assert old(Disjoint(r, t));
    }
  }

  /** The first job of one of the queues. */
  method Take(q: PrioQueue, ghost queues: seq<PrioQueue>) returns (node: Node?)
    requires Apart(queues) && q in queues
    modifies q`size, q`head, q`tail, q`nodes
    ensures Apart(queues) && NodesOf(queues) <= old(NodesOf(queues))
    ensures node == null <==> old(q.Contents()) == []
    ensures node == null ==> q.Contents() == []
    ensures node != null ==> node.value == old(q.Contents())[0] && q.Contents() == old(q.Contents())[1..]
    ensures forall r :: r in queues && r != q ==> r.Contents() == old(r.Contents())
  {
    node := q.FifoDequeue();
    forall r, t | r in queues && t in queues && r != t ensures Disjoint(r, t) {
      assert old(Disjoint(r, t));
    }
  }
}
