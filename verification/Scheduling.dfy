/** The per-CPU scheduler as a value: a run queue ordered by virtual run time, a time slice and the
    effect of a clock tick, of schedule and of a fork. The class in module TaskScheduler carries the
    operations out in place. */
module Scheduling {

  /** Virtual run time of the queue head, which no task exceeds. */
  const SENTINEL := 0x7fff_ffff_ffff_ffff

  /** The longest time slice init_timeslice hands out, and the fairness bound. */
  const LONGEST_SLICE := 12

  /** The part of `struct task_struct` the scheduler uses; `need` is the NEED_SCHEDULE flag. */
  datatype Task = Task(running: bool, need: bool, priority: int, vruntime: int)

  /** One CPU: the task table, the run queue in order, the running task, the idle task, the
      remaining slice (CPU_exec_task_jiffies) and running_task_count. Tasks are named by their place
      in the table. */
  datatype Cpu = Cpu(tasks: seq<Task>, queue: seq<nat>, current: nat, idle: nat, slice: int, count: int)

  function V(c: Cpu, t: nat): int
    requires t < |c.tasks|
  {
    c.tasks[t].vruntime
  }

  /** What a tick costs: one for priorities 0 and 1, two for all others. */
  function Cost(priority: int): int {
    if priority == 0 || priority == 1 then 1 else 2
  }

  // ---------------------------------------------------------------- well-formedness

  predicate Placed(c: Cpu, t: nat) {
    t < |c.tasks| && c.tasks[t].vruntime <= SENTINEL
  }

  predicate Distinct(q: seq<nat>) {
    forall i, j :: 0 <= i < j < |q| ==> q[i] != q[j]
  }

  predicate AllPlaced(c: Cpu) {
    forall t :: t in c.queue ==> Placed(c, t)
  }

  predicate Sorted(c: Cpu)
    requires AllPlaced(c)
  {
    forall i, j :: 0 <= i < j < |c.queue| ==>
      Placed(c, c.queue[i]) && Placed(c, c.queue[j]) && V(c, c.queue[i]) <= V(c, c.queue[j])
  }

  /** The state invariant: the queue is sorted and holds every runnable task except the running one,
      each once; the idle task is never queued; the count is one more than the queue. */
  ghost predicate Sound(c: Cpu) {
    && Placed(c, c.current) && QueueOk(c)
    && (forall t :: t in c.queue ==> Waiting(c, t))
    && (forall t: nat :: t < |c.tasks| && c.tasks[t].running && t != c.current && t != c.idle ==> t in c.queue)
  }

  predicate Waiting(c: Cpu, t: nat) {
    t < |c.tasks| && t != c.current && t != c.idle && c.tasks[t].running
  }

  /** The task on the CPU has not gone to sleep. */
  predicate Awake(c: Cpu) {
    c.current < |c.tasks| && c.tasks[c.current].running
  }

  /** No queued task is behind t. */
  predicate Leads(c: Cpu, t: nat) {
    forall x :: x in c.queue ==> x < |c.tasks| && t < |c.tasks| && V(c, t) <= V(c, x)
  }

  /** The queue without the demand that everything runnable is in it: the state inside schedule. */
  ghost predicate QueueOk(c: Cpu) {
    && Placed(c, c.idle)
    && AllPlaced(c) && c.idle !in c.queue
    && Distinct(c.queue) && Sorted(c) && c.count == 1 + |c.queue|
  }

  // ---------------------------------------------------------------- operations

  /** update_cur_runtime */
  function UpdateCurRuntime(c: Cpu): Cpu
    requires c.current < |c.tasks|
  {
    var t := c.tasks[c.current];
    var slice := c.slice - Cost(t.priority);
    c.(slice := slice,
       tasks := c.tasks[c.current := t.(vruntime := t.vruntime + Cost(t.priority), need := t.need || slice <= 0)])
  }

  /** pick_next_task */
  function PickNext(c: Cpu): (Cpu, nat) {
    if c.queue == [] then (c, c.idle) else (c.(queue := c.queue[1..], count := c.count - 1), c.queue[0])
  }

  /** Where enqueue_task inserts: in front of the first task that is not behind v. */
  function Position(c: Cpu, k: nat, v: int): (r: nat)
    requires k <= |c.queue| && AllPlaced(c)
    ensures k <= r <= |c.queue|
    decreases |c.queue| - k
  {
    if k < |c.queue| && Placed(c, c.queue[k]) && V(c, c.queue[k]) < v then Position(c, k + 1, v) else k
  }

  /** enqueue_task */
  function Enqueue(c: Cpu, t: nat): Cpu
    requires t < |c.tasks| && AllPlaced(c)
  {
    if t == c.idle then c
    else c.(queue := Inserted(c.queue, Position(c, 0, V(c, t)), t), count := c.count + 1)
  }

  /** list_add_to_before at place k. */
  function Inserted(q: seq<nat>, k: nat, t: nat): (r: seq<nat>)
    requires k <= |q|
    ensures |r| == |q| + 1 && r[k] == t
    ensures forall i :: 0 <= i < k ==> r[i] == q[i]
    ensures forall i :: k < i < |r| ==> r[i] == q[i - 1]
  {
    q[..k] + [t] + q[k..]
  }

  /** init_timeslice: a new slice only when the old one ended at exactly zero. */
  function InitTimeslice(c: Cpu, t: nat): Cpu
    requires t < |c.tasks| && c.count > 0
  {
    if c.slice != 0 then c
    else if Cost(c.tasks[t].priority) == 1 then c.(slice := 4 / c.count)
    else c.(slice := 4 / c.count * 3)
  }

  /** schedule */
  function Schedule(c: Cpu): Cpu
    requires QueueOk(c) && c.current < |c.tasks|
  {
    var c0 := c.(tasks := c.tasks[c.current := c.tasks[c.current].(need := false)]);
    SchedulePlaced(c, c0);
    var (c1, next) := PickNext(c0);
    if V(c1, c.current) >= V(c1, next) then
      var c2 := if c1.tasks[c.current].running then Enqueue(c1, c.current) else c1;
      InitTimeslice(c2, next).(current := next)
    else
      InitTimeslice(Enqueue(c1, next), c.current)
  }

  lemma SchedulePlaced(c: Cpu, c0: Cpu)
    requires QueueOk(c) && c.current < |c.tasks|
    requires c0 == c.(tasks := c.tasks[c.current := c.tasks[c.current].(need := false)])
    ensures var (c1, next) := PickNext(c0);
      next < |c.tasks| && AllPlaced(c1) && c1.tasks == c0.tasks && c1.count >= 1 && c1.current == c.current
  {
    assert forall t :: t in c.queue ==> Placed(c, t);
    if c.queue != [] {
      assert c.queue[0] in c.queue;
      var c1 := PickNext(c0).0;
      forall t | t in c1.queue
        ensures Placed(c1, t)
      {
        assert t in c.queue;
      }
    }
  }

  /** do_fork: the child is a runnable copy of its parent with priority 2, queued at once. */
  function Fork(c: Cpu, child: nat): Cpu
    requires child < |c.tasks| && Placed(c, c.current) && AllPlaced(c)
  {
    var c0 := Copied(c, child);
    assert AllPlaced(c0) by { CopyPlaced(c, child); }
    Enqueue(c0, child)
  }

  lemma CopyPlaced(c: Cpu, child: nat)
    requires child < |c.tasks| && Placed(c, c.current) && AllPlaced(c)
    ensures AllPlaced(Copied(c, child))
  {
    forall i | 0 <= i < |c.queue|
      ensures Placed(Copied(c, child), c.queue[i])
    {
      assert Placed(c, c.queue[i]);
    }
  }

  function Copied(c: Cpu, child: nat): Cpu
    requires child < |c.tasks| && c.current < |c.tasks|
  {
    c.(tasks := c.tasks[child := c.tasks[c.current].(running := true, priority := 2)])
  }

  // ---------------------------------------------------------------- the queue

  lemma {:induction false} PositionSplits(c: Cpu, k: nat, v: int)
    requires k <= |c.queue| && AllPlaced(c)
    ensures forall i :: k <= i < Position(c, k, v) ==> c.queue[i] in c.queue && V(c, c.queue[i]) < v
    ensures Position(c, k, v) < |c.queue| ==> Placed(c, c.queue[Position(c, k, v)]) && V(c, c.queue[Position(c, k, v)]) >= v
    decreases |c.queue| - k
  {
    if k < |c.queue| {
      assert c.queue[k] in c.queue;
      if V(c, c.queue[k]) < v {
        PositionSplits(c, k + 1, v);
      }
    }
  }

  /** Inserting keeps order and distinctness; among equals the newcomer goes first. */
  lemma EnqueueOk(c: Cpu, t: nat)
    requires QueueOk(c) && Placed(c, t) && t !in c.queue
    ensures var c' := Enqueue(c, t);
      && QueueOk(c') && c' == c.(queue := c'.queue, count := c'.count)
      && (t == c.idle ==> c' == c)
      && (t != c.idle ==> c'.count == c.count + 1 && forall x :: x in c'.queue <==> x in c.queue || x == t)
  {
    if t != c.idle {
      var k := Position(c, 0, V(c, t));
      PositionSplits(c, 0, V(c, t));
      hide Sorted, Distinct, Position;
      InsertedMembers(c.queue, k, t);
      InsertedDistinct(c.queue, k, t);
      InsertedSorted(c, k, t);
      EnqueuedQueue(c, t, Inserted(c.queue, k, t));
    }
  }

  lemma PlaceSplits(c: Cpu, v: int)
    requires QueueOk(c) && AllPlaced(c)
    ensures var k := Position(c, 0, v);
      && (forall i :: 0 <= i < k ==> c.queue[i] < |c.tasks| && V(c, c.queue[i]) < v)
      && (forall i :: k <= i < |c.queue| ==> c.queue[i] < |c.tasks| && v <= V(c, c.queue[i]))
  {
    hide QueueOk, AllPlaced, Position;
    var k := Position(c, 0, v);
    PositionSplits(c, 0, v);
    forall i | 0 <= i < |c.queue|
      ensures c.queue[i] < |c.tasks| && (i < k ==> V(c, c.queue[i]) < v) && (k <= i ==> v <= V(c, c.queue[i]))
    {
      InOrder(c, if i < k then i else k, i);
    }
  }

  /** The newcomer goes behind the entries that are strictly ahead in virtual time and in front of all
      others, its equals included; the others keep their order. */
  lemma EnqueueSplits(c: Cpu, t: nat)
    requires QueueOk(c) && Placed(c, t) && t != c.idle
    ensures var k, q := Position(c, 0, V(c, t)), Enqueue(c, t).queue;
      && q[..k] + q[k + 1..] == c.queue && q[k] == t
      && (forall i :: 0 <= i < k ==> q[i] < |c.tasks| && V(c, q[i]) < V(c, t))
      && (forall i :: k < i < |q| ==> q[i] < |c.tasks| && V(c, t) <= V(c, q[i]))
  {
    hide Position, QueueOk, AllPlaced, Inserted;
    IdlePlaced(c);
    PlaceSplits(c, V(c, t));
    InsertedRest(c.queue, Position(c, 0, V(c, t)), t);
  }

  lemma InsertedRest(q: seq<nat>, k: nat, t: nat)
    requires k <= |q|
    ensures Inserted(q, k, t)[..k] + Inserted(q, k, t)[k + 1..] == q
  {
  }

  lemma InOrder(c: Cpu, i: nat, j: nat)
    requires QueueOk(c) && i <= j < |c.queue|
    ensures Placed(c, c.queue[i]) && Placed(c, c.queue[j]) && V(c, c.queue[i]) <= V(c, c.queue[j])
  {
    assert c.queue[i] in c.queue && c.queue[j] in c.queue;
  }

  lemma EnqueuedQueue(c: Cpu, t: nat, q: seq<nat>)
    requires Placed(c, c.idle) && c.idle !in c.queue && t != c.idle && c.count == 1 + |c.queue| && |q| == |c.queue| + 1
    requires forall x :: x in q <==> x in c.queue || x == t
    requires var c' := c.(queue := q); AllPlaced(c') && Distinct(q) && Sorted(c')
    ensures QueueOk(c.(queue := q, count := c.count + 1))
  {
    var c' := c.(queue := q, count := c.count + 1);
    forall i, j | 0 <= i < j < |q|
      ensures Placed(c', q[i]) && Placed(c', q[j]) && V(c', q[i]) <= V(c', q[j])
    {
      assert Placed(c.(queue := q), q[i]) && Placed(c.(queue := q), q[j]);
    }
  }

  lemma InsertedMembers(q: seq<nat>, k: nat, t: nat)
    requires k <= |q|
    ensures forall x :: x in Inserted(q, k, t) <==> x in q || x == t
  {
    var r := Inserted(q, k, t);
    forall x | x in q
      ensures x in r
    {
      var i :| 0 <= i < |q| && q[i] == x;
      assert r[if i < k then i else i + 1] == x;
    }
  }

  lemma InsertedDistinct(q: seq<nat>, k: nat, t: nat)
    requires k <= |q| && Distinct(q) && t !in q
    ensures Distinct(Inserted(q, k, t))
  {
  }

  lemma InsertedSorted(c: Cpu, k: nat, t: nat)
    requires AllPlaced(c) && Sorted(c) && Placed(c, t) && k <= |c.queue|
    requires forall i :: 0 <= i < k ==> c.queue[i] in c.queue && V(c, c.queue[i]) <= V(c, t)
    requires k < |c.queue| ==> c.queue[k] in c.queue && V(c, t) <= V(c, c.queue[k])
    ensures var c' := c.(queue := Inserted(c.queue, k, t)); AllPlaced(c') && Sorted(c')
  {
    var q := Inserted(c.queue, k, t);
    InsertedMembers(c.queue, k, t);
    forall i | 0 <= i < |q|
      ensures Placed(c, q[i]) && (i < k ==> V(c, q[i]) <= V(c, t)) && (i > k ==> V(c, t) <= V(c, q[i]))
    {
      assert q[i] in q;
      assert i < k ==> c.queue[i] in c.queue;
      assert i > k ==> c.queue[i - 1] in c.queue && c.queue[k] in c.queue;
    }
  }

  /** Picking takes the least task off the queue. */
  lemma PickedIsLeast(c: Cpu)
    requires QueueOk(c)
    ensures var (c1, t) := PickNext(c);
      && QueueOk(c1) && c1 == c.(queue := c1.queue, count := c1.count) && t !in c1.queue && Placed(c, t) && Leads(c1, t)
      && (t == c.idle <==> c.queue == [])
      && (forall x :: x in c.queue <==> x in c1.queue || (x == t && c.queue != []))
  {
    var (c1, t) := PickNext(c);
    if c.queue != [] {
      assert c.queue == [t] + c1.queue;
      assert t in c.queue;
      RestSorted(c);
      hide Sorted, Distinct;
    }
  }

  lemma RestSorted(c: Cpu)
    requires QueueOk(c) && c.queue != []
    ensures var c1 := c.(queue := c.queue[1..], count := c.count - 1);
      AllPlaced(c1) && Sorted(c1) && Distinct(c1.queue) && Leads(c1, c.queue[0]) && c.queue[0] !in c1.queue
  {
    var t, q := c.queue[0], c.queue[1..];
    assert t in c.queue;
    forall x | x in q
      ensures Placed(c, x) && V(c, t) <= V(c, x) && x != t
    {
      var i :| 0 <= i < |q| && q[i] == x;
      assert c.queue[i + 1] == x && x in c.queue;
    }
    forall i, j | 0 <= i < j < |q|
      ensures q[i] != q[j] && Placed(c, q[i]) && Placed(c, q[j]) && V(c, q[i]) <= V(c, q[j])
    {
      assert q[i] == c.queue[i + 1] && q[j] == c.queue[j + 1];
    }
  }

  lemma SameQueue(c: Cpu, c': Cpu)
    requires QueueOk(c) && c'.queue == c.queue && c'.idle == c.idle && c'.count == c.count && |c'.tasks| == |c.tasks|
    requires Placed(c', c.idle)
    requires forall t :: t in c.queue && t < |c.tasks| ==> c'.tasks[t].vruntime == c.tasks[t].vruntime
    ensures QueueOk(c')
  {
    forall i | 0 <= i < |c.queue|
      ensures Placed(c', c.queue[i]) && V(c', c.queue[i]) == V(c, c.queue[i])
    {
      assert c.queue[i] in c.queue;
    }
  }

  // ---------------------------------------------------------------- the state invariant

  lemma TickOk(c: Cpu)
    requires Sound(c) && V(c, c.current) + 2 <= SENTINEL
    ensures Sound(UpdateCurRuntime(c))
  {
    hide QueueOk;
    var c' := UpdateCurRuntime(c);
    IdlePlaced(c);
    SameQueue(c, c');
  }

  /** What a tick costs: one unit of slice and of virtual time for priorities 0 and 1, two for all others,
      to the running task alone; the task is to be stopped once its slice is used up. */
  lemma TickMeans(c: Cpu)
    requires c.current < |c.tasks|
    ensures var c', t := UpdateCurRuntime(c), c.tasks[c.current];
      var cost := if t.priority == 0 || t.priority == 1 then 1 else 2;
      && c'.slice == c.slice - cost && |c'.tasks| == |c.tasks|
      && c'.tasks[c.current].vruntime == t.vruntime + cost
      && (c'.tasks[c.current].need <==> t.need || c.slice <= cost)
      && c'.tasks[c.current].running == t.running && c'.tasks[c.current].priority == t.priority
      && (forall u :: 0 <= u < |c.tasks| && u != c.current ==> c'.tasks[u] == c.tasks[u])
      && c'.queue == c.queue && c'.current == c.current && c'.idle == c.idle && c'.count == c.count
  {
  }

  function AfterTicks(c: Cpu, n: nat): Cpu
    requires c.current < |c.tasks|
    decreases n
  {
    if n == 0 then c else AfterTicks(UpdateCurRuntime(c), n - 1)
  }

  /** How long a slice lasts: a task with priority 0 or 1 is stopped by as many ticks as it has left, any
      other by half as many, rounded up. */
  lemma {:induction false} SliceLasts(c: Cpu, n: nat)
    requires c.current < |c.tasks| && c.slice > 0 && !c.tasks[c.current].need && n > 0
    ensures var c' := AfterTicks(c, n);
      && c'.current == c.current && |c'.tasks| == |c.tasks|
      && (c'.tasks[c.current].need <==> n >= if c.tasks[c.current].priority in {0, 1} then c.slice else (c.slice + 1) / 2)
    decreases n
  {
    TickMeans(c);
    var c1 := UpdateCurRuntime(c);
    if c1.slice > 0 {
      if n > 1 {
        SliceLasts(c1, n - 1);
      }
    } else {
      NeedStays(c1, n - 1);
    }
  }

  lemma {:induction false} NeedStays(c: Cpu, n: nat)
    requires c.current < |c.tasks| && c.tasks[c.current].need
    ensures var c' := AfterTicks(c, n); c'.current == c.current && |c'.tasks| == |c.tasks| && c'.tasks[c.current].need
    decreases n
  {
    if n > 0 {
      NeedStays(UpdateCurRuntime(c), n - 1);
    }
  }

  lemma IdlePlaced(c: Cpu)
    requires QueueOk(c)
    ensures Placed(c, c.idle) && c.idle !in c.queue && c.count == 1 + |c.queue| && AllPlaced(c)
  {
  }

  lemma ForkOk(c: Cpu, child: nat)
    requires Sound(c) && child < |c.tasks| && !c.tasks[child].running && child != c.idle && child != c.current
    ensures child !in c.queue
    ensures var c' := Fork(c, child);
      && Sound(c') && c' == c.(tasks := c'.tasks, queue := c'.queue, count := c'.count)
      && c'.tasks == c.tasks[child := c.tasks[c.current].(running := true, priority := 2)]
      && (forall x :: x in c'.queue <==> x in c.queue || x == child)
  {
    hide QueueOk, AllPlaced, Enqueue;
    IdlePlaced(c);
    assert child !in c.queue;
    var c0 := Copied(c, child);
    SameQueue(c, c0);
    EnqueueOk(c0, child);
  }

  /** A slice that is not used up to exactly zero stays; otherwise the task that runs next gets its share:
      as much of four, or of four periods of three, as each of n tasks can have. */
  predicate Refilled(slice: int, slice': int, priority: int, n: int) {
    if slice != 0 then slice' == slice
    else if priority == 0 || priority == 1 then slice' * n <= 4 < (slice' + 1) * n
    else slice' % 3 == 0 && slice' / 3 * n <= 4 < (slice' / 3 + 1) * n
  }

  lemma Share(n: int)
    requires n > 0
    ensures 4 / n * n <= 4 < (4 / n + 1) * n
  {
  }

  /** What schedule leaves, relative to the state before it. */
  ghost predicate Scheduled(c: Cpu, c': Cpu) {
    && Sound(c') && c.current < |c.tasks| && Leads(c', c'.current)
    && c'.tasks == c.tasks[c.current := c.tasks[c.current].(need := false)]
    && c'.idle == c.idle
    && (c'.slice <= c.slice || c'.slice <= LONGEST_SLICE)
    && c'.current < |c'.tasks| && Refilled(c.slice, c'.slice, c'.tasks[c'.current].priority, c'.count)
    && (c'.current == c.current || c'.current in c.queue || (c'.current == c.idle && c.queue == []))
  }

  lemma SliceBound(c: Cpu, t: nat)
    requires t < |c.tasks| && c.count > 0
    ensures var c' := InitTimeslice(c, t);
      && c' == c.(slice := c'.slice) && (c'.slice <= c.slice || c'.slice <= LONGEST_SLICE)
      && Refilled(c.slice, c'.slice, c.tasks[t].priority, c.count)
  {
    Share(c.count);
    assert 4 / c.count <= 4;
    assert 4 / c.count * 3 / 3 == 4 / c.count;
  }

  /** schedule keeps the invariant, loses and duplicates no task, and leaves a running task that no
      queued task is behind. */
  lemma ScheduleOk(c: Cpu)
    requires Sound(c)
    ensures Scheduled(c, Schedule(c))
  {
    hide QueueOk, AllPlaced, Enqueue, InitTimeslice, Refilled;
    var c0 := c.(tasks := c.tasks[c.current := c.tasks[c.current].(need := false)]);
    IdlePlaced(c);
    SameQueue(c, c0);
    PickedIsLeast(c0);
    var (c1, next) := PickNext(c0);
    IdlePlaced(c1);
    if V(c1, c.current) >= V(c1, next) {
      EnqueueOk(c1, c.current);
      var c2 := if c1.tasks[c.current].running then Enqueue(c1, c.current) else c1;
      IdlePlaced(c2);
      SliceBound(c2, next);
      SameQueue(c2, Schedule(c));
    } else {
      EnqueueOk(c1, next);
      var c2 := Enqueue(c1, next);
      IdlePlaced(c2);
      SliceBound(c2, c.current);
      SameQueue(c2, Schedule(c));
    }
  }

  // ---------------------------------------------------------------- fairness over runs

  /** The most virtual time a task of this priority can still gain before its slice runs out. */
  function Gain(priority: int, slice: int): int {
    if slice <= 0 then Cost(priority)
    else if Cost(priority) == 1 then slice
    else (slice + 1) / 2 * 2
  }

  /** No two runnable tasks are more than twelve apart, and the running one cannot get further ahead
      than that before it is stopped. */
  ghost predicate Fair(c: Cpu) {
    && Sound(c) && c.slice <= LONGEST_SLICE
    && (forall t, u :: t in c.queue && u in c.queue ==> Close(c, t, u))
    && (c.current != c.idle ==> forall t :: t in c.queue ==> Ahead(c, t))
  }

  predicate Close(c: Cpu, t: nat, u: nat) {
    t < |c.tasks| && u < |c.tasks| && V(c, t) <= V(c, u) + LONGEST_SLICE
  }

  predicate Ahead(c: Cpu, t: nat) {
    && t < |c.tasks| && c.current < |c.tasks|
    && V(c, c.current) + Gain(c.tasks[c.current].priority, c.slice) <= V(c, t) + LONGEST_SLICE
    && V(c, t) <= V(c, c.current) + LONGEST_SLICE
  }

  /** Two tasks that may run: queued, or running and not idle. */
  predicate Runnable(c: Cpu, t: nat) {
    t in c.queue || (t == c.current && t != c.idle)
  }

  lemma FairIsClose(c: Cpu, t: nat, u: nat)
    requires Fair(c) && Runnable(c, t) && Runnable(c, u)
    ensures Close(c, t, u)
  {
    if t == c.current && u in c.queue {
      assert Ahead(c, u);
    } else if u == c.current && t in c.queue {
      assert Ahead(c, t);
    }
  }

  /** What happens on one CPU without blocking: clock ticks, each followed at once by schedule when
      the slice is used up, and forks. */
  datatype Event = Tick | ForkInto(child: nat)

  predicate Enabled(c: Cpu, e: Event) {
    match e
    case Tick => Placed(c, c.current) && V(c, c.current) + 2 <= SENTINEL
    case ForkInto(t) =>
      && t < |c.tasks| && c.current < |c.tasks| && !c.tasks[t].running && t != c.idle && t != c.current
  }

  ghost function Happen(c: Cpu, e: Event): Cpu
    requires Sound(c) && Enabled(c, e)
  {
    match e
    case Tick =>
      TickOk(c);
      var c' := UpdateCurRuntime(c);
      if c'.tasks[c'.current].need then Schedule(c') else c'
    case ForkInto(t) => Fork(c, t)
  }

  /** A child starts where its parent is; only the idle task may be further than the bound from what is
      queued. */
  predicate ForksClose(c: Cpu) {
    c.current == c.idle ==> forall t :: t in c.queue ==> Close(c, c.idle, t) && Close(c, t, c.idle)
  }

  /** A fork keeps fairness if and only if it is not made by idle too far away from the queue. */
  lemma ForkFair(c: Cpu, t: nat)
    requires Fair(c) && Enabled(c, ForkInto(t))
    ensures Fair(Fork(c, t)) <==> ForksClose(c)
  {
    hide Sound, Fork;
    FairIsSound(c);
    ForkOk(c, t);
    var c' := Fork(c, t);
    if c.current == c.idle {
      ForkByIdle(c, t);
    } else {
      forall x | x in c'.queue
        ensures Ahead(c', x)
      {
        if x != t {
          assert Ahead(c, x);
        } else {
          GainNotNegative(c);
        }
      }
      forall x, y | x in c'.queue && y in c'.queue
        ensures Close(c', x, y)
      {
        assert Ahead(c', x) && Ahead(c', y);
        if x != t && y != t {
          assert Close(c, x, y);
        }
      }
    }
  }

  lemma ForkByIdle(c: Cpu, t: nat)
    requires Fair(c) && Enabled(c, ForkInto(t)) && c.current == c.idle
    ensures Fair(Fork(c, t)) <==> ForksClose(c)
  {
    hide Sound, Fork;
    FairIsSound(c);
    ForkOk(c, t);
    var c' := Fork(c, t);
    assert t !in c.queue && t in c'.queue && V(c', t) == V(c, c.idle);
    forall x | x in c.queue
      ensures x in c'.queue && (Close(c', x, t) <==> Close(c, x, c.idle)) && (Close(c', t, x) <==> Close(c, c.idle, x))
    {
      assert Close(c, x, x);
    }
    forall x, y | x in c.queue && y in c.queue
      ensures Close(c', x, y)
    {
      assert Close(c, x, y);
    }
    assert Close(c', t, t);
  }

  /** An idle task at zero that is kept on the CPU, with an entry at twenty in the queue: its child is
      twenty behind. Ticks and forks alone do not lead there from scheduler_init (StartedRunIsFair); it
      takes a task that blocks and leaves idle the only rival of the last one. */
  lemma IdleCanForkFar()
    ensures var c := Cpu([Task(true, false, 2, 0), Task(true, false, 2, 20), Task(false, false, 0, 0)], [1], 0, 0, 4, 2);
      Fair(c) && Enabled(c, ForkInto(2)) && !ForksClose(c) && !Fair(Fork(c, 2)) && !Paced(c)
  {
    var c := Cpu([Task(true, false, 2, 0), Task(true, false, 2, 20), Task(false, false, 0, 0)], [1], 0, 0, 4, 2);
    assert Close(c, 1, 1) && Sound(c);
    assert 1 in c.queue && !Close(c, 1, 0) && Rival(c, 1);
    ForkFair(c, 2);
  }

  lemma FairIsSound(c: Cpu)
    requires Fair(c)
    ensures Sound(c) && Placed(c, c.current) && AllPlaced(c)
  {
  }

  lemma GainNotNegative(c: Cpu)
    requires c.current < |c.tasks| && c.slice <= LONGEST_SLICE
    ensures 0 <= Gain(c.tasks[c.current].priority, c.slice) <= LONGEST_SLICE
  {
  }

  /** Right after a tick the running task is at most twelve ahead or behind, slice or no slice. */
  lemma TickClose(c: Cpu)
    requires Fair(c) && V(c, c.current) + 2 <= SENTINEL
    ensures var c' := UpdateCurRuntime(c);
      && Sound(c') && c'.slice <= LONGEST_SLICE && c'.queue == c.queue && c'.current == c.current && c'.idle == c.idle
      && (forall t, u :: t in c.queue && u in c.queue ==> Close(c', t, u))
      && (c.current != c.idle ==> forall t :: t in c.queue ==> Close(c', c.current, t) && Close(c', t, c.current))
      && (c'.slice > 0 ==> Fair(c'))
  {
    TickOk(c);
    var c' := UpdateCurRuntime(c);
    forall t, u | t in c.queue && u in c.queue
      ensures Close(c', t, u)
    {
      assert Close(c, t, u) && Waiting(c, t) && Waiting(c, u);
    }
    if c.current != c.idle {
      forall t | t in c.queue
        ensures Close(c', c.current, t) && Close(c', t, c.current)
        ensures c'.slice > 0 ==> Ahead(c', t)
      {
        assert Ahead(c, t) && Waiting(c, t);
      }
    }
  }

  /** schedule turns closeness back into fairness: the least task runs next, and no slice exceeds
      the bound. */
  lemma ScheduleFair(c: Cpu)
    requires Sound(c) && c.slice <= LONGEST_SLICE
    requires forall t, u :: t in c.queue && u in c.queue ==> Close(c, t, u)
    requires c.current != c.idle ==> forall t :: t in c.queue ==> Close(c, c.current, t) && Close(c, t, c.current)
    ensures Fair(Schedule(c))
  {
    hide Sound, QueueOk, Schedule, Scheduled, Gain;
    SoundIsPlaced(c);
    ScheduleOk(c);
    var c' := Schedule(c);
    AfterSchedule(c, c');
    forall t, u | t in c'.queue && u in c'.queue
      ensures Close(c', t, u)
    {
      WasThere(c, c', t);
      WasThere(c, c', u);
    }
    if c'.current != c'.idle {
      GainBound(c'.tasks[c'.current].priority, c'.slice);
      forall t | t in c'.queue
        ensures Ahead(c', t)
      {
        WasThere(c, c', t);
        assert Leads(c', c'.current);
        assert Close(c, t, c'.current);
      }
    }
  }

  lemma GainBound(priority: int, slice: int)
    requires slice <= LONGEST_SLICE
    ensures Gain(priority, slice) <= LONGEST_SLICE
  {
  }

  lemma SoundIsPlaced(c: Cpu)
    requires Sound(c)
    ensures Placed(c, c.current) && QueueOk(c)
  {
  }

  lemma AfterSchedule(c: Cpu, c': Cpu)
    requires Sound(c) && Scheduled(c, c')
    ensures Sound(c') && Leads(c', c'.current) && c'.idle == c.idle && c'.current < |c'.tasks|
    ensures c'.slice <= c.slice || c'.slice <= LONGEST_SLICE
    ensures c'.current != c.idle ==> Runnable(c, c'.current)
    ensures c'.current < |c.tasks| && V(c', c'.current) == V(c, c'.current)
  {
  }

  lemma WasThere(c: Cpu, c': Cpu, t: nat)
    requires Sound(c) && Scheduled(c, c') && t in c'.queue
    ensures Runnable(c, t)
    ensures t < |c.tasks| && V(c', t) == V(c, t) && t < |c'.tasks|
  {
    assert Waiting(c', t);
  }

  lemma HappenFair(c: Cpu, e: Event)
    requires Fair(c) && Enabled(c, e)
    ensures Fair(Happen(c, e)) <==> (e.ForkInto? ==> ForksClose(c))
  {
    match e
    case Tick =>
      TickClose(c);
      var c' := UpdateCurRuntime(c);
      if c'.tasks[c'.current].need {
        ScheduleFair(c');
      }
    case ForkInto(t) => ForkFair(c, t);
  }

  ghost predicate Possible(c: Cpu, es: seq<Event>)
    decreases |es|
  {
    es == [] ||
    (Sound(c) && Enabled(c, es[0]) && (es[0].ForkInto? ==> ForksClose(c)) && Possible(Happen(c, es[0]), es[1..]))
  }

  ghost function After(c: Cpu, es: seq<Event>): Cpu
    requires Possible(c, es)
    decreases |es|
  {
    if es == [] then c else After(Happen(c, es[0]), es[1..])
  }

  /** Bounded unfairness: over every run of ticks and forks that starts fairly, and in which idle forks
      only close to the queue, the virtual run times of any two runnable tasks stay within twelve. */
  lemma {:induction false} RunIsFair(c: Cpu, es: seq<Event>)
    requires Fair(c) && Possible(c, es)
    ensures Fair(After(c, es))
    ensures forall t, u :: Runnable(After(c, es), t) && Runnable(After(c, es), u) ==> Close(After(c, es), t, u)
    decreases |es|
  {
    if es == [] {
      forall t, u | Runnable(c, t) && Runnable(c, u)
        ensures Close(c, t, u)
      {
        FairIsClose(c, t, u);
      }
    } else {
      HappenFair(c, es[0]);
      RunIsFair(Happen(c, es[0]), es[1..]);
    }
  }

  /** scheduler_init: an empty queue and a slice of four for the idle task. */
  function Initial(tasks: seq<Task>, idle: nat): Cpu {
    Cpu(tasks, [], idle, idle, 4, 1)
  }

  lemma InitialIsFair(tasks: seq<Task>, idle: nat)
    requires idle < |tasks| && tasks[idle].vruntime <= SENTINEL
    requires forall t :: 0 <= t < |tasks| && t != idle ==> !tasks[t].running
    ensures Fair(Initial(tasks, idle))
  {
  }

  /** Task 0 idles, task 1 has run for k ticks of the longest slice and its child, task 2, waits. */
  function Stage(k: nat): Cpu {
    Cpu([Task(true, false, 2, 0), Task(true, k >= 6, 2, 2 * k), Task(true, false, 2, 0)], [2], 1, 0, 12 - 2 * k, 2)
  }

  function BeforeFork(): Cpu {
    Cpu([Task(true, false, 2, 0), Task(true, false, 2, 0), Task(false, false, 0, 0)], [], 1, 0, 12, 1)
  }

  lemma StageIsFair(k: nat)
    requires k < 6
    ensures Fair(Stage(k)) && Enabled(Stage(k), Tick)
  {
  }

  lemma {:induction false} StagesFollow(k: nat, n: nat)
    requires k + n == 5
    ensures Possible(Stage(k), Ticks(n)) && After(Stage(k), Ticks(n)) == Stage(5)
    decreases n
  {
    if n > 0 {
      StageIsFair(k);
      assert UpdateCurRuntime(Stage(k)) == Stage(k + 1);
      StagesFollow(k + 1, n - 1);
      assert Ticks(n)[1..] == Ticks(n - 1);
    }
  }

  function Ticks(n: nat): seq<Event> {
    seq(n, i => Tick)
  }

  /** The bound is reached: a fork and six ticks into a full slice, parent and child are twelve apart. */
  lemma BoundIsReached()
    ensures Fair(BeforeFork()) && Enabled(BeforeFork(), ForkInto(2)) && ForksClose(BeforeFork())
    ensures Happen(BeforeFork(), ForkInto(2)) == Stage(0)
    ensures Possible(Stage(0), Ticks(5)) && After(Stage(0), Ticks(5)) == Stage(5)
    ensures Sound(Stage(5)) && Enabled(Stage(5), Tick)
    ensures var last := Happen(Stage(5), Tick);
      Runnable(last, 1) && Runnable(last, 2) && |last.tasks| == 3 && V(last, 1) == V(last, 2) + LONGEST_SLICE
  {
    hide Sound, QueueOk, Fair, Schedule, Fork;
    FirstStage();
    StagesFollow(0, 5);
    StageIsFair(5);
    FairIsSound(Stage(5));
    LastStage();
  }

  lemma FirstStage()
    ensures Fair(BeforeFork()) && Enabled(BeforeFork(), ForkInto(2)) && Fork(BeforeFork(), 2) == Stage(0)
  {
  }

  lemma LastStage()
    requires Sound(Stage(5))
    ensures UpdateCurRuntime(Stage(5)) == Stage(6) && Sound(Stage(6))
    ensures var c' := Schedule(Stage(6)); c'.current == 2 && c'.queue == [1] && c'.tasks == Stage(6).tasks[1 := Task(true, false, 2, 12)] && c'.idle == 0
  {
    TickOk(Stage(5));
    var c := Stage(6);
    var c0 := c.(tasks := c.tasks[1 := Task(true, false, 2, 12)]);
    SchedulePlaced(c, c0);
    var c1 := PickNext(c0).0;
    assert c1.queue == [];
    assert Enqueue(c1, 1).queue == [1];
  }

  // ---------------------------------------------------------------- fairness from the start

  /** Whom schedule would compare the running task with: the queue, or idle when it is empty. */
  predicate Rival(c: Cpu, t: nat) {
    t in c.queue || (c.queue == [] && c.current != c.idle && t == c.idle)
  }

  /** Fair, idle included: what runs, be it idle, is within the bound of its rivals, be they idle. */
  ghost predicate Paced(c: Cpu) {
    Fair(c) && (c.current == c.idle || Awake(c)) && forall t :: Rival(c, t) ==> Ahead(c, t)
  }

  lemma PacedForksClose(c: Cpu)
    requires Paced(c)
    ensures ForksClose(c)
  {
    GainNotNegative(c);
    if c.current == c.idle {
      forall t | t in c.queue
        ensures Close(c, c.idle, t) && Close(c, t, c.idle)
      {
        assert Rival(c, t) && Ahead(c, t);
      }
    }
  }

  lemma ForkPaced(c: Cpu, t: nat)
    requires Paced(c) && Enabled(c, ForkInto(t))
    ensures Paced(Fork(c, t))
  {
    hide Sound, Fork;
    FairIsSound(c);
    PacedForksClose(c);
    ForkFair(c, t);
    ForkOk(c, t);
    GainNotNegative(c);
    var c' := Fork(c, t);
    assert t in c'.queue;
    forall x | Rival(c', x)
      ensures Ahead(c', x)
    {
      if x != t {
        assert Rival(c, x) && Ahead(c, x);
      }
    }
  }

  /** Right after a tick the running task is at most twelve away from its rivals. */
  lemma TickPaced(c: Cpu)
    requires Paced(c) && V(c, c.current) + 2 <= SENTINEL
    ensures var c' := UpdateCurRuntime(c);
      && Sound(c') && c'.slice <= LONGEST_SLICE && (c'.current == c'.idle || Awake(c'))
      && (forall t, u :: t in c'.queue && u in c'.queue ==> Close(c', t, u))
      && (forall t :: Rival(c', t) ==> Close(c', c'.current, t) && Close(c', t, c'.current))
      && (c'.slice > 0 ==> Paced(c'))
  {
    TickClose(c);
    var c' := UpdateCurRuntime(c);
    forall t | Rival(c', t)
      ensures Close(c', c'.current, t) && Close(c', t, c'.current)
      ensures c'.slice > 0 ==> Ahead(c', t)
    {
      assert Rival(c, t) && Ahead(c, t) && (t in c.queue ==> Waiting(c, t));
    }
  }

  /** What runs after schedule is behind neither the task before nor, with an empty queue, idle. */
  lemma ScheduleLeast(c: Cpu)
    requires Sound(c)
    ensures var t := Schedule(c).current;
      t < |c.tasks| && V(c, t) <= V(c, c.current) && (c.queue == [] ==> c.idle < |c.tasks| && V(c, t) <= V(c, c.idle))
  {
    hide QueueOk, AllPlaced, Position, Inserted;
    SoundIsPlaced(c);
    IdlePlaced(c);
    SchedulePlaced(c, c.(tasks := c.tasks[c.current := c.tasks[c.current].(need := false)]));
  }

  lemma StaysQueued(c: Cpu, c': Cpu)
    requires Sound(c) && Scheduled(c, c') && c'.current == c.current
    ensures c.queue != [] ==> c'.queue != []
  {
    if c.queue != [] {
      var x := c.queue[0];
      assert x in c.queue && Waiting(c, x);
      assert c'.tasks[x].running && x in c'.queue;
    }
  }

  /** Rivals after schedule were both queued before, or rivals. */
  lemma RivalWasThere(c: Cpu, t: nat)
    requires Sound(c) && (c.current == c.idle || Awake(c)) && Rival(Schedule(c), t)
    ensures var u := Schedule(c).current;
      (t in c.queue && u in c.queue) || (u == c.current && Rival(c, t)) || (t == c.current && Rival(c, u))
    ensures t < |c.tasks| && V(c, Schedule(c).current) <= V(c, t)
  {
    hide QueueOk, Schedule;
    SoundIsPlaced(c);
    ScheduleOk(c);
    ScheduleLeast(c);
    var c' := Schedule(c);
    if t in c'.queue {
      assert Waiting(c', t);
    } else if c'.current == c.current {
      StaysQueued(c, c');
    } else {
      assert c'.tasks[c.current].running == c.tasks[c.current].running;
    }
  }

  lemma ScheduleAwake(c: Cpu)
    requires Sound(c) && (c.current == c.idle || Awake(c))
    ensures Schedule(c).current == c.idle || Awake(Schedule(c))
  {
    hide QueueOk, Schedule;
    SoundIsPlaced(c);
    ScheduleOk(c);
    assert Schedule(c).current in c.queue ==> Waiting(c, Schedule(c).current);
  }

  lemma SchedulePaced(c: Cpu)
    requires Sound(c) && c.slice <= LONGEST_SLICE && (c.current == c.idle || Awake(c))
    requires forall t, u :: t in c.queue && u in c.queue ==> Close(c, t, u)
    requires forall t :: Rival(c, t) ==> Close(c, c.current, t) && Close(c, t, c.current)
    ensures Paced(Schedule(c))
  {
    hide Sound, QueueOk, Schedule, Gain;
    SoundIsPlaced(c);
    assert c.current != c.idle ==> forall t :: t in c.queue ==> Close(c, c.current, t) && Close(c, t, c.current) by {
      assert forall t :: t in c.queue ==> Rival(c, t);
    }
    ScheduleFair(c);
    ScheduleOk(c);
    var c' := Schedule(c);
    AfterSchedule(c, c');
    ScheduleAwake(c);
    GainBound(c'.tasks[c'.current].priority, c'.slice);
    forall t | Rival(c', t)
      ensures Ahead(c', t)
    {
      RivalWasThere(c, t);
      assert Close(c, t, c'.current);
    }
  }

  lemma HappenPaced(c: Cpu, e: Event)
    requires Paced(c) && Enabled(c, e)
    ensures Paced(Happen(c, e))
  {
    match e
    case Tick =>
      TickPaced(c);
      var c' := UpdateCurRuntime(c);
      if c'.tasks[c'.current].need {
        SchedulePaced(c');
      }
    case ForkInto(t) => ForkPaced(c, t);
  }

  /** A run of ticks and forks, without a condition on who forks. */
  ghost predicate AllEnabled(c: Cpu, es: seq<Event>)
    decreases |es|
  {
    es == [] || (Sound(c) && Enabled(c, es[0]) && AllEnabled(Happen(c, es[0]), es[1..]))
  }

  lemma {:induction false} RunIsPaced(c: Cpu, es: seq<Event>)
    requires Paced(c) && AllEnabled(c, es)
    ensures Possible(c, es) && Paced(After(c, es))
    decreases |es|
  {
    if es != [] {
      PacedForksClose(c);
      HappenPaced(c, es[0]);
      RunIsPaced(Happen(c, es[0]), es[1..]);
    }
  }

  lemma HappenIdle(c: Cpu, e: Event)
    requires Sound(c) && Enabled(c, e)
    ensures Happen(c, e).idle == c.idle
  {
    hide QueueOk;
    match e
    case Tick =>
      TickOk(c);
      ScheduleOk(UpdateCurRuntime(c));
    case ForkInto(t) => ForkOk(c, t);
  }

  lemma {:induction false} IdleStays(c: Cpu, es: seq<Event>)
    requires Possible(c, es)
    ensures After(c, es).idle == c.idle
    decreases |es|
  {
    if es != [] {
      HappenIdle(c, es[0]);
      IdleStays(Happen(c, es[0]), es[1..]);
    }
  }

  /** From scheduler_init on idle never forks far: over every run of ticks and forks any two runnable tasks
      stay within twelve, and so do idle and the queue while idle runs. */
  lemma StartedRunIsFair(tasks: seq<Task>, idle: nat, es: seq<Event>)
    requires idle < |tasks| && tasks[idle].vruntime <= SENTINEL
    requires forall t :: 0 <= t < |tasks| && t != idle ==> !tasks[t].running
    requires AllEnabled(Initial(tasks, idle), es)
    ensures Possible(Initial(tasks, idle), es)
    ensures var c := After(Initial(tasks, idle), es);
      && Paced(c) && (forall t, u :: Runnable(c, t) && Runnable(c, u) ==> Close(c, t, u))
      && (c.current == idle ==> forall t :: t in c.queue ==> Close(c, idle, t) && Close(c, t, idle))
  {
    var c := Initial(tasks, idle);
    InitialIsFair(tasks, idle);
    RunIsPaced(c, es);
    RunIsFair(c, es);
    IdleStays(c, es);
    PacedForksClose(After(c, es));
  }
}
