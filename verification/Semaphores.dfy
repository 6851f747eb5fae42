/** The counting semaphore with direct hand-off: a resource given up goes to the task that has waited
    longest, which enters the run queue without the counter ever being raised. */
module Semaphores {
  import opened Scheduling
  import TaskScheduler

  /** A semaphore on one CPU: its counter and the tasks waiting on it, oldest first. */
  datatype System = System(cpu: Cpu, counter: int, waiters: seq<nat>)

  predicate Asleep(c: Cpu, w: nat) {
    Placed(c, w) && !c.tasks[w].running
  }

  /** The invariant: whoever waits is asleep and waits once, and while someone waits the counter is
      zero. */
  ghost predicate Good(s: System) {
    && Sound(s.cpu) && s.counter >= 0 && (s.waiters != [] ==> s.counter == 0)
    && Distinct(s.waiters) && forall w :: w in s.waiters ==> Asleep(s.cpu, w)
  }

  function SetRunning(c: Cpu, t: nat, running: bool): Cpu
    requires t < |c.tasks|
  {
    c.(tasks := c.tasks[t := c.tasks[t].(running := running)])
  }

  /** semaphore_up */
  ghost function Raised(s: System): System
    requires Good(s)
  {
    if s.waiters == [] then s.(counter := s.counter + 1)
    else
      var w := s.waiters[0];
      WokenOk(s.cpu, w);
      s.(cpu := Enqueue(SetRunning(s.cpu, w, true), w), waiters := s.waiters[1..])
  }

  lemma WokenOk(c: Cpu, w: nat)
    requires Sound(c) && Asleep(c, w)
    ensures var c0 := SetRunning(c, w, true); QueueOk(c0) && AllPlaced(c0) && Placed(c0, w) && w !in c.queue
  {
    SameQueue(c, SetRunning(c, w, true));
    assert w in c.queue ==> Waiting(c, w);
  }

  /** semaphore_down */
  ghost function Lowered(s: System): System
    requires Good(s)
  {
    if s.counter > 0 then s.(counter := s.counter - 1)
    else
      BlockedOk(s.cpu);
      s.(cpu := Schedule(SetRunning(s.cpu, s.cpu.current, false)), waiters := s.waiters + [s.cpu.current])
  }

  lemma BlockedOk(c: Cpu)
    requires Sound(c)
    ensures Sound(SetRunning(c, c.current, false))
  {
    hide QueueOk;
    SoundIsPlaced(c);
    IdlePlaced(c);
    SameQueue(c, SetRunning(c, c.current, false));
  }

  // ---------------------------------------------------------------- one step

  /** Up hands the resource to the first waiter, which is then runnable, or counts it. Only a caller that
      waits itself can spoil the invariant: it would be put in the queue while it is on the CPU. */
  lemma UpGood(s: System)
    requires Good(s)
    ensures Good(Raised(s)) <==> (s.waiters != [] && s.waiters[0] == s.cpu.current ==> s.cpu.current == s.cpu.idle)
    ensures Raised(s).cpu.current == s.cpu.current && Raised(s).cpu.idle == s.cpu.idle
    ensures s.waiters != [] ==>
      && s.waiters[0] < |s.cpu.tasks| && Raised(s).counter == s.counter && Raised(s).waiters == s.waiters[1..]
      && Raised(s).cpu.tasks == SetRunning(s.cpu, s.waiters[0], true).tasks
      && (s.waiters[0] in Raised(s).cpu.queue || s.waiters[0] == s.cpu.idle)
    ensures s.waiters == [] ==> Raised(s) == s.(counter := s.counter + 1)
  {
    if s.waiters != [] {
      hide Sound, Enqueue;
      var w := s.waiters[0];
      WokenOk(s.cpu, w);
      HandedOver(s.cpu, w);
      forall v | v in s.waiters[1..]
        ensures Asleep(Raised(s).cpu, v)
      {
        assert v in s.waiters && Asleep(s.cpu, v);
      }
    }
  }

  lemma HandedOver(c: Cpu, w: nat)
    requires Sound(c) && Asleep(c, w)
    ensures var c0 := SetRunning(c, w, true);
      && AllPlaced(c0) && var c' := Enqueue(c0, w);
      && (Sound(c') <==> (w == c.current ==> w == c.idle))
      && c' == c0.(queue := c'.queue, count := c'.count) && (w in c'.queue || w == c.idle)
  {
    hide QueueOk, AllPlaced, Enqueue;
    SoundIsPlaced(c);
    WokenOk(c, w);
    var c0 := SetRunning(c, w, true);
    EnqueueOk(c0, w);
    var c' := Enqueue(c0, w);
    if w == c.current && w != c.idle {
      assert w in c'.queue && !Waiting(c', w);
    } else {
      forall t | t in c'.queue
        ensures Waiting(c', t)
      {
        assert t in c.queue ==> Waiting(c, t);
      }
    }
  }

  /** Down takes a counted resource at once, or joins the end of the waiters. Only a caller that waits
      already can spoil the invariant: it would wait twice. */
  lemma DownGood(s: System)
    requires Good(s)
    ensures Good(Lowered(s)) <==> s.cpu.current !in s.waiters
    ensures Lowered(s).cpu.idle == s.cpu.idle
    ensures s.counter > 0 ==> Lowered(s) == s.(counter := s.counter - 1)
    ensures s.counter == 0 ==> Lowered(s).counter == 0 && Lowered(s).waiters == s.waiters + [s.cpu.current]
    ensures Lowered(s).cpu.current == s.cpu.current || Lowered(s).cpu.current == s.cpu.idle || Lowered(s).cpu.current in s.cpu.queue
  {
    if s.counter == 0 {
      hide QueueOk, Schedule;
      BlockedOk(s.cpu);
      var c0 := SetRunning(s.cpu, s.cpu.current, false);
      ScheduleOk(c0);
      var c := Schedule(c0);
      if s.cpu.current in s.waiters {
        WaitsTwice(s.waiters, s.cpu.current);
      } else {
        forall v | v in s.waiters + [s.cpu.current]
          ensures Asleep(c, v)
        {
          assert v in s.waiters ==> Asleep(s.cpu, v);
        }
        assert forall i :: 0 <= i < |s.waiters| ==> s.waiters[i] in s.waiters;
      }
    }
  }

  lemma WaitsTwice(q: seq<nat>, t: nat)
    requires t in q
    ensures !Distinct(q + [t])
  {
    var i :| 0 <= i < |q| && q[i] == t;
    assert (q + [t])[i] == (q + [t])[|q|];
  }

  /** The task schedule would turn to. */
  function Next(c: Cpu): nat {
    if c.queue == [] then c.idle else c.queue[0]
  }

  /** Down without a free resource does not always give the CPU away: the caller goes on running at once,
      with nothing granted, exactly when it is behind the next task in virtual time, or is idle and
      alone. */
  lemma DownKeepsCpu(s: System)
    requires Good(s) && s.counter == 0
    ensures Next(s.cpu) < |s.cpu.tasks|
    ensures Lowered(s).cpu.current == s.cpu.current <==>
      V(s.cpu, s.cpu.current) < V(s.cpu, Next(s.cpu)) || (s.cpu.current == s.cpu.idle && s.cpu.queue == [])
  {
    var c := s.cpu;
    BlockedOk(c);
    var c0 := SetRunning(c, c.current, false);
    SoundIsPlaced(c0);
    PickedIsLeast(c0);
    assert Next(c) == c.current ==> c.current == c.idle && c.queue == [] by {
      assert c.queue != [] ==> c.queue[0] in c.queue && Waiting(c, c.queue[0]);
    }
    SchedulePlaced(c0, c0.(tasks := c0.tasks[c.current := c0.tasks[c.current].(need := false)]));
  }

  /** It can happen: a task that has run less than the next one waits for a resource and keeps running. */
  lemma DownCanKeepCpu()
    ensures var c := Cpu([Task(true, false, 2, 0), Task(true, false, 2, 1), Task(true, false, 2, 2)], [2], 1, 0, 4, 2);
      var s := System(c, 0, []);
      Good(s) && Awake(s.cpu) && Lowered(s).cpu.current == 1 && Lowered(s).waiters == [1]
  {
    var c := Cpu([Task(true, false, 2, 0), Task(true, false, 2, 1), Task(true, false, 2, 2)], [2], 1, 0, 4, 2);
    var s := System(c, 0, []);
    assert Sound(c);
    DownKeepsCpu(s);
  }

  // ---------------------------------------------------------------- coming back unserved

  /** A waiter is on the CPU: its down has come back with nothing granted, or is about to. */
  predicate Unserved(s: System) {
    s.cpu.current in s.waiters
  }

  /** Every waiter is off the CPU, and stays off it: what is on the CPU is awake, and so is idle, which
      schedule falls back to when the queue is empty. */
  ghost predicate Served(s: System) {
    Good(s) && Awake(s.cpu) && s.cpu.idle < |s.cpu.tasks| && s.cpu.tasks[s.cpu.idle].running
  }

  lemma ServedIsOff(s: System)
    requires Served(s)
    ensures !Unserved(s) && s.cpu.idle !in s.waiters
  {
    assert s.cpu.current in s.waiters ==> Asleep(s.cpu, s.cpu.current);
    assert s.cpu.idle in s.waiters ==> Asleep(s.cpu, s.cpu.idle);
  }

  /** What a caller can check before a down that has to wait: it is not idle, and not behind the next
      task in virtual time. */
  predicate MayWait(c: Cpu) {
    c.current != c.idle && c.current < |c.tasks| && Next(c) < |c.tasks| && V(c, c.current) >= V(c, Next(c))
  }

  /** A down keeps all waiters served if and only if it finds a resource or may wait. */
  lemma DownServed(s: System)
    requires Served(s)
    ensures Served(Lowered(s)) <==> (s.counter == 0 ==> MayWait(s.cpu))
  {
    ServedIsOff(s);
    DownGood(s);
    if s.counter == 0 {
      DownKeepsCpu(s);
      AfterDown(s);
      assert Next(s.cpu) in s.cpu.queue ==> Waiting(s.cpu, Next(s.cpu));
    }
  }

  /** Where a waiting down leaves the CPU, and who is runnable then. */
  lemma AfterDown(s: System)
    requires Good(s) && s.counter == 0
    ensures var c, c' := s.cpu, Lowered(s).cpu;
      && |c'.tasks| == |c.tasks| && c.current < |c.tasks| && !c'.tasks[c.current].running
      && (forall t: nat :: t < |c.tasks| && t != c.current ==> c'.tasks[t].running == c.tasks[t].running)
      && (c'.current == c.current || (c'.current == Next(c) && c'.queue == if c.queue == [] then [] else c.queue[1..]))
      && (c.queue != [] ==> Next(c) in c.queue)
  {
    hide QueueOk;
    BlockedOk(s.cpu);
    var c0 := SetRunning(s.cpu, s.cpu.current, false);
    SoundIsPlaced(c0);
    SchedulePlaced(c0, c0.(tasks := c0.tasks[c0.current := c0.tasks[c0.current].(need := false)]));
    ScheduleOk(c0);
  }

  /** Downs by whatever is on the CPU, one after the other. */
  ghost function Downs(s: System, k: nat): System
    decreases k
  {
    if k == 0 || !Good(s) then s else Downs(Lowered(s), k - 1)
  }

  /** Once idle waits it comes back: with every further down the CPU moves on through the queue, to a
      caller that is kept on it or at last to idle, neither of them served. */
  lemma {:induction false} IdleComesBack(s: System) returns (k: nat)
    requires Good(s) && s.cpu.idle in s.waiters && (Awake(s.cpu) || Unserved(s))
    ensures Unserved(Downs(s, k)) && k <= |s.cpu.queue| + 1
    decreases |s.cpu.queue|
  {
    if Unserved(s) {
      k := 0;
    } else {
      DownGood(s);
      AfterDown(s);
      var s' := Lowered(s);
      if s'.cpu.current == s.cpu.current || s.cpu.queue == [] {
        assert s'.cpu.current in s'.waiters;
        k := 1;
        assert Downs(s, 1) == Downs(s', 0);
      } else {
        assert Waiting(s.cpu, Next(s.cpu));
        var n := IdleComesBack(s');
        k := n + 1;
      }
    }
  }

  /** So a down that has to wait but may not is one that leads to an unserved return: of the caller at
      once, or, when idle has given the CPU away, after some more downs. */
  lemma DownUnserved(s: System) returns (k: nat)
    requires Served(s) && s.counter == 0 && !MayWait(s.cpu)
    ensures Unserved(Downs(Lowered(s), k))
  {
    ServedIsOff(s);
    DownGood(s);
    DownKeepsCpu(s);
    AfterDown(s);
    var s' := Lowered(s);
    if s'.cpu.current == s.cpu.current {
      k := 0;
    } else {
      assert s.cpu.queue != [] && Waiting(s.cpu, Next(s.cpu));
      k := IdleComesBack(s');
    }
  }

  /** Idle and task 1, both runnable and level, and no resource. */
  function IdleRuns(): System {
    System(Cpu([Task(true, false, 2, 2), Task(true, false, 2, 2)], [1], 0, 0, 4, 2), 0, [])
  }

  lemma IdleGivesWay()
    ensures Served(IdleRuns()) && !MayWait(IdleRuns().cpu)
    ensures var s := Lowered(IdleRuns());
      && Good(s) && s.counter == 0 && s.waiters == [0] && s.cpu.current == 1 && s.cpu.idle == 0 && s.cpu.queue == []
      && |s.cpu.tasks| == 2 && V(s.cpu, 0) == V(s.cpu, 1)
  {
    var s := IdleRuns();
    assert Sound(s.cpu);
    hide Schedule;
    DownGood(s);
    DownKeepsCpu(s);
    AfterDown(s);
    BlockedOk(s.cpu);
    ScheduleOk(SetRunning(s.cpu, s.cpu.current, false));
  }

  /** It can happen to idle: it waits and gives the CPU to task 1, task 1 waits as well, and idle is put
      back on the CPU with nothing granted. */
  lemma IdleCanComeBack()
    ensures var s := IdleRuns();
      && Served(s) && !MayWait(s.cpu) && Good(Lowered(s)) && Lowered(s).cpu.current == 1
      && var last := Lowered(Lowered(s)); Unserved(last) && last.cpu.current == 0 && last.waiters == [0, 1]
  {
    hide Lowered, Good, MayWait, IdleRuns;
    IdleGivesWay();
    var s := Lowered(IdleRuns());
    DownGood(s);
    AfterDown(s);
    DownKeepsCpu(s);
  }

  // ---------------------------------------------------------------- runs

  /** A step of a run: the running task calls up or down, or the scheduler acts. */
  datatype Act = CallUp | CallDown | Kernel(event: Event)

  /** What has happened so far: downs satisfied at once, tasks handed a resource and tasks that had to
      wait, both in order, and the number of ups. */
  datatype History = History(immediate: nat, handed: seq<nat>, waited: seq<nat>, ups: nat)

  predicate Possible(s: System, a: Act) {
    a.Kernel? ==> Enabled(s.cpu, a.event) && (a.event.ForkInto? ==> a.event.child !in s.waiters)
  }

  /** A down that has to wait is one that may. */
  predicate Careful(s: System, a: Act) {
    a == CallDown && s.counter == 0 ==> MayWait(s.cpu)
  }

  ghost function Step(s: System, a: Act): System
    requires Good(s) && Possible(s, a)
  {
    match a
    case CallUp => Raised(s)
    case CallDown => Lowered(s)
    case Kernel(e) => s.(cpu := Happen(s.cpu, e))
  }

  function Noted(s: System, h: History, a: Act): History {
    match a
    case CallUp => if s.waiters == [] then h.(ups := h.ups + 1) else h.(ups := h.ups + 1, handed := h.handed + [s.waiters[0]])
    case CallDown =>
      if s.counter > 0 then h.(immediate := h.immediate + 1) else h.(waited := h.waited + [s.cpu.current])
    case Kernel(_) => h
  }

  lemma HappenOk(c: Cpu, e: Event, ws: seq<nat>)
    requires Sound(c) && Enabled(c, e) && (e.ForkInto? ==> e.child !in ws)
    requires forall w :: w in ws ==> Asleep(c, w)
    ensures Sound(Happen(c, e)) && Happen(c, e).idle == c.idle && (forall w :: w in ws ==> Asleep(Happen(c, e), w))
    ensures Happen(c, e).current == c.current || Happen(c, e).current == c.idle || Happen(c, e).current in c.queue
    ensures |Happen(c, e).tasks| == |c.tasks|
    ensures forall t: nat :: t < |c.tasks| && c.tasks[t].running ==> Happen(c, e).tasks[t].running
  {
    hide Sound, QueueOk, Schedule, Enqueue;
    SoundIsPlaced(c);
    match e
    case Tick =>
      TickOk(c);
      var c' := UpdateCurRuntime(c);
      if c'.tasks[c'.current].need {
        SoundIsPlaced(c');
        ScheduleOk(c');
        AfterSchedule(c', Schedule(c'));
      }
    case ForkInto(t) => ForkOk(c, t);
  }

  /** A step keeps all waiters served if and only if it is no down that has to wait and may not: ups,
      ticks, switches and forks always do. */
  lemma StepServed(s: System, a: Act)
    requires Served(s) && Possible(s, a)
    ensures Served(Step(s, a)) <==> Careful(s, a)
  {
    match a
    case CallUp =>
      ServedIsOff(s);
      UpGood(s);
    case CallDown => DownServed(s);
    case Kernel(e) =>
      HappenOk(s.cpu, e, s.waiters);
      var c' := Happen(s.cpu, e).current;
      assert c' in s.cpu.queue ==> Waiting(s.cpu, c');
  }

  /** Every resource is accounted for, and waiters are served in the order they came, each once. */
  predicate Accounted(s: System, h: History, initial: nat) {
    && h.immediate + |h.handed| + s.counter == initial + h.ups
    && h.waited == h.handed + s.waiters
  }

  lemma StepAccounted(s: System, h: History, initial: nat, a: Act)
    requires Good(s) && Possible(s, a) && Accounted(s, h, initial)
    ensures Accounted(Step(s, a), Noted(s, h, a), initial)
  {
    hide Sound, Asleep, Distinct, Raised, Lowered, Happen;
    match a
    case CallUp =>
      UpGood(s);
      assert s.waiters != [] ==> s.waiters == [s.waiters[0]] + s.waiters[1..];
    case CallDown => DownGood(s);
    case Kernel(_) =>
  }

  /** A run in which every down that has to wait may. */
  ghost predicate Feasible(s: System, acts: seq<Act>)
    decreases |acts|
  {
    acts == [] || (Good(s) && Possible(s, acts[0]) && Careful(s, acts[0]) && Feasible(Step(s, acts[0]), acts[1..]))
  }

  ghost function Run(s: System, h: History, acts: seq<Act>): (System, History)
    requires Feasible(s, acts)
    decreases |acts|
  {
    if acts == [] then (s, h) else Run(Step(s, acts[0]), Noted(s, h, acts[0]), acts[1..])
  }

  /** Conservation and fairness of hand-off over every such run; and after it no waiter is on the CPU, so
      no down has come back unserved. */
  lemma {:induction false} RunIsAccounted(s: System, h: History, initial: nat, acts: seq<Act>)
    requires Served(s) && Feasible(s, acts) && Accounted(s, h, initial)
    ensures var (s', h') := Run(s, h, acts); Served(s') && Accounted(s', h', initial) && !Unserved(s')
    decreases |acts|
  {
    if acts == [] {
      ServedIsOff(s);
    } else {
      StepServed(s, acts[0]);
      StepAccounted(s, h, initial, acts[0]);
      RunIsAccounted(Step(s, acts[0]), Noted(s, h, acts[0]), initial, acts[1..]);
    }
  }

  /** Whoever waits stays off the CPU until up hands it a resource. */
  lemma {:induction false} ParkedUntilHanded(s: System, h: History, acts: seq<Act>, w: nat)
    requires Served(s) && Feasible(s, acts) && w in s.waiters
    ensures var (s', h') := Run(s, h, acts); w in h'.handed || (w in s'.waiters && w != s'.cpu.current)
    decreases |acts|
  {
    if acts == [] {
      ServedIsOff(s);
    } else {
      StepServed(s, acts[0]);
      StepParked(s, acts[0], w);
      var s1, h1 := Step(s, acts[0]), Noted(s, h, acts[0]);
      if w in h1.handed {
        HandedStays(s1, h1, acts[1..], w);
      } else {
        ParkedUntilHanded(s1, h1, acts[1..], w);
      }
    }
  }

  lemma StepParked(s: System, a: Act, w: nat)
    requires Good(s) && Possible(s, a) && w in s.waiters
    ensures w in Step(s, a).waiters || (a == CallUp && w == s.waiters[0])
  {
    match a
    case CallUp => UpGood(s);
    case CallDown => DownGood(s);
    case Kernel(e) =>
  }

  lemma {:induction false} HandedStays(s: System, h: History, acts: seq<Act>, w: nat)
    requires Feasible(s, acts) && w in h.handed
    ensures w in Run(s, h, acts).1.handed
    decreases |acts|
  {
    if acts != [] {
      HandedStays(Step(s, acts[0]), Noted(s, h, acts[0]), acts[1..], w);
    }
  }

  // ---------------------------------------------------------------- in place

  class Semaphore {
    const scheduler: TaskScheduler.Scheduler
    var counter: int
    var waiters: seq<nat>

    ghost function State(): System
      reads this, scheduler, scheduler.tasks
    {
      System(scheduler.State(), counter, waiters)
    }

    /** semaphore_init */
    constructor (scheduler: TaskScheduler.Scheduler, count: nat)
      requires Sound(scheduler.State())
      ensures this.scheduler == scheduler && State() == System(scheduler.State(), count, []) && Good(State())
    {
      this.scheduler := scheduler;
      counter, waiters := count, [];
    }

    method Up()
      requires Good(State())
      modifies this, scheduler`queue, scheduler`count, scheduler.tasks
      ensures State() == Raised(old(State()))
      ensures Good(State()) <==> (old(waiters) != [] && old(waiters[0]) == scheduler.current ==> scheduler.current == scheduler.idle)
    {
      UpGood(State());
      if waiters == [] {
        counter := counter + 1;
      } else {
        HandOver();
      }
    }

    /** __up */
    method HandOver()
      requires Good(State()) && waiters != []
      modifies this`waiters, scheduler`queue, scheduler`count, scheduler.tasks
      ensures State() == Raised(old(State()))
    {
      hide Sound, QueueOk, Enqueue, AllPlaced;
      var w := waiters[0];
      WokenOk(scheduler.State(), w);
      ghost var c := scheduler.State();
      waiters := waiters[1..];
      scheduler.tasks[w] := scheduler.tasks[w].(running := true);
      assert scheduler.State() == SetRunning(c, w, true);
      scheduler.EnqueueTask(w);
    }

    method Down()
      requires Good(State())
      modifies this, scheduler, scheduler.tasks
      ensures State() == Lowered(old(State()))
      ensures Good(State()) <==> old(scheduler.current) !in old(waiters)
    {
      DownGood(State());
      if counter > 0 {
        counter := counter - 1;
      } else {
        Wait();
      }
    }

    /** __down */
    method Wait()
      requires Good(State()) && counter == 0
      modifies this`waiters, scheduler, scheduler.tasks
      ensures State() == Lowered(old(State()))
    {
      hide Sound, QueueOk, Schedule, Scheduled;
      ghost var c := scheduler.State();
      BlockedOk(c);
      SoundIsPlaced(c);
      scheduler.tasks[scheduler.current] := scheduler.tasks[scheduler.current].(running := false);
      waiters := waiters + [scheduler.current];
      assert scheduler.State() == SetRunning(c, c.current, false);
      scheduler.Schedule();
    }
  }
}
