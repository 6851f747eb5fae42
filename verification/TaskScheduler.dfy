/** scheduler.c in place: one CPU's `struct scheduler`. The run queue is a sequence; place |queue|
    stands for the list head, whose virtual run time is the sentinel. */
module TaskScheduler {
  import opened Scheduling

  class Scheduler {
    const tasks: array<Task>
    const idle: nat
    var queue: seq<nat>
    var current: nat
    var slice: int
    var count: int

    ghost function State(): Cpu
      reads this, tasks
    {
      Cpu(tasks[..], queue, current, idle, slice, count)
    }

    /** scheduler_init for one CPU, entered by its idle task. */
    constructor (tasks: array<Task>, idle: nat)
      ensures this.tasks == tasks && this.idle == idle && State() == Initial(tasks[..], idle)
      ensures queue == [] && current == idle && slice == 4 && count == 1
    {
      this.tasks, this.idle := tasks, idle;
      queue, current := [], idle;
      slice, count := 4, 1;
    }

    method UpdateCurRuntime()
      requires current < tasks.Length
      modifies this`slice, tasks
      ensures State() == Scheduling.UpdateCurRuntime(old(State()))
    {
      var t := tasks[current];
      if t.priority == 0 || t.priority == 1 {
        slice := slice - 1;
        tasks[current] := t.(vruntime := t.vruntime + 1);
      } else {
        slice := slice - 2;
        tasks[current] := t.(vruntime := t.vruntime + 2);
      }
      if slice <= 0 {
        tasks[current] := tasks[current].(need := true);
      }
    }

    method PickNextTask() returns (t: nat)
      modifies this`queue, this`count
      ensures (State(), t) == PickNext(old(State()))
    {
      if queue == [] {
        return idle;
      }
      t := queue[0];
      queue := queue[1..];
      count := count - 1;
    }

    /** The virtual run time found at place i of the ring, the head included. */
    function RuntimeAt(i: nat): int
      requires i <= |queue| && AllPlaced(State())
      reads this, tasks
    {
      if i < |queue| then
        assert queue[i] in State().queue;
        tasks[queue[i]].vruntime
      else SENTINEL
    }

    method EnqueueTask(t: nat)
      requires AllPlaced(State()) && Placed(State(), t)
      modifies this`queue, this`count
      ensures State() == Enqueue(old(State()), t)
    {
      if t == idle {
        return;
      }
      var i := 0;
      if queue != [] {
        while RuntimeAt(i) < tasks[t].vruntime
          invariant i <= |queue|
          invariant Position(State(), 0, V(State(), t)) == Position(State(), i, V(State(), t))
          decreases |queue| - i
        {
          i := i + 1;
        }
      }
      queue := Inserted(queue, i, t);
      count := count + 1;
    }

    method InitTimeslice(t: nat)
      requires t < tasks.Length && count > 0
      modifies this`slice
      ensures State() == Scheduling.InitTimeslice(old(State()), t)
    {
      if slice == 0 {
        if tasks[t].priority == 0 || tasks[t].priority == 1 {
          slice := 4 / count;
        } else {
          slice := 4 / count * 3;
        }
      }
    }

    method Schedule()
      requires Sound(State())
      modifies this, tasks
      ensures State() == Scheduling.Schedule(old(State()))
      ensures Scheduled(old(State()), State())
    {
      hide Sound, QueueOk, Enqueue, AllPlaced, Scheduling.InitTimeslice, Scheduled;
      ghost var c := State();
      SoundIsPlaced(c);
      ScheduleOk(c);
      tasks[current] := tasks[current].(need := false);
      ghost var c0 := State();
      SchedulePlaced(c, c0);
      var next := PickNextTask();
      ghost var c1 := State();
      assert (c1, next) == PickNext(c0);
      assert Placed(c1, next) && Placed(c1, current) by { PickPlaced(c, c0); }
      if tasks[current].vruntime >= tasks[next].vruntime {
        if tasks[current].running {
          EnqueueTask(current);
          EnqueueCounts(c1, current);
        }
        InitTimeslice(next);
        current := next;
      } else {
        EnqueueTask(next);
        EnqueueCounts(c1, next);
        InitTimeslice(current);
      }
    }

    /** The part of do_fork that concerns scheduling, for a child in a free place of the table. */
    method Fork(child: nat)
      requires Sound(State()) && Enabled(State(), ForkInto(child))
      modifies this`queue, this`count, tasks
      ensures State() == Scheduling.Fork(old(State()), child)
      ensures Sound(State())
    {
      ghost var c := State();
      SoundIsPlaced(c);
      ForkOk(c, child);
      CopyPlaced(c, child);
      tasks[child] := tasks[current].(running := true, priority := 2);
      assert State() == Copied(c, child);
      EnqueueTask(child);
    }

    /** A clock interrupt and the schedule it may lead to on its way out. */
    method Interrupt()
      requires Sound(State()) && Enabled(State(), Tick)
      modifies this, tasks
      ensures State() == Happen(old(State()), Tick) && Sound(State())
    {
      hide Sound, QueueOk, Scheduled, Scheduling.Schedule, Scheduling.UpdateCurRuntime;
      TickOk(State());
      SoundIsPlaced(State());
      UpdateCurRuntime();
      SoundIsPlaced(State());
      if tasks[current].need {
        ghost var c := State();
        Schedule();
        AfterSchedule(c, State());
      }
    }
  }

  lemma PickPlaced(c: Cpu, c0: Cpu)
    requires Sound(c) && c0 == c.(tasks := c.tasks[c.current := c.tasks[c.current].(need := false)])
    ensures var (c1, next) := PickNext(c0); Placed(c1, next) && Placed(c1, c1.current)
  {
    SameQueue(c, c0);
    PickedIsLeast(c0);
  }

  lemma EnqueueCounts(c: Cpu, t: nat)
    requires t < |c.tasks| && AllPlaced(c)
    ensures Enqueue(c, t).count >= c.count && Enqueue(c, t).tasks == c.tasks && Enqueue(c, t).current == c.current
  {
  }
}
