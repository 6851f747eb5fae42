/** The spinlock as a protocol: any number of CPUs take the atomic steps of spin_lock and spin_unlock in
    any order. The lock word is a signed 64-bit number, as `jns` and `jle` read it. */
module Spinlock {

  const LEAST_WORD := -0x8000_0000_0000_0000
  const MOST_WORD := 0x7fff_ffff_ffff_ffff

  /** Where a CPU stands: outside the lock's code, in front of `lock decq`, in front of `cmpq`, or
      between the store of spin_unlock and its preempt_enable. */
  datatype Place = Outside | Trying | Spinning | Stored

  /** A CPU holds the lock from coming back out of spin_lock to its own spin_unlock. */
  datatype Cpu = Cpu(place: Place, holds: bool, preempt: int)

  datatype State = State(lock: int, cpus: seq<Cpu>)

  /** The atomic steps: the call with its preempt_disable, the decrement, the test of the spin loop,
      the store of one, and the preempt_enable after it. */
  datatype Move = Call | Decrement | Test | Store | Return

  function Decremented(word: int): int {
    if word == LEAST_WORD then MOST_WORD else word - 1
  }

  /** Any CPU may call spin_lock and spin_unlock, whether it holds the lock or not: the start-up code
      locks on one CPU and unlocks on another. */
  predicate Enabled(s: State, i: nat, m: Move) {
    && i < |s.cpus|
    && match m
       case Call => s.cpus[i].place == Outside
       case Decrement => s.cpus[i].place == Trying
       case Test => s.cpus[i].place == Spinning
       case Store => s.cpus[i].place == Outside
       case Return => s.cpus[i].place == Stored
  }

  function Next(s: State, i: nat, m: Move): State
    requires Enabled(s, i, m)
  {
    var c := s.cpus[i];
    match m
    case Call => s.(cpus := s.cpus[i := c.(place := Trying, preempt := c.preempt + 1)])
    case Decrement =>
      var lock := Decremented(s.lock);
      State(lock, s.cpus[i := if lock >= 0 then c.(place := Outside, holds := true) else c.(place := Spinning)])
    case Test => if s.lock <= 0 then s else s.(cpus := s.cpus[i := c.(place := Trying)])
    case Store => State(1, s.cpus[i := c.(place := Stored, holds := false)])
    case Return => s.(cpus := s.cpus[i := c.(place := Outside, preempt := c.preempt - 1)])
  }

  /** spin_init, seen by n CPUs that are outside it. */
  function Initial(n: nat): State {
    State(1, seq(n, i => Cpu(Outside, false, 0)))
  }

  // ---------------------------------------------------------------- what every step keeps

  function Spinners(cpus: seq<Cpu>): nat {
    if cpus == [] then 0 else (if cpus[0].place == Spinning then 1 else 0) + Spinners(cpus[1..])
  }

  predicate NoHolder(cpus: seq<Cpu>) {
    forall i :: 0 <= i < |cpus| ==> !cpus[i].holds
  }

  predicate OneHolder(cpus: seq<Cpu>) {
    forall i, j :: 0 <= i < j < |cpus| ==> !cpus[i].holds || !cpus[j].holds
  }

  /** What no step can break, whoever unlocks: the word is at most one and falls below zero only by
      the CPUs that spin, and a taken lock has a holder. */
  predicate Sane(s: State) {
    0 <= s.lock + Spinners(s.cpus) && s.lock <= 1 && (s.lock <= 0 ==> !NoHolder(s.cpus))
  }

  /** Mutual exclusion, with what the word must say for it to last. */
  predicate Exclusive(s: State) {
    OneHolder(s.cpus) && (s.lock == 1 ==> NoHolder(s.cpus))
  }

  lemma {:induction false} SpinnersUpdate(cpus: seq<Cpu>, i: nat, c: Cpu)
    requires i < |cpus|
    ensures Spinners(cpus[i := c]) ==
      Spinners(cpus) - (if cpus[i].place == Spinning then 1 else 0) + (if c.place == Spinning then 1 else 0)
  {
    if i > 0 {
      SpinnersUpdate(cpus[1..], i - 1, c);
      assert cpus[i := c][1..] == cpus[1..][i - 1 := c];
    } else {
      assert cpus[i := c][1..] == cpus[1..];
    }
  }

  lemma {:induction false} SpinnersBound(cpus: seq<Cpu>)
    ensures Spinners(cpus) <= |cpus|
    ensures Spinners(cpus) == |cpus| ==> forall i :: 0 <= i < |cpus| ==> cpus[i].place == Spinning
  {
    if cpus != [] {
      SpinnersBound(cpus[1..]);
      assert forall i :: 0 < i < |cpus| ==> cpus[i] == cpus[1..][i - 1];
    }
  }

  lemma NextSane(s: State, i: nat, m: Move)
    requires Sane(s) && Enabled(s, i, m) && |s.cpus| < MOST_WORD
    ensures Sane(Next(s, i, m)) && |Next(s, i, m).cpus| == |s.cpus|
  {
    var s' := Next(s, i, m);
    SpinnersUpdate(s.cpus, i, s'.cpus[i]);
    SpinnersBound(s.cpus);
    assert s'.cpus == s.cpus[i := s'.cpus[i]];
    if s'.lock <= 0 {
      if s.lock <= 0 {
        var j :| 0 <= j < |s.cpus| && s.cpus[j].holds;
        assert s'.cpus[j].holds;
      } else {
        assert s'.cpus[i].holds;
      }
    }
  }

  // ---------------------------------------------------------------- mutual exclusion

  /** A store that gives up the caller's own lock, or one that is free already. */
  predicate Releases(s: State, i: nat)
    requires i < |s.cpus|
  {
    s.cpus[i].holds || NoHolder(s.cpus)
  }

  /** Every step keeps mutual exclusion, except a store that takes the lock from another CPU. */
  lemma NextExclusive(s: State, i: nat, m: Move)
    requires Sane(s) && Exclusive(s) && Enabled(s, i, m) && |s.cpus| < MOST_WORD
    ensures Exclusive(Next(s, i, m)) <==> (m == Store ==> Releases(s, i))
  {
    var s' := Next(s, i, m);
    SpinnersBound(s.cpus);
    if m == Store && !Releases(s, i) {
      var j :| 0 <= j < |s.cpus| && s.cpus[j].holds;
      assert s'.cpus[j].holds;
    }
  }

  /** And such a store is fatal: the CPU that made it can take the lock while the other still holds it. */
  lemma StolenLock(s: State, i: nat)
    requires Sane(s) && Exclusive(s) && Enabled(s, i, Store) && !Releases(s, i)
    ensures var run := [(i, Store), (i, Return), (i, Call), (i, Decrement)];
      Feasible(s, run) && !OneHolder(After(s, run).cpus)
  {
    var j :| 0 <= j < |s.cpus| && s.cpus[j].holds;
    var s1 := Next(s, i, Store);
    var s2 := Next(s1, i, Return);
    var s3 := Next(s2, i, Call);
    var s4 := Next(s3, i, Decrement);
    assert i != j && s4.cpus[i].holds && s4.cpus[j].holds;
    var run := [(i, Store), (i, Return), (i, Call), (i, Decrement)];
    OneStep(s, run);
    OneStep(s1, run[1..]);
    OneStep(s2, run[2..]);
    OneStep(s3, run[3..]);
    if i < j {
      assert !OneHolder(s4.cpus);
    }
  }

  lemma OneStep(s: State, run: seq<(nat, Move)>)
    requires run != [] && Enabled(s, run[0].0, run[0].1)
    ensures var s' := Next(s, run[0].0, run[0].1);
      Feasible(s', run[1..]) ==> Feasible(s, run) && After(s, run) == After(s', run[1..])
    ensures |run| == 1 ==> Feasible(s, run) && After(s, run) == Next(s, run[0].0, run[0].1)
    ensures forall k :: 1 <= k <= |run| ==> run[1..][k - 1..] == run[k..]
  {
    if |run| == 1 {
      assert run[1..] == [];
    }
  }

  // ---------------------------------------------------------------- runs

  ghost predicate Feasible(s: State, run: seq<(nat, Move)>)
    decreases |run|
  {
    run == [] || (Enabled(s, run[0].0, run[0].1) && Feasible(Next(s, run[0].0, run[0].1), run[1..]))
  }

  ghost function After(s: State, run: seq<(nat, Move)>): State
    requires Feasible(s, run)
    decreases |run|
  {
    if run == [] then s else After(Next(s, run[0].0, run[0].1), run[1..])
  }

  /** No CPU calls spin_lock while it holds the lock. */
  ghost predicate NoReentry(s: State, run: seq<(nat, Move)>)
    requires Feasible(s, run)
    decreases |run|
  {
    run == [] || ((run[0].1 == Call ==> !s.cpus[run[0].0].holds) && NoReentry(Next(s, run[0].0, run[0].1), run[1..]))
  }

  predicate HoldersOutside(s: State) {
    forall i :: 0 <= i < |s.cpus| && s.cpus[i].holds ==> s.cpus[i].place == Outside
  }

  /** Over every run, whoever locks and unlocks, the word is at most one and at least -n, and at least
      1 - n when no holder calls spin_lock again: it never wraps. */
  lemma {:induction false} RunIsSane(s: State, run: seq<(nat, Move)>)
    requires Sane(s) && Feasible(s, run) && |s.cpus| < MOST_WORD
    ensures Sane(After(s, run)) && -|s.cpus| <= After(s, run).lock <= 1 && |After(s, run).cpus| == |s.cpus|
    ensures HoldersOutside(s) && NoReentry(s, run) ==>
      HoldersOutside(After(s, run)) && (s.cpus != [] ==> 1 - |s.cpus| <= After(s, run).lock)
    decreases |run|
  {
    if run == [] {
      SpinnersBound(s.cpus);
    } else {
      NextSane(s, run[0].0, run[0].1);
      RunIsSane(Next(s, run[0].0, run[0].1), run[1..]);
    }
  }

  /** Every store of the run gives up the caller's own lock, or a free one. */
  ghost predicate AllRelease(s: State, run: seq<(nat, Move)>)
    requires Feasible(s, run)
    decreases |run|
  {
    run == [] || ((run[0].1 == Store ==> Releases(s, run[0].0)) && AllRelease(Next(s, run[0].0, run[0].1), run[1..]))
  }

  /** Only holders store. */
  ghost predicate OnlyHoldersStore(s: State, run: seq<(nat, Move)>)
    requires Feasible(s, run)
    decreases |run|
  {
    run == [] ||
    ((run[0].1 == Store ==> s.cpus[run[0].0].holds) && OnlyHoldersStore(Next(s, run[0].0, run[0].1), run[1..]))
  }

  /** Mutual exclusion over every run in which no store takes the lock from another CPU: at most one
      holder, and the word is one exactly when there is none. When only holders store, preempt_count
      counts as well. */
  lemma {:induction false} RunIsSafe(s: State, run: seq<(nat, Move)>)
    requires Sane(s) && Exclusive(s) && Feasible(s, run) && |s.cpus| < MOST_WORD
    ensures AllRelease(s, run) ==>
      var s' := After(s, run); Exclusive(s') && (s'.lock == 1 <==> NoHolder(s'.cpus))
    ensures OnlyHoldersStore(s, run) ==> AllRelease(s, run)
    ensures OnlyHoldersStore(s, run) && Counted(s) ==> Counted(After(s, run))
    decreases |run|
  {
    if run != [] {
      var (i, m) := run[0];
      NextSane(s, i, m);
      NextExclusive(s, i, m);
      if m == Store ==> Releases(s, i) {
        if Counted(s) && (m == Store ==> s.cpus[i].holds) {
          NextCounted(s, i, m);
          SpinnersBound(s.cpus);
        }
        RunIsSafe(Next(s, i, m), run[1..]);
      }
    }
  }

  lemma InitialIsSafe(n: nat)
    ensures Sane(Initial(n)) && Exclusive(Initial(n)) && Counted(Initial(n)) && HoldersOutside(Initial(n))
    ensures |Initial(n).cpus| == n
  {
  }

  // ---------------------------------------------------------------- preempt_count

  /** A CPU that holds the lock, or is on its way in or out, is not preemptible; any other one is. */
  predicate PreemptCounted(c: Cpu) {
    c.preempt == (if c.place != Outside then 1 else 0) + (if c.holds then 1 else 0)
  }

  predicate Counted(s: State) {
    forall i :: 0 <= i < |s.cpus| ==> PreemptCounted(s.cpus[i])
  }

  /** preempt_count goes wrong in exactly two steps: a CPU unlocks what it does not hold, or takes
      once more what it has not unlocked. */
  lemma NextCounted(s: State, i: nat, m: Move)
    requires Counted(s) && Enabled(s, i, m)
    ensures Counted(Next(s, i, m)) <==>
      && (m == Store ==> s.cpus[i].holds)
      && (m == Decrement && s.cpus[i].holds ==> Decremented(s.lock) < 0)
  {
    var s' := Next(s, i, m);
    assert PreemptCounted(s.cpus[i]);
    assert forall j :: 0 <= j < |s.cpus| && j != i ==> s'.cpus[j] == s.cpus[j];
    if (m == Store ==> s.cpus[i].holds) && (m == Decrement && s.cpus[i].holds ==> Decremented(s.lock) < 0) {
      assert PreemptCounted(s'.cpus[i]);
    } else {
      assert !PreemptCounted(s'.cpus[i]);
    }
  }

  // ---------------------------------------------------------------- progress

  /** A free lock is never lost: a CPU that tries takes it with its next step, and a CPU that spins
      leaves the loop with its next test, exactly when nobody holds the lock. */
  lemma FreeLockIsTaken(s: State, i: nat)
    requires Sane(s) && Exclusive(s) && i < |s.cpus| && |s.cpus| < MOST_WORD
    ensures s.cpus[i].place == Trying && !s.cpus[i].holds ==> (Next(s, i, Decrement).cpus[i].holds <==> NoHolder(s.cpus))
    ensures s.cpus[i].place == Spinning ==> (Next(s, i, Test).cpus[i].place == Trying <==> NoHolder(s.cpus))
  {
    SpinnersBound(s.cpus);
  }

  predicate Inside(s: State, i: nat) {
    i < |s.cpus| && s.cpus[i].place in {Trying, Spinning}
  }

  /** A CPU that calls spin_lock while the lock is taken, as a holder that calls it again, stays inside
      over every run in which no other CPU stores one. */
  lemma {:induction false} WaitsForStore(s: State, run: seq<(nat, Move)>, i: nat)
    requires Sane(s) && Feasible(s, run) && |s.cpus| < MOST_WORD && Inside(s, i) && s.lock <= 0
    requires forall k :: 0 <= k < |run| && run[k].1 == Store ==> run[k].0 == i
    ensures Inside(After(s, run), i)
    decreases |run|
  {
    if run != [] {
      var s' := Next(s, run[0].0, run[0].1);
      NextSane(s, run[0].0, run[0].1);
      SpinnersBound(s.cpus);
      assert s'.lock <= 0 && Inside(s', i);
      assert forall k :: 0 <= k < |run[1..]| ==> run[1..][k] == run[k + 1];
      WaitsForStore(s', run[1..], i);
    }
  }

  /** When every CPU is inside a taken lock, nobody comes back any more. */
  lemma {:induction false} AllInsideStay(s: State, run: seq<(nat, Move)>)
    requires Sane(s) && Feasible(s, run) && |s.cpus| < MOST_WORD && s.lock <= 0
    requires forall i: nat :: i < |s.cpus| ==> Inside(s, i)
    ensures |After(s, run).cpus| == |s.cpus| && forall i: nat :: i < |s.cpus| ==> Inside(After(s, run), i)
    decreases |run|
  {
    if run != [] {
      var (i, m) := run[0];
      assert Inside(s, i);
      NextSane(s, i, m);
      SpinnersBound(s.cpus);
      var s' := Next(s, i, m);
      forall k: nat | k < |s'.cpus|
        ensures Inside(s', k)
      {
        assert Inside(s, k);
      }
      AllInsideStay(s', run[1..]);
    }
  }

  /** A waiting CPU and one that can store: the store and the waiting CPU's own steps let it through. */
  lemma StoreLetsThrough(s: State, i: nat, j: nat)
    requires Sane(s) && |s.cpus| < MOST_WORD && Inside(s, i) && Enabled(s, j, Store)
    ensures var run := if s.cpus[i].place == Spinning then [(j, Store), (i, Test), (i, Decrement)] else [(j, Store), (i, Decrement)];
      && Feasible(s, run) && |After(s, run).cpus| == |s.cpus|
      && After(s, run).cpus[i].place == Outside && After(s, run).cpus[i].holds && After(s, run).lock == 0
  {
    var s1 := Next(s, j, Store);
    if s.cpus[i].place == Spinning {
      var run := [(j, Store), (i, Test), (i, Decrement)];
      var s2 := Next(s1, i, Test);
      OneStep(s, run);
      OneStep(s1, run[1..]);
      OneStep(s2, run[2..]);
    } else {
      var run := [(j, Store), (i, Decrement)];
      OneStep(s, run);
      OneStep(s1, run[1..]);
    }
  }

  /** A CPU that waits for a taken lock, as a holder that calls spin_lock again does, comes back in some
      run if and only if some CPU is not inside: that one can store, and a store is enough. */
  lemma WaiterMayReturn(s: State, i: nat)
    requires Sane(s) && |s.cpus| < MOST_WORD && Inside(s, i) && s.lock <= 0
    ensures (exists run :: Feasible(s, run) && !Inside(After(s, run), i)) <==> (exists j: nat :: j < |s.cpus| && !Inside(s, j))
  {
    if j: nat :| j < |s.cpus| && !Inside(s, j) {
      if s.cpus[j].place == Outside {
        StoreLetsThrough(s, i, j);
      } else {
        var s1 := Next(s, j, Return);
        NextSane(s, j, Return);
        StoreLetsThrough(s1, i, j);
        var rest := if s.cpus[i].place == Spinning then [(j, Store), (i, Test), (i, Decrement)] else [(j, Store), (i, Decrement)];
        var run := [(j, Return)] + rest;
        assert run[1..] == rest;
        OneStep(s, run);
        assert Feasible(s, run) && !Inside(After(s, run), i);
      }
    } else {
      forall run | Feasible(s, run)
        ensures Inside(After(s, run), i)
      {
        AllInsideStay(s, run);
      }
    }
  }
}
