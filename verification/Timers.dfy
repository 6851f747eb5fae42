/** The timer list: ordered by expiry behind a head that never expires, tested only at its first entry
    by the clock interrupt, and emptied of due timers by do_timer. */
module Timers {

  /** Expiry of the list head: the largest unsigned 64-bit number. */
  const NEVER := 0xffff_ffff_ffff_ffff

  type Jiffies = x: int | 0 <= x <= NEVER

  /** `name` stands for the handler and its argument. */
  datatype Timer = Timer(expire: Jiffies, name: nat)

  /** The timers a handler arms when it runs for a timer at a time. */
  type Handler = (Jiffies, Timer) -> seq<Timer>

  predicate Sorted(list: seq<Timer>) {
    forall i, j :: 0 <= i < j < |list| ==> list[i].expire <= list[j].expire
  }

  /** The first entry, or the head when the list is empty: what the interrupt handler looks at. */
  function FirstExpiry(list: seq<Timer>): Jiffies {
    if list == [] then NEVER else list[0].expire
  }

  predicate SomeDue(list: seq<Timer>, now: Jiffies) {
    exists t :: t in list && t.expire <= now
  }

  predicate AllLater(list: seq<Timer>, now: Jiffies) {
    forall t :: t in list ==> t.expire > now
  }

  ghost predicate RearmsLater(handler: Handler, now: Jiffies) {
    forall t :: AllLater(handler(now, t), now)
  }

  /** Looking only at the head of a sorted list answers whether any timer is due, except at the very
      last jiffy with no timer armed, where the head itself looks due. */
  lemma HeadTestIsExact(list: seq<Timer>, now: Jiffies)
    requires Sorted(list)
    ensures (FirstExpiry(list) <= now <==> SomeDue(list, now)) <==> (now < NEVER || list != [])
  {
    if list != [] {
      assert list[0] in list;
    }
  }

  // ---------------------------------------------------------------- insertion

  /** In front of the first timer that is not earlier. */
  function Position(list: seq<Timer>, k: nat, t: Timer): (r: nat)
    requires k <= |list|
    ensures k <= r <= |list|
    decreases |list| - k
  {
    if k < |list| && list[k].expire < t.expire then Position(list, k + 1, t) else k
  }

  /** add_timer */
  function Add(list: seq<Timer>, t: Timer): seq<Timer> {
    var k := Position(list, 0, t);
    list[..k] + [t] + list[k..]
  }

  lemma {:induction false} PositionSplits(list: seq<Timer>, k: nat, t: Timer)
    requires k <= |list|
    ensures forall i :: k <= i < Position(list, k, t) ==> list[i].expire < t.expire
    ensures Position(list, k, t) < |list| ==> list[Position(list, k, t)].expire >= t.expire
    decreases |list| - k
  {
    if k < |list| && list[k].expire < t.expire {
      PositionSplits(list, k + 1, t);
    }
  }

  /** Adding puts the timer between the earlier ones and the others, its equals included. */
  lemma AddSplits(list: seq<Timer>, t: Timer)
    ensures var k, r := Position(list, 0, t), Add(list, t);
      && |r| == |list| + 1 && r[k] == t
      && (forall i :: 0 <= i < k ==> r[i] == list[i] && r[i].expire < t.expire)
      && (forall i :: k < i < |r| ==> r[i] == list[i - 1])
      && (k < |list| ==> list[k].expire >= t.expire)
  {
    PositionSplits(list, 0, t);
  }

  /** Adding keeps the order and adds exactly the one timer. */
  lemma AddKeepsOrder(list: seq<Timer>, t: Timer)
    requires Sorted(list)
    ensures Sorted(Add(list, t)) && multiset(Add(list, t)) == multiset(list) + multiset{t}
  {
    AddSplits(list, t);
    InsertedMultiset(list, Position(list, 0, t), t);
    assert Sorted(Add(list, t)) by {
      hide Position, Add;
    }
  }

  lemma InsertedMultiset(list: seq<Timer>, k: nat, t: Timer)
    requires k <= |list|
    ensures multiset(list[..k] + [t] + list[k..]) == multiset(list) + multiset{t}
  {
    assert list == list[..k] + list[k..];
  }

  function AddAll(list: seq<Timer>, ts: seq<Timer>): seq<Timer>
    decreases |ts|
  {
    if ts == [] then list else AddAll(Add(list, ts[0]), ts[1..])
  }

  /** How many timers at the front are due. */
  function Due(list: seq<Timer>, now: Jiffies): (n: nat)
    ensures n <= |list|
  {
    if list != [] && list[0].expire <= now then 1 + Due(list[1..], now) else 0
  }

  lemma {:induction false} DueSplits(list: seq<Timer>, now: Jiffies)
    requires Sorted(list)
    ensures forall i :: 0 <= i < |list| ==> (i < Due(list, now) <==> list[i].expire <= now)
  {
    if list != [] && list[0].expire <= now {
      DueSplits(list[1..], now);
      assert forall i :: 0 < i < |list| ==> list[i] == list[1..][i - 1];
    }
  }

  /** Adding a timer that is not yet due leaves the due part of the list alone. */
  lemma AddLater(list: seq<Timer>, t: Timer, now: Jiffies)
    requires Sorted(list) && t.expire > now
    ensures Due(Add(list, t), now) == Due(list, now)
    ensures Add(list, t)[..Due(list, now)] == list[..Due(list, now)]
  {
    AddSplits(list, t);
    AddKeepsOrder(list, t);
    DueSplits(list, now);
    DueSplits(Add(list, t), now);
    hide Position, Add, Due;
    var k, n, m := Position(list, 0, t), Due(list, now), Due(Add(list, t), now);
    assert n <= k && m <= k;
    assert n < k ==> Add(list, t)[n] == list[n];
    assert m < k ==> Add(list, t)[m] == list[m];
  }

  lemma {:induction false} AddAllLater(list: seq<Timer>, ts: seq<Timer>, now: Jiffies)
    requires Sorted(list) && AllLater(ts, now)
    ensures Sorted(AddAll(list, ts)) && Due(AddAll(list, ts), now) == Due(list, now)
    ensures AddAll(list, ts)[..Due(list, now)] == list[..Due(list, now)]
    ensures multiset(AddAll(list, ts)) == multiset(list) + multiset(ts)
    decreases |ts|
  {
    hide Sorted, Due, Add;
    if ts != [] {
      assert ts[0] in ts;
      AddLater(list, ts[0], now);
      AddKeepsOrder(list, ts[0]);
      assert forall t :: t in ts[1..] ==> t in ts;
      AddAllLater(Add(list, ts[0]), ts[1..], now);
      assert ts == [ts[0]] + ts[1..];
    } else {
      assert multiset(ts) == multiset{};
    }
  }

  // ---------------------------------------------------------------- do_timer

  /** One turn of the loop: the first timer is taken off and its handler runs. */
  function Fire(list: seq<Timer>, handler: Handler, now: Jiffies): seq<Timer>
    requires list != []
  {
    AddAll(list[1..], handler(now, list[0]))
  }

  lemma FireOne(list: seq<Timer>, handler: Handler, now: Jiffies)
    requires Sorted(list) && Due(list, now) > 0 && RearmsLater(handler, now)
    ensures var list' := Fire(list, handler, now);
      && Sorted(list') && Due(list', now) == Due(list, now) - 1
      && list'[..Due(list', now)] == list[1..Due(list, now)]
      && multiset(list') == multiset(list) - multiset{list[0]} + multiset(handler(now, list[0]))
  {
    var rest := list[1..];
    assert list == [list[0]] + rest && Due(list, now) == 1 + Due(rest, now) && Sorted(rest);
    assert AllLater(handler(now, list[0]), now);
    hide Sorted, Due, AddAll, AllLater;
    AddAllLater(rest, handler(now, list[0]), now);
    assert rest[..Due(rest, now)] == list[1..Due(list, now)];
  }

  /** do_timer, with the timers it fires in order. */
  function FireDue(list: seq<Timer>, handler: Handler, now: Jiffies): (seq<Timer>, seq<Timer>)
    requires Sorted(list) && RearmsLater(handler, now)
    decreases Due(list, now)
  {
    if list != [] && list[0].expire <= now then
      FireOne(list, handler, now);
      var (fired, rest) := FireDue(Fire(list, handler, now), handler, now);
      ([list[0]] + fired, rest)
    else ([], list)
  }

  /** Everything the handlers of these timers arm. */
  function Rearmed(fired: seq<Timer>, handler: Handler, now: Jiffies): multiset<Timer> {
    if fired == [] then multiset{} else multiset(handler(now, fired[0])) + Rearmed(fired[1..], handler, now)
  }

  /** do_timer fires exactly the due timers, each once and in order of expiry, and leaves only later
      ones. */
  lemma FireDueIsExact(list: seq<Timer>, handler: Handler, now: Jiffies)
    requires Sorted(list) && RearmsLater(handler, now)
    ensures var (fired, rest) := FireDue(list, handler, now);
      && fired == list[..Due(list, now)] && Sorted(fired) && Sorted(rest) && AllLater(rest, now)
      && (forall t :: t in list ==> (t in fired <==> t.expire <= now))
  {
    hide FireDue, Due;
    FiredPrefix(list, handler, now);
    DueSplits(FireDue(list, handler, now).1, now);
    DueMembers(list, now);
  }

  lemma DueMembers(list: seq<Timer>, now: Jiffies)
    requires Sorted(list)
    ensures forall t :: t in list ==> (t in list[..Due(list, now)] <==> t.expire <= now)
  {
    DueSplits(list, now);
  }

  lemma FireDueStep(list: seq<Timer>, handler: Handler, now: Jiffies)
    requires Sorted(list) && RearmsLater(handler, now) && list != [] && list[0].expire <= now
    ensures var list' := Fire(list, handler, now);
      && Sorted(list') && Due(list', now) < Due(list, now)
      && var (fired, rest) := FireDue(list', handler, now);
      FireDue(list, handler, now) == ([list[0]] + fired, rest)
  {
    FireOne(list, handler, now);
  }

  lemma {:induction false} FiredPrefix(list: seq<Timer>, handler: Handler, now: Jiffies)
    requires Sorted(list) && RearmsLater(handler, now)
    ensures FireDue(list, handler, now).0 == list[..Due(list, now)]
    ensures Sorted(FireDue(list, handler, now).1) && Due(FireDue(list, handler, now).1, now) == 0
    decreases Due(list, now)
  {
    if list != [] && list[0].expire <= now {
      hide FireDue, Sorted, Fire, Due;
      DueStep(list, now);
      FireDueStep(list, handler, now);
      FireOne(list, handler, now);
      FiredPrefix(Fire(list, handler, now), handler, now);
      assert list[..Due(list, now)] == [list[0]] + list[1..Due(list, now)];
    }
  }

  lemma FireTail(list: seq<Timer>, handler: Handler, now: Jiffies)
    requires Sorted(list) && Due(list, now) > 0 && RearmsLater(handler, now)
    ensures var list', n := Fire(list, handler, now), Due(list, now);
      n - 1 <= |list'| && multiset(list'[n - 1..]) == multiset(list[n..]) + multiset(handler(now, list[0]))
  {
    FireOne(list, handler, now);
    hide *;
    TailsAgree(list, Fire(list, handler, now), handler(now, list[0]), Due(list, now));
  }

  lemma TailsAgree(list: seq<Timer>, list': seq<Timer>, added: seq<Timer>, n: nat)
    requires 1 <= n <= |list| && n - 1 <= |list'| && list'[..n - 1] == list[1..n]
    requires multiset(list') == multiset(list) - multiset{list[0]} + multiset(added)
    ensures multiset(list'[n - 1..]) == multiset(list[n..]) + multiset(added)
  {
    var fired := list[1..n];
    assert list == [list[0]] + fired + list[n..];
    assert list' == fired + list'[n - 1..];
    Cancel(multiset(list), multiset(fired), multiset{list[0]}, multiset(list[n..]), multiset(added), multiset(list'[n - 1..]));
  }

  lemma Cancel<T>(all: multiset<T>, fired: multiset<T>, first: multiset<T>, rest: multiset<T>, added: multiset<T>, rest': multiset<T>)
    requires all == first + fired + rest && fired + rest' == all - first + added
    ensures rest' == rest + added
  {
    forall t: T
      ensures rest'[t] == rest[t] + added[t]
    {
      assert (fired + rest')[t] == fired[t] + rest'[t];
    }
  }

  /** do_timer keeps every timer that is not due, and adds what the handlers armed. */
  lemma {:induction false} FireDueKeepsTheRest(list: seq<Timer>, handler: Handler, now: Jiffies)
    requires Sorted(list) && RearmsLater(handler, now)
    ensures var (fired, rest) := FireDue(list, handler, now);
      multiset(rest) == multiset(list[Due(list, now)..]) + Rearmed(fired, handler, now)
    decreases Due(list, now)
  {
    if list != [] && list[0].expire <= now {
      hide FireDue, Sorted, Fire, Due, RearmsLater;
      DueStep(list, now);
      FireDueStep(list, handler, now);
      FireOne(list, handler, now);
      FireTail(list, handler, now);
      FireDueKeepsTheRest(Fire(list, handler, now), handler, now);
      var fired := FireDue(Fire(list, handler, now), handler, now).0;
      assert ([list[0]] + fired)[1..] == fired;
    } else {
      assert list[0..] == list;
    }
  }

  lemma NothingDue(list: seq<Timer>, handler: Handler, now: Jiffies)
    requires Sorted(list) && RearmsLater(handler, now) && (list == [] || list[0].expire > now)
    ensures FireDue(list, handler, now) == ([], list)
  {
  }

  lemma DueStep(list: seq<Timer>, now: Jiffies)
    requires list != [] && list[0].expire <= now
    ensures Due(list, now) > 0
  {
  }

  lemma Parts(list: seq<Timer>, n: nat)
    requires n <= |list|
    ensures multiset(list) == multiset(list[..n]) + multiset(list[n..])
  {
    assert list == list[..n] + list[n..];
  }

  // ---------------------------------------------------------------- runs

  /** A clock interrupt: time moves on, and do_timer runs when the head test asks for it. */
  function Tick(list: seq<Timer>, handler: Handler, now: Jiffies): (seq<Timer>, seq<Timer>)
    requires Sorted(list) && now < NEVER && RearmsLater(handler, now + 1)
  {
    if FirstExpiry(list) <= now + 1 then FireDue(list, handler, now + 1) else ([], list)
  }

  lemma TickFiresTheDue(list: seq<Timer>, handler: Handler, now: Jiffies)
    requires Sorted(list) && now < NEVER && RearmsLater(handler, now + 1)
    ensures Tick(list, handler, now) == FireDue(list, handler, now + 1)
  {
    if FirstExpiry(list) > now + 1 {
      DueSplits(list, now + 1);
    }
  }

  /** Handlers arm only later timers, at each of the next n interrupts. */
  ghost predicate AlwaysLater(handler: Handler, now: Jiffies, n: nat)
    ensures AlwaysLater(handler, now, n) ==> now + n <= NEVER
  {
    now + n <= NEVER && forall k: Jiffies :: now < k <= now + n ==> RearmsLater(handler, k)
  }

  lemma LaterNext(handler: Handler, now: Jiffies, n: nat)
    requires AlwaysLater(handler, now, n) && n > 0
    ensures RearmsLater(handler, now + 1) && AlwaysLater(handler, now + 1, n - 1)
  {
  }

  /** What fires over n interrupts, each timer with the time it fires. */
  function Log(list: seq<Timer>, handler: Handler, now: Jiffies, n: nat): seq<(Jiffies, Timer)>
    requires Sorted(list)
    requires AlwaysLater(handler, now, n)
    decreases n
  {
    if n == 0 then [] else
      TickFiresTheDue(list, handler, now);
      FireDueIsExact(list, handler, now + 1);
      var (fired, rest) := Tick(list, handler, now);
      Stamped(fired, now + 1) + Log(rest, handler, now + 1, n - 1)
  }

  function Stamped(fired: seq<Timer>, now: Jiffies): (r: seq<(Jiffies, Timer)>)
    ensures |r| == |fired| && forall i :: 0 <= i < |r| ==> r[i] == (now, fired[i])
  {
    seq(|fired|, i requires 0 <= i < |fired| => (now, fired[i]))
  }

  lemma LogUnfold(list: seq<Timer>, handler: Handler, now: Jiffies, n: nat)
    requires Sorted(list) && n > 0
    requires AlwaysLater(handler, now, n)
    ensures var (fired, rest) := FireDue(list, handler, now + 1);
      && Sorted(rest) && AllLater(rest, now + 1)
      && Log(list, handler, now, n) == Stamped(fired, now + 1) + Log(rest, handler, now + 1, n - 1)
  {
    hide FireDue, Due, Tick;
    TickFiresTheDue(list, handler, now);
    FireDueIsExact(list, handler, now + 1);
  }

  lemma LogStep(list: seq<Timer>, handler: Handler, now: Jiffies, n: nat)
    requires Sorted(list) && n > 0
    requires AlwaysLater(handler, now, n)
    ensures var (fired, rest) := FireDue(list, handler, now + 1);
      && Sorted(rest) && AllLater(rest, now + 1)
      && (forall t :: t in list ==> (t in fired <==> t.expire <= now + 1))
      && (forall t :: t in fired ==> t in list)
      && Log(list, handler, now, n) == Stamped(fired, now + 1) + Log(rest, handler, now + 1, n - 1)
  {
    hide FireDue, Due, Log, AllLater;
    LogUnfold(list, handler, now, n);
    FireDueIsExact(list, handler, now + 1);
  }

  /** Over every run of clock interrupts a timer armed for a later time fires at that time: no timer
      fires early or late. */
  lemma {:induction false} NoTimerFiresEarly(list: seq<Timer>, handler: Handler, now: Jiffies, n: nat)
    requires Sorted(list) && AllLater(list, now)
    requires AlwaysLater(handler, now, n)
    ensures forall e :: e in Log(list, handler, now, n) ==> e.0 == e.1.expire
    decreases n
  {
    if n > 0 {
      hide FireDue, Log, Sorted;
      LogStep(list, handler, now, n);
      var (fired, rest) := FireDue(list, handler, now + 1);
      NoTimerFiresEarly(rest, handler, now + 1, n - 1);
      forall e | e in Stamped(fired, now + 1)
        ensures e.0 == e.1.expire
      {
        var i :| 0 <= i < |fired| && Stamped(fired, now + 1)[i] == e;
        assert fired[i] in fired && fired[i] in list;
      }
    }
  }

  /** And none that falls due is missed. */
  lemma {:induction false} NoTimerIsMissed(list: seq<Timer>, handler: Handler, now: Jiffies, n: nat, t: Timer)
    requires Sorted(list) && AllLater(list, now) && t in list && t.expire <= now + n
    requires AlwaysLater(handler, now, n)
    ensures (t.expire, t) in Log(list, handler, now, n)
    decreases n
  {
    hide FireDue, Log, Sorted;
    LogStep(list, handler, now, n);
    var (fired, rest) := FireDue(list, handler, now + 1);
    if t.expire == now + 1 {
      var i :| 0 <= i < |fired| && fired[i] == t;
      assert Stamped(fired, now + 1)[i] == (now + 1, t);
    } else {
      StillArmed(list, handler, now + 1, t);
      NoTimerIsMissed(rest, handler, now + 1, n - 1, t);
    }
  }

  lemma StillArmed(list: seq<Timer>, handler: Handler, now: Jiffies, t: Timer)
    requires Sorted(list) && RearmsLater(handler, now) && t in list && t.expire > now
    ensures t in FireDue(list, handler, now).1
  {
    hide Due, FireDue, Rearmed;
    FireDueKeepsTheRest(list, handler, now);
    DueMembers(list, now);
    Parts(list, Due(list, now));
    assert t in multiset(list);
    assert t !in list[..Due(list, now)];
    assert t in multiset(FireDue(list, handler, now).1);
  }

  lemma {:induction false} RearmedHas(fired: seq<Timer>, handler: Handler, now: Jiffies, i: nat, t: Timer)
    requires i < |fired| && t in handler(now, fired[i])
    ensures t in Rearmed(fired, handler, now)
  {
    if i == 0 {
      assert t in multiset(handler(now, fired[0]));
    } else {
      RearmedHas(fired[1..], handler, now, i - 1, t);
    }
  }

  lemma ArmedIsLeft(list: seq<Timer>, handler: Handler, now: Jiffies, i: nat, t: Timer)
    requires Sorted(list) && RearmsLater(handler, now)
    requires i < |FireDue(list, handler, now).0| && t in handler(now, FireDue(list, handler, now).0[i])
    ensures t in FireDue(list, handler, now).1
  {
    hide FireDue, Due, Rearmed, Sorted;
    RearmedHas(FireDue(list, handler, now).0, handler, now, i, t);
    FireDueKeepsTheRest(list, handler, now);
    assert t in multiset(FireDue(list, handler, now).1);
  }

  /** A timer that a handler arms during the run, as a periodic timer does again and again, is not
      missed either. */
  lemma {:induction false} ArmedTimerFires(list: seq<Timer>, handler: Handler, now: Jiffies, n: nat, e: (Jiffies, Timer), t: Timer)
    requires Sorted(list) && AllLater(list, now)
    requires AlwaysLater(handler, now, n)
    requires e in Log(list, handler, now, n) && t in handler(e.0, e.1) && t.expire <= now + n
    ensures (t.expire, t) in Log(list, handler, now, n)
    decreases n
  {
    if n > 0 {
      hide *;
      LaterNext(handler, now, n);
      LogUnfold(list, handler, now, n);
      var (fired, rest) := FireDue(list, handler, now + 1);
      var log := Log(rest, handler, now + 1, n - 1);
      if e in log {
        ArmedTimerFires(rest, handler, now + 1, n - 1, e, t);
      } else {
        JustArmedFires(list, handler, now, n, e, t);
      }
      Appended(Stamped(fired, now + 1), log, (t.expire, t));
    }
  }

  lemma JustArmedFires(list: seq<Timer>, handler: Handler, now: Jiffies, n: nat, e: (Jiffies, Timer), t: Timer)
    requires Sorted(list) && AlwaysLater(handler, now, n) && n > 0 && t.expire <= now + n
    requires RearmsLater(handler, now + 1) && t in handler(e.0, e.1)
    requires var (fired, rest) := FireDue(list, handler, now + 1);
      && Sorted(rest) && AllLater(rest, now + 1) && AlwaysLater(handler, now + 1, n - 1)
      && e in Stamped(fired, now + 1) + Log(rest, handler, now + 1, n - 1) && e !in Log(rest, handler, now + 1, n - 1)
    ensures (t.expire, t) in Log(FireDue(list, handler, now + 1).1, handler, now + 1, n - 1)
  {
    hide *;
    var (fired, rest) := FireDue(list, handler, now + 1);
    var i := AmongFired(fired, now + 1, Log(rest, handler, now + 1, n - 1), e);
    ArmedIsLeft(list, handler, now + 1, i, t);
    NoTimerIsMissed(rest, handler, now + 1, n - 1, t);
  }

  lemma Appended<T>(a: seq<T>, b: seq<T>, x: T)
    requires x in b
    ensures x in a + b
  {
  }

  lemma AmongFired(fired: seq<Timer>, now: Jiffies, log: seq<(Jiffies, Timer)>, e: (Jiffies, Timer)) returns (i: nat)
    requires e in Stamped(fired, now) + log && e !in log
    ensures i < |fired| && e == (now, fired[i])
  {
    i :| i < |fired| && Stamped(fired, now)[i] == e;
  }

  /** The list after n interrupts. */
  function Left(list: seq<Timer>, handler: Handler, now: Jiffies, n: nat): seq<Timer>
    requires Sorted(list)
    requires AlwaysLater(handler, now, n)
    decreases n
  {
    if n == 0 then list else
      TickFiresTheDue(list, handler, now);
      FireDueIsExact(list, handler, now + 1);
      Left(Tick(list, handler, now).1, handler, now + 1, n - 1)
  }

  /** The timers of a log, and the timers their handlers arm. */
  function Fired(log: seq<(Jiffies, Timer)>): multiset<Timer> {
    if log == [] then multiset{} else multiset{log[0].1} + Fired(log[1..])
  }

  function Armed(log: seq<(Jiffies, Timer)>, handler: Handler): multiset<Timer> {
    if log == [] then multiset{} else multiset(handler(log[0].0, log[0].1)) + Armed(log[1..], handler)
  }

  lemma {:induction false} FiredStamped(fired: seq<Timer>, now: Jiffies, log: seq<(Jiffies, Timer)>)
    ensures Fired(Stamped(fired, now) + log) == multiset(fired) + Fired(log)
  {
    var all := Stamped(fired, now) + log;
    if fired == [] {
      assert all == log;
    } else {
      assert all[1..] == Stamped(fired[1..], now) + log;
      FiredStamped(fired[1..], now, log);
      FirstOfAll(fired);
    }
  }

  lemma FirstOfAll(ts: seq<Timer>)
    requires ts != []
    ensures multiset(ts) == multiset{ts[0]} + multiset(ts[1..])
  {
    assert ts == [ts[0]] + ts[1..];
  }

  lemma {:induction false} ArmedStamped(fired: seq<Timer>, handler: Handler, now: Jiffies, log: seq<(Jiffies, Timer)>)
    ensures Armed(Stamped(fired, now) + log, handler) == Rearmed(fired, handler, now) + Armed(log, handler)
  {
    var all := Stamped(fired, now) + log;
    if fired == [] {
      assert all == log;
    } else {
      assert all[1..] == Stamped(fired[1..], now) + log;
      ArmedStamped(fired[1..], handler, now, log);
    }
  }

  /** What was there and what came, what went and what is left. */
  predicate Balanced(before: multiset<Timer>, added: multiset<Timer>, gone: multiset<Timer>, left: multiset<Timer>) {
    gone + left == before + added
  }

  lemma BalancedChain(list: multiset<Timer>, more: multiset<Timer>, fired: multiset<Timer>, rest: multiset<Timer>,
      armed: multiset<Timer>, log: multiset<Timer>, left: multiset<Timer>)
    requires Balanced(list, more, fired, rest) && Balanced(rest, armed, log, left)
    ensures Balanced(list, more + armed, fired + log, left)
  {
    assert fired + log + left == fired + (log + left);
    assert fired + (rest + armed) == fired + rest + armed;
    assert list + (more + armed) == list + more + armed;
  }

  lemma BalancedStep(before: multiset<Timer>, between: multiset<Timer>, fired: seq<Timer>, handler: Handler, now: Jiffies,
      log: seq<(Jiffies, Timer)>, all: seq<(Jiffies, Timer)>, left: multiset<Timer>)
    requires all == Stamped(fired, now) + log
    requires Balanced(before, Rearmed(fired, handler, now), multiset(fired), between)
    requires Balanced(between, Armed(log, handler), Fired(log), left)
    ensures Balanced(before, Armed(all, handler), Fired(all), left)
  {
    hide *;
    FiredStamped(fired, now, log);
    ArmedStamped(fired, handler, now, log);
    BalancedChain(before, Rearmed(fired, handler, now), multiset(fired), between, Armed(log, handler), Fired(log), left);
  }

  lemma TickTotals(list: seq<Timer>, handler: Handler, now: Jiffies)
    requires Sorted(list) && RearmsLater(handler, now)
    ensures var (fired, rest) := FireDue(list, handler, now);
      Balanced(multiset(list), Rearmed(fired, handler, now), multiset(fired), multiset(rest))
  {
    FireDueKeepsTheRest(list, handler, now);
    FireDueIsExact(list, handler, now);
    Parts(list, Due(list, now));
  }

  /** Nothing is lost and nothing fires twice: what has fired and what is still armed is what was armed
      at the start and what handlers have armed since, each timer as often. */
  lemma {:induction false} TimersBalance(list: seq<Timer>, handler: Handler, now: Jiffies, n: nat)
    requires Sorted(list)
    requires AlwaysLater(handler, now, n)
    ensures var log := Log(list, handler, now, n);
      Balanced(multiset(list), Armed(log, handler), Fired(log), multiset(Left(list, handler, now, n)))
    decreases n
  {
    hide *;
    if n > 0 {
      LaterNext(handler, now, n);
      LeftStep(list, handler, now, n);
      LogUnfold(list, handler, now, n);
      var (fired, rest) := FireDue(list, handler, now + 1);
      TimersBalance(rest, handler, now + 1, n - 1);
      TickTotals(list, handler, now + 1);
      BalancedStep(multiset(list), multiset(rest), fired, handler, now + 1, Log(rest, handler, now + 1, n - 1),
        Log(list, handler, now, n), multiset(Left(list, handler, now, n)));
    } else {
      NoTicks(list, handler, now);
    }
  }

  lemma NoTicks(list: seq<Timer>, handler: Handler, now: Jiffies)
    requires Sorted(list)
    ensures var log := Log(list, handler, now, 0);
      Balanced(multiset(list), Armed(log, handler), Fired(log), multiset(Left(list, handler, now, 0)))
  {
  }

  lemma LeftStep(list: seq<Timer>, handler: Handler, now: Jiffies, n: nat)
    requires Sorted(list) && n > 0
    requires AlwaysLater(handler, now, n)
    ensures var rest := FireDue(list, handler, now + 1).1;
      Sorted(rest) && Left(list, handler, now, n) == Left(rest, handler, now + 1, n - 1)
  {
    hide FireDue, Due;
    TickFiresTheDue(list, handler, now);
    FireDueIsExact(list, handler, now + 1);
  }

  // ---------------------------------------------------------------- in place

  class TimerList {
    var list: seq<Timer>
    var jiffies: Jiffies
    const handler: Handler

    /** timer_init */
    constructor (handler: Handler)
      ensures list == [] && jiffies == 0 && this.handler == handler && Sorted(list)
    {
      list, jiffies := [], 0;
      this.handler := handler;
    }

    function ExpiryAt(i: nat): Jiffies
      requires i <= |list|
      reads this
    {
      if i < |list| then list[i].expire else NEVER
    }

    method AddTimer(t: Timer)
      requires Sorted(list)
      modifies this`list
      ensures list == Add(old(list), t) && Sorted(list)
    {
      AddKeepsOrder(list, t);
      var i := 0;
      if list != [] {
        while ExpiryAt(i) < t.expire
          invariant i <= |list| && Position(list, 0, t) == Position(list, i, t)
          decreases |list| - i
        {
          i := i + 1;
        }
      }
      list := list[..i] + [t] + list[i..];
    }

    /** del_timer, for the timer at place i. */
    method DelTimer(i: nat)
      requires i < |list| && Sorted(list)
      modifies this`list
      ensures list == old(list[..i] + list[i + 1..]) && Sorted(list)
    {
      list := list[..i] + list[i + 1..];
    }

    /** The handler of a timer runs: it arms its timers one after the other. */
    method Run(t: Timer)
      requires Sorted(list)
      modifies this`list
      ensures list == AddAll(old(list), handler(jiffies, t)) && Sorted(list)
    {
      var ts := handler(jiffies, t);
      ghost var before := list;
      while ts != []
        invariant Sorted(list) && AddAll(list, ts) == AddAll(before, handler(jiffies, t))
        decreases |ts|
      {
        AddTimer(ts[0]);
        ts := ts[1..];
      }
    }

    method DoTimer() returns (fired: seq<Timer>)
      requires Sorted(list) && RearmsLater(handler, jiffies)
      modifies this`list
      ensures (fired, list) == FireDue(old(list), handler, jiffies)
      ensures fired == old(list)[..Due(old(list), jiffies)] && Sorted(list) && AllLater(list, jiffies)
    {
      hide FireDue, Due, Sorted, AllLater, RearmsLater;
      FireDueIsExact(list, handler, jiffies);
      fired := [];
      ghost var all := FireDue(list, handler, jiffies);
      assert fired + all.0 == all.0;
      while list != [] && ExpiryAt(0) <= jiffies
        invariant Sorted(list)
        invariant var (more, rest) := FireDue(list, handler, jiffies); fired + more == all.0 && rest == all.1
        decreases Due(list, jiffies)
      {
        FireDueStep(list, handler, jiffies);
        var t := list[0];
        ghost var now := list;
        DelTimer(0);
        assert list == now[1..];
        Run(t);
        assert list == Fire(now, handler, jiffies);
        fired := fired + [t];
      }
      NothingDue(list, handler, jiffies);
      assert fired + [] == fired;
    }

    /** HPET_handler and the soft interrupt it raises. */
    method Interrupt() returns (fired: seq<Timer>)
      requires Sorted(list) && jiffies < NEVER && RearmsLater(handler, jiffies + 1)
      modifies this
      ensures jiffies == old(jiffies) + 1 && Sorted(list)
      ensures (fired, list) == Tick(old(list), handler, old(jiffies))
    {
      jiffies := jiffies + 1;
      fired := [];
      if ExpiryAt(0) <= jiffies {
        fired := DoTimer();
      }
    }
  }
}
