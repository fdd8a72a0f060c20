/** The deadline queue: timers re-armed from a fixed start, fired in deadline order, caught up after any delay. */
module Timers {
  import opened Bytes
  import opened Floors

  /** `-1` as an `unsigned long long`. */
  const NO_TIMEOUT := 0xFFFF_FFFF_FFFF_FFFF

  class Timer {
    const interval: int
    const oneshot: bool
    /** `now_`: the clock, in milliseconds, when the timer was made. */
    const start: nat
    var count: nat
    var expire: nat

    constructor (interval: int, oneshot: bool, now: nat)
      requires 0 < interval <= INT_MAX
      ensures this.interval == interval && this.oneshot == oneshot && start == now
      ensures Valid() && count == 1
    {
      this.interval, this.oneshot, start, count := interval, oneshot, now, 0;
      new;
      var ok := UpdateExpire();
    }

    ghost predicate Valid()
      reads this
    {
      interval > 0 && count >= 1 && expire == start + count * interval && count * interval <= INT_MAX
    }

    /** The product is an `int`; where it would overflow the model stops, and says so. */
    method UpdateExpire() returns (ok: bool)
      requires interval > 0
      modifies this
      ensures ok <==> (old(count) + 1) * interval <= 2_147_483_647
      ensures ok ==> Valid() && count == old(count) + 1
      ensures !ok ==> count == old(count) && expire == old(expire)
    {
      if (count + 1) * interval > INT_MAX {
        return false;
      }
      count := count + 1;
      expire := start + count * interval;
      return true;
    }
  }

  /** One run of a callback, for the deadline that was due. */
  datatype Firing = Firing(timer: Timer, deadline: nat)

  function DeadlinesOf(log: seq<Firing>, t: Timer): seq<nat> {
    if log == [] then []
    else
      var last := log[|log| - 1];
      DeadlinesOf(log[..|log| - 1], t) + if last.timer == t then [last.deadline] else []
  }

  lemma DeadlinesAppend(log: seq<Firing>, f: Firing, t: Timer)
    ensures DeadlinesOf(log + [f], t)
            == if f.timer == t then DeadlinesOf(log, t) + [f.deadline] else DeadlinesOf(log, t)
  {
    assert (log + [f])[..|log|] == log;
  }

  lemma {:induction false} NeverFired(log: seq<Firing>, t: Timer)
    requires forall f :: f in log ==> f.timer != t
    ensures DeadlinesOf(log, t) == []
  {
    if log != [] {
      NeverFired(log[..|log| - 1], t);
    }
  }

  /** The first `n` deadlines of a timer: multiples of the interval after the start, no drift. */
  function Schedule(start: nat, interval: nat, n: nat): seq<nat> {
    if n == 0 then [] else Schedule(start, interval, n - 1) + [start + n * interval]
  }

  lemma ScheduleStep(start: nat, interval: nat, n: nat)
    requires n > 0
    ensures Schedule(start, interval, n) == Schedule(start, interval, n - 1) + [start + n * interval]
    ensures Schedule(start, interval, 0) == []
  {
  }

  ghost predicate Ordered(log: seq<Firing>) {
    forall i, j :: 0 <= i < j < |log| ==> log[i].deadline <= log[j].deadline
  }

  /** Callbacks in deadline order, none beyond `reached`. */
  ghost predicate OrderedUpTo(log: seq<Firing>, reached: nat) {
    Ordered(log) && forall f :: f in log ==> f.deadline <= reached
  }

  lemma IsOrdered(log: seq<Firing>, reached: nat)
    requires OrderedUpTo(log, reached)
    ensures Ordered(log)
  {
  }

  lemma OrderedAppend(log: seq<Firing>, reached: nat, f: Firing)
    requires OrderedUpTo(log, reached) && reached <= f.deadline
    ensures OrderedUpTo(log + [f], f.deadline)
  {
  }

  class TimerManager {
    var queue: set<Timer>
    var fired: seq<Firing>
    /** The latest reading of the clock. */
    ghost var clock: nat
    /** The latest deadline that has fired. */
    ghost var reached: nat

    constructor ()
      ensures Valid() && queue == {} && fired == [] && clock == 0
    {
      queue, fired, clock, reached := {}, [], 0, 0;
    }

    /** A queued timer has fired at exactly its earlier deadlines, the last of them not in the future. */
    ghost predicate OnSchedule(t: Timer)
      reads `fired, `clock, t
    {
      && t.Valid()
      && t.start + (t.count - 1) * t.interval <= clock
      && DeadlinesOf(fired, t) == Schedule(t.start, t.interval, t.count - 1)
      && (t.oneshot ==> t.count == 1)
    }

    /** Over the whole life of the manager callbacks have run in deadline order, and no queued deadline is earlier. */
    ghost predicate Valid()
      reads this, queue
    {
      && (forall t :: t in queue ==> OnSchedule(t) && reached <= t.expire)
      && reached <= clock && OrderedUpTo(fired, reached)
    }

    lemma Scheduled(t: Timer)
      requires OnSchedule(t)
      ensures t.Valid() && t.start + (t.count - 1) * t.interval <= clock
    {
    }

    method AddTimer(timeout: int, oneshot: bool, now: nat) returns (timer: Timer?)
      requires Valid() && clock <= now && timeout <= 2_147_483_647
      modifies this
      ensures Valid() && fired == old(fired)
      ensures timer == null <==> timeout <= 0
      ensures timer == null ==> queue == old(queue)
      ensures timer != null ==>
                && fresh(timer) && queue == old(queue) + {timer}
                && timer.interval == timeout && timer.oneshot == oneshot && timer.start == now && timer.count == 1
    {
      clock := now;
      if timeout <= 0 {
        return null;
      }
      timer := new Timer(timeout, oneshot, now);
      NeverFired(fired, timer);
      queue := queue + {timer};
    }

    lemma {:induction false} EarliestExists(s: set<Timer>)
      requires s != {}
      ensures exists t :: t in s && forall u :: u in s ==> t.expire <= u.expire
    {
      var x :| x in s;
      if s != {x} {
        EarliestExists(s - {x});
        var y :| y in s - {x} && forall u :: u in s - {x} ==> y.expire <= u.expire;
        var z := if x.expire <= y.expire then x else y;
        assert z in s && forall u :: u in s ==> z.expire <= u.expire;
      }
    }

    /** The top of the priority queue: some timer with the earliest deadline. */
    method Top() returns (t: Timer)
      requires queue != {}
      ensures t in queue && forall u :: u in queue ==> t.expire <= u.expire
    {
      EarliestExists(queue);
      t :| t in queue && forall u :: u in queue ==> t.expire <= u.expire;
    }

    /** The queue is emptied into a new one that leaves the timer out. */
    method DelTimer(timer: Timer?)
      requires Valid()
      modifies this
      ensures Valid() && queue == old(queue) - {timer} && fired == old(fired) && clock == old(clock)
    {
      hide OnSchedule, OrderedUpTo;
      var newqueue: set<Timer> := {};
      while queue != {}
        invariant unchanged(`fired) && unchanged(`clock) && unchanged(`reached)
        invariant queue <= old(queue) && newqueue <= old(queue) - queue
        invariant forall t :: t in old(queue) && t !in queue && t != timer ==> t in newqueue
        invariant timer !in newqueue
        decreases queue
      {
        var top := Top();
        queue := queue - {top};
        if top != timer {
          newqueue := newqueue + {top};
        }
      }
      queue := newqueue;
    }

    /** Sleeping for the result passes no deadline and reaches one. */
    method GetRecentTimeout(now: nat) returns (timeout: nat)
      ensures queue == {} ==> timeout == 0xFFFF_FFFF_FFFF_FFFF
      ensures queue != {} ==> exists t :: t in queue && t.expire <= now + timeout
      ensures queue != {} && timeout > 0 ==> forall t :: t in queue ==> now + timeout <= t.expire
    {
      if queue == {} {
        return NO_TIMEOUT;
      }
      var top := Top();
      if top.expire <= now {
        return 0;
      }
      timeout := top.expire - now;
    }

    /** How often a periodic timer is due by `now`. */
    static function DueBy(t: Timer, now: nat): int
      requires t.interval > 0
    {
      (now - t.start) / t.interval
    }

    /** The re-arming products of a run at `now` fit an `int`. */
    ghost predicate NoOverflow(now: nat)
      reads this, queue
      requires Valid()
    {
      forall t :: t in queue && !t.oneshot && t.expire <= now ==> (DueBy(t, now) + 1) * t.interval <= INT_MAX
    }

    ghost function WaitingAt(deadline: nat): set<Timer>
      reads this, queue
    {
      set t | t in queue && t.expire == deadline
    }

    lemma WaitsAt(t: Timer)
      requires t in queue
      ensures t in WaitingAt(t.expire)
    {
    }

    /** A due timer whose next product does not fit: neither does the product the run has to reach. */
    lemma Unarmable(t: Timer, now: nat)
      requires t.Valid() && t.expire <= now && (t.count + 1) * t.interval > INT_MAX
      ensures (DueBy(t, now) + 1) * t.interval > INT_MAX
    {
      AtMostFloor(now - t.start, t.interval, t.count);
    }

    /** A timer armed beyond `now`, its previous deadline not: it stands one interval after the last that was due. */
    lemma ArmedBeyond(t: Timer, now: nat)
      requires t.Valid() && t.expire > now && t.start + (t.count - 1) * t.interval <= now
      ensures t.count == DueBy(t, now) + 1 && (DueBy(t, now) + 1) * t.interval <= INT_MAX
    {
      FloorLaw(now - t.start, t.interval, t.count - 1);
    }

    /** A one-shot that has fired, once. */
    ghost predicate Spent(t: Timer)
      reads `fired, t
    {
      t.oneshot && DeadlinesOf(fired, t) == [t.start + t.interval]
    }

    lemma FiredOnce(t: Timer)
      requires Spent(t)
      ensures t.oneshot && DeadlinesOf(fired, t) == [t.start + t.interval]
    {
    }

    /** One pass of the loop: the callback of a due timer runs, and a periodic timer goes back into the queue. */
    method Fire(timer: Timer) returns (ok: bool)
      requires Valid() && timer in queue && timer.expire <= clock
      requires forall u :: u in queue ==> timer.expire <= u.expire
      modifies this, timer
      ensures Valid() && timer.Valid() && clock == old(clock) && reached == old(timer.expire)
      ensures fired == old(fired) + [Firing(timer, old(timer.expire))]
      ensures forall t: Timer :: t != timer && old(allocated(t)) && old(Spent(t)) ==> Spent(t)
      ensures timer.oneshot ==> ok && Spent(timer)
      ensures !timer.oneshot ==> (ok <==> (old(timer.count) + 1) * timer.interval <= INT_MAX)
      ensures queue == if timer.oneshot || !ok then old(queue) - {timer} else old(queue)
      ensures timer.oneshot || !ok ==> timer.expire == old(timer.expire) && timer.count == old(timer.count)
      ensures !timer.oneshot && ok ==> timer.expire > old(timer.expire)
      ensures WaitingAt(old(timer.expire)) == old(WaitingAt(timer.expire)) - {timer}
    {
      hide DeadlinesOf, DueBy, Schedule, OrderedUpTo;
      ok := true;
      ScheduleStep(timer.start, timer.interval, timer.count);
      ghost var f := Firing(timer, timer.expire);
      OrderedAppend(fired, reached, f);
      reached := timer.expire;
      queue := queue - {timer};
      fired := fired + [Firing(timer, timer.expire)];
      if !timer.oneshot {
        ok := timer.UpdateExpire();
        if ok {
          queue := queue + {timer};
          assert timer.expire == old(timer.expire) + timer.interval;
        }
      }
      forall t: Timer
        ensures DeadlinesOf(fired, t)
                == if t == timer then DeadlinesOf(old(fired), t) + [f.deadline] else DeadlinesOf(old(fired), t)
      {
        DeadlinesAppend(old(fired), f, t);
      }
    }

    /** Time passes; nothing in the queue has fired early because of it. */
    ghost method Advance(now: nat)
      requires Valid() && clock <= now
      modifies `clock
      ensures Valid() && clock == now
    {
      clock := now;
    }

    /** At `now` everything due fires, in deadline order; periodic timers end up re-armed beyond `now`. The run
        completes exactly when the `int` products it has to reach fit. */
    method TakeAllTimeout(now: nat) returns (ok: bool)
      requires Valid() && clock <= now
      modifies this, queue
      ensures Valid() && clock == now && Ordered(fired)
      ensures ok <==> old(NoOverflow(now))
      ensures exists news ::
                && fired == old(fired) + news
                && forall f :: f in news ==> f.timer in old(queue) && f.deadline <= now
      ensures ok ==>
                && (forall t :: t in queue ==> t.expire > now)
                && (forall t :: t in queue <==> t in old(queue) && !(t.oneshot && old(t.expire) <= now))
                && (forall t :: t in old(queue) && t !in queue ==>
                      t.oneshot && DeadlinesOf(fired, t) == [t.start + t.interval])
    {
      hide DeadlinesOf, Ordered, OrderedUpTo, OnSchedule, Spent, DueBy, WaitingAt;
      Advance(now);
      forall t | t in queue ensures t.interval > 0 {
        Scheduled(t);
      }
      ghost var all, news := queue, [];
      assert fired + [] == fired;
      while queue != {}
        invariant clock == now && queue <= all == old(queue) && Valid()
        invariant forall t :: t in all ==> old(t.expire) <= t.expire && (t.oneshot ==> t.expire == old(t.expire))
        invariant forall t :: t in all && t !in queue ==> Spent(t) && t.oneshot && t.expire <= now
        invariant fired == old(fired) + news
        invariant forall f :: f in news ==> f.timer in all && f.deadline <= now
        decreases now - reached, WaitingAt(reached)
      {
        var timer := Top();
        if timer.expire > now {
          break;
        }
        ghost var f := Firing(timer, timer.expire);
        assert fired + [f] == old(fired) + (news + [f]);
        WaitsAt(timer);
        ok := Fire(timer);
        news := news + [f];
        if !ok {
          Unarmable(timer, now);
          IsOrdered(fired, reached);
          return;
        }
      }
      ok := true;
      IsOrdered(fired, reached);
      forall t | t in old(queue) && t !in queue
        ensures t.oneshot && DeadlinesOf(fired, t) == [t.start + t.interval]
      {
        FiredOnce(t);
      }
      forall t | t in old(queue) && !t.oneshot && old(t.expire) <= now
        ensures (DueBy(t, now) + 1) * t.interval <= INT_MAX
      {
        Scheduled(t);
        ArmedBeyond(t, now);
      }
    }

    /** After a run that ended at the present clock: fired in total exactly as often as intervals have passed. */
    lemma CaughtUp(t: Timer)
      requires Valid() && t in queue && t.expire > clock
      ensures t.count - 1 == DueBy(t, clock)
      ensures DeadlinesOf(fired, t) == Schedule(t.start, t.interval, DueBy(t, clock))
    {
      FloorLaw(clock - t.start, t.interval, t.count - 1);
    }
  }

  /** The schedule spelled out: the k-th deadline is k intervals after the start. */
  lemma {:induction false} ScheduleAt(start: nat, interval: nat, n: nat, k: nat)
    requires k < n
    ensures |Schedule(start, interval, n)| == n && Schedule(start, interval, n)[k] == start + (k + 1) * interval
    decreases n
  {
    if n > 1 {
      ScheduleAt(start, interval, n - 1, if k < n - 1 then k else 0);
    }
  }
}
