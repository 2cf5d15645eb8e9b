/** The dispatcher's loop as it runs. Between any two of its steps the environment may act: clients
    join and hang up, settings swap the pool, time passes. Every run is a run of `Dispatch`, and
    every waiter's turn ends. */
module DispatchRun {
  import opened Wrappers
  import opened Collections
  import opened KeyPool
  import opened PoolHistory
  import opened Dispatch

  lemma {:induction false} PerformSnoc(s: State, actions: seq<Action>, a: Action)
    requires Possible(s, actions) && May(Perform(s, actions), a)
    ensures Possible(s, actions + [a]) && Perform(s, actions + [a]) == Do(Perform(s, actions), a)
    decreases |actions|
  {
    if actions == [] {
      assert actions + [a] == [a];
    } else {
      PerformSnoc(Do(s, actions[0]), actions[1..], a);
      assert (actions + [a])[1..] == actions[1..] + [a];
    }
  }

  /** What a waiter's turn has come to: nothing was delivered, or one slot, to it; and with an ideal
      clock it was over by the deadline, or a gap after the delivery. */
  predicate Turned(before: seq<Delivery>, after: seq<Delivery>, w: Waiter, start: int, now: int, idealClock: bool) {
    (after == before || (after != [] && after[..|after| - 1] == before && after[|after| - 1].waiter == w.id)) &&
    (idealClock ==> now <= Max(start, w.deadline) + if after == before then 0 else 25_000_000)
  }

  lemma TurnedWith(before: seq<Delivery>, after: seq<Delivery>, d: Delivery, w: Waiter, start: int, now: int, idealClock: bool)
    requires after == before + [d] && d.waiter == w.id && (idealClock ==> now <= start + 25_000_000)
    ensures Turned(before, after, w, start, now, idealClock)
  {
    assert |after| == |before| + 1;
  }

  class Dispatcher {
    const idealClock: bool   // no time passes but in sleeps, and sleeps are exact
    var sys: System          // the clock, the pool behind the handle, its retired generations
    var queue: seq<Waiter>
    var hungUp: set<nat>
    var gauge: int
    var joined: nat
    ghost var left: nat
    ghost var phase: Phase
    ghost var deliveries: seq<Delivery>
    ghost const origin: State
    ghost var trace: seq<Action>

    ghost function Now(): State
      reads this
    {
      State(sys, queue, hungUp, phase, joined, left, gauge, deliveries)
    }

    /** The object is where its trace has taken it. */
    ghost predicate Valid()
      reads this
    {
      Possible(origin, trace) && Perform(origin, trace) == Now() && Good(Now())
    }

    constructor (specs: seq<LaneSpec>, now: int, idealClock: bool)
      requires ValidSpecs(specs)
      ensures Valid() && origin == Spawned(specs, now) && trace == [] && this.idealClock == idealClock
    {
      this.idealClock := idealClock;
      sys, queue, hungUp, gauge, joined := Start(specs, now), [], {}, 0, 0;
      left, phase, deliveries := 0, Idle, [];
      origin, trace := Spawned(specs, now), [];
      new;
      SpawnedGood(specs, now);
    }

    /** The object after `a`, given that its fields already say so. */
    ghost method Record(a: Action, was: State)
      requires Possible(origin, trace) && Perform(origin, trace) == was && Good(was)
      requires May(was, a) && Now() == Do(was, a)
      modifies `trace
      ensures Valid() && trace == old(trace) + [a]
    {
      PerformSnoc(origin, trace, a);
      StepGood(was, a);
      trace := trace + [a];
    }

    /** `acquire_filtered`. */
    method Acquire(deadline: int, prefer: Option<nat>, allowed: Option<seq<nat>>) returns (id: nat)
      requires Valid()
      modifies this
      ensures Valid() && Now() == Do(old(Now()), Join(deadline, prefer, allowed)) && id == old(joined)
      ensures queue == old(queue) + [Waiter(id, deadline, prefer, allowed)] && gauge == old(gauge) + 1
    {
      ghost var was := Now();
      id := joined;
      gauge := gauge + 1;
      queue := queue + [Waiter(id, deadline, prefer, allowed)];
      joined := joined + 1;
      Record(Join(deadline, prefer, allowed), was);
    }

    /** What others may have done meanwhile. */
    ghost predicate Since(was: State)
      reads this
    {
      && phase == was.phase && deliveries == was.deliveries && left == was.left
      && sys.now >= was.sys.now && (idealClock ==> sys.now == was.sys.now)
      && was.queue <= queue && was.hungUp <= hungUp
    }

    /** Any number of actions of others. */
    method Others()
      requires Valid()
      modifies this
      ensures Valid() && Since(old(Now()))
    {
      var n: nat :| true;
      for i := 0 to n
        invariant Valid() && Since(old(Now()))
      {
        Other();
      }
    }

    method Other()
      requires Valid()
      modifies this
      ensures Valid() && Since(old(Now()))
    {
      ghost var was := Now();
      if * {
        var deadline: int, prefer: Option<nat>, allowed: Option<seq<nat>> :| true;
        var id := Acquire(deadline, prefer, allowed);
      } else if * {
        var id: nat :| true;
        if id < joined {
          hungUp := hungUp + {id};
          Record(HangUp(id), was);
        }
      } else {
        var e: Event :| true;
        if (e.PenalizeLane? || e.Swap? || (e.Tick? && !idealClock)) && Enabled(sys, e) {
          StepGrants(sys, e);
          sys := Next(sys, e);
          Record(Elsewhere(e), was);
        }
      }
    }

    /** The waiter's turn ends: the guard goes out of scope. */
    method LeaveScope()
      modifies `gauge, `left, `phase
      ensures Now() == Leave(old(Now()))
    {
      gauge := gauge - 1;
      left, phase := left + 1, Idle;
    }

    method Receive() returns (w: Waiter)
      requires Valid() && phase.Idle? && queue != []
      modifies this
      ensures Valid() && Now() == Do(old(Now()), Dispatch.Receive) && phase == Head(w)
    {
      ghost var was := Now();
      w := queue[0];
      queue := queue[1..];
      phase := Head(w);
      Record(Dispatch.Receive, was);
    }

    /** `waiter.reply.is_closed()`, and leaving if so. */
    method CheckOpen(w: Waiter) returns (open: bool)
      requires Valid() && phase == Head(w)
      modifies this
      ensures Valid() && Now() == Do(old(Now()), Check)
      ensures open <==> w.id !in old(hungUp)
    {
      ghost var was := Now();
      open := w.id !in hungUp;
      if open { phase := Open(w); } else { LeaveScope(); }
      Record(Check, was);
    }

    /** Reserve on the live pool under the read guard: a slot in hand, a sleep, or the end of the
        waiter's turn when no slot can open before its deadline. */
    method TryReserve(w: Waiter) returns (ready: bool, grant: nat, until: int)
      requires Valid() && phase == Open(w)
      modifies this
      ensures Valid() && Now() == Do(old(Now()), Dispatch.TryReserve)
      ensures sys.now == old(sys.now) && deliveries == old(deliveries)
      ensures left == old(left) + if phase.Idle? then 1 else 0
      ensures ready <==> phase == Holding(w, grant)
      ensures !ready && until > sys.now ==> phase == Asleep(w, until) && until <= w.deadline
      ensures !ready && until <= sys.now ==> phase.Idle?
    {
      ghost var was := Now();
      var e := ReserveSlot(w.prefer, w.allowed);
      TryIs(was);
      var reservation := Reserve(sys.pools[Current(sys)], sys.now, w.prefer, w.allowed).reservation;
      grant, until := |sys.grants|, sys.now;
      sys := Next(sys, e);
      match reservation {
        case Ready(_, _, _, _) =>
          ready, phase := true, Holding(w, grant);
        case Wait(wait) =>
          ready := false;
          until := SleepOrLeave(w, wait);
      }
      Record(Dispatch.TryReserve, was);
    }

    /** No slot yet: sleep at most the cap, or leave if no slot can open before the deadline. */
    method SleepOrLeave(w: Waiter, wait: int) returns (until: int)
      modifies `gauge, `left, `phase
      ensures until == if sys.now + wait > w.deadline then sys.now else sys.now + if wait < 500_000_000 then wait else 500_000_000
      ensures Now() == if sys.now + wait > w.deadline then Leave(old(Now())) else old(Now()).(phase := Asleep(w, until))
      ensures left == old(left) + if phase.Idle? then 1 else 0
      ensures if sys.now + wait > w.deadline then phase.Idle? else phase == Asleep(w, until)
    {
      until := sys.now;
      if sys.now + wait > w.deadline {
        LeaveScope();
      } else {
        until := sys.now + if wait < SLEEP_CAP then wait else SLEEP_CAP;
        phase := Asleep(w, until);
      }
    }

    /** `waiter.reply.send(slot)`: delivered, or given back to the pool that granted it. */
    method Hand(w: Waiter, grant: nat) returns (sent: bool, until: int)
      requires Valid() && phase == Holding(w, grant)
      modifies this
      ensures Valid() && Now() == Do(old(Now()), Dispatch.Hand)
      ensures sent <==> w.id !in old(hungUp)
      ensures sys.now == old(sys.now) && until == sys.now + 25_000_000
      ensures sent ==> phase == Resting(w, until) && deliveries == old(deliveries) + [Delivery(w.id, grant, sys.now)]
      ensures if sent then left == old(left) else phase.Idle? && left == old(left) + 1 && deliveries == old(deliveries)
    {
      ghost var was := Now();
      HoldingEnabled(was);
      sent, until := w.id !in hungUp, sys.now + GRANT_GAP;
      if sent {
        deliveries := deliveries + [Delivery(w.id, grant, sys.now)];
        phase := Resting(w, until);
      } else {
        sys := Next(sys, ReleaseGrant(grant));
        LeaveScope();
      }
      Record(Dispatch.Hand, was);
    }

    /** `sleep(..).await`: others act meanwhile, and no less than the time asked for passes. */
    method SleepUntil(until: int)
      requires Valid()
      modifies this
      ensures Valid() && Since'(old(Now())) && sys.now >= until
      ensures idealClock ==> sys.now == Max(old(sys.now), until)
    {
      Others();
      if sys.now < until {
        ghost var was := Now();
        var elapsed: nat :| elapsed >= until - sys.now && (idealClock ==> elapsed == until - sys.now);
        sys := sys.(now := sys.now + elapsed);
        Record(Elsewhere(Tick(elapsed)), was);
        Others();
      }
    }

    /** `Since`, but for the time slept. */
    ghost predicate Since'(was: State)
      reads this
    {
      && phase == was.phase && deliveries == was.deliveries && left == was.left
      && sys.now >= was.sys.now && was.queue <= queue && was.hungUp <= hungUp
    }

    /** After a wait, back to the top of the loop. */
    method WakeAsleep(w: Waiter)
      requires Valid() && phase.Asleep? && phase.waiter == w && sys.now >= phase.until
      modifies this
      ensures Valid() && Now() == Do(old(Now()), Wake)
      ensures phase == Head(w) && left == old(left) && deliveries == old(deliveries) && sys == old(sys)
    {
      ghost var was := Now();
      phase := Head(w);
      Record(Wake, was);
    }

    /** After the grant gap, out of the turn. */
    method WakeRested()
      requires Valid() && phase.Resting? && sys.now >= phase.until
      modifies this
      ensures Valid() && Now() == Do(old(Now()), Wake)
      ensures phase.Idle? && left == old(left) + 1 && deliveries == old(deliveries) && sys == old(sys)
    {
      ghost var was := Now();
      LeaveScope();
      Record(Wake, was);
    }

    /** What a turn that began at `start` with `before` delivered has come to. */
    ghost predicate TurnOver(w: Waiter, start: int, before: seq<Delivery>)
      reads this
    {
      phase.Idle? && Turned(before, deliveries, w, start, sys.now, idealClock)
    }

    /** Hand over the slot, and rest for the gap if it was taken. */
    method Deliver(w: Waiter, grant: nat)
      requires Valid() && phase == Holding(w, grant)
      modifies this
      ensures Valid() && left == old(left) + 1 && TurnOver(w, old(sys.now), old(deliveries))
    {
      Others();
      var sent, rested := Hand(w, grant);
      if sent {
        Rest(rested);
        TurnedWith(old(deliveries), deliveries, deliveries[|deliveries| - 1], w, old(sys.now), sys.now, idealClock);
      }
    }

    /** The grant gap after a delivery. */
    method Rest(until: int)
      requires Valid() && phase.Resting? && phase.until == until && sys.now <= until
      modifies this
      ensures Valid() && phase.Idle? && left == old(left) + 1 && deliveries == old(deliveries)
      ensures idealClock ==> sys.now == until
    {
      SleepUntil(until);
      WakeRested();
    }

    /** Once through the loop body. */
    method Attempt(w: Waiter) returns (done: bool)
      requires Valid() && phase == Head(w)
      modifies this
      ensures Valid()
      ensures done ==> left == old(left) + 1 && TurnOver(w, old(sys.now), old(deliveries))
      ensures !done ==> phase == Head(w) && left == old(left) && deliveries == old(deliveries)
      ensures !done ==> old(sys.now) < sys.now && old(sys.now) < w.deadline && (idealClock ==> sys.now <= w.deadline)
    {
      Others();
      var open := CheckOpen(w);
      if !open {
        return true;
      }
      Others();
      done := ReserveOrWait(w);
    }

    /** The rest of the loop body, for a client that is still there. */
    method ReserveOrWait(w: Waiter) returns (done: bool)
      requires Valid() && phase == Open(w)
      modifies this
      ensures Valid()
      ensures done ==> left == old(left) + 1 && TurnOver(w, old(sys.now), old(deliveries))
      ensures !done ==> phase == Head(w) && left == old(left) && deliveries == old(deliveries)
      ensures !done ==> old(sys.now) < sys.now && old(sys.now) < w.deadline && (idealClock ==> sys.now <= w.deadline)
    {
      var ready, grant, until := TryReserve(w);
      if ready {
        Deliver(w, grant);
        return true;
      }
      if until <= sys.now {
        return true;
      }
      SleepUntil(until);
      WakeAsleep(w);
      return false;
    }

    /** One waiter's turn. It ends, whatever the clock does; and with an ideal clock the queue is
        never held past the waiter's own deadline, but for the gap after a delivery. */
    method Serve(w: Waiter)
      requires Valid() && phase == Head(w)
      modifies this
      ensures Valid() && left == old(left) + 1 && TurnOver(w, old(sys.now), old(deliveries))
    {
      var done := false;
      while !done
        invariant Valid()
        invariant done ==> left == old(left) + 1 && TurnOver(w, old(sys.now), old(deliveries))
        invariant !done ==> phase == Head(w) && deliveries == old(deliveries) && left == old(left)
        invariant !done && idealClock ==> sys.now <= Max(old(sys.now), w.deadline)
        decreases !done, w.deadline - sys.now
      {
        done := Attempt(w);
      }
    }

    /** The task, for as many turns as `turns`: `while let Some(waiter) = queue.recv().await`. */
    method Run(turns: nat)
      requires Valid() && phase.Idle?
      modifies this
      ensures Valid() && phase.Idle?
      ensures Fifo(deliveries) && Accounted(Now()) && GaugeHonest(Now())
    {
      for i := 0 to turns
        invariant Valid() && phase.Idle?
      {
        Others();
        if queue != [] {
          var w := Receive();
          Serve(w);
        }
      }
    }
  }

  /** What trying to reserve does, by what the pool answers. */
  lemma TryIs(s: State)
    requires Consistent(s.sys) && s.phase.Open?
    ensures var w, e := s.phase.waiter, ReserveSlot(s.phase.waiter.prefer, s.phase.waiter.allowed);
            Enabled(s.sys, e) && May(s, Dispatch.TryReserve) && Next(s.sys, e).now == s.sys.now &&
            var sys := Next(s.sys, e);
            var r := Reserve(s.sys.pools[Current(s.sys)], s.sys.now, w.prefer, w.allowed).reservation;
            Do(s, Dispatch.TryReserve) ==
              if r.Ready? then s.(sys := sys, phase := Holding(w, |s.sys.grants|))
              else if s.sys.now + r.wait > w.deadline then Leave(s.(sys := sys))
              else s.(sys := sys, phase := Asleep(w, s.sys.now + (if r.wait < SLEEP_CAP then r.wait else SLEEP_CAP)))
  {
    ReserveShape(s.sys, ReserveSlot(s.phase.waiter.prefer, s.phase.waiter.allowed));
  }

  /** A granted slot can always be given back. */
  lemma HoldingEnabled(s: State)
    requires Good(s) && s.phase.Holding?
    ensures May(s, Dispatch.Hand)
  {
  }
}
