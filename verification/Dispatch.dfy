/** The global FIFO dispatcher (src/dispatch.rs) as a state machine: the steps of its one loop,
    interleaved with clients that join and hang up, pools that are swapped, and time. */
module Dispatch {
  import opened Wrappers
  import opened KeyPool
  import opened PoolHistory

  const MILLISECOND: int := 1_000_000
  const GRANT_GAP: int := 25 * MILLISECOND
  const SLEEP_CAP: int := 500 * MILLISECOND

  datatype Waiter = Waiter(id: nat, deadline: int, prefer: Option<nat>, allowed: Option<seq<nat>>)

  /** Where the loop is: waiting for the queue, at the top of the loop for a waiter, past the
      check that the client is still there, holding a granted slot, or asleep. */
  datatype Phase =
    | Idle
    | Head(waiter: Waiter)
    | Open(waiter: Waiter)
    | Holding(waiter: Waiter, grant: nat)
    | Asleep(waiter: Waiter, until: int)
    | Resting(waiter: Waiter, until: int)

  /** A slot sent to a waiter: which grant, and when. */
  datatype Delivery = Delivery(waiter: nat, grant: nat, at: int)

  /** Waiters are numbered in the order in which they join. */
  datatype State = State(
    sys: System, queue: seq<Waiter>, hungUp: set<nat>, phase: Phase,
    joined: nat, left: nat, gauge: int, deliveries: seq<Delivery>)

  datatype Action =
    | Join(deadline: int, prefer: Option<nat>, allowed: Option<seq<nat>>)
    | HangUp(id: nat)
    | Elsewhere(event: Event)   // cooldowns, rebuilds and time
    | Receive
    | Check
    | TryReserve
    | Hand
    | Wake

  predicate May(s: State, a: Action) {
    match a
    case Join(_, _, _) => true
    case HangUp(id) => id < s.joined
    case Elsewhere(e) => (e.PenalizeLane? || e.Swap? || e.Tick?) && Enabled(s.sys, e)
    case Receive => s.phase.Idle? && s.queue != []
    case Check => s.phase.Head?
    case TryReserve => s.phase.Open? && Enabled(s.sys, ReserveSlot(s.phase.waiter.prefer, s.phase.waiter.allowed))
    case Hand => s.phase.Holding? && Enabled(s.sys, ReleaseGrant(s.phase.grant))
    case Wake => (s.phase.Asleep? || s.phase.Resting?) && s.sys.now >= s.phase.until
  }

  /** The waiter's turn ends: the drop guard takes it off the gauge. */
  function Leave(s: State): State {
    s.(phase := Idle, left := s.left + 1, gauge := s.gauge - 1)
  }

  function Do(s: State, a: Action): State
    requires May(s, a)
  {
    match a
    case Join(deadline, prefer, allowed) =>
      s.(queue := s.queue + [Waiter(s.joined, deadline, prefer, allowed)], joined := s.joined + 1, gauge := s.gauge + 1)
    case HangUp(id) => s.(hungUp := s.hungUp + {id})
    case Elsewhere(e) => s.(sys := Next(s.sys, e))
    case Receive => s.(queue := s.queue[1..], phase := Head(s.queue[0]))
    case Check => if s.phase.waiter.id in s.hungUp then Leave(s) else s.(phase := Open(s.phase.waiter))
    case TryReserve => Reserving(s)
    case Hand =>
      if s.phase.waiter.id in s.hungUp then Leave(s.(sys := Next(s.sys, ReleaseGrant(s.phase.grant))))
      else s.(phase := Resting(s.phase.waiter, s.sys.now + GRANT_GAP),
              deliveries := s.deliveries + [Delivery(s.phase.waiter.id, s.phase.grant, s.sys.now)])
    case Wake => if s.phase.Asleep? then s.(phase := Head(s.phase.waiter)) else Leave(s)
  }

  function Reserving(s: State): State
    requires May(s, TryReserve)
  {
    var w := s.phase.waiter;
    var sys := Next(s.sys, ReserveSlot(w.prefer, w.allowed));
    match Reserve(s.sys.pools[Current(s.sys)], s.sys.now, w.prefer, w.allowed).reservation
    case Ready(_, _, _, _) => s.(sys := sys, phase := Holding(w, |s.sys.grants|))
    case Wait(wait) =>
      if s.sys.now + wait > w.deadline then Leave(s.(sys := sys))
      else s.(sys := sys, phase := Asleep(w, s.sys.now + (if wait < SLEEP_CAP then wait else SLEEP_CAP)))
  }

  // ---------- what is promised ----------

  /** Slots are delivered in the order in which the waiters joined, each at least the grant gap
      after the one before. */
  predicate Fifo(deliveries: seq<Delivery>) {
    forall i, j :: 0 <= i < j < |deliveries| ==>
      deliveries[i].waiter < deliveries[j].waiter && deliveries[i].at + 25_000_000 <= deliveries[j].at
  }

  /** Every grant but the one in hand was either delivered, to one waiter, or returned. */
  ghost predicate Accounted(s: State) {
    (forall i, j :: 0 <= i < j < |s.deliveries| ==> s.deliveries[i].grant != s.deliveries[j].grant) &&
    (forall i :: 0 <= i < |s.deliveries| ==> s.deliveries[i].grant < |s.sys.grants|) &&
    forall g :: 0 <= g < |s.sys.grants| ==>
      (s.sys.grants[g].released <==> !Delivered(s.deliveries, g) && !InHand(s.phase, g))
  }

  predicate Delivered(deliveries: seq<Delivery>, g: nat) {
    exists i :: 0 <= i < |deliveries| && deliveries[i].grant == g
  }

  predicate InHand(phase: Phase, g: nat) {
    phase.Holding? && phase.grant == g
  }

  /** The gauge counts the waiters that have joined and not left. */
  predicate GaugeHonest(s: State) {
    s.gauge == s.joined - s.left
  }

  // ---------- the invariant ----------

  /** The waiters yet to be served, in order: the one at the head, then the queue. */
  predicate Ordered(s: State) {
    && (forall i :: 0 <= i < |s.queue| ==> s.queue[i].id == s.joined - |s.queue| + i)
    && |s.queue| <= s.joined
    && s.left == s.joined - |s.queue| - (if s.phase.Idle? then 0 else 1)
    && (!s.phase.Idle? ==> s.phase.waiter.id == s.joined - |s.queue| - 1)
    && (forall i :: 0 <= i < |s.deliveries| ==>
          s.deliveries[i].waiter < (if s.phase.Idle? || s.phase.Resting? then s.joined - |s.queue| else s.phase.waiter.id))
  }

  /** The gap after the last delivery is over, unless the dispatcher is resting from it. */
  predicate Spaced(s: State) {
    && (forall i :: 0 <= i < |s.deliveries| ==>
          s.deliveries[i].at + GRANT_GAP <= if s.phase.Resting? then s.phase.until else s.sys.now)
    && (s.phase.Holding? ==> s.phase.grant < |s.sys.grants| && !Delivered(s.deliveries, s.phase.grant))
  }

  ghost predicate Good(s: State) {
    && Consistent(s.sys) && Ordered(s) && Spaced(s) && Fifo(s.deliveries) && Accounted(s) && GaugeHonest(s)
  }

  // ---------- every step keeps it ----------

  lemma QueueSteps(s: State, a: Action)
    requires Ordered(s) && GaugeHonest(s) && May(s, a)
    requires a.Join? || a.HangUp? || a.Receive? || a.Check? || a.Wake?
    ensures Ordered(Do(s, a)) && GaugeHonest(Do(s, a))
  {
  }

  lemma SpacedSteps(s: State, a: Action)
    requires Ordered(s) && Spaced(s) && Fifo(s.deliveries) && Accounted(s) && May(s, a)
    requires a.Join? || a.HangUp? || a.Receive? || a.Check? || a.Wake?
    ensures Spaced(Do(s, a)) && Fifo(Do(s, a).deliveries) && Accounted(Do(s, a))
  {
  }

  lemma ElsewhereGood(s: State, a: Action)
    requires Good(s) && May(s, a) && a.Elsewhere?
    ensures Good(Do(s, a))
  {
    StepConsistent(s.sys, a.event);
    StepGrants(s.sys, a.event);
  }

  lemma ReserveGood(s: State)
    requires Good(s) && May(s, TryReserve)
    ensures Good(Do(s, TryReserve))
  {
    var e := ReserveSlot(s.phase.waiter.prefer, s.phase.waiter.allowed);
    StepConsistent(s.sys, e);
    StepGrants(s.sys, e);
    ReserveAccounted(s, Next(s.sys, e), Reserving(s));
  }

  /** A new grant is in hand; nothing else about grants changes. */
  lemma ReserveAccounted(s: State, sys: System, s': State)
    requires Good(s) && s.phase.Open? && s'.sys == sys && s'.deliveries == s.deliveries
    requires (sys.grants == s.sys.grants && !s'.phase.Holding?) ||
             (|sys.grants| == |s.sys.grants| + 1 && sys.grants[..|s.sys.grants|] == s.sys.grants &&
              !sys.grants[|s.sys.grants|].released && s'.phase == Holding(s.phase.waiter, |s.sys.grants|))
    ensures Accounted(s')
    ensures s'.phase.Holding? ==> s'.phase.grant < |sys.grants| && !Delivered(s'.deliveries, s'.phase.grant)
  {
    forall g | 0 <= g < |sys.grants|
      ensures sys.grants[g].released <==> !Delivered(s'.deliveries, g) && !InHand(s'.phase, g) {
      assert g < |s.sys.grants| ==> sys.grants[g] == s.sys.grants[g];
    }
  }

  lemma HandGood(s: State)
    requires Good(s) && May(s, Hand)
    ensures Good(Do(s, Hand))
  {
    if s.phase.waiter.id in s.hungUp {
      StepConsistent(s.sys, ReleaseGrant(s.phase.grant));
      StepGrants(s.sys, ReleaseGrant(s.phase.grant));
    } else {
      DeliveredSnoc(s.deliveries, Delivery(s.phase.waiter.id, s.phase.grant, s.sys.now));
    }
  }

  lemma DeliveredSnoc(deliveries: seq<Delivery>, d: Delivery)
    ensures forall g: nat :: Delivered(deliveries + [d], g) <==> Delivered(deliveries, g) || g == d.grant
  {
    forall g: nat ensures Delivered(deliveries + [d], g) <==> Delivered(deliveries, g) || g == d.grant {
      var all := deliveries + [d];
      assert all[|deliveries|] == d;
      if i :| 0 <= i < |deliveries| && deliveries[i].grant == g { assert all[i].grant == g; }
    }
  }

  lemma StepGood(s: State, a: Action)
    requires Good(s) && May(s, a)
    ensures Good(Do(s, a))
  {
    match a
    case Elsewhere(_) => ElsewhereGood(s, a);
    case TryReserve => ReserveGood(s);
    case Hand => HandGood(s);
    case _ =>
      QueueSteps(s, a);
      SpacedSteps(s, a);
  }

  // ---------- whole runs ----------

  predicate Possible(s: State, actions: seq<Action>)
    decreases |actions|
  {
    actions == [] || (May(s, actions[0]) && Possible(Do(s, actions[0]), actions[1..]))
  }

  function Perform(s: State, actions: seq<Action>): State
    requires Possible(s, actions)
    decreases |actions|
  {
    if actions == [] then s else Perform(Do(s, actions[0]), actions[1..])
  }

  /** A dispatcher just spawned on a freshly built pool. */
  function Spawned(specs: seq<LaneSpec>, now: int): State {
    State(Start(specs, now), [], {}, Idle, 0, 0, 0, [])
  }

  lemma SpawnedGood(specs: seq<LaneSpec>, now: int)
    requires ValidSpecs(specs)
    ensures Good(Spawned(specs, now))
  {
    PoolAfterSwap(PoolState([], 0), specs, now);
  }

  lemma {:induction false} RunGood(s: State, actions: seq<Action>)
    requires Good(s) && Possible(s, actions)
    ensures Good(Perform(s, actions))
    decreases |actions|
  {
    if actions != [] {
      StepGood(s, actions[0]);
      RunGood(Do(s, actions[0]), actions[1..]);
    }
  }

  /** In every run, whatever clients and settings do: first come first served, paced by the gap,
      no granted slot lost or given twice, and an honest gauge. */
  lemma DispatcherSafe(specs: seq<LaneSpec>, now: int, actions: seq<Action>)
    requires ValidSpecs(specs) && Possible(Spawned(specs, now), actions)
    ensures var s := Perform(Spawned(specs, now), actions);
            Fifo(s.deliveries) && Accounted(s) && GaugeHonest(s)
            && s.gauge == |s.queue| + (if s.phase.Idle? then 0 else 1)
  {
    SpawnedGood(specs, now);
    RunGood(Spawned(specs, now), actions);
  }

  // ---------- what a turn comes to ----------

  /** Trying to reserve: a slot, now, if the pool has one; otherwise, if one can open by the
      deadline, a sleep until then or for 500 ms; otherwise the end of the turn. */
  lemma TryOutcome(s: State)
    requires Good(s) && May(s, TryReserve)
    ensures var w, s' := s.phase.waiter, Do(s, TryReserve);
            var r := Reserve(s.sys.pools[Current(s.sys)], s.sys.now, w.prefer, w.allowed).reservation;
            s'.sys.now == s.sys.now &&
            if r.Ready? then
              s'.phase == Holding(w, |s.sys.grants|) && |s'.sys.grants| == |s.sys.grants| + 1 && s'.left == s.left &&
              s'.sys.grants[|s.sys.grants|].key == r.key && s'.sys.grants[|s.sys.grants|].at == s.sys.now
            else if s.sys.now + r.wait <= w.deadline then
              s'.phase.Asleep? && s'.phase.waiter == w && s'.left == s.left && s'.sys.grants == s.sys.grants &&
              s'.phase.until == s.sys.now + if r.wait <= 500_000_000 then r.wait else 500_000_000
            else s'.phase == Idle && s'.left == s.left + 1 && s'.sys.grants == s.sys.grants
  {
    var w := s.phase.waiter;
    ReserveShape(s.sys, ReserveSlot(w.prefer, w.allowed));
    ReserveLanes(s.sys.pools[Current(s.sys)], s.sys.now, w.prefer, w.allowed);
  }

  /** A turn that ends without a slot was hopeless: nothing else happening, no lane the waiter could
      use would have become available by its deadline. */
  lemma LeavesWhenHopeless(s: State, i: nat, t: int)
    requires Good(s) && May(s, TryReserve) && Do(s, TryReserve).phase.Idle?
    requires Eligible(s.sys.pools[Current(s.sys)], s.phase.waiter.allowed, i) && s.sys.now <= t <= s.phase.waiter.deadline
    ensures !Available(s.sys.pools[Current(s.sys)].lanes[i], t)
  {
    var p := s.sys.pools[Current(s.sys)];
    assert PoolHistory.InOrder(p, s.sys.now);
    TryOutcome(s);
    WaitIsSoonest(p, s.sys.now, s.phase.waiter.prefer, s.phase.waiter.allowed);
  }

  /** A slot in hand goes to a client that is still there, and the dispatcher rests for 25 ms; it
      goes back to the pool that granted it if the client is not, and there is no rest. */
  lemma HandOutcome(s: State)
    requires Good(s) && May(s, Hand)
    ensures var w, g, s' := s.phase.waiter, s.phase.grant, Do(s, Hand);
            if w.id in s.hungUp then
              s'.phase == Idle && s'.deliveries == s.deliveries && s'.sys.grants == s.sys.grants[g := s.sys.grants[g].(released := true)]
            else
              s'.phase == Resting(w, s.sys.now + 25_000_000) && s'.sys == s.sys &&
              s'.deliveries == s.deliveries + [Delivery(w.id, g, s.sys.now)]
  {
  }
}
