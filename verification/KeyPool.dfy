/** The key pool (src/pool.rs): one lane per upstream key, each an exact sliding-window limiter.
    Times and durations are nanoseconds. The functions say what each operation does to the state
    of a pool; the class performs it step by step. */
module KeyPool {
  import opened Collections
  import opened Wrappers

  const SECOND: int := 1_000_000_000
  const WINDOW: int := 61 * SECOND

  datatype LaneSpec = LaneSpec(key: string, rpm: nat, enabled: bool, endpoint: nat)

  datatype Lane = Lane(key: string, rpm: nat, endpoint: nat, sent: seq<int>, cooldownUntil: int)

  /** Enabled lanes come first: `lanes[..active]` are the ones ever granted. */
  datatype PoolState = PoolState(lanes: seq<Lane>, active: nat)

  datatype Reservation =
    | Ready(lane: nat, key: string, stamp: int, sticky: bool)
    | Wait(wait: int)

  // ---------- one lane ----------

  /** Timestamps that have left the window are popped from the front. */
  function DropExpired(sent: seq<int>, now: int): (r: seq<int>)
    ensures |r| <= |sent|
  {
    if sent != [] && now - sent[0] >= WINDOW then DropExpired(sent[1..], now) else sent
  }

  function Load(lane: Lane, now: int): nat {
    |DropExpired(lane.sent, now)|
  }

  /** The lane can grant a slot at `now`. */
  predicate Available(lane: Lane, now: int) {
    lane.cooldownUntil <= now && Load(lane, now) < lane.rpm
  }

  function Expired(lane: Lane, now: int): Lane {
    lane.(sent := DropExpired(lane.sent, now))
  }

  function Taken(lane: Lane, now: int): Lane {
    lane.(sent := DropExpired(lane.sent, now) + [now])
  }

  /** When the lane will next be able to grant, if nothing else happens to it. */
  function ReadyAt(lane: Lane, now: int): int {
    var sent := DropExpired(lane.sent, now);
    var windowReady :=
      if |sent| < lane.rpm then now
      else if lane.rpm == 0 then now + WINDOW
      else sent[|sent| - lane.rpm] + WINDOW;
    if windowReady >= lane.cooldownUntil then windowReady else lane.cooldownUntil
  }

  // ---------- the pool ----------

  /** Allowed endpoint groups; `None` allows every group. */
  predicate Allows(allowed: Option<seq<nat>>, lane: Lane) {
    allowed.None? || lane.endpoint in allowed.value
  }

  predicate Eligible(p: PoolState, allowed: Option<seq<nat>>, i: nat) {
    i < p.active && i < |p.lanes| && Allows(allowed, p.lanes[i])
  }

  /** Lane `i` is granted before lane `j` when both are ready. */
  predicate Before(p: PoolState, now: int, i: nat, j: nat)
    requires i < |p.lanes| && j < |p.lanes|
  {
    Load(p.lanes[i], now) < Load(p.lanes[j], now) || (Load(p.lanes[i], now) == Load(p.lanes[j], now) && i <= j)
  }

  /** The least loaded of the ready lanes below `n`, the first of them on a tie. */
  function Best(p: PoolState, now: int, allowed: Option<seq<nat>>, n: nat): (best: Option<nat>)
    requires n <= |p.lanes|
    ensures best.Some? ==> best.value < n && Eligible(p, allowed, best.value) && Available(p.lanes[best.value], now)
    ensures forall i :: 0 <= i < n && Eligible(p, allowed, i) && Available(p.lanes[i], now) ==>
              best.Some? && Before(p, now, best.value, i)
  {
    if n == 0 then None
    else
      var best := Best(p, now, allowed, n - 1);
      if !Eligible(p, allowed, n - 1) || !Available(p.lanes[n - 1], now) then best
      else if best.None? || Load(p.lanes[n - 1], now) < Load(p.lanes[best.value], now) then Some(n - 1)
      else best
  }

  /** How long until each lane is ready; 0 for a lane the caller may not use. */
  function Waits(p: PoolState, now: int, allowed: Option<seq<nat>>): seq<int>
    requires p.active <= |p.lanes|
  {
    seq(p.active, i requires 0 <= i < p.active =>
      if Eligible(p, allowed, i) then ReadyAt(p.lanes[i], now) - now else 0)
  }

  /** The least positive wait, capped at the window. */
  function LeastWait(waits: seq<int>): (w: int)
    ensures 0 < w <= WINDOW
    ensures forall i :: 0 <= i < |waits| && waits[i] > 0 ==> w <= waits[i]
    ensures w == WINDOW || w in waits
  {
    if waits == [] then WINDOW
    else
      var w := LeastWait(waits[..|waits| - 1]);
      var last := waits[|waits| - 1];
      if 0 < last < w then last else w
  }

  /** Every eligible lane with its expired timestamps popped. */
  function Swept(p: PoolState, now: int, allowed: Option<seq<nat>>): PoolState {
    p.(lanes := seq(|p.lanes|, i requires 0 <= i < |p.lanes| =>
         if Eligible(p, allowed, i) then Expired(p.lanes[i], now) else p.lanes[i]))
  }

  datatype Reserved = Reserved(pool: PoolState, reservation: Reservation)

  function Grant(p: PoolState, i: nat, now: int, sticky: bool): Reserved
    requires i < |p.lanes|
  {
    Reserved(p.(lanes := p.lanes[i := Taken(p.lanes[i], now)]), Ready(i, p.lanes[i].key, now, sticky))
  }

  /** `reserve_filtered`. */
  function Reserve(p: PoolState, now: int, prefer: Option<nat>, allowed: Option<seq<nat>>): Reserved
    requires p.active <= |p.lanes|
  {
    if prefer.Some? && Eligible(p, allowed, prefer.value) && Available(p.lanes[prefer.value], now) then
      Grant(p, prefer.value, now, true)
    else
      match Best(p, now, allowed, p.active)
      case Some(i) => Grant(Swept(p, now, allowed), i, now, false)
      case None => Reserved(Swept(p, now, allowed), Wait(LeastWait(Waits(p, now, allowed))))
  }

  /** The position of the last occurrence, or -1. */
  function LastIndex(s: seq<int>, x: int): (i: int)
    ensures -1 <= i < |s|
    ensures i >= 0 ==> s[i] == x
    ensures forall j :: i < j < |s| ==> s[j] != x
  {
    if s == [] then -1 else if s[|s| - 1] == x then |s| - 1 else LastIndex(s[..|s| - 1], x)
  }

  function Without(sent: seq<int>, stamp: int): seq<int> {
    var i := LastIndex(sent, stamp);
    if i == -1 then sent else sent[..i] + sent[i + 1..]
  }

  /** `release`. */
  function Release(p: PoolState, lane: nat, stamp: int): PoolState
    requires lane < |p.lanes|
  {
    p.(lanes := p.lanes[lane := p.lanes[lane].(sent := Without(p.lanes[lane].sent, stamp))])
  }

  /** `penalize`. */
  function Penalize(p: PoolState, lane: nat, until: int): PoolState
    requires lane < |p.lanes|
  {
    if p.lanes[lane].cooldownUntil < until
    then p.(lanes := p.lanes[lane := p.lanes[lane].(cooldownUntil := until)]) else p
  }

  function Filter(specs: seq<LaneSpec>, enabled: bool): (r: seq<LaneSpec>)
    ensures forall s :: s in r <==> s in specs && s.enabled == enabled
  {
    if specs == [] then [] else (if specs[0].enabled == enabled then [specs[0]] else []) + Filter(specs[1..], enabled)
  }

  /** The first lane with the key, if any. */
  function FindKey(lanes: seq<Lane>, key: string): (r: Option<Lane>)
    ensures r.Some? ==> r.value in lanes && r.value.key == key
    ensures r.None? ==> forall l :: l in lanes ==> l.key != key
  {
    if lanes == [] then None else if lanes[0].key == key then Some(lanes[0]) else FindKey(lanes[1..], key)
  }

  function Carry(spec: LaneSpec, previous: seq<Lane>, now: int): Lane {
    match FindKey(previous, spec.key)
    case Some(prev) => Lane(spec.key, spec.rpm, spec.endpoint, prev.sent, prev.cooldownUntil)
    case None => Lane(spec.key, spec.rpm, spec.endpoint, [], now)
  }

  /** `assemble`: enabled lanes first, each kept key with the state it had. */
  function Assemble(specs: seq<LaneSpec>, previous: seq<Lane>, now: int): PoolState {
    var ordered := Filter(specs, true) + Filter(specs, false);
    PoolState(seq(|ordered|, i requires 0 <= i < |ordered| => Carry(ordered[i], previous, now)), |Filter(specs, true)|)
  }

  // ---------- what a wait means ----------

  lemma {:induction false} DropSorted(sent: seq<int>, now: int)
    requires Sorted(sent)
    ensures Sorted(DropExpired(sent, now))
    ensures forall i :: 0 <= i < |DropExpired(sent, now)| ==> now - DropExpired(sent, now)[i] < WINDOW
  {
    if sent != [] && now - sent[0] >= WINDOW {
      DropSorted(sent[1..], now);
    }
  }

  /** How many timestamps are left at `now` is decided by one of them. */
  lemma {:induction false} DropIs(sent: seq<int>, now: int, k: nat)
    requires Sorted(sent) && k < |sent|
    ensures |DropExpired(sent, now)| <= k <==> now - sent[|sent| - k - 1] >= WINDOW
  {
    if now - sent[0] >= WINDOW && k < |sent| - 1 {
      DropIs(sent[1..], now, k);
    }
  }

  lemma {:induction false} DropLater(sent: seq<int>, now: int, later: int)
    requires now <= later
    ensures DropExpired(DropExpired(sent, now), later) == DropExpired(sent, later)
  {
    if sent != [] && now - sent[0] >= WINDOW {
      DropLater(sent[1..], now, later);
    }
  }

  lemma LoadLater(sent: seq<int>, rpm: nat, now: int, later: int)
    requires Sorted(sent) && now <= later && rpm > 0 && DropExpired(sent, now) == sent
    ensures |DropExpired(sent, later)| < rpm <==>
            later >= if |sent| < rpm then now else sent[|sent| - rpm] + WINDOW
  {
    if |sent| >= rpm {
      DropIs(sent, later, rpm - 1);
    }
  }

  /** Left alone, a lane is available at a later time exactly from `ReadyAt` on. */
  lemma AvailableFromReadyAt(lane: Lane, now: int, later: int)
    requires Sorted(lane.sent) && now <= later && lane.rpm > 0
    ensures Available(lane, later) <==> later >= ReadyAt(lane, now)
  {
    var sent := DropExpired(lane.sent, now);
    DropSorted(lane.sent, now);
    DropLater(lane.sent, now, now);
    DropLater(lane.sent, now, later);
    LoadLater(sent, lane.rpm, now, later);
  }

  /** A pool whose timestamps are in order and whose keys differ. */
  ghost predicate WellFormed(p: PoolState) {
    && p.active <= |p.lanes|
    && (forall i :: 0 <= i < |p.lanes| ==> Sorted(p.lanes[i].sent) && p.lanes[i].rpm > 0)
    && forall i, j :: 0 <= i < j < |p.lanes| ==> p.lanes[i].key != p.lanes[j].key
  }

  /** A reservation is refused only when no eligible lane is available; nothing becomes available
      before the announced wait is over, and something is then, unless the wait was capped. */
  lemma WaitIsSoonest(p: PoolState, now: int, prefer: Option<nat>, allowed: Option<seq<nat>>)
    requires WellFormed(p) && Reserve(p, now, prefer, allowed).reservation.Wait?
    ensures var w := Reserve(p, now, prefer, allowed).reservation.wait;
            0 < w <= WINDOW &&
            (forall i: nat, later :: Eligible(p, allowed, i) && now <= later < now + w ==> !Available(p.lanes[i], later)) &&
            (w < WINDOW ==> exists i: nat :: Eligible(p, allowed, i) && Available(p.lanes[i], now + w))
  {
    var w := LeastWait(Waits(p, now, allowed));
    NoneAvailable(p, now, prefer, allowed);
    forall i: nat, later | Eligible(p, allowed, i) && now <= later < now + w ensures !Available(p.lanes[i], later) {
      NotBefore(p, now, allowed, i, later);
    }
    if w < WINDOW {
      var i := SoonestLane(p, now, allowed);
    }
  }

  lemma NoneAvailable(p: PoolState, now: int, prefer: Option<nat>, allowed: Option<seq<nat>>)
    requires WellFormed(p) && Reserve(p, now, prefer, allowed).reservation.Wait?
    ensures Reserve(p, now, prefer, allowed).reservation.wait == LeastWait(Waits(p, now, allowed))
    ensures forall i: nat :: Eligible(p, allowed, i) ==> !Available(p.lanes[i], now)
  {
    assert Best(p, now, allowed, p.active).None?;
  }

  lemma NotBefore(p: PoolState, now: int, allowed: Option<seq<nat>>, i: nat, later: int)
    requires WellFormed(p) && Eligible(p, allowed, i) && !Available(p.lanes[i], now)
    requires now <= later < now + LeastWait(Waits(p, now, allowed))
    ensures !Available(p.lanes[i], later)
  {
    AvailableFromReadyAt(p.lanes[i], now, now);
    assert Waits(p, now, allowed)[i] > 0;
    AvailableFromReadyAt(p.lanes[i], now, later);
  }

  lemma SoonestLane(p: PoolState, now: int, allowed: Option<seq<nat>>) returns (i: nat)
    requires WellFormed(p) && LeastWait(Waits(p, now, allowed)) < WINDOW
    ensures Eligible(p, allowed, i) && Available(p.lanes[i], now + LeastWait(Waits(p, now, allowed)))
  {
    var waits := Waits(p, now, allowed);
    i :| 0 <= i < |waits| && waits[i] == LeastWait(waits);
    AvailableFromReadyAt(p.lanes[i], now, now + LeastWait(waits));
  }

  /** Who gets the slot: one is granted exactly when an eligible lane is available; a preferred lane
      that is one of those keeps its conversation, and otherwise the least loaded one is taken. */
  lemma ReserveChoice(p: PoolState, now: int, prefer: Option<nat>, allowed: Option<seq<nat>>)
    requires p.active <= |p.lanes|
    ensures var r := Reserve(p, now, prefer, allowed).reservation;
            var kept := prefer.Some? && Eligible(p, allowed, prefer.value) && Available(p.lanes[prefer.value], now);
            (r.Ready? <==> exists i: nat :: Eligible(p, allowed, i) && Available(p.lanes[i], now)) &&
            (r.Ready? ==>
               Eligible(p, allowed, r.lane) && Available(p.lanes[r.lane], now) &&
               r.key == p.lanes[r.lane].key && r.stamp == now && r.sticky == kept &&
               if kept then r.lane == prefer.value
               else forall i: nat :: Eligible(p, allowed, i) && Available(p.lanes[i], now) ==> Before(p, now, r.lane, i))
  {
    var best := Best(p, now, allowed, p.active);
    assert forall i: nat :: Eligible(p, allowed, i) && Available(p.lanes[i], now) ==> best.Some? && Before(p, now, best.value, i);
  }

  /** A penalty keeps the lane out until it is over, changes nothing after that, and never shortens
      a cooldown; no other lane notices. */
  lemma PenaltyHolds(p: PoolState, lane: nat, until: int)
    requires lane < |p.lanes|
    ensures var q := Penalize(p, lane, until);
            |q.lanes| == |p.lanes| && q.active == p.active &&
            q.lanes[lane].cooldownUntil >= p.lanes[lane].cooldownUntil &&
            (forall t :: Available(q.lanes[lane], t) <==> t >= until && Available(p.lanes[lane], t)) &&
            forall i :: 0 <= i < |p.lanes| && i != lane ==> q.lanes[i] == p.lanes[i]
  {
  }

  lemma LastIsStamp(sent: seq<int>, stamp: int)
    ensures Without(sent + [stamp], stamp) == sent
  {
    assert (sent + [stamp])[..|sent|] == sent && (sent + [stamp])[|sent| + 1..] == [];
    assert sent + [] == sent;
  }

  /** Two lanes that no reservation can tell apart from `now` on. */
  ghost predicate Interchangeable(a: Lane, b: Lane, now: int) {
    a.key == b.key && a.rpm == b.rpm && a.endpoint == b.endpoint && a.cooldownUntil == b.cooldownUntil &&
    forall later :: now <= later ==> DropExpired(a.sent, later) == DropExpired(b.sent, later)
  }

  lemma ExpiredInterchangeable(lane: Lane, now: int)
    ensures Interchangeable(Expired(lane, now), lane, now)
  {
    forall later | now <= later ensures DropExpired(DropExpired(lane.sent, now), later) == DropExpired(lane.sent, later) {
      DropLater(lane.sent, now, later);
    }
  }

  /** Releasing a slot with its own stamp takes the reservation back: from then on no lane can be
      told apart from what it was before. */
  lemma ReleaseUndoes(p: PoolState, now: int, prefer: Option<nat>, allowed: Option<seq<nat>>)
    requires p.active <= |p.lanes| && Reserve(p, now, prefer, allowed).reservation.Ready?
    ensures var r := Reserve(p, now, prefer, allowed);
            r.reservation.lane < |r.pool.lanes| == |p.lanes| &&
            var back := Release(r.pool, r.reservation.lane, r.reservation.stamp);
            back.active == p.active && |back.lanes| == |p.lanes| &&
            forall i :: 0 <= i < |p.lanes| ==> Interchangeable(back.lanes[i], p.lanes[i], now)
  {
    var r := Reserve(p, now, prefer, allowed);
    ReserveChoice(p, now, prefer, allowed);
    var lane := r.reservation.lane;
    LaneGranted(p, now, prefer, allowed);
    LastIsStamp(DropExpired(p.lanes[lane].sent, now), now);
    var back := Release(r.pool, lane, now);
    forall i | 0 <= i < |p.lanes| ensures Interchangeable(back.lanes[i], p.lanes[i], now) {
      ExpiredInterchangeable(p.lanes[i], now);
      assert back.lanes[i] == p.lanes[i] || back.lanes[i] == Expired(p.lanes[i], now);
    }
  }

  /** The granted lane records the time; every other lane at most forgets what has expired. */
  lemma LaneGranted(p: PoolState, now: int, prefer: Option<nat>, allowed: Option<seq<nat>>)
    requires p.active <= |p.lanes| && Reserve(p, now, prefer, allowed).reservation.Ready?
    ensures var r := Reserve(p, now, prefer, allowed);
            r.reservation.lane < |p.lanes| == |r.pool.lanes| && r.pool.active == p.active &&
            r.pool.lanes[r.reservation.lane] == Taken(p.lanes[r.reservation.lane], now) &&
            forall i :: 0 <= i < |p.lanes| && i != r.reservation.lane ==>
              r.pool.lanes[i] == p.lanes[i] || r.pool.lanes[i] == Expired(p.lanes[i], now)
  {
    var r := Reserve(p, now, prefer, allowed);
    ReserveChoice(p, now, prefer, allowed);
    DropLater(p.lanes[r.reservation.lane].sent, now, now);
  }
}
