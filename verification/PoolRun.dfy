/** The operations of src/pool.rs as they run: deques popped and pushed lane by lane, the ready
    lanes collected and sorted. Each does to the pool what its function in `KeyPool` says. */
module PoolRun {
  import opened Collections
  import opened Wrappers
  import opened KeyPool

  /** Ready lanes by load, then by index. */
  predicate Leq(a: (nat, nat), b: (nat, nat)) {
    a.0 < b.0 || (a.0 == b.0 && a.1 <= b.1)
  }

  predicate SortedPairs(s: seq<(nat, nat)>) {
    forall i, j :: 0 <= i < j < |s| ==> Leq(s[i], s[j])
  }

  /** `sort_unstable`, as an insertion sort. */
  method SortPairs(s: seq<(nat, nat)>) returns (r: seq<(nat, nat)>)
    ensures SortedPairs(r) && multiset(r) == multiset(s)
  {
    r := [];
    for i := 0 to |s|
      invariant SortedPairs(r) && multiset(r) == multiset(s[..i])
    {
      var k := 0;
      while k < |r| && Leq(r[k], s[i])
        invariant 0 <= k <= |r| && forall j :: 0 <= j < k ==> Leq(r[j], s[i])
      {
        k := k + 1;
      }
      InsertSorted(r, k, s[i]);
      assert s[..i + 1] == s[..i] + [s[i]];
      assert r == r[..k] + r[k..];
      r := r[..k] + [s[i]] + r[k..];
    }
    assert s[..|s|] == s;
  }

  lemma InsertSorted(r: seq<(nat, nat)>, k: nat, x: (nat, nat))
    requires SortedPairs(r) && k <= |r|
    requires forall j :: 0 <= j < k ==> Leq(r[j], x)
    requires k < |r| ==> !Leq(r[k], x)
    ensures SortedPairs(r[..k] + [x] + r[k..])
  {
    if k < |r| {
      assert forall j :: k <= j < |r| ==> r[j] == r[k] || Leq(r[k], r[j]);
    }
  }

  class Pool {
    var lanes: seq<Lane>
    const active: nat

    function State(): PoolState
      reads this
    {
      PoolState(lanes, active)
    }

    constructor (initial: PoolState)
      ensures State() == initial
    {
      lanes, active := initial.lanes, initial.active;
    }

    /** `while front expired { pop_front }` on one lane. */
    method Expire(i: nat, now: int)
      requires i < |lanes|
      modifies this
      ensures lanes == old(lanes)[i := Expired(old(lanes)[i], now)]
    {
      ghost var was := lanes;
      while lanes[i].sent != [] && now - lanes[i].sent[0] >= WINDOW
        invariant |lanes| == |was| && lanes == was[i := was[i].(sent := lanes[i].sent)]
        invariant DropExpired(lanes[i].sent, now) == DropExpired(was[i].sent, now)
        decreases |lanes[i].sent|
      {
        lanes := lanes[i := lanes[i].(sent := lanes[i].sent[1..])];
      }
    }

    method TryTake(i: nat, now: int, sticky: bool) returns (r: Option<Reservation>)
      requires i < |lanes|
      modifies this
      ensures Available(old(lanes)[i], now) ==>
                r == Some(Ready(i, old(lanes)[i].key, now, sticky)) && lanes == old(lanes)[i := Taken(old(lanes)[i], now)]
      ensures !Available(old(lanes)[i], now) ==>
                r == None && (lanes == old(lanes) || lanes == old(lanes)[i := Expired(old(lanes)[i], now)])
    {
      if lanes[i].cooldownUntil > now {
        return None;
      }
      Expire(i, now);
      if |lanes[i].sent| < lanes[i].rpm {
        lanes := lanes[i := lanes[i].(sent := lanes[i].sent + [now])];
        return Some(Ready(i, lanes[i].key, now, sticky));
      }
      return None;
    }

    method ReadyTime(i: nat, now: int) returns (readyAt: int)
      requires i < |lanes|
      modifies this
      ensures lanes == old(lanes)[i := Expired(old(lanes)[i], now)]
      ensures readyAt == ReadyAt(old(lanes)[i], now)
    {
      Expire(i, now);
      var lane := lanes[i];
      var windowReady :=
        if |lane.sent| < lane.rpm then now
        else if lane.rpm == 0 then now + WINDOW
        else lane.sent[|lane.sent| - lane.rpm] + WINDOW;
      readyAt := if windowReady >= lane.cooldownUntil then windowReady else lane.cooldownUntil;
    }

    /** The scan of `reserve_filtered`: pop what has expired on every eligible lane, collect the
        ready ones and the least wait of the others. */
    method Scan(now: int, allowed: Option<seq<nat>>, ghost was: PoolState)
      returns (ready: seq<(nat, nat)>, bestWait: int)
      requires WellFormed(was) && Sweeping(State(), was, now, allowed, 0)
      modifies this
      ensures State() == Swept(was, now, allowed)
      ensures forall e: (nat, nat) :: e in ready <==> IsReady(was, now, allowed, e)
      ensures bestWait == LeastWait(Waits(was, now, allowed))
    {
      ready, bestWait := [], WINDOW;
      for i := 0 to active
        invariant Sweeping(State(), was, now, allowed, i)
        invariant forall e: (nat, nat) :: e in ready <==> IsReady(was, now, allowed, e) && e.1 < i
        invariant bestWait == LeastWait(Waits(was, now, allowed)[..i])
      {
        SweepStep(State(), was, now, allowed, i);
        if Allows(allowed, lanes[i]) {
          var readyAt := ReadyTime(i, now);
          if readyAt <= now {
            ready := ready + [(|lanes[i].sent|, i)];
          } else if readyAt - now < bestWait {
            bestWait := readyAt - now;
          }
        }
      }
      assert Waits(was, now, allowed)[..active] == Waits(was, now, allowed);
      assert lanes == Swept(was, now, allowed).lanes;
    }

    method ReserveFiltered(now: int, prefer: Option<nat>, allowed: Option<seq<nat>>) returns (r: Reservation)
      requires WellFormed(State())
      modifies this
      ensures Reserved(State(), r) == Reserve(old(State()), now, prefer, allowed)
    {
      ghost var was := State();
      if prefer.Some? && prefer.value < active && Allows(allowed, lanes[prefer.value]) {
        var taken := TryTake(prefer.value, now, true);
        if taken.Some? {
          return taken.value;
        }
      }
      r := ReserveLeast(now, allowed, was);
    }

    /** Without a preferred lane: the first of the ready ones, sorted by load, or the wait. */
    method ReserveLeast(now: int, allowed: Option<seq<nat>>, ghost was: PoolState) returns (r: Reservation)
      requires WellFormed(was) && Sweeping(State(), was, now, allowed, 0)
      modifies this
      ensures Reserved(State(), r) == Reserve(was, now, None, allowed)
    {
      var ready, bestWait := Scan(now, allowed, was);
      var order := SortPairs(ready);
      if order == [] {
        NoneReady(was, now, allowed, ready);
        return Wait(bestWait);
      }
      FirstIsBest(was, now, allowed, ready, order);
      SweptLane(was.lanes[order[0].1], now);
      var taken := TryTake(order[0].1, now, false);
      r := taken.value;
    }

    method Release(lane: nat, stamp: int)
      requires lane < |lanes|
      modifies this
      ensures State() == KeyPool.Release(old(State()), lane, stamp)
    {
      var pos := LastIndex(lanes[lane].sent, stamp);
      if pos != -1 {
        lanes := lanes[lane := lanes[lane].(sent := lanes[lane].sent[..pos] + lanes[lane].sent[pos + 1..])];
      }
    }

    method Penalize(lane: nat, now: int, backoff: int)
      requires lane < |lanes|
      modifies this
      ensures State() == KeyPool.Penalize(old(State()), lane, now + backoff)
      ensures |lanes| == |old(lanes)| && lanes[lane].cooldownUntil >= old(lanes)[lane].cooldownUntil
      ensures forall t :: Available(lanes[lane], t) <==> t >= now + backoff && Available(old(lanes)[lane], t)
      ensures forall i :: 0 <= i < |lanes| && i != lane ==> lanes[i] == old(lanes)[i]
    {
      PenaltyHolds(State(), lane, now + backoff);
      var until := now + backoff;
      if lanes[lane].cooldownUntil < until {
        lanes := lanes[lane := lanes[lane].(cooldownUntil := until)];
      }
    }
  }

  lemma NoneReady(p: PoolState, now: int, allowed: Option<seq<nat>>, ready: seq<(nat, nat)>)
    requires WellFormed(p) && forall e: (nat, nat) :: e in ready <==> IsReady(p, now, allowed, e)
    requires ready == []
    ensures Best(p, now, allowed, p.active) == None
  {
    var best := Best(p, now, allowed, p.active);
    if best.Some? {
      assert IsReady(p, now, allowed, (Load(p.lanes[best.value], now), best.value));
    }
  }

  lemma FirstIsBest(p: PoolState, now: int, allowed: Option<seq<nat>>, ready: seq<(nat, nat)>, order: seq<(nat, nat)>)
    requires WellFormed(p) && forall e: (nat, nat) :: e in ready <==> IsReady(p, now, allowed, e)
    requires order != [] && SortedPairs(order) && multiset(order) == multiset(ready)
    ensures IsReady(p, now, allowed, order[0]) && Best(p, now, allowed, p.active) == Some(order[0].1)
  {
    assert order[0] in multiset(order) && order[0] in ready;
    var i := order[0].1;
    var best := Best(p, now, allowed, p.active);
    assert best.Some? && Before(p, now, best.value, i);
    var e := (Load(p.lanes[best.value], now), best.value);
    assert e in ready && e in multiset(order);
    var k :| 0 <= k < |order| && order[k] == e;
    assert k == 0 || Leq(order[0], e);
  }

  /** Lanes below `n` are swept; the others are as they were, or swept already. */
  ghost predicate Sweeping(p: PoolState, was: PoolState, now: int, allowed: Option<seq<nat>>, n: nat) {
    && |p.lanes| == |was.lanes| && p.active == was.active
    && forall i :: 0 <= i < |p.lanes| ==>
         p.lanes[i] == Swept(was, now, allowed).lanes[i] || (i >= n && p.lanes[i] == was.lanes[i])
  }

  /** One lane of the scan. */
  lemma SweepStep(p: PoolState, was: PoolState, now: int, allowed: Option<seq<nat>>, i: nat)
    requires WellFormed(was) && Sweeping(p, was, now, allowed, i) && i < was.active
    ensures var lane, waits := p.lanes[i], Waits(was, now, allowed);
            if Allows(allowed, lane) then
              Sweeping(p.(lanes := p.lanes[i := Expired(lane, now)]), was, now, allowed, i + 1) &&
              Expired(lane, now) == Expired(was.lanes[i], now) &&
              (ReadyAt(lane, now) <= now <==> IsReady(was, now, allowed, (Load(was.lanes[i], now), i))) &&
              LeastWait(waits[..i + 1]) ==
                if now < ReadyAt(lane, now) < now + LeastWait(waits[..i]) then ReadyAt(lane, now) - now
                else LeastWait(waits[..i])
            else
              Sweeping(p, was, now, allowed, i + 1) && !Eligible(was, allowed, i) &&
              LeastWait(waits[..i + 1]) == LeastWait(waits[..i])
  {
    SweptLane(was.lanes[i], now);
    assert Waits(was, now, allowed)[..i + 1][..i] == Waits(was, now, allowed)[..i];
  }

  ghost predicate IsReady(p: PoolState, now: int, allowed: Option<seq<nat>>, e: (nat, nat)) {
    Eligible(p, allowed, e.1) && Available(p.lanes[e.1], now) && e.0 == Load(p.lanes[e.1], now)
  }

  /** Popping twice is popping once, and does not change when the lane is ready. */
  lemma SweptLane(lane: Lane, now: int)
    requires Sorted(lane.sent) && lane.rpm > 0
    ensures Expired(Expired(lane, now), now) == Expired(lane, now)
    ensures ReadyAt(Expired(lane, now), now) == ReadyAt(lane, now)
    ensures Available(lane, now) <==> ReadyAt(lane, now) <= now
  {
    DropLater(lane.sent, now, now);
    AvailableFromReadyAt(lane, now, now);
  }
}
