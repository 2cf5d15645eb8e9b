/** Runs of the key pool: reservations, releases, cooldowns and live rebuilds in any order, over
    all generations. However the run goes, no key that is kept is spent faster than its budget. */
module PoolHistory {
  import opened Collections
  import opened Wrappers
  import opened KeyPool

  /** A reservation that was granted: where, when, and whether it was returned unspent. */
  datatype GrantRecord = GrantRecord(generation: nat, lane: nat, key: string, rpm: nat, at: int, released: bool)

  /** The clock, every generation of the pool (the last one is live), and every grant so far. */
  datatype System = System(now: int, pools: seq<PoolState>, grants: seq<GrantRecord>)

  datatype Event =
    | ReserveSlot(prefer: Option<nat>, allowed: Option<seq<nat>>)
    | ReleaseGrant(grant: nat)
    | PenalizeLane(generation: nat, lane: nat, backoff: nat)
    | Swap(specs: seq<LaneSpec>)
    | Tick(elapsed: nat)

  function Current(s: System): nat
    requires s.pools != []
  {
    |s.pools| - 1
  }

  /** What the runs need of a rebuild's keys: that they differ and that budgets are positive.
      Configuration validation (src/config.rs) guarantees this and more; its pool floor, an enabled
      key of the superuser, is not modelled. */
  predicate ValidSpecs(specs: seq<LaneSpec>) {
    (forall i :: 0 <= i < |specs| ==> specs[i].rpm > 0) &&
    forall i, j :: 0 <= i < j < |specs| ==> specs[i].key != specs[j].key
  }

  predicate Enabled(s: System, e: Event) {
    s.pools != [] &&
    match e
    case ReserveSlot(_, _) => s.pools[Current(s)].active <= |s.pools[Current(s)].lanes|
    case ReleaseGrant(g) =>
      g < |s.grants| && !s.grants[g].released && s.grants[g].generation < |s.pools|
      && s.grants[g].lane < |s.pools[s.grants[g].generation].lanes|
    case PenalizeLane(gen, lane, _) => gen < |s.pools| && lane < |s.pools[gen].lanes|
    case Swap(specs) => ValidSpecs(specs)
    case Tick(_) => true
  }

  function Next(s: System, e: Event): System
    requires Enabled(s, e)
  {
    match e
    case ReserveSlot(prefer, allowed) =>
      var c := Current(s);
      var r := Reserve(s.pools[c], s.now, prefer, allowed);
      var pools := s.pools[c := r.pool];
      (match r.reservation
       case Wait(_) => s.(pools := pools)
       case Ready(lane, key, stamp, _) =>
         if lane < |r.pool.lanes|
         then s.(pools := pools, grants := s.grants + [GrantRecord(c, lane, key, r.pool.lanes[lane].rpm, stamp, false)])
         else s)
    case ReleaseGrant(g) =>
      var grant := s.grants[g];
      s.(pools := s.pools[grant.generation := Release(s.pools[grant.generation], grant.lane, grant.at)],
         grants := s.grants[g := grant.(released := true)])
    case PenalizeLane(gen, lane, backoff) =>
      s.(pools := s.pools[gen := Penalize(s.pools[gen], lane, s.now + backoff)])
    case Swap(specs) => s.(pools := s.pools + [Assemble(specs, s.pools[Current(s)].lanes, s.now)])
    case Tick(elapsed) => s.(now := s.now + elapsed)
  }

  // ---------- what is promised ----------

  /** The times after `since` of the grants of `key` that were not returned. */
  function Live(grants: seq<GrantRecord>, key: string, since: int): multiset<int> {
    if grants == [] then multiset{}
    else Live(grants[..|grants| - 1], key, since) + Counted(grants[|grants| - 1], key, since)
  }

  function Counted(g: GrantRecord, key: string, since: int): multiset<int> {
    if g.key == key && !g.released && g.at > since then multiset{g.at} else multiset{}
  }

  /** Every grant of the key, when made, filled its window no further than the key's budget. */
  ghost predicate WithinBudget(grants: seq<GrantRecord>, key: string) {
    forall i :: 0 <= i < |grants| && grants[i].key == key ==> Fits(grants[..i + 1], key)
  }

  /** The last grant filled the window that ends with it no further than its budget. */
  ghost predicate Fits(grants: seq<GrantRecord>, key: string)
    requires grants != []
  {
    var last := grants[|grants| - 1];
    |Live(grants, key, last.at - 61_000_000_000)| <= last.rpm
  }

  // ---------- counting ----------

  lemma {:induction false} LiveShrinks(grants: seq<GrantRecord>, key: string, since: int, later: int)
    requires since <= later
    ensures Live(grants, key, later) <= Live(grants, key, since)
  {
    if grants != [] { LiveShrinks(grants[..|grants| - 1], key, since, later); }
  }

  lemma {:induction false} LiveRecent(grants: seq<GrantRecord>, key: string, since: int, t: int)
    requires t in Live(grants, key, since)
    ensures t > since
  {
    if grants != [] && t in Live(grants[..|grants| - 1], key, since) {
      LiveRecent(grants[..|grants| - 1], key, since, t);
    }
  }

  /** No grant of the key after `since` is out. */
  predicate Idle(grants: seq<GrantRecord>, key: string, since: int) {
    forall g :: 0 <= g < |grants| && grants[g].key == key && !grants[g].released ==> grants[g].at <= since
  }

  lemma {:induction false} LiveOfIdle(grants: seq<GrantRecord>, key: string, since: int)
    ensures Idle(grants, key, since) <==> Live(grants, key, since) == multiset{}
  {
    if grants != [] {
      var init, last := grants[..|grants| - 1], grants[|grants| - 1];
      LiveOfIdle(init, key, since);
      IdleSnoc(init, last, grants, key, since);
      SumEmpty(Live(init, key, since), Counted(last, key, since));
    }
  }

  lemma SumEmpty(a: multiset<int>, b: multiset<int>)
    ensures a + b == multiset{} <==> a == multiset{} && b == multiset{}
  {
    if a + b == multiset{} {
      assert forall t :: a[t] <= (a + b)[t] && b[t] <= (a + b)[t];
    }
  }

  lemma IdleSnoc(init: seq<GrantRecord>, last: GrantRecord, grants: seq<GrantRecord>, key: string, since: int)
    requires grants == init + [last]
    ensures Idle(grants, key, since) <==> Idle(init, key, since) && Counted(last, key, since) == multiset{}
  {
    assert grants[|init|] == last && forall g :: 0 <= g < |init| ==> grants[g] == init[g];
    assert last.at in multiset{last.at};
  }

  lemma LiveSnoc(grants: seq<GrantRecord>, g: GrantRecord, key: string, since: int)
    ensures Live(grants + [g], key, since) == Live(grants, key, since) + Counted(g, key, since)
  {
    assert (grants + [g])[..|grants|] == grants;
  }

  lemma UpdateSnoc<T>(s: seq<T>, i: nat, x: T)
    requires i < |s|
    ensures var init := s[..|s| - 1];
            s == init + [s[|s| - 1]] &&
            s[i := x] == if i < |init| then init[i := x] + [s[|s| - 1]] else init + [x]
  {
  }

  /** Returning a grant takes its time out, if it was in. */
  lemma {:induction false} LiveReleased(grants: seq<GrantRecord>, g: nat, key: string, since: int)
    requires g < |grants| && !grants[g].released
    ensures Counted(grants[g], key, since) <= Live(grants, key, since)
    ensures Live(grants[g := grants[g].(released := true)], key, since) ==
            Live(grants, key, since) - Counted(grants[g], key, since)
  {
    var init, last := grants[..|grants| - 1], grants[|grants| - 1];
    var returned := grants[g].(released := true);
    UpdateSnoc(grants, g, returned);
    LiveSnoc(init, last, key, since);
    if g < |init| {
      LiveReleased(init, g, key, since);
      LiveSnoc(init[g := returned], last, key, since);
      Move(Live(init, key, since), Counted(last, key, since), Counted(grants[g], key, since));
    } else {
      LiveSnoc(init, returned, key, since);
      Move(Counted(last, key, since), Live(init, key, since), Counted(last, key, since));
    }
  }

  lemma Move(a: multiset<int>, b: multiset<int>, x: multiset<int>)
    requires x <= a
    ensures (a + b) - x == (a - x) + b && x <= a + b && x <= b + a && a + b == b + a
    ensures x == a ==> (b + a) - x == b
  {
  }

  lemma SubsetSize(a: multiset<int>, b: multiset<int>)
    requires a <= b
    ensures |a| <= |b|
  {
    assert b == a + (b - a);
  }

  /** What is dropped has left the window. */
  lemma {:induction false} DropKeepsRecent(sent: seq<int>, now: int, live: multiset<int>)
    requires live <= multiset(sent) && AllAfter(live, now - WINDOW)
    ensures live <= multiset(DropExpired(sent, now))
  {
    if sent != [] && now - sent[0] >= WINDOW {
      assert sent == [sent[0]] + sent[1..];
      assert sent[0] !in live;
      DropKeepsRecent(sent[1..], now, live);
    }
  }

  lemma WithoutMultiset(sent: seq<int>, stamp: int)
    ensures multiset(Without(sent, stamp)) == multiset(sent) - multiset{stamp}
  {
    var i := LastIndex(sent, stamp);
    if i == -1 {
      assert stamp !in multiset(sent);
    } else {
      assert sent == sent[..i] + [sent[i]] + sent[i + 1..];
    }
  }

  // ---------- what a reservation does to each lane ----------

  /** The lane as it was, or with expired timestamps popped, or, if granted, with `now` pushed. */
  predicate LaneAfter(before: Lane, after: Lane, now: int, granted: bool) {
    if granted then after == Taken(before, now) && Load(before, now) < before.rpm
    else after == before || after == Expired(before, now)
  }

  lemma ReserveLanes(p: PoolState, now: int, prefer: Option<nat>, allowed: Option<seq<nat>>)
    requires WellFormed(p)
    ensures var r := Reserve(p, now, prefer, allowed);
            |r.pool.lanes| == |p.lanes| && r.pool.active == p.active &&
            (r.reservation.Ready? ==>
               r.reservation.lane < p.active && r.reservation.key == p.lanes[r.reservation.lane].key &&
               r.reservation.stamp == now) &&
            forall j :: 0 <= j < |p.lanes| ==>
              LaneAfter(p.lanes[j], r.pool.lanes[j], now, r.reservation.Ready? && r.reservation.lane == j)
  {
    var r := Reserve(p, now, prefer, allowed);
    forall j | 0 <= j < |p.lanes|
      ensures LaneAfter(p.lanes[j], r.pool.lanes[j], now, r.reservation.Ready? && r.reservation.lane == j) {
      DropLater(p.lanes[j].sent, now, now);
    }
  }

  ghost predicate InOrder(p: PoolState, now: int) {
    WellFormed(p) && forall i, t :: 0 <= i < |p.lanes| && t in p.lanes[i].sent ==> t <= now
  }

  lemma LaneOrdered(before: Lane, after: Lane, now: int, granted: bool)
    requires LaneAfter(before, after, now, granted)
    requires Sorted(before.sent) && forall t :: t in before.sent ==> t <= now
    ensures Sorted(after.sent) && forall t :: t in after.sent ==> t <= now
    ensures after.key == before.key && after.rpm == before.rpm
  {
    DropSorted(before.sent, now);
    DropSubset(before.sent, now);
    var kept := DropExpired(before.sent, now);
    forall i | 0 <= i < |kept| ensures kept[i] <= now {
      assert kept[i] in before.sent;
    }
    SortedSnoc(kept, now);
  }

  lemma SortedSnoc(sent: seq<int>, now: int)
    requires Sorted(sent) && forall i :: 0 <= i < |sent| ==> sent[i] <= now
    ensures Sorted(sent + [now]) && forall t :: t in sent + [now] ==> t <= now
  {
  }

  lemma {:induction false} DropSubset(sent: seq<int>, now: int)
    ensures forall t :: t in DropExpired(sent, now) ==> t in sent
  {
    if sent != [] && now - sent[0] >= WINDOW { DropSubset(sent[1..], now); }
  }

  lemma RecentKept(before: Lane, now: int, live: multiset<int>)
    requires live <= multiset(before.sent) && AllAfter(live, now - WINDOW)
    ensures live <= multiset(DropExpired(before.sent, now)) && |live| <= Load(before, now)
  {
    DropKeepsRecent(before.sent, now, live);
    SubsetSize(live, multiset(DropExpired(before.sent, now)));
  }

  /** The key's unreturned grants stay recorded in its lane. */
  lemma LaneHolds(before: Lane, after: Lane, now: int, granted: bool, live: multiset<int>)
    requires LaneAfter(before, after, now, granted)
    requires live <= multiset(before.sent) && AllAfter(live, now - WINDOW)
    ensures (if granted then live + multiset{now} else live) <= multiset(after.sent)
  {
    RecentKept(before, now, live);
  }

  // ---------- the invariant of a run ----------

  ghost predicate Consistent(s: System) {
    && s.pools != []
    && (forall c :: 0 <= c < |s.pools| ==> InOrder(s.pools[c], s.now))
    && forall g :: 0 <= g < |s.grants| ==>
         s.grants[g].at <= s.now && s.grants[g].generation < |s.pools| &&
         s.grants[g].lane < |s.pools[s.grants[g].generation].lanes| &&
         s.pools[s.grants[g].generation].lanes[s.grants[g].lane].key == s.grants[g].key
  }

  ghost predicate HasKey(p: PoolState, key: string) {
    exists i :: 0 <= i < |p.lanes| && p.lanes[i].key == key
  }

  /** The pool records the unreturned grants of the key. */
  ghost predicate Recorded(p: PoolState, grants: seq<GrantRecord>, now: int, key: string) {
    (forall i :: 0 <= i < |p.lanes| && p.lanes[i].key == key ==>
       Live(grants, key, now - WINDOW) <= multiset(p.lanes[i].sent)) &&
    (!HasKey(p, key) ==> Idle(grants, key, now - WINDOW))
  }

  ghost predicate Invariant(s: System, key: string) {
    Consistent(s) && Recorded(s.pools[Current(s)], s.grants, s.now, key) && WithinBudget(s.grants, key)
  }

  predicate Named(specs: seq<LaneSpec>, key: string) {
    exists i :: 0 <= i < |specs| && specs[i].key == key
  }

  /** The event does not drop the key from the pool while it has live grants. */
  ghost predicate Keeps(s: System, e: Event, key: string)
    requires s.pools != []
  {
    e.Swap? && HasKey(s.pools[Current(s)], key) ==> Named(e.specs, key) || Idle(s.grants, key, s.now - WINDOW)
  }

  // ---------- every step keeps it ----------

  lemma PoolAfterReserve(p: PoolState, now: int, prefer: Option<nat>, allowed: Option<seq<nat>>)
    requires InOrder(p, now)
    ensures InOrder(Reserve(p, now, prefer, allowed).pool, now)
    ensures SameKeys(p, Reserve(p, now, prefer, allowed).pool)
  {
    ReserveLanes(p, now, prefer, allowed);
    var r := Reserve(p, now, prefer, allowed);
    forall j | 0 <= j < |p.lanes|
      ensures Sorted(r.pool.lanes[j].sent) && (forall t :: t in r.pool.lanes[j].sent ==> t <= now)
      ensures r.pool.lanes[j].key == p.lanes[j].key && r.pool.lanes[j].rpm == p.lanes[j].rpm {
      LaneOrdered(p.lanes[j], r.pool.lanes[j], now, r.reservation.Ready? && r.reservation.lane == j);
    }
  }

  predicate AllAfter(m: multiset<int>, bound: int) {
    forall t :: t in m ==> t > bound
  }

  lemma LiveIsRecent(grants: seq<GrantRecord>, key: string, since: int)
    ensures AllAfter(Live(grants, key, since), since)
  {
    var live := Live(grants, key, since);
    forall t | t in live ensures t > since {
      LiveRecent(grants, key, since, t);
    }
  }

  lemma BudgetSnoc(grants: seq<GrantRecord>, g: GrantRecord, key: string)
    requires WithinBudget(grants, key)
    requires g.key == key ==> Fits(grants + [g], key)
    ensures WithinBudget(grants + [g], key)
  {
    var all := grants + [g];
    forall i | 0 <= i < |all| && all[i].key == key ensures Fits(all[..i + 1], key) {
      if i < |grants| {
        assert all[..i + 1] == grants[..i + 1] && grants[i] == all[i];
      } else {
        assert all[..i + 1] == all;
      }
    }
  }

  lemma FitsReleased(grants: seq<GrantRecord>, g: nat, key: string)
    requires g < |grants| && !grants[g].released && Fits(grants, key)
    ensures Fits(grants[g := grants[g].(released := true)], key)
  {
    var after := grants[g := grants[g].(released := true)];
    var last := grants[|grants| - 1];
    SameEnd(grants, g);
    ReleasedSize(grants, g, key, last.at - WINDOW);
    FitsLess(grants, after, key, last.at - WINDOW);
  }

  lemma FitsLess(a: seq<GrantRecord>, b: seq<GrantRecord>, key: string, since: int)
    requires a != [] && b != [] && Fits(a, key)
    requires a[|a| - 1].at - WINDOW == since == b[|b| - 1].at - WINDOW && b[|b| - 1].rpm == a[|a| - 1].rpm
    requires |Live(b, key, since)| <= |Live(a, key, since)|
    ensures Fits(b, key)
  {
  }

  lemma SameEnd(grants: seq<GrantRecord>, g: nat)
    requires g < |grants|
    ensures var after := grants[g := grants[g].(released := true)];
            |after| == |grants| && after[|after| - 1].at == grants[|grants| - 1].at &&
            after[|after| - 1].rpm == grants[|grants| - 1].rpm
  {
  }

  lemma ReleasedSize(grants: seq<GrantRecord>, g: nat, key: string, since: int)
    requires g < |grants| && !grants[g].released
    ensures |Live(grants[g := grants[g].(released := true)], key, since)| <= |Live(grants, key, since)|
  {
    LiveReleased(grants, g, key, since);
    SubsetSize(Live(grants, key, since) - Counted(grants[g], key, since), Live(grants, key, since));
  }

  /** Returning a grant only lowers the counts. */
  lemma BudgetReleased(grants: seq<GrantRecord>, g: nat, key: string)
    requires WithinBudget(grants, key) && g < |grants| && !grants[g].released
    ensures WithinBudget(grants[g := grants[g].(released := true)], key)
  {
    var after := grants[g := grants[g].(released := true)];
    forall i | 0 <= i < |after| && after[i].key == key ensures Fits(after[..i + 1], key) {
      assert grants[i].key == key;
      if g <= i {
        assert after[..i + 1] == grants[..i + 1][g := grants[g].(released := true)];
        FitsReleased(grants[..i + 1], g, key);
      } else {
        assert after[..i + 1] == grants[..i + 1];
      }
    }
  }

  /** A granted reservation as it is recorded. */
  function Recording(s: System, r: Reserved): GrantRecord
    requires s.pools != [] && r.reservation.Ready? && r.reservation.lane < |r.pool.lanes|
  {
    GrantRecord(Current(s), r.reservation.lane, r.reservation.key, r.pool.lanes[r.reservation.lane].rpm,
                r.reservation.stamp, false)
  }

  lemma FitsSnoc(grants: seq<GrantRecord>, g: GrantRecord, key: string)
    requires |Live(grants, key, g.at - WINDOW)| < g.rpm
    ensures Fits(grants + [g], key)
  {
    LiveSnoc(grants, g, key, g.at - WINDOW);
    assert |Counted(g, key, g.at - WINDOW)| <= 1;
  }

  /** A lane that was granted had room for the live grants of its key and one more. */
  lemma GrantFits(before: Lane, grants: seq<GrantRecord>, g: GrantRecord)
    requires Load(before, g.at) < before.rpm == g.rpm
    requires Live(grants, before.key, g.at - WINDOW) <= multiset(before.sent)
    ensures Fits(grants + [g], before.key)
  {
    LiveIsRecent(grants, before.key, g.at - WINDOW);
    RecentKept(before, g.at, Live(grants, before.key, g.at - WINDOW));
    FitsSnoc(grants, g, before.key);
  }

  lemma BudgetTaken(p: PoolState, grants: seq<GrantRecord>, g: GrantRecord, key: string)
    requires Recorded(p, grants, g.at, key) && WithinBudget(grants, key)
    requires g.lane < |p.lanes| && p.lanes[g.lane].key == g.key && Load(p.lanes[g.lane], g.at) < p.lanes[g.lane].rpm == g.rpm
    ensures WithinBudget(grants + [g], key)
  {
    if g.key == key {
      GrantFits(p.lanes[g.lane], grants, g);
    }
    BudgetSnoc(grants, g, key);
  }

  lemma TakenRoom(before: Lane, after: Lane, now: int)
    requires LaneAfter(before, after, now, true)
    ensures Load(before, now) < before.rpm == after.rpm
  {
  }

  lemma ReserveConsistent(s: System, e: Event)
    requires Consistent(s) && Enabled(s, e) && e.ReserveSlot?
    ensures Consistent(Next(s, e))
  {
    var p := s.pools[Current(s)];
    PoolAfterReserve(p, s.now, e.prefer, e.allowed);
    ReserveLanes(p, s.now, e.prefer, e.allowed);
  }

  lemma ReserveBudget(s: System, e: Event, key: string)
    requires Invariant(s, key) && Enabled(s, e) && e.ReserveSlot?
    ensures WithinBudget(Next(s, e).grants, key)
  {
    var p := s.pools[Current(s)];
    var r := Reserve(p, s.now, e.prefer, e.allowed);
    ReserveLanes(p, s.now, e.prefer, e.allowed);
    if r.reservation.Ready? {
      var g := Recording(s, r);
      TakenRoom(p.lanes[g.lane], r.pool.lanes[g.lane], s.now);
      BudgetTaken(p, s.grants, g, key);
    }
  }

  lemma ReserveShape(s: System, e: Event)
    requires Consistent(s) && Enabled(s, e) && e.ReserveSlot?
    ensures var s' := Next(s, e);
            s'.now == s.now && |s'.pools| == |s.pools| &&
            s'.pools[Current(s)] == Reserve(s.pools[Current(s)], s.now, e.prefer, e.allowed).pool
  {
    ReserveLanes(s.pools[Current(s)], s.now, e.prefer, e.allowed);
  }

  predicate SameKeys(p: PoolState, q: PoolState) {
    |q.lanes| == |p.lanes| && forall i :: 0 <= i < |p.lanes| ==> q.lanes[i].key == p.lanes[i].key
  }

  lemma RecordedSameKeys(p: PoolState, q: PoolState, grants: seq<GrantRecord>, now: int, key: string)
    requires SameKeys(p, q)
    requires forall i :: 0 <= i < |p.lanes| && p.lanes[i].key == key ==>
               Live(grants, key, now - WINDOW) <= multiset(q.lanes[i].sent)
    requires !HasKey(p, key) ==> Idle(grants, key, now - WINDOW)
    ensures Recorded(q, grants, now, key)
  {
    if HasKey(p, key) {
      var i :| 0 <= i < |p.lanes| && p.lanes[i].key == key;
      assert q.lanes[i].key == key;
    }
  }

  /** What the lanes record after a reservation, granted or not. */
  lemma RecordedTaken(p: PoolState, q: PoolState, grants: seq<GrantRecord>, g: GrantRecord, granted: bool, now: int, key: string)
    requires WellFormed(p) && SameKeys(p, q) && Recorded(p, grants, now, key)
    requires granted ==> g.lane < |p.lanes| && g.key == p.lanes[g.lane].key && g.at == now
    requires forall i :: 0 <= i < |p.lanes| ==> LaneAfter(p.lanes[i], q.lanes[i], now, granted && g.lane == i)
    ensures Recorded(q, if granted then grants + [g] else grants, now, key)
  {
    var after := if granted then grants + [g] else grants;
    forall i | 0 <= i < |p.lanes| && p.lanes[i].key == key
      ensures Live(after, key, now - WINDOW) <= multiset(q.lanes[i].sent)
    {
      assert granted && g.lane != i ==> g.key != key;
      LaneTaken(p.lanes[i], q.lanes[i], grants, g, granted, granted && g.lane == i, now);
    }
    assert granted && !HasKey(p, key) ==> g.key != key;
    RecordedSameKeys(p, q, after, now, key);
  }

  lemma LaneTaken(before: Lane, after: Lane, grants: seq<GrantRecord>, g: GrantRecord, granted: bool, here: bool, now: int)
    requires LaneAfter(before, after, now, here) && (granted && !here ==> g.key != before.key)
    requires here ==> g.at == now
    requires Live(grants, before.key, now - WINDOW) <= multiset(before.sent)
    ensures Live(if granted then grants + [g] else grants, before.key, now - WINDOW) <= multiset(after.sent)
  {
    var live := Live(grants, before.key, now - WINDOW);
    LiveIsRecent(grants, before.key, now - WINDOW);
    LaneHolds(before, after, now, here, live);
    LiveSnoc(grants, g, before.key, now - WINDOW);
  }

  lemma ReserveRecorded(s: System, e: Event, key: string)
    requires Invariant(s, key) && Enabled(s, e) && e.ReserveSlot?
    ensures Recorded(Reserve(s.pools[Current(s)], s.now, e.prefer, e.allowed).pool, Next(s, e).grants, s.now, key)
  {
    var p := s.pools[Current(s)];
    var r := Reserve(p, s.now, e.prefer, e.allowed);
    ReserveLanes(p, s.now, e.prefer, e.allowed);
    PoolAfterReserve(p, s.now, e.prefer, e.allowed);
    var granted := r.reservation.Ready?;
    var g := if granted then Recording(s, r) else GrantRecord(0, 0, "", 0, 0, false);
    RecordedTaken(p, r.pool, s.grants, g, granted, s.now, key);
  }

  lemma ReserveKeeps(s: System, e: Event, key: string)
    requires Invariant(s, key) && Enabled(s, e) && e.ReserveSlot?
    ensures Invariant(Next(s, e), key)
  {
    ReserveShape(s, e);
    ReserveConsistent(s, e);
    ReserveRecorded(s, e, key);
    ReserveBudget(s, e, key);
  }

  // ---------- the other events ----------

  lemma ConsistentLater(s: System, elapsed: nat)
    requires Consistent(s)
    ensures Consistent(s.(now := s.now + elapsed))
  {
    forall c | 0 <= c < |s.pools| ensures InOrder(s.pools[c], s.now + elapsed) {
      assert InOrder(s.pools[c], s.now);
    }
  }

  lemma TickKeeps(s: System, elapsed: nat, key: string)
    requires Invariant(s, key)
    ensures Invariant(s.(now := s.now + elapsed), key)
  {
    var later := s.(now := s.now + elapsed);
    ConsistentLater(s, elapsed);
    RecordedLater(s.pools[Current(s)], s.grants, s.now, later.now, key);
    InvariantHolds(later, s.pools[Current(s)], key);
  }

  lemma RecordedLater(p: PoolState, grants: seq<GrantRecord>, now: int, later: int, key: string)
    requires Recorded(p, grants, now, key) && now <= later
    ensures Recorded(p, grants, later, key)
  {
    LiveShrinks(grants, key, now - WINDOW, later - WINDOW);
  }

  /** Replacing one generation by one with the same keys keeps the system consistent. */
  lemma ConsistentReplace(s: System, c: nat, q: PoolState)
    requires Consistent(s) && c < |s.pools| && InOrder(q, s.now) && SameKeys(s.pools[c], q)
    ensures Consistent(s.(pools := s.pools[c := q]))
  {
  }

  lemma PoolAfterPenalize(p: PoolState, lane: nat, until: int, now: int)
    requires InOrder(p, now) && lane < |p.lanes|
    ensures var q := Penalize(p, lane, until);
            InOrder(q, now) && SameKeys(p, q) && forall i :: 0 <= i < |p.lanes| ==> q.lanes[i].sent == p.lanes[i].sent
  {
  }

  lemma RecordedSameSent(p: PoolState, q: PoolState, grants: seq<GrantRecord>, now: int, key: string)
    requires Recorded(p, grants, now, key) && SameKeys(p, q)
    requires forall i :: 0 <= i < |p.lanes| ==> q.lanes[i].sent == p.lanes[i].sent
    ensures Recorded(q, grants, now, key)
  {
    RecordedSameKeys(p, q, grants, now, key);
  }

  lemma ReplaceKeeps(s: System, c: nat, q: PoolState, key: string)
    requires Invariant(s, key) && c < |s.pools| && InOrder(q, s.now) && SameKeys(s.pools[c], q)
    requires forall i :: 0 <= i < |q.lanes| ==> q.lanes[i].sent == s.pools[c].lanes[i].sent
    ensures Invariant(s.(pools := s.pools[c := q]), key)
  {
    ConsistentReplace(s, c, q);
    if c == Current(s) {
      RecordedSameSent(s.pools[c], q, s.grants, s.now, key);
    }
  }

  lemma PenalizeKeeps(s: System, e: Event, key: string)
    requires Invariant(s, key) && Enabled(s, e) && e.PenalizeLane?
    ensures Invariant(Next(s, e), key)
  {
    var q := Penalize(s.pools[e.generation], e.lane, s.now + e.backoff);
    PoolAfterPenalize(s.pools[e.generation], e.lane, s.now + e.backoff, s.now);
    SameSentLength(s.pools[e.generation], q);
    ReplaceKeeps(s, e.generation, q, key);
    NextPenalize(s, e);
  }

  lemma NextPenalize(s: System, e: Event)
    requires s.pools != [] && Enabled(s, e) && e.PenalizeLane?
    ensures Next(s, e) == s.(pools := s.pools[e.generation := Penalize(s.pools[e.generation], e.lane, s.now + e.backoff)])
  {
  }

  lemma SameSentLength(p: PoolState, q: PoolState)
    requires SameKeys(p, q)
    ensures |p.lanes| == |q.lanes|
  {
  }

  lemma WithoutOrdered(sent: seq<int>, stamp: int, now: int)
    requires Sorted(sent) && forall t :: t in sent ==> t <= now
    ensures Sorted(Without(sent, stamp)) && forall t :: t in Without(sent, stamp) ==> t <= now
  {
    forall t | t in Without(sent, stamp) ensures t in sent {
      var i := LastIndex(sent, stamp);
      assert i != -1 ==> t in sent[..i] || t in sent[i + 1..];
    }
  }

  lemma PoolAfterRelease(p: PoolState, lane: nat, stamp: int, now: int)
    requires InOrder(p, now) && lane < |p.lanes|
    ensures InOrder(Release(p, lane, stamp), now) && SameKeys(p, Release(p, lane, stamp))
  {
    WithoutOrdered(p.lanes[lane].sent, stamp, now);
  }

  /** A stamp is taken from its own lane, or, after a rebuild, from a pool nobody consults. */
  lemma ReleaseRecorded(p: PoolState, grants: seq<GrantRecord>, g: nat, now: int, key: string, here: bool)
    requires WellFormed(p) && Recorded(p, grants, now, key) && g < |grants| && !grants[g].released
    requires here ==> grants[g].lane < |p.lanes| && p.lanes[grants[g].lane].key == grants[g].key
    ensures var q := if here then Release(p, grants[g].lane, grants[g].at) else p;
            Recorded(q, grants[g := grants[g].(released := true)], now, key)
  {
    var q := if here then Release(p, grants[g].lane, grants[g].at) else p;
    var after := grants[g := grants[g].(released := true)];
    forall i | 0 <= i < |p.lanes| && p.lanes[i].key == key
      ensures Live(after, key, now - WINDOW) <= multiset(q.lanes[i].sent) {
      ReleasedLane(p, grants[g].lane, grants[g].at, here, i);
      LaneAfterRelease(p.lanes[i], grants, g, now, here && i == grants[g].lane);
    }
    RecordedSameKeys(p, q, after, now, key);
  }

  lemma ReleasedLane(p: PoolState, lane: nat, stamp: int, here: bool, i: nat)
    requires i < |p.lanes| && (here ==> lane < |p.lanes|)
    ensures var q := if here then Release(p, lane, stamp) else p;
            |q.lanes| == |p.lanes| && q.lanes[i].key == p.lanes[i].key &&
            q.lanes[i].sent == if here && i == lane then Without(p.lanes[i].sent, stamp) else p.lanes[i].sent
  {
  }

  lemma LaneAfterRelease(lane: Lane, grants: seq<GrantRecord>, g: nat, now: int, here: bool)
    requires g < |grants| && !grants[g].released && (here ==> grants[g].key == lane.key)
    requires Live(grants, lane.key, now - WINDOW) <= multiset(lane.sent)
    ensures Live(grants[g := grants[g].(released := true)], lane.key, now - WINDOW)
            <= multiset(if here then Without(lane.sent, grants[g].at) else lane.sent)
  {
    var since := now - WINDOW;
    LiveReleased(grants, g, lane.key, since);
    LiveIsRecent(grants, lane.key, since);
    WithoutMultiset(lane.sent, grants[g].at);
    if here {
      TakeOut(Live(grants, lane.key, since), multiset(lane.sent), grants[g].at, Counted(grants[g], lane.key, since));
    }
  }

  /** Taking a time out of both sides keeps the inclusion, also when it is too old to be live. */
  lemma TakeOut(live: multiset<int>, sent: multiset<int>, at: int, counted: multiset<int>)
    requires live <= sent && counted <= live && (counted == multiset{at} || (counted == multiset{} && at !in live))
    ensures live - counted <= sent - multiset{at}
  {
  }

  lemma ReleaseConsistent(s: System, e: Event)
    requires Consistent(s) && Enabled(s, e) && e.ReleaseGrant?
    ensures Consistent(Next(s, e))
  {
    var grant := s.grants[e.grant];
    var p := s.pools[grant.generation];
    PoolAfterRelease(p, grant.lane, grant.at, s.now);
    ConsistentReplace(s, grant.generation, Release(p, grant.lane, grant.at));
    ConsistentMarked(s.(pools := s.pools[grant.generation := Release(p, grant.lane, grant.at)]), e.grant);
  }

  lemma ConsistentMarked(s: System, g: nat)
    requires Consistent(s) && g < |s.grants|
    ensures Consistent(s.(grants := s.grants[g := s.grants[g].(released := true)]))
  {
  }

  lemma ReleaseKeeps(s: System, e: Event, key: string)
    requires Invariant(s, key) && Enabled(s, e) && e.ReleaseGrant?
    ensures Invariant(Next(s, e), key)
  {
    var grant, p := s.grants[e.grant], s.pools[Current(s)];
    var here := grant.generation == Current(s);
    var q := if here then Release(p, grant.lane, grant.at) else p;
    ReleaseConsistent(s, e);
    NextRelease(s, e);
    ReleaseRecorded(p, s.grants, e.grant, s.now, key, here);
    BudgetReleased(s.grants, e.grant, key);
    InvariantHolds(Next(s, e), q, key);
  }

  lemma InvariantHolds(t: System, q: PoolState, key: string)
    requires Consistent(t) && t.pools[Current(t)] == q
    requires Recorded(q, t.grants, t.now, key) && WithinBudget(t.grants, key)
    ensures Invariant(t, key)
  {
  }

  lemma NextRelease(s: System, e: Event)
    requires s.pools != [] && Enabled(s, e) && e.ReleaseGrant?
    ensures var grant := s.grants[e.grant];
            var s' := Next(s, e);
            s'.now == s.now && |s'.pools| == |s.pools| && s'.grants == s.grants[e.grant := grant.(released := true)] &&
            s'.pools[Current(s)] == if grant.generation == Current(s) then Release(s.pools[Current(s)], grant.lane, grant.at)
                                    else s.pools[Current(s)]
  {
  }

  // ---------- rebuilds ----------

  lemma {:induction false} FilterKeys(specs: seq<LaneSpec>, enabled: bool)
    requires ValidSpecs(specs)
    ensures ValidSpecs(Filter(specs, enabled))
  {
    if specs != [] {
      var rest := Filter(specs[1..], enabled);
      FilterKeys(specs[1..], enabled);
      forall k | 0 <= k < |rest| ensures rest[k].key != specs[0].key && rest[k].rpm > 0 {
        assert rest[k] in rest && rest[k] in specs[1..];
      }
      SpecsCons(specs[0], rest);
    }
  }

  lemma SpecsCons(first: LaneSpec, rest: seq<LaneSpec>)
    requires ValidSpecs(rest) && first.rpm > 0 && forall k :: 0 <= k < |rest| ==> rest[k].key != first.key
    ensures ValidSpecs([first] + rest) && ValidSpecs([] + rest)
  {
    var all := [first] + rest;
    assert [] + rest == rest;
    forall i, j | 0 <= i < j < |all| ensures all[i].key != all[j].key {
      assert all[j] == rest[j - 1] && (i > 0 ==> all[i] == rest[i - 1]);
    }
  }

  lemma OrderedSpecs(specs: seq<LaneSpec>)
    requires ValidSpecs(specs)
    ensures ValidSpecs(Filter(specs, true) + Filter(specs, false))
  {
    var a, b := Filter(specs, true), Filter(specs, false);
    FilterKeys(specs, true);
    FilterKeys(specs, false);
    forall i, j | 0 <= i < |a| && 0 <= j < |b| ensures a[i].key != b[j].key {
      assert a[i] in specs && b[j] in specs && a[i].enabled && !b[j].enabled;
    }
  }

  /** A kept key finds its timestamps again; a new one starts with none. */
  lemma CarriedLane(spec: LaneSpec, p: PoolState, now: int)
    requires InOrder(p, now) && spec.rpm > 0
    ensures var lane := Carry(spec, p.lanes, now);
            lane.key == spec.key && lane.rpm == spec.rpm &&
            Sorted(lane.sent) && (forall t :: t in lane.sent ==> t <= now) &&
            (if HasKey(p, spec.key) then exists i :: 0 <= i < |p.lanes| && p.lanes[i].key == spec.key && p.lanes[i].sent == lane.sent
             else lane.sent == [])
  {
    var prev := FindKey(p.lanes, spec.key);
    if prev.Some? {
      var i :| 0 <= i < |p.lanes| && p.lanes[i] == prev.value;
    }
  }

  lemma PoolAfterSwap(p: PoolState, specs: seq<LaneSpec>, now: int)
    requires InOrder(p, now) && ValidSpecs(specs)
    ensures InOrder(Assemble(specs, p.lanes, now), now)
  {
    var ordered := Filter(specs, true) + Filter(specs, false);
    OrderedSpecs(specs);
    forall i | 0 <= i < |ordered|
      ensures var l := Carry(ordered[i], p.lanes, now);
              l.key == ordered[i].key && l.rpm > 0 && Sorted(l.sent) && forall t :: t in l.sent ==> t <= now {
      CarriedLane(ordered[i], p, now);
    }
  }

  lemma SwapRecorded(p: PoolState, specs: seq<LaneSpec>, grants: seq<GrantRecord>, now: int, key: string)
    requires InOrder(p, now) && ValidSpecs(specs) && Recorded(p, grants, now, key)
    requires HasKey(p, key) ==> Named(specs, key) || Idle(grants, key, now - WINDOW)
    ensures Recorded(Assemble(specs, p.lanes, now), grants, now, key)
  {
    var ordered := Filter(specs, true) + Filter(specs, false);
    var q := Assemble(specs, p.lanes, now);
    OrderedSpecs(specs);
    forall i | 0 <= i < |q.lanes| && q.lanes[i].key == key
      ensures Live(grants, key, now - WINDOW) <= multiset(q.lanes[i].sent) {
      CarriedLane(ordered[i], p, now);
      if !HasKey(p, key) { LiveOfIdle(grants, key, now - WINDOW); }
    }
    if HasKey(p, key) && Named(specs, key) {
      var i :| 0 <= i < |specs| && specs[i].key == key;
      assert specs[i] in specs && specs[i] in ordered;
      var j :| 0 <= j < |ordered| && ordered[j] == specs[i];
      CarriedLane(ordered[j], p, now);
      assert q.lanes[j].key == key;
    }
  }

  lemma ConsistentAppend(s: System, q: PoolState)
    requires Consistent(s) && InOrder(q, s.now)
    ensures Consistent(s.(pools := s.pools + [q]))
  {
    var pools := s.pools + [q];
    forall c | 0 <= c < |pools| ensures InOrder(pools[c], s.now) {
      assert c < |s.pools| ==> pools[c] == s.pools[c];
    }
  }

  lemma NextSwap(s: System, e: Event)
    requires Enabled(s, e) && e.Swap?
    ensures var q := Assemble(e.specs, s.pools[Current(s)].lanes, s.now);
            var s' := Next(s, e);
            s' == s.(pools := s.pools + [q]) && s'.pools[Current(s')] == q
  {
  }

  lemma SwapConsistent(s: System, e: Event)
    requires Consistent(s) && Enabled(s, e) && e.Swap?
    ensures Consistent(Next(s, e))
  {
    PoolAfterSwap(s.pools[Current(s)], e.specs, s.now);
    ConsistentAppend(s, Assemble(e.specs, s.pools[Current(s)].lanes, s.now));
    NextSwap(s, e);
  }

  lemma SwapKeeps(s: System, e: Event, key: string)
    requires Invariant(s, key) && Enabled(s, e) && e.Swap? && Keeps(s, e, key)
    ensures Invariant(Next(s, e), key)
  {
    SwapConsistent(s, e);
    SwapRecorded(s.pools[Current(s)], e.specs, s.grants, s.now, key);
    NextSwap(s, e);
  }

  // ---------- whole runs ----------

  function Run(s: System, events: seq<Event>): System
    requires Runs(s, events)
    decreases |events|
  {
    if events == [] then s else Run(Next(s, events[0]), events[1..])
  }

  /** Every event is possible when it happens. */
  predicate Runs(s: System, events: seq<Event>)
    decreases |events|
  {
    events == [] || (Enabled(s, events[0]) && Runs(Next(s, events[0]), events[1..]))
  }

  /** No rebuild drops the key while it has live grants. */
  ghost predicate AlwaysKeeps(s: System, events: seq<Event>, key: string)
    requires Runs(s, events)
    decreases |events|
  {
    events == [] || (Keeps(s, events[0], key) && AlwaysKeeps(Next(s, events[0]), events[1..], key))
  }

  lemma PenalizeConsistent(s: System, e: Event)
    requires Consistent(s) && Enabled(s, e) && e.PenalizeLane?
    ensures Consistent(Next(s, e))
  {
    PoolAfterPenalize(s.pools[e.generation], e.lane, s.now + e.backoff, s.now);
    ConsistentReplace(s, e.generation, Penalize(s.pools[e.generation], e.lane, s.now + e.backoff));
  }

  lemma StepConsistent(s: System, e: Event)
    requires Consistent(s) && Enabled(s, e)
    ensures Consistent(Next(s, e))
  {
    match e
    case ReserveSlot(_, _) => ReserveConsistent(s, e);
    case ReleaseGrant(_) => ReleaseConsistent(s, e);
    case PenalizeLane(_, _, _) => PenalizeConsistent(s, e);
    case Swap(_) => SwapConsistent(s, e);
    case Tick(elapsed) => ConsistentLater(s, elapsed);
  }

  /** What each event does to the record of grants. */
  lemma StepGrants(s: System, e: Event)
    requires Consistent(s) && Enabled(s, e)
    ensures var s' := Next(s, e);
            s'.now >= s.now &&
            match e
            case ReserveSlot(prefer, allowed) =>
              s'.now == s.now &&
              (match Reserve(s.pools[Current(s)], s.now, prefer, allowed).reservation
               case Wait(_) => s'.grants == s.grants
               case Ready(_, _, _, _) =>
                 |s'.grants| == |s.grants| + 1 && s'.grants[..|s.grants|] == s.grants && !s'.grants[|s.grants|].released)
            case ReleaseGrant(g) => s'.now == s.now && s'.grants == s.grants[g := s.grants[g].(released := true)]
            case _ => s'.grants == s.grants
  {
    if e.ReserveSlot? { ReserveLanes(s.pools[Current(s)], s.now, e.prefer, e.allowed); }
  }

  lemma StepKeeps(s: System, e: Event, key: string)
    requires Invariant(s, key) && Enabled(s, e) && Keeps(s, e, key)
    ensures Invariant(Next(s, e), key)
  {
    if e.ReserveSlot? {
      ReserveKeeps(s, e, key);
    } else if e.ReleaseGrant? {
      ReleaseKeeps(s, e, key);
    } else if e.PenalizeLane? {
      PenalizeKeeps(s, e, key);
    } else if e.Swap? {
      SwapKeeps(s, e, key);
    } else {
      TickKeeps(s, e.elapsed, key);
    }
  }

  lemma {:induction false} RunKeeps(s: System, events: seq<Event>, key: string)
    requires Invariant(s, key) && Runs(s, events) && AlwaysKeeps(s, events, key)
    ensures Invariant(Run(s, events), key)
    decreases |events|
  {
    if events != [] {
      StepKeeps(s, events[0], key);
      RunKeeps(Next(s, events[0]), events[1..], key);
    }
  }

  /** A pool built from a valid configuration, before anything has happened. */
  function Start(specs: seq<LaneSpec>, now: int): System {
    System(now, [Assemble(specs, [], now)], [])
  }

  /** Grants are recorded in the order in which they are made. */
  ghost predicate Chronological(s: System) {
    (forall g :: 0 <= g < |s.grants| ==> s.grants[g].at <= s.now) &&
    forall g, h :: 0 <= g < h < |s.grants| ==> s.grants[g].at <= s.grants[h].at
  }

  lemma StepChronological(s: System, e: Event)
    requires Chronological(s) && Consistent(s) && Enabled(s, e)
    ensures Chronological(Next(s, e))
  {
    if e.ReserveSlot? { ReserveLanes(s.pools[Current(s)], s.now, e.prefer, e.allowed); }
  }

  lemma {:induction false} RunChronological(s: System, events: seq<Event>, key: string)
    requires Chronological(s) && Invariant(s, key) && Runs(s, events) && AlwaysKeeps(s, events, key)
    ensures Chronological(Run(s, events))
    decreases |events|
  {
    if events != [] {
      StepChronological(s, events[0]);
      StepKeeps(s, events[0], key);
      RunChronological(Next(s, events[0]), events[1..], key);
    }
  }

  /** However reservations, returns, cooldowns, rebuilds and time interleave, no grant of a key
      that no rebuild drops while it has live grants fills its rolling window beyond the budget in
      force for it. */
  lemma KeptKeyWithinBudget(specs: seq<LaneSpec>, now: int, events: seq<Event>, key: string)
    requires ValidSpecs(specs) && Runs(Start(specs, now), events) && AlwaysKeeps(Start(specs, now), events, key)
    ensures WithinBudget(Run(Start(specs, now), events).grants, key)
    ensures Chronological(Run(Start(specs, now), events))
  {
    var empty := PoolState([], 0);
    PoolAfterSwap(empty, specs, now);
    RunKeeps(Start(specs, now), events, key);
    RunChronological(Start(specs, now), events, key);
  }

  /** A key dropped by one rebuild and restored by the next has lost its window: its lane starts
      empty, whatever was granted just before. */
  lemma DroppedKeyForgotten(p: PoolState, without: seq<LaneSpec>, again: seq<LaneSpec>, now: int, key: string)
    requires InOrder(p, now) && ValidSpecs(without) && ValidSpecs(again)
    requires forall i :: 0 <= i < |without| ==> without[i].key != key
    ensures var q := Assemble(again, Assemble(without, p.lanes, now).lanes, now);
            forall i :: 0 <= i < |q.lanes| && q.lanes[i].key == key ==> q.lanes[i].sent == [] && Available(q.lanes[i], now)
  {
    var middle := Assemble(without, p.lanes, now);
    var ordered := Filter(again, true) + Filter(again, false);
    PoolAfterSwap(p, without, now);
    OrderedSpecs(again);
    AbsentAfter(p, without, now, key);
    var q := Assemble(again, middle.lanes, now);
    forall i | 0 <= i < |q.lanes| && q.lanes[i].key == key ensures q.lanes[i].sent == [] && Available(q.lanes[i], now) {
      CarriedLane(ordered[i], middle, now);
      assert FindKey(middle.lanes, key).None?;
    }
  }

  lemma AbsentAfter(p: PoolState, specs: seq<LaneSpec>, now: int, key: string)
    requires forall i :: 0 <= i < |specs| ==> specs[i].key != key
    ensures !HasKey(Assemble(specs, p.lanes, now), key)
  {
    var ordered := Filter(specs, true) + Filter(specs, false);
    forall i | 0 <= i < |ordered| ensures Carry(ordered[i], p.lanes, now).key != key {
      assert ordered[i] in ordered && ordered[i] in specs;
    }
  }
}
