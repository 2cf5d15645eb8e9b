/** What a lane's window holds over a run (src/pool.rs): the key's live grants, and exactly those
    unless a slot was returned to a pool that had been replaced. */
module PoolWindow {
  import opened Collections
  import opened Wrappers
  import opened KeyPool
  import opened PoolHistory
  import opened PoolBudget

  /** How many unreturned grants of the key were made at `t`. */
  function Out(grants: seq<GrantRecord>, key: string, t: int): nat {
    if grants == [] then 0
    else Out(grants[..|grants| - 1], key, t) + Counts(grants[|grants| - 1], key, t)
  }

  function Counts(g: GrantRecord, key: string, t: int): nat {
    if g.key == key && !g.released && g.at == t then 1 else 0
  }

  /** A grant of the key that is returned after its pool was replaced: the live lane keeps its time. */
  function Stranded(s: System, e: Event, key: string): multiset<int>
    requires Enabled(s, e)
  {
    if e.ReleaseGrant? && s.grants[e.grant].key == key && s.grants[e.grant].generation != Current(s)
    then multiset{s.grants[e.grant].at} else multiset{}
  }

  function StrandedIn(s: System, events: seq<Event>, key: string): multiset<int>
    requires Runs(s, events)
    decreases |events|
  {
    if events == [] then multiset{}
    else Stranded(s, events[0], key) + StrandedIn(Next(s, events[0]), events[1..], key)
  }

  /** Within the window, the key's lane holds the times that are out and the stranded ones. */
  ghost predicate Exact(p: PoolState, grants: seq<GrantRecord>, stranded: multiset<int>, now: int, key: string) {
    (forall i, t :: 0 <= i < |p.lanes| && p.lanes[i].key == key && t > now - WINDOW ==>
       multiset(p.lanes[i].sent)[t] == Out(grants, key, t) + stranded[t]) &&
    (!HasKey(p, key) ==> forall t :: t > now - WINDOW ==> Out(grants, key, t) + stranded[t] == 0)
  }

  /** The event does not drop the key while its window holds anything. */
  ghost predicate DropsEmpty(s: System, e: Event, key: string)
    requires s.pools != []
  {
    var p := s.pools[Current(s)];
    e.Swap? && !Named(e.specs, key) ==>
      forall i :: 0 <= i < |p.lanes| && p.lanes[i].key == key ==> DropExpired(p.lanes[i].sent, s.now) == []
  }

  ghost predicate AlwaysDropsEmpty(s: System, events: seq<Event>, key: string)
    requires Runs(s, events)
    decreases |events|
  {
    events == [] || (DropsEmpty(s, events[0], key) && AlwaysDropsEmpty(Next(s, events[0]), events[1..], key))
  }

  // ---------- counting ----------

  lemma OutSnoc(grants: seq<GrantRecord>, g: GrantRecord, key: string, t: int)
    ensures Out(grants + [g], key, t) == Out(grants, key, t) + Counts(g, key, t)
  {
    assert (grants + [g])[..|grants|] == grants;
  }

  lemma {:induction false} OutReleased(grants: seq<GrantRecord>, g: nat, key: string, t: int)
    requires g < |grants| && !grants[g].released
    ensures Out(grants[g := grants[g].(released := true)], key, t) + Counts(grants[g], key, t) == Out(grants, key, t)
  {
    var init, last := grants[..|grants| - 1], grants[|grants| - 1];
    var returned := grants[g].(released := true);
    UpdateSnoc(grants, g, returned);
    OutSnoc(init, last, key, t);
    if g < |init| {
      OutReleased(init, g, key, t);
      OutSnoc(init[g := returned], last, key, t);
    } else {
      OutSnoc(init, returned, key, t);
    }
  }

  lemma {:induction false} LiveAt(grants: seq<GrantRecord>, key: string, since: int, t: int)
    ensures Live(grants, key, since)[t] == if t > since then Out(grants, key, t) else 0
  {
    if grants != [] { LiveAt(grants[..|grants| - 1], key, since, t); }
  }

  lemma {:induction false} DropCounts(sent: seq<int>, now: int, t: int)
    requires Sorted(sent)
    ensures multiset(DropExpired(sent, now))[t] == if t > now - WINDOW then multiset(sent)[t] else 0
  {
    if sent == [] {
    } else if now - sent[0] >= WINDOW {
      DropCounts(sent[1..], now, t);
      assert sent == [sent[0]] + sent[1..];
    } else {
      assert forall i :: 0 <= i < |sent| ==> sent[0] <= sent[i];
      assert t <= now - WINDOW ==> t !in sent;
    }
  }

  // ---------- one event ----------

  lemma ExactSameSent(p: PoolState, q: PoolState, grants: seq<GrantRecord>, stranded: multiset<int>, now: int, key: string)
    requires Exact(p, grants, stranded, now, key) && SameKeys(p, q)
    requires forall i :: 0 <= i < |p.lanes| ==> q.lanes[i].sent == p.lanes[i].sent
    ensures Exact(q, grants, stranded, now, key)
  {
    KeysIff(p, q, key);
  }

  lemma KeysIff(p: PoolState, q: PoolState, key: string)
    requires SameKeys(p, q)
    ensures HasKey(p, key) <==> HasKey(q, key)
  {
    if i :| 0 <= i < |p.lanes| && p.lanes[i].key == key {
      assert q.lanes[i].key == key;
    }
    if i :| 0 <= i < |q.lanes| && q.lanes[i].key == key {
      assert p.lanes[i].key == key;
    }
  }

  lemma ExactLater(p: PoolState, grants: seq<GrantRecord>, stranded: multiset<int>, now: int, later: int, key: string)
    requires Exact(p, grants, stranded, now, key) && now <= later
    ensures Exact(p, grants, stranded, later, key)
  {
  }

  lemma LaneCounts(before: Lane, after: Lane, now: int, here: bool, t: int)
    requires LaneAfter(before, after, now, here) && Sorted(before.sent) && t > now - WINDOW
    ensures multiset(after.sent)[t] == multiset(before.sent)[t] + if here && t == now then 1 else 0
  {
    DropCounts(before.sent, now, t);
  }

  lemma ExactTaken(p: PoolState, q: PoolState, grants: seq<GrantRecord>, g: GrantRecord, granted: bool,
                   stranded: multiset<int>, now: int, key: string)
    requires WellFormed(p) && SameKeys(p, q) && Exact(p, grants, stranded, now, key)
    requires granted ==> g.lane < |p.lanes| && g.key == p.lanes[g.lane].key && g.at == now && !g.released
    requires forall i :: 0 <= i < |p.lanes| ==> LaneAfter(p.lanes[i], q.lanes[i], now, granted && g.lane == i)
    ensures Exact(q, if granted then grants + [g] else grants, stranded, now, key)
  {
    var after := if granted then grants + [g] else grants;
    KeysIff(p, q, key);
    forall t | t > now - WINDOW
      ensures Out(after, key, t) == Out(grants, key, t) + if granted then Counts(g, key, t) else 0
    {
      OutSnoc(grants, g, key, t);
    }
    forall i, t | 0 <= i < |p.lanes| && p.lanes[i].key == key && t > now - WINDOW
      ensures multiset(q.lanes[i].sent)[t] == Out(after, key, t) + stranded[t]
    {
      assert LaneAfter(p.lanes[i], q.lanes[i], now, granted && g.lane == i);
      LaneCounts(p.lanes[i], q.lanes[i], now, granted && g.lane == i, t);
      assert granted && g.key == key ==> g.lane == i;
    }
    assert granted && !HasKey(p, key) ==> g.key != key;
  }

  lemma ExactReturned(p: PoolState, grants: seq<GrantRecord>, g: nat, here: bool, stranded: multiset<int>, now: int, key: string)
    requires WellFormed(p) && Exact(p, grants, stranded, now, key) && g < |grants| && !grants[g].released
    requires here ==> grants[g].lane < |p.lanes| && p.lanes[grants[g].lane].key == grants[g].key
    ensures var q := if here then Release(p, grants[g].lane, grants[g].at) else p;
            Exact(q, After(grants, g), More(grants, g, here, stranded, key), now, key)
  {
    var q := if here then Release(p, grants[g].lane, grants[g].at) else p;
    forall i | 0 <= i < |p.lanes| ensures q.lanes[i].key == p.lanes[i].key {
      ReleasedLane(p, grants[g].lane, grants[g].at, here, i);
    }
    KeysIff(p, q, key);
    forall i, t | 0 <= i < |q.lanes| && q.lanes[i].key == key && t > now - WINDOW
      ensures multiset(q.lanes[i].sent)[t] == Out(After(grants, g), key, t) + More(grants, g, here, stranded, key)[t]
    {
      ReleasedLane(p, grants[g].lane, grants[g].at, here, i);
      assert here && grants[g].key == key ==> grants[g].lane == i;
      CountsReturned(p.lanes[i].sent, grants, g, here && i == grants[g].lane, stranded, key, t);
    }
    forall t | t > now - WINDOW && !HasKey(p, key)
      ensures Out(After(grants, g), key, t) + More(grants, g, here, stranded, key)[t] == 0
    {
      CountsReturned([], grants, g, false, stranded, key, t);
    }
  }

  function After(grants: seq<GrantRecord>, g: nat): seq<GrantRecord>
    requires g < |grants|
  {
    grants[g := grants[g].(released := true)]
  }

  function More(grants: seq<GrantRecord>, g: nat, mine: bool, stranded: multiset<int>, key: string): multiset<int>
    requires g < |grants|
  {
    stranded + (if !mine && grants[g].key == key then multiset{grants[g].at} else multiset{})
  }

  /** A returned time leaves the lane, or, returned elsewhere, joins the stranded ones. */
  lemma CountsReturned(sent: seq<int>, grants: seq<GrantRecord>, g: nat, mine: bool, stranded: multiset<int>, key: string, t: int)
    requires g < |grants| && !grants[g].released && (mine ==> grants[g].key == key)
    requires multiset(sent)[t] == Out(grants, key, t) + stranded[t]
    ensures multiset(if mine then Without(sent, grants[g].at) else sent)[t] ==
            Out(After(grants, g), key, t) + More(grants, g, mine, stranded, key)[t]
  {
    OutReleased(grants, g, key, t);
    WithoutMultiset(sent, grants[g].at);
  }

  lemma ExactSwapped(p: PoolState, specs: seq<LaneSpec>, grants: seq<GrantRecord>, stranded: multiset<int>, now: int, key: string)
    requires InOrder(p, now) && ValidSpecs(specs) && Exact(p, grants, stranded, now, key)
    requires !Named(specs, key) ==>
               forall i :: 0 <= i < |p.lanes| && p.lanes[i].key == key ==> DropExpired(p.lanes[i].sent, now) == []
    ensures Exact(Assemble(specs, p.lanes, now), grants, stranded, now, key)
  {
    var ordered := Filter(specs, true) + Filter(specs, false);
    var q := Assemble(specs, p.lanes, now);
    OrderedSpecs(specs);
    forall i, t | 0 <= i < |q.lanes| && q.lanes[i].key == key && t > now - WINDOW
      ensures multiset(q.lanes[i].sent)[t] == Out(grants, key, t) + stranded[t]
    {
      CarriedLane(ordered[i], p, now);
    }
    if !HasKey(q, key) && HasKey(p, key) {
      SpecsNamed(p, specs, now, key);
      var i :| 0 <= i < |p.lanes| && p.lanes[i].key == key;
      forall t | t > now - WINDOW ensures Out(grants, key, t) + stranded[t] == 0 {
        DropCounts(p.lanes[i].sent, now, t);
      }
    }
  }

  lemma SpecsNamed(p: PoolState, specs: seq<LaneSpec>, now: int, key: string)
    requires InOrder(p, now) && ValidSpecs(specs)
    ensures Named(specs, key) ==> HasKey(Assemble(specs, p.lanes, now), key)
  {
    if Named(specs, key) {
      var ordered := Filter(specs, true) + Filter(specs, false);
      OrderedSpecs(specs);
      var i :| 0 <= i < |specs| && specs[i].key == key;
      assert specs[i] in specs && specs[i] in ordered;
      var j :| 0 <= j < |ordered| && ordered[j] == specs[i];
      CarriedLane(ordered[j], p, now);
      assert Assemble(specs, p.lanes, now).lanes[j].key == key;
    }
  }

  // ---------- whole runs ----------

  ghost predicate ExactNow(s: System, stranded: multiset<int>, key: string) {
    Consistent(s) && ExactLive(s, stranded, key)
  }

  ghost predicate ExactLive(s: System, stranded: multiset<int>, key: string) {
    s.pools != [] && Exact(s.pools[Current(s)], s.grants, stranded, s.now, key)
  }

  lemma ReserveExact(s: System, e: Event, stranded: multiset<int>, key: string)
    requires ExactNow(s, stranded, key) && Enabled(s, e) && e.ReserveSlot?
    ensures ExactLive(Next(s, e), stranded, key)
  {
    ReserveShape(s, e);
    var p := s.pools[Current(s)];
    var r := Reserve(p, s.now, e.prefer, e.allowed);
    ReserveLanes(p, s.now, e.prefer, e.allowed);
    PoolAfterReserve(p, s.now, e.prefer, e.allowed);
    var granted := r.reservation.Ready?;
    var g := if granted then Recording(s, r) else GrantRecord(0, 0, "", 0, 0, false);
    ExactTaken(p, r.pool, s.grants, g, granted, stranded, s.now, key);
  }

  lemma ReleaseExact(s: System, e: Event, stranded: multiset<int>, key: string)
    requires ExactNow(s, stranded, key) && Enabled(s, e) && e.ReleaseGrant?
    ensures ExactLive(Next(s, e), stranded + Stranded(s, e, key), key)
  {
    ReleasePlace(s, e);
    assert InOrder(s.pools[Current(s)], s.now);
    ReleaseExactAt(s, s.pools[Current(s)], e, stranded, key);
  }

  lemma ReleaseExactAt(s: System, p: PoolState, e: Event, stranded: multiset<int>, key: string)
    requires s.pools != [] && p == s.pools[Current(s)] && Enabled(s, e) && e.ReleaseGrant?
    requires WellFormed(p) && Exact(p, s.grants, stranded, s.now, key) && InPlace(p, s, e.grant)
    ensures ExactLive(Next(s, e), stranded + Stranded(s, e, key), key)
  {
    var g, here := e.grant, s.grants[e.grant].generation == Current(s);
    ReturnedMore(s, e, stranded, key);
    ExactReturned(p, s.grants, g, here, stranded, s.now, key);
    ReleasedNow(s, e, if here then Release(p, s.grants[g].lane, s.grants[g].at) else p, More(s.grants, g, here, stranded, key), key);
  }

  lemma ReleasedNow(s: System, e: Event, q: PoolState, stranded: multiset<int>, key: string)
    requires s.pools != [] && Enabled(s, e) && e.ReleaseGrant?
    requires q == if s.grants[e.grant].generation == Current(s)
                  then Release(s.pools[Current(s)], s.grants[e.grant].lane, s.grants[e.grant].at) else s.pools[Current(s)]
    requires Exact(q, After(s.grants, e.grant), stranded, s.now, key)
    ensures ExactLive(Next(s, e), stranded, key)
  {
    NextRelease(s, e);
    NowExact(Next(s, e), q, After(s.grants, e.grant), stranded, s.now, key);
  }

  /** The grant's lane is still the key's, unless its pool was replaced. */
  predicate InPlace(p: PoolState, s: System, g: nat) {
    s.pools != [] && g < |s.grants| &&
    (s.grants[g].generation == Current(s) ==>
       s.grants[g].lane < |p.lanes| && p.lanes[s.grants[g].lane].key == s.grants[g].key)
  }

  lemma NowExact(s: System, p: PoolState, grants: seq<GrantRecord>, stranded: multiset<int>, now: int, key: string)
    requires s.pools != [] && s.pools[Current(s)] == p && s.grants == grants && s.now == now
    requires Exact(p, grants, stranded, now, key)
    ensures ExactLive(s, stranded, key)
  {
  }

  lemma ReturnedMore(s: System, e: Event, stranded: multiset<int>, key: string)
    requires s.pools != [] && Enabled(s, e) && e.ReleaseGrant?
    ensures More(s.grants, e.grant, s.grants[e.grant].generation == Current(s), stranded, key) == stranded + Stranded(s, e, key)
  {
  }

  lemma ReleasePlace(s: System, e: Event)
    requires Consistent(s) && Enabled(s, e) && e.ReleaseGrant?
    ensures InPlace(s.pools[Current(s)], s, e.grant)
  {
  }

  lemma PenalizeExact(s: System, e: Event, stranded: multiset<int>, key: string)
    requires ExactNow(s, stranded, key) && Enabled(s, e) && e.PenalizeLane?
    ensures ExactLive(Next(s, e), stranded, key)
  {
    assert InOrder(s.pools[e.generation], s.now);
    PenalizeExactAt(s, s.pools[Current(s)], e, stranded, key);
  }

  lemma PenalizeExactAt(s: System, p: PoolState, e: Event, stranded: multiset<int>, key: string)
    requires s.pools != [] && p == s.pools[Current(s)] && Enabled(s, e) && e.PenalizeLane?
    requires InOrder(s.pools[e.generation], s.now) && Exact(p, s.grants, stranded, s.now, key)
    ensures ExactLive(Next(s, e), stranded, key)
  {
    NextPenalize(s, e);
    if e.generation == Current(s) {
      PoolAfterPenalize(p, e.lane, s.now + e.backoff, s.now);
      ExactSameSent(p, Penalize(p, e.lane, s.now + e.backoff), s.grants, stranded, s.now, key);
    }
  }

  lemma SwapExact(s: System, e: Event, stranded: multiset<int>, key: string)
    requires ExactNow(s, stranded, key) && Enabled(s, e) && e.Swap? && DropsEmpty(s, e, key)
    ensures ExactLive(Next(s, e), stranded, key)
  {
    NextSwap(s, e);
    ExactSwapped(s.pools[Current(s)], e.specs, s.grants, stranded, s.now, key);
  }

  lemma StepExact(s: System, e: Event, stranded: multiset<int>, key: string)
    requires ExactNow(s, stranded, key) && Enabled(s, e) && DropsEmpty(s, e, key)
    ensures ExactNow(Next(s, e), stranded + Stranded(s, e, key), key)
  {
    StepConsistent(s, e);
    assert stranded + multiset{} == stranded;
    match e
    case ReserveSlot(_, _) => ReserveExact(s, e, stranded, key);
    case ReleaseGrant(_) => ReleaseExact(s, e, stranded, key);
    case PenalizeLane(_, _, _) => PenalizeExact(s, e, stranded, key);
    case Swap(_) => SwapExact(s, e, stranded, key);
    case Tick(elapsed) => ExactLater(s.pools[Current(s)], s.grants, stranded, s.now, s.now + elapsed, key);
  }

  lemma {:induction false} RunExact(s: System, events: seq<Event>, stranded: multiset<int>, key: string)
    requires ExactNow(s, stranded, key) && Runs(s, events) && AlwaysDropsEmpty(s, events, key)
    ensures ExactNow(Run(s, events), stranded + StrandedIn(s, events, key), key)
    decreases |events|
  {
    if events == [] {
      assert stranded + multiset{} == stranded;
    } else {
      var step := Stranded(s, events[0], key);
      StepExact(s, events[0], stranded, key);
      RunExact(Next(s, events[0]), events[1..], stranded + step, key);
      assert stranded + step + StrandedIn(Next(s, events[0]), events[1..], key) == stranded + StrandedIn(s, events, key);
    }
  }

  lemma StartExact(specs: seq<LaneSpec>, now: int, key: string)
    requires ValidSpecs(specs)
    ensures ExactNow(Start(specs, now), multiset{}, key)
  {
    var empty := PoolState([], 0);
    PoolAfterSwap(empty, specs, now);
    ExactSwapped(empty, specs, [], multiset{}, now, key);
  }

  lemma WindowIs(lane: Lane, grants: seq<GrantRecord>, stranded: multiset<int>, now: int)
    requires Sorted(lane.sent)
    requires forall t :: t > now - WINDOW ==> multiset(lane.sent)[t] == Out(grants, lane.key, t) + stranded[t]
    ensures multiset(DropExpired(lane.sent, now)) == Live(grants, lane.key, now - WINDOW)
            <==> forall t :: t in stranded ==> t <= now - WINDOW
  {
    var kept, live := multiset(DropExpired(lane.sent, now)), Live(grants, lane.key, now - WINDOW);
    forall t ensures kept[t] == live[t] + if t > now - WINDOW then stranded[t] else 0 {
      DropCounts(lane.sent, now, t);
      LiveAt(grants, lane.key, now - WINDOW, t);
    }
    AlikeIff(kept, live, stranded, now - WINDOW);
  }

  lemma AlikeIff(kept: multiset<int>, live: multiset<int>, stranded: multiset<int>, since: int)
    requires forall t :: kept[t] == live[t] + if t > since then stranded[t] else 0
    ensures kept == live <==> forall t :: t in stranded ==> t <= since
  {
    if t :| t in stranded && t > since {
      assert kept[t] != live[t];
    } else {
      assert forall t :: kept[t] == live[t];
    }
  }

  /** The window of the lane holds exactly the live grants when no stranded time is left in it, and
      only then; and in that case the lane is as free as they leave it. */
  ghost predicate LiveWindow(lane: Lane, s: System, stranded: multiset<int>) {
    var live := Live(s.grants, lane.key, s.now - WINDOW);
    var timely := forall t :: t in stranded ==> t <= s.now - WINDOW;
    (multiset(DropExpired(lane.sent, s.now)) == live <==> timely) &&
    (timely ==> (Available(lane, s.now) <==> lane.cooldownUntil <= s.now && |live| < lane.rpm))
  }

  ghost predicate LiveWindows(s: System, stranded: multiset<int>, key: string) {
    s.pools != [] &&
    var lanes := s.pools[Current(s)].lanes;
    forall i :: 0 <= i < |lanes| && lanes[i].key == key ==> LiveWindow(lanes[i], s, stranded)
  }

  lemma SameSize(sent: seq<int>, live: multiset<int>)
    requires multiset(sent) == live
    ensures |sent| == |live|
  {
  }

  lemma WindowNow(lane: Lane, s: System, stranded: multiset<int>)
    requires Sorted(lane.sent)
    requires forall t :: t > s.now - WINDOW ==> multiset(lane.sent)[t] == Out(s.grants, lane.key, t) + stranded[t]
    ensures LiveWindow(lane, s, stranded)
  {
    var live := Live(s.grants, lane.key, s.now - WINDOW);
    WindowIs(lane, s.grants, stranded, s.now);
    FreeAsLive(lane, s.now, live);
  }

  lemma FreeAsLive(lane: Lane, now: int, live: multiset<int>)
    ensures multiset(DropExpired(lane.sent, now)) == live ==>
            (Available(lane, now) <==> lane.cooldownUntil <= now && |live| < lane.rpm)
  {
    if multiset(DropExpired(lane.sent, now)) == live {
      SameSize(DropExpired(lane.sent, now), live);
    }
  }

  lemma WindowsNow(s: System, stranded: multiset<int>, key: string)
    requires ExactNow(s, stranded, key)
    ensures LiveWindows(s, stranded, key)
  {
    var p := s.pools[Current(s)];
    forall i | 0 <= i < |p.lanes| && p.lanes[i].key == key ensures LiveWindow(p.lanes[i], s, stranded) {
      assert InOrder(p, s.now);
      WindowNow(p.lanes[i], s, stranded);
    }
  }

  /** Over every run whose rebuilds drop the key only with an empty window, the times left in the
      window of its lane are exactly those of its live grants, and a returned slot is free again, if
      and only if no grant of the window was returned after its pool had been replaced. */
  lemma WindowIsLive(specs: seq<LaneSpec>, start: int, events: seq<Event>, key: string)
    requires ValidSpecs(specs) && Runs(Start(specs, start), events) && AlwaysDropsEmpty(Start(specs, start), events, key)
    ensures LiveWindows(Run(Start(specs, start), events), StrandedIn(Start(specs, start), events, key), key)
  {
    var s, stranded := Start(specs, start), StrandedIn(Start(specs, start), events, key);
    StartExact(specs, start, key);
    RunExact(s, events, multiset{}, key);
    assert multiset{} + stranded == stranded;
    WindowsNow(Run(s, events), stranded, key);
  }

  // ---------- a slot that stays spent ----------

  function Spent(key: string, now: int): PoolState {
    PoolState([Lane(key, 1, 0, [now], now)], 1)
  }

  lemma SpentByAsking(key: string, now: int)
    ensures Reserve(Alone(key, now), now, None, None).pool == Spent(key, now)
  {
    var p := Alone(key, now);
    TakesOnlySlot(key, now);
    LaneGranted(p, now, None, None);
    var empty: seq<int> := [];
    assert DropExpired(empty, now) + [now] == [now];
    assert Taken(p.lanes[0], now) == Spent(key, now).lanes[0];
  }

  lemma SpentIsCarried(key: string, now: int)
    ensures Assemble([OneSlot(key)], Spent(key, now).lanes, now) == Spent(key, now)
  {
    var spec := OneSlot(key);
    assert [spec][1..] == [] && Filter([spec], true) == [spec] && Filter([spec], false) == [] && [spec] + [] == [spec];
    assert FindKey(Spent(key, now).lanes, key) == Some(Spent(key, now).lanes[0]);
  }

  /** Granted, the pool rebuilt with the same key, then returned. */
  function LateReturn(key: string): seq<Event> {
    [ReserveSlot(None, None), Swap([OneSlot(key)]), ReleaseGrant(0)]
  }

  function AfterLateReturn(key: string, now: int): System {
    System(now, [Alone(key, now), Spent(key, now)], [GrantRecord(0, 0, key, 1, now, true)])
  }

  /** The one way to lose a slot: no grant is out, and yet the key's lane is full. */
  lemma ReturnedSlotStaysSpent(key: string, now: int)
    ensures Runs(Start([OneSlot(key)], now), LateReturn(key))
    ensures Run(Start([OneSlot(key)], now), LateReturn(key)) == AfterLateReturn(key, now)
    ensures Live(AfterLateReturn(key, now).grants, key, now - WINDOW) == multiset{}
    ensures AfterLateReturn(key, now).pools[1] == Spent(key, now) && !Available(Spent(key, now).lanes[0], now)
  {
    SpentIsFull(key, now);
    LateReturnRuns(key, now);
  }

  lemma SpentIsFull(key: string, now: int)
    ensures Live(AfterLateReturn(key, now).grants, key, now - WINDOW) == multiset{}
    ensures !Available(Spent(key, now).lanes[0], now)
  {
    LiveOfIdle(AfterLateReturn(key, now).grants, key, now - WINDOW);
  }

  lemma LateReturnRuns(key: string, now: int)
    ensures Runs(Start([OneSlot(key)], now), LateReturn(key))
    ensures Run(Start([OneSlot(key)], now), LateReturn(key)) == AfterLateReturn(key, now)
  {
    var granted := GrantRecord(0, 0, key, 1, now, false);
    var s := Start([OneSlot(key)], now);
    var s1 := System(now, [Spent(key, now)], [granted]);
    var s2 := System(now, [Spent(key, now), Spent(key, now)], [granted]);
    SlotAsked(key, now, granted);
    SlotCarried(s1, key);
    SlotReturned(s2, key, granted);
    ThreeSteps(s, ReserveSlot(None, None), s1, Swap([OneSlot(key)]), s2, ReleaseGrant(0));
  }

  lemma SlotAsked(key: string, now: int, granted: GrantRecord)
    requires granted == GrantRecord(0, 0, key, 1, now, false)
    ensures var s, e := Start([OneSlot(key)], now), ReserveSlot(None, None);
            Enabled(s, e) && Next(s, e) == System(now, [Spent(key, now)], [granted])
  {
    var s := Start([OneSlot(key)], now);
    AssembledAlone([], key, now);
    assert s == System(now, [Alone(key, now)], []);
    SpentByAsking(key, now);
    TakesOnlySlot(key, now);
    assert [Alone(key, now)][0 := Spent(key, now)] == [Spent(key, now)];
  }

  lemma SlotCarried(s: System, key: string)
    requires s.pools == [Spent(key, s.now)]
    ensures var e := Swap([OneSlot(key)]);
            Enabled(s, e) && Next(s, e) == s.(pools := [Spent(key, s.now), Spent(key, s.now)])
  {
    SpentIsCarried(key, s.now);
    NextSwap(s, Swap([OneSlot(key)]));
    assert s.pools + [Spent(key, s.now)] == [Spent(key, s.now), Spent(key, s.now)];
  }

  lemma ThreeSteps(s: System, a: Event, s1: System, b: Event, s2: System, c: Event)
    requires Enabled(s, a) && Next(s, a) == s1 && Enabled(s1, b) && Next(s1, b) == s2 && Enabled(s2, c)
    ensures Runs(s, [a, b, c]) && Run(s, [a, b, c]) == Next(s2, c)
  {
    Prepend(s2, c, []);
    assert [c] + [] == [c];
    PrependTwo(s, a, b, [c]);
    assert [a, b] + [c] == [a, b, c];
  }

  lemma SlotReturned(s: System, key: string, granted: GrantRecord)
    requires s == System(s.now, [Spent(key, s.now), Spent(key, s.now)], [granted])
    requires granted == GrantRecord(0, 0, key, 1, s.now, false)
    ensures Enabled(s, ReleaseGrant(0))
    ensures Next(s, ReleaseGrant(0)) == System(s.now, [Alone(key, s.now), Spent(key, s.now)], [granted.(released := true)])
  {
    assert Without([s.now], s.now) == [];
    assert Release(Spent(key, s.now), 0, s.now).lanes == Alone(key, s.now).lanes;
    assert s.pools[0 := Alone(key, s.now)] == [Alone(key, s.now), Spent(key, s.now)];
    assert s.grants[0 := granted.(released := true)] == [granted.(released := true)];
  }
}
