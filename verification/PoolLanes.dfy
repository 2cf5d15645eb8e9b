/** What a rebuild gives each lane, and who is ever granted (src/pool.rs): over all runs, exactly
    enabled keys, within their groups, when fewer than their budget were sent within 61 seconds. */
module PoolLanes {
  import opened Collections
  import opened Wrappers
  import opened KeyPool
  import opened PoolHistory

  // ---------- when a lane can grant ----------

  /** The timestamps younger than 61 seconds. */
  function Recent(sent: seq<int>, now: int): set<nat> {
    set j: nat | j < |sent| && now - sent[j] < 61_000_000_000
  }

  lemma LoadIsRecent(sent: seq<int>, now: int)
    requires Sorted(sent)
    ensures |DropExpired(sent, now)| == |Recent(sent, now)|
  {
    var d := |DropExpired(sent, now)|;
    forall j: nat | j < |sent| ensures now - sent[j] < 61_000_000_000 <==> |sent| - d <= j {
      DropIs(sent, now, |sent| - 1 - j);
    }
    RangeSize(|sent| - d, |sent|, Recent(sent, now));
  }

  lemma {:induction false} RangeSize(low: nat, high: nat, s: set<nat>)
    requires low <= high && forall j: nat :: j in s <==> low <= j < high
    ensures |s| == high - low
    decreases high
  {
    if low == high {
      assert s == {};
    } else {
      RangeSize(low, high - 1, s - {high - 1});
    }
  }

  /** A lane grants when it is out of cooldown and fewer than its budget are younger than 61 s. */
  lemma AvailableIff(lane: Lane, now: int)
    requires Sorted(lane.sent)
    ensures Available(lane, now) <==> lane.cooldownUntil <= now && |Recent(lane.sent, now)| < lane.rpm
  {
    LoadIsRecent(lane.sent, now);
  }

  /** With its budget spent, a lane out of cooldown is free again exactly 61 s after the oldest
      timestamp that counts. */
  lemma FreeAgain(lane: Lane, later: int)
    requires Sorted(lane.sent) && 0 < lane.rpm <= |lane.sent| && lane.cooldownUntil <= later
    ensures Available(lane, later) <==> later >= lane.sent[|lane.sent| - lane.rpm] + 61_000_000_000
  {
    DropIs(lane.sent, later, lane.rpm - 1);
  }

  /** The lane may be granted to a caller with these groups. */
  predicate Open(p: PoolState, now: int, allowed: Option<seq<nat>>, i: nat) {
    i < p.active && i < |p.lanes| && (allowed.None? || p.lanes[i].endpoint in allowed.value) &&
    p.lanes[i].cooldownUntil <= now && |Recent(p.lanes[i].sent, now)| < p.lanes[i].rpm
  }

  lemma OpenIs(p: PoolState, now: int, allowed: Option<seq<nat>>, i: nat)
    requires WellFormed(p)
    ensures Open(p, now, allowed, i) <==> Eligible(p, allowed, i) && Available(p.lanes[i], now)
  {
    if i < |p.lanes| { AvailableIff(p.lanes[i], now); }
  }

  /** Lane `i` has fewer recent timestamps than lane `j`, or as many and comes first. */
  predicate Ahead(p: PoolState, now: int, i: nat, j: nat)
    requires i < |p.lanes| && j < |p.lanes|
  {
    var a, b := |Recent(p.lanes[i].sent, now)|, |Recent(p.lanes[j].sent, now)|;
    a < b || (a == b && i <= j)
  }

  lemma AheadIs(p: PoolState, now: int, i: nat, j: nat)
    requires WellFormed(p) && i < |p.lanes| && j < |p.lanes|
    ensures Ahead(p, now, i, j) <==> Before(p, now, i, j)
  {
    LoadIsRecent(p.lanes[i].sent, now);
    LoadIsRecent(p.lanes[j].sent, now);
  }

  /** A slot is granted exactly when some lane is open, on an open lane: the preferred one if that
      is open, and otherwise the one with the fewest recent timestamps, the first of these. */
  lemma GrantedLane(p: PoolState, now: int, prefer: Option<nat>, allowed: Option<seq<nat>>)
    requires WellFormed(p)
    ensures var r := Reserve(p, now, prefer, allowed).reservation;
            (r.Ready? <==> exists i: nat :: Open(p, now, allowed, i)) &&
            (r.Ready? ==>
               Open(p, now, allowed, r.lane) && r.key == p.lanes[r.lane].key && r.stamp == now &&
               if prefer.Some? && Open(p, now, allowed, prefer.value) then r.lane == prefer.value
               else forall i: nat :: Open(p, now, allowed, i) ==> Ahead(p, now, r.lane, i))
  {
    var r := Reserve(p, now, prefer, allowed).reservation;
    ReserveChoice(p, now, prefer, allowed);
    forall i: nat ensures Open(p, now, allowed, i) <==> Eligible(p, allowed, i) && Available(p.lanes[i], now) {
      OpenIs(p, now, allowed, i);
    }
    if r.Ready? {
      forall i: nat | Open(p, now, allowed, i) ensures Ahead(p, now, r.lane, i) <==> Before(p, now, r.lane, i) {
        AheadIs(p, now, r.lane, i);
      }
    }
  }

  // ---------- a rebuild ----------

  predicate FromSpec(spec: LaneSpec, lane: Lane, active: bool) {
    lane.key == spec.key && lane.rpm == spec.rpm && lane.endpoint == spec.endpoint && (active <==> spec.enabled)
  }

  /** The configuration as the pool lays it out: the enabled keys, then the others. */
  function Lineup(specs: seq<LaneSpec>): seq<LaneSpec> {
    Filter(specs, true) + Filter(specs, false)
  }

  lemma {:induction false} FilterSizes(specs: seq<LaneSpec>)
    ensures |Filter(specs, true)| + |Filter(specs, false)| == |specs|
  {
    if specs != [] { FilterSizes(specs[1..]); }
  }

  /** Every key of the configuration, once for each time it is there, and nothing else. */
  lemma LineupIs(specs: seq<LaneSpec>)
    ensures |Lineup(specs)| == |specs| && forall s :: s in Lineup(specs) <==> s in specs
  {
    FilterSizes(specs);
  }

  /** The lanes are those of the configuration, and the active ones are the enabled. */
  predicate Built(p: PoolState, lineup: seq<LaneSpec>) {
    && |p.lanes| == |lineup| && p.active <= |p.lanes|
    && forall i :: 0 <= i < |p.lanes| ==> FromSpec(lineup[i], p.lanes[i], i < p.active)
  }

  lemma AssembleBuilt(specs: seq<LaneSpec>, previous: seq<Lane>, now: int)
    ensures Built(Assemble(specs, previous, now), Lineup(specs))
  {
    var on, off, p := Filter(specs, true), Filter(specs, false), Assemble(specs, previous, now);
    forall i | 0 <= i < |on + off| ensures FromSpec((on + off)[i], p.lanes[i], i < p.active) {
      if i < |on| {
        assert on[i] in on;
      } else {
        assert off[i - |on|] in off;
      }
    }
  }

  /** A kept key's lane has the timestamps and the cooldown it had, whatever else changed; a new
      key's lane has none and may grant at once. */
  lemma LaneCarried(specs: seq<LaneSpec>, p: PoolState, now: int, i: nat)
    requires WellFormed(p) && i < |Assemble(specs, p.lanes, now).lanes|
    ensures var lane := Assemble(specs, p.lanes, now).lanes[i];
            (forall j :: 0 <= j < |p.lanes| && p.lanes[j].key == lane.key ==>
               lane.sent == p.lanes[j].sent && lane.cooldownUntil == p.lanes[j].cooldownUntil) &&
            ((forall j :: 0 <= j < |p.lanes| ==> p.lanes[j].key != lane.key) ==> lane.sent == [] && lane.cooldownUntil == now)
  {
    var lane := Assemble(specs, p.lanes, now).lanes[i];
    var prev := FindKey(p.lanes, lane.key);
    if j :| 0 <= j < |p.lanes| && p.lanes[j].key == lane.key {
      assert p.lanes[j] in p.lanes;
      var k :| 0 <= k < |p.lanes| && p.lanes[k] == prev.value;
      assert k == j;
    }
  }

  /** Keys of one kind keep the order of the configuration. */
  lemma LanesInOrder(specs: seq<LaneSpec>, previous: seq<Lane>, now: int, a: nat, b: nat) returns (i: nat, j: nat)
    requires a < b < |specs| && specs[a].enabled == specs[b].enabled
    ensures var lanes := Assemble(specs, previous, now).lanes;
            i < j < |lanes| && lanes[i].key == specs[a].key && lanes[j].key == specs[b].key
  {
    i, j := LineupInOrder(specs, a, b);
  }

  lemma LineupInOrder(specs: seq<LaneSpec>, a: nat, b: nat) returns (i: nat, j: nat)
    requires a < b < |specs| && specs[a].enabled == specs[b].enabled
    ensures i < j < |Lineup(specs)| && Lineup(specs)[i] == specs[a] && Lineup(specs)[j] == specs[b]
  {
    i, j := FilterInOrder(specs, specs[a].enabled, a, b);
    if !specs[a].enabled {
      Behind(Filter(specs, true), Filter(specs, false), i);
      Behind(Filter(specs, true), Filter(specs, false), j);
      i, j := |Filter(specs, true)| + i, |Filter(specs, true)| + j;
    }
  }

  lemma Behind(on: seq<LaneSpec>, off: seq<LaneSpec>, i: nat)
    requires i < |off|
    ensures (on + off)[|on| + i] == off[i]
  {
  }

  lemma {:induction false} FilterInOrder(specs: seq<LaneSpec>, enabled: bool, a: nat, b: nat) returns (i: nat, j: nat)
    requires a < b < |specs| && specs[a].enabled == specs[b].enabled == enabled
    ensures i < j < |Filter(specs, enabled)| && Filter(specs, enabled)[i] == specs[a] && Filter(specs, enabled)[j] == specs[b]
  {
    if a == 0 {
      i, j := FirstInOrder(specs, enabled, b);
    } else {
      var rest := specs[1..];
      var x, y := FilterInOrder(rest, enabled, a - 1, b - 1);
      FilterTail(specs, enabled, x);
      FilterTail(specs, enabled, y);
      i, j := Moved(specs, enabled, x), Moved(specs, enabled, y);
    }
  }

  lemma FirstInOrder(specs: seq<LaneSpec>, enabled: bool, b: nat) returns (i: nat, j: nat)
    requires 0 < b < |specs| && specs[0].enabled == specs[b].enabled == enabled
    ensures i < j < |Filter(specs, enabled)| && Filter(specs, enabled)[i] == specs[0] && Filter(specs, enabled)[j] == specs[b]
  {
    var k := FilterAt(specs[1..], enabled, b - 1);
    FilterTail(specs, enabled, k);
    i, j := 0, k + 1;
  }

  /** Where an element of the filtered rest is in the filtered whole. */
  function Moved(specs: seq<LaneSpec>, enabled: bool, i: nat): nat
    requires specs != []
  {
    if specs[0].enabled == enabled then i + 1 else i
  }

  lemma FilterTail(specs: seq<LaneSpec>, enabled: bool, i: nat)
    requires specs != [] && i < |Filter(specs[1..], enabled)|
    ensures var k := Moved(specs, enabled, i);
            k < |Filter(specs, enabled)| && Filter(specs, enabled)[k] == Filter(specs[1..], enabled)[i]
  {
  }

  lemma {:induction false} FilterAt(specs: seq<LaneSpec>, enabled: bool, a: nat) returns (i: nat)
    requires a < |specs| && specs[a].enabled == enabled
    ensures i < |Filter(specs, enabled)| && Filter(specs, enabled)[i] == specs[a]
  {
    if a == 0 {
      i := 0;
    } else {
      var k := FilterAt(specs[1..], enabled, a - 1);
      i := k + if specs[0].enabled == enabled then 1 else 0;
    }
  }

  // ---------- whole runs ----------

  /** The configurations of the rebuilds, in order. */
  function Rebuilds(events: seq<Event>): seq<seq<LaneSpec>> {
    if events == [] then []
    else (if events[0].Swap? then [events[0].specs] else []) + Rebuilds(events[1..])
  }

  function Lineups(generations: seq<seq<LaneSpec>>): (r: seq<seq<LaneSpec>>)
    ensures |r| == |generations| && forall c :: 0 <= c < |r| ==> r[c] == Lineup(generations[c])
  {
    seq(|generations|, c requires 0 <= c < |generations| => Lineup(generations[c]))
  }

  lemma LineupsCons(first: seq<LaneSpec>, rest: seq<seq<LaneSpec>>)
    ensures Lineups([first] + rest) == [Lineup(first)] + Lineups(rest)
  {
  }

  /** The grant is of a key that its generation's configuration has enabled, at that key's budget. */
  predicate GrantedFrom(g: GrantRecord, lineups: seq<seq<LaneSpec>>) {
    g.generation < |lineups| && g.lane < |lineups[g.generation]| && EnabledSpec(lineups[g.generation][g.lane], g)
  }

  predicate EnabledSpec(spec: LaneSpec, g: GrantRecord) {
    spec.enabled && spec.key == g.key && spec.rpm == g.rpm
  }

  predicate AllBuilt(pools: seq<PoolState>, lineups: seq<seq<LaneSpec>>) {
    |pools| == |lineups| && forall c :: 0 <= c < |pools| ==> Built(pools[c], lineups[c])
  }

  predicate AllGranted(grants: seq<GrantRecord>, lineups: seq<seq<LaneSpec>>) {
    forall g :: 0 <= g < |grants| ==> GrantedFrom(grants[g], lineups)
  }

  predicate Configured(s: System, lineups: seq<seq<LaneSpec>>) {
    AllBuilt(s.pools, lineups) && AllGranted(s.grants, lineups)
  }

  /** Nothing but timestamps and cooldowns differs. */
  predicate SameLanes(p: PoolState, q: PoolState) {
    |q.lanes| == |p.lanes| && q.active == p.active &&
    forall i :: 0 <= i < |p.lanes| ==>
      q.lanes[i].key == p.lanes[i].key && q.lanes[i].rpm == p.lanes[i].rpm && q.lanes[i].endpoint == p.lanes[i].endpoint
  }

  lemma BuiltStays(p: PoolState, q: PoolState, lineup: seq<LaneSpec>)
    requires Built(p, lineup) && SameLanes(p, q)
    ensures Built(q, lineup)
  {
    forall i | 0 <= i < |q.lanes| ensures FromSpec(lineup[i], q.lanes[i], i < q.active) {
      assert FromSpec(lineup[i], p.lanes[i], i < p.active);
    }
  }

  /** One pool replaced by one with the same lanes. */
  lemma PoolReplaced(pools: seq<PoolState>, c: nat, q: PoolState, lineups: seq<seq<LaneSpec>>)
    requires AllBuilt(pools, lineups) && c < |pools| && SameLanes(pools[c], q)
    ensures AllBuilt(pools[c := q], lineups)
  {
    BuiltStays(pools[c], q, lineups[c]);
  }

  lemma ReserveSame(p: PoolState, now: int, prefer: Option<nat>, allowed: Option<seq<nat>>)
    requires WellFormed(p)
    ensures SameLanes(p, Reserve(p, now, prefer, allowed).pool)
  {
    var r := Reserve(p, now, prefer, allowed);
    ReserveLanes(p, now, prefer, allowed);
    forall i | 0 <= i < |p.lanes|
      ensures r.pool.lanes[i].key == p.lanes[i].key && r.pool.lanes[i].rpm == p.lanes[i].rpm
           && r.pool.lanes[i].endpoint == p.lanes[i].endpoint {
      assert LaneAfter(p.lanes[i], r.pool.lanes[i], now, r.reservation.Ready? && r.reservation.lane == i);
    }
  }

  lemma GrantFromLane(p: PoolState, lineups: seq<seq<LaneSpec>>, g: GrantRecord)
    requires g.generation < |lineups| && Built(p, lineups[g.generation])
    requires g.lane < p.active && g.key == p.lanes[g.lane].key && g.rpm == p.lanes[g.lane].rpm
    ensures GrantedFrom(g, lineups)
  {
    assert FromSpec(lineups[g.generation][g.lane], p.lanes[g.lane], g.lane < p.active);
  }

  lemma ReserveConfigured(s: System, e: Event, lineups: seq<seq<LaneSpec>>)
    requires s.pools != [] && WellFormed(s.pools[Current(s)]) && Configured(s, lineups) && Enabled(s, e) && e.ReserveSlot?
    ensures Configured(Next(s, e), lineups)
  {
    var p := s.pools[Current(s)];
    var r := Reserve(p, s.now, e.prefer, e.allowed);
    ReserveSame(p, s.now, e.prefer, e.allowed);
    ReserveLanes(p, s.now, e.prefer, e.allowed);
    PoolReplaced(s.pools, Current(s), r.pool, lineups);
    if r.reservation.Ready? {
      var lane := r.reservation.lane;
      GrantFromLane(p, lineups, GrantRecord(Current(s), lane, r.reservation.key, r.pool.lanes[lane].rpm, r.reservation.stamp, false));
    }
  }

  lemma ReleaseConfigured(s: System, e: Event, lineups: seq<seq<LaneSpec>>)
    requires Configured(s, lineups) && Enabled(s, e) && e.ReleaseGrant?
    ensures Configured(Next(s, e), lineups)
  {
    var grant := s.grants[e.grant];
    PoolReplaced(s.pools, grant.generation, Release(s.pools[grant.generation], grant.lane, grant.at), lineups);
    assert GrantedFrom(grant.(released := true), lineups);
  }

  lemma PenalizeConfigured(s: System, e: Event, lineups: seq<seq<LaneSpec>>)
    requires Configured(s, lineups) && Enabled(s, e) && e.PenalizeLane?
    ensures Configured(Next(s, e), lineups)
  {
    PoolReplaced(s.pools, e.generation, Penalize(s.pools[e.generation], e.lane, s.now + e.backoff), lineups);
  }

  lemma SwapConfigured(s: System, e: Event, lineups: seq<seq<LaneSpec>>)
    requires Configured(s, lineups) && Enabled(s, e) && e.Swap?
    ensures Configured(Next(s, e), lineups + [Lineup(e.specs)])
  {
    NextSwap(s, e);
    AssembleBuilt(e.specs, s.pools[Current(s)].lanes, s.now);
    MoreLineups(s, lineups, Lineup(e.specs), Assemble(e.specs, s.pools[Current(s)].lanes, s.now));
  }

  lemma MoreLineups(s: System, lineups: seq<seq<LaneSpec>>, lineup: seq<LaneSpec>, p: PoolState)
    requires Configured(s, lineups) && Built(p, lineup)
    ensures Configured(s.(pools := s.pools + [p]), lineups + [lineup])
  {
    forall g | 0 <= g < |s.grants| ensures GrantedFrom(s.grants[g], lineups + [lineup]) {
      assert GrantedFrom(s.grants[g], lineups);
    }
  }

  lemma StepConfigured(s: System, e: Event, lineups: seq<seq<LaneSpec>>)
    requires Consistent(s) && Configured(s, lineups) && Enabled(s, e)
    ensures Configured(Next(s, e), if e.Swap? then lineups + [Lineup(e.specs)] else lineups)
  {
    assert InOrder(s.pools[Current(s)], s.now);
    match e
    case ReserveSlot(_, _) => ReserveConfigured(s, e, lineups);
    case ReleaseGrant(_) => ReleaseConfigured(s, e, lineups);
    case PenalizeLane(_, _, _) => PenalizeConfigured(s, e, lineups);
    case Swap(_) => SwapConfigured(s, e, lineups);
    case Tick(_) =>
  }

  lemma {:induction false} RunConfigured(s: System, events: seq<Event>, lineups: seq<seq<LaneSpec>>)
    requires Consistent(s) && Configured(s, lineups) && Runs(s, events)
    ensures Configured(Run(s, events), lineups + Lineups(Rebuilds(events))) && Consistent(Run(s, events))
    decreases |events|
  {
    if events == [] {
      assert lineups + Lineups([]) == lineups;
    } else {
      var e := events[0];
      StepConsistent(s, e);
      StepConfigured(s, e, lineups);
      RunConfigured(Next(s, e), events[1..], if e.Swap? then lineups + [Lineup(e.specs)] else lineups);
      RebuildsStep(events, lineups);
    }
  }

  lemma RebuildsStep(events: seq<Event>, lineups: seq<seq<LaneSpec>>)
    requires events != []
    ensures lineups + Lineups(Rebuilds(events)) ==
            (if events[0].Swap? then lineups + [Lineup(events[0].specs)] else lineups) + Lineups(Rebuilds(events[1..]))
  {
    var rest := Rebuilds(events[1..]);
    if events[0].Swap? {
      LineupsCons(events[0].specs, rest);
      assert lineups + ([Lineup(events[0].specs)] + Lineups(rest)) == lineups + [Lineup(events[0].specs)] + Lineups(rest);
    } else {
      assert Rebuilds(events) == rest;
    }
  }

  lemma StartConfigured(specs: seq<LaneSpec>, now: int, events: seq<Event>)
    requires ValidSpecs(specs) && Runs(Start(specs, now), events)
    ensures Configured(Run(Start(specs, now), events), Lineups([specs] + Rebuilds(events)))
    ensures Consistent(Run(Start(specs, now), events))
  {
    StartBuilt(specs, now);
    RunConfigured(Start(specs, now), events, [Lineup(specs)]);
    LineupsCons(specs, Rebuilds(events));
  }

  lemma StartBuilt(specs: seq<LaneSpec>, now: int)
    requires ValidSpecs(specs)
    ensures Consistent(Start(specs, now)) && Configured(Start(specs, now), [Lineup(specs)])
  {
    AssembleBuilt(specs, [], now);
    PoolAfterSwap(PoolState([], 0), specs, now);
  }

  /** Over every run, whatever is granted was granted by a generation whose configuration has the
      key enabled, at the budget it says. */
  lemma OnlyEnabledGranted(specs: seq<LaneSpec>, now: int, events: seq<Event>, g: nat)
    requires ValidSpecs(specs) && Runs(Start(specs, now), events) && g < |Run(Start(specs, now), events).grants|
    ensures var grant, generations := Run(Start(specs, now), events).grants[g], [specs] + Rebuilds(events);
            grant.generation < |generations| &&
            exists spec :: spec in generations[grant.generation] && spec.enabled && spec.key == grant.key && spec.rpm == grant.rpm
  {
    var s, generations := Run(Start(specs, now), events), [specs] + Rebuilds(events);
    StartConfigured(specs, now, events);
    var grant := s.grants[g];
    assert GrantedFrom(grant, Lineups(generations));
    LineupIs(generations[grant.generation]);
    assert Lineup(generations[grant.generation])[grant.lane] in Lineup(generations[grant.generation]);
  }

  /** The configuration in force at the end of a run. */
  function InForce(specs: seq<LaneSpec>, events: seq<Event>): seq<LaneSpec> {
    ([specs] + Rebuilds(events))[|Rebuilds(events)|]
  }

  /** The lane of a key, which grants to a caller that prefers it whenever it is out of cooldown and
      fewer than its budget were sent within 61 s. */
  ghost predicate Grants(p: PoolState, now: int, allowed: Option<seq<nat>>, spec: LaneSpec, i: nat) {
    i < |p.lanes| && p.lanes[i].key == spec.key && p.lanes[i].rpm == spec.rpm && p.active <= |p.lanes| &&
    (p.lanes[i].cooldownUntil <= now && |Recent(p.lanes[i].sent, now)| < spec.rpm ==>
       var r := Reserve(p, now, Some(i), allowed).reservation;
       r.Ready? && r.lane == i && r.key == spec.key)
  }

  /** And at every moment of every run, each key that the configuration in force has enabled, in a
      group the caller may use, has such a lane. */
  lemma EnabledCanBeGranted(specs: seq<LaneSpec>, now: int, events: seq<Event>, spec: LaneSpec, allowed: Option<seq<nat>>)
    requires ValidSpecs(specs) && Runs(Start(specs, now), events)
    requires spec in InForce(specs, events) && spec.enabled && (allowed.None? || spec.endpoint in allowed.value)
    ensures var s := Run(Start(specs, now), events);
            s.pools != [] && exists i: nat :: Grants(s.pools[Current(s)], s.now, allowed, spec, i)
  {
    var s := Run(Start(specs, now), events);
    StartConfigured(specs, now, events);
    assert InOrder(s.pools[Current(s)], s.now);
    LineupIs(InForce(specs, events));
    LaneGrants(s.pools[Current(s)], s.now, allowed, Lineup(InForce(specs, events)), spec);
  }

  lemma LaneGrants(p: PoolState, now: int, allowed: Option<seq<nat>>, lineup: seq<LaneSpec>, spec: LaneSpec)
    requires WellFormed(p) && Built(p, lineup) && spec in lineup && spec.enabled
    requires allowed.None? || spec.endpoint in allowed.value
    ensures exists i: nat :: Grants(p, now, allowed, spec, i)
  {
    var i :| 0 <= i < |lineup| && lineup[i] == spec;
    assert FromSpec(lineup[i], p.lanes[i], i < p.active);
    GrantedLane(p, now, Some(i), allowed);
    if p.lanes[i].cooldownUntil <= now && |Recent(p.lanes[i].sent, now)| < spec.rpm {
      assert Open(p, now, allowed, i);
    }
    assert Grants(p, now, allowed, spec, i);
  }
}
