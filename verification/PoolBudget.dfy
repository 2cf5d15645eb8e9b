/** Exactly when a rebuild costs a key its budget (src/pool.rs). */
module PoolBudget {
  import opened Wrappers
  import opened KeyPool
  import opened PoolHistory

  function OneSlot(key: string): LaneSpec {
    LaneSpec(key, 1, true, 0)
  }

  /** A pool with a single fresh lane of budget one. */
  function Alone(key: string, now: int): PoolState {
    PoolState([Lane(key, 1, 0, [], now)], 1)
  }

  /** The key comes back with a budget of one, and a slot is asked for. */
  function Restored(key: string): seq<Event> {
    [Swap([OneSlot(key)]), ReserveSlot(None, None)]
  }

  lemma AssembledAlone(lanes: seq<Lane>, key: string, now: int)
    requires FindKey(lanes, key) == None
    ensures Assemble([OneSlot(key)], lanes, now) == Alone(key, now)
  {
    var spec := OneSlot(key);
    var rest := [spec][1..];
    assert rest == [] && Filter(rest, true) == [] && Filter(rest, false) == [];
    assert Filter([spec], true) == [spec] && Filter([spec], false) == [];
    assert [spec] + [] == [spec];
  }

  lemma TakesOnlySlot(key: string, now: int)
    ensures var p := Alone(key, now);
            var r := Reserve(p, now, None, None);
            r.reservation == Ready(0, key, now, false) && |r.pool.lanes| == 1 && r.pool.lanes[0].rpm == 1
  {
    var p := Alone(key, now);
    assert Eligible(p, None, 0) && Available(p.lanes[0], now);
    ReserveChoice(p, now, None, None);
    LaneGranted(p, now, None, None);
  }

  lemma TwoIsTooMany(grants: seq<GrantRecord>, g: GrantRecord, key: string)
    requires g.key == key && !g.released && g.rpm == 1 && !Idle(grants, key, g.at - WINDOW)
    ensures !WithinBudget(grants + [g], key)
  {
    var all := grants + [g];
    LiveSnoc(grants, g, key, g.at - WINDOW);
    LiveOfIdle(grants, key, g.at - WINDOW);
    assert all[|grants|] == g && all[..|grants| + 1] == all;
    assert |Live(grants, key, g.at - WINDOW)| >= 1;
    assert !Fits(all[..|grants| + 1], key);
  }

  lemma TwoSteps(s: System, a: Event, b: Event)
    requires Enabled(s, a) && Enabled(Next(s, a), b)
    ensures Runs(s, [a, b]) && Run(s, [a, b]) == Next(Next(s, a), b)
  {
    assert [a, b][1..] == [b] && [b][1..] == [];
    var none: seq<Event> := [];
    assert Runs(Next(Next(s, a), b), none) && Run(Next(Next(s, a), b), none) == Next(Next(s, a), b);
    assert Runs(Next(s, a), [b]) && Run(Next(s, a), [b]) == Next(Next(s, a), b);
  }

  lemma TwoKept(s: System, a: Event, b: Event, key: string)
    requires Enabled(s, a) && Enabled(Next(s, a), b) && Keeps(s, a, key) && Keeps(Next(s, a), b, key)
    ensures Runs(s, [a, b]) && AlwaysKeeps(s, [a, b], key)
  {
    TwoSteps(s, a, b);
    assert [a, b][1..] == [b] && [b][1..] == [];
    var none: seq<Event> := [];
    assert Runs(Next(s, a), [b]) && AlwaysKeeps(Next(Next(s, a), b), none, key);
  }

  /** A pool without the key and with live grants of it overspends as soon as the key is back. */
  lemma BudgetLost(s: System, key: string)
    requires Consistent(s) && !HasKey(s.pools[Current(s)], key) && !Idle(s.grants, key, s.now - WINDOW)
    ensures Runs(s, Restored(key)) && AlwaysKeeps(s, Restored(key), key)
    ensures !WithinBudget(Run(s, Restored(key)).grants, key)
  {
    var swap, ask := Swap([OneSlot(key)]), ReserveSlot(None, None);
    var s1 := Next(s, swap);
    RestoreStep(s, key);
    GrantStep(s1, key);
    TwoSteps(s, swap, ask);
    TwoKept(s, swap, ask, key);
    TwoIsTooMany(s.grants, GrantRecord(Current(s1), 0, key, 1, s.now, false), key);
  }

  lemma RestoreStep(s: System, key: string)
    requires s.pools != [] && !HasKey(s.pools[Current(s)], key)
    ensures var e := Swap([OneSlot(key)]);
            Enabled(s, e) && Keeps(s, e, key) &&
            Next(s, e) == s.(pools := s.pools + [Alone(key, s.now)])
  {
    var e := Swap([OneSlot(key)]);
    assert FindKey(s.pools[Current(s)].lanes, key).None?;
    AssembledAlone(s.pools[Current(s)].lanes, key, s.now);
    NextSwap(s, e);
  }

  lemma GrantStep(s: System, key: string)
    requires s.pools != [] && s.pools[Current(s)] == Alone(key, s.now)
    ensures var e := ReserveSlot(None, None);
            Enabled(s, e) && Keeps(s, e, key) &&
            Next(s, e).pools != [] && Next(s, e).now == s.now &&
            Next(s, e).grants == s.grants + [GrantRecord(Current(s), 0, key, 1, s.now, false)]
  {
    TakesOnlySlot(key, s.now);
  }

  /** Every run from here on that does not drop the key while it has live grants keeps its budget. */
  ghost predicate SafeFrom(s: System, key: string) {
    forall events :: Runs(s, events) && AlwaysKeeps(s, events, key) ==> WithinBudget(Run(s, events).grants, key)
  }

  lemma RebuildSafe(s: System, e: Event, key: string)
    requires Invariant(s, key) && Enabled(s, e) && e.Swap? && Keeps(s, e, key)
    ensures SafeFrom(Next(s, e), key)
  {
    StepKeeps(s, e, key);
    SafeFromInvariant(Next(s, e), key);
  }

  lemma RebuildUnsafe(s: System, e: Event, key: string)
    requires Consistent(s) && Enabled(s, e) && e.Swap? && !Keeps(s, e, key)
    ensures !SafeFrom(Next(s, e), key)
  {
    DropStep(s, e, key);
    UnsafeWithout(Next(s, e), key);
  }

  /** After a rebuild every such run keeps the budget if and only if the rebuild did not drop the
      key while it had live grants. */
  lemma RebuildSafeIff(s: System, e: Event, key: string)
    requires Invariant(s, key) && Enabled(s, e) && e.Swap?
    ensures SafeFrom(Next(s, e), key) <==> Keeps(s, e, key)
  {
    if Keeps(s, e, key) { RebuildSafe(s, e, key); } else { RebuildUnsafe(s, e, key); }
  }

  lemma UnsafeWithout(s: System, key: string)
    requires Consistent(s) && !HasKey(s.pools[Current(s)], key) && !Idle(s.grants, key, s.now - WINDOW)
    ensures !SafeFrom(s, key)
  {
    BudgetLost(s, key);
  }

  lemma SafeFromInvariant(s: System, key: string)
    requires Invariant(s, key)
    ensures SafeFrom(s, key)
  {
    forall events | Runs(s, events) && AlwaysKeeps(s, events, key) ensures WithinBudget(Run(s, events).grants, key) {
      RunKeeps(s, events, key);
    }
  }

  lemma DropStep(s: System, e: Event, key: string)
    requires Consistent(s) && Enabled(s, e) && e.Swap? && !Named(e.specs, key)
    ensures var s' := Next(s, e);
            Consistent(s') && !HasKey(s'.pools[Current(s')], key) && s'.grants == s.grants && s'.now == s.now
  {
    SwapConsistent(s, e);
    NextSwap(s, e);
    AbsentAfter(s.pools[Current(s)], e.specs, s.now, key);
  }

  /** One window per key is not kept: with a budget of one, a key granted, dropped by a rebuild that
      keeps another, restored and granted again has been granted twice at the same instant. */
  lemma DroppedKeyOverspends(a: string, b: string, now: int)
    requires a != b
    ensures var s := Start([OneSlot(a), OneSlot(b)], now);
            var events := [ReserveSlot(Some(0), None), Swap([OneSlot(b)]), Swap([OneSlot(a)]), ReserveSlot(None, None)];
            Runs(s, events) && !WithinBudget(Run(s, events).grants, a)
  {
    var s, ask, drop := Start([OneSlot(a), OneSlot(b)], now), ReserveSlot(Some(0), None), Swap([OneSlot(b)]);
    GrantedOnce(a, b, now);
    DropStep(Next(s, ask), drop, a);
    BudgetLost(Next(Next(s, ask), drop), a);
    PrependTwo(s, ask, drop, Restored(a));
    assert [ask, drop] + Restored(a) == [ask, drop, Swap([OneSlot(a)]), ReserveSlot(None, None)];
  }

  lemma PrependTwo(s: System, a: Event, b: Event, events: seq<Event>)
    requires Enabled(s, a) && Enabled(Next(s, a), b) && Runs(Next(Next(s, a), b), events)
    ensures Runs(s, [a, b] + events) && Run(s, [a, b] + events) == Run(Next(Next(s, a), b), events)
  {
    Prepend(Next(s, a), b, events);
    Prepend(s, a, [b] + events);
    assert [a] + ([b] + events) == [a, b] + events;
  }

  /** Two fresh lanes of budget one. */
  function Both(a: string, b: string, now: int): PoolState {
    PoolState([Lane(a, 1, 0, [], now), Lane(b, 1, 0, [], now)], 2)
  }

  lemma AssembledBoth(a: string, b: string, now: int)
    ensures Assemble([OneSlot(a), OneSlot(b)], [], now) == Both(a, b, now)
  {
    var specs := [OneSlot(a), OneSlot(b)];
    assert specs[1..] == [OneSlot(b)] && specs[1..][1..] == [];
    assert Filter([OneSlot(b)], true) == [OneSlot(b)] && Filter([OneSlot(b)], false) == [];
    assert Filter(specs, true) == specs && Filter(specs, false) == [] && specs + [] == specs;
    assert FindKey([], a).None? && FindKey([], b).None?;
  }

  lemma TakesFirst(a: string, b: string, now: int)
    ensures var r := Reserve(Both(a, b, now), now, Some(0), None);
            r.reservation == Ready(0, a, now, true) && |r.pool.lanes| == 2 && r.pool.lanes[0].rpm == 1
  {
    var p := Both(a, b, now);
    assert Eligible(p, None, 0) && Available(p.lanes[0], now);
  }

  lemma GrantedOnce(a: string, b: string, now: int)
    requires a != b
    ensures var s, ask := Start([OneSlot(a), OneSlot(b)], now), ReserveSlot(Some(0), None);
            Enabled(s, ask) && Consistent(Next(s, ask)) && Next(s, ask).now == now &&
            !Idle(Next(s, ask).grants, a, now - WINDOW)
  {
    var s, ask := Start([OneSlot(a), OneSlot(b)], now), ReserveSlot(Some(0), None);
    AssembledBoth(a, b, now);
    StartConsistent([OneSlot(a), OneSlot(b)], now);
    TakesFirst(a, b, now);
    assert Next(s, ask).grants == [GrantRecord(0, 0, a, 1, now, false)];
    StepConsistent(s, ask);
    assert !Next(s, ask).grants[0].released;
  }

  lemma StartConsistent(specs: seq<LaneSpec>, now: int)
    requires ValidSpecs(specs)
    ensures Consistent(Start(specs, now))
  {
    PoolAfterSwap(PoolState([], 0), specs, now);
  }

  lemma Prepend(s: System, e: Event, events: seq<Event>)
    requires Enabled(s, e) && Runs(Next(s, e), events)
    ensures Runs(s, [e] + events) && Run(s, [e] + events) == Run(Next(s, e), events)
  {
    assert ([e] + events)[1..] == events;
  }
}
