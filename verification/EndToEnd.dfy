/** The pool judged by the strict upstream: a key that every rebuild keeps never trips the 60 s
    window, because its grants keep a 61 s one and each request arrives within a second of its
    grant (README.md, "How it works"). */
module EndToEnd {
  import opened Collections
  import opened KeyPool
  import opened PoolHistory
  import Enforcer
  import Dispatch

  /** A request sent on a grant, and when it arrives upstream. */
  datatype Request = Request(grant: nat, at: int)

  function Times(requests: seq<Request>): (r: seq<int>)
    ensures |r| == |requests| && forall i :: 0 <= i < |r| ==> r[i] == requests[i].at
  {
    seq(|requests|, i requires 0 <= i < |requests| => requests[i].at)
  }

  /** Requests of one key in the order in which they arrive: each on its own unreturned grant, and
      no more than a second after it. */
  ghost predicate Delivered(grants: seq<GrantRecord>, key: string, rpm: nat, requests: seq<Request>) {
    && (forall i :: 0 <= i < |requests| ==>
          var g := requests[i].grant;
          g < |grants| && grants[g].key == key && !grants[g].released && grants[g].rpm <= rpm
          && 0 <= requests[i].at - grants[g].at <= 1_000_000_000)
    && (forall i, j :: 0 <= i < j < |requests| ==> requests[i].grant != requests[j].grant)
    && forall i, j :: 0 <= i < j < |requests| ==> requests[i].at <= requests[j].at
  }

  // ---------- counting by indices ----------

  function Recent(requests: seq<Request>, now: int): set<nat> {
    set i: nat | i < |requests| && now - requests[i].at < Enforcer.SPAN
  }

  lemma {:induction false} YoungSize(requests: seq<Request>, now: int)
    ensures |Enforcer.Young(Times(requests), now)| == |Recent(requests, now)|
  {
    if requests == [] {
      assert Recent(requests, now) == {};
    } else {
      var k := |requests| - 1;
      YoungSize(requests[..k], now);
      assert Times(requests)[..k] == Times(requests[..k]);
      var before := Recent(requests[..k], now);
      assert Recent(requests, now) == if now - requests[k].at < Enforcer.SPAN then before + {k} else before;
      assert k !in before;
    }
  }

  function LiveIndices(grants: seq<GrantRecord>, key: string, since: int): set<nat> {
    set g: nat | g < |grants| && grants[g].key == key && !grants[g].released && grants[g].at > since
  }

  lemma LiveIndicesSnoc(grants: seq<GrantRecord>, g: GrantRecord, key: string, since: int)
    ensures var before := LiveIndices(grants, key, since);
            |grants| !in before &&
            LiveIndices(grants + [g], key, since) ==
            if g.key == key && !g.released && g.at > since then before + {|grants|} else before
  {
  }

  lemma {:induction false} LiveSize(grants: seq<GrantRecord>, key: string, since: int)
    ensures |Live(grants, key, since)| == |LiveIndices(grants, key, since)|
  {
    if grants == [] {
      assert LiveIndices(grants, key, since) == {};
    } else {
      var init, last := grants[..|grants| - 1], grants[|grants| - 1];
      assert grants == init + [last];
      LiveSize(init, key, since);
      LiveSnoc(init, last, key, since);
      LiveIndicesSnoc(init, last, key, since);
    }
  }

  /** The grants the requests at the given positions were sent on. */
  function GrantsOf(requests: seq<Request>, positions: set<nat>): set<nat>
    requires forall i :: i in positions ==> i < |requests|
  {
    set i | i in positions :: requests[i].grant
  }

  lemma {:induction false} GrantsOfSize(requests: seq<Request>, positions: set<nat>)
    requires forall i :: i in positions ==> i < |requests|
    requires forall i, j :: 0 <= i < j < |requests| ==> requests[i].grant != requests[j].grant
    ensures |GrantsOf(requests, positions)| == |positions|
    decreases |positions|
  {
    if positions == {} {
      assert GrantsOf(requests, positions) == {};
    } else {
      var i :| i in positions;
      var rest := positions - {i};
      GrantsOfSize(requests, rest);
      assert GrantsOf(requests, positions) == GrantsOf(requests, rest) + {requests[i].grant};
      assert requests[i].grant !in GrantsOf(requests, rest);
    }
  }

  // ---------- from grants to arrivals ----------

  lemma {:induction false} LatestGrant(requests: seq<Request>, positions: set<nat>) returns (m: nat)
    requires positions != {} && forall i :: i in positions ==> i < |requests|
    ensures m in positions && forall i :: i in positions ==> requests[i].grant <= requests[m].grant
    decreases |positions|
  {
    m :| m in positions;
    if positions != {m} {
      var rest := positions - {m};
      var best := LatestGrant(requests, rest);
      if requests[best].grant > requests[m].grant {
        m := best;
      }
    }
  }

  /** The requests of any 60 s of arrivals were granted within 61 s, ending with the latest of their
      grants, so they are no more than that grant's budget. */
  lemma ArrivalsPaced(s: System, key: string, rpm: nat, requests: seq<Request>, k: nat)
    requires WithinBudget(s.grants, key) && Chronological(s) && Delivered(s.grants, key, rpm, requests)
    requires k < |requests|
    ensures |Enforcer.Young(Times(requests)[..k + 1], requests[k].at)| <= rpm
  {
    var prefix, now := requests[..k + 1], requests[k].at;
    var recent := Recent(prefix, now);
    assert k in recent;
    var m := LatestGrant(prefix, recent);
    RecentWithin(s, key, rpm, requests, k, m);
    assert Times(requests)[..k + 1] == Times(prefix);
    YoungSize(prefix, now);
  }

  lemma RecentWithin(s: System, key: string, rpm: nat, requests: seq<Request>, k: nat, m: nat)
    requires WithinBudget(s.grants, key) && Chronological(s) && Delivered(s.grants, key, rpm, requests)
    requires m <= k < |requests|
    requires forall i :: i in Recent(requests[..k + 1], requests[k].at) ==> requests[i].grant <= requests[m].grant
    ensures |Recent(requests[..k + 1], requests[k].at)| <= rpm
  {
    var prefix := requests[..k + 1];
    var recent := Recent(prefix, requests[k].at);
    var g := requests[m].grant;
    var live := LiveIndices(s.grants[..g + 1], key, s.grants[g].at - WINDOW);
    forall i | i in recent ensures prefix[i].grant in live {
      InWindow(s, key, rpm, requests, k, i, m);
    }
    GrantsOfSize(prefix, recent);
    SubsetCardinality(GrantsOf(prefix, recent), live);
    BudgetAt(s, key, g);
  }

  lemma BudgetAt(s: System, key: string, g: nat)
    requires WithinBudget(s.grants, key) && g < |s.grants| && s.grants[g].key == key
    ensures |LiveIndices(s.grants[..g + 1], key, s.grants[g].at - WINDOW)| <= s.grants[g].rpm
  {
    LiveSize(s.grants[..g + 1], key, s.grants[g].at - WINDOW);
    assert Fits(s.grants[..g + 1], key);
  }

  lemma InWindow(s: System, key: string, rpm: nat, requests: seq<Request>, k: nat, i: nat, m: nat)
    requires Chronological(s) && Delivered(s.grants, key, rpm, requests)
    requires i <= k < |requests| && m <= k && requests[i].grant <= requests[m].grant
    requires requests[k].at - requests[i].at < Enforcer.SPAN
    ensures s.grants[requests[i].grant].at > s.grants[requests[m].grant].at - WINDOW
    ensures requests[i].grant in
              LiveIndices(s.grants[..requests[m].grant + 1], key, s.grants[requests[m].grant].at - WINDOW)
  {
    assert requests[m].at <= requests[k].at;
  }

  /** Whatever the pool goes through, a strict upstream with the key's budget counts no violation,
      in any run of requests that arrive within a second of their grants. */
  lemma ZeroViolations(specs: seq<LaneSpec>, start: int, events: seq<Event>, key: string, rpm: nat, requests: seq<Request>)
    requires ValidSpecs(specs) && Runs(Start(specs, start), events) && AlwaysKeeps(Start(specs, start), events, key)
    requires rpm >= 1 && Delivered(Run(Start(specs, start), events).grants, key, rpm, requests)
    ensures Enforcer.Serve(rpm, Times(requests)).violations == 0
    ensures Enforcer.Serve(rpm, Times(requests)).admitted == Times(requests)
  {
    var s := Run(Start(specs, start), events);
    KeptKeyWithinBudget(specs, start, events, key);
    forall k | 0 <= k < |requests| ensures |Enforcer.Young(Times(requests)[..k + 1], Times(requests)[k])| <= rpm {
      ArrivalsPaced(s, key, rpm, requests, k);
    }
    Enforcer.PacedNeverRefused(rpm, Times(requests));
  }

  // ---------- through the dispatcher ----------

  /** What one dispatcher step asks of the pool. */
  function PoolEvents(s: Dispatch.State, a: Dispatch.Action): seq<Event>
    requires Dispatch.May(s, a)
  {
    match a
    case Elsewhere(e) => [e]
    case TryReserve => [ReserveSlot(s.phase.waiter.prefer, s.phase.waiter.allowed)]
    case Hand => if s.phase.waiter.id in s.hungUp then [ReleaseGrant(s.phase.grant)] else []
    case _ => []
  }

  /** The pool's side of a dispatcher run. */
  function PoolRun(s: Dispatch.State, actions: seq<Dispatch.Action>): seq<Event>
    requires Dispatch.Possible(s, actions)
    decreases |actions|
  {
    if actions == [] then []
    else PoolEvents(s, actions[0]) + PoolRun(Dispatch.Do(s, actions[0]), actions[1..])
  }

  lemma OneEvent(s: Dispatch.State, a: Dispatch.Action)
    requires Dispatch.May(s, a)
    ensures |PoolEvents(s, a)| <= 1
    ensures if PoolEvents(s, a) == [] then Dispatch.Do(s, a).sys == s.sys
            else Enabled(s.sys, PoolEvents(s, a)[0]) && Dispatch.Do(s, a).sys == Next(s.sys, PoolEvents(s, a)[0])
  {
  }

  lemma {:induction false} PoolRunIs(s: Dispatch.State, actions: seq<Dispatch.Action>)
    requires Dispatch.Possible(s, actions)
    ensures Runs(s.sys, PoolRun(s, actions)) && Run(s.sys, PoolRun(s, actions)) == Dispatch.Perform(s, actions).sys
    decreases |actions|
  {
    if actions != [] {
      var a, more := actions[0], PoolRun(Dispatch.Do(s, actions[0]), actions[1..]);
      OneEvent(s, a);
      PoolRunIs(Dispatch.Do(s, a), actions[1..]);
      if PoolEvents(s, a) == [] {
        assert PoolRun(s, actions) == more;
      } else {
        assert PoolRun(s, actions) == [PoolEvents(s, a)[0]] + more;
        assert PoolRun(s, actions)[1..] == more;
      }
    }
  }

  /** Requests of one key, each sent by the client to which its grant was delivered. */
  ghost predicate Sent(s: Dispatch.State, key: string, rpm: nat, requests: seq<Request>) {
    var grants := s.sys.grants;
    && (forall i :: 0 <= i < |requests| ==>
          var g := requests[i].grant;
          g < |grants| && Dispatch.Delivered(s.deliveries, g) && grants[g].key == key && grants[g].rpm <= rpm
          && 0 <= requests[i].at - grants[g].at <= 1_000_000_000)
    && (forall i, j :: 0 <= i < j < |requests| ==> requests[i].grant != requests[j].grant)
    && forall i, j :: 0 <= i < j < |requests| ==> requests[i].at <= requests[j].at
  }

  /** In every run of the dispatcher that keeps the key, no request sent on a delivered slot and
      arriving within a second of its grant is refused by the strict upstream. */
  lemma DispatchedNeverRefused(
      specs: seq<LaneSpec>, start: int, actions: seq<Dispatch.Action>, key: string, rpm: nat, requests: seq<Request>)
    requires ValidSpecs(specs) && Dispatch.Possible(Dispatch.Spawned(specs, start), actions)
    requires Runs(Start(specs, start), PoolRun(Dispatch.Spawned(specs, start), actions))
    requires AlwaysKeeps(Start(specs, start), PoolRun(Dispatch.Spawned(specs, start), actions), key)
    requires rpm >= 1 && Sent(Dispatch.Perform(Dispatch.Spawned(specs, start), actions), key, rpm, requests)
    ensures Enforcer.Serve(rpm, Times(requests)).violations == 0
  {
    var s := Dispatch.Spawned(specs, start);
    PoolRunIs(s, actions);
    Dispatch.DispatcherSafe(specs, start, actions);
    DeliveredUnreleased(Dispatch.Perform(s, actions), key, rpm, requests);
    ZeroViolations(specs, start, PoolRun(s, actions), key, rpm, requests);
  }

  lemma DeliveredUnreleased(s: Dispatch.State, key: string, rpm: nat, requests: seq<Request>)
    requires Dispatch.Accounted(s) && Sent(s, key, rpm, requests)
    ensures Delivered(s.sys.grants, key, rpm, requests)
  {
  }
}
