/** The strict upstream of scripts/mock_nim.py: a sliding 60 s window per key, kept as a deque, and
    a cap on the generations in flight per model. Times are nanoseconds. */
module Enforcer {
  import opened Collections

  const SECOND: int := 1_000_000_000
  const SPAN: int := 60 * SECOND

  /** The requests younger than the span at `now`. */
  function Young(history: seq<int>, now: int): (r: seq<int>)
    ensures |r| <= |history|
  {
    if history == [] then []
    else
      var last := history[|history| - 1];
      Young(history[..|history| - 1], now) + if now - last < SPAN then [last] else []
  }

  /** `while win and now - win[0] >= 60: win.popleft()`. */
  function Popped(win: seq<int>, now: int): (r: seq<int>)
    ensures |r| <= |win|
  {
    if win != [] && now - win[0] >= SPAN then Popped(win[1..], now) else win
  }

  /** `max(1, int(60 - (now - oldest)) + 1)`, in seconds. */
  function RetryAfter(now: int, oldest: int): int {
    var r := (SPAN - (now - oldest)) / SECOND + 1;
    if r < 1 then 1 else r
  }

  datatype Verdict = Admitted | Limited(retryAfter: int)

  datatype KeyState = KeyState(window: seq<int>, admitted: seq<int>, violations: nat)

  const FRESH := KeyState([], [], 0)

  function Judge(rpm: nat, win: seq<int>, now: int): Verdict
    requires rpm >= 1
  {
    var w := Popped(win, now);
    if |w| >= rpm then Limited(RetryAfter(now, w[0])) else Admitted
  }

  /** One request of a key. */
  function Handle(rpm: nat, k: KeyState, now: int): KeyState
    requires rpm >= 1
  {
    var w := Popped(k.window, now);
    if Judge(rpm, k.window, now) == Admitted then KeyState(w + [now], k.admitted + [now], k.violations)
    else KeyState(w, k.admitted, k.violations + 1)
  }

  /** A whole run of requests of one key. */
  function Serve(rpm: nat, arrivals: seq<int>): KeyState
    requires rpm >= 1
  {
    if arrivals == [] then FRESH
    else Handle(rpm, Serve(rpm, arrivals[..|arrivals| - 1]), arrivals[|arrivals| - 1])
  }

  // ---------- the deque is the recent history ----------

  lemma YoungSnoc(s: seq<int>, x: int, now: int)
    ensures Young(s + [x], now) == Young(s, now) + if now - x < SPAN then [x] else []
  {
    assert (s + [x])[..|s|] == s;
  }

  lemma {:induction false} YoungBelow(history: seq<int>, now: int, later: int)
    requires now <= later
    ensures Young(Young(history, now), later) == Young(history, later)
  {
    if history != [] {
      var init, last := history[..|history| - 1], history[|history| - 1];
      assert history == init + [last];
      YoungBelow(init, now, later);
      YoungBelowStep(init, last, now, later);
    }
  }

  lemma YoungBelowStep(init: seq<int>, last: int, now: int, later: int)
    requires now <= later && Young(Young(init, now), later) == Young(init, later)
    ensures Young(Young(init + [last], now), later) == Young(init + [last], later)
  {
    YoungSnoc(init, last, now);
    YoungSnoc(init, last, later);
    if now - last < SPAN {
      YoungSnoc(Young(init, now), last, later);
    } else {
      assert Young(init + [last], now) == Young(init, now);
    }
  }

  lemma {:induction false} YoungFirst(s: seq<int>, now: int)
    requires s != []
    ensures Young(s, now) == (if now - s[0] < SPAN then [s[0]] else []) + Young(s[1..], now)
  {
    var k := |s| - 1;
    if k > 0 {
      YoungFirst(s[..k], now);
      assert s[..k][1..] == s[1..][..k - 1];
    }
  }

  lemma {:induction false} AllYoung(s: seq<int>, now: int)
    requires forall i :: 0 <= i < |s| ==> now - s[i] < SPAN
    ensures Young(s, now) == s
  {
    if s != [] { AllYoung(s[..|s| - 1], now); }
  }

  /** On a deque in order, popping the front leaves exactly the young. */
  lemma {:induction false} PoppedIsYoung(win: seq<int>, now: int)
    requires Sorted(win)
    ensures Popped(win, now) == Young(win, now)
  {
    if win != [] && now - win[0] >= SPAN {
      PoppedIsYoung(win[1..], now);
      YoungFirst(win, now);
    } else if win != [] {
      AllYoung(win, now);
    }
  }

  lemma {:induction false} YoungMembers(s: seq<int>, now: int, t: int)
    ensures t in Young(s, now) <==> t in s && now - t < SPAN
  {
    if s != [] {
      var init, last := s[..|s| - 1], s[|s| - 1];
      YoungMembers(init, now, t);
      assert t in s <==> t in init || t == last;
    }
  }

  lemma {:induction false} YoungSorted(s: seq<int>, now: int)
    requires Sorted(s)
    ensures Sorted(Young(s, now))
  {
    if s != [] {
      var init, last := s[..|s| - 1], s[|s| - 1];
      YoungSorted(init, now);
      var y := Young(init, now);
      forall i | 0 <= i < |y| ensures y[i] <= last {
        YoungMembers(init, now, y[i]);
        assert y[i] in y && y[i] in init;
      }
    }
  }

  /** The clock readings of the requests, in the order the lock is taken. */
  predicate InOrder(k: KeyState, now: int) {
    Sorted(k.admitted) && forall t :: t in k.admitted ==> t <= now
  }

  /** The deque holds the admitted requests that were younger than the span at `seen`, the last
      time it was looked at. */
  ghost predicate Faithful(k: KeyState, seen: int) {
    k.window == Young(k.admitted, seen)
  }

  lemma PoppedWindow(k: KeyState, seen: int, now: int)
    requires seen <= now && InOrder(k, seen) && Faithful(k, seen)
    ensures Popped(k.window, now) == Young(k.admitted, now)
  {
    YoungSorted(k.admitted, seen);
    PoppedIsYoung(k.window, now);
    YoungBelow(k.admitted, seen, now);
  }

  lemma HandleFaithful(rpm: nat, k: KeyState, seen: int, now: int)
    requires rpm >= 1 && seen <= now && InOrder(k, seen) && Faithful(k, seen)
    ensures InOrder(Handle(rpm, k, now), now) && Faithful(Handle(rpm, k, now), now)
    ensures Judge(rpm, k.window, now) == Admitted <==> |Young(k.admitted, now)| < rpm
  {
    PoppedWindow(k, seen, now);
    YoungSnoc(k.admitted, now, now);
    assert forall i :: 0 <= i < |k.admitted| ==> k.admitted[i] in k.admitted;
  }

  // ---------- whole runs ----------

  /** The deque is exactly the admitted requests younger than the span, and every admission found
      room for itself. */
  lemma {:induction false} ServeFaithful(rpm: nat, arrivals: seq<int>, seen: int)
    requires rpm >= 1 && Sorted(arrivals) && forall t :: t in arrivals ==> t <= seen
    ensures var k := Serve(rpm, arrivals);
            var last := if arrivals == [] then seen else arrivals[|arrivals| - 1];
            InOrder(k, last) && Faithful(k, last) && Bounded(rpm, k.admitted) && |k.admitted| + k.violations == |arrivals|
    decreases |arrivals|
  {
    if arrivals != [] {
      var init, now := arrivals[..|arrivals| - 1], arrivals[|arrivals| - 1];
      assert now in arrivals;
      forall t | t in init ensures t <= now {
        var i :| 0 <= i < |init| && init[i] == t;
        assert arrivals[i] == t;
      }
      ServeFaithful(rpm, init, now);
      var before := Serve(rpm, init);
      var last := if init == [] then now else init[|init| - 1];
      assert init != [] ==> last in init;
      HandleFaithful(rpm, before, last, now);
      PoppedWindow(before, last, now);
      if Judge(rpm, before.window, now) == Admitted {
        BoundedSnoc(rpm, before.admitted, now);
      }
    }
  }

  /** Every admission, with those that precede it, keeps within the limit in the span it ends. */
  ghost predicate Bounded(rpm: nat, admitted: seq<int>) {
    forall i :: 0 <= i < |admitted| ==> |Young(admitted[..i + 1], admitted[i])| <= rpm
  }

  lemma BoundedSnoc(rpm: nat, admitted: seq<int>, now: int)
    requires Bounded(rpm, admitted) && |Young(admitted, now)| < rpm
    ensures Bounded(rpm, admitted + [now])
  {
    var all := admitted + [now];
    forall i | 0 <= i < |all| ensures |Young(all[..i + 1], all[i])| <= rpm {
      if i < |admitted| {
        BoundedEarlier(rpm, admitted, now, i);
      } else {
        assert all[..i + 1] == all;
        YoungSnoc(admitted, now, now);
      }
    }
  }

  lemma BoundedEarlier(rpm: nat, admitted: seq<int>, now: int, i: nat)
    requires Bounded(rpm, admitted) && i < |admitted|
    ensures var all := admitted + [now]; |Young(all[..i + 1], all[i])| <= rpm
  {
    var all := admitted + [now];
    assert all[..i + 1] == admitted[..i + 1] && all[i] == admitted[i];
  }

  /** No rolling span holds more admissions than the limit: of the first `n`, all made by `t`, at
      most `rpm` are younger than the span at `t`. */
  lemma RollingBound(rpm: nat, admitted: seq<int>, n: nat, t: int)
    requires Bounded(rpm, admitted) && n <= |admitted| && (n > 0 ==> admitted[n - 1] <= t)
    ensures |Young(admitted[..n], t)| <= rpm
  {
    if n > 0 {
      YoungBelow(admitted[..n], admitted[n - 1], t);
      assert |Young(admitted[..n - 1 + 1], admitted[n - 1])| <= rpm;
    }
  }

  /** Waiting as long as the answer says, with no other traffic, gets the next request past the
      rate window. */
  lemma RetryAfterSuffices(rpm: nat, arrivals: seq<int>, now: int)
    requires rpm >= 1 && Sorted(arrivals) && forall t :: t in arrivals ==> t <= now
    requires Judge(rpm, Serve(rpm, arrivals).window, now).Limited?
    ensures var k := Serve(rpm, arrivals);
            var wait := Judge(rpm, k.window, now).retryAfter;
            wait >= 1 && Judge(rpm, Handle(rpm, k, now).window, now + wait * SECOND) == Admitted
  {
    var k := Serve(rpm, arrivals);
    ServeFaithful(rpm, arrivals, now);
    var last := if arrivals == [] then now else arrivals[|arrivals| - 1];
    assert arrivals != [] ==> last in arrivals;
    PoppedWindow(k, last, now);
    FullWindow(rpm, k, now);
    OldestExpires(rpm, Popped(k.window, now), now);
  }

  lemma FullWindow(rpm: nat, k: KeyState, now: int)
    requires Bounded(rpm, k.admitted) && InOrder(k, now)
    ensures |Young(k.admitted, now)| <= rpm
  {
    if k.admitted != [] {
      assert k.admitted[|k.admitted| - 1] in k.admitted;
      assert k.admitted[..|k.admitted|] == k.admitted;
      RollingBound(rpm, k.admitted, |k.admitted|, now);
    }
  }

  lemma OldestExpires(rpm: nat, w: seq<int>, now: int)
    requires rpm >= 1 && |w| == rpm
    ensures var wait := RetryAfter(now, w[0]);
            wait >= 1 && |Popped(w, now + wait * SECOND)| < rpm
  {
    var left := SPAN - (now - w[0]);
    assert left < (left / SECOND + 1) * SECOND;
  }

  // ---------- judging a well-paced sender ----------

  /** Every request, with those before it, keeps within the limit in the span it ends. */
  ghost predicate Paced(rpm: nat, arrivals: seq<int>) {
    Bounded(rpm, arrivals)
  }

  /** A sender that keeps the limit on arrival is never refused. */
  lemma {:induction false} PacedNeverRefused(rpm: nat, arrivals: seq<int>)
    requires rpm >= 1 && Sorted(arrivals) && Paced(rpm, arrivals)
    ensures Serve(rpm, arrivals).violations == 0 && Serve(rpm, arrivals).admitted == arrivals
    decreases |arrivals|
  {
    if arrivals != [] {
      var init, now := arrivals[..|arrivals| - 1], arrivals[|arrivals| - 1];
      PacedInit(rpm, arrivals);
      PacedNeverRefused(rpm, init);
      AdmittedNext(rpm, init, now);
      assert arrivals == init + [now];
    }
  }

  lemma PacedInit(rpm: nat, arrivals: seq<int>)
    requires arrivals != [] && Paced(rpm, arrivals) && Sorted(arrivals)
    ensures var init, now := arrivals[..|arrivals| - 1], arrivals[|arrivals| - 1];
            Paced(rpm, init) && Sorted(init) && |Young(init, now)| < rpm && forall t :: t in init ==> t <= now
  {
    var init, now := arrivals[..|arrivals| - 1], arrivals[|arrivals| - 1];
    assert arrivals == init + [now];
    PacedPrefix(rpm, init, now);
    PacedLast(rpm, init, now);
  }

  lemma PacedPrefix(rpm: nat, init: seq<int>, now: int)
    requires Paced(rpm, init + [now])
    ensures Paced(rpm, init)
  {
    var arrivals := init + [now];
    forall i | 0 <= i < |init| ensures |Young(init[..i + 1], init[i])| <= rpm {
      assert init[..i + 1] == arrivals[..i + 1] && arrivals[i] == init[i];
    }
  }

  lemma PacedLast(rpm: nat, init: seq<int>, now: int)
    requires Paced(rpm, init + [now])
    ensures |Young(init, now)| < rpm
  {
    var arrivals := init + [now];
    assert arrivals[..|init| + 1] == arrivals && arrivals[|init|] == now;
    YoungSnoc(init, now, now);
  }

  lemma AdmittedNext(rpm: nat, init: seq<int>, now: int)
    requires rpm >= 1 && Sorted(init) && (forall t :: t in init ==> t <= now)
    requires Serve(rpm, init).admitted == init && |Young(init, now)| < rpm
    ensures Judge(rpm, Serve(rpm, init).window, now) == Admitted
  {
    ServeFaithful(rpm, init, now);
    var last := if init == [] then now else init[|init| - 1];
    assert init != [] ==> last in init;
    HandleFaithful(rpm, Serve(rpm, init), last, now);
  }

  lemma ServeSnoc(rpm: nat, arrivals: seq<int>, now: int)
    requires rpm >= 1
    ensures Serve(rpm, arrivals + [now]) == Handle(rpm, Serve(rpm, arrivals), now)
    ensures Serve(rpm, []).window == []
  {
    assert (arrivals + [now])[..|arrivals|] == arrivals;
  }

  method PopOld(deque: seq<int>, now: int) returns (win: seq<int>)
    ensures win == Popped(deque, now)
  {
    win := deque;
    while win != [] && now - win[0] >= SPAN
      invariant Popped(win, now) == Popped(deque, now)
    {
      win := win[1..];
    }
  }

  // ---------- said with the minute itself ----------

  /** The times less than 60 s before `now`. */
  function LastMinute(times: seq<int>, now: int): set<nat> {
    set j: nat | j < |times| && now - times[j] < 60_000_000_000
  }

  lemma {:induction false} YoungCount(times: seq<int>, now: int)
    ensures |Young(times, now)| == |LastMinute(times, now)|
  {
    if times == [] {
      assert LastMinute(times, now) == {};
    } else {
      var init, last := times[..|times| - 1], times[|times| - 1];
      YoungCount(init, now);
      assert LastMinute(times, now) == if now - last < 60_000_000_000 then LastMinute(init, now) + {|init|} else LastMinute(init, now);
      assert |init| !in LastMinute(init, now);
    }
  }

  /** A request is admitted if and only if fewer than `rpm` were admitted in the 60 s before it; it
      is then admitted at its own time, and otherwise counted as a violation. */
  lemma AdmittedIff(rpm: nat, arrivals: seq<int>, now: int)
    requires rpm >= 1 && Sorted(arrivals) && forall t :: t in arrivals ==> t <= now
    ensures var before, after := Serve(rpm, arrivals), Serve(rpm, arrivals + [now]);
            var free := |LastMinute(before.admitted, now)| < rpm;
            (Judge(rpm, before.window, now) == Admitted <==> free) &&
            after.admitted == (if free then before.admitted + [now] else before.admitted) &&
            after.violations == before.violations + if free then 0 else 1
  {
    ServeSnoc(rpm, arrivals, now);
    YoungCount(Serve(rpm, arrivals).admitted, now);
    JudgedByYoung(rpm, arrivals, now);
  }

  lemma JudgedByYoung(rpm: nat, arrivals: seq<int>, now: int)
    requires rpm >= 1 && Sorted(arrivals) && forall t :: t in arrivals ==> t <= now
    ensures var k := Serve(rpm, arrivals); Judge(rpm, k.window, now) == Admitted <==> |Young(k.admitted, now)| < rpm
  {
    var last := if arrivals == [] then now else arrivals[|arrivals| - 1];
    assert arrivals == [] || last in arrivals;
    forall t | t in arrivals ensures t <= last {
      var i :| 0 <= i < |arrivals| && arrivals[i] == t;
    }
    ServeFaithful(rpm, arrivals, last);
    HandleFaithful(rpm, Serve(rpm, arrivals), last, now);
  }

  /** No 60 s ever hold more than `rpm` admissions. */
  lemma MinuteBound(rpm: nat, arrivals: seq<int>, n: nat, t: int)
    requires rpm >= 1 && Sorted(arrivals)
    requires var admitted := Serve(rpm, arrivals).admitted; n <= |admitted| && (n > 0 ==> admitted[n - 1] <= t)
    ensures |LastMinute(Serve(rpm, arrivals).admitted[..n], t)| <= rpm
  {
    var seen := if arrivals == [] then 0 else arrivals[|arrivals| - 1];
    forall x | x in arrivals ensures x <= seen {
      var i :| 0 <= i < |arrivals| && arrivals[i] == x;
    }
    ServeFaithful(rpm, arrivals, seen);
    RollingBound(rpm, Serve(rpm, arrivals).admitted, n, t);
    YoungCount(Serve(rpm, arrivals).admitted[..n], t);
  }

  /** The announced wait is the least whole number of seconds, at least one, after which the oldest
      request is more than 60 s old. */
  lemma RetryAfterLeast(now: int, oldest: int)
    requires now >= oldest
    ensures var r := RetryAfter(now, oldest);
            r >= 1 && now - oldest + r * 1_000_000_000 > 60_000_000_000 &&
            (r == 1 || now - oldest + (r - 1) * 1_000_000_000 <= 60_000_000_000)
  {
    var left := SPAN - (now - oldest);
    assert left == left / SECOND * SECOND + left % SECOND;
  }

  // ---------- the handler as it runs ----------

  /** The shared state of the handlers; each method is one critical section under the lock. */
  class Upstream {
    const rpm: nat
    const workerSlots: nat
    var windows: map<string, seq<int>>
    var workers: map<string, nat>
    var violations: nat
    var workerExhausted: nat
    var maxWorkers: map<string, nat>
    ghost var arrivals: map<string, seq<int>>   // per key, in the order the lock was taken
    ghost var inFlight: multiset<string>        // models of the generations that hold a slot

    /** The requests of a key so far. */
    ghost function Arrived(key: string): seq<int>
      reads `arrivals
    {
      if key in arrivals then arrivals[key] else []
    }

    function Deque(key: string): seq<int>
      reads `windows
    {
      if key in windows then windows[key] else []
    }

    /** Every deque is what the requests of its key make of it. */
    ghost predicate RatesOk()
      reads `windows, `arrivals
    {
      rpm >= 1 && forall key :: Deque(key) == Serve(rpm, Arrived(key)).window
    }

    function Workers(model: string): nat
      reads `workers
    {
      if model in workers then workers[model] else 0
    }

    /** The most generations of the model that were ever in flight. */
    function Peak(model: string): nat
      reads `maxWorkers
    {
      if model in maxWorkers then maxWorkers[model] else 0
    }

    /** The counters are the generations in flight, never more than the cap. */
    ghost predicate SlotsOk()
      reads `workers, `inFlight
    {
      forall model :: Workers(model) == inFlight[model] <= workerSlots
    }

    constructor (rpm: nat, workerSlots: nat)
      requires rpm >= 1 && workerSlots >= 1
      ensures RatesOk() && SlotsOk() && arrivals == map[] && inFlight == multiset{}
      ensures this.rpm == rpm && this.workerSlots == workerSlots
    {
      this.rpm, this.workerSlots := rpm, workerSlots;
      windows, workers, violations, workerExhausted, maxWorkers := map[], map[], 0, 0, map[];
      arrivals, inFlight := map[], multiset{};
    }

    /** The rate window of `do_POST`; `now` was read before the lock was taken. */
    method CheckRate(key: string, now: int) returns (verdict: Verdict)
      requires RatesOk()
      modifies `windows, `arrivals, `violations
      ensures RatesOk()
      ensures Arrived(key) == old(Arrived(key)) + [now]
      ensures forall other :: other != key ==> Arrived(other) == old(Arrived(other))
      ensures verdict == Judge(rpm, old(Deque(key)), now)
      ensures violations == old(violations) + if verdict == Admitted then 0 else 1
    {
      ghost var before := Arrived(key);
      ServeSnoc(rpm, before, now);
      var win := PopOld(Deque(key), now);
      arrivals := arrivals[key := before + [now]];
      if |win| >= rpm {
        violations := violations + 1;
        windows := windows[key := win];
        verdict := Limited(RetryAfter(now, win[0]));
      } else {
        windows := windows[key := win + [now]];
        verdict := Admitted;
      }
      assert Deque(key) == Handle(rpm, Serve(rpm, before), now).window;
      forall other ensures Deque(other) == Serve(rpm, Arrived(other)).window {
        if other != key {
          assert old(Deque(other)) == Serve(rpm, old(Arrived(other))).window;
          assert Deque(other) == old(Deque(other)) && Arrived(other) == old(Arrived(other));
        }
      }
    }

    /** Take a generation slot of the model, if one is free. */
    method TakeWorker(model: string) returns (taken: bool)
      requires SlotsOk()
      modifies `workers, `maxWorkers, `workerExhausted, `inFlight
      ensures SlotsOk()
      ensures taken <==> old(inFlight)[model] < workerSlots
      ensures inFlight == if taken then old(inFlight) + multiset{model} else old(inFlight)
      ensures workerExhausted == old(workerExhausted) + if taken then 0 else 1
      ensures forall m :: Peak(m) == if taken && m == model then Max(old(Peak(m)), inFlight[m]) else old(Peak(m))
    {
      var n := Workers(model);
      if n >= workerSlots {
        workerExhausted := workerExhausted + 1;
        return false;
      }
      workers := workers[model := n + 1];
      var peak := if model in maxWorkers then maxWorkers[model] else 0;
      maxWorkers := maxWorkers[model := if peak > n + 1 then peak else n + 1];
      inFlight := inFlight + multiset{model};
      return true;
    }

    /** The `finally` of a generation. */
    method FinishWorker(model: string)
      requires SlotsOk() && model in inFlight
      modifies `workers, `inFlight
      ensures SlotsOk() && inFlight == old(inFlight) - multiset{model}
    {
      workers := workers[model := Workers(model) - 1];
      inFlight := inFlight - multiset{model};
    }
  }
}
