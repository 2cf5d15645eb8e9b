/** The fixed-window limiter of src/auth.rs: failed logins and pre-auth attempts share one count. */
module Throttle {
  import opened Collections

  const THROTTLE_WINDOW_SECS: nat := 60
  const THROTTLE_MAX_FAILURES: nat := 10

  datatype Limiter = Limiter(windowStart: nat, failures: nat)

  /** `now().saturating_sub(window_start)`. */
  function Elapsed(l: Limiter, now: nat): nat {
    if now >= l.windowStart then now - l.windowStart else 0
  }

  /** `reset_throttle_window`. */
  function Reset(l: Limiter, now: nat): Limiter {
    if Elapsed(l, now) >= THROTTLE_WINDOW_SECS then Limiter(now, 0) else l
  }

  predicate Admits(l: Limiter, now: nat) {
    Reset(l, now).failures <= THROTTLE_MAX_FAILURES
  }

  class Admin {
    var windowStart: nat
    var failures: nat

    function State(): Limiter
      reads this
    {
      Limiter(windowStart, failures)
    }

    constructor (now: nat)
      ensures State() == Limiter(now, 0)
    {
      windowStart, failures := now, 0;
    }

    method ResetThrottleWindow(now: nat)
      modifies this
      ensures State() == Reset(old(State()), now)
    {
      if (if now >= windowStart then now - windowStart else 0) >= THROTTLE_WINDOW_SECS {
        windowStart := now;
        failures := 0;
      }
    }

    /** Record a failed attempt; true when the caller is now throttled. */
    method NoteFailure(now: nat) returns (throttled: bool)
      modifies this
      ensures State() == Step(old(State()), Note(now)) && (throttled <==> !Admits(State(), now))
    {
      ResetThrottleWindow(now);
      failures := failures + 1;
      throttled := failures > THROTTLE_MAX_FAILURES;
    }

    /** True exactly when a pre-auth attempt made now would be refused. */
    method IsThrottled(now: nat) returns (throttled: bool)
      ensures throttled <==> !Admits(State(), now)
    {
      throttled := (if now >= windowStart then now - windowStart else 0) < THROTTLE_WINDOW_SECS
                   && failures > THROTTLE_MAX_FAILURES;
    }

    method AdmitPreAuthAttempt(now: nat) returns (admitted: bool)
      modifies this
      ensures State() == Step(old(State()), Attempt(now)) && (admitted <==> Admits(old(State()), now))
    {
      ResetThrottleWindow(now);
      if failures > THROTTLE_MAX_FAILURES {
        return false;
      }
      failures := failures + 1;
      return true;
    }
  }

  // ---------- runs ----------

  datatype Call = Note(now: nat) | Query(now: nat) | Attempt(now: nat)

  function Step(l: Limiter, c: Call): Limiter {
    match c
    case Note(now) => var r := Reset(l, now); r.(failures := r.failures + 1)
    case Query(_) => l
    case Attempt(now) => var r := Reset(l, now); if Admits(l, now) then r.(failures := r.failures + 1) else r
  }

  /** The limiter after the first calls of a run. */
  function After(l: Limiter, calls: seq<Call>): Limiter {
    if calls == [] then l else Step(After(l, calls[..|calls| - 1]), calls[|calls| - 1])
  }

  predicate IsAdmission(l: Limiter, calls: seq<Call>, i: nat)
    requires i < |calls|
  {
    calls[i].Attempt? && Admits(After(l, calls[..i]), calls[i].now)
  }

  /** The window in which the call at `i` is counted. */
  function WindowOf(l: Limiter, calls: seq<Call>, i: nat): nat
    requires i < |calls|
  {
    After(l, calls[..i + 1]).windowStart
  }

  predicate InOrder(l: Limiter, calls: seq<Call>) {
    (forall i :: 0 <= i < |calls| ==> l.windowStart <= calls[i].now) &&
    forall i, j :: 0 <= i < j < |calls| ==> calls[i].now <= calls[j].now
  }

  /** The admissions counted in the window that starts at `start`. */
  function AdmittedIn(l: Limiter, calls: seq<Call>, start: nat): set<nat> {
    set i: nat | i < |calls| && IsAdmission(l, calls, i) && WindowOf(l, calls, i) == start
  }

  /** The admissions made between two times, both included. */
  function AdmittedBetween(l: Limiter, calls: seq<Call>, first: nat, last: nat): set<nat> {
    set i: nat | i < |calls| && IsAdmission(l, calls, i) && first <= calls[i].now <= last
  }

  lemma AfterPrefix(l: Limiter, calls: seq<Call>, c: Call, i: nat)
    requires i <= |calls|
    ensures After(l, (calls + [c])[..i]) == After(l, calls[..i])
  {
    assert (calls + [c])[..i] == calls[..i];
  }

  lemma AfterSnoc(l: Limiter, calls: seq<Call>, c: Call)
    ensures After(l, calls + [c]) == Step(After(l, calls), c)
  {
    assert (calls + [c])[..|calls|] == calls;
  }

  lemma AdmittedSnoc(l: Limiter, calls: seq<Call>, c: Call, start: nat)
    ensures var here := c.Attempt? && Admits(After(l, calls), c.now) && Step(After(l, calls), c).windowStart == start;
            AdmittedIn(l, calls + [c], start) ==
            if here then AdmittedIn(l, calls, start) + {|calls|} else AdmittedIn(l, calls, start)
  {
    var all := calls + [c];
    AfterSnoc(l, calls, c);
    assert all[..|calls|] == calls && all[..|calls| + 1] == all;
    forall i: nat | i < |calls|
      ensures IsAdmission(l, all, i) == IsAdmission(l, calls, i) && WindowOf(l, all, i) == WindowOf(l, calls, i) {
      AfterPrefix(l, calls, c, i);
      AfterPrefix(l, calls, c, i + 1);
    }
  }

  /** A call is counted here when it is admitted in the window that starts at `start`. */
  predicate CountedHere(l: Limiter, c: Call, start: nat) {
    c.Attempt? && Admits(l, c.now) && Step(l, c).windowStart == start
  }

  predicate CountOk(l: Limiter, start: nat, n: nat) {
    n <= (if start == l.windowStart then l.failures else THROTTLE_MAX_FAILURES + 1)
    && n <= THROTTLE_MAX_FAILURES + 1 && (start > l.windowStart ==> n == 0)
  }

  lemma CountStep(l: Limiter, c: Call, start: nat, n: nat)
    requires CountOk(l, start, n) && l.windowStart <= c.now
    ensures CountOk(Step(l, c), start, if CountedHere(l, c, start) then n + 1 else n)
    ensures l.windowStart <= Step(l, c).windowStart <= c.now
  {
  }

  /** Windows start in order, the current one is not in the future, and the count of the current
      window covers its admissions. */
  lemma {:induction false} Counted(l: Limiter, calls: seq<Call>, start: nat)
    requires InOrder(l, calls) && l.failures == 0
    ensures CountOk(After(l, calls), start, |AdmittedIn(l, calls, start)|)
    ensures l.windowStart <= After(l, calls).windowStart
    ensures calls != [] ==> After(l, calls).windowStart <= calls[|calls| - 1].now
    decreases |calls|
  {
    if calls == [] {
      assert AdmittedIn(l, calls, start) == {};
    } else {
      var init, c := calls[..|calls| - 1], calls[|calls| - 1];
      assert calls == init + [c];
      Counted(l, init, start);
      CountedAfter(l, init, c, start);
    }
  }

  lemma CountedAfter(l: Limiter, init: seq<Call>, c: Call, start: nat)
    requires CountOk(After(l, init), start, |AdmittedIn(l, init, start)|) && After(l, init).windowStart <= c.now
    ensures CountOk(After(l, init + [c]), start, |AdmittedIn(l, init + [c], start)|)
    ensures After(l, init).windowStart <= After(l, init + [c]).windowStart <= c.now
  {
    CountStep(After(l, init), c, start, |AdmittedIn(l, init, start)|);
    AfterSnoc(l, init, c);
    AdmittedSnoc(l, init, c, start);
    assert |init| !in AdmittedIn(l, init, start);
  }

  /** At most eleven pre-auth attempts are admitted in a window, over every interleaving of the
      calls. */
  lemma ElevenPerWindow(l: Limiter, calls: seq<Call>, start: nat)
    requires InOrder(l, calls) && l.failures == 0
    ensures |AdmittedIn(l, calls, start)| <= 11
  {
    Counted(l, calls, start);
  }

  /** A call is made in the window it is counted in: less than the window's length after its
      start. Of two calls, the later is in the same window or in one that starts a window later. */
  lemma InItsWindow(l: Limiter, calls: seq<Call>, i: nat)
    requires InOrder(l, calls) && l.failures == 0 && i < |calls| && IsAdmission(l, calls, i)
    ensures WindowOf(l, calls, i) <= calls[i].now < WindowOf(l, calls, i) + 60
  {
    assert calls[..i + 1] == calls[..i] + [calls[i]];
    AfterSnoc(l, calls[..i], calls[i]);
    Counted(l, calls[..i], 0);
  }

  lemma {:induction false} WindowsApart(l: Limiter, calls: seq<Call>, i: nat, j: nat)
    requires InOrder(l, calls) && l.failures == 0 && i <= j < |calls|
    ensures WindowOf(l, calls, j) == WindowOf(l, calls, i) ||
            WindowOf(l, calls, j) >= WindowOf(l, calls, i) + 60
    decreases j
  {
    if i < j {
      WindowsApart(l, calls, i, j - 1);
      assert calls[..j + 1] == calls[..j - 1 + 1] + [calls[j]];
      AfterSnoc(l, calls[..j - 1 + 1], calls[j]);
    }
  }

  /** At most twenty-two are admitted in any span shorter than the window's length. */
  lemma TwentyTwoPerSpan(l: Limiter, calls: seq<Call>, first: nat, last: nat)
    requires InOrder(l, calls) && l.failures == 0 && last < first + 60
    ensures |AdmittedBetween(l, calls, first, last)| <= 22
  {
    var all := AdmittedBetween(l, calls, first, last);
    if i :| i in all {
      var same := AdmittedIn(l, calls, WindowOf(l, calls, i));
      ElevenPerWindow(l, calls, WindowOf(l, calls, i));
      var others := OtherWindows(l, calls, first, last, i);
      SubsetCardinality(all - others, same);
      RestIsOneWindow(l, calls, first, last, i);
      assert all == others + (all - others);
    }
  }

  /** The admissions of the span that are not in the window of the one at `i`. */
  function OtherWindows(l: Limiter, calls: seq<Call>, first: nat, last: nat, i: nat): set<nat>
    requires i < |calls|
  {
    set k | k in AdmittedBetween(l, calls, first, last) && WindowOf(l, calls, k) != WindowOf(l, calls, i)
  }

  lemma RestIsOneWindow(l: Limiter, calls: seq<Call>, first: nat, last: nat, i: nat)
    requires InOrder(l, calls) && l.failures == 0 && last < first + 60
    requires i in AdmittedBetween(l, calls, first, last)
    ensures |OtherWindows(l, calls, first, last, i)| <= 11
  {
    var others := OtherWindows(l, calls, first, last, i);
    if j :| j in others {
      var w := WindowOf(l, calls, j);
      forall k | k in others ensures k in AdmittedIn(l, calls, w) {
        ThreeWindows(l, calls, i, j, k, first, last);
      }
      ElevenPerWindow(l, calls, w);
      SubsetCardinality(others, AdmittedIn(l, calls, w));
    }
  }

  /** Admissions so close together fall in no more than two windows. */
  lemma ThreeWindows(l: Limiter, calls: seq<Call>, i: nat, j: nat, k: nat, first: nat, last: nat)
    requires InOrder(l, calls) && l.failures == 0 && last < first + 60
    requires {i, j, k} <= AdmittedBetween(l, calls, first, last)
    requires WindowOf(l, calls, j) != WindowOf(l, calls, i) && WindowOf(l, calls, k) != WindowOf(l, calls, i)
    ensures WindowOf(l, calls, k) == WindowOf(l, calls, j)
  {
    assert i in {i, j, k} && j in {i, j, k} && k in {i, j, k};
    InItsWindow(l, calls, i);
    InItsWindow(l, calls, j);
    InItsWindow(l, calls, k);
    if i <= j { WindowsApart(l, calls, i, j); } else { WindowsApart(l, calls, j, i); }
    if i <= k { WindowsApart(l, calls, i, k); } else { WindowsApart(l, calls, k, i); }
    if j <= k { WindowsApart(l, calls, j, k); } else { WindowsApart(l, calls, k, j); }
  }

  // ---------- exactly who is admitted ----------

  /** A failure that was noted, or an attempt that was admitted. */
  predicate IsCounted(l: Limiter, calls: seq<Call>, i: nat)
    requires i < |calls|
  {
    calls[i].Note? || IsAdmission(l, calls, i)
  }

  /** What was counted in the window that starts at `start`. */
  function CountedIn(l: Limiter, calls: seq<Call>, start: nat): set<nat> {
    set i: nat | i < |calls| && IsCounted(l, calls, i) && WindowOf(l, calls, i) == start
  }

  lemma CountedInSnoc(l: Limiter, calls: seq<Call>, c: Call, start: nat)
    ensures var before := After(l, calls);
            var here := (c.Note? || (c.Attempt? && Admits(before, c.now))) && Step(before, c).windowStart == start;
            CountedIn(l, calls + [c], start) == if here then CountedIn(l, calls, start) + {|calls|} else CountedIn(l, calls, start)
  {
    var all := calls + [c];
    AfterSnoc(l, calls, c);
    assert all[..|calls|] == calls && all[..|calls| + 1] == all;
    forall i: nat | i < |calls|
      ensures IsCounted(l, all, i) == IsCounted(l, calls, i) && WindowOf(l, all, i) == WindowOf(l, calls, i) {
      AfterPrefix(l, calls, c, i);
      AfterPrefix(l, calls, c, i + 1);
    }
  }

  /** The count is what was counted in the current window, and nothing is counted in a later one. */
  ghost predicate CountIs(l: Limiter, calls: seq<Call>) {
    After(l, calls).failures == |CountedIn(l, calls, After(l, calls).windowStart)| &&
    forall start :: start > After(l, calls).windowStart ==> CountedIn(l, calls, start) == {}
  }

  lemma {:induction false} CountExact(l: Limiter, calls: seq<Call>)
    requires l.failures == 0
    ensures CountIs(l, calls)
    decreases |calls|
  {
    if calls != [] {
      var init, c := calls[..|calls| - 1], calls[|calls| - 1];
      assert calls == init + [c];
      CountExact(l, init);
      CountExactStep(l, init, c);
    } else {
      assert forall start :: CountedIn(l, calls, start) == {};
    }
  }

  lemma CountExactStep(l: Limiter, init: seq<Call>, c: Call)
    requires CountIs(l, init)
    ensures CountIs(l, init + [c])
  {
    var now := After(l, init + [c]).windowStart;
    AfterSnoc(l, init, c);
    CountedInSnoc(l, init, c, now);
    assert |init| !in CountedIn(l, init, now);
    forall start | start > now ensures CountedIn(l, init + [c], start) == {} {
      CountedInSnoc(l, init, c, start);
    }
  }

  /** An attempt is admitted if and only if at most ten failures and admitted attempts were counted
      before it in its window, over every interleaving of the calls. */
  lemma AdmittedIff(l: Limiter, calls: seq<Call>, i: nat)
    requires l.failures == 0 && i < |calls| && calls[i].Attempt?
    ensures IsAdmission(l, calls, i) <==> |CountedIn(l, calls[..i], WindowOf(l, calls, i))| <= 10
  {
    CountExact(l, calls[..i]);
    assert calls[..i + 1] == calls[..i] + [calls[i]];
    AfterSnoc(l, calls[..i], calls[i]);
  }

  /** The counted calls before a call are those before it, whatever comes after. */
  lemma CountedBefore(l: Limiter, calls: seq<Call>, i: nat, start: nat)
    requires i <= |calls|
    ensures CountedIn(l, calls[..i], start) == set j: nat | j < i && IsCounted(l, calls, j) && WindowOf(l, calls, j) == start
  {
    forall j: nat | j < i
      ensures IsCounted(l, calls[..i], j) == IsCounted(l, calls, j) && WindowOf(l, calls[..i], j) == WindowOf(l, calls, j) {
      assert calls[..i][..j] == calls[..j] && calls[..i][..j + 1] == calls[..j + 1] && calls[..i][j] == calls[j];
    }
  }

  /** A window ends exactly 60 s after it started: the first failure or attempt from then on starts
      the next one, and nothing else moves it. */
  lemma WindowEnds(l: Limiter, calls: seq<Call>, i: nat)
    requires i < |calls|
    ensures var start := After(l, calls[..i]).windowStart;
            WindowOf(l, calls, i) == if !calls[i].Query? && calls[i].now >= start + 60 then calls[i].now else start
  {
    assert calls[..i + 1] == calls[..i] + [calls[i]];
    AfterSnoc(l, calls[..i], calls[i]);
  }

  /** What a query answers, and a noted failure: refused while more than ten are counted in the
      window and it has not ended. */
  lemma RefusedIff(l: Limiter, calls: seq<Call>, now: nat)
    requires l.failures == 0
    ensures var start := After(l, calls).windowStart;
            !Admits(After(l, calls), now) <==> now < start + 60 && |CountedIn(l, calls, start)| > 10
  {
    CountExact(l, calls);
  }
}
