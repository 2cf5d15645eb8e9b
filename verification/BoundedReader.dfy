/** The bounded response reader of scripts/capture_nim.py. The response is a byte stream with the
    outcome of every read prescribed by a schedule; the reader's answer is compared with what a
    single look at the whole stream says. */
module BoundedReader {
  import opened Collections
  import opened Wrappers

  type byte = b: int | 0 <= b < 256

  const MAX_RESPONSE_BYTES: nat := 2 * 1024 * 1024
  const MAX_SSE_EVENTS: nat := 2048
  const READ_CHUNK_BYTES: nat := 64 * 1024
  const LF: byte := 10
  const CR: byte := 13

  // ---------- the specification: one look at the stream ----------

  /** An event ends at `p`: a blank line, with or without a carriage return, has just closed. */
  predicate EventEnd(s: seq<byte>, p: nat) {
    0 < p <= |s| && s[p - 1] == LF &&
    (p == 1 || s[p - 2] == LF || (s[p - 2] == CR && (p == 2 || s[p - 3] == LF)))
  }

  /** Events that have ended within the first `n` bytes. */
  function Events(s: seq<byte>, n: nat): nat
    requires n <= |s|
  {
    if n == 0 then 0 else Events(s, n - 1) + if EventEnd(s, n) then 1 else 0
  }

  /** Where the last event within the first `n` bytes ended. */
  function LastEnd(s: seq<byte>, n: nat): (p: nat)
    requires n <= |s|
    ensures p <= n && (p == 0 || EventEnd(s, p))
    ensures forall q :: p < q <= n ==> !EventEnd(s, q)
  {
    if n == 0 then 0 else if EventEnd(s, n) then n else LastEnd(s, n - 1)
  }

  /** The event cap is reached within the first `n` bytes. */
  predicate CapReached(s: seq<byte>, n: nat)
    requires n <= |s|
  {
    Events(s, n) >= MAX_SSE_EVENTS
  }

  /** Where the `MAX_SSE_EVENTS`-th event ends. */
  function CapEnd(s: seq<byte>, n: nat): (p: nat)
    requires n <= |s| && CapReached(s, n)
    ensures p <= n && EventEnd(s, p) && Events(s, p) == MAX_SSE_EVENTS
  {
    if n > 0 && CapReached(s, n - 1) then CapEnd(s, n - 1) else n
  }

  datatype Answer = Answer(body: seq<byte>, truncated: bool)

  /** What is kept when the reader stops after `n` bytes without reaching the event cap. */
  function Stopped(s: seq<byte>, streamed: bool, n: nat, truncated: bool): Answer
    requires n <= |s|
  {
    if streamed && n > LastEnd(s, n) then Answer(s[..LastEnd(s, n)], true) else Answer(s[..n], truncated)
  }

  /** The answer for an undisturbed stream. */
  function Undisturbed(s: seq<byte>, streamed: bool): Answer {
    var n := Min(|s|, MAX_RESPONSE_BYTES);
    if streamed && CapReached(s, n) then Answer(s[..CapEnd(s, n)], true)
    else Stopped(s, streamed, n, |s| >= MAX_RESPONSE_BYTES)
  }

  // ---------- the reader as it runs ----------

  /** One turn of the loop: whether the deadline has passed when it is checked, and what the
      read does. A read of `Bytes(k)` delivers `k` bytes, clamped to what was asked for and to
      what is left, and at least one if any is left. */
  datatype Turn = Turn(expired: bool, read: Outcome)

  datatype Outcome = Bytes(k: nat) | Interrupted | Failed(expired: bool)

  /** No deadline and no error. */
  predicate Quiet(t: Turn) { !t.expired && t.read.Bytes? }

  class Response {
    const stream: seq<byte>
    var position: nat

    constructor (stream: seq<byte>)
      ensures this.stream == stream && position == 0
    {
      this.stream := stream;
      position := 0;
    }

    method Read(asked: nat, k: nat) returns (chunk: seq<byte>)
      requires position <= |stream| && asked > 0
      modifies this
      ensures old(position) <= position <= |stream| && chunk == stream[old(position)..position]
      ensures |chunk| <= asked && (chunk == [] <==> old(position) == |stream|)
    {
      var n := Min(Min(if k == 0 then 1 else k, asked), |stream| - position);
      chunk := stream[position..position + n];
      position := position + n;
    }
  }

  /** What is retained is cut at its last complete event, and called truncated if that cut anything. */
  method TruncateStream(retained: seq<byte>, streamed: bool, completeBoundary: nat, truncated: bool, ghost s: seq<byte>)
    returns (r: Answer)
    requires retained <= s && (streamed ==> completeBoundary == LastEnd(s, |retained|))
    ensures r == Stopped(s, streamed, |retained|, truncated)
  {
    var body, flag := retained, truncated;
    if streamed && |body| > completeBoundary {
      body, flag := body[..completeBoundary], true;
    }
    r := Answer(body, flag);
  }

  /** The bytes of the current line, within the first `n` bytes. */
  function LineStart(s: seq<byte>, n: nat): (i: nat)
    requires n <= |s|
    ensures i <= n && (i == 0 || s[i - 1] == LF)
    ensures forall j :: i <= j < n ==> s[j] != LF
  {
    if n == 0 then 0 else if s[n - 1] == LF then n else LineStart(s, n - 1)
  }

  /** A line that starts at `i` and ends with the newline at `n` is blank when an event ends. */
  lemma BlankLineIsEvent(s: seq<byte>, i: nat, n: nat)
    requires i <= n < |s| && s[n] == LF
    requires (i == 0 || s[i - 1] == LF) && forall j :: i <= j < n ==> s[j] != LF
    ensures s[i..n + 1] == [LF] || s[i..n + 1] == [CR, LF] <==> EventEnd(s, n + 1)
  {
    var line := s[i..n + 1];
    if i == n {
      assert line == [LF];
    } else if i == n - 1 {
      assert line == [s[n - 1], LF];
    } else {
      assert |line| > 2;
      assert s[n - 1] != LF && s[n - 2] != LF;
    }
  }

  /** What the loop's variables hold after `n` bytes. */
  ghost predicate Scanned(s: seq<byte>, streamed: bool, n: nat, line: seq<byte>, events: nat, boundary: nat) {
    n <= |s| && boundary <= n && n <= MAX_RESPONSE_BYTES &&
    (streamed ==> line == s[LineStart(s, n)..n] && events == Events(s, n) && boundary == LastEnd(s, n)
                  && events < MAX_SSE_EVENTS)
  }

  /** The read failed and the deadline had not passed, before or after. */
  predicate Broken(t: Turn) { !t.expired && t.read == Failed(false) }

  /** The answer of a reader that was stopped early, after `n` bytes. */
  ghost predicate CutShort(s: seq<byte>, streamed: bool, a: Answer) {
    exists n: nat :: n <= Min(|s|, MAX_RESPONSE_BYTES) && (streamed ==> !CapReached(s, n)) &&
                     a == Stopped(s, streamed, n, true)
  }

  /** What comes of a reading of `turns` turns that took the stream to `position`: undisturbed, the
      answer for the whole stream; otherwise what was read until the first disturbance, or an error
      if that was a broken connection. */
  ghost predicate Concluded(s: seq<byte>, streamed: bool, schedule: nat -> Turn, turns: nat, position: nat, r: Result<Answer, string>) {
    && (forall t :: 0 <= t < turns - 1 ==> Quiet(schedule(t)))
    && if turns == 0 || Quiet(schedule(turns - 1)) then r == Ok(Undisturbed(s, streamed))
       else if Broken(schedule(turns - 1)) then r == Err("capture-transport")
       else StoppedAt(s, streamed, position, r)
  }

  ghost predicate StoppedAt(s: seq<byte>, streamed: bool, position: nat, r: Result<Answer, string>) {
    position <= Min(|s|, MAX_RESPONSE_BYTES) && (streamed ==> !CapReached(s, position)) &&
    r == Ok(Stopped(s, streamed, position, true))
  }

  lemma EndsQuietly(s: seq<byte>, streamed: bool, schedule: nat -> Turn, turns: nat, position: nat)
    requires forall t :: 0 <= t < turns ==> Quiet(schedule(t))
    ensures Concluded(s, streamed, schedule, turns, position, Ok(Undisturbed(s, streamed)))
  {
  }

  lemma EndsEarly(s: seq<byte>, streamed: bool, schedule: nat -> Turn, turn: nat, position: nat, r: Result<Answer, string>)
    requires forall t :: 0 <= t < turn ==> Quiet(schedule(t))
    requires !Quiet(schedule(turn))
    requires if Broken(schedule(turn)) then r == Err("capture-transport") else StoppedAt(s, streamed, position, r)
    ensures Concluded(s, streamed, schedule, turn + 1, position, r)
  {
  }

  /** Every answer is the undisturbed one or one that was cut short. */
  lemma AnswerIs(s: seq<byte>, streamed: bool, schedule: nat -> Turn, turns: nat, position: nat, r: Result<Answer, string>)
    requires Concluded(s, streamed, schedule, turns, position, r) && r.Ok?
    ensures r.value == Undisturbed(s, streamed) || CutShort(s, streamed, r.value)
  {
  }

  /** The three ways in which the loop stops without the event cap. */
  lemma Stops(s: seq<byte>, streamed: bool, n: nat, line: seq<byte>, events: nat, boundary: nat)
    requires Scanned(s, streamed, n, line, events, boundary)
    ensures StoppedAt(s, streamed, n, Ok(Stopped(s, streamed, n, true)))
    ensures n == MAX_RESPONSE_BYTES ==> Stopped(s, streamed, n, true) == Undisturbed(s, streamed)
    ensures n == |s| < MAX_RESPONSE_BYTES ==> Stopped(s, streamed, n, false) == Undisturbed(s, streamed)
  {
  }

  /** What the loop has found so far, after `turn` quiet turns. */
  ghost predicate Going(s: seq<byte>, streamed: bool, schedule: nat -> Turn, turn: nat,
                        retained: seq<byte>, line: seq<byte>, events: nat, boundary: nat) {
    && retained <= s && Scanned(s, streamed, |retained|, line, events, boundary)
    && forall t :: 0 <= t < turn ==> Quiet(schedule(t))
  }

  /** There is no room for another byte. */
  method StopFull(ghost s: seq<byte>, streamed: bool, ghost schedule: nat -> Turn, ghost turn: nat, ghost position: nat,
                  retained: seq<byte>, line: seq<byte>, events: nat, boundary: nat)
    returns (r: Result<Answer, string>)
    requires Going(s, streamed, schedule, turn, retained, line, events, boundary) && |retained| == MAX_RESPONSE_BYTES
    ensures Concluded(s, streamed, schedule, turn, position, r)
  {
    var answer := TruncateStream(retained, streamed, boundary, true, s);
    Stops(s, streamed, |retained|, line, events, boundary);
    EndsQuietly(s, streamed, schedule, turn, position);
    r := Ok(answer);
  }

  /** The stream is over. */
  method StopAtEnd(ghost s: seq<byte>, streamed: bool, ghost schedule: nat -> Turn, ghost turn: nat, ghost position: nat,
                   retained: seq<byte>, line: seq<byte>, events: nat, boundary: nat)
    returns (r: Result<Answer, string>)
    requires Going(s, streamed, schedule, turn, retained, line, events, boundary) && |retained| == |s| < MAX_RESPONSE_BYTES
    ensures Concluded(s, streamed, schedule, turn, position, r)
  {
    var answer := TruncateStream(retained, streamed, boundary, false, s);
    Stops(s, streamed, |retained|, line, events, boundary);
    EndsQuietly(s, streamed, schedule, turn, position);
    r := Ok(answer);
  }

  /** The deadline has passed, or the read was interrupted or failed. */
  method StopEarly(ghost s: seq<byte>, streamed: bool, ghost schedule: nat -> Turn, ghost turn: nat, now: Turn,
                   retained: seq<byte>, line: seq<byte>, events: nat, boundary: nat)
    returns (r: Result<Answer, string>)
    requires Going(s, streamed, schedule, turn, retained, line, events, boundary)
    requires now == schedule(turn) && !Quiet(now)
    ensures Concluded(s, streamed, schedule, turn + 1, |retained|, r)
  {
    if !now.expired && now.read.Failed? && !now.read.expired {
      r := Err("capture-transport");
    } else {
      var answer := TruncateStream(retained, streamed, boundary, true, s);
      Stops(s, streamed, |retained|, line, events, boundary);
      r := Ok(answer);
    }
    EndsEarly(s, streamed, schedule, turn, |retained|, r);
  }

  method ReadBoundedResponse(response: Response, streamed: bool, schedule: nat -> Turn)
    returns (r: Result<Answer, string>, ghost turns: nat)
    requires response.position == 0
    modifies response
    ensures Concluded(response.stream, streamed, schedule, turns, response.position, r)
  {
    var retained, line: seq<byte> := [], [];
    var events: nat, boundary: nat, turn: nat := 0, 0, 0;
    ghost var s := response.stream;
    while true
      invariant response.position == |retained| && Going(s, streamed, schedule, turn, retained, line, events, boundary)
      decreases |s| - response.position
    {
      var room := MAX_RESPONSE_BYTES - |retained|;
      if room == 0 {
        r := StopFull(s, streamed, schedule, turn, response.position, retained, line, events, boundary);
        return r, turn;
      }
      var now := schedule(turn);
      if now.expired || !now.read.Bytes? {
        r := StopEarly(s, streamed, schedule, turn, now, retained, line, events, boundary);
        return r, turn + 1;
      }
      turn := turn + 1;
      var chunk := response.Read(Min(READ_CHUNK_BYTES, room), now.read.k);
      if chunk == [] {
        r := StopAtEnd(s, streamed, schedule, turn, response.position, retained, line, events, boundary);
        return r, turn;
      }
      var full;
      retained, line, events, boundary, full := ScanChunk(s, streamed, retained, line, events, boundary, chunk);
      if full {
        CapIsHere(s, |retained|);
        EndsQuietly(s, streamed, schedule, turn, response.position);
        return Ok(Answer(retained, true)), turn;
      }
    }
  }

  /** The event that makes the count reach the cap ends at `p`. */
  predicate AtCap(s: seq<byte>, p: nat) {
    0 < p <= |s| && Events(s, p) == MAX_SSE_EVENTS && Events(s, p - 1) < MAX_SSE_EVENTS
  }

  /** What one more byte changes. */
  lemma ByteStep(s: seq<byte>, n: nat)
    requires n < |s|
    ensures var line := s[LineStart(s, n)..n] + [s[n]];
            var ended := s[n] == LF && (line == [LF] || line == [CR, LF]);
            (ended <==> EventEnd(s, n + 1)) &&
            Events(s, n + 1) == Events(s, n) + (if ended then 1 else 0) &&
            LastEnd(s, n + 1) == (if ended then n + 1 else LastEnd(s, n)) &&
            s[LineStart(s, n + 1)..n + 1] == if s[n] == LF then [] else line
  {
    var i := LineStart(s, n);
    assert s[i..n] + [s[n]] == s[i..n + 1];
    if s[n] == LF {
      BlankLineIsEvent(s, i, n);
    }
  }

  /** The loop's variables after one more byte, unless the event cap is reached with it. */
  lemma ScannedStep(s: seq<byte>, n: nat, line: seq<byte>, events: nat, boundary: nat)
    requires Scanned(s, true, n, line, events, boundary) && n < Min(|s|, MAX_RESPONSE_BYTES)
    ensures var longer := line + [s[n]];
            if s[n] != LF then Scanned(s, true, n + 1, longer, events, boundary)
            else if longer != [LF] && longer != [CR, LF] then Scanned(s, true, n + 1, [], events, boundary)
            else if events + 1 == MAX_SSE_EVENTS then AtCap(s, n + 1)
            else Scanned(s, true, n + 1, [], events + 1, n + 1)
  {
    ByteStep(s, n);
  }

  /** The body of the inner loop, over one chunk; `full` when the event cap is reached. */
  method ScanChunk(ghost s: seq<byte>, streamed: bool, before: seq<byte>, lineBefore: seq<byte>,
                   eventsBefore: nat, boundaryBefore: nat, chunk: seq<byte>)
    returns (retained: seq<byte>, line: seq<byte>, events: nat, boundary: nat, full: bool)
    requires |before| + |chunk| <= Min(|s|, MAX_RESPONSE_BYTES)
    requires before == s[..|before|] && forall j :: 0 <= j < |chunk| ==> chunk[j] == s[|before| + j]
    requires Scanned(s, streamed, |before|, lineBefore, eventsBefore, boundaryBefore)
    ensures |retained| <= |before| + |chunk| && retained == s[..|retained|]
    ensures if full then streamed && AtCap(s, |retained|) else |retained| == |before| + |chunk|
    ensures !full ==> Scanned(s, streamed, |retained|, line, events, boundary)
  {
    retained, line, events, boundary, full := before, lineBefore, eventsBefore, boundaryBefore, false;
    for i := 0 to |chunk|
      invariant |retained| == |before| + i && retained == s[..|retained|] && !full
      invariant Scanned(s, streamed, |retained|, line, events, boundary)
    {
      retained := retained + [chunk[i]];
      if streamed {
        line, events, boundary, full := ScanByte(s, line, events, boundary, |retained|, chunk[i]);
        if full {
          return;
        }
      }
    }
  }

  /** One byte of a streamed response, the `length`-th that is retained. */
  method ScanByte(ghost s: seq<byte>, lineBefore: seq<byte>, eventsBefore: nat, boundaryBefore: nat,
                  length: nat, value: byte)
    returns (line: seq<byte>, events: nat, boundary: nat, full: bool)
    requires 0 < length <= Min(|s|, MAX_RESPONSE_BYTES) && value == s[length - 1]
    requires Scanned(s, true, length - 1, lineBefore, eventsBefore, boundaryBefore)
    ensures if full then AtCap(s, length)
            else Scanned(s, true, length, line, events, boundary)
  {
    ScannedStep(s, length - 1, lineBefore, eventsBefore, boundaryBefore);
    line, events, boundary, full := lineBefore + [value], eventsBefore, boundaryBefore, false;
    if value != LF {
      return;
    }
    if line == [LF] || line == [CR, LF] {
      events := events + 1;
      boundary := length;
      if events == MAX_SSE_EVENTS {
        full := true;
        return;
      }
    }
    line := [];
  }

  /** The event that makes the count reach the cap is the one at which the answer is cut. */
  lemma {:induction false} CapIsHere(s: seq<byte>, p: nat)
    requires AtCap(s, p) && p <= MAX_RESPONSE_BYTES
    ensures Undisturbed(s, true) == Answer(s[..p], true)
  {
    CapEndIs(s, p, Min(|s|, MAX_RESPONSE_BYTES));
  }

  lemma {:induction false} CapEndIs(s: seq<byte>, p: nat, n: nat)
    requires AtCap(s, p) && p <= n <= |s|
    ensures CapReached(s, n) && CapEnd(s, n) == p
    decreases n
  {
    if p < n {
      CapEndIs(s, p, n - 1);
    }
  }

  // ---------- what every answer satisfies ----------

  lemma {:induction false} EventsGrow(s: seq<byte>, m: nat, n: nat)
    requires m <= n <= |s|
    ensures Events(s, m) <= Events(s, n) && LastEnd(s, m) <= LastEnd(s, n)
    decreases n
  {
    if m < n { EventsGrow(s, m, n - 1); }
  }

  /** Stopping early keeps a prefix of what an undisturbed reader keeps. */
  lemma EarlyIsPrefix(s: seq<byte>, streamed: bool, a: Answer)
    requires CutShort(s, streamed, a)
    ensures a.body <= Undisturbed(s, streamed).body && (a.truncated || a.body == s)
  {
    var n: nat :| n <= Min(|s|, MAX_RESPONSE_BYTES) && (streamed ==> !CapReached(s, n)) &&
                  a == Stopped(s, streamed, n, true);
    var m := Min(|s|, MAX_RESPONSE_BYTES);
    EventsGrow(s, n, m);
    if streamed && CapReached(s, m) {
      var p := CapEnd(s, m);
      if p < n { EventsGrow(s, p, n); }
      assert LastEnd(s, n) <= p;
    }
  }

  /** Whatever ends the reading, the answer is a prefix of the stream within both caps and, when
      streamed, ends where an event ends. */
  lemma AnswerWithinCaps(s: seq<byte>, streamed: bool, a: Answer)
    requires a == Undisturbed(s, streamed) || CutShort(s, streamed, a)
    ensures a.body <= s && |a.body| <= MAX_RESPONSE_BYTES
    ensures streamed ==> (a.body == [] || EventEnd(s, |a.body|)) && Events(s, |a.body|) <= MAX_SSE_EVENTS
    ensures !a.truncated ==> a.body == s
  {
    if a != Undisturbed(s, streamed) {
      var n: nat :| n <= Min(|s|, MAX_RESPONSE_BYTES) && (streamed ==> !CapReached(s, n)) &&
                    a == Stopped(s, streamed, n, true);
      EventsGrow(s, LastEnd(s, n), n);
    } else {
      var n := Min(|s|, MAX_RESPONSE_BYTES);
      EventsGrow(s, LastEnd(s, n), n);
    }
  }

  /** What an undisturbed reader keeps: all of it up to the limits, as many whole events of it as
      they allow when streamed. */
  lemma UndisturbedIs(s: seq<byte>, streamed: bool)
    ensures var body := Undisturbed(s, streamed).body;
            body <= s && |body| <= 2097152 &&
            (!streamed ==> |body| == |s| || |body| == 2097152) &&
            (streamed ==>
               (body == [] || EventEnd(s, |body|)) && Events(s, |body|) <= 2048 &&
               forall p :: |body| < p <= |s| && p <= 2097152 && EventEnd(s, p) ==> Events(s, p) > 2048)
  {
    var n := Min(|s|, 2097152);
    EventsGrow(s, LastEnd(s, n), n);
    if streamed {
      var body := Undisturbed(s, streamed).body;
      forall p | |body| < p <= n && EventEnd(s, p) ensures Events(s, p) > 2048 {
        EventsGrow(s, |body|, p - 1);
      }
    }
  }

  /** An answer is called truncated exactly when something was dropped or a limit was reached. */
  lemma TruncatedIff(s: seq<byte>, streamed: bool)
    ensures var a := Undisturbed(s, streamed);
            var first := if |s| <= 2097152 then |s| else 2097152;
            a.truncated <==> |a.body| < |s| || |s| >= 2097152 || (streamed && Events(s, first) >= 2048)
  {
  }
}
