/** The observer's view of a stream (`sse_signature` in scripts/sanitize_nim_capture.py): the
    protected shape of every event, with one pair of dictionaries for the whole stream. */
module SseSignature {
  import opened Wrappers
  import opened Text
  import opened JsonText
  import opened Sanitizer
  import opened SanitizerShape
  import opened SanitizerFixpoint
  import opened JsonReader
  import opened SseBody
  import opened SseFraming
  import opened SseStream
  import opened SseNumbers
  import opened SseDocument

  /** The shape of what an event's data parses to, as far as the contract permits it. */
  function DataShape(parse: Parser, data: seq<string>, seen: Seen): Threaded<Option<Shape>> {
    match parse(JoinLines(data))
    case None => Threaded(None, seen)
    case Some(v) =>
      var r := Protected(Project(v, Root), "", seen);
      Threaded(Some(r.value), r.seen)
  }

  function SegmentShape(parse: Parser, segment: string, seen: Seen): Threaded<Option<Shape>> {
    if segment == "" then Threaded(None, seen) else DataShape(parse, DataOf(Split(segment, "\n")), seen)
  }

  function Shapes(parse: Parser, segments: seq<string>, seen: Seen): (r: Threaded<seq<Option<Shape>>>)
    ensures |r.value| == |segments|
  {
    if segments == [] then Threaded([], seen)
    else
      var init := Shapes(parse, segments[..|segments| - 1], seen);
      var last := SegmentShape(parse, segments[|segments| - 1], init.seen);
      Threaded(init.value + [last.value], last.seen)
  }

  /** `after` is what the observer has seen of the sanitized stream when `r` is the sanitizer's
      state: shapes agree until both kinds of zero have been seen, and differ from then on. */
  ghost predicate Agree<T>(seen: Seen, shape: T, again: Threaded<T>) {
    if TwoZeros(seen.numbers) then again.value != shape
    else again.value == shape && Mirror(seen, again.seen)
  }

  lemma DataAgrees(parse: Parser, data: seq<string>, s: Seen, q: Seen)
    requires ReadsBack(parse) && Mirror(s, q) && !TwoZeros(s.numbers)
    requires |EventText(parse, data, s).seen.numbers| < HALF_EXACT
    ensures var t := EventText(parse, data, s);
            DataShape(parse, data, s).seen == t.seen &&
            Agree(t.seen, DataShape(parse, data, s).value, DataShape(parse, Repartitioned(t.value, |data|), q))
  {
    var joined := JoinLines(data);
    if joined == "[DONE]" {
      DoneIsOneLine(data);
      RejoinedData("[DONE]", 1);
      assert "[DONE]" + Newlines(0) == "[DONE]";
    } else if parse(joined).None? {
      if data != [] { RejoinedData("<redacted>", |data|); }
    } else {
      ValueAgrees(parse, joined, |data|, s, q);
    }
  }

  lemma ValueAgrees(parse: Parser, joined: string, count: nat, s: Seen, q: Seen)
    requires ReadsBack(parse) && Mirror(s, q) && !TwoZeros(s.numbers) && parse(joined).Some? && count >= 1
    requires |Relabel(Project(parse(joined).value, Root), "", s).seen.numbers| < HALF_EXACT
    ensures var v := parse(joined).value;
            var r, p := Relabel(Project(v, Root), "", s), Protected(Project(v, Root), "", s);
            Agree(r.seen, Some(p.value), DataShape(parse, Repartitioned(Encode(r.value), count), q))
  {
    var v := parse(joined).value;
    var p := Project(v, Root);
    var r := Relabel(p, "", s);
    RejoinedData(Encode(r.value), count);
    SanitizedReadsBack(parse, joined, s, count - 1);
    ProjectPermits(v, Root);
    RelabelPermitted(p, "", s, Root);
    ProjectFixed(r.value, Root);
    ShapeKeptFrom(p, "", s, q);
  }

  lemma SegmentAgrees(parse: Parser, segment: string, s: Seen, q: Seen)
    requires ReadsBack(parse) && Mirror(s, q) && !TwoZeros(s.numbers)
    requires |RenderSegment(parse, segment, s).seen.numbers| < HALF_EXACT
    ensures var r := RenderSegment(parse, segment, s);
            SegmentShape(parse, segment, s).seen == r.seen &&
            Agree(r.seen, SegmentShape(parse, segment, s).value, SegmentShape(parse, r.value, q))
  {
    if segment != "" {
      var lines := Split(segment, "\n");
      var t := EventText(parse, DataOf(lines), s);
      TextIsSafe(parse, DataOf(lines), s);
      LinesAgain(lines, t.value);
      TidyLines(RenderLines(lines, t.value));
      DataAgrees(parse, DataOf(lines), s, q);
    }
  }

  lemma ShapesSnoc(parse: Parser, segments: seq<string>, segment: string, s: Seen)
    ensures var init := Shapes(parse, segments, s);
            var last := SegmentShape(parse, segment, init.seen);
            Shapes(parse, segments + [segment], s) == Threaded(init.value + [last.value], last.seen)
  {
    assert (segments + [segment])[..|segments|] == segments;
  }

  /** One more segment; `a` and `b` are the shapes of the source and of the sanitized stream. */
  lemma AgreeStep<T>(seen: Seen, a: seq<T>, b: Threaded<seq<T>>, seen': Seen, x: T, y: Threaded<T>)
    requires Agree(seen, a, b) && |a| == |b.value| && seen.numbers <= seen'.numbers
    requires !TwoZeros(seen.numbers) ==> Agree(seen', x, y)
    ensures Agree(seen', a + [x], Threaded(b.value + [y.value], y.seen))
  {
    CountPrefix(seen.numbers, seen'.numbers, ZERO_FRACTION);
    if a + [x] == b.value + [y.value] {
      SnocInjective(a, x, b.value, y.value);
    }
  }

  /** The shapes of the segments and of what they are rendered to. */
  ghost predicate StreamAgrees(parse: Parser, segments: seq<string>, s: Seen, q: Seen) {
    var r := RenderSegments(parse, segments, s);
    (!TwoZeros(r.seen.numbers) ==> Shapes(parse, segments, s).seen == r.seen) &&
    Agree(r.seen, Shapes(parse, segments, s).value, Shapes(parse, r.value, q))
  }

  lemma {:induction false} ShapesAgree(parse: Parser, segments: seq<string>, s: Seen, q: Seen)
    requires ReadsBack(parse) && Mirror(s, q) && !TwoZeros(s.numbers)
    requires |RenderSegments(parse, segments, s).seen.numbers| < HALF_EXACT
    ensures StreamAgrees(parse, segments, s, q)
    decreases |segments|
  {
    if segments == [] {
      NoShapes(parse, s, q);
    } else {
      var k := |segments| - 1;
      FewerNotes(parse, segments[..k], segments[k], segments, s);
      ShapesAgree(parse, segments[..k], s, q);
      ShapesStep(parse, segments[..k], segments[k], segments, s, q);
    }
  }

  lemma NoShapes(parse: Parser, s: Seen, q: Seen)
    requires Mirror(s, q) && !TwoZeros(s.numbers)
    ensures StreamAgrees(parse, [], s, q)
  {
  }

  lemma FewerNotes(parse: Parser, before: seq<string>, last: string, segments: seq<string>, s: Seen)
    requires segments == before + [last]
    ensures |RenderSegments(parse, before, s).seen.numbers| <= |RenderSegments(parse, segments, s).seen.numbers|
  {
    PrefixNotes(parse, before, last, s);
  }

  lemma ShapesStep(parse: Parser, before: seq<string>, last: string, segments: seq<string>, s: Seen, q: Seen)
    requires ReadsBack(parse) && segments == before + [last]
    requires |RenderSegments(parse, segments, s).seen.numbers| < HALF_EXACT && StreamAgrees(parse, before, s, q)
    ensures StreamAgrees(parse, segments, s, q)
  {
    var r := RenderSegments(parse, before, s);
    var a, b := Shapes(parse, before, s), Shapes(parse, r.value, q);
    var step := RenderSegment(parse, last, r.seen);
    SegmentGrows(parse, last, r.seen);
    SegmentsSnoc(parse, before, last, s);
    CountPrefix(r.seen.numbers, step.seen.numbers, ZERO_FRACTION);
    if !TwoZeros(r.seen.numbers) {
      SegmentAgrees(parse, last, r.seen, b.seen);
    }
    AgreeStep(r.seen, a.value, b, step.seen, SegmentShape(parse, last, a.seen).value, SegmentShape(parse, step.value, b.seen));
    ShapesSnoc(parse, before, last, s);
    ShapesSnoc(parse, r.value, step.value, q);
    AgreesNow(parse, segments, s, q, Threaded(r.value + [step.value], step.seen));
  }

  lemma AgreesNow(parse: Parser, segments: seq<string>, s: Seen, q: Seen, r: Threaded<seq<string>>)
    requires r == RenderSegments(parse, segments, s)
    requires !TwoZeros(r.seen.numbers) ==> Shapes(parse, segments, s).seen == r.seen
    requires Agree(r.seen, Shapes(parse, segments, s).value, Shapes(parse, r.value, q))
    ensures StreamAgrees(parse, segments, s, q)
  {
  }

  /** The observer sees the same shapes in the sanitized stream, event by event and with
      references across events, exactly when 0.0 and -0.0 do not both occur in the events. */
  lemma StreamShapesKept(parse: Parser, source: string)
    requires ReadsBack(parse) && |StreamNumbers(parse, Segments(source))| < HALF_EXACT
    ensures Shapes(parse, Segments(Sanitized(parse, source)), NOTHING).value
            == Shapes(parse, Segments(source), NOTHING).value
            <==> !SignedZerosIn(parse, Segments(source))
  {
    SanitizedSegments(parse, source);
    assert Mirror(NOTHING, NOTHING);
    NotedCount(parse, Segments(source));
    NotedZeros(parse, Segments(source));
    ShapesAgree(parse, Segments(source), NOTHING, NOTHING);
  }
}
