/** The numbers of a stream, told from its source, and the ones the sanitizer notes. */
module SseNumbers {
  import opened Collections
  import opened Text
  import opened JsonValues
  import opened Sanitizer
  import opened SanitizerShape
  import opened SseBody

  /** The numbers of an event that the contract lets through. */
  function EventNumbers(parse: Parser, data: seq<string>): set<Number> {
    var joined := JoinLines(data);
    if joined == "[DONE]" || parse(joined).None? then {} else NumbersOf(Project(parse(joined).value, Root))
  }

  function SegmentNumbers(parse: Parser, segment: string): set<Number> {
    if segment == "" then {} else EventNumbers(parse, DataOf(Split(segment, "\n")))
  }

  function StreamNumbers(parse: Parser, segments: seq<string>): set<Number> {
    set i, n | 0 <= i < |segments| && n in SegmentNumbers(parse, segments[i]) :: n
  }

  /** 0.0 and -0.0 both occur in the stream. */
  ghost predicate SignedZerosIn(parse: Parser, segments: seq<string>) {
    exists a, b :: a != b && Float(Zero, a) in StreamNumbers(parse, segments) && Float(Zero, b) in StreamNumbers(parse, segments)
  }

  lemma NumbersSnoc(parse: Parser, segments: seq<string>, segment: string, n: Number)
    ensures n in StreamNumbers(parse, segments + [segment])
            <==> n in StreamNumbers(parse, segments) || n in SegmentNumbers(parse, segment)
  {
    var all := segments + [segment];
    assert all[|segments|] == segment && forall i :: 0 <= i < |segments| ==> all[i] == segments[i];
  }

  lemma EventNoted(parse: Parser, segment: string, s: Seen, n: Number)
    ensures n in RenderSegment(parse, segment, s).seen.numbers <==> n in s.numbers || n in SegmentNumbers(parse, segment)
    ensures Distinct(s.numbers) ==> Distinct(RenderSegment(parse, segment, s).seen.numbers)
  {
    if segment != "" {
      var joined := JoinLines(DataOf(Split(segment, "\n")));
      if joined != "[DONE]" && parse(joined).Some? {
        NotedNumbers(Project(parse(joined).value, Root), "", s, n);
      }
    }
  }

  /** What was noted at the end of a stream is what occurs in it. */
  lemma {:induction false} StreamNoted(parse: Parser, segments: seq<string>, n: Number)
    ensures var noted := RenderSegments(parse, segments, NOTHING).seen.numbers;
            Distinct(noted) && (n in noted <==> n in StreamNumbers(parse, segments))
    decreases |segments|
  {
    if segments != [] {
      var before, last := segments[..|segments| - 1], segments[|segments| - 1];
      assert segments == before + [last];
      StreamNoted(parse, before, n);
      EventNoted(parse, last, RenderSegments(parse, before, NOTHING).seen, n);
      NumbersSnoc(parse, before, last, n);
    }
  }

  lemma NotedCount(parse: Parser, segments: seq<string>)
    ensures |RenderSegments(parse, segments, NOTHING).seen.numbers| == |StreamNumbers(parse, segments)|
  {
    var noted := RenderSegments(parse, segments, NOTHING).seen.numbers;
    forall n ensures Distinct(noted) && (n in noted <==> n in StreamNumbers(parse, segments)) {
      StreamNoted(parse, segments, n);
    }
    StreamNoted(parse, segments, Int(0));
    DistinctSize(noted, StreamNumbers(parse, segments));
  }

  lemma NotedZeros(parse: Parser, segments: seq<string>)
    ensures TwoZeros(RenderSegments(parse, segments, NOTHING).seen.numbers) <==> SignedZerosIn(parse, segments)
  {
    var noted := RenderSegments(parse, segments, NOTHING).seen.numbers;
    forall n ensures Distinct(noted) && (n in noted <==> n in StreamNumbers(parse, segments)) {
      StreamNoted(parse, segments, n);
    }
    StreamNoted(parse, segments, Int(0));
    TwoZerosIff(noted);
  }
}
