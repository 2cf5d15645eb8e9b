/** Whole streams: splitting a sanitized body gives back the rendered events, so a second pass
    sees exactly what the first one wrote. */
module SseStream {
  import opened Text
  import opened JsonValues
  import opened JsonText
  import opened Sanitizer
  import opened SanitizerFixpoint
  import opened JsonReader
  import opened SseBody
  import opened SseFraming

  // ---------- one event ----------

  lemma {:induction false} SeparatorInJoin(parts: seq<string>, c: char)
    requires |parts| >= 2
    ensures c in Join(parts, [c])
  {
    var s := Join(parts, [c]);
    assert s == parts[0] + [c] + Join(parts[1..], [c]);
    assert s[|parts[0]|] == c;
  }

  /** "[DONE]" is one line. */
  lemma DoneIsOneLine(data: seq<string>)
    requires JoinLines(data) == "[DONE]"
    ensures |data| == 1
  {
    if |data| >= 2 {
      SeparatorInJoin(data, '\n');
    }
  }

  lemma EncodedIsNotDone(v: Json, k: nat)
    requires Encodable(v)
    ensures Encode(v) + Newlines(k) != "[DONE]"
  {
    var t := Encode(v) + Newlines(k);
    if k > 0 {
      assert t[|t| - 1] == '\n' && "[DONE]"[5] == ']';
    } else {
      assert t == Encode(v) + "";
      ReadEncoded(v, "");
      DoneIsNotJson();
    }
  }

  lemma EncodedIsSafe(v: Json)
    requires Encodable(v)
    ensures SafeText(Encode(v))
  {
    EncodePrintable(v);
    EncodeStart(v);
  }

  /** The text of an event is safe, and the padded data it is rendered to has that text again. */
  ghost predicate EventStable(parse: Parser, data: seq<string>, s: Seen, q: Seen) {
    var t := EventText(parse, data, s);
    var padded := Repartitioned(t.value, |data|);
    var again := EventText(parse, padded, q);
    SafeText(t.value) && Reissued(t.seen, again.seen) && (data != [] ==> again.value == t.value)
    && !EventFails(parse, padded)
  }

  lemma EventAgain(parse: Parser, data: seq<string>, s: Seen, q: Seen)
    requires ReadsBack(parse) && Reissued(s, q) && |EventText(parse, data, s).seen.numbers| < HALF_EXACT
    ensures EventStable(parse, data, s, q)
  {
    var joined := JoinLines(data);
    if joined == "[DONE]" {
      DoneAgain(parse, data, s, q);
    } else if parse(joined).None? {
      MarkAgain(parse, data, s, q);
    } else {
      ValueAgain(parse, joined, |data|, s, q);
    }
  }

  lemma DoneAgain(parse: Parser, data: seq<string>, s: Seen, q: Seen)
    requires JoinLines(data) == "[DONE]" && Reissued(s, q)
    ensures EventStable(parse, data, s, q)
  {
    DoneIsOneLine(data);
    RejoinedData("[DONE]", 1);
    assert "[DONE]" + Newlines(0) == "[DONE]";
  }

  lemma MarkAgain(parse: Parser, data: seq<string>, s: Seen, q: Seen)
    requires ReadsBack(parse) && Reissued(s, q)
    requires JoinLines(data) != "[DONE]" && parse(JoinLines(data)).None?
    ensures EventStable(parse, data, s, q)
  {
    if data != [] {
      RejoinedData("<redacted>", |data|);
      assert ("<redacted>" + Newlines(|data| - 1))[0] == '<';
    }
  }

  lemma ValueAgain(parse: Parser, joined: string, count: nat, s: Seen, q: Seen)
    requires ReadsBack(parse) && Reissued(s, q) && parse(joined).Some? && count >= 1
    requires |Relabel(Project(parse(joined).value, Root), "", s).seen.numbers| < HALF_EXACT
    ensures var r := Relabel(Project(parse(joined).value, Root), "", s);
            var data := Repartitioned(Encode(r.value), count);
            var again := EventText(parse, data, q);
            SafeText(Encode(r.value)) && Reissued(r.seen, again.seen) && again.value == Encode(r.value) &&
            !EventFails(parse, data)
  {
    var v := parse(joined).value;
    var r := Relabel(Project(v, Root), "", s);
    RelabelWritable(Project(v, Root), "", s);
    EncodedIsSafe(r.value);
    RejoinedData(Encode(r.value), count);
    EncodedIsNotDone(r.value, count - 1);
    SanitizedReadsBack(parse, joined, s, count - 1);
    SanitizeAgain(v, Root, s, q);
    ProjectPermits(v, Root);
    RelabelPermitted(Project(v, Root), "", s, Root);
    ProjectFixed(r.value, Root);
  }

  // ---------- one segment ----------

  /** Text that blank-line separators neither start in, end in nor cut. */
  predicate Tidy(s: string) {
    s != "" && s[0] != '\n' && s[|s| - 1] != '\n'
    && (forall i :: 0 <= i < |s| - 1 ==> !(s[i] == '\n' && s[i + 1] == '\n'))
    && '\r' !in s
  }

  lemma SafeLineChars(line: string)
    requires SafeLine(line)
    ensures '\n' !in line && '\r' !in line && Tidy(line)
  {
  }

  lemma TidyJoin(a: string, b: string)
    requires SafeLine(a) && Tidy(b)
    ensures Tidy(a + "\n" + b)
  {
    var s := a + "\n" + b;
    SafeLineChars(a);
    forall i | 0 <= i < |s| - 1 ensures !(s[i] == '\n' && s[i + 1] == '\n') {
      if i > |a| {
        assert s[i] == b[i - |a| - 1] && s[i + 1] == b[i - |a|];
      }
    }
  }

  lemma {:induction false} TidyLines(lines: seq<string>)
    requires |lines| >= 1 && forall i :: 0 <= i < |lines| ==> SafeLine(lines[i])
    ensures Tidy(Join(lines, "\n")) && Split(Join(lines, "\n"), "\n") == lines
    decreases |lines|
  {
    forall i | 0 <= i < |lines| ensures Clean(lines[i], "\n") {
      SafeLineChars(lines[i]);
      CleanChar(lines[i], '\n');
    }
    SplitOfJoin(lines, "\n");
    if |lines| > 1 {
      TidyLines(lines[1..]);
      TidyJoin(lines[0], Join(lines[1..], "\n"));
    } else {
      SafeLineChars(lines[0]);
    }
  }

  lemma TidyClean(s: string)
    requires s == "" || Tidy(s)
    ensures Clean(s, "\n\n")
  {
    var t := s + "\n\n";
    assert At(t, "\n\n", |s|);
    forall j: nat | j < |s| ensures !At(t, "\n\n", j) {
      var u := t[j..j + 2];
      assert u[0] == t[j] && u[1] == t[j + 1];
    }
  }

  /** What of a segment is kept whatever its data says: the kind of each line, the number of data
      lines, and whether it is the end mark. */
  datatype Frame = Frame(kinds: seq<Kind>, data: nat, done: bool)

  function Kinds(lines: seq<string>): (r: seq<Kind>)
    ensures |r| == |lines| && forall i :: 0 <= i < |lines| ==> r[i] == KindOf(lines[i])
  {
    seq(|lines|, i requires 0 <= i < |lines| => KindOf(lines[i]))
  }

  function FrameOfLines(lines: seq<string>): Frame {
    Frame(Kinds(lines), |DataOf(lines)|, JoinLines(DataOf(lines)) == "[DONE]")
  }

  function FrameOf(segment: string): Frame {
    if segment == "" then Frame([], 0, false) else FrameOfLines(Split(segment, "\n"))
  }

  /** The rendered segment has the frame of its source and is cut where it was. */
  predicate Kept(segment: string, rendered: string) {
    (rendered == "" <==> segment == "") && (rendered == "" || Tidy(rendered)) && FrameOf(rendered) == FrameOf(segment)
  }

  lemma KindKept(line: string, text: string)
    requires SafeText(text)
    ensures KindOf(RenderLine(line, text)) == KindOf(line)
  {
    RenderLineIs(line, text);
    DataField(line);
    DataField(RenderLine(line, text));
    if IsData(line) {
      DataLine(text);
    } else {
      RedactedKind(Partition(line));
    }
  }

  lemma RedactedKind(f: Field)
    requires !(f.name == "data" && f.separator)
    ensures KindOf(Redacted(f)) ==
            if f.name == "" then Comment
            else if f.name in {"event", "id", "retry"} && f.separator then Named(f.name) else Other
  {
    if f.name == "" {
      OtherLine("");
      assert "" + ": <redacted>" == ": <redacted>";
    } else if f.name in {"event", "id", "retry"} && f.separator {
      KnownName(f.name);
      OtherLine(f.name);
    } else {
      FieldMark();
      OtherLine("field");
    }
  }

  lemma RenderedAt(lines: seq<string>, text: string, i: nat)
    requires i < |lines| - 1
    ensures var init := lines[..|lines| - 1];
            init[i] == lines[i] && RenderLines(lines, text)[i] == RenderLines(init, text)[i]
  {
  }

  lemma RenderedLast(lines: seq<string>, text: string)
    requires lines != []
    ensures var k := |lines| - 1;
            RenderLines(lines, text)[k] == RenderLine(lines[k], if DataOf(lines[..k]) == [] then text else "")
  {
  }

  /** Pointwise, a rendered line has the kind of its source. */
  lemma {:induction false} KindAt(lines: seq<string>, text: string, i: nat)
    requires SafeText(text) && i < |lines|
    ensures KindOf(RenderLines(lines, text)[i]) == KindOf(lines[i])
    decreases |lines|
  {
    var k := |lines| - 1;
    if i < k {
      RenderedAt(lines, text, i);
      KindAt(lines[..k], text, i);
    } else {
      RenderedLast(lines, text);
      KindKept(lines[k], if DataOf(lines[..k]) == [] then text else "");
    }
  }

  lemma KindsKept(lines: seq<string>, text: string)
    requires SafeText(text)
    ensures Kinds(RenderLines(lines, text)) == Kinds(lines)
  {
    forall i | 0 <= i < |lines| ensures KindOf(RenderLines(lines, text)[i]) == KindOf(lines[i]) {
      KindAt(lines, text, i);
    }
  }

  lemma TextIsSafe(parse: Parser, data: seq<string>, s: Seen)
    ensures SafeText(EventText(parse, data, s).value)
  {
    var joined := JoinLines(data);
    if joined != "[DONE]" && parse(joined).Some? {
      RelabelWritable(Project(parse(joined).value, Root), "", s);
      EncodedIsSafe(Relabel(Project(parse(joined).value, Root), "", s).value);
    }
  }

  /** The rendered data is the end mark exactly when the data was. */
  lemma DoneKept(parse: Parser, data: seq<string>, s: Seen)
    ensures var text := EventText(parse, data, s).value;
            JoinLines(Repartitioned(text, |data|)) == "[DONE]" <==> JoinLines(data) == "[DONE]"
  {
    var joined := JoinLines(data);
    var text := EventText(parse, data, s).value;
    if data != [] {
      RejoinedData(text, |data|);
      if joined == "[DONE]" {
        DoneIsOneLine(data);
        assert "[DONE]" + Newlines(0) == "[DONE]";
      } else if parse(joined).None? {
        assert ("<redacted>" + Newlines(|data| - 1))[0] == '<';
      } else {
        RelabelWritable(Project(parse(joined).value, Root), "", s);
        EncodedIsNotDone(Relabel(Project(parse(joined).value, Root), "", s).value, |data| - 1);
      }
    }
  }

  /** Whatever the reader makes of the data, the segment keeps its frame. */
  lemma SegmentKept(parse: Parser, segment: string, s: Seen)
    ensures Kept(segment, RenderSegment(parse, segment, s).value)
  {
    if segment != "" {
      var lines := Split(segment, "\n");
      var text := EventText(parse, DataOf(lines), s).value;
      TextIsSafe(parse, DataOf(lines), s);
      LinesAgain(lines, text);
      KindsKept(lines, text);
      TidyLines(RenderLines(lines, text));
      DoneKept(parse, DataOf(lines), s);
      FrameKept(lines, RenderLines(lines, text), text);
    }
  }

  lemma FrameKept(lines: seq<string>, rendered: seq<string>, text: string)
    requires Stable(rendered, text, |DataOf(lines)|) && Kinds(rendered) == Kinds(lines)
    requires JoinLines(Repartitioned(text, |DataOf(lines)|)) == "[DONE]" <==> JoinLines(DataOf(lines)) == "[DONE]"
    ensures FrameOfLines(rendered) == FrameOfLines(lines)
  {
  }

  lemma SegmentAgain(parse: Parser, segment: string, s: Seen, q: Seen)
    requires ReadsBack(parse) && Reissued(s, q) && |RenderSegment(parse, segment, s).seen.numbers| < HALF_EXACT
    ensures var r := RenderSegment(parse, segment, s);
            var again := RenderSegment(parse, r.value, q);
            again.value == r.value && Reissued(r.seen, again.seen) && !SegmentFails(parse, r.value)
  {
    if segment != "" {
      var lines := Split(segment, "\n");
      var t := EventText(parse, DataOf(lines), s);
      EventAgain(parse, DataOf(lines), s, q);
      LinesAgain(lines, t.value);
      LinesOnceMore(parse, lines, RenderLines(lines, t.value), t.value, q);
    }
  }

  /** Rendering with the text of a second pass leaves rendered lines as they are. */
  lemma SameTextAgain(lines: seq<string>, rendered: seq<string>, text: string, again: string)
    requires RenderLines(rendered, text) == rendered && DataOf(rendered) == Repartitioned(text, |DataOf(lines)|)
    requires DataOf(lines) != [] ==> again == text
    ensures RenderLines(rendered, again) == rendered
  {
    if DataOf(lines) == [] {
      NoDataNoText(rendered, text, again);
    }
  }

  /** Rendered lines, joined to a segment and rendered a second time. */
  lemma LinesOnceMore(parse: Parser, lines: seq<string>, rendered: seq<string>, text: string, q: Seen)
    requires |rendered| == |lines| >= 1 && forall i :: 0 <= i < |rendered| ==> SafeLine(rendered[i])
    requires RenderLines(rendered, text) == rendered && DataOf(rendered) == Repartitioned(text, |DataOf(lines)|)
    requires DataOf(lines) != [] ==> EventText(parse, DataOf(rendered), q).value == text
    requires !EventFails(parse, DataOf(rendered))
    ensures var segment := Join(rendered, "\n");
            RenderSegment(parse, segment, q) == Threaded(segment, EventText(parse, DataOf(rendered), q).seen)
            && segment != "" && !SegmentFails(parse, segment)
  {
    TidyLines(rendered);
    SameTextAgain(lines, rendered, text, EventText(parse, DataOf(rendered), q).value);
    SegmentIs(parse, Join(rendered, "\n"), rendered, q);
  }

  lemma SegmentIs(parse: Parser, segment: string, lines: seq<string>, q: Seen)
    requires segment != "" && Split(segment, "\n") == lines
    ensures SegmentFails(parse, segment) <==> EventFails(parse, DataOf(lines))
    ensures var t := EventText(parse, DataOf(lines), q);
            RenderSegment(parse, segment, q) == Threaded(Join(RenderLines(lines, t.value), "\n"), t.seen)
  {
  }

  /** Without data lines the replacement text is not written. */
  lemma {:induction false} NoDataNoText(lines: seq<string>, a: string, b: string)
    requires DataOf(lines) == []
    ensures RenderLines(lines, a) == RenderLines(lines, b)
    decreases |lines|
  {
    if lines != [] {
      DataField(lines[|lines| - 1]);
      NoDataNoText(lines[..|lines| - 1], a, b);
    }
  }

  lemma SegmentsSnoc(parse: Parser, segments: seq<string>, segment: string, s: Seen)
    ensures var init := RenderSegments(parse, segments, s);
            var last := RenderSegment(parse, segment, init.seen);
            RenderSegments(parse, segments + [segment], s) == Threaded(init.value + [last.value], last.seen)
  {
    assert (segments + [segment])[..|segments|] == segments;
  }

  lemma EventGrows(parse: Parser, data: seq<string>, s: Seen)
    ensures s.numbers <= EventText(parse, data, s).seen.numbers
  {
  }

  lemma SegmentGrows(parse: Parser, segment: string, s: Seen)
    ensures s.numbers <= RenderSegment(parse, segment, s).seen.numbers
  {
    if segment != "" {
      var lines := Split(segment, "\n");
      EventGrows(parse, DataOf(lines), s);
      SeenAfter(parse, segment, lines, s);
    }
  }

  lemma SeenAfter(parse: Parser, segment: string, lines: seq<string>, s: Seen)
    requires segment != "" && lines == Split(segment, "\n")
    ensures RenderSegment(parse, segment, s).seen == EventText(parse, DataOf(lines), s).seen
  {
  }

  /** A second pass over the rendered segments renders the same ones, in step with the first. */
  ghost predicate StreamStable(parse: Parser, segments: seq<string>, s: Seen, q: Seen) {
    var r := RenderSegments(parse, segments, s);
    var again := RenderSegments(parse, r.value, q);
    again.value == r.value && Reissued(r.seen, again.seen) && !AnyFails(parse, r.value)
  }

  lemma {:induction false} SegmentsAgain(parse: Parser, segments: seq<string>, s: Seen, q: Seen)
    requires ReadsBack(parse) && Reissued(s, q) && |RenderSegments(parse, segments, s).seen.numbers| < HALF_EXACT
    ensures StreamStable(parse, segments, s, q)
    decreases |segments|
  {
    if segments != [] {
      var before, last := segments[..|segments| - 1], segments[|segments| - 1];
      assert segments == before + [last];
      PrefixNotes(parse, before, last, s);
      SegmentsAgain(parse, before, s, q);
      AgainStep(parse, before, last, s, q);
    }
  }

  lemma PrefixNotes(parse: Parser, before: seq<string>, last: string, s: Seen)
    ensures |RenderSegments(parse, before, s).seen.numbers| <= |RenderSegments(parse, before + [last], s).seen.numbers|
  {
    SegmentsSnoc(parse, before, last, s);
    SegmentGrows(parse, last, RenderSegments(parse, before, s).seen);
  }

  lemma AgainStep(parse: Parser, before: seq<string>, last: string, s: Seen, q: Seen)
    requires ReadsBack(parse) && |RenderSegments(parse, before + [last], s).seen.numbers| < HALF_EXACT
    requires StreamStable(parse, before, s, q)
    ensures StreamStable(parse, before + [last], s, q)
  {
    var init := RenderSegments(parse, before, s);
    var step := RenderSegment(parse, last, init.seen).value;
    SegmentsSnoc(parse, before, last, s);
    SegmentAgain(parse, last, init.seen, RenderSegments(parse, init.value, q).seen);
    SegmentsSnoc(parse, init.value, step, q);
    FailsSnoc(parse, init.value, step);
  }

  lemma FailsSnoc(parse: Parser, segments: seq<string>, segment: string)
    requires !AnyFails(parse, segments) && !SegmentFails(parse, segment)
    ensures !AnyFails(parse, segments + [segment])
  {
    var all := segments + [segment];
    forall i | 0 <= i < |all| ensures !SegmentFails(parse, all[i]) {
      assert i < |segments| ==> all[i] == segments[i];
    }
  }

  lemma {:induction false} SegmentsKept(parse: Parser, segments: seq<string>, s: Seen)
    ensures var r := RenderSegments(parse, segments, s).value;
            forall i :: 0 <= i < |segments| ==> Kept(segments[i], r[i])
    decreases |segments|
  {
    if segments != [] {
      var before, last := segments[..|segments| - 1], segments[|segments| - 1];
      assert segments == before + [last];
      SegmentsKept(parse, before, s);
      SegmentKept(parse, last, RenderSegments(parse, before, s).seen);
      SegmentsSnoc(parse, before, last, s);
    }
  }
}
