/** `sse_signature` (scripts/sanitize_nim_capture.py) as it looks at a captured stream: at bytes, of
    which it strips ASCII white space only, and at whole values. What it sees of the sanitized
    stream is what it saw of the source under one exact condition on the source. */
module SseObserver {
  import opened Wrappers
  import opened Text
  import opened JsonValues
  import opened JsonText
  import opened Sanitizer
  import opened SanitizerFixpoint
  import opened SanitizerObserver
  import opened JsonReader
  import opened SseBody
  import opened SseFraming
  import opened SseStream
  import opened SseNumbers
  import opened SseDocument
  import opened SseSignature

  // ---------- the observer ----------

  predicate IsAsciiSpace(c: char) {
    9 <= c as int <= 13 || c == ' '
  }

  /** `bytes.lstrip`. */
  function StripAscii(s: string): string {
    if s != "" && IsAsciiSpace(s[0]) then StripAscii(s[1..]) else s
  }

  function RawData(lines: seq<string>): seq<string> {
    if lines == [] then []
    else
      var last := lines[|lines| - 1];
      RawData(lines[..|lines| - 1]) + if IsData(last) then [StripAscii(Partition(last).value)] else []
  }

  /** How many bytes UTF-8 takes for a character. */
  function Width(c: char): (n: nat)
    ensures n >= 1
  {
    if c as int < 0x80 then 1 else if c as int < 0x800 then 2 else if c as int < 0x10000 then 3 else 4
  }

  /** `decode("ascii", "replace")`: every byte of another character shows as U+FFFD. */
  function Shown(s: string): string {
    if s == "" then ""
    else (if s[0] as int < 0x80 then [s[0]] else seq(Width(s[0]), _ => '\U{FFFD}')) + Shown(s[1..])
  }

  function ShownName(line: string): string {
    Shown(Partition(line).name)
  }

  function ShownNames(lines: seq<string>): (r: seq<string>)
    ensures |r| == |lines| && forall i :: 0 <= i < |lines| ==> r[i] == ShownName(lines[i])
  {
    seq(|lines|, i requires 0 <= i < |lines| => ShownName(lines[i]))
  }

  /** What is seen of an event besides its value. */
  datatype Outline = Outline(kinds: seq<string>, data: nat, done: bool, empty: bool)

  function LinesOf(segment: string): seq<string> {
    if segment == "" then [] else Split(segment, "\n")
  }

  function OutlineOf(segment: string): Outline {
    var lines := LinesOf(segment);
    Outline(ShownNames(lines), |RawData(lines)|, JoinLines(RawData(lines)) == "[DONE]", segment == "")
  }

  function Outlines(segments: seq<string>): (r: seq<Outline>)
    ensures |r| == |segments| && forall i :: 0 <= i < |segments| ==> r[i] == OutlineOf(segments[i])
  {
    seq(|segments|, i requires 0 <= i < |segments| => OutlineOf(segments[i]))
  }

  /** What is seen of an event's value. */
  function RawShape(parse: Parser, segment: string, seen: Seen): Threaded<Option<Shape>> {
    match parse(JoinLines(RawData(LinesOf(segment))))
    case None => Threaded(None, seen)
    case Some(v) =>
      var r := Protected(v, "", seen);
      Threaded(Some(r.value), r.seen)
  }

  function RawShapes(parse: Parser, segments: seq<string>, seen: Seen): (r: Threaded<seq<Option<Shape>>>)
    ensures |r.value| == |segments|
  {
    if segments == [] then Threaded([], seen)
    else
      var init := RawShapes(parse, segments[..|segments| - 1], seen);
      var last := RawShape(parse, segments[|segments| - 1], init.seen);
      Threaded(init.value + [last.value], last.seen)
  }

  /** `sse_signature`, the tuples of the events taken apart. */
  datatype Signature = Signature(crlf: bool, terminated: bool, outlines: seq<Outline>, shapes: seq<Option<Shape>>)

  function SignatureOf(parse: Parser, body: string): Signature {
    Signature(HasCrlf(body), Terminated(body), Outlines(Segments(body)), RawShapes(parse, Segments(body), NOTHING).value)
  }

  // ---------- the condition ----------

  /** No line of the text starts with white space that is not ASCII. */
  predicate NoStraySpace(t: string) {
    forall i :: 0 <= i < |t| && StartsLine(t, i) && IsSpace(t[i]) ==> IsAsciiSpace(t[i])
  }

  predicate StartsLine(t: string, i: nat)
    requires i < |t|
  {
    i == 0 || t[i - 1] == '\n'
  }

  /** JSON has no white space but ASCII, and no string goes over the end of a line. */
  ghost predicate StrictSpace(parse: Parser) {
    forall t :: parse(t).Some? ==> NoStraySpace(t)
  }

  /** Every data line starts with ASCII padding only. */
  predicate AsciiPadded(segment: string) {
    RawData(LinesOf(segment)) == DataOf(LinesOf(segment))
  }

  /** The sanitizer reads a value. */
  predicate Readable(parse: Parser, segment: string) {
    JoinLines(DataOf(LinesOf(segment))) != "[DONE]" && parse(JoinLines(DataOf(LinesOf(segment)))).Some?
  }

  /** A value the observer reads as well, with no key the contract does not permit. */
  predicate PlainValue(parse: Parser, segment: string) {
    Readable(parse, segment) ==>
      AsciiPadded(segment) && Permitted(parse(JoinLines(DataOf(LinesOf(segment)))).value, Root)
  }

  predicate PlainEnd(segment: string) {
    JoinLines(DataOf(LinesOf(segment))) == "[DONE]" ==> AsciiPadded(segment)
  }

  /** Lines whose kind is known, or is what unknown kinds are rewritten to. */
  predicate SettledName(line: string) {
    KindOf(line) != Other || Partition(line).name == "field"
  }

  predicate PlainOutline(segment: string) {
    PlainEnd(segment) && forall i :: 0 <= i < |LinesOf(segment)| ==> SettledName(LinesOf(segment)[i])
  }

  ghost predicate PlainStream(parse: Parser, source: string) {
    var run := TrailingNewlines(Normalized(source));
    && !(run >= 3 && run % 2 == 1)
    && (forall i :: 0 <= i < |Segments(source)| ==> PlainOutline(Segments(source)[i]) && PlainValue(parse, Segments(source)[i]))
    && !SignedZerosIn(parse, Segments(source))
  }

  // ---------- padding ----------

  lemma {:induction false} StripTwice(s: string)
    ensures LStrip(StripAscii(s)) == LStrip(s)
    ensures StripAscii(s) == "" || !IsAsciiSpace(StripAscii(s)[0])
  {
    if s != "" && IsAsciiSpace(s[0]) {
      StripTwice(s[1..]);
    }
  }

  lemma {:induction false} StripPrintable(s: string)
    requires AllPrintable(s)
    ensures StripAscii(s) == LStrip(s)
  {
    if s != "" {
      assert Printable(s[0]);
      StripPrintable(s[1..]);
    }
  }

  lemma {:induction false} PaddedPrintable(lines: seq<string>)
    requires forall i :: 0 <= i < |lines| ==> AllPrintable(lines[i])
    ensures RawData(lines) == DataOf(lines)
  {
    if lines != [] {
      var last := lines[|lines| - 1];
      PaddedPrintable(lines[..|lines| - 1]);
      if IsData(last) {
        DataField(last);
        StripPrintable(Partition(last).value);
      }
    }
  }

  /** Data whose lines do not start with stray space is stripped alike. */
  lemma {:induction false} PaddedData(lines: seq<string>)
    requires forall i :: 0 <= i < |RawData(lines)| ==> RawData(lines)[i] == "" || !IsSpace(RawData(lines)[i][0])
    ensures RawData(lines) == DataOf(lines)
  {
    if lines != [] {
      var init, last := lines[..|lines| - 1], lines[|lines| - 1];
      assert forall i :: 0 <= i < |RawData(init)| ==> RawData(init)[i] == RawData(lines)[i];
      PaddedData(init);
      if IsData(last) {
        assert RawData(lines)[|RawData(init)|] == StripAscii(Partition(last).value);
        StripTwice(Partition(last).value);
      }
    }
  }

  lemma {:induction false} RawDataStripped(lines: seq<string>, i: nat)
    requires i < |RawData(lines)|
    ensures RawData(lines)[i] == "" || !IsAsciiSpace(RawData(lines)[i][0])
    decreases |lines|
  {
    var init, last := lines[..|lines| - 1], lines[|lines| - 1];
    if i < |RawData(init)| {
      RawDataStripped(init, i);
    } else {
      StripTwice(Partition(last).value);
    }
  }

  /** Every part of a joined text starts a line of it. */
  lemma {:induction false} LineStarts(parts: seq<string>, i: nat)
    requires i < |parts| && NoStraySpace(Join(parts, "\n"))
    ensures parts[i] == "" || (IsSpace(parts[i][0]) ==> IsAsciiSpace(parts[i][0]))
    decreases |parts|
  {
    var t := Join(parts, "\n");
    if i == 0 {
      if parts[0] != "" {
        assert |t| > 0 && t[0] == parts[0][0] && StartsLine(t, 0);
      }
    } else {
      var rest := Join(parts[1..], "\n");
      assert t == parts[0] + "\n" + rest;
      NoStrayRest(parts[0], rest);
      LineStarts(parts[1..], i - 1);
    }
  }

  lemma NoStrayRest(first: string, rest: string)
    requires NoStraySpace(first + "\n" + rest)
    ensures NoStraySpace(rest)
  {
    var t := first + "\n" + rest;
    forall i | 0 <= i < |rest| && StartsLine(rest, i) && IsSpace(rest[i]) ensures IsAsciiSpace(rest[i]) {
      assert t[|first| + 1 + i] == rest[i];
      assert t[|first| + i] == if i == 0 then '\n' else rest[i - 1];
      assert StartsLine(t, |first| + 1 + i);
    }
  }

  /** Text that a strict reader reads has ASCII padding only. */
  lemma ReadIsPadded(parse: Parser, segment: string)
    requires StrictSpace(parse) && parse(JoinLines(RawData(LinesOf(segment)))).Some?
    ensures AsciiPadded(segment)
  {
    var data := RawData(LinesOf(segment));
    assert NoStraySpace(JoinLines(data));
    forall i | 0 <= i < |data| ensures data[i] == "" || !IsSpace(data[i][0]) {
      RawDataStripped(LinesOf(segment), i);
      LineStarts(data, i);
    }
    PaddedData(LinesOf(segment));
  }

  lemma DoneIsPadded(segment: string)
    requires JoinLines(RawData(LinesOf(segment))) == "[DONE]"
    ensures AsciiPadded(segment)
  {
    var data := RawData(LinesOf(segment));
    DoneIsOneLine(data);
    assert data[0] == "[DONE]";
    PaddedData(LinesOf(segment));
  }

  lemma {:induction false} RawCount(lines: seq<string>)
    ensures |RawData(lines)| == |DataOf(lines)|
  {
    if lines != [] { RawCount(lines[..|lines| - 1]); }
  }

  // ---------- names ----------

  predicate Ascii(s: string) {
    forall i :: 0 <= i < |s| ==> s[i] as int < 0x80
  }

  /** Only the text itself shows as an ASCII text. */
  lemma {:induction false} ShownIs(s: string, t: string)
    requires Ascii(t)
    ensures Shown(s) == t <==> s == t
  {
    if s != "" {
      var rest := Shown(s[1..]);
      if s[0] as int < 0x80 {
        assert Shown(s) == [s[0]] + rest;
        if t != "" {
          ShownIs(s[1..], t[1..]);
          assert t == [t[0]] + t[1..] && s == [s[0]] + s[1..];
          assert ([s[0]] + rest)[1..] == rest;
        }
      } else {
        assert Shown(s)[0] == '\U{FFFD}';
        assert t == "" || t[0] as int < 0x80;
        assert t == "" || s[0] != t[0];
      }
    }
  }

  /** The name a line of the kind is rendered under. */
  function KindName(k: Kind): string {
    match k
    case Data => "data"
    case Comment => ""
    case Named(name) => name
    case Other => "field"
  }

  lemma KnownNames(line: string)
    ensures Ascii(KindName(KindOf(line)))
    ensures KindOf(line) != Other ==> Partition(line).name == KindName(KindOf(line))
  {
  }

  lemma RenderedName(line: string, text: string)
    requires SafeText(text)
    ensures Partition(RenderLine(line, text)).name == KindName(KindOf(line))
  {
    RenderLineIs(line, text);
    DataField(line);
    if IsData(line) {
      DataLine(text);
    } else {
      RedactedName(Partition(line));
    }
  }

  lemma RedactedName(f: Field)
    requires !(f.name == "data" && f.separator)
    ensures Partition(Redacted(f)).name ==
            if f.name == "" then ""
            else if f.name in {"event", "id", "retry"} && f.separator then f.name else "field"
  {
    if f.name == "" {
      OtherLine("");
      assert "" + ": <redacted>" == ": <redacted>";
    } else if f.name in {"event", "id", "retry"} && f.separator {
      KnownName(f.name);
      OtherLine(f.name);
    } else {
      FieldMark();
      OtherLine("field");
    }
  }

  /** Rendering keeps the name that is shown exactly if it is a known one. */
  lemma NameKeptIff(line: string, text: string)
    requires SafeText(text)
    ensures ShownName(RenderLine(line, text)) == ShownName(line) <==> SettledName(line)
  {
    var name := KindName(KindOf(line));
    RenderedName(line, text);
    KnownNames(line);
    ShownIs(name, name);
    ShownIs(Partition(line).name, name);
  }

  lemma {:induction false} NameAtIff(lines: seq<string>, text: string, i: nat)
    requires SafeText(text) && i < |lines|
    ensures ShownName(RenderLines(lines, text)[i]) == ShownName(lines[i]) <==> SettledName(lines[i])
    decreases |lines|
  {
    var k := |lines| - 1;
    if i < k {
      RenderedAt(lines, text, i);
      NameAtIff(lines[..k], text, i);
    } else {
      RenderedLast(lines, text);
      NameKeptIff(lines[k], if DataOf(lines[..k]) == [] then text else "");
    }
  }

  lemma NamesKeptIff(lines: seq<string>, text: string)
    requires SafeText(text)
    ensures ShownNames(RenderLines(lines, text)) == ShownNames(lines)
            <==> forall i :: 0 <= i < |lines| ==> SettledName(lines[i])
  {
    var a, b := ShownNames(RenderLines(lines, text)), ShownNames(lines);
    forall i | 0 <= i < |lines| ensures a[i] == b[i] <==> SettledName(lines[i]) {
      NameAtIff(lines, text, i);
    }
    if a != b {
      var i :| 0 <= i < |lines| && a[i] != b[i];
    }
  }

  // ---------- one event ----------

  /** The lines of a rendered event. */
  lemma RenderedLines(parse: Parser, segment: string, s: Seen)
    requires segment != ""
    ensures var text := EventText(parse, DataOf(LinesOf(segment)), s).value;
            var r := RenderSegment(parse, segment, s).value;
            r != "" && SafeText(text) && LinesOf(r) == RenderLines(LinesOf(segment), text) &&
            Stable(LinesOf(r), text, |DataOf(LinesOf(segment))|)
  {
    var lines := LinesOf(segment);
    var text := EventText(parse, DataOf(lines), s).value;
    TextIsSafe(parse, DataOf(lines), s);
    LinesAgain(lines, text);
    TidyLines(RenderLines(lines, text));
  }

  lemma RenderedPadded(parse: Parser, segment: string, s: Seen)
    ensures AsciiPadded(RenderSegment(parse, segment, s).value)
  {
    if segment != "" {
      RenderedLines(parse, segment, s);
      PaddedPrintable(LinesOf(RenderSegment(parse, segment, s).value));
    }
  }

  lemma OutlineKeptIff(parse: Parser, segment: string, s: Seen)
    ensures OutlineOf(RenderSegment(parse, segment, s).value) == OutlineOf(segment) <==> PlainOutline(segment)
  {
    if segment != "" {
      var r := RenderSegment(parse, segment, s).value;
      var text := EventText(parse, DataOf(LinesOf(segment)), s).value;
      RenderedLines(parse, segment, s);
      RenderedPadded(parse, segment, s);
      NamesKeptIff(LinesOf(segment), text);
      DoneKept(parse, DataOf(LinesOf(segment)), s);
      RawCount(LinesOf(segment));
      DoneSeenIff(segment);
      OutlineParts(segment, r, text);
    }
  }

  /** The observer sees the end mark exactly when it is padded with ASCII. */
  lemma DoneSeenIff(segment: string)
    ensures JoinLines(RawData(LinesOf(segment))) == "[DONE]"
            <==> JoinLines(DataOf(LinesOf(segment))) == "[DONE]" && AsciiPadded(segment)
  {
    if JoinLines(RawData(LinesOf(segment))) == "[DONE]" {
      DoneIsPadded(segment);
    }
  }

  lemma OutlineParts(segment: string, r: string, text: string)
    requires segment != "" && r != "" && DataOf(LinesOf(r)) == Repartitioned(text, |DataOf(LinesOf(segment))|)
    requires AsciiPadded(r) && |RawData(LinesOf(segment))| == |DataOf(LinesOf(segment))|
    requires JoinLines(DataOf(LinesOf(r))) == "[DONE]" <==> JoinLines(DataOf(LinesOf(segment))) == "[DONE]"
    requires JoinLines(RawData(LinesOf(segment))) == "[DONE]" <==> JoinLines(DataOf(LinesOf(segment))) == "[DONE]" && AsciiPadded(segment)
    ensures OutlineOf(r) == OutlineOf(segment) <==> ShownNames(LinesOf(r)) == ShownNames(LinesOf(segment)) && PlainEnd(segment)
  {
  }

  /** What any reader that understands the sanitizer finds in a rendered event. */
  lemma RenderedReads(parse: Parser, segment: string, s: Seen)
    requires ReadsBack(parse) && |RenderSegment(parse, segment, s).seen.numbers| < HALF_EXACT
    ensures var data := DataOf(LinesOf(segment));
            parse(JoinLines(RawData(LinesOf(RenderSegment(parse, segment, s).value)))) ==
              if Readable(parse, segment) then Some(Relabel(Project(parse(JoinLines(data)).value, Root), "", s).value) else None
  {
    if segment != "" {
      var data := DataOf(LinesOf(segment));
      var t := EventText(parse, data, s);
      RenderedLines(parse, segment, s);
      RenderedPadded(parse, segment, s);
      TextReads(parse, data, s);
    }
  }

  lemma TextReads(parse: Parser, data: seq<string>, s: Seen)
    requires ReadsBack(parse) && |EventText(parse, data, s).seen.numbers| < HALF_EXACT
    ensures var joined := JoinLines(data);
            parse(JoinLines(Repartitioned(EventText(parse, data, s).value, |data|))) ==
              if joined != "[DONE]" && parse(joined).Some? then Some(Relabel(Project(parse(joined).value, Root), "", s).value) else None
  {
    var joined := JoinLines(data);
    if data != [] {
      RejoinedData(EventText(parse, data, s).value, |data|);
      if joined == "[DONE]" {
        DoneIsOneLine(data);
        assert "[DONE]" + Newlines(0) == "[DONE]";
      } else if parse(joined).Some? {
        SanitizedReadsBack(parse, joined, s, |data| - 1);
      }
    }
  }

  /** A rendered event is seen as the contract observer sees it. */
  lemma RenderedRaw(parse: Parser, segment: string, s: Seen, q: Seen)
    requires ReadsBack(parse) && |RenderSegment(parse, segment, s).seen.numbers| < HALF_EXACT
    ensures var r := RenderSegment(parse, segment, s).value;
            RawShape(parse, r, q) == SegmentShape(parse, r, q)
  {
    var r := RenderSegment(parse, segment, s).value;
    RenderedReads(parse, segment, s);
    RenderedPadded(parse, segment, s);
    if Readable(parse, segment) {
      var p := Project(parse(JoinLines(DataOf(LinesOf(segment)))).value, Root);
      ProjectPermits(parse(JoinLines(DataOf(LinesOf(segment)))).value, Root);
      RelabelPermitted(p, "", s, Root);
      ProjectFixed(Relabel(p, "", s).value, Root);
    }
  }

  /** And so is a plain event of the source. */
  lemma PlainRaw(parse: Parser, segment: string, s: Seen)
    requires ReadsBack(parse) && StrictSpace(parse) && PlainValue(parse, segment)
    ensures RawShape(parse, segment, s) == SegmentShape(parse, segment, s)
  {
    if Readable(parse, segment) {
      ProjectFixed(parse(JoinLines(DataOf(LinesOf(segment)))).value, Root);
    } else if parse(JoinLines(RawData(LinesOf(segment)))).Some? {
      ReadIsPadded(parse, segment);
    }
  }

  /** Of an event that is not plain, the observer sees something else in what it is rendered to. */
  lemma OtherRaw(parse: Parser, segment: string, s: Seen, p: Seen, q: Seen)
    requires ReadsBack(parse) && StrictSpace(parse) && !PlainValue(parse, segment)
    requires |RenderSegment(parse, segment, s).seen.numbers| < HALF_EXACT
    ensures RawShape(parse, RenderSegment(parse, segment, s).value, q).value != RawShape(parse, segment, p).value
  {
    var v := parse(JoinLines(DataOf(LinesOf(segment)))).value;
    RenderedReads(parse, segment, s);
    if parse(JoinLines(RawData(LinesOf(segment)))).Some? {
      ReadIsPadded(parse, segment);
      DroppedShows(v, Root, s, "", p, q);
    }
  }

  // ---------- all events ----------

  lemma RawSnoc(parse: Parser, segments: seq<string>, segment: string, s: Seen)
    ensures var init := RawShapes(parse, segments, s);
            var last := RawShape(parse, segment, init.seen);
            RawShapes(parse, segments + [segment], s) == Threaded(init.value + [last.value], last.seen)
  {
    assert (segments + [segment])[..|segments|] == segments;
  }

  lemma {:induction false} PlainRaws(parse: Parser, segments: seq<string>, s: Seen)
    requires ReadsBack(parse) && StrictSpace(parse)
    requires forall i :: 0 <= i < |segments| ==> PlainValue(parse, segments[i])
    ensures RawShapes(parse, segments, s) == Shapes(parse, segments, s)
    decreases |segments|
  {
    if segments != [] {
      var before, last := segments[..|segments| - 1], segments[|segments| - 1];
      PlainRaws(parse, before, s);
      PlainRaw(parse, last, RawShapes(parse, before, s).seen);
    }
  }

  lemma {:induction false} RenderedRaws(parse: Parser, segments: seq<string>, s: Seen, q: Seen)
    requires ReadsBack(parse) && |RenderSegments(parse, segments, s).seen.numbers| < HALF_EXACT
    ensures var r := RenderSegments(parse, segments, s).value;
            RawShapes(parse, r, q) == Shapes(parse, r, q)
    decreases |segments|
  {
    if segments != [] {
      var before, last := segments[..|segments| - 1], segments[|segments| - 1];
      var init := RenderSegments(parse, before, s);
      FewerNotes(parse, before, last, segments, s);
      RenderedRaws(parse, before, s, q);
      RenderedRaw(parse, last, init.seen, Shapes(parse, init.value, q).seen);
      RawSnoc(parse, init.value, RenderSegment(parse, last, init.seen).value, q);
      ShapesSnoc(parse, init.value, RenderSegment(parse, last, init.seen).value, q);
    }
  }

  /** What is seen of an event in its place, and what it is rendered to there. */
  lemma {:induction false} SeenAt(parse: Parser, segments: seq<string>, s: Seen, i: nat) returns (at: Seen)
    requires i < |segments|
    ensures RawShapes(parse, segments, s).value[i] == RawShape(parse, segments[i], at).value
    decreases |segments|
  {
    var before, last := segments[..|segments| - 1], segments[|segments| - 1];
    assert segments == before + [last];
    RawSnoc(parse, before, last, s);
    if i < |before| {
      at := SeenAt(parse, before, s, i);
    } else {
      at := RawShapes(parse, before, s).seen;
    }
  }

  lemma {:induction false} RenderedThen(parse: Parser, segments: seq<string>, s: Seen, i: nat) returns (at: Seen)
    requires i < |segments|
    ensures RenderSegments(parse, segments, s).value[i] == RenderSegment(parse, segments[i], at).value
    ensures |RenderSegment(parse, segments[i], at).seen.numbers| <= |RenderSegments(parse, segments, s).seen.numbers|
    decreases |segments|
  {
    var before, last := segments[..|segments| - 1], segments[|segments| - 1];
    assert segments == before + [last];
    SegmentsSnoc(parse, before, last, s);
    if i < |before| {
      at := RenderedThen(parse, before, s, i);
      FewerNotes(parse, before, last, segments, s);
    } else {
      at := RenderSegments(parse, before, s).seen;
    }
  }

  lemma OtherRaws(parse: Parser, segments: seq<string>, i: nat, s: Seen, p: Seen, q: Seen)
    requires ReadsBack(parse) && StrictSpace(parse) && |RenderSegments(parse, segments, s).seen.numbers| < HALF_EXACT
    requires i < |segments| && !PlainValue(parse, segments[i])
    ensures RawShapes(parse, RenderSegments(parse, segments, s).value, q).value != RawShapes(parse, segments, p).value
  {
    var rendered := RenderSegments(parse, segments, s).value;
    var s' := RenderedThen(parse, segments, s, i);
    var p' := SeenAt(parse, segments, p, i);
    var q' := SeenAt(parse, rendered, q, i);
    OtherRaw(parse, segments[i], s', p', q');
  }

  // ---------- main results ----------

  lemma RawShapesKeptIff(parse: Parser, source: string)
    requires ReadsBack(parse) && StrictSpace(parse) && |StreamNumbers(parse, Segments(source))| < HALF_EXACT
    ensures RawShapes(parse, Segments(Sanitized(parse, source)), NOTHING).value == RawShapes(parse, Segments(source), NOTHING).value
            <==> !SignedZerosIn(parse, Segments(source)) &&
                 forall i :: 0 <= i < |Segments(source)| ==> PlainValue(parse, Segments(source)[i])
  {
    var segments := Segments(source);
    SanitizedSegments(parse, source);
    NotedCount(parse, segments);
    if i :| 0 <= i < |segments| && !PlainValue(parse, segments[i]) {
      OtherRaws(parse, segments, i, NOTHING, NOTHING, NOTHING);
    } else {
      PlainRaws(parse, segments, NOTHING);
      RenderedRaws(parse, segments, NOTHING, NOTHING);
      StreamShapesKept(parse, source);
    }
  }

  lemma OutlineAtIff(parse: Parser, segments: seq<string>, s: Seen, i: nat)
    requires i < |segments|
    ensures OutlineOf(RenderSegments(parse, segments, s).value[i]) == OutlineOf(segments[i]) <==> PlainOutline(segments[i])
  {
    var at := RenderedThen(parse, segments, s, i);
    OutlineKeptIff(parse, segments[i], at);
  }

  lemma OutlinesKeptIff(parse: Parser, segments: seq<string>, s: Seen)
    ensures Outlines(RenderSegments(parse, segments, s).value) == Outlines(segments)
            <==> forall i :: 0 <= i < |segments| ==> PlainOutline(segments[i])
  {
    var a, b := Outlines(RenderSegments(parse, segments, s).value), Outlines(segments);
    forall i | 0 <= i < |segments| ensures a[i] == b[i] <==> PlainOutline(segments[i]) {
      OutlineAtIff(parse, segments, s, i);
    }
    if a != b {
      var i :| 0 <= i < |segments| && a[i] != b[i];
    }
  }

  /** The signature of the sanitized stream is that of its source if and only if the source does not
      end in an odd run of three or more newlines, names no field but the known ones (with their
      colon) and `field`, pads end marks and values with ASCII space, has no key the contract does not permit, and does not hold both
      0.0 and -0.0. */
  lemma SignatureKeptIff(parse: Parser, source: string)
    requires ReadsBack(parse) && StrictSpace(parse) && |StreamNumbers(parse, Segments(source))| < HALF_EXACT
    ensures SignatureOf(parse, Sanitized(parse, source)) == SignatureOf(parse, source) <==> PlainStream(parse, source)
  {
    SanitizedSegments(parse, source);
    FramingKept(parse, source);
    TerminationKept(parse, source);
    OutlinesKeptIff(parse, Segments(source), NOTHING);
    RawShapesKeptIff(parse, source);
  }

  // ---------- the assumption can be met ----------

  function StrictReader(t: string): Option<Json> {
    if NoStraySpace(t) then ReadDocument(t) else None
  }

  lemma StrictReaderStrict()
    ensures ReadsBack(StrictReader) && StrictSpace(StrictReader)
  {
    ReaderReadsBack();
    forall v, k: nat | Issued(v) ensures NoStraySpace(Encode(v) + Newlines(k)) {
      EncodedNoStray(v, k);
    }
  }

  lemma EncodedNoStray(v: Json, k: nat)
    requires Issued(v)
    ensures NoStraySpace(Encode(v) + Newlines(k))
  {
    var t := Encode(v) + Newlines(k);
    IssuedEncodable(v);
    EncodedIsSafe(v);
    forall i | 0 <= i < |t| && IsSpace(t[i]) ensures IsAsciiSpace(t[i]) {
      assert i < |Encode(v)| ==> Printable(t[i]);
      assert i >= |Encode(v)| ==> t[i] == '\n';
    }
  }
}
