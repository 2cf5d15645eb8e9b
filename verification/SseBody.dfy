/** The sanitizer's stream half, `sanitize_sse_body` (scripts/sanitize_nim_capture.py).
    A body is text; `parse` stands for `json_pairs`, Python's JSON reader with `null` and
    malformed text both read as nothing. */
module SseBody {
  import opened Wrappers
  import opened Text
  import opened JsonValues
  import opened JsonText
  import opened Sanitizer
  import opened SanitizerRun

  type Parser = string -> Option<Json>

  predicate HasCrlf(s: string) {
    Find(s, "\r\n") != -1
  }

  /** `str.isspace` for a single character. */
  predicate IsSpace(c: char) {
    var n := c as int;
    9 <= n <= 13 || 28 <= n <= 32 || n in {0x85, 0xA0, 0x1680, 0x2028, 0x2029, 0x202F, 0x205F, 0x3000}
    || 0x2000 <= n <= 0x200A
  }

  function LStrip(s: string): string {
    if s != "" && IsSpace(s[0]) then LStrip(s[1..]) else s
  }

  /** `line.partition(":")`. */
  datatype Field = Field(name: string, separator: bool, value: string)

  function Partition(line: string): Field {
    var i := Find(line, ":");
    if i == -1 then Field(line, false, "") else Field(line[..i], true, line[i + 1..])
  }

  predicate IsData(line: string) {
    "data:" <= line
  }

  function DataOf(lines: seq<string>): seq<string> {
    if lines == [] then []
    else
      var last := lines[|lines| - 1];
      DataOf(lines[..|lines| - 1]) + if IsData(last) then [LStrip(Partition(last).value)] else []
  }

  function JoinLines(data: seq<string>): string {
    if data == [] then "" else Join(data, "\n")
  }

  function Newlines(k: nat): string {
    seq(k, _ => '\n')
  }

  /** The text that replaces an event's joined data. */
  function EventText(parse: Parser, data: seq<string>, seen: Seen): Threaded<string> {
    var joined := JoinLines(data);
    if joined == "[DONE]" then Threaded(if |data| == 1 then "[DONE]" else "<redacted>", seen)
    else
      match parse(joined)
      case None => Threaded("<redacted>", seen)
      case Some(v) =>
        var r := Relabel(Project(v, Root), "", seen);
        Threaded(Encode(r.value), r.seen)
  }

  /** The event holds a number that cannot be given a placeholder. */
  predicate EventFails(parse: Parser, data: seq<string>) {
    var joined := JoinLines(data);
    joined != "[DONE]" && parse(joined).Some? && !AllFinite(Project(parse(joined).value, Root))
  }

  /** All that is left of a line besides its data. */
  datatype Kind = Data | Comment | Named(name: string) | Other

  function KindOf(line: string): Kind {
    var f := Partition(line);
    if f.name == "data" && f.separator then Data
    else if f.name == "" then Comment
    else if f.name in {"event", "id", "retry"} && f.separator then Named(f.name)
    else Other
  }

  /** One line of the rendered event; the first data line carries all of the text. */
  function RenderLine(line: string, text: string): string {
    var f := Partition(line);
    if f.name == "data" && f.separator then "data: " + text
    else if f.name == "" then ": <redacted>"
    else if f.name in {"event", "id", "retry"} && f.separator then f.name + ": <redacted>"
    else "field: <redacted>"
  }

  function RenderLines(lines: seq<string>, text: string): (r: seq<string>)
    ensures |r| == |lines|
  {
    if lines == [] then []
    else
      var init := lines[..|lines| - 1];
      RenderLines(init, text) + [RenderLine(lines[|lines| - 1], if DataOf(init) == [] then text else "")]
  }

  function RenderSegment(parse: Parser, segment: string, seen: Seen): Threaded<string> {
    if segment == "" then Threaded("", seen)
    else
      var lines := Split(segment, "\n");
      var text := EventText(parse, DataOf(lines), seen);
      Threaded(Join(RenderLines(lines, text.value), "\n"), text.seen)
  }

  function RenderSegments(parse: Parser, segments: seq<string>, seen: Seen): (r: Threaded<seq<string>>)
    ensures |r.value| == |segments|
  {
    if segments == [] then Threaded([], seen)
    else
      var init := RenderSegments(parse, segments[..|segments| - 1], seen);
      var last := RenderSegment(parse, segments[|segments| - 1], init.seen);
      Threaded(init.value + [last.value], last.seen)
  }

  function Normalized(source: string): string {
    Replace(source, "\r\n", "\n")
  }

  function Segments(source: string): (segments: seq<string>)
    ensures |segments| >= 1
  {
    Split(Normalized(source), "\n\n")
  }

  predicate SegmentFails(parse: Parser, segment: string) {
    segment != "" && EventFails(parse, DataOf(Split(segment, "\n")))
  }

  /** Sanitizing the body raises an error. */
  predicate Fails(parse: Parser, source: string) {
    AnyFails(parse, Segments(source))
  }

  predicate AnyFails(parse: Parser, segments: seq<string>) {
    exists i :: 0 <= i < |segments| && SegmentFails(parse, segments[i])
  }

  /** The sanitized body. */
  function Sanitized(parse: Parser, source: string): string {
    Replace(Join(RenderSegments(parse, Segments(source), NOTHING).value, "\n\n"),
            "\n", if HasCrlf(source) then "\r\n" else "\n")
  }

  // ---------- as it runs ----------

  lemma DataStep(lines: seq<string>, i: nat)
    requires i < |lines|
    ensures DataOf(lines[..i + 1]) ==
            DataOf(lines[..i]) + if IsData(lines[i]) then [LStrip(Partition(lines[i]).value)] else []
  {
    assert lines[..i + 1][..i] == lines[..i];
  }

  lemma RenderStep(lines: seq<string>, i: nat, text: string)
    requires i < |lines|
    ensures RenderLines(lines[..i + 1], text) ==
            RenderLines(lines[..i], text) +
            [RenderLine(lines[i], if DataOf(lines[..i]) == [] then text else "")]
  {
    assert lines[..i + 1][..i] == lines[..i];
  }

  /** A line starts with "data:" exactly when its field name is "data". */
  lemma DataField(line: string)
    ensures IsData(line) <==> Partition(line).name == "data" && Partition(line).separator
    ensures IsData(line) ==> Partition(line).value == line[5..]
  {
    var i := Find(line, ":");
    if IsData(line) {
      assert line[4] == ':' && At(line, ":", 4);
      forall j: nat | j < 4 ensures !At(line, ":", j) {
        assert line[j] == "data"[j];
        assert line[j] != ':';
        assert line[j..j + 1][0] == line[j];
      }
      assert i == 4 && line[..4] == "data";
    }
  }

  method DataLines(lines: seq<string>) returns (data: seq<string>)
    ensures data == DataOf(lines)
  {
    data := [];
    for i := 0 to |lines|
      invariant data == DataOf(lines[..i])
    {
      DataStep(lines, i);
      if IsData(lines[i]) {
        data := data + [LStrip(Partition(lines[i]).value)];
      }
    }
    assert lines[..|lines|] == lines;
  }

  method Replacement(parse: Parser, data: seq<string>, d: Dictionaries) returns (r: Result<string, SanitizeError>)
    requires d.Valid()
    modifies d
    ensures r.Err? <==> EventFails(parse, data)
    ensures r.Ok? ==> d.Valid() && Threaded(r.value, d.seen) == EventText(parse, data, old(d.seen))
  {
    var joined := JoinLines(data);
    if joined == "[DONE]" {
      return Ok(if |data| == 1 then "[DONE]" else "<redacted>");
    }
    var parsed := parse(joined);
    if parsed.None? {
      return Ok("<redacted>");
    }
    var value := SanitizeJsonValue(parsed.value, "", d, Root);
    r := if value.Ok? then Ok(Encode(value.value)) else Err(value.error);
  }

  /** `replacement_data` yields the text once and then empty strings. */
  method RenderAll(lines: seq<string>, sanitized: string) returns (rendered: seq<string>)
    ensures rendered == RenderLines(lines, sanitized)
  {
    rendered := [];
    var next := sanitized;
    for i := 0 to |lines|
      invariant rendered == RenderLines(lines[..i], sanitized)
      invariant next == if DataOf(lines[..i]) == [] then sanitized else ""
    {
      RenderStep(lines, i, sanitized);
      DataStep(lines, i);
      DataField(lines[i]);
      var f := Partition(lines[i]);
      if f.name == "data" && f.separator {
        rendered, next := rendered + ["data: " + next], "";
      } else if f.name == "" {
        rendered := rendered + [": <redacted>"];
      } else if f.name in {"event", "id", "retry"} && f.separator {
        rendered := rendered + [f.name + ": <redacted>"];
      } else {
        rendered := rendered + ["field: <redacted>"];
      }
    }
    assert lines[..|lines|] == lines;
  }

  lemma SegmentStep(parse: Parser, segments: seq<string>, i: nat)
    requires i < |segments|
    ensures var init := RenderSegments(parse, segments[..i], NOTHING);
            var last := RenderSegment(parse, segments[i], init.seen);
            RenderSegments(parse, segments[..i + 1], NOTHING) == Threaded(init.value + [last.value], last.seen)
  {
    assert segments[..i + 1][..i] == segments[..i];
  }

  lemma FailsStep(parse: Parser, segments: seq<string>, i: nat)
    requires i < |segments|
    ensures AnyFails(parse, segments[..i + 1]) <==>
            AnyFails(parse, segments[..i]) || SegmentFails(parse, segments[i])
    ensures AnyFails(parse, segments[..i + 1]) ==> AnyFails(parse, segments)
  {
    var t := segments[..i + 1];
    assert forall j :: 0 <= j <= i ==> t[j] == segments[j];
    assert forall j :: 0 <= j < i ==> segments[..i][j] == t[j];
  }

  method RenderOne(parse: Parser, segment: string, d: Dictionaries) returns (r: Result<string, SanitizeError>)
    requires d.Valid()
    modifies d
    ensures r.Err? <==> SegmentFails(parse, segment)
    ensures r.Ok? ==> d.Valid()
    ensures r.Ok? ==> Threaded(r.value, d.seen) == RenderSegment(parse, segment, old(d.seen))
  {
    if segment == "" {
      return Ok("");
    }
    var lines := Split(segment, "\n");
    var data := DataLines(lines);
    var text := Replacement(parse, data, d);
    if text.Err? {
      return Err(text.error);
    }
    var event := RenderAll(lines, text.value);
    r := Ok(Join(event, "\n"));
  }

  method RenderBody(parse: Parser, segments: seq<string>) returns (r: Result<seq<string>, SanitizeError>)
    ensures r.Err? <==> AnyFails(parse, segments)
    ensures r.Ok? ==> r.value == RenderSegments(parse, segments, NOTHING).value
  {
    var rendered: seq<string> := [];
    var d := new Dictionaries();
    for i := 0 to |segments|
      invariant fresh(d) && d.Valid() && !AnyFails(parse, segments[..i])
      invariant Threaded(rendered, d.seen) == RenderSegments(parse, segments[..i], NOTHING)
    {
      SegmentStep(parse, segments, i);
      FailsStep(parse, segments, i);
      var segment := RenderOne(parse, segments[i], d);
      if segment.Err? {
        return Err(segment.error);
      }
      rendered := rendered + [segment.value];
    }
    assert segments[..|segments|] == segments;
    r := Ok(rendered);
  }

  method SanitizeSseBody(parse: Parser, source: string) returns (r: Result<string, SanitizeError>)
    ensures r.Err? <==> Fails(parse, source)
    ensures r.Ok? ==> r.value == Sanitized(parse, source)
  {
    var newline := if HasCrlf(source) then "\r\n" else "\n";
    var normalized := Replace(source, "\r\n", "\n");
    var rendered := RenderBody(parse, Split(normalized, "\n\n"));
    r := if rendered.Ok? then Ok(Replace(Join(rendered.value, "\n\n"), "\n", newline)) else Err(rendered.error);
  }
}
