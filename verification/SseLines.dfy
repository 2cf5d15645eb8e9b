/** The lines of a sanitized event one by one (`sanitize_sse_body` in
    scripts/sanitize_nim_capture.py): what is read of each, and what is written for it. */
module SseLines {
  import opened Text
  import opened JsonText
  import opened Sanitizer
  import opened SseBody
  import opened SseStream

  /** What Python's `str.isspace` holds of. */
  predicate Space(c: char) {
    c in {'\t', '\n', '\U{B}', '\U{C}', '\r', '\U{1C}', '\U{1D}', '\U{1E}', '\U{1F}', ' ', '\U{85}', '\U{A0}', '\U{1680}',
          '\U{2028}', '\U{2029}', '\U{202F}', '\U{205F}', '\U{3000}'} || '\U{2000}' <= c <= '\U{200A}'
  }

  lemma {:induction false} StripsTo(s: string, k: nat)
    requires k <= |s| && (forall i :: 0 <= i < k ==> Space(s[i])) && (k < |s| ==> !Space(s[k]))
    ensures LStrip(s) == s[k..]
  {
    if k > 0 {
      assert Space(s[0]);
      assert s[1..][k - 1..] == s[k..];
      StripsTo(s[1..], k - 1);
    }
  }

  /** Of a line that starts with `data:` what comes after the white space behind that is read, and of
      any other line nothing. */
  lemma DataRead(lines: seq<string>, line: string, k: nat)
    requires "data:" <= line ==>
               5 <= k <= |line| && (forall i :: 5 <= i < k ==> Space(line[i])) && (k < |line| ==> !Space(line[k]))
    ensures DataOf(lines + [line]) == DataOf(lines) + if "data:" <= line then [line[k..]] else []
  {
    assert (lines + [line])[..|lines|] == lines;
    DataField(line);
    if "data:" <= line {
      StripsTo(line[5..], k - 5);
      assert line[5..][k - 5..] == line[k..];
    }
  }

  /** What is written for a line: the text for the first that holds data and nothing for the others
      that do; otherwise the kind of the line, if it is a known one, and no more. */
  function Written(line: string, first: bool, text: string): string {
    if "data:" <= line then "data: " + if first then text else ""
    else if line == "" || line[0] == ':' then ": <redacted>"
    else if "event:" <= line then "event: <redacted>"
    else if "id:" <= line then "id: <redacted>"
    else if "retry:" <= line then "retry: <redacted>"
    else "field: <redacted>"
  }

  lemma FieldStart(line: string, name: string)
    requires name != "" && ':' !in name
    ensures name + ":" <= line <==> Partition(line).name == name && Partition(line).separator
  {
    var i := Find(line, ":");
    if name + ":" <= line {
      var n := |name|;
      assert line[n] == (name + ":")[n] == ':';
      assert line[n..n + 1] == ":";
      assert At(line, ":", n);
      forall j: nat | j < n ensures !At(line, ":", j) {
        assert line[j] == (name + ":")[j] == name[j];
        assert j + 1 <= |line| ==> line[j..j + 1][0] == line[j];
      }
      assert i == n && line[..n] == (name + ":")[..n] == name;
    }
    if i != -1 && line[..i] == name {
      assert line[i..i + 1][0] == ':';
      assert line[..i + 1] == line[..i] + [line[i]];
    }
  }

  lemma NoName(line: string)
    ensures Partition(line).name == "" <==> line == "" || line[0] == ':'
  {
    var i := Find(line, ":");
    if line != "" && line[0] == ':' {
      assert line[0..1] == ":";
      assert At(line, ":", 0);
    }
    if i == 0 {
      assert line[0..1][0] == ':';
    }
  }

  lemma LineIs(line: string, text: string)
    ensures RenderLine(line, text) == Written(line, true, text)
    ensures RenderLine(line, "") == Written(line, false, text)
  {
    DataField(line);
    NoName(line);
    FieldStart(line, "event");
    FieldStart(line, "id");
    FieldStart(line, "retry");
    assert "event" + ":" == "event:" && "id" + ":" == "id:" && "retry" + ":" == "retry:";
    assert "event" + ": <redacted>" == "event: <redacted>" && "id" + ": <redacted>" == "id: <redacted>";
    assert "retry" + ": <redacted>" == "retry: <redacted>";
  }

  lemma {:induction false} NoData(lines: seq<string>)
    ensures DataOf(lines) == [] <==> forall j :: 0 <= j < |lines| ==> !("data:" <= lines[j])
  {
    if lines != [] {
      NoData(lines[..|lines| - 1]);
      assert forall j :: 0 <= j < |lines| - 1 ==> lines[..|lines| - 1][j] == lines[j];
    }
  }

  /** No line before the `i`-th holds data. */
  predicate First(lines: seq<string>, i: nat)
    requires i <= |lines|
  {
    forall j :: 0 <= j < i ==> !("data:" <= lines[j])
  }

  lemma {:induction false} RenderedFrom(lines: seq<string>, text: string, i: nat)
    requires i < |lines|
    ensures RenderLines(lines, text)[i] == RenderLine(lines[i], if DataOf(lines[..i]) == [] then text else "")
    decreases |lines|
  {
    if i < |lines| - 1 {
      RenderedFrom(lines[..|lines| - 1], text, i);
      RenderedSooner(lines, lines[..|lines| - 1], text, i, if DataOf(lines[..i]) == [] then text else "");
    } else {
      RenderedLast(lines, text);
    }
  }

  lemma RenderedSooner(lines: seq<string>, init: seq<string>, text: string, i: nat, put: string)
    requires lines != [] && init == lines[..|lines| - 1] && i < |init|
    requires RenderLines(init, text)[i] == RenderLine(init[i], if DataOf(init[..i]) == [] then text else "")
    requires put == if DataOf(lines[..i]) == [] then text else ""
    ensures RenderLines(lines, text)[i] == RenderLine(lines[i], put)
  {
    assert init[..i] == lines[..i];
    RenderedAt(lines, text, i);
  }

  lemma FirstIs(lines: seq<string>, i: nat)
    requires i <= |lines|
    ensures DataOf(lines[..i]) == [] <==> First(lines, i)
  {
    NoData(lines[..i]);
  }

  lemma LinePicked(line: string, first: bool, text: string)
    ensures RenderLine(line, if first then text else "") == Written(line, first, text)
  {
    LineIs(line, text);
  }

  /** Every line in its place. */
  lemma LineWritten(lines: seq<string>, text: string, i: nat)
    requires i < |lines|
    ensures RenderLines(lines, text)[i] == Written(lines[i], First(lines, i), text)
  {
    RenderedFrom(lines, text, i);
    FirstIs(lines, i);
    LinePicked(lines[i], First(lines, i), text);
  }

  /** What stands for an event's data, joined by newlines: the end mark for itself, a mark for what
      cannot be read, and otherwise the encoded sanitized value. */
  lemma TextWritten(parse: Parser, data: seq<string>, seen: Seen)
    ensures var joined := if data == [] then "" else Join(data, "\n");
            var t := EventText(parse, data, seen);
            if joined == "[DONE]" then t == Threaded("[DONE]", seen)
            else if parse(joined).None? then t == Threaded("<redacted>", seen)
            else
              var r := Relabel(Project(parse(joined).value, Root), "", seen);
              t == Threaded(Encode(r.value), r.seen)
  {
    if JoinLines(data) == "[DONE]" {
      DoneIsOneLine(data);
    }
  }
}
