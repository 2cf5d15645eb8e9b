/** The lines of a sanitized event (scripts/sanitize_nim_capture.py): rendered lines are safe and render to
    themselves, and the repartitioned data joins to the same text. */
module SseFraming {
  import opened Text
  import opened JsonText
  import opened SseBody

  // ---------- rendered lines ----------

  /** Text the sanitizer may put after "data: ". */
  predicate SafeText(t: string) {
    AllPrintable(t) && (t == "" || !IsSpace(t[0]))
  }

  predicate SafeLine(line: string) {
    line != "" && AllPrintable(line)
  }

  lemma FieldOf(name: string, rest: string)
    requires ':' !in name
    ensures Partition(name + ":" + rest) == Field(name, true, rest)
  {
    CleanChar(name, ':');
    FindPrefix(name + ":", rest, ":");
    var line := name + ":" + rest;
    assert line[..|name|] == name && line[|name| + 1..] == rest;
  }

  /** A rendered data line carries exactly its text. */
  lemma DataLine(text: string)
    requires SafeText(text)
    ensures var line := "data: " + text;
            IsData(line) && LStrip(Partition(line).value) == text && SafeLine(line)
            && Partition(line).name == "data" && Partition(line).separator
  {
    var line := "data: " + text;
    assert line == "data" + ":" + (" " + text);
    FieldOf("data", " " + text);
    DataField(line);
    assert (" " + text)[1..] == text;
  }

  lemma OtherLine(name: string)
    requires ':' !in name && AllPrintable(name) && name != "data"
    ensures var line := name + ": <redacted>";
            !IsData(line) && Partition(line).name == name && Partition(line).separator && SafeLine(line)
  {
    FieldOf(name, " <redacted>");
    assert name + ":" + " <redacted>" == name + ": <redacted>";
    DataField(name + ": <redacted>");
    MarkPrintable();
    PrintableJoin(name, ": <redacted>");
  }

  lemma MarkPrintable()
    ensures AllPrintable(": <redacted>")
  {
  }

  lemma PrintableJoin(a: string, b: string)
    requires AllPrintable(a) && AllPrintable(b)
    ensures AllPrintable(a + b)
  {
  }

  /** The line a field that carries no data is rendered to. */
  function Redacted(f: Field): string {
    if f.name == "" then ": <redacted>"
    else if f.name in {"event", "id", "retry"} && f.separator then f.name + ": <redacted>"
    else "field: <redacted>"
  }

  lemma RedactedAgain(f: Field)
    requires !(f.name == "data" && f.separator)
    ensures Settled(Redacted(f))
  {
    if f.name == "" {
      RedactedComment();
    } else if f.name in {"event", "id", "retry"} && f.separator {
      RedactedNamed(f.name);
    } else {
      RedactedField();
    }
  }

  predicate Settled(line: string) {
    SafeLine(line) && !IsData(line) && Redacted(Partition(line)) == line
  }

  lemma RedactedComment()
    ensures Settled(": <redacted>")
  {
    OtherLine("");
    assert "" + ": <redacted>" == ": <redacted>";
  }

  lemma RedactedNamed(name: string)
    requires name in {"event", "id", "retry"}
    ensures Settled(name + ": <redacted>")
  {
    KnownName(name);
    OtherLine(name);
  }

  lemma RedactedField()
    ensures Settled("field: <redacted>")
  {
    FieldMark();
    RedactedUnknown("field");
  }

  lemma FieldMark()
    ensures "field" + ": <redacted>" == "field: <redacted>"
    ensures ':' !in "field" && AllPrintable("field") && "field" !in {"data", "", "event", "id", "retry"}
  {
  }

  lemma RedactedUnknown(name: string)
    requires name + ": <redacted>" == "field: <redacted>"
    requires ':' !in name && AllPrintable(name) && name !in {"data", "", "event", "id", "retry"}
    ensures Settled("field: <redacted>")
  {
    OtherLine(name);
  }

  lemma KnownName(name: string)
    requires name in {"event", "id", "retry"}
    ensures ':' !in name && AllPrintable(name) && name != "data" && name != ""
  {
  }

  lemma RenderLineIs(line: string, text: string)
    ensures RenderLine(line, text) == if IsData(line) then "data: " + text else Redacted(Partition(line))
  {
    DataField(line);
  }

  /** What rendering makes of one line, and of the line it made. */
  lemma LineAgain(line: string, text: string)
    requires SafeText(text)
    ensures var r := RenderLine(line, text);
            SafeLine(r) && (IsData(r) <==> IsData(line)) && RenderLine(r, text) == r
    ensures IsData(line) ==> LStrip(Partition(RenderLine(line, text)).value) == text
  {
    RenderLineIs(line, text);
    RenderLineIs(RenderLine(line, text), text);
    DataField(line);
    if IsData(line) {
      DataLine(text);
    } else {
      RedactedAgain(Partition(line));
    }
  }

  /** `_repartition_data`: the text, then empty strings, one per data line. */
  function Repartitioned(text: string, count: nat): seq<string> {
    if count == 0 then [] else [text] + seq(count - 1, _ => "")
  }

  lemma RenderedStep(init: seq<string>, last: string, text: string)
    requires RenderLines(init, text) == init
    requires RenderLine(last, if DataOf(init) == [] then text else "") == last
    ensures RenderLines(init + [last], text) == init + [last]
  {
    assert (init + [last])[..|init|] == init;
  }

  lemma DataStepIs(init: seq<string>, last: string, text: string, count: nat)
    requires DataOf(init) == Repartitioned(text, count)
    requires IsData(last) ==> LStrip(Partition(last).value) == if count == 0 then text else ""
    ensures DataOf(init + [last]) == Repartitioned(text, if IsData(last) then count + 1 else count)
  {
    assert (init + [last])[..|init|] == init;
    assert count > 0 ==> seq(count - 1, _ => "") + [""] == seq(count, _ => "");
  }

  /** The lines are safe, render to themselves and carry the text in their first data line. */
  predicate Stable(r: seq<string>, text: string, count: nat) {
    (forall i :: 0 <= i < |r| ==> SafeLine(r[i])) && RenderLines(r, text) == r && DataOf(r) == Repartitioned(text, count)
  }

  lemma StableStep(init: seq<string>, line: string, text: string, count: nat)
    requires SafeText(text) && Stable(init, text, count)
    ensures var last := RenderLine(line, if count == 0 then text else "");
            Stable(init + [last], text, if IsData(line) then count + 1 else count)
  {
    var put := if count == 0 then text else "";
    LineAgain(line, put);
    StableSnoc(init, RenderLine(line, put), text, count);
  }

  lemma StableSnoc(init: seq<string>, last: string, text: string, count: nat)
    requires Stable(init, text, count) && SafeLine(last)
    requires RenderLine(last, if count == 0 then text else "") == last
    requires IsData(last) ==> LStrip(Partition(last).value) == if count == 0 then text else ""
    ensures Stable(init + [last], text, if IsData(last) then count + 1 else count)
  {
    assert DataOf(init) == [] <==> count == 0;
    DataStepIs(init, last, text, count);
    RenderedStep(init, last, text);
    SafeSnoc(init, last);
  }

  lemma SafeSnoc(init: seq<string>, last: string)
    requires SafeLine(last) && forall i :: 0 <= i < |init| ==> SafeLine(init[i])
    ensures forall i :: 0 <= i < |init + [last]| ==> SafeLine((init + [last])[i])
  {
  }

  lemma {:induction false} LinesAgain(lines: seq<string>, text: string)
    requires SafeText(text)
    ensures Stable(RenderLines(lines, text), text, |DataOf(lines)|)
    decreases |lines|
  {
    if lines != [] {
      var k := |lines| - 1;
      LinesAgain(lines[..k], text);
      StableStep(RenderLines(lines[..k], text), lines[k], text, |DataOf(lines[..k])|);
    }
  }

  lemma {:induction false} BlankLines(k: nat)
    ensures Join(seq(k + 1, _ => ""), "\n") == Newlines(k)
  {
    if k > 0 {
      BlankLines(k - 1);
      assert seq(k + 1, _ => "")[1..] == seq(k, _ => "");
      assert "" + "\n" + Newlines(k - 1) == Newlines(k);
    }
  }

  lemma RejoinedData(text: string, count: nat)
    requires count >= 1
    ensures JoinLines(Repartitioned(text, count)) == text + Newlines(count - 1)
  {
    if count > 1 {
      BlankLines(count - 2);
      assert Repartitioned(text, count)[1..] == seq(count - 1, _ => "");
      assert "\n" + Newlines(count - 2) == Newlines(count - 1);
    }
  }
}
