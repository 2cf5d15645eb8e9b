/** Whole bodies: newline style, framing, termination, idempotence and the observer's signature. */
module SseDocument {
  import opened Text
  import opened Sanitizer
  import opened SanitizerFixpoint
  import opened JsonReader
  import opened SseBody
  import opened SseStream
  import opened SseNumbers

  // ---------- newline style ----------

  lemma {:induction false} SplitChars(s: string, sep: string, c: char)
    requires sep != "" && c !in s
    ensures forall i :: 0 <= i < |Split(s, sep)| ==> c !in Split(s, sep)[i]
    decreases |s|
  {
    var i := Find(s, sep);
    if i != -1 {
      SplitChars(s[i + |sep|..], sep, c);
    }
  }

  lemma NoCarriageReturn(s: string)
    requires '\r' !in s
    ensures !HasCrlf(s) && Clean(s, "\r\n") && Normalized(s) == s
  {
    var t := s + "\r\n";
    assert At(t, "\r\n", |s|);
    forall j: nat | j < |s| ensures !At(t, "\r\n", j) && !At(s, "\r\n", j) {
      assert t[j] == s[j];
      assert j + 2 <= |t| ==> t[j..j + 2][0] == t[j];
      assert j + 2 <= |s| ==> s[j..j + 2][0] == s[j];
    }
  }

  /** Writing a text with either newline style and normalizing it gives the text back. */
  lemma NewlinesRestored(doc: string, crlf: bool)
    requires '\r' !in doc
    ensures var out := Replace(doc, "\n", if crlf then "\r\n" else "\n");
            Normalized(out) == doc && (HasCrlf(out) <==> crlf && '\n' in doc)
  {
    JoinOfSplit(doc, "\n");
    if crlf {
      var lines := Split(doc, "\n");
      SplitChars(doc, "\n", '\r');
      forall i | 0 <= i < |lines| ensures Clean(lines[i], "\r\n") {
        NoCarriageReturn(lines[i]);
      }
      SplitOfJoin(lines, "\r\n");
      CleanChar(doc, '\n');
    } else {
      NoCarriageReturn(doc);
    }
  }

  /** The sanitized body before its newline style is restored. */
  function Document(parse: Parser, source: string): string {
    Join(RenderSegments(parse, Segments(source), NOTHING).value, "\n\n")
  }

  lemma DocumentSplits(parse: Parser, source: string)
    ensures var rendered := RenderSegments(parse, Segments(source), NOTHING).value;
            Split(Document(parse, source), "\n\n") == rendered && '\r' !in Document(parse, source)
  {
    var rendered := RenderSegments(parse, Segments(source), NOTHING).value;
    SegmentsKept(parse, Segments(source), NOTHING);
    forall i | 0 <= i < |rendered| ensures Clean(rendered[i], "\n\n") && '\r' !in rendered[i] {
      assert Kept(Segments(source)[i], rendered[i]);
      TidyClean(rendered[i]);
    }
    SplitOfJoin(rendered, "\n\n");
    CharsOfJoin(rendered, "\n\n", '\r');
  }

  /** A body with a CRLF has at least two lines, and so has what it is rendered to. */
  lemma CrlfSource(parse: Parser, source: string)
    requires HasCrlf(source)
    ensures '\n' in Document(parse, source)
  {
    var segments := Segments(source);
    var rendered := RenderSegments(parse, segments, NOTHING).value;
    SeparatorKept(source);
    if |segments| >= 2 {
      assert Document(parse, source) == rendered[0] + "\n\n" + Join(rendered[1..], "\n\n");
      assert Document(parse, source)[|rendered[0]|] == '\n';
    } else {
      assert segments == [segments[0]];
      JoinOfSplit(Normalized(source), "\n\n");
      assert Normalized(source) == segments[0];
      OneSegment(parse, segments[0]);
    }
  }

  lemma SeparatorKept(source: string)
    requires HasCrlf(source)
    ensures '\n' in Normalized(source)
  {
    var i := Find(source, "\r\n");
    var parts := Split(source, "\r\n");
    assert parts == [source[..i]] + Split(source[i + 2..], "\r\n");
    SeparatorInJoin(parts, '\n');
  }

  lemma OneSegment(parse: Parser, segment: string)
    requires '\n' in segment
    ensures '\n' in RenderSegments(parse, [segment], NOTHING).value[0]
  {
    var lines := Split(segment, "\n");
    CleanChar(segment, '\n');
    assert [segment][..0] == [];
    SeparatorInJoin(RenderLines(lines, EventText(parse, DataOf(lines), NOTHING).value), '\n');
  }

  // ---------- main results ----------

  /** The sanitized body has the segments that were rendered, in the source's newline style. */
  lemma SanitizedSegments(parse: Parser, source: string)
    ensures var out := Sanitized(parse, source);
            Segments(out) == RenderSegments(parse, Segments(source), NOTHING).value &&
            Normalized(out) == Document(parse, source) && (HasCrlf(out) <==> HasCrlf(source))
  {
    DocumentSplits(parse, source);
    NewlinesRestored(Document(parse, source), HasCrlf(source));
    if HasCrlf(source) {
      CrlfSource(parse, source);
    }
  }

  /** Whatever the events hold, newline style, segments and which of them are empty are kept, and
      of each segment the kind of every line, the number of data lines and the end mark. */
  lemma FramingKept(parse: Parser, source: string)
    ensures var out := Sanitized(parse, source);
            (HasCrlf(out) <==> HasCrlf(source)) && |Segments(out)| == |Segments(source)| &&
            forall i :: 0 <= i < |Segments(source)| ==>
              (Segments(out)[i] == "" <==> Segments(source)[i] == "") &&
              FrameOf(Segments(out)[i]) == FrameOf(Segments(source)[i])
  {
    SanitizedSegments(parse, source);
    SegmentsKept(parse, Segments(source), NOTHING);
    var out, segments := Segments(Sanitized(parse, source)), Segments(source);
    forall i | 0 <= i < |segments|
      ensures (out[i] == "" <==> segments[i] == "") && FrameOf(out[i]) == FrameOf(segments[i]) {
      assert Kept(segments[i], out[i]);
    }
  }

  /** Sanitizing a sanitized body succeeds and changes nothing. */
  lemma BodyIdempotent(parse: Parser, source: string)
    requires ReadsBack(parse) && |StreamNumbers(parse, Segments(source))| < HALF_EXACT
    ensures var out := Sanitized(parse, source);
            !Fails(parse, out) && Sanitized(parse, out) == out
  {
    var out := Sanitized(parse, source);
    SanitizedSegments(parse, source);
    assert Reissued(NOTHING, NOTHING);
    NotedCount(parse, Segments(source));
    SegmentsAgain(parse, Segments(source), NOTHING, NOTHING);
  }

  // ---------- final termination ----------

  /** The body ends with a blank line, once its newlines are normalized. */
  predicate Terminated(s: string) {
    EndsBlank(Normalized(s))
  }

  predicate EndsBlank(n: string) {
    |n| >= 2 && n[|n| - 2..] == "\n\n"
  }

  /** How many newlines the text ends with. */
  function TrailingNewlines(s: string): (r: nat)
    ensures r <= |s|
    ensures r >= 2 <==> EndsBlank(s)
  {
    if s == "" || s[|s| - 1] != '\n' then 0
    else
      assert |s| >= 2 ==> s[|s| - 2..] == [s[|s| - 2], s[|s| - 1]];
      assert |s| >= 2 ==> s[..|s| - 1][|s| - 2] == s[|s| - 2];
      1 + TrailingNewlines(s[..|s| - 1])
  }

  lemma {:induction false} TrailingOfJoin(a: string, b: string)
    ensures TrailingNewlines(a + b) ==
            TrailingNewlines(b) + if TrailingNewlines(b) == |b| then TrailingNewlines(a) else 0
    decreases |b|
  {
    if b == "" {
      assert a + b == a;
    } else {
      assert (a + b)[..|a + b| - 1] == a + b[..|b| - 1];
      if b[|b| - 1] == '\n' { TrailingOfJoin(a, b[..|b| - 1]); }
    }
  }

  predicate EndsEmpty(parts: seq<string>) {
    |parts| >= 2 && parts[|parts| - 1] == ""
  }

  /** The last segment is empty when the trailing newlines pair up into blank lines. */
  lemma {:induction false} LastSegment(s: string)
    ensures EndsEmpty(Split(s, "\n\n")) <==> TrailingNewlines(s) >= 2 && TrailingNewlines(s) % 2 == 0
    decreases |s|
  {
    var sep := "\n\n";
    var i := Find(s, sep);
    if i == -1 {
      NoPairAtEnd(s);
    } else {
      var rest := s[i + 2..];
      LastSegment(rest);
      TrailingAfterCut(s);
      LastOfSplit(s, sep, i);
      SplitSingle(rest, sep);
      LastSegmentStep(Split(s, sep), Split(rest, sep), rest, TrailingNewlines(s), TrailingNewlines(rest));
    }
  }

  lemma LastSegmentStep(parts: seq<string>, more: seq<string>, rest: string, run: nat, after: nat)
    requires |parts| >= 2 && |more| >= 1 && parts[|parts| - 1] == more[|more| - 1]
    requires if |more| == 1 then more[0] == rest else rest != ""
    requires run == after + if after == |rest| then 2 else 0
    requires after <= |rest| && (EndsEmpty(more) <==> after >= 2 && after % 2 == 0)
    ensures EndsEmpty(parts) <==> run >= 2 && run % 2 == 0
  {
  }

  /** Cutting off a first segment keeps the parity of the final run of newlines. */
  lemma TrailingAfterCut(s: string)
    requires Find(s, "\n\n") != -1
    ensures var rest := s[Find(s, "\n\n") + 2..];
            TrailingNewlines(s) ==
            TrailingNewlines(rest) + if TrailingNewlines(rest) == |rest| then 2 else 0
  {
    var i := Find(s, "\n\n");
    Cut(s, "\n\n", i);
    TrailingOfJoin(s[..i] + "\n\n", s[i + 2..]);
    TrailingAtCut(s[..i], s);
  }

  lemma NoPairAtEnd(s: string)
    requires Find(s, "\n\n") == -1
    ensures TrailingNewlines(s) < 2
  {
    if EndsBlank(s) {
      AtEnd(s, "\n\n");
    }
  }

  lemma TrailingAtCut(part: string, s: string)
    requires Find(s, "\n\n") == |part| && part <= s
    ensures TrailingNewlines(part + "\n\n") == 2
  {
    assert s[|part|..|part| + 2][0] == s[|part|];
    if part != "" {
      assert !At(s, "\n\n", |part| - 1);
      assert s[|part| - 1..|part| + 1] == [s[|part| - 1], s[|part|]];
      assert s[|part| - 1] == part[|part| - 1];
    }
    TrailingOfPart(part);
  }

  lemma TrailingOfPart(part: string)
    requires part == "" || part[|part| - 1] != '\n'
    ensures TrailingNewlines(part + "\n\n") == 2
  {
    TrailingSnoc(part);
    TrailingSnoc(part + "\n");
    assert part + "\n" + "\n" == part + "\n\n";
  }

  lemma TrailingSnoc(s: string)
    ensures TrailingNewlines(s + "\n") == 1 + TrailingNewlines(s)
  {
    assert (s + "\n")[..|s|] == s;
  }

  /** Final termination is kept exactly when the body does not end in an odd run of three or more
      newlines. */
  lemma TerminationKept(parse: Parser, source: string)
    ensures var run := TrailingNewlines(Normalized(source));
            (Terminated(Sanitized(parse, source)) <==> Terminated(source)) <==> !(run >= 3 && run % 2 == 1)
  {
    RunsAgree(parse, source);
    BothTerminated(Normalized(source), Normalized(Sanitized(parse, source)));
  }

  /** Three newlines at the end: whatever the reader, the blank line is lost. */
  lemma TerminationLost(parse: Parser)
    ensures Terminated("a\n\n\n") && !Terminated(Sanitized(parse, "a\n\n\n"))
  {
    var source := "a\n\n\n";
    NoReturns(source);
    ThreeNewlines("a");
    assert "a" + "\n\n" + "\n" == source;
    RunOfThree(parse, source);
  }

  lemma RunOfThree(parse: Parser, source: string)
    requires Normalized(source) == source && TrailingNewlines(source) == 3
    ensures Terminated(source) && !Terminated(Sanitized(parse, source))
  {
    TerminationKept(parse, source);
  }

  lemma NoReturns(s: string)
    requires '\r' !in s
    ensures Normalized(s) == s
  {
    forall i: nat ensures !At(s, "\r\n", i) {
      if At(s, "\r\n", i) {
        AtStart(s, "\r\n", i);
      }
    }
    assert Find(s, "\r\n") == -1;
  }

  lemma AtStart(s: string, sep: string, i: nat)
    requires sep != "" && At(s, sep, i)
    ensures sep[0] in s
  {
    assert s[i] == s[i..i + |sep|][0];
  }

  lemma ThreeNewlines(part: string)
    requires part == "" || part[|part| - 1] != '\n'
    ensures TrailingNewlines(part + "\n\n" + "\n") == 3
  {
    TrailingOfPart(part);
    TrailingSnoc(part + "\n\n");
  }

  lemma BothTerminated(n: string, m: string)
    requires TrailingNewlines(m) >= 2 <==> TrailingNewlines(n) >= 2 && TrailingNewlines(n) % 2 == 0
    ensures var run := TrailingNewlines(n);
            (EndsBlank(m) <==> EndsBlank(n)) <==> !(run >= 3 && run % 2 == 1)
  {
  }

  lemma RunsAgree(parse: Parser, source: string)
    ensures var r, q := TrailingNewlines(Normalized(source)), TrailingNewlines(Normalized(Sanitized(parse, source)));
            q % 2 == 0 && (q >= 2 <==> r >= 2 && r % 2 == 0)
  {
    SanitizedSegments(parse, source);
    LastRendered(parse, source);
    LastSegment(Normalized(source));
    LastSegment(Normalized(Sanitized(parse, source)));
    FramingKept(parse, source);
  }

  /** The rendered document ends with no newline, or with whole blank lines. */
  lemma LastRendered(parse: Parser, source: string)
    ensures TrailingNewlines(Document(parse, source)) % 2 == 0
  {
    var rendered := RenderSegments(parse, Segments(source), NOTHING).value;
    SegmentsKept(parse, Segments(source), NOTHING);
    forall i | 0 <= i < |rendered| ensures rendered[i] == "" || Tidy(rendered[i]) {
      assert Kept(Segments(source)[i], rendered[i]);
    }
    EvenTrail(rendered);
  }

  lemma {:induction false} EvenTrail(parts: seq<string>)
    requires |parts| >= 1 && forall i :: 0 <= i < |parts| ==> parts[i] == "" || Tidy(parts[i])
    ensures TrailingNewlines(Join(parts, "\n\n")) % 2 == 0
    decreases |parts|
  {
    if |parts| > 1 {
      EvenTrail(parts[1..]);
      TrailKept(parts[0], Join(parts[1..], "\n\n"));
    }
  }

  lemma TrailKept(part: string, rest: string)
    requires part == "" || part[|part| - 1] != '\n'
    ensures TrailingNewlines(part + "\n\n" + rest) % 2 == TrailingNewlines(rest) % 2
  {
    TrailGrows(part + "\n\n", rest, part);
    SameParity(TrailingNewlines(part + "\n\n" + rest), TrailingNewlines(rest));
  }

  lemma TrailGrows(head: string, rest: string, part: string)
    requires head == part + "\n\n" && (part == "" || part[|part| - 1] != '\n')
    ensures var all := TrailingNewlines(head + rest);
            all == TrailingNewlines(rest) || all == TrailingNewlines(rest) + 2
  {
    TrailingOfPart(part);
    TrailingOfJoin(head, rest);
  }

  lemma SameParity(a: nat, b: nat)
    requires a == b || a == b + 2
    ensures a % 2 == b % 2
  {
  }
}
