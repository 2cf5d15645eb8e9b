/** What two streams must share to be sanitized alike: the framing, the kinds of the lines, and
    events whose contract parts differ only by one renaming that holds across the whole stream. */
module SseSecrecy {
  import opened Wrappers
  import opened Folding
  import opened Text
  import opened JsonValues
  import opened JsonText
  import opened Sanitizer
  import opened SanitizerShape
  import opened JsonReader
  import opened SseBody
  import opened SseFraming
  import opened SseStream
  import opened SseNumbers
  import opened SseDocument

  predicate SameKinds(a: seq<string>, b: seq<string>) {
    |a| == |b| && forall i :: 0 <= i < |a| ==> KindOf(a[i]) == KindOf(b[i])
  }

  /** The renaming of numbers, within their class, and of identifiers. */
  datatype Renaming = Renaming(numbers: map<Number, Number>, ids: map<string, string>)

  ghost predicate Faithful(m: Renaming) {
    Injective(m.numbers) && KeepsClass(m.numbers) && Injective(m.ids)
  }

  predicate Through(m: Renaming, s: Seen, t: Seen) {
    Image(s.numbers, t.numbers, m.numbers) && Image(s.ids, t.ids, m.ids)
  }

  /** Two joined data texts: the same end mark, both unreadable, or values that differ only by
      the renaming and by text that is redacted. */
  predicate DataTwins(parse: Parser, a: string, b: string, m: Renaming) {
    (a == "[DONE]" <==> b == "[DONE]") &&
    (a != "[DONE]" ==>
      match (parse(a), parse(b))
      case (None, None) => true
      case (Some(v), Some(w)) => Renamed(Project(v, Root), Project(w, Root), "", m.numbers, m.ids)
      case _ => false)
  }

  predicate SegmentTwins(parse: Parser, a: string, b: string, m: Renaming) {
    if a == "" || b == "" then a == b
    else
      var p, q := Split(a, "\n"), Split(b, "\n");
      SameKinds(p, q) && DataTwins(parse, JoinLines(DataOf(p)), JoinLines(DataOf(q)), m)
  }

  predicate StreamTwins(parse: Parser, a: seq<string>, b: seq<string>, m: Renaming) {
    |a| == |b| && forall i :: 0 <= i < |a| ==> SegmentTwins(parse, a[i], b[i], m)
  }

  lemma {:induction false} RenderTwins(a: seq<string>, b: seq<string>, text: string)
    requires SameKinds(a, b)
    ensures |DataOf(a)| == |DataOf(b)|
    ensures RenderLines(a, text) == RenderLines(b, text)
  {
    if a != [] {
      var k := |a| - 1;
      RenderTwins(a[..k], b[..k], text);
      assert KindOf(a[k]) == KindOf(b[k]);
      DataField(a[k]);
      DataField(b[k]);
    }
  }

  lemma ValueTwins(v: Json, w: Json, m: Renaming, s: Seen, t: Seen)
    requires Faithful(m) && Through(m, s, t) && Renamed(v, w, "", m.numbers, m.ids)
    ensures Relabel(v, "", s).value == Relabel(w, "", t).value
    ensures Through(m, Relabel(v, "", s).seen, Relabel(w, "", t).seen)
  {
    RenamedShape(v, w, "", m.numbers, m.ids, s, t);
    RenamedBooleans(v, w, "", m.numbers, m.ids);
    assert Alike(s, t);
    SanitizedFromShape(v, w, "", s, t);
  }

  lemma EventTwins(parse: Parser, a: seq<string>, b: seq<string>, m: Renaming, s: Seen, t: Seen)
    requires Faithful(m) && Through(m, s, t) && |a| == |b|
    requires DataTwins(parse, JoinLines(a), JoinLines(b), m)
    ensures EventText(parse, a, s).value == EventText(parse, b, t).value
    ensures Through(m, EventText(parse, a, s).seen, EventText(parse, b, t).seen)
  {
    var p, q := JoinLines(a), JoinLines(b);
    if p != "[DONE]" && parse(p).Some? {
      ValueTwins(Project(parse(p).value, Root), Project(parse(q).value, Root), m, s, t);
    }
  }

  lemma OneTwin(parse: Parser, a: string, b: string, m: Renaming, s: Seen, t: Seen)
    requires Faithful(m) && Through(m, s, t) && SegmentTwins(parse, a, b, m)
    ensures RenderSegment(parse, a, s).value == RenderSegment(parse, b, t).value
    ensures Through(m, RenderSegment(parse, a, s).seen, RenderSegment(parse, b, t).seen)
  {
    if a != "" {
      var p, q := Split(a, "\n"), Split(b, "\n");
      RenderTwins(p, q, EventText(parse, DataOf(p), s).value);
      EventTwins(parse, DataOf(p), DataOf(q), m, s, t);
    }
  }

  lemma {:induction false} AllTwins(parse: Parser, a: seq<string>, b: seq<string>, m: Renaming)
    requires Faithful(m) && StreamTwins(parse, a, b, m)
    ensures RenderSegments(parse, a, NOTHING).value == RenderSegments(parse, b, NOTHING).value
    ensures Through(m, RenderSegments(parse, a, NOTHING).seen, RenderSegments(parse, b, NOTHING).seen)
  {
    if a != [] {
      var k := |a| - 1;
      assert forall i :: 0 <= i < k ==> a[..k][i] == a[i] && b[..k][i] == b[i];
      AllTwins(parse, a[..k], b[..k], m);
      OneTwin(parse, a[k], b[k], m, RenderSegments(parse, a[..k], NOTHING).seen, RenderSegments(parse, b[..k], NOTHING).seen);
    }
  }

  /** Nothing but the framing, the kinds of the lines and the shared shape of the events reaches
      the sanitized body: twins are written as the same text. */
  lemma StreamSecrecy(parse: Parser, source: string, twin: string, m: Renaming)
    requires Faithful(m) && StreamTwins(parse, Segments(source), Segments(twin), m)
    requires HasCrlf(source) <==> HasCrlf(twin)
    ensures Sanitized(parse, source) == Sanitized(parse, twin)
  {
    AllTwins(parse, Segments(source), Segments(twin), m);
  }

  // ---------- exactly what reaches the sanitized stream ----------

  /** Two joined data texts that an observer of shapes and booleans cannot tell apart, the
      numbers and identifiers of `s` and `t` having been seen before. */
  predicate DataAlike(parse: Parser, a: string, b: string, s: Seen, t: Seen) {
    (a == "[DONE]" <==> b == "[DONE]") &&
    (a != "[DONE]" ==>
      match (parse(a), parse(b))
      case (None, None) => true
      case (Some(v), Some(w)) =>
        var p, q := Project(v, Root), Project(w, Root);
        Protected(p, "", s).value == Protected(q, "", t).value && SameBooleans(p, q)
      case _ => false)
  }

  predicate SegmentAlike(parse: Parser, a: string, b: string, s: Seen, t: Seen) {
    if a == "" || b == "" then a == b
    else
      var p, q := Split(a, "\n"), Split(b, "\n");
      SameKinds(p, q) && DataAlike(parse, JoinLines(DataOf(p)), JoinLines(DataOf(q)), s, t)
  }

  /** The segments as they are rendered, one after the other. */
  function Renderer(parse: Parser): (string, Seen) -> (string, Seen) {
    (segment, seen) => (RenderSegment(parse, segment, seen).value, RenderSegment(parse, segment, seen).seen)
  }

  function Alikes(parse: Parser): (string, string, Seen, Seen) -> bool {
    (a, b, s, t) => SegmentAlike(parse, a, b, s, t)
  }

  /** The same, event by event, with references across the whole stream. */
  predicate StreamAlike(parse: Parser, a: seq<string>, b: seq<string>) {
    Pairwise(Renderer(parse), Alikes(parse), a, b, NOTHING, NOTHING)
  }

  lemma {:induction false} RenderIsFold(parse: Parser, segments: seq<string>)
    ensures var r := RenderSegments(parse, segments, NOTHING);
            Fold(Renderer(parse), segments, NOTHING) == Folded(r.value, r.seen)
    decreases |segments|
  {
    if segments != [] {
      RenderIsFold(parse, segments[..|segments| - 1]);
    }
  }

  lemma OneAlike(parse: Parser, a: string, b: string, s: Seen, t: Seen)
    ensures Alike(s, t) && SegmentAlike(parse, a, b, s, t) ==>
            RenderSegment(parse, a, s).value == RenderSegment(parse, b, t).value &&
            Alike(RenderSegment(parse, a, s).seen, RenderSegment(parse, b, t).seen)
  {
    if Alike(s, t) && SegmentAlike(parse, a, b, s, t) && a != "" {
      var p, q := Split(a, "\n"), Split(b, "\n");
      RenderTwins(p, q, EventText(parse, DataOf(p), s).value);
      DataRendered(parse, DataOf(p), DataOf(q), s, t);
    }
  }

  lemma DataRendered(parse: Parser, a: seq<string>, b: seq<string>, s: Seen, t: Seen)
    requires Alike(s, t) && DataAlike(parse, JoinLines(a), JoinLines(b), s, t) && |a| == |b|
    ensures EventText(parse, a, s).value == EventText(parse, b, t).value
    ensures Alike(EventText(parse, a, s).seen, EventText(parse, b, t).seen)
  {
    var x, y := JoinLines(a), JoinLines(b);
    if x != "[DONE]" && parse(x).Some? {
      SanitizedFromShape(Project(parse(x).value, Root), Project(parse(y).value, Root), "", s, t);
    }
  }

  function Touching(): (Seen, Seen) -> bool {
    (s, t) => Alike(s, t)
  }

  lemma StepAlike(parse: Parser)
    ensures var step := Renderer(parse);
            forall x, y, s, t :: Touching()(s, t) && Alikes(parse)(x, y, s, t) ==>
              step(x, s).0 == step(y, t).0 && Touching()(step(x, s).1, step(y, t).1)
  {
    forall x, y, s, t
      ensures Touching()(s, t) && Alikes(parse)(x, y, s, t) ==>
              Renderer(parse)(x, s).0 == Renderer(parse)(y, t).0 &&
              Touching()(Renderer(parse)(x, s).1, Renderer(parse)(y, t).1)
    {
      OneAlike(parse, x, y, s, t);
    }
  }

  lemma AllAlike(parse: Parser, a: seq<string>, b: seq<string>)
    requires StreamAlike(parse, a, b)
    ensures RenderSegments(parse, a, NOTHING).value == RenderSegments(parse, b, NOTHING).value
  {
    StepAlike(parse);
    FoldAlike(Renderer(parse), Touching(), Alikes(parse), a, b, NOTHING, NOTHING);
    RenderIsFold(parse, a);
    RenderIsFold(parse, b);
  }

  // ---------- the converse ----------

  lemma EncodedIsNotMark(v: Json)
    requires Encodable(v)
    ensures Encode(v) != "<redacted>"
  {
    ReadEncoded(v, "");
    RejectsMark("");
    assert Encode(v) + "" == Encode(v) && "<redacted>" + "" == "<redacted>";
  }

  /** Equal sanitized values, met in the same written state, had equal shapes and booleans. */
  lemma ValueTells(v: Json, w: Json, s: Seen, t: Seen, q: Seen) returns (q': Seen)
    requires Relabel(v, "", s).value == Relabel(w, "", t).value
    requires Mirror(s, q) && Mirror(t, q) && !TwoZeros(s.numbers) && !TwoZeros(t.numbers)
    requires !TwoZeros(Relabel(v, "", s).seen.numbers) && !TwoZeros(Relabel(w, "", t).seen.numbers)
    ensures Protected(v, "", s).value == Protected(w, "", t).value && SameBooleans(v, w)
    ensures Mirror(Relabel(v, "", s).seen, q') && Mirror(Relabel(w, "", t).seen, q')
  {
    ShapeKeptFrom(v, "", s, q);
    ShapeKeptFrom(w, "", t, q);
    BooleansKept(v, w, "", s, t);
    q' := Protected(Relabel(v, "", s).value, "", q).seen;
  }

  lemma EventTells(parse: Parser, a: seq<string>, b: seq<string>, s: Seen, t: Seen, q: Seen) returns (q': Seen)
    requires EventText(parse, a, s).value == EventText(parse, b, t).value
    requires JoinLines(a) == "[DONE]" <==> JoinLines(b) == "[DONE]"
    requires Mirror(s, q) && Mirror(t, q) && !TwoZeros(s.numbers) && !TwoZeros(t.numbers)
    requires !TwoZeros(EventText(parse, a, s).seen.numbers) && !TwoZeros(EventText(parse, b, t).seen.numbers)
    ensures DataAlike(parse, JoinLines(a), JoinLines(b), s, t)
    ensures Mirror(EventText(parse, a, s).seen, q') && Mirror(EventText(parse, b, t).seen, q')
  {
    var x, y := JoinLines(a), JoinLines(b);
    q' := q;
    if x != "[DONE]" {
      match (parse(x), parse(y))
      case (None, None) =>
      case (Some(v), None) =>
        RelabelWritable(Project(v, Root), "", s);
        EncodedIsNotMark(Relabel(Project(v, Root), "", s).value);
      case (None, Some(w)) =>
        RelabelWritable(Project(w, Root), "", t);
        EncodedIsNotMark(Relabel(Project(w, Root), "", t).value);
      case (Some(v), Some(w)) =>
        var p, r := Project(v, Root), Project(w, Root);
        RelabelWritable(p, "", s);
        RelabelWritable(r, "", t);
        EncodeInjective(Relabel(p, "", s).value, Relabel(r, "", t).value);
        q' := ValueTells(p, r, s, t, q);
    }
  }

  /** The rendered lines of a segment, told from its rendered text, and the text they carry. */
  lemma LinesTell(parse: Parser, segment: string, s: Seen)
    requires segment != ""
    ensures var lines := Split(segment, "\n");
            var text := EventText(parse, DataOf(lines), s).value;
            var rendered := Split(RenderSegment(parse, segment, s).value, "\n");
            Kinds(rendered) == Kinds(lines) && DataOf(rendered) == Repartitioned(text, |DataOf(lines)|) &&
            (JoinLines(DataOf(rendered)) == "[DONE]" <==> JoinLines(DataOf(lines)) == "[DONE]")
  {
    var lines := Split(segment, "\n");
    var text := EventText(parse, DataOf(lines), s).value;
    TextIsSafe(parse, DataOf(lines), s);
    LinesAgain(lines, text);
    KindsKept(lines, text);
    TidyLines(RenderLines(lines, text));
    DoneKept(parse, DataOf(lines), s);
  }

  lemma KindsSame(a: seq<string>, b: seq<string>)
    requires Kinds(a) == Kinds(b)
    ensures SameKinds(a, b)
  {
    assert |Kinds(a)| == |a| && |Kinds(b)| == |b|;
    forall i | 0 <= i < |a| ensures KindOf(a[i]) == KindOf(b[i]) {
      assert Kinds(a)[i] == Kinds(b)[i];
    }
  }

  lemma SegmentTells(parse: Parser, a: string, b: string, s: Seen, t: Seen, q: Seen) returns (q': Seen)
    requires parse("") == None && RenderSegment(parse, a, s).value == RenderSegment(parse, b, t).value
    requires Mirror(s, q) && Mirror(t, q) && !TwoZeros(s.numbers) && !TwoZeros(t.numbers)
    requires !TwoZeros(RenderSegment(parse, a, s).seen.numbers) && !TwoZeros(RenderSegment(parse, b, t).seen.numbers)
    ensures SegmentAlike(parse, a, b, s, t)
    ensures Mirror(RenderSegment(parse, a, s).seen, q') && Mirror(RenderSegment(parse, b, t).seen, q')
  {
    SegmentKept(parse, a, s);
    SegmentKept(parse, b, t);
    q' := q;
    if a != "" {
      var x, y := DataOf(Split(a, "\n")), DataOf(Split(b, "\n"));
      LinesTell(parse, a, s);
      LinesTell(parse, b, t);
      KindsSame(Split(a, "\n"), Split(b, "\n"));
      SameText(EventText(parse, x, s).value, |x|, EventText(parse, y, t).value, |y|);
      if x != [] {
        q' := EventTells(parse, x, y, s, t, q);
      }
    }
  }

  lemma SameText(a: string, m: nat, b: string, n: nat)
    requires Repartitioned(a, m) == Repartitioned(b, n)
    ensures m == n && (m > 0 ==> a == b)
  {
    assert |Repartitioned(a, m)| == m && |Repartitioned(b, n)| == n;
    assert m > 0 ==> Repartitioned(a, m)[0] == a && Repartitioned(b, n)[0] == b;
  }

  /** What was written of `s` and of `t` is the same. */
  ghost predicate InTouch(s: Seen, t: Seen) {
    exists q :: Mirror(s, q) && Mirror(t, q)
  }

  lemma ZerosBefore(parse: Parser, x: string, s: Seen)
    requires !TwoZeros(RenderSegment(parse, x, s).seen.numbers)
    ensures !TwoZeros(s.numbers)
  {
    SegmentGrows(parse, x, s);
    CountPrefix(s.numbers, RenderSegment(parse, x, s).seen.numbers, ZERO_FRACTION);
  }

  lemma OneTells(parse: Parser, x: string, y: string, s: Seen, t: Seen)
    requires parse("") == None
    ensures InTouch(s, t) && RenderSegment(parse, x, s).value == RenderSegment(parse, y, t).value &&
            !TwoZeros(RenderSegment(parse, x, s).seen.numbers) && !TwoZeros(RenderSegment(parse, y, t).seen.numbers)
            ==> SegmentAlike(parse, x, y, s, t) && InTouch(RenderSegment(parse, x, s).seen, RenderSegment(parse, y, t).seen)
  {
    if InTouch(s, t) && RenderSegment(parse, x, s).value == RenderSegment(parse, y, t).value &&
       !TwoZeros(RenderSegment(parse, x, s).seen.numbers) && !TwoZeros(RenderSegment(parse, y, t).seen.numbers) {
      var q :| Mirror(s, q) && Mirror(t, q);
      ZerosBefore(parse, x, s);
      ZerosBefore(parse, y, t);
      var q' := SegmentTells(parse, x, y, s, t, q);
    }
  }

  ghost function InTouches(): (Seen, Seen) -> bool {
    (s, t) => InTouch(s, t)
  }

  function Fine(): Seen -> bool {
    (s: Seen) => !TwoZeros(s.numbers)
  }

  lemma StepTells(parse: Parser)
    requires parse("") == None
    ensures var step := Renderer(parse);
            forall x, y, s, t :: InTouches()(s, t) && step(x, s).0 == step(y, t).0 && Fine()(step(x, s).1) && Fine()(step(y, t).1)
              ==> Alikes(parse)(x, y, s, t) && InTouches()(step(x, s).1, step(y, t).1)
  {
    forall x, y, s, t
      ensures InTouches()(s, t) && Renderer(parse)(x, s).0 == Renderer(parse)(y, t).0
              && Fine()(Renderer(parse)(x, s).1) && Fine()(Renderer(parse)(y, t).1)
              ==> Alikes(parse)(x, y, s, t) && InTouches()(Renderer(parse)(x, s).1, Renderer(parse)(y, t).1)
    {
      StepTellsOne(parse, x, y, s, t);
    }
  }

  lemma StepTellsOne(parse: Parser, x: string, y: string, s: Seen, t: Seen)
    requires parse("") == None
    ensures InTouches()(s, t) && Renderer(parse)(x, s).0 == Renderer(parse)(y, t).0
            && Fine()(Renderer(parse)(x, s).1) && Fine()(Renderer(parse)(y, t).1)
            ==> Alikes(parse)(x, y, s, t) && InTouches()(Renderer(parse)(x, s).1, Renderer(parse)(y, t).1)
  {
    OneTells(parse, x, y, s, t);
  }

  lemma StepFine(parse: Parser)
    ensures forall x, s :: Fine()(Renderer(parse)(x, s).1) ==> Fine()(s)
  {
    forall x, s | Fine()(Renderer(parse)(x, s).1) ensures Fine()(s) {
      ZerosBefore(parse, x, s);
    }
  }

  lemma FoldsTell(parse: Parser, a: seq<string>, b: seq<string>)
    requires parse("") == None
    requires var p, r := Fold(Renderer(parse), a, NOTHING), Fold(Renderer(parse), b, NOTHING);
             p.out == r.out && Fine()(p.last) && Fine()(r.last)
    ensures StreamAlike(parse, a, b)
  {
    StepTells(parse);
    StepFine(parse);
    assert Mirror(NOTHING, NOTHING) && InTouch(NOTHING, NOTHING);
    FoldTells(Renderer(parse), InTouches(), Fine(), Alikes(parse), a, b, NOTHING, NOTHING);
  }

  lemma StreamTells(parse: Parser, a: seq<string>, b: seq<string>)
    requires parse("") == None && RenderSegments(parse, a, NOTHING).value == RenderSegments(parse, b, NOTHING).value
    requires !TwoZeros(RenderSegments(parse, a, NOTHING).seen.numbers)
    requires !TwoZeros(RenderSegments(parse, b, NOTHING).seen.numbers)
    ensures StreamAlike(parse, a, b)
  {
    RenderIsFold(parse, a);
    RenderIsFold(parse, b);
    FoldsTell(parse, a, b);
  }

  /** From a sanitized stream nothing can be learned but the framing, the kinds of the lines, the
      end marks, which events are readable, and their shapes and booleans with references across
      events; and all of these can. */
  lemma StreamTextsAlikeIff(parse: Parser, source: string, other: string)
    requires parse("") == None
    requires !SignedZerosIn(parse, Segments(source)) && !SignedZerosIn(parse, Segments(other))
    ensures Sanitized(parse, source) == Sanitized(parse, other)
            <==> (HasCrlf(source) <==> HasCrlf(other)) && StreamAlike(parse, Segments(source), Segments(other))
  {
    if Sanitized(parse, source) == Sanitized(parse, other) {
      SanitizedSegments(parse, source);
      SanitizedSegments(parse, other);
      NotedZeros(parse, Segments(source));
      NotedZeros(parse, Segments(other));
      StreamTells(parse, Segments(source), Segments(other));
    } else if (HasCrlf(source) <==> HasCrlf(other)) && StreamAlike(parse, Segments(source), Segments(other)) {
      AllAlike(parse, Segments(source), Segments(other));
    }
  }
}
