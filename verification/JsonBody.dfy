/** Whole JSON bodies, `sanitize_json_body` (scripts/sanitize_nim_capture.py). */
module JsonBody {
  import opened Collections
  import opened Wrappers
  import opened JsonValues
  import opened JsonText
  import opened Sanitizer
  import opened SanitizerShape
  import opened SanitizerFixpoint
  import opened SanitizerRun
  import opened SseBody
  import opened JsonReader

  /** The text a readable body is replaced by. */
  function BodyText(v: Json): string {
    Encode(Relabel(Project(v, Root), "", NOTHING).value)
  }

  method SanitizeJsonBody(parse: Parser, body: string) returns (r: Result<string, SanitizeError>)
    ensures r.Err? <==> parse(body).None? || !AllFinite(Project(parse(body).value, Root))
    ensures r.Ok? ==> r.value == BodyText(parse(body).value)
  {
    var value := parse(body);
    if value.None? {
      return Err(CaptureBodyInvalid);
    }
    var d := new Dictionaries();
    var sanitized := SanitizeJsonValue(value.value, "", d, Root);
    r := if sanitized.Ok? then Ok(Encode(sanitized.value)) else Err(sanitized.error);
  }

  /** From the sanitized text nothing can be learned but the protected shape and the booleans, and
      both of these can. */
  lemma BodyTextsAlikeIff(v: Json, w: Json)
    requires !SignedZeros(Project(v, Root)) && !SignedZeros(Project(w, Root))
    ensures var p, q := Project(v, Root), Project(w, Root);
            BodyText(v) == BodyText(w)
            <==> Protected(p, "", NOTHING).value == Protected(q, "", NOTHING).value && SameBooleans(p, q)
  {
    var p, q := Project(v, Root), Project(w, Root);
    RelabelWritable(p, "", NOTHING);
    RelabelWritable(q, "", NOTHING);
    if BodyText(v) == BodyText(w) {
      EncodeInjective(Relabel(p, "", NOTHING).value, Relabel(q, "", NOTHING).value);
    }
    SanitizedAlikeIff(v, w, Root);
  }

  /** A sanitized body is readable, and sanitizing it changes nothing. */
  lemma JsonBodyIdempotent(parse: Parser, body: string)
    requires ReadsBack(parse) && parse(body).Some?
    requires |NumbersOf(Project(parse(body).value, Root))| < HALF_EXACT
    ensures var out := BodyText(parse(body).value);
            parse(out).Some? && AllFinite(Project(parse(out).value, Root)) && BodyText(parse(out).value) == out
  {
    var v := parse(body).value;
    var p := Project(v, Root);
    var r := Relabel(p, "", NOTHING).value;
    NumbersNoted(p);
    RelabelWritable(p, "", NOTHING);
    SanitizedReadsBack(parse, body, NOTHING, 0);
    assert Encode(r) + Newlines(0) == Encode(r);
    SanitizeIdempotent(v, Root);
    ProjectPermits(v, Root);
    RelabelPermitted(p, "", NOTHING, Root);
    ProjectFixed(r, Root);
  }

  lemma NumbersNoted(p: Json)
    ensures |Relabel(p, "", NOTHING).seen.numbers| == |NumbersOf(p)|
  {
    var noted := Relabel(p, "", NOTHING).seen.numbers;
    forall n ensures n in noted <==> n in NumbersOf(p) {
      NotedNumbers(p, "", NOTHING, n);
    }
    DistinctSize(noted, NumbersOf(p));
  }
}
