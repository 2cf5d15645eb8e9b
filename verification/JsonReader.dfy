/** What the sanitizer may rely on when its own output is read again by `json_pairs`
    (scripts/sanitize_nim_capture.py), and why that is enough: the values it writes. */
module JsonReader {
  import opened Collections
  import opened Wrappers
  import opened JsonValues
  import opened JsonText
  import opened Sanitizer
  import opened SseBody

  // ---------- sanitized values can be written ----------

  lemma PlaceholderWritable(c: NumberClass, position: nat)
    requires position >= 1
    ensures Writable(Placeholder(c, position))
  {
    var d := Decimal(position);
    if !c.integer && c.sign != Zero {
      var t := Placeholder(c, position).repr;
      assert t[|t| - 2] == '.' && t[|t| - 1] == '5';
      assert t != "0.0" && t != "-0.0";
      assert IsDigit(d[0]);
    }
  }

  lemma {:induction false} RelabelWritable(v: Json, key: string, s: Seen)
    ensures Encodable(Relabel(v, key, s).value) && AllFinite(Relabel(v, key, s).value)
    decreases v, 1
  {
    match v
    case Num(n) =>
      PlaceholderWritable(Class(n), 1 + CountClass(s.numbers[..IndexOf(s.numbers, n)], Class(n)));
      assert Writable(NumberName(s.numbers, n));
      WritableFinite(NumberName(s.numbers, n));
    case Arr(items) => RelabelItemsWritable(items, s);
    case Obj(pairs) => RelabelPairsWritable(pairs, s);
    case _ =>
  }

  lemma WritableFinite(n: Number)
    requires Writable(n)
    ensures Finite(n)
  {
    if n.Float? {
      assert NumberChar(n.repr[0]) && (|n.repr| > 1 ==> NumberChar(n.repr[1]));
    }
  }

  lemma {:induction false} RelabelItemsWritable(items: seq<Json>, s: Seen)
    ensures Encodable(Arr(RelabelItems(items, s).value)) && AllFinite(Arr(RelabelItems(items, s).value))
    decreases items, 0
  {
    if items != [] {
      RelabelItemsWritable(items[..|items| - 1], s);
      RelabelWritable(items[|items| - 1], "", RelabelItems(items[..|items| - 1], s).seen);
    }
  }

  lemma {:induction false} RelabelPairsWritable(pairs: seq<Member>, s: Seen)
    ensures Encodable(Obj(RelabelPairs(pairs, s).value)) && AllFinite(Obj(RelabelPairs(pairs, s).value))
    decreases pairs, 0
  {
    if pairs != [] {
      var last := pairs[|pairs| - 1];
      RelabelPairsWritable(pairs[..|pairs| - 1], s);
      RelabelWritable(last.value, last.name, RelabelPairs(pairs[..|pairs| - 1], s).seen);
    }
  }

  // ---------- and are read under the same names ----------

  /** 2^52: up to here `k + 0.5` is a float of its own, and its `repr` is the decimal `k` and ".5". */
  const HALF_EXACT: nat := 0x10_0000_0000_0000

  predicate IssuedNumber(n: Number) {
    exists k: nat :: 1 <= k < HALF_EXACT && n == Placeholder(Class(n), k)
  }

  /** A value with no number but placeholders whose text is their `repr`. */
  predicate Issued(v: Json) {
    match v
    case Num(n) => IssuedNumber(n)
    case Arr(items) => forall i :: 0 <= i < |items| ==> Issued(items[i])
    case Obj(pairs) => forall i :: 0 <= i < |pairs| ==> Issued(pairs[i].value)
    case _ => true
  }

  /** How deep lists and objects are nested. */
  function Depth(v: Json): nat
    decreases v, 1
  {
    match v
    case Arr(items) => 1 + DepthItems(items)
    case Obj(pairs) => 1 + DepthPairs(pairs)
    case _ => 0
  }

  function DepthItems(items: seq<Json>): nat
    decreases items, 0
  {
    if items == [] then 0 else Max(DepthItems(items[..|items| - 1]), Depth(items[|items| - 1]))
  }

  function DepthPairs(pairs: seq<Member>): nat
    decreases pairs, 0
  {
    if pairs == [] then 0 else Max(DepthPairs(pairs[..|pairs| - 1]), Depth(pairs[|pairs| - 1].value))
  }

  /** The reader understands the encoded text of a value that holds no number but placeholders and
      is nested no deeper than something it has read, also when blank lines follow; it rejects the
      redaction mark, the end mark and the empty text; and it never answers `null`. */
  ghost predicate ReadsBack(parse: Parser) {
    && (forall t, v, k: nat ::
          parse(t).Some? && Issued(v) && v != Null && Depth(v) <= Depth(parse(t).value)
          ==> parse(Encode(v) + Newlines(k)) == Some(v))
    && (forall k: nat :: parse("<redacted>" + Newlines(k)) == None)
    && parse("") == None && parse("[DONE]") == None
    && (forall t :: parse(t) != Some(Null))
  }

  lemma {:induction false} CountAtMost(s: seq<Number>, c: NumberClass)
    ensures CountClass(s, c) <= |s|
  {
    if s != [] { CountAtMost(s[..|s| - 1], c); }
  }

  lemma NameIssued(s: seq<Number>, n: Number)
    requires |Note(s, n)| < HALF_EXACT
    ensures IssuedNumber(NumberName(s, n))
  {
    var before := s[..IndexOf(s, n)];
    var k := 1 + CountClass(before, Class(n));
    CountAtMost(before, Class(n));
    PlaceholderKeepsClass(Class(n), k);
    assert k < HALF_EXACT && NumberName(s, n) == Placeholder(Class(NumberName(s, n)), k);
  }

  lemma PlaceholderKeepsClass(c: NumberClass, position: nat)
    requires position >= 1
    ensures Class(Placeholder(c, position)) == c
  {
  }

  /** Every sanitized value is of this kind, unless it took 2^52 distinct numbers. */
  lemma {:induction false} RelabelIssued(v: Json, key: string, s: Seen)
    requires |Relabel(v, key, s).seen.numbers| < HALF_EXACT
    ensures Issued(Relabel(v, key, s).value)
    decreases v, 1
  {
    match v
    case Num(n) => NameIssued(s.numbers, n);
    case Arr(items) => RelabelItemsIssued(items, s);
    case Obj(pairs) => RelabelPairsIssued(pairs, s);
    case _ =>
  }

  lemma {:induction false} RelabelItemsIssued(items: seq<Json>, s: Seen)
    requires |RelabelItems(items, s).seen.numbers| < HALF_EXACT
    ensures Issued(Arr(RelabelItems(items, s).value))
    decreases items, 0
  {
    if items != [] {
      var init := RelabelItems(items[..|items| - 1], s);
      RelabelItemsIssued(items[..|items| - 1], s);
      RelabelIssued(items[|items| - 1], "", init.seen);
    }
  }

  lemma {:induction false} RelabelPairsIssued(pairs: seq<Member>, s: Seen)
    requires |RelabelPairs(pairs, s).seen.numbers| < HALF_EXACT
    ensures Issued(Obj(RelabelPairs(pairs, s).value))
    decreases pairs, 0
  {
    if pairs != [] {
      var last := pairs[|pairs| - 1];
      var init := RelabelPairs(pairs[..|pairs| - 1], s);
      RelabelPairsIssued(pairs[..|pairs| - 1], s);
      RelabelIssued(last.value, last.name, init.seen);
    }
  }

  /** Sanitizing does not nest deeper. */
  lemma {:induction false} RelabelDepth(v: Json, key: string, s: Seen)
    ensures Depth(Relabel(v, key, s).value) == Depth(v)
    decreases v, 1
  {
    match v
    case Arr(items) => RelabelItemsDepth(items, s);
    case Obj(pairs) => RelabelPairsDepth(pairs, s);
    case _ =>
  }

  lemma {:induction false} RelabelItemsDepth(items: seq<Json>, s: Seen)
    ensures DepthItems(RelabelItems(items, s).value) == DepthItems(items)
    decreases items, 0
  {
    if items != [] {
      var init, last := items[..|items| - 1], items[|items| - 1];
      RelabelItemsDepth(init, s);
      RelabelDepth(last, "", RelabelItems(init, s).seen);
      DepthSnoc(RelabelItems(init, s).value, Relabel(last, "", RelabelItems(init, s).seen).value);
    }
  }

  lemma {:induction false} RelabelPairsDepth(pairs: seq<Member>, s: Seen)
    ensures DepthPairs(RelabelPairs(pairs, s).value) == DepthPairs(pairs)
    decreases pairs, 0
  {
    if pairs != [] {
      var init, last := pairs[..|pairs| - 1], pairs[|pairs| - 1];
      RelabelPairsDepth(init, s);
      RelabelDepth(last.value, last.name, RelabelPairs(init, s).seen);
      DepthPairsSnoc(RelabelPairs(init, s).value,
                     Member(last.name, Relabel(last.value, last.name, RelabelPairs(init, s).seen).value));
    }
  }

  lemma DepthSnoc(items: seq<Json>, v: Json)
    ensures DepthItems(items + [v]) == Max(DepthItems(items), Depth(v))
  {
    assert (items + [v])[..|items|] == items;
  }

  lemma DepthPairsSnoc(pairs: seq<Member>, m: Member)
    ensures DepthPairs(pairs + [m]) == Max(DepthPairs(pairs), Depth(m.value))
  {
    assert (pairs + [m])[..|pairs|] == pairs;
  }

  lemma {:induction false} ProjectDepth(v: Json, context: Context)
    ensures Depth(Project(v, context)) <= Depth(v)
    decreases v, 1
  {
    match v
    case Arr(items) => ProjectItemsDepth(items, context);
    case Obj(pairs) => if context != Error { ProjectPairsDepth(pairs, context); }
    case _ =>
  }

  lemma {:induction false} ProjectItemsDepth(items: seq<Json>, context: Context)
    ensures DepthItems(ProjectItems(items, context)) <= DepthItems(items)
    decreases items, 0
  {
    if items != [] {
      var init, last := items[..|items| - 1], items[|items| - 1];
      ProjectItemsDepth(init, context);
      ProjectDepth(last, context);
      DepthSnoc(ProjectItems(init, context), Project(last, context));
    }
  }

  lemma {:induction false} ProjectPairsDepth(pairs: seq<Member>, context: Context)
    ensures DepthPairs(ProjectPairs(pairs, context)) <= DepthPairs(pairs)
    decreases pairs, 0
  {
    if pairs != [] {
      var init, last := pairs[..|pairs| - 1], pairs[|pairs| - 1];
      var child := Child(last.name, context);
      ProjectPairsDepth(init, context);
      ProjectDepth(last.value, child);
      DepthPairsSnoc(ProjectPairs(init, context), Member(last.name, Project(last.value, child)));
    }
  }

  /** What the sanitizer writes for a value it has read is read back. */
  lemma SanitizedReadsBack(parse: Parser, t: string, s: Seen, k: nat)
    requires ReadsBack(parse) && parse(t).Some?
    requires |Relabel(Project(parse(t).value, Root), "", s).seen.numbers| < HALF_EXACT
    ensures var r := Relabel(Project(parse(t).value, Root), "", s).value;
            parse(Encode(r) + Newlines(k)) == Some(r)
  {
    var v := parse(t).value;
    var p := Project(v, Root);
    var r := Relabel(p, "", s).value;
    RelabelIssued(p, "", s);
    ProjectDepth(v, Root);
    RelabelDepth(p, "", s);
    assert parse(t) != Some(Null);
    assert r != Null;
  }

  // ---------- a reader that meets the assumption ----------

  function ReadDocument(text: string): Option<Json> {
    match ReadValue(text)
    case None => None
    case Some(r) =>
      if r.value != Null && forall i :: 0 <= i < |r.rest| ==> r.rest[i] == '\n' then Some(r.value) else None
  }

  lemma RejectsMark(rest: string)
    ensures ReadValue("<redacted>" + rest).None?
  {
    var s := "<redacted>" + rest;
    assert s[0] == '<';
    assert NumberLength(s) == 0;
  }

  lemma DoneIsNotJson()
    ensures ReadValue("[DONE]").None?
  {
    var inner := "[DONE]"[1..];
    assert inner == "DONE]";
    assert NumberLength(inner) == 0;
    assert ReadValue(inner).None?;
    assert ReadItems(inner).None?;
  }

  lemma {:induction false} IssuedEncodable(v: Json)
    requires Issued(v)
    ensures Encodable(v)
  {
    match v
    case Num(n) =>
      var k: nat :| 1 <= k < HALF_EXACT && n == Placeholder(Class(n), k);
      PlaceholderWritable(Class(n), k);
    case Arr(items) =>
      forall i | 0 <= i < |items| ensures Encodable(items[i]) { IssuedEncodable(items[i]); }
    case Obj(pairs) =>
      forall i | 0 <= i < |pairs| ensures Encodable(pairs[i].value) { IssuedEncodable(pairs[i].value); }
    case _ =>
  }

  /** The assumption can be met. */
  lemma ReaderReadsBack()
    ensures ReadsBack(ReadDocument)
  {
    forall v, k: nat | Issued(v) && v != Null ensures ReadDocument(Encode(v) + Newlines(k)) == Some(v) {
      IssuedEncodable(v);
      ReadEncoded(v, Newlines(k));
    }
    forall k: nat ensures ReadDocument("<redacted>" + Newlines(k)) == None {
      RejectsMark(Newlines(k));
    }
    DoneIsNotJson();
  }
}
