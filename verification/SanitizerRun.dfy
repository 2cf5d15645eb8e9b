/** `sanitize_json_value` as it runs: one traversal that projects and renames at once, updating
    two shared dictionaries. It computes `Relabel` of `Project`, or fails exactly when a number
    that passes the projection is not finite. */
module SanitizerRun {
  import opened Collections
  import opened Wrappers
  import opened JsonValues
  import opened Sanitizer
  import opened SanitizerShape

  datatype SanitizeError = CaptureBodyInvalid

  function OfClass(s: set<Number>, c: NumberClass): set<Number> {
    set n | n in s && Class(n) == c
  }

  function Elements<T(==)>(s: seq<T>): set<T> {
    set x | x in s
  }

  lemma OfClassAdd(s: set<Number>, n: Number, c: NumberClass)
    requires n !in s
    ensures |OfClass(s + {n}, c)| == |OfClass(s, c)| + if Class(n) == c then 1 else 0
  {
    if Class(n) == c {
      assert OfClass(s + {n}, c) == OfClass(s, c) + {n};
    } else {
      assert OfClass(s + {n}, c) == OfClass(s, c);
    }
  }

  lemma {:induction false} CountIsCardinality(s: seq<Number>, c: NumberClass)
    requires Distinct(s)
    ensures |OfClass(Elements(s), c)| == CountClass(s, c)
  {
    if s != [] {
      var init, last := s[..|s| - 1], s[|s| - 1];
      assert s == init + [last];
      assert Elements(s) == Elements(init) + {last};
      CountIsCardinality(init, c);
      OfClassAdd(Elements(init), last, c);
    }
  }

  /** The dictionary holds the name of each number seen, as it was issued. */
  ghost predicate Named(m: map<Number, Number>, s: seq<Number>) {
    Distinct(s) && m.Keys == Elements(s) && forall n :: n in s ==> m[n] == NumberName(s, n)
  }

  lemma ElementsSnoc<T>(s: seq<T>, x: T)
    ensures Elements(s + [x]) == Elements(s) + {x}
  {
  }

  lemma NextPosition(m: map<Number, Number>, s: seq<Number>, n: Number)
    requires Named(m, s) && n !in s
    ensures Placeholder(Class(n), 1 + |OfClass(m.Keys, Class(n))|) == NumberName(s, n)
  {
    CountIsCardinality(s, Class(n));
    assert s[..IndexOf(s, n)] == s;
  }

  lemma NamedExtend(m: map<Number, Number>, s: seq<Number>, n: Number)
    requires Named(m, s) && n !in s
    ensures Named(m[n := NumberName(s, n)], s + [n])
  {
    ElementsSnoc(s, n);
    NamesAfterNote(s, n);
    var m' := m[n := NumberName(s, n)];
    assert m'.Keys == m.Keys + {n};
    assert Note(s, n) == s + [n];
    forall k | k in s + [n] ensures m'[k] == NumberName(s + [n], k) {
      assert k in s || k == n;
      assert k in s ==> k in Elements(s);
    }
  }

  lemma KnownNumber(m: map<Number, Number>, s: seq<Number>, n: Number)
    requires Named(m, s) && n in m
    ensures n in s && m[n] == NumberName(s, n) && Note(s, n) == s
  {
    assert n in Elements(s);
  }

  /** A number not in the dictionary: what is computed for it, and the dictionary with it. */
  lemma NewNumber(m: map<Number, Number>, s: seq<Number>, n: Number)
    requires Named(m, s) && n !in m
    ensures Note(s, n) == s + [n]
    ensures var name := Placeholder(Class(n), 1 + |OfClass(m.Keys, Class(n))|);
            name == NumberName(s, n) && Named(m[n := name], Note(s, n))
  {
    assert n !in Elements(s);
    NextPosition(m, s, n);
    NamedExtend(m, s, n);
  }

  ghost predicate Identified(m: map<string, string>, s: seq<string>) {
    m.Keys == Elements(s) && |m| == |s| && forall id :: id in s ==> m[id] == IdName(IndexOf(s, id))
  }

  lemma IdentifiedExtend(m: map<string, string>, s: seq<string>, id: string)
    requires Identified(m, s) && id !in s
    ensures Identified(m[id := IdName(|s|)], s + [id])
  {
    ElementsSnoc(s, id);
    assert id !in m.Keys by { assert id !in Elements(s); }
    KeyAdded(m, id, IdName(|s|));
    forall k | k in s + [id] ensures m[id := IdName(|s|)][k] == IdName(IndexOf(s + [id], k)) {
      IdentifierAt(m, s, id, k);
    }
  }

  lemma KeyAdded(m: map<string, string>, id: string, name: string)
    requires id !in m.Keys
    ensures m[id := name].Keys == m.Keys + {id} && |m[id := name]| == |m| + 1
  {
    assert m[id := name].Keys == m.Keys + {id};
  }

  lemma IdentifierAt(m: map<string, string>, s: seq<string>, id: string, k: string)
    requires Identified(m, s) && id !in s && k in s + [id]
    ensures k in m[id := IdName(|s|)] && m[id := IdName(|s|)][k] == IdName(IndexOf(s + [id], k))
  {
    if k in s {
      assert k in Elements(s);
      IndexOfPrefix(s, [id], k);
    } else {
      IndexOfNew(s, id);
    }
  }

  lemma IndexOfNew(s: seq<string>, id: string)
    requires id !in s
    ensures IndexOf(s + [id], id) == |s|
  {
    assert (s + [id])[|s|] == id;
  }

  class Dictionaries {
    var numbers: map<Number, Number>
    var identifiers: map<string, string>
    ghost var seen: Seen

    ghost predicate Valid()
      reads this
    {
      Named(numbers, seen.numbers) && Identified(identifiers, seen.ids)
    }

    constructor ()
      ensures Valid() && seen == NOTHING
    {
      numbers, identifiers, seen := map[], map[], NOTHING;
    }

    method NumberPlaceholder(value: Number) returns (r: Result<Number, SanitizeError>)
      requires Valid()
      modifies this
      ensures r.Err? <==> !Finite(value)
      ensures r.Ok? ==> Valid() && r.value == NumberName(old(seen).numbers, value)
      ensures r.Ok? ==> seen == old(seen).(numbers := Note(old(seen).numbers, value))
    {
      if !Finite(value) {
        return Err(CaptureBodyInvalid);
      }
      if value in numbers {
        KnownNumber(numbers, seen.numbers, value);
        return Ok(numbers[value]);
      }
      var replacement := IssueNumber(value);
      return Ok(replacement);
    }

    /** The next position of its class, for a number seen for the first time. */
    method IssueNumber(value: Number) returns (replacement: Number)
      requires Valid() && value !in numbers
      modifies `numbers, `seen
      ensures Valid() && replacement == NumberName(old(seen).numbers, value)
      ensures seen == old(seen).(numbers := Note(old(seen).numbers, value))
    {
      var position := 1 + |OfClass(numbers.Keys, Class(value))|;
      NewNumber(numbers, seen.numbers, value);
      replacement := Placeholder(Class(value), position);
      numbers := numbers[value := replacement];
      seen := seen.(numbers := Note(seen.numbers, value));
    }

    method IdentifierPlaceholder(value: string) returns (r: string)
      requires Valid()
      modifies this
      ensures Valid() && r == IdName(IndexOf(old(seen).ids, value))
      ensures seen == old(seen).(ids := Note(old(seen).ids, value))
    {
      if value in identifiers {
        assert value in Elements(seen.ids);
        return identifiers[value];
      }
      assert value !in seen.ids by { assert value !in Elements(seen.ids); }
      IdentifiedExtend(identifiers, seen.ids, value);
      r := "id-" + Decimal(|identifiers| + 1);
      identifiers := identifiers[value := r];
      seen := seen.(ids := seen.ids + [value]);
    }
  }

  // ---------- one step of a traversal ----------

  lemma ProjectItemsStep(items: seq<Json>, i: nat, context: Context)
    requires i < |items|
    ensures ProjectItems(items[..i + 1], context) == ProjectItems(items[..i], context) + [Project(items[i], context)]
  {
    assert items[..i + 1][..i] == items[..i];
  }

  lemma ProjectPairsStep(pairs: seq<Member>, i: nat, context: Context)
    requires i < |pairs|
    ensures ProjectPairs(pairs[..i + 1], context) ==
            ProjectPairs(pairs[..i], context) +
            if Allowed(pairs[i].name, context)
            then [Member(pairs[i].name, Project(pairs[i].value, Child(pairs[i].name, context)))] else []
  {
    assert pairs[..i + 1][..i] == pairs[..i];
  }

  lemma {:induction false} ProjectItemsPrefix(items: seq<Json>, context: Context, k: nat)
    requires k <= |items|
    ensures ProjectItems(items[..k], context) <= ProjectItems(items, context)
    decreases |items|
  {
    if k == |items| {
      assert items[..k] == items;
    } else {
      assert items[..|items| - 1][..k] == items[..k];
      ProjectItemsPrefix(items[..|items| - 1], context, k);
    }
  }

  lemma {:induction false} ProjectPairsPrefix(pairs: seq<Member>, context: Context, k: nat)
    requires k <= |pairs|
    ensures ProjectPairs(pairs[..k], context) <= ProjectPairs(pairs, context)
    decreases |pairs|
  {
    if k == |pairs| {
      assert pairs[..k] == pairs;
    } else {
      assert pairs[..|pairs| - 1][..k] == pairs[..k];
      ProjectPairsPrefix(pairs[..|pairs| - 1], context, k);
    }
  }

  lemma RelabelItemsStep(items: seq<Json>, item: Json, s: Seen)
    ensures var init := RelabelItems(items, s);
            var last := Relabel(item, "", init.seen);
            RelabelItems(items + [item], s) == Threaded(init.value + [last.value], last.seen)
    ensures AllFinite(Arr(items + [item])) <==> AllFinite(Arr(items)) && AllFinite(item)
  {
    var both := items + [item];
    assert both[..|items|] == items && both[|items|] == item;
    assert forall i :: 0 <= i < |items| ==> both[i] == items[i];
  }

  lemma RelabelPairsStep(pairs: seq<Member>, last: Member, s: Seen)
    ensures var init := RelabelPairs(pairs, s);
            var item := Relabel(last.value, last.name, init.seen);
            RelabelPairs(pairs + [last], s) == Threaded(init.value + [Member(last.name, item.value)], item.seen)
    ensures AllFinite(Obj(pairs + [last])) <==> AllFinite(Obj(pairs)) && AllFinite(last.value)
  {
    var both := pairs + [last];
    assert both[..|pairs|] == pairs && both[|pairs|] == last;
    assert forall i :: 0 <= i < |pairs| ==> both[i] == pairs[i];
  }

  lemma NotFiniteItems(a: seq<Json>, b: seq<Json>)
    requires a <= b && !AllFinite(Arr(a))
    ensures !AllFinite(Arr(b))
  {
    var i :| 0 <= i < |a| && !AllFinite(a[i]);
    assert b[i] == a[i];
  }

  lemma NotFinitePairs(a: seq<Member>, b: seq<Member>)
    requires a <= b && !AllFinite(Obj(a))
    ensures !AllFinite(Obj(b))
  {
    var i :| 0 <= i < |a| && !AllFinite(a[i].value);
    assert b[i] == a[i];
  }

  // ---------- the traversal ----------

  method SanitizeJsonValue(value: Json, key: string, d: Dictionaries, context: Context)
    returns (r: Result<Json, SanitizeError>)
    requires d.Valid()
    modifies d
    ensures r.Err? <==> !AllFinite(Project(value, context))
    ensures r.Ok? ==> d.Valid() && Threaded(r.value, d.seen) == Relabel(Project(value, context), key, old(d.seen))
    decreases value, 1
  {
    match value
    case Obj(pairs) =>
      if context == Error {
        return Ok(Obj([]));
      }
      var projected := SanitizePairs(pairs, d, context);
      r := if projected.Ok? then Ok(Obj(projected.value)) else Err(projected.error);
    case Arr(items) =>
      var sanitized := SanitizeItems(items, d, context);
      r := if sanitized.Ok? then Ok(Arr(sanitized.value)) else Err(sanitized.error);
    case Null => r := Ok(value);
    case Bool(_) => r := Ok(value);
    case Num(n) =>
      var placeholder := d.NumberPlaceholder(n);
      r := if placeholder.Ok? then Ok(Num(placeholder.value)) else Err(placeholder.error);
    case Str(s) =>
      if key == "finish_reason" {
        r := Ok(Str(if s in KNOWN_FINISH then s else "__other__"));
      } else if key in {"id", "tool_call_id"} {
        var placeholder := d.IdentifierPlaceholder(s);
        r := Ok(Str(placeholder));
      } else {
        r := Ok(Str("<redacted>"));
      }
  }

  method SanitizeItems(items: seq<Json>, d: Dictionaries, context: Context)
    returns (r: Result<seq<Json>, SanitizeError>)
    requires d.Valid()
    modifies d
    ensures r.Err? <==> !AllFinite(Arr(ProjectItems(items, context)))
    ensures r.Ok? ==> d.Valid()
    ensures r.Ok? ==> Threaded(r.value, d.seen) == RelabelItems(ProjectItems(items, context), old(d.seen))
    decreases items, 0
  {
    var sanitized: seq<Json> := [];
    ghost var s0, kept := d.seen, [];
    for i := 0 to |items|
      invariant kept == ProjectItems(items[..i], context) && AllFinite(Arr(kept))
      invariant d.Valid() && Threaded(sanitized, d.seen) == RelabelItems(kept, s0)
    {
      ghost var p := Project(items[i], context);
      ProjectItemsStep(items, i, context);
      RelabelItemsStep(kept, p, s0);
      var item := SanitizeJsonValue(items[i], "", d, context);
      if item.Err? {
        ProjectItemsPrefix(items, context, i + 1);
        NotFiniteItems(kept + [p], ProjectItems(items, context));
        return Err(item.error);
      }
      sanitized, kept := sanitized + [item.value], kept + [p];
    }
    assert items[..|items|] == items;
    r := Ok(sanitized);
  }

  method SanitizePairs(pairs: seq<Member>, d: Dictionaries, context: Context)
    returns (r: Result<seq<Member>, SanitizeError>)
    requires d.Valid()
    modifies d
    ensures r.Err? <==> !AllFinite(Obj(ProjectPairs(pairs, context)))
    ensures r.Ok? ==> d.Valid()
    ensures r.Ok? ==> Threaded(r.value, d.seen) == RelabelPairs(ProjectPairs(pairs, context), old(d.seen))
    decreases pairs, 0
  {
    var projected: seq<Member> := [];
    ghost var s0, kept := d.seen, [];
    for i := 0 to |pairs|
      invariant kept == ProjectPairs(pairs[..i], context) && AllFinite(Obj(kept))
      invariant d.Valid() && Threaded(projected, d.seen) == RelabelPairs(kept, s0)
    {
      var name, child := pairs[i].name, Child(pairs[i].name, context);
      ProjectPairsStep(pairs, i, context);
      if Allowed(name, context) {
        ghost var p := Member(name, Project(pairs[i].value, child));
        RelabelPairsStep(kept, p, s0);
        var item := SanitizeJsonValue(pairs[i].value, name, d, child);
        if item.Err? {
          ProjectPairsPrefix(pairs, context, i + 1);
          NotFinitePairs(kept + [p], ProjectPairs(pairs, context));
          return Err(item.error);
        }
        projected, kept := projected + [Member(name, item.value)], kept + [p];
      }
    }
    assert pairs[..|pairs|] == pairs;
    r := Ok(projected);
  }
}
