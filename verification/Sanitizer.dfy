/** The evidence sanitizer's JSON half (scripts/sanitize_nim_capture.py).

    `Project` says what the fixture contract lets through, `Relabel` what becomes of it, and
    `Protected` is the program's own statement of what a reader may still observe. The two
    dictionaries the program threads through a traversal are abstracted by the order in which
    their keys were first seen. */
module Sanitizer {
  import opened Collections
  import opened JsonValues

  const KNOWN_FINISH: set<string> :=
    {"content_filter", "function_call", "length", "stop", "tool_calls"}

  // ---------- projection ----------

  datatype Context = Root | Choice | Message | Delta | Tool | Function | Usage | Error

  predicate Allowed(name: string, context: Context) {
    match context
    case Root => name in {"usage", "choices", "error"}
    case Choice => name in {"index", "finish_reason", "message", "delta"}
    case Message => name == "tool_calls"
    case Delta => name == "tool_calls"
    case Tool => name in {"index", "id", "tool_call_id", "type", "function"}
    case Function => name in {"name", "arguments"}
    case Usage => true
    case Error => true
  }

  function Child(name: string, context: Context): Context {
    if name == "usage" then Usage
    else if name == "choices" then Choice
    else if name == "error" then Error
    else if name == "message" then Message
    else if name == "delta" then Delta
    else if name == "tool_calls" then Tool
    else if name == "function" then Function
    else context
  }

  /** The part of a value the fixture contract permits, contents unchanged. */
  function Project(v: Json, context: Context): Json
    decreases v, 1
  {
    match v
    case Obj(pairs) => if context == Error then Obj([]) else Obj(ProjectPairs(pairs, context))
    case Arr(items) => Arr(ProjectItems(items, context))
    case _ => v
  }

  function ProjectItems(items: seq<Json>, context: Context): (r: seq<Json>)
    decreases items, 0
  {
    if items == [] then []
    else ProjectItems(items[..|items| - 1], context) + [Project(items[|items| - 1], context)]
  }

  function ProjectPairs(pairs: seq<Member>, context: Context): seq<Member>
    decreases pairs, 0
  {
    if pairs == [] then []
    else
      var init := ProjectPairs(pairs[..|pairs| - 1], context);
      var last := pairs[|pairs| - 1];
      if Allowed(last.name, context)
      then init + [Member(last.name, Project(last.value, Child(last.name, context)))]
      else init
  }

  /** Every number of the value is finite. */
  predicate AllFinite(v: Json) {
    match v
    case Num(n) => Finite(n)
    case Arr(items) => forall i :: 0 <= i < |items| ==> AllFinite(items[i])
    case Obj(pairs) => forall i :: 0 <= i < |pairs| ==> AllFinite(pairs[i].value)
    case _ => true
  }

  // ---------- first-seen order ----------

  /** The keys of the two dictionaries, in insertion order. */
  datatype Seen = Seen(numbers: seq<Number>, ids: seq<string>)

  const NOTHING := Seen([], [])

  function Note<T(==)>(s: seq<T>, x: T): seq<T> {
    if x in s then s else s + [x]
  }

  /** The position of the first occurrence, or the length. */
  function IndexOf<T(==)>(s: seq<T>, x: T): (i: nat)
    ensures i <= |s|
    ensures x in s ==> i < |s| && s[i] == x
    ensures x !in s ==> i == |s|
    ensures forall j :: 0 <= j < i ==> s[j] != x
  {
    if s == [] then 0 else if s[0] == x then 0 else 1 + IndexOf(s[1..], x)
  }

  function CountClass(s: seq<Number>, c: NumberClass): nat {
    if s == [] then 0
    else CountClass(s[..|s| - 1], c) + if Class(s[|s| - 1]) == c then 1 else 0
  }

  /** The replacement for the `position`-th distinct number of a class. */
  function Placeholder(c: NumberClass, position: nat): Number {
    match c.sign
    case Zero => if c.integer then Int(0) else Float(Zero, "0.0")
    case Positive => if c.integer then Int(position) else Float(Positive, Decimal(position) + ".5")
    case Negative => if c.integer then Int(-(position as int)) else Float(Negative, "-" + Decimal(position) + ".5")
  }

  /** The replacement of `n` when the numbers of `s` were seen before, in that order. */
  function NumberName(s: seq<Number>, n: Number): Number {
    Placeholder(Class(n), 1 + CountClass(s[..IndexOf(s, n)], Class(n)))
  }

  function IdName(i: nat): string {
    "id-" + Decimal(i + 1)
  }

  predicate IsIdKey(key: string) {
    key == "id" || key == "tool_call_id"
  }

  function FinishName(s: string): string {
    if s in KNOWN_FINISH then s else "__other__"
  }

  datatype Threaded<T> = Threaded(value: T, seen: Seen)

  // ---------- what the sanitizer writes ----------

  /** Replace every number and identifier by its placeholder and every other string by a mark.
      `key` is the name under which the value stands, "" for an array item or the root. */
  function Relabel(v: Json, key: string, seen: Seen): (r: Threaded<Json>)
    ensures seen.numbers <= r.seen.numbers && seen.ids <= r.seen.ids
    ensures Distinct(seen.numbers) ==> Distinct(r.seen.numbers)
    decreases v, 1
  {
    match v
    case Null => Threaded(v, seen)
    case Bool(_) => Threaded(v, seen)
    case Num(n) =>
      Threaded(Num(NumberName(seen.numbers, n)), seen.(numbers := Note(seen.numbers, n)))
    case Str(s) =>
      if key == "finish_reason" then Threaded(Str(FinishName(s)), seen)
      else if IsIdKey(key) then
        Threaded(Str(IdName(IndexOf(seen.ids, s))), seen.(ids := Note(seen.ids, s)))
      else Threaded(Str("<redacted>"), seen)
    case Arr(items) =>
      var r := RelabelItems(items, seen);
      Threaded(Arr(r.value), r.seen)
    case Obj(pairs) =>
      var r := RelabelPairs(pairs, seen);
      Threaded(Obj(r.value), r.seen)
  }

  function RelabelItems(items: seq<Json>, seen: Seen): (r: Threaded<seq<Json>>)
    ensures |r.value| == |items|
    ensures seen.numbers <= r.seen.numbers && seen.ids <= r.seen.ids
    ensures Distinct(seen.numbers) ==> Distinct(r.seen.numbers)
    decreases items, 0
  {
    if items == [] then Threaded([], seen)
    else
      var init := RelabelItems(items[..|items| - 1], seen);
      var last := Relabel(items[|items| - 1], "", init.seen);
      Threaded(init.value + [last.value], last.seen)
  }

  function RelabelPairs(pairs: seq<Member>, seen: Seen): (r: Threaded<seq<Member>>)
    ensures |r.value| == |pairs|
    ensures seen.numbers <= r.seen.numbers && seen.ids <= r.seen.ids
    ensures Distinct(seen.numbers) ==> Distinct(r.seen.numbers)
    decreases pairs, 0
  {
    if pairs == [] then Threaded([], seen)
    else
      var init := RelabelPairs(pairs[..|pairs| - 1], seen);
      var last := pairs[|pairs| - 1];
      var item := Relabel(last.value, last.name, init.seen);
      Threaded(init.value + [Member(last.name, item.value)], item.seen)
  }

  // ---------- what a reader may observe ----------

  datatype Shape =
    | NullShape
    | BoolShape
    | NumberShape(kind: NumberClass, reference: nat)
    | FinishShape(reason: string)
    | IdentifierShape(reference: nat)
    | RedactedShape
    | ArrayShape(items: seq<Shape>)
    | ObjectShape(pairs: seq<(string, Shape)>)

  /** `protected_json`: the content-free shape, with its own pair of dictionaries. */
  function Protected(v: Json, key: string, seen: Seen): (r: Threaded<Shape>)
    ensures r.seen == Relabel(v, key, seen).seen
    decreases v, 1
  {
    match v
    case Null => Threaded(NullShape, seen)
    case Bool(_) => Threaded(BoolShape, seen)
    case Num(n) =>
      Threaded(NumberShape(Class(n), IndexOf(seen.numbers, n)),
               seen.(numbers := Note(seen.numbers, n)))
    case Str(s) =>
      if key == "finish_reason" then Threaded(FinishShape(FinishName(s)), seen)
      else if IsIdKey(key) then
        Threaded(IdentifierShape(IndexOf(seen.ids, s)), seen.(ids := Note(seen.ids, s)))
      else Threaded(RedactedShape, seen)
    case Arr(items) =>
      var r := ProtectedItems(items, seen);
      Threaded(ArrayShape(r.value), r.seen)
    case Obj(pairs) =>
      var r := ProtectedPairs(pairs, seen);
      Threaded(ObjectShape(r.value), r.seen)
  }

  function ProtectedItems(items: seq<Json>, seen: Seen): (r: Threaded<seq<Shape>>)
    ensures |r.value| == |items|
    ensures r.seen == RelabelItems(items, seen).seen
    decreases items, 0
  {
    if items == [] then Threaded([], seen)
    else
      var init := ProtectedItems(items[..|items| - 1], seen);
      var last := Protected(items[|items| - 1], "", init.seen);
      Threaded(init.value + [last.value], last.seen)
  }

  function ProtectedPairs(pairs: seq<Member>, seen: Seen): (r: Threaded<seq<(string, Shape)>>)
    ensures |r.value| == |pairs|
    ensures r.seen == RelabelPairs(pairs, seen).seen
    decreases pairs, 0
  {
    if pairs == [] then Threaded([], seen)
    else
      var init := ProtectedPairs(pairs[..|pairs| - 1], seen);
      var last := pairs[|pairs| - 1];
      var item := Protected(last.value, last.name, init.seen);
      Threaded(init.value + [(last.name, item.value)], item.seen)
  }
}
