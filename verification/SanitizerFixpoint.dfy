/** Sanitizing a sanitized value changes nothing: placeholders are issued again in the order in
    which they first appear, and projection has nothing left to drop. */
module SanitizerFixpoint {
  import opened Collections
  import opened JsonValues
  import opened Sanitizer
  import opened SanitizerShape

  /** `q` is what a second pass has seen when the first has seen `s`. */
  ghost predicate Reissued(s: Seen, q: Seen) {
    && Distinct(q.numbers)
    && (forall n :: n in s.numbers ==> NumberName(s.numbers, n) in q.numbers)
    && (forall m :: m in q.numbers ==> NumberName(q.numbers, m) == m)
    && (forall c: NumberClass :: c.sign != Zero ==> CountClass(q.numbers, c) == CountClass(s.numbers, c))
    && Distinct(q.ids)
    && |q.ids| == |s.ids|
    && forall i :: 0 <= i < |q.ids| ==> q.ids[i] == IdName(i)
  }

  /** A number first seen now gets a placeholder that no earlier one got. */
  lemma NotReissued(s: Seen, q: Seen, n: Number)
    requires Reissued(s, q) && n !in s.numbers && Class(n).sign != Zero
    ensures NumberName(s.numbers, n) !in q.numbers
    ensures NumberName(q.numbers, NumberName(s.numbers, n)) == NumberName(s.numbers, n)
  {
    var m, c, qn := NumberName(s.numbers, n), Class(n), q.numbers;
    assert s.numbers[..IndexOf(s.numbers, n)] == s.numbers;
    NameClass(s.numbers, n);
    forall j | 0 <= j < |qn| ensures qn[j] != m {
      if qn[j] == m {
        IndexOfDistinct(qn, j);
        assert NumberName(qn, qn[j]) == qn[j];
        PlaceholderInjective(c, 1 + CountClass(qn[..j], c), c, 1 + CountClass(qn, c));
        CountAt(qn, j);
      }
    }
    assert qn[..IndexOf(qn, m)] == qn;
  }

  lemma ZeroName(s: seq<Number>, q: seq<Number>, n: Number)
    requires Class(n).sign == Zero
    ensures NumberName(q, NumberName(s, n)) == NumberName(s, n)
  {
    NameClass(s, n);
  }

  lemma CountsKept(s: Seen, q: Seen, n: Number)
    requires Reissued(s, q) && n !in s.numbers
    requires Class(n).sign != Zero ==> NumberName(s.numbers, n) !in q.numbers
    ensures forall c: NumberClass :: c.sign != Zero ==>
              CountClass(Note(q.numbers, NumberName(s.numbers, n)), c) == CountClass(Note(s.numbers, n), c)
  {
    var m := NumberName(s.numbers, n);
    NameClass(s.numbers, n);
    forall c: NumberClass | c.sign != Zero
      ensures CountClass(Note(q.numbers, m), c) == CountClass(Note(s.numbers, n), c)
    {
      CountNote(s.numbers, n, c);
      CountNote(q.numbers, m, c);
    }
  }

  lemma ReissuedNumber(s: Seen, q: Seen, n: Number)
    requires Reissued(s, q)
    ensures var m := NumberName(s.numbers, n);
            NumberName(q.numbers, m) == m &&
            Reissued(s.(numbers := Note(s.numbers, n)), q.(numbers := Note(q.numbers, m)))
  {
    if n !in s.numbers {
      NewReissued(s, q, n, NumberName(s.numbers, n));
    }
  }

  lemma NewReissued(s: Seen, q: Seen, n: Number, m: Number)
    requires Reissued(s, q) && n !in s.numbers && m == NumberName(s.numbers, n)
    ensures NumberName(q.numbers, m) == m
    ensures Reissued(s.(numbers := Note(s.numbers, n)), q.(numbers := Note(q.numbers, m)))
  {
    if Class(n).sign == Zero { ZeroName(s.numbers, q.numbers, n); } else { NotReissued(s, q, n); }
    NameClass(s.numbers, n);
    NamesAfterNote(s.numbers, n);
    NamesAfterNote(q.numbers, m);
    CountsKept(s, q, n);
  }

  lemma ReissuedId(s: Seen, q: Seen, id: string)
    requires Reissued(s, q)
    ensures var k := IdName(IndexOf(s.ids, id));
            IndexOf(q.ids, k) == IndexOf(s.ids, id) &&
            Reissued(s.(ids := Note(s.ids, id)), q.(ids := Note(q.ids, k)))
  {
    var i := IndexOf(s.ids, id);
    if id in s.ids {
      IndexOfDistinct(q.ids, i);
    } else {
      forall j | 0 <= j < |q.ids| ensures q.ids[j] != IdName(i) {
        if q.ids[j] == IdName(i) { IdNameInjective(i, j); }
      }
    }
  }

  lemma {:induction false} RelabelAgain(v: Json, key: string, s: Seen, q: Seen)
    requires Reissued(s, q)
    ensures var r := Relabel(v, key, s);
            Relabel(r.value, key, q).value == r.value && Reissued(r.seen, Relabel(r.value, key, q).seen)
    decreases v, 1
  {
    match v
    case Num(n) => ReissuedNumber(s, q, n);
    case Str(id) => if key != "finish_reason" && IsIdKey(key) { ReissuedId(s, q, id); }
    case Arr(items) => RelabelItemsAgain(items, s, q);
    case Obj(pairs) => RelabelPairsAgain(pairs, s, q);
    case _ =>
  }

  lemma {:induction false} RelabelItemsAgain(items: seq<Json>, s: Seen, q: Seen)
    requires Reissued(s, q)
    ensures var r := RelabelItems(items, s);
            RelabelItems(r.value, q).value == r.value && Reissued(r.seen, RelabelItems(r.value, q).seen)
    decreases items, 0
  {
    if items != [] {
      var k := |items| - 1;
      var init := RelabelItems(items[..k], s);
      RelabelItemsAgain(items[..k], s, q);
      RelabelAgain(items[k], "", init.seen, RelabelItems(init.value, q).seen);
      assert RelabelItems(items, s).value[..k] == init.value;
    }
  }

  lemma {:induction false} RelabelPairsAgain(pairs: seq<Member>, s: Seen, q: Seen)
    requires Reissued(s, q)
    ensures var r := RelabelPairs(pairs, s);
            RelabelPairs(r.value, q).value == r.value && Reissued(r.seen, RelabelPairs(r.value, q).seen)
    decreases pairs, 0
  {
    if pairs != [] {
      var k := |pairs| - 1;
      var init := RelabelPairs(pairs[..k], s);
      RelabelPairsAgain(pairs[..k], s, q);
      RelabelAgain(pairs[k].value, pairs[k].name, init.seen, RelabelPairs(init.value, q).seen);
      assert RelabelPairs(pairs, s).value[..k] == init.value;
    }
  }

  // ---------- projection has nothing left to drop ----------

  /** Every pair of the value is one its context permits. */
  predicate Permitted(v: Json, context: Context) {
    match v
    case Obj(pairs) =>
      if context == Error then pairs == []
      else forall i :: 0 <= i < |pairs| ==>
             Allowed(pairs[i].name, context) && Permitted(pairs[i].value, Child(pairs[i].name, context))
    case Arr(items) => forall i :: 0 <= i < |items| ==> Permitted(items[i], context)
    case _ => true
  }

  lemma {:induction false} ProjectPermits(v: Json, context: Context)
    ensures Permitted(Project(v, context), context)
    decreases v, 1
  {
    match v
    case Arr(items) => ProjectItemsPermits(items, context);
    case Obj(pairs) => if context != Error { ProjectPairsPermits(pairs, context); }
    case _ =>
  }

  lemma {:induction false} ProjectItemsPermits(items: seq<Json>, context: Context)
    ensures Permitted(Arr(ProjectItems(items, context)), context)
    decreases items, 0
  {
    if items != [] {
      ProjectItemsPermits(items[..|items| - 1], context);
      ProjectPermits(items[|items| - 1], context);
    }
  }

  lemma {:induction false} ProjectPairsPermits(pairs: seq<Member>, context: Context)
    requires context != Error
    ensures Permitted(Obj(ProjectPairs(pairs, context)), context)
    decreases pairs, 0
  {
    if pairs != [] {
      var last := pairs[|pairs| - 1];
      ProjectPairsPermits(pairs[..|pairs| - 1], context);
      ProjectPermits(last.value, Child(last.name, context));
    }
  }

  lemma {:induction false} ProjectFixed(v: Json, context: Context)
    requires Permitted(v, context)
    ensures Project(v, context) == v
    decreases v, 1
  {
    match v
    case Arr(items) => ProjectItemsFixed(items, context);
    case Obj(pairs) => if context != Error { ProjectPairsFixed(pairs, context); }
    case _ =>
  }

  lemma {:induction false} ProjectItemsFixed(items: seq<Json>, context: Context)
    requires Permitted(Arr(items), context)
    ensures ProjectItems(items, context) == items
    decreases items, 0
  {
    if items != [] {
      var init, last := items[..|items| - 1], items[|items| - 1];
      PermittedParts(init, last, items, context);
      ProjectItemsFixed(init, context);
      ProjectFixed(last, context);
    }
  }

  lemma PermittedParts(init: seq<Json>, last: Json, items: seq<Json>, context: Context)
    requires items == init + [last] && Permitted(Arr(items), context)
    ensures Permitted(Arr(init), context) && Permitted(last, context)
  {
    assert items[|init|] == last && forall i :: 0 <= i < |init| ==> init[i] == items[i];
  }

  lemma {:induction false} ProjectPairsFixed(pairs: seq<Member>, context: Context)
    requires context != Error && Permitted(Obj(pairs), context)
    ensures ProjectPairs(pairs, context) == pairs
    decreases pairs, 0
  {
    if pairs != [] {
      var last := pairs[|pairs| - 1];
      ProjectPairsFixed(pairs[..|pairs| - 1], context);
      ProjectFixed(last.value, Child(last.name, context));
    }
  }

  lemma {:induction false} RelabelPermitted(v: Json, key: string, s: Seen, context: Context)
    requires Permitted(v, context)
    ensures Permitted(Relabel(v, key, s).value, context)
    decreases v, 1
  {
    match v
    case Arr(items) => RelabelItemsPermitted(items, s, context);
    case Obj(pairs) => if context != Error { RelabelPairsPermitted(pairs, s, context); }
    case _ =>
  }

  lemma {:induction false} RelabelItemsPermitted(items: seq<Json>, s: Seen, context: Context)
    requires Permitted(Arr(items), context)
    ensures Permitted(Arr(RelabelItems(items, s).value), context)
    decreases items, 0
  {
    if items != [] {
      var init := items[..|items| - 1];
      RelabelItemsPermitted(init, s, context);
      RelabelPermitted(items[|items| - 1], "", RelabelItems(init, s).seen, context);
    }
  }

  lemma {:induction false} RelabelPairsPermitted(pairs: seq<Member>, s: Seen, context: Context)
    requires context != Error && Permitted(Obj(pairs), context)
    ensures Permitted(Obj(RelabelPairs(pairs, s).value), context)
    decreases pairs, 0
  {
    if pairs != [] {
      var init, last := pairs[..|pairs| - 1], pairs[|pairs| - 1];
      RelabelPairsPermitted(init, s, context);
      RelabelPermitted(last.value, last.name, RelabelPairs(init, s).seen, Child(last.name, context));
    }
  }

  /** A second pass in step with the first leaves the sanitized value as it is. */
  lemma SanitizeAgain(v: Json, context: Context, s: Seen, q: Seen)
    requires Reissued(s, q)
    ensures var r := Relabel(Project(v, context), "", s);
            var again := Relabel(Project(r.value, context), "", q);
            again.value == r.value && Reissued(r.seen, again.seen)
  {
    var p := Project(v, context);
    ProjectPermits(v, context);
    RelabelPermitted(p, "", s, context);
    ProjectFixed(Relabel(p, "", s).value, context);
    RelabelAgain(p, "", s, q);
  }

  /** Sanitizing is idempotent on every value. */
  lemma SanitizeIdempotent(v: Json, context: Context)
    ensures var r := Relabel(Project(v, context), "", NOTHING).value;
            Relabel(Project(r, context), "", NOTHING).value == r
  {
    assert Reissued(NOTHING, NOTHING);
    SanitizeAgain(v, context, NOTHING, NOTHING);
  }
}
