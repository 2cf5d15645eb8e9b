/** The observer of a whole value (`protected_json` in scripts/sanitize_nim_capture.py, on the source
    as it was captured): the sanitized value has the shape of its source exactly when the contract
    permits all of the source and 0.0 and -0.0 do not both occur. */
module SanitizerObserver {
  import opened JsonValues
  import opened Sanitizer
  import opened SanitizerShape
  import opened SanitizerFixpoint

  /** How many values and pairs there are. */
  function Weight(v: Json): nat
    decreases v, 1
  {
    match v
    case Arr(items) => 1 + WeightItems(items)
    case Obj(pairs) => 1 + WeightPairs(pairs)
    case _ => 1
  }

  function WeightItems(items: seq<Json>): nat
    decreases items, 0
  {
    if items == [] then 0 else WeightItems(items[..|items| - 1]) + Weight(items[|items| - 1])
  }

  function WeightPairs(pairs: seq<Member>): nat
    decreases pairs, 0
  {
    if pairs == [] then 0 else WeightPairs(pairs[..|pairs| - 1]) + Weight(pairs[|pairs| - 1].value)
  }

  // ---------- values of one shape have one weight ----------

  lemma {:induction false} SameWeight(v: Json, w: Json, key: string, s: Seen, t: Seen)
    requires Protected(v, key, s).value == Protected(w, key, t).value
    ensures Weight(v) == Weight(w)
    decreases v, 1
  {
    match v
    case Arr(items) => SameItemsWeight(items, w.items, s, t);
    case Obj(pairs) => SamePairsWeight(pairs, w.pairs, s, t);
    case _ =>
  }

  lemma {:induction false} SameItemsWeight(a: seq<Json>, b: seq<Json>, s: Seen, t: Seen)
    requires ProtectedItems(a, s).value == ProtectedItems(b, t).value && |a| == |b|
    ensures WeightItems(a) == WeightItems(b)
    decreases a, 0
  {
    if a != [] {
      var k := |a| - 1;
      var p, q := ProtectedItems(a[..k], s), ProtectedItems(b[..k], t);
      SnocInjective(p.value, Protected(a[k], "", p.seen).value, q.value, Protected(b[k], "", q.seen).value);
      SameItemsWeight(a[..k], b[..k], s, t);
      SameWeight(a[k], b[k], "", p.seen, q.seen);
    }
  }

  lemma {:induction false} SamePairsWeight(a: seq<Member>, b: seq<Member>, s: Seen, t: Seen)
    requires ProtectedPairs(a, s).value == ProtectedPairs(b, t).value && |a| == |b|
    ensures WeightPairs(a) == WeightPairs(b)
    decreases a, 0
  {
    if a != [] {
      var k := |a| - 1;
      var p, q := ProtectedPairs(a[..k], s), ProtectedPairs(b[..k], t);
      SnocInjective(p.value, (a[k].name, Protected(a[k].value, a[k].name, p.seen).value),
                    q.value, (b[k].name, Protected(b[k].value, b[k].name, q.seen).value));
      SamePairsWeight(a[..k], b[..k], s, t);
      SameWeight(a[k].value, b[k].value, a[k].name, p.seen, q.seen);
    }
  }

  lemma {:induction false} RelabelWeight(v: Json, key: string, s: Seen)
    ensures Weight(Relabel(v, key, s).value) == Weight(v)
    decreases v, 1
  {
    match v
    case Arr(items) => RelabelItemsWeight(items, s);
    case Obj(pairs) => RelabelPairsWeight(pairs, s);
    case _ =>
  }

  lemma {:induction false} RelabelItemsWeight(items: seq<Json>, s: Seen)
    ensures WeightItems(RelabelItems(items, s).value) == WeightItems(items)
    decreases items, 0
  {
    if items != [] {
      var init := RelabelItems(items[..|items| - 1], s);
      RelabelItemsWeight(items[..|items| - 1], s);
      RelabelWeight(items[|items| - 1], "", init.seen);
      assert RelabelItems(items, s).value[..|items| - 1] == init.value;
    }
  }

  lemma {:induction false} RelabelPairsWeight(pairs: seq<Member>, s: Seen)
    ensures WeightPairs(RelabelPairs(pairs, s).value) == WeightPairs(pairs)
    decreases pairs, 0
  {
    if pairs != [] {
      var last := pairs[|pairs| - 1];
      var init := RelabelPairs(pairs[..|pairs| - 1], s);
      RelabelPairsWeight(pairs[..|pairs| - 1], s);
      RelabelWeight(last.value, last.name, init.seen);
      assert RelabelPairs(pairs, s).value[..|pairs| - 1] == init.value;
    }
  }

  // ---------- projection takes weight off exactly when it drops something ----------

  ghost predicate Lighter(before: nat, after: nat, permitted: bool) {
    after <= before && (after == before ==> permitted)
  }

  lemma {:induction false} ProjectLighter(v: Json, context: Context)
    ensures Lighter(Weight(v), Weight(Project(v, context)), Permitted(v, context))
    decreases v, 1
  {
    match v
    case Arr(items) => ProjectItemsLighter(items, context);
    case Obj(pairs) =>
      if context == Error {
        HeavyPairs(pairs);
      } else {
        ProjectPairsLighter(pairs, context);
      }
    case _ =>
  }

  lemma HeavyPairs(pairs: seq<Member>)
    ensures pairs != [] ==> WeightPairs(pairs) > 0
  {
    if pairs != [] {
      assert Weight(pairs[|pairs| - 1].value) >= 1;
    }
  }

  lemma {:induction false} ProjectItemsLighter(items: seq<Json>, context: Context)
    ensures Lighter(WeightItems(items), WeightItems(ProjectItems(items, context)), Permitted(Arr(items), context))
    decreases items, 0
  {
    if items != [] {
      var init, last := items[..|items| - 1], items[|items| - 1];
      ProjectItemsLighter(init, context);
      ProjectLighter(last, context);
      ItemsWeigh(ProjectItems(init, context), Project(last, context));
      assert items == init + [last];
      if Permitted(Arr(init), context) && Permitted(last, context) {
        PermittedSnoc(init, last, context);
      }
    }
  }

  lemma ItemsWeigh(items: seq<Json>, last: Json)
    ensures WeightItems(items + [last]) == WeightItems(items) + Weight(last)
  {
    assert (items + [last])[..|items|] == items;
  }

  lemma PermittedSnoc(init: seq<Json>, last: Json, context: Context)
    requires Permitted(Arr(init), context) && Permitted(last, context)
    ensures Permitted(Arr(init + [last]), context)
  {
  }

  lemma {:induction false} ProjectPairsLighter(pairs: seq<Member>, context: Context)
    requires context != Error
    ensures Lighter(WeightPairs(pairs), WeightPairs(ProjectPairs(pairs, context)), Permitted(Obj(pairs), context))
    decreases pairs, 0
  {
    if pairs != [] {
      var init, last := pairs[..|pairs| - 1], pairs[|pairs| - 1];
      var child := Child(last.name, context);
      ProjectPairsLighter(init, context);
      ProjectLighter(last.value, child);
      PairsWeigh(ProjectPairs(init, context), Member(last.name, Project(last.value, child)));
      assert pairs == init + [last] && Weight(last.value) >= 1;
      if Permitted(Obj(init), context) && Allowed(last.name, context) && Permitted(last.value, child) {
        PermittedPairsSnoc(init, last, context);
      }
    }
  }

  lemma PairsWeigh(pairs: seq<Member>, last: Member)
    ensures WeightPairs(pairs + [last]) == WeightPairs(pairs) + Weight(last.value)
  {
    assert (pairs + [last])[..|pairs|] == pairs;
  }

  lemma PermittedPairsSnoc(init: seq<Member>, last: Member, context: Context)
    requires context != Error && Permitted(Obj(init), context)
    requires Allowed(last.name, context) && Permitted(last.value, Child(last.name, context))
    ensures Permitted(Obj(init + [last]), context)
  {
  }

  // ---------- main results ----------

  /** Where something was dropped the shapes differ, whatever was seen before. */
  lemma DroppedShows(v: Json, context: Context, s: Seen, key: string, p: Seen, q: Seen)
    requires !Permitted(v, context)
    ensures Protected(Relabel(Project(v, context), "", s).value, key, q).value != Protected(v, key, p).value
  {
    var r := Relabel(Project(v, context), "", s).value;
    ProjectLighter(v, context);
    RelabelWeight(Project(v, context), "", s);
    if Protected(r, key, q).value == Protected(v, key, p).value {
      SameWeight(r, v, key, q, p);
    }
  }

  /** The observer sees in the sanitized value what it saw in the source exactly when every key of
      the source is one the contract permits and 0.0 and -0.0 do not both occur. */
  lemma WholeShapeKept(v: Json, context: Context)
    ensures Protected(Relabel(Project(v, context), "", NOTHING).value, "", NOTHING).value == Protected(v, "", NOTHING).value
            <==> Permitted(v, context) && !SignedZeros(v)
  {
    if Permitted(v, context) {
      ProjectFixed(v, context);
      ShapeKept(v, context);
    } else {
      DroppedShows(v, context, NOTHING, "", NOTHING, NOTHING);
    }
  }
}
