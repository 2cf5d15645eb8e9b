/** What the sanitized value tells about its source, and what it keeps: two values sanitize to
    the same result exactly when their protected shapes agree, and the protected shape survives. */
module SanitizerShape {
  import opened Collections
  import opened JsonValues
  import opened Sanitizer

  lemma SnocInjective<T>(a: seq<T>, x: T, b: seq<T>, y: T)
    requires a + [x] == b + [y]
    ensures a == b && x == y
  {
    assert |a| + 1 == |a + [x]| == |b + [y]| == |b| + 1;
    assert (a + [x])[..|a|] == a && (b + [y])[..|b|] == b;
    assert (a + [x])[|a|] == x && (b + [y])[|b|] == y;
  }

  // ---------- non-interference ----------

  /** Where both values hold a boolean they hold the same one. */
  predicate SameBooleans(v: Json, w: Json) {
    match (v, w)
    case (Bool(a), Bool(b)) => a == b
    case (Arr(a), Arr(b)) =>
      |a| == |b| ==> forall i :: 0 <= i < |a| ==> SameBooleans(a[i], b[i])
    case (Obj(a), Obj(b)) =>
      |a| == |b| ==> forall i :: 0 <= i < |a| ==> SameBooleans(a[i].value, b[i].value)
    case _ => true
  }

  predicate SameClasses(a: seq<Number>, b: seq<Number>) {
    |a| == |b| && forall i :: 0 <= i < |a| ==> Class(a[i]) == Class(b[i])
  }

  predicate Alike(s: Seen, t: Seen) {
    SameClasses(s.numbers, t.numbers) && |s.ids| == |t.ids|
  }

  lemma {:induction false} CountAlike(a: seq<Number>, b: seq<Number>, c: NumberClass)
    requires SameClasses(a, b)
    ensures CountClass(a, c) == CountClass(b, c)
  {
    if a != [] {
      CountAlike(a[..|a| - 1], b[..|b| - 1], c);
    }
  }

  /** Numbers met at the same reference get the same placeholder. */
  lemma NumberAlike(m: Number, n: Number, s: seq<Number>, t: seq<Number>)
    requires SameClasses(s, t) && Class(m) == Class(n)
    requires IndexOf(s, m) == IndexOf(t, n)
    ensures SameClasses(Note(s, m), Note(t, n))
    ensures NumberName(s, m) == NumberName(t, n)
  {
    var i := IndexOf(s, m);
    assert SameClasses(s[..i], t[..i]);
    CountAlike(s[..i], t[..i], Class(m));
  }

  /** The sanitized value is a function of the protected shape and the booleans: whatever else
      two values hold (identifiers, numbers, text) cannot be told from what is written. */
  lemma {:induction false} SanitizedFromShape(v: Json, w: Json, key: string, s: Seen, t: Seen)
    requires Alike(s, t) && SameBooleans(v, w)
    requires Protected(v, key, s).value == Protected(w, key, t).value
    ensures Relabel(v, key, s).value == Relabel(w, key, t).value
    ensures Alike(Relabel(v, key, s).seen, Relabel(w, key, t).seen)
    decreases v, 1
  {
    match v
    case Num(_) => SanitizedNumber(v, w, key, s, t);
    case Str(_) => SanitizedText(v, w, key, s, t);
    case Arr(a) => SanitizedFromItems(a, w.items, s, t);
    case Obj(a) => SanitizedFromPairs(a, w.pairs, s, t);
    case _ =>
  }

  lemma SanitizedNumber(v: Json, w: Json, key: string, s: Seen, t: Seen)
    requires Alike(s, t) && v.Num? && Protected(v, key, s).value == Protected(w, key, t).value
    ensures Relabel(v, key, s).value == Relabel(w, key, t).value
    ensures Alike(Relabel(v, key, s).seen, Relabel(w, key, t).seen)
  {
    assert w.Num?;
    NumberAlike(v.n, w.n, s.numbers, t.numbers);
  }

  lemma SanitizedText(v: Json, w: Json, key: string, s: Seen, t: Seen)
    requires Alike(s, t) && v.Str? && Protected(v, key, s).value == Protected(w, key, t).value
    ensures Relabel(v, key, s).value == Relabel(w, key, t).value
    ensures Alike(Relabel(v, key, s).seen, Relabel(w, key, t).seen)
  {
    assert w.Str?;
  }

  lemma {:induction false} SanitizedFromItems(a: seq<Json>, b: seq<Json>, s: Seen, t: Seen)
    requires Alike(s, t) && |a| == |b|
    requires forall i :: 0 <= i < |a| ==> SameBooleans(a[i], b[i])
    requires ProtectedItems(a, s).value == ProtectedItems(b, t).value
    ensures RelabelItems(a, s).value == RelabelItems(b, t).value
    ensures Alike(RelabelItems(a, s).seen, RelabelItems(b, t).seen)
    decreases a, 0
  {
    if a != [] {
      var k := |a| - 1;
      var p, q := ProtectedItems(a[..k], s), ProtectedItems(b[..k], t);
      SnocInjective(p.value, Protected(a[k], "", p.seen).value, q.value, Protected(b[k], "", q.seen).value);
      SanitizedFromItems(a[..k], b[..k], s, t);
      SanitizedFromShape(a[k], b[k], "", p.seen, q.seen);
    }
  }

  lemma {:induction false} SanitizedFromPairs(a: seq<Member>, b: seq<Member>, s: Seen, t: Seen)
    requires Alike(s, t) && |a| == |b|
    requires forall i :: 0 <= i < |a| ==> SameBooleans(a[i].value, b[i].value)
    requires ProtectedPairs(a, s).value == ProtectedPairs(b, t).value
    ensures RelabelPairs(a, s).value == RelabelPairs(b, t).value
    ensures Alike(RelabelPairs(a, s).seen, RelabelPairs(b, t).seen)
    decreases a, 0
  {
    if a != [] {
      var k := |a| - 1;
      var p, q := ProtectedPairs(a[..k], s), ProtectedPairs(b[..k], t);
      SnocInjective(p.value, (a[k].name, Protected(a[k].value, a[k].name, p.seen).value),
                    q.value, (b[k].name, Protected(b[k].value, b[k].name, q.seen).value));
      SanitizedFromPairs(a[..k], b[..k], s, t);
      SanitizedFromShape(a[k].value, b[k].value, a[k].name, p.seen, q.seen);
    }
  }

  // ---------- placeholders are told apart ----------

  const ZERO_FRACTION := NumberClass(Zero, false)

  lemma PlaceholderClass(c: NumberClass, position: nat)
    requires position >= 1
    ensures Class(Placeholder(c, position)) == c
  {
  }

  lemma PlaceholderInjective(c: NumberClass, i: nat, d: NumberClass, j: nat)
    requires i >= 1 && j >= 1 && Placeholder(c, i) == Placeholder(d, j)
    ensures c == d && (c.sign != Zero ==> i == j)
  {
    PlaceholderClass(c, i);
    PlaceholderClass(d, j);
    if c.sign != Zero && !c.integer {
      var a, b := Decimal(i), Decimal(j);
      var t := Placeholder(c, i).repr;
      var skip := if c.sign == Positive then 0 else 1;
      assert t[skip..|t| - 2] == a;
      assert Placeholder(d, j).repr[skip..|t| - 2] == b;
      DecimalInjective(i, j);
    }
  }

  lemma IdNameInjective(i: nat, j: nat)
    requires IdName(i) == IdName(j)
    ensures i == j
  {
    assert IdName(i)[3..] == Decimal(i + 1) && IdName(j)[3..] == Decimal(j + 1);
    DecimalInjective(i + 1, j + 1);
  }

  /** An occurrence is counted after everything before it. */
  lemma {:induction false} CountAt(s: seq<Number>, i: nat)
    requires i < |s|
    ensures CountClass(s[..i], Class(s[i])) < CountClass(s, Class(s[i]))
    decreases |s|
  {
    var k := |s| - 1;
    if i < k {
      CountAt(s[..k], i);
      assert s[..k][..i] == s[..i];
    }
  }

  lemma {:induction false} CountPositive(s: seq<Number>, c: NumberClass)
    ensures CountClass(s, c) > 0 <==> exists i :: 0 <= i < |s| && Class(s[i]) == c
  {
    if s != [] {
      CountPositive(s[..|s| - 1], c);
      assert forall i :: 0 <= i < |s| - 1 ==> s[..|s| - 1][i] == s[i];
    }
  }

  lemma {:induction false} CountPrefix(s: seq<Number>, t: seq<Number>, c: NumberClass)
    requires s <= t
    ensures CountClass(s, c) <= CountClass(t, c)
    decreases |t|
  {
    if |s| < |t| {
      CountPrefix(s, t[..|t| - 1], c);
    } else {
      assert s == t;
    }
  }

  lemma CountNote(s: seq<Number>, n: Number, c: NumberClass)
    ensures CountClass(Note(s, n), c) ==
            CountClass(s, c) + if n !in s && Class(n) == c then 1 else 0
  {
    if n !in s {
      assert (s + [n])[..|s|] == s;
    }
  }

  /** Seeing more numbers does not rename one already seen. */
  lemma NameStable(s: seq<Number>, n: Number, m: Number)
    requires m in s
    ensures NumberName(Note(s, n), m) == NumberName(s, m)
  {
    var i := IndexOf(s, m);
    IndexOfPrefix(s, [n], m);
    assert (s + [n])[..i] == s[..i];
  }

  lemma {:induction false} IndexOfPrefix<T>(s: seq<T>, t: seq<T>, x: T)
    requires x in s
    ensures IndexOf(s + t, x) == IndexOf(s, x)
  {
    if s[0] != x {
      assert (s + t)[1..] == s[1..] + t;
      IndexOfPrefix(s[1..], t, x);
    }
  }

  lemma IndexOfDistinct<T>(s: seq<T>, i: nat)
    requires Distinct(s) && i < |s|
    ensures IndexOf(s, s[i]) == i
  {
    var k := IndexOf(s, s[i]);
    assert s[k] == s[i];
  }

  // ---------- shape preservation ----------

  predicate TwoZeros(s: seq<Number>) {
    CountClass(s, ZERO_FRACTION) >= 2
  }

  /** `q` is what a second traversal has seen when the first has seen `s`. */
  predicate Mirror(s: Seen, q: Seen) {
    && Distinct(s.numbers) && Distinct(s.ids) && Distinct(q.numbers) && Distinct(q.ids)
    && |q.numbers| == |s.numbers|
    && (forall i :: 0 <= i < |s.numbers| ==> q.numbers[i] == NumberName(s.numbers, s.numbers[i]))
    && |q.ids| == |s.ids|
    && (forall i :: 0 <= i < |q.ids| ==> q.ids[i] == IdName(i))
  }

  /** A number not seen yet gets a placeholder not issued yet, except for a second zero. */
  lemma FreshName(s: Seen, q: Seen, n: Number)
    requires Mirror(s, q) && n !in s.numbers
    requires Class(n) == ZERO_FRACTION ==> CountClass(s.numbers, ZERO_FRACTION) == 0
    ensures NumberName(s.numbers, n) !in q.numbers
  {
    forall j | 0 <= j < |q.numbers| ensures q.numbers[j] != NumberName(s.numbers, n) {
      NotIssued(s.numbers, n, j);
    }
  }

  lemma NameAt(s: seq<Number>, j: nat)
    requires Distinct(s) && j < |s|
    ensures NumberName(s, s[j]) == Placeholder(Class(s[j]), 1 + CountClass(s[..j], Class(s[j])))
  {
    IndexOfDistinct(s, j);
  }

  lemma NameOfUnseen(s: seq<Number>, n: Number)
    requires n !in s
    ensures NumberName(s, n) == Placeholder(Class(n), 1 + CountClass(s, Class(n)))
  {
    assert s[..|s|] == s;
  }

  lemma NotIssued(s: seq<Number>, n: Number, j: nat)
    requires Distinct(s) && j < |s| && n !in s && (Class(n) == ZERO_FRACTION ==> CountClass(s, ZERO_FRACTION) == 0)
    ensures NumberName(s, s[j]) != NumberName(s, n)
  {
    NameAt(s, j);
    NameOfUnseen(s, n);
    NotSame(s, n, j);
  }

  lemma NotSame(s: seq<Number>, n: Number, j: nat)
    requires j < |s| && n !in s && (Class(n) == ZERO_FRACTION ==> CountClass(s, ZERO_FRACTION) == 0)
    ensures Placeholder(Class(s[j]), 1 + CountClass(s[..j], Class(s[j]))) != Placeholder(Class(n), 1 + CountClass(s, Class(n)))
  {
    var c, d := Class(s[j]), Class(n);
    var i, k := CountClass(s[..j], c), CountClass(s, d);
    CountAt(s, j);
    if c == d { NoSecondZero(s, n, j); }
    PlaceholdersDiffer(c, 1 + i, d, 1 + k);
  }

  lemma NoSecondZero(s: seq<Number>, n: Number, j: nat)
    requires j < |s| && n !in s && (Class(n) == ZERO_FRACTION ==> CountClass(s, ZERO_FRACTION) == 0)
    requires Class(s[j]) == Class(n)
    ensures Class(n).sign != Zero
  {
    CountPositive(s, Class(n));
  }

  lemma PlaceholdersDiffer(c: NumberClass, i: nat, d: NumberClass, j: nat)
    requires i >= 1 && j >= 1 && (c == d ==> i < j && c.sign != Zero)
    ensures Placeholder(c, i) != Placeholder(d, j)
  {
    if Placeholder(c, i) == Placeholder(d, j) {
      PlaceholderInjective(c, i, d, j);
    }
  }

  /** The name a new number gets is the name it keeps. */
  lemma NameOfNew(s: seq<Number>, n: Number)
    requires n !in s
    ensures NumberName(s + [n], n) == NumberName(s, n)
  {
    var t := s + [n];
    assert IndexOf(s, n) == |s| && t[|s|] == n;
    assert IndexOf(t, n) == |s|;
    assert t[..|s|] == s[..|s|];
  }

  lemma NamesStable(s: seq<Number>, names: seq<Number>, n: Number)
    requires n !in s && |names| == |s|
    requires forall i :: 0 <= i < |s| ==> names[i] == NumberName(s, s[i])
    ensures forall i :: 0 <= i <= |s| ==>
              (names + [NumberName(s, n)])[i] == NumberName(s + [n], (s + [n])[i])
  {
    NameOfNew(s, n);
    forall i | 0 <= i < |s| ensures NumberName(s + [n], s[i]) == names[i] {
      NameStable(s, n, s[i]);
    }
  }

  lemma NamesAfterNote(s: seq<Number>, n: Number)
    ensures forall k :: k in s ==> NumberName(Note(s, n), k) == NumberName(s, k)
    ensures NumberName(Note(s, n), n) == NumberName(s, n)
  {
    forall k | k in s ensures NumberName(Note(s, n), k) == NumberName(s, k) {
      NameStable(s, n, k);
    }
    if n !in s { NameOfNew(s, n); }
  }

  /** A first occurrence: both dictionaries grow by corresponding entries. */
  lemma MirrorFresh(s: Seen, q: Seen, n: Number)
    requires Mirror(s, q) && n !in s.numbers
    requires Class(n) == ZERO_FRACTION ==> CountClass(s.numbers, ZERO_FRACTION) == 0
    ensures var m := NumberName(s.numbers, n);
            m !in q.numbers &&
            Mirror(s.(numbers := s.numbers + [n]), q.(numbers := q.numbers + [m]))
  {
    FreshName(s, q, n);
    NamesStable(s.numbers, q.numbers, n);
  }

  /** A second kind of zero is given the name of the first. */
  lemma SecondZero(s: Seen, q: Seen, n: Number)
    requires Mirror(s, q) && n !in s.numbers
    requires Class(n) == ZERO_FRACTION && CountClass(s.numbers, ZERO_FRACTION) > 0
    ensures NumberName(s.numbers, n) in q.numbers
  {
    CountPositive(s.numbers, ZERO_FRACTION);
    var j :| 0 <= j < |s.numbers| && Class(s.numbers[j]) == ZERO_FRACTION;
    assert q.numbers[j] == NumberName(s.numbers, n);
  }

  lemma NameClass(s: seq<Number>, n: Number)
    ensures Class(NumberName(s, n)) == Class(n)
  {
    PlaceholderClass(Class(n), 1 + CountClass(s[..IndexOf(s, n)], Class(n)));
  }

  lemma MirrorNumber(s: Seen, q: Seen, n: Number)
    requires Mirror(s, q) && !TwoZeros(s.numbers)
    ensures var m := NumberName(s.numbers, n);
            var s', q' := s.(numbers := Note(s.numbers, n)), q.(numbers := Note(q.numbers, m));
            if TwoZeros(s'.numbers) then IndexOf(q.numbers, m) != IndexOf(s.numbers, n)
            else IndexOf(q.numbers, m) == IndexOf(s.numbers, n) && Mirror(s', q')
  {
    var ns := s.numbers;
    CountNote(ns, n, ZERO_FRACTION);
    if n in ns {
      IndexOfDistinct(q.numbers, IndexOf(ns, n));
    } else if Class(n) == ZERO_FRACTION && CountClass(ns, ZERO_FRACTION) > 0 {
      SecondZero(s, q, n);
    } else {
      MirrorFresh(s, q, n);
    }
  }

  lemma MirrorId(s: Seen, q: Seen, id: string)
    requires Mirror(s, q)
    ensures var k := IdName(IndexOf(s.ids, id));
            IndexOf(q.ids, k) == IndexOf(s.ids, id) &&
            Mirror(s.(ids := Note(s.ids, id)), q.(ids := Note(q.ids, k)))
  {
    var i := IndexOf(s.ids, id);
    if id in s.ids {
      IndexOfDistinct(q.ids, i);
    } else {
      forall j | 0 <= j < |q.ids| ensures q.ids[j] != IdName(i) {
        if q.ids[j] == IdName(i) {
          IdNameInjective(i, j);
        }
      }
    }
  }

  /** The protected shape of the sanitized value is that of its source for as long as 0.0 and
      -0.0 have not both been seen, and differs as soon as they have. */
  lemma {:induction false} ShapeKeptFrom(v: Json, key: string, s: Seen, q: Seen)
    requires Mirror(s, q) && !TwoZeros(s.numbers)
    ensures var r, p := Relabel(v, key, s), Protected(v, key, s).value;
            var again := Protected(r.value, key, q);
            if TwoZeros(r.seen.numbers) then again.value != p
            else again.value == p && Mirror(r.seen, again.seen)
    decreases v, 1
  {
    match v
    case Num(n) =>
      NameClass(s.numbers, n);
      MirrorNumber(s, q, n);
    case Str(id) => if key != "finish_reason" && IsIdKey(key) { MirrorId(s, q, id); }
    case Arr(items) => ShapeKeptItems(items, s, q);
    case Obj(pairs) => ShapeKeptPairs(pairs, s, q);
    case _ =>
  }

  lemma {:induction false} ShapeKeptItems(items: seq<Json>, s: Seen, q: Seen)
    requires Mirror(s, q) && !TwoZeros(s.numbers)
    ensures var r, p := RelabelItems(items, s), ProtectedItems(items, s).value;
            var again := ProtectedItems(r.value, q);
            if TwoZeros(r.seen.numbers) then again.value != p
            else again.value == p && Mirror(r.seen, again.seen)
    decreases items, 0
  {
    if items != [] {
      var k := |items| - 1;
      var init := RelabelItems(items[..k], s);
      var r := RelabelItems(items, s);
      ShapeKeptItems(items[..k], s, q);
      assert r.value[..k] == init.value;
      var again := ProtectedItems(init.value, q);
      if !TwoZeros(init.seen.numbers) {
        ShapeKeptFrom(items[k], "", init.seen, again.seen);
      } else {
        CountPrefix(init.seen.numbers, r.seen.numbers, ZERO_FRACTION);
      }
      if ProtectedItems(r.value, q).value == ProtectedItems(items, s).value {
        SnocInjective(again.value, Protected(r.value[k], "", again.seen).value,
                      ProtectedItems(items[..k], s).value, Protected(items[k], "", init.seen).value);
      }
    }
  }

  lemma {:induction false} ShapeKeptPairs(pairs: seq<Member>, s: Seen, q: Seen)
    requires Mirror(s, q) && !TwoZeros(s.numbers)
    ensures var r, p := RelabelPairs(pairs, s), ProtectedPairs(pairs, s).value;
            var again := ProtectedPairs(r.value, q);
            if TwoZeros(r.seen.numbers) then again.value != p
            else again.value == p && Mirror(r.seen, again.seen)
    decreases pairs, 0
  {
    if pairs != [] {
      var k := |pairs| - 1;
      var name := pairs[k].name;
      var init := RelabelPairs(pairs[..k], s);
      var r := RelabelPairs(pairs, s);
      ShapeKeptPairs(pairs[..k], s, q);
      assert r.value[..k] == init.value;
      var again := ProtectedPairs(init.value, q);
      if !TwoZeros(init.seen.numbers) {
        ShapeKeptFrom(pairs[k].value, name, init.seen, again.seen);
      } else {
        CountPrefix(init.seen.numbers, r.seen.numbers, ZERO_FRACTION);
      }
      if ProtectedPairs(r.value, q).value == ProtectedPairs(pairs, s).value {
        SnocInjective(again.value, (name, Protected(r.value[k].value, name, again.seen).value),
                      ProtectedPairs(pairs[..k], s).value,
                      (name, Protected(pairs[k].value, name, init.seen).value));
      }
    }
  }

  // ---------- the numbers of a value are the ones noted ----------

  /** The numbers that occur in a value. */
  function NumbersOf(v: Json): set<Number> {
    match v
    case Num(m) => {m}
    case Arr(items) => set i, n | 0 <= i < |items| && n in NumbersOf(items[i]) :: n
    case Obj(pairs) => set i, n | 0 <= i < |pairs| && n in NumbersOf(pairs[i].value) :: n
    case _ => {}
  }

  predicate Occurs(n: Number, v: Json) {
    n in NumbersOf(v)
  }

  lemma {:induction false} NotedNumbers(v: Json, key: string, s: Seen, n: Number)
    ensures n in Relabel(v, key, s).seen.numbers <==> n in s.numbers || Occurs(n, v)
    decreases v, 1
  {
    match v
    case Arr(items) => NotedItems(items, s, n);
    case Obj(pairs) => NotedPairs(pairs, s, n);
    case _ =>
  }

  lemma {:induction false} NotedItems(items: seq<Json>, s: Seen, n: Number)
    ensures n in RelabelItems(items, s).seen.numbers <==>
            n in s.numbers || exists i :: 0 <= i < |items| && Occurs(n, items[i])
    decreases items, 0
  {
    if items != [] {
      var init := items[..|items| - 1];
      NotedItems(init, s, n);
      NotedNumbers(items[|items| - 1], "", RelabelItems(init, s).seen, n);
      assert forall i :: 0 <= i < |init| ==> init[i] == items[i];
    }
  }

  lemma {:induction false} NotedPairs(pairs: seq<Member>, s: Seen, n: Number)
    ensures n in RelabelPairs(pairs, s).seen.numbers <==>
            n in s.numbers || exists i :: 0 <= i < |pairs| && Occurs(n, pairs[i].value)
    decreases pairs, 0
  {
    if pairs != [] {
      var init, last := pairs[..|pairs| - 1], pairs[|pairs| - 1];
      NotedPairs(init, s, n);
      NotedNumbers(last.value, last.name, RelabelPairs(init, s).seen, n);
      assert forall i :: 0 <= i < |init| ==> init[i] == pairs[i];
    }
  }

  // ---------- main results ----------

  /** Both kinds of float zero are among the numbers of `v`. */
  ghost predicate SignedZeros(v: Json) {
    exists a, b :: a != b && Occurs(Float(Zero, a), v) && Occurs(Float(Zero, b), v)
  }

  lemma {:induction false} TwoZerosIff(s: seq<Number>)
    requires Distinct(s)
    ensures TwoZeros(s) <==> exists a, b :: a != b && Float(Zero, a) in s && Float(Zero, b) in s
  {
    if s != [] {
      var init, last := s[..|s| - 1], s[|s| - 1];
      TwoZerosIff(init);
      CountPositive(init, ZERO_FRACTION);
      if a, b :| a != b && Float(Zero, a) in s && Float(Zero, b) in s {
        assert Float(Zero, a) in init || Float(Zero, b) in init;
        if Float(Zero, a) in init && Float(Zero, b) in init {
        } else {
          assert Class(last) == ZERO_FRACTION;
        }
      }
      if TwoZeros(s) && !TwoZeros(init) {
        var i :| 0 <= i < |init| && Class(init[i]) == ZERO_FRACTION;
        assert last == Float(Zero, last.repr) && s[i] == Float(Zero, s[i].repr) && s[i] != last;
      }
    }
  }

  lemma SignedZerosSeen(v: Json, key: string)
    ensures TwoZeros(Relabel(v, key, NOTHING).seen.numbers) <==> SignedZeros(v)
  {
    var s := Relabel(v, key, NOTHING).seen.numbers;
    forall n ensures n in s <==> Occurs(n, v) {
      NotedNumbers(v, key, NOTHING, n);
    }
    TwoZerosIff(s);
  }

  /** Sanitizing keeps the protected shape exactly when 0.0 and -0.0 do not both occur. */
  lemma ShapeKept(v: Json, context: Context)
    ensures var p := Project(v, context);
            Protected(Relabel(p, "", NOTHING).value, "", NOTHING).value == Protected(p, "", NOTHING).value
            <==> !SignedZeros(p)
  {
    var p := Project(v, context);
    assert Mirror(NOTHING, NOTHING);
    ShapeKeptFrom(p, "", NOTHING, NOTHING);
    SignedZerosSeen(p, "");
  }

  /** The two zeros: their references differ before, and agree after. */
  lemma ShapeLost()
    ensures var v := Obj([Member("usage", Arr([Num(Float(Zero, "0.0")), Num(Float(Zero, "-0.0"))]))]);
            SignedZeros(Project(v, Root)) &&
            Protected(Relabel(Project(v, Root), "", NOTHING).value, "", NOTHING).value
            != Protected(Project(v, Root), "", NOTHING).value
  {
    var a, b := Num(Float(Zero, "0.0")), Num(Float(Zero, "-0.0"));
    var v := Obj([Member("usage", Arr([a, b]))]);
    BothProjected(a, b, Usage);
    OnlyProjected(Member("usage", Arr([a, b])), Root);
    assert Project(v, Root) == v;
    ZerosOccur(a, b, v);
    ShapeKept(v, Root);
  }

  lemma BothProjected(a: Json, b: Json, context: Context)
    requires Project(a, context) == a && Project(b, context) == b
    ensures Project(Arr([a, b]), context) == Arr([a, b])
  {
    var none: seq<Json> := [];
    assert [a][..0] == none && ProjectItems(none, context) == none;
    assert ProjectItems([a], context) == none + [a] == [a];
    assert [a, b][..1] == [a] && [a] + [b] == [a, b];
  }

  lemma OnlyProjected(m: Member, context: Context)
    requires context != Error && Allowed(m.name, context) && Project(m.value, Child(m.name, context)) == m.value
    ensures Project(Obj([m]), context) == Obj([m])
  {
    var none: seq<Member> := [];
    assert [m][..0] == none && ProjectPairs(none, context) == none && none + [m] == [m];
    assert Member(m.name, Project(m.value, Child(m.name, context))) == m;
  }

  lemma ZerosOccur(a: Json, b: Json, v: Json)
    requires a == Num(Float(Zero, "0.0")) && b == Num(Float(Zero, "-0.0")) && v == Obj([Member("usage", Arr([a, b]))])
    ensures SignedZeros(v)
  {
    var items := [a, b];
    assert a in items && b in items;
    assert items[0] == a && items[1] == b && NumbersOf(a) == {a.n} && NumbersOf(b) == {b.n};
    assert Occurs(a.n, Arr(items)) && Occurs(b.n, Arr(items));
    assert v.pairs[0].value == Arr(items);
    assert Occurs(Float(Zero, "0.0"), v) && Occurs(Float(Zero, "-0.0"), v);
    assert "0.0"[0] != "-0.0"[0];
  }

  /** Two values sanitize alike exactly when nothing but their protected shape and their booleans
      could tell them apart. */
  lemma SanitizedAlikeIff(v: Json, w: Json, context: Context)
    requires !SignedZeros(Project(v, context)) && !SignedZeros(Project(w, context))
    ensures var p, q := Project(v, context), Project(w, context);
            Relabel(p, "", NOTHING).value == Relabel(q, "", NOTHING).value
            <==> Protected(p, "", NOTHING).value == Protected(q, "", NOTHING).value && SameBooleans(p, q)
  {
    var p, q := Project(v, context), Project(w, context);
    if Relabel(p, "", NOTHING).value == Relabel(q, "", NOTHING).value {
      ShapeKept(v, context);
      ShapeKept(w, context);
      BooleansKept(p, q, "", NOTHING, NOTHING);
    } else if Protected(p, "", NOTHING).value == Protected(q, "", NOTHING).value && SameBooleans(p, q) {
      SanitizedFromShape(p, q, "", NOTHING, NOTHING);
    }
  }

  lemma {:induction false} BooleansKept(v: Json, w: Json, key: string, s: Seen, t: Seen)
    requires Relabel(v, key, s).value == Relabel(w, key, t).value
    ensures SameBooleans(v, w)
    decreases v, 1
  {
    match (v, w)
    case (Arr(a), Arr(b)) => BooleansKeptItems(a, b, s, t);
    case (Obj(a), Obj(b)) => BooleansKeptPairs(a, b, s, t);
    case _ =>
  }

  lemma LastItemAlike(a: seq<Json>, b: seq<Json>, s: Seen, t: Seen)
    requires RelabelItems(a, s).value == RelabelItems(b, t).value && a != [] && |a| == |b|
    ensures var k := |a| - 1;
            var p, q := RelabelItems(a[..k], s), RelabelItems(b[..k], t);
            p.value == q.value && Relabel(a[k], "", p.seen).value == Relabel(b[k], "", q.seen).value
  {
    var k := |a| - 1;
    var p, q := RelabelItems(a[..k], s), RelabelItems(b[..k], t);
    SnocInjective(p.value, Relabel(a[k], "", p.seen).value, q.value, Relabel(b[k], "", q.seen).value);
  }

  lemma LastPairAlike(a: seq<Member>, b: seq<Member>, s: Seen, t: Seen)
    requires RelabelPairs(a, s).value == RelabelPairs(b, t).value && a != [] && |a| == |b|
    ensures var k := |a| - 1;
            var p, q := RelabelPairs(a[..k], s), RelabelPairs(b[..k], t);
            p.value == q.value && a[k].name == b[k].name &&
            Relabel(a[k].value, a[k].name, p.seen).value == Relabel(b[k].value, b[k].name, q.seen).value
  {
    var k := |a| - 1;
    var p, q := RelabelPairs(a[..k], s), RelabelPairs(b[..k], t);
    SnocInjective(p.value, Member(a[k].name, Relabel(a[k].value, a[k].name, p.seen).value),
                  q.value, Member(b[k].name, Relabel(b[k].value, b[k].name, q.seen).value));
  }

  lemma {:induction false} BooleansKeptItems(a: seq<Json>, b: seq<Json>, s: Seen, t: Seen)
    requires RelabelItems(a, s).value == RelabelItems(b, t).value && |a| == |b|
    ensures forall i :: 0 <= i < |a| ==> SameBooleans(a[i], b[i])
    decreases a, 0
  {
    if a != [] {
      var k := |a| - 1;
      var p, q := RelabelItems(a[..k], s), RelabelItems(b[..k], t);
      LastItemAlike(a, b, s, t);
      BooleansKeptItems(a[..k], b[..k], s, t);
      BooleansKept(a[k], b[k], "", p.seen, q.seen);
      BooleansSnoc(a, b, a[..k], b[..k]);
    }
  }

  lemma BooleansSnoc(a: seq<Json>, b: seq<Json>, p: seq<Json>, q: seq<Json>)
    requires |a| == |b| >= 1 && p == a[..|a| - 1] && q == b[..|a| - 1]
    requires forall i :: 0 <= i < |p| ==> SameBooleans(p[i], q[i])
    requires SameBooleans(a[|a| - 1], b[|a| - 1])
    ensures forall i :: 0 <= i < |a| ==> SameBooleans(a[i], b[i])
  {
    forall i | 0 <= i < |a| ensures SameBooleans(a[i], b[i]) {
      assert i < |a| - 1 ==> SameBooleans(p[i], q[i]);
    }
  }

  lemma {:induction false} BooleansKeptPairs(a: seq<Member>, b: seq<Member>, s: Seen, t: Seen)
    requires RelabelPairs(a, s).value == RelabelPairs(b, t).value && |a| == |b|
    ensures forall i :: 0 <= i < |a| ==> SameBooleans(a[i].value, b[i].value)
    decreases a, 0
  {
    if a != [] {
      var k := |a| - 1;
      var p, q := RelabelPairs(a[..k], s), RelabelPairs(b[..k], t);
      LastPairAlike(a, b, s, t);
      BooleansKeptPairs(a[..k], b[..k], s, t);
      assert forall i :: 0 <= i < k ==> a[..k][i] == a[i] && b[..k][i] == b[i];
      BooleansKept(a[k].value, b[k].value, a[k].name, p.seen, q.seen);
    }
  }

  // ---------- renaming ----------

  predicate Injective<K, V(==)>(m: map<K, V>) {
    forall x, y :: x in m && y in m && m[x] == m[y] ==> x == y
  }

  predicate KeepsClass(m: map<Number, Number>) {
    forall n :: n in m ==> Class(m[n]) == Class(n)
  }

  /** `w` is `v` with its numbers and identifiers renamed, and any other text replaced. */
  predicate Renamed(v: Json, w: Json, key: string, numbers: map<Number, Number>, ids: map<string, string>) {
    match (v, w)
    case (Null, Null) => true
    case (Bool(a), Bool(b)) => a == b
    case (Num(m), Num(n)) => m in numbers && numbers[m] == n
    case (Str(a), Str(b)) =>
      if key == "finish_reason" then FinishName(a) == FinishName(b)
      else IsIdKey(key) ==> a in ids && ids[a] == b
    case (Arr(a), Arr(b)) =>
      |a| == |b| && forall i :: 0 <= i < |a| ==> Renamed(a[i], b[i], "", numbers, ids)
    case (Obj(a), Obj(b)) =>
      |a| == |b| && forall i :: 0 <= i < |a| ==>
        a[i].name == b[i].name && Renamed(a[i].value, b[i].value, a[i].name, numbers, ids)
    case _ => false
  }

  /** `t` is `s` through the map `m`. */
  predicate Image<T(==)>(s: seq<T>, t: seq<T>, m: map<T, T>) {
    |t| == |s| && forall i :: 0 <= i < |s| ==> s[i] in m && t[i] == m[s[i]]
  }

  lemma {:induction false} ImageIndex<T>(s: seq<T>, t: seq<T>, m: map<T, T>, x: T)
    requires Image(s, t, m) && Injective(m) && x in m
    ensures IndexOf(t, m[x]) == IndexOf(s, x)
    ensures Image(Note(s, x), Note(t, m[x]), m)
  {
    var i := IndexOf(s, x);
    var j := IndexOf(t, m[x]);
    assert i < |s| ==> t[i] == m[x];
    assert j < |t| ==> s[j] == x;
  }

  lemma {:induction false} RenamedBooleans(
      v: Json, w: Json, key: string, numbers: map<Number, Number>, ids: map<string, string>)
    requires Renamed(v, w, key, numbers, ids)
    ensures SameBooleans(v, w)
    decreases v
  {
    match (v, w)
    case (Arr(a), Arr(b)) =>
      forall i | 0 <= i < |a| ensures SameBooleans(a[i], b[i]) {
        RenamedBooleans(a[i], b[i], "", numbers, ids);
      }
    case (Obj(a), Obj(b)) =>
      forall i | 0 <= i < |a| ensures SameBooleans(a[i].value, b[i].value) {
        RenamedBooleans(a[i].value, b[i].value, a[i].name, numbers, ids);
      }
    case _ =>
  }

  lemma {:induction false} RenamedShape(
      v: Json, w: Json, key: string, numbers: map<Number, Number>, ids: map<string, string>, s: Seen, t: Seen)
    requires Renamed(v, w, key, numbers, ids)
    requires Injective(numbers) && KeepsClass(numbers) && Injective(ids)
    requires Image(s.numbers, t.numbers, numbers) && Image(s.ids, t.ids, ids)
    ensures Protected(v, key, s).value == Protected(w, key, t).value
    ensures Image(Protected(v, key, s).seen.numbers, Protected(w, key, t).seen.numbers, numbers)
    ensures Image(Protected(v, key, s).seen.ids, Protected(w, key, t).seen.ids, ids)
    decreases v, 1
  {
    match (v, w)
    case (Num(m), Num(n)) => ImageIndex(s.numbers, t.numbers, numbers, m);
    case (Str(a), Str(b)) =>
      if key != "finish_reason" && IsIdKey(key) { ImageIndex(s.ids, t.ids, ids, a); }
    case (Arr(a), Arr(b)) => RenamedItems(a, b, numbers, ids, s, t);
    case (Obj(a), Obj(b)) => RenamedPairs(a, b, numbers, ids, s, t);
    case _ =>
  }

  lemma {:induction false} RenamedItems(
      a: seq<Json>, b: seq<Json>, numbers: map<Number, Number>, ids: map<string, string>, s: Seen, t: Seen)
    requires |a| == |b| && forall i :: 0 <= i < |a| ==> Renamed(a[i], b[i], "", numbers, ids)
    requires Injective(numbers) && KeepsClass(numbers) && Injective(ids)
    requires Image(s.numbers, t.numbers, numbers) && Image(s.ids, t.ids, ids)
    ensures ProtectedItems(a, s).value == ProtectedItems(b, t).value
    ensures Image(ProtectedItems(a, s).seen.numbers, ProtectedItems(b, t).seen.numbers, numbers)
    ensures Image(ProtectedItems(a, s).seen.ids, ProtectedItems(b, t).seen.ids, ids)
    decreases a, 0
  {
    if a != [] {
      var k := |a| - 1;
      RenamedItems(a[..k], b[..k], numbers, ids, s, t);
      assert forall i :: 0 <= i < k ==> a[..k][i] == a[i] && b[..k][i] == b[i];
      RenamedShape(a[k], b[k], "", numbers, ids, ProtectedItems(a[..k], s).seen, ProtectedItems(b[..k], t).seen);
    }
  }

  lemma {:induction false} RenamedPairs(
      a: seq<Member>, b: seq<Member>, numbers: map<Number, Number>, ids: map<string, string>, s: Seen, t: Seen)
    requires |a| == |b|
    requires forall i :: 0 <= i < |a| ==>
               a[i].name == b[i].name && Renamed(a[i].value, b[i].value, a[i].name, numbers, ids)
    requires Injective(numbers) && KeepsClass(numbers) && Injective(ids)
    requires Image(s.numbers, t.numbers, numbers) && Image(s.ids, t.ids, ids)
    ensures ProtectedPairs(a, s).value == ProtectedPairs(b, t).value
    ensures Image(ProtectedPairs(a, s).seen.numbers, ProtectedPairs(b, t).seen.numbers, numbers)
    ensures Image(ProtectedPairs(a, s).seen.ids, ProtectedPairs(b, t).seen.ids, ids)
    decreases a, 0
  {
    if a != [] {
      var k := |a| - 1;
      RenamedPairs(a[..k], b[..k], numbers, ids, s, t);
      assert forall i :: 0 <= i < k ==> a[..k][i] == a[i] && b[..k][i] == b[i];
      RenamedShape(a[k].value, b[k].value, a[k].name, numbers, ids,
                   ProtectedPairs(a[..k], s).seen, ProtectedPairs(b[..k], t).seen);
    }
  }

  /** Renaming identifiers and numbers injectively (numbers within their class) and replacing any
      other text cannot be seen in what the sanitizer writes. */
  lemma NonInterference(v: Json, w: Json, context: Context, numbers: map<Number, Number>, ids: map<string, string>)
    requires Renamed(Project(v, context), Project(w, context), "", numbers, ids)
    requires Injective(numbers) && KeepsClass(numbers) && Injective(ids)
    ensures Relabel(Project(v, context), "", NOTHING).value == Relabel(Project(w, context), "", NOTHING).value
  {
    var p, q := Project(v, context), Project(w, context);
    RenamedShape(p, q, "", numbers, ids, NOTHING, NOTHING);
    RenamedBooleans(p, q, "", numbers, ids);
    SanitizedFromShape(p, q, "", NOTHING, NOTHING);
  }
}
