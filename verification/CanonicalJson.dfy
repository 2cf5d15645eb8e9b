/** The canonical printer that scripts/render_check.js compares values with: two values print the
    same exactly when they are equal up to the order of object keys. A number stands for the text
    JavaScript prints it as. */
module CanonicalJson {
  import opened Wrappers
  import Text
  import opened JsonText
  import opened JsonPunctuation

  datatype Value =
    | Null
    | Bool(b: bool)
    | Number(text: string)
    | Text(s: string)
    | List(items: seq<Value>)
    | Record(fields: seq<Field>)

  /** The fields of an object, in the order of their insertion. */
  datatype Field = Field(name: string, value: Value)

  /** Finite numbers, and keys that differ. */
  predicate WellFormed(v: Value) {
    match v
    case Number(text) => text != "" && forall i :: 0 <= i < |text| ==> NumberChar(text[i])
    case List(items) => forall i :: 0 <= i < |items| ==> WellFormed(items[i])
    case Record(fields) => DistinctNames(fields) && forall i :: 0 <= i < |fields| ==> WellFormed(fields[i].value)
    case _ => true
  }

  predicate DistinctNames(fields: seq<Field>) {
    forall i, j :: 0 <= i < j < |fields| ==> fields[i].name != fields[j].name
  }

  /** Equal up to the order of object keys. */
  predicate Same(v: Value, w: Value)
    decreases v
  {
    match (v, w)
    case (List(a), List(b)) => |a| == |b| && forall i :: 0 <= i < |a| ==> Same(a[i], b[i])
    case (Record(a), Record(b)) =>
      (forall i :: 0 <= i < |a| ==> HasField(a[i], b)) && (forall j :: 0 <= j < |b| ==> IsField(a, b[j]))
    case (Number(a), Number(b)) => a == b
    case (Text(a), Text(b)) => a == b
    case (Bool(a), Bool(b)) => a == b
    case (Null, Null) => true
    case _ => false
  }

  predicate SameField(f: Field, g: Field)
    decreases f, 0
  {
    f.name == g.name && Same(f.value, g.value)
  }

  predicate HasField(f: Field, fields: seq<Field>)
    decreases f, 1
  {
    exists j :: 0 <= j < |fields| && SameField(f, fields[j])
  }

  predicate IsField(fields: seq<Field>, g: Field)
    decreases fields
  {
    exists i :: 0 <= i < |fields| && SameField(fields[i], g)
  }

  // ---------- the order of keys ----------

  /** The UTF-16 code units of a character. */
  function Units(c: char): seq<nat> {
    var n := c as int;
    if n < 0x10000 then [n] else [0xD800 + (n - 0x10000) / 0x400, 0xDC00 + (n - 0x10000) % 0x400]
  }

  function UnitsOf(s: string): seq<nat> {
    if s == "" then [] else Units(s[0]) + UnitsOf(s[1..])
  }

  predicate Lex(a: seq<nat>, b: seq<nat>) {
    a == [] || (b != [] && (a[0] < b[0] || (a[0] == b[0] && Lex(a[1..], b[1..]))))
  }

  /** How `sort` compares strings. */
  predicate Leq(a: string, b: string) {
    Lex(UnitsOf(a), UnitsOf(b))
  }

  lemma {:induction false} LexTotal(a: seq<nat>, b: seq<nat>)
    ensures Lex(a, b) || Lex(b, a)
    decreases |a|
  {
    if a != [] && b != [] { LexTotal(a[1..], b[1..]); }
  }

  lemma {:induction false} LexAntisymmetric(a: seq<nat>, b: seq<nat>)
    requires Lex(a, b) && Lex(b, a)
    ensures a == b
    decreases |a|
  {
    if a != [] && b != [] {
      LexAntisymmetric(a[1..], b[1..]);
      assert a == [a[0]] + a[1..] && b == [b[0]] + b[1..];
    }
  }

  lemma {:induction false} LexTransitive(a: seq<nat>, b: seq<nat>, c: seq<nat>)
    requires Lex(a, b) && Lex(b, c)
    ensures Lex(a, c)
    decreases |a|
  {
    if a != [] && a[0] == b[0] == c[0] { LexTransitive(a[1..], b[1..], c[1..]); }
  }

  lemma UnitsTell(c: char, d: char, a: seq<nat>, b: seq<nat>)
    requires Units(c) + a == Units(d) + b
    ensures c == d && a == b
  {
    var x, y := Units(c) + a, Units(d) + b;
    assert x[0] == Units(c)[0] && y[0] == Units(d)[0];
    FirstUnit(c);
    FirstUnit(d);
    assert |Units(c)| == |Units(d)|;
    assert |Units(c)| == 2 ==> x[1] == Units(c)[1] && y[1] == Units(d)[1];
    PairTells(c, d);
    assert x[|Units(c)|..] == a && y[|Units(d)|..] == b;
  }

  lemma FirstUnit(c: char)
    ensures if |Units(c)| == 2 then 0xD800 <= Units(c)[0] < 0xDC00 else !(0xD800 <= Units(c)[0] < 0xE000)
  {
  }

  lemma PairTells(c: char, d: char)
    requires |Units(c)| == |Units(d)| && Units(c)[0] == Units(d)[0]
    requires |Units(c)| == 2 ==> Units(c)[1] == Units(d)[1]
    ensures c == d
  {
    if |Units(c)| == 2 {
      var m, n := c as int - 0x10000, d as int - 0x10000;
      assert m == m / 0x400 * 0x400 + m % 0x400 && n == n / 0x400 * 0x400 + n % 0x400;
    }
  }

  lemma {:induction false} UnitsInjective(s: string, t: string)
    requires UnitsOf(s) == UnitsOf(t)
    ensures s == t
  {
    if s != "" && t != "" {
      UnitsTell(s[0], t[0], UnitsOf(s[1..]), UnitsOf(t[1..]));
      UnitsInjective(s[1..], t[1..]);
      assert s == [s[0]] + s[1..] && t == [t[0]] + t[1..];
    }
  }

  lemma LeqAntisymmetric(a: string, b: string)
    requires Leq(a, b) && Leq(b, a)
    ensures a == b
  {
    LexAntisymmetric(UnitsOf(a), UnitsOf(b));
    UnitsInjective(a, b);
  }

  // ---------- sorting the keys ----------

  function Insert(f: Field, fields: seq<Field>): (r: seq<Field>)
    ensures |r| == |fields| + 1 && forall x :: x in r <==> x == f || x in fields
  {
    if fields == [] then [f]
    else if Leq(f.name, fields[0].name) then [f] + fields
    else [fields[0]] + Insert(f, fields[1..])
  }

  function SortFields(fields: seq<Field>): (r: seq<Field>)
    ensures |r| == |fields| && forall x :: x in r <==> x in fields
  {
    if fields == [] then [] else Insert(fields[0], SortFields(fields[1..]))
  }

  ghost predicate Ascending(fields: seq<Field>) {
    forall i, j :: 0 <= i < j < |fields| ==> Leq(fields[i].name, fields[j].name) && fields[i].name != fields[j].name
  }

  lemma {:induction false} InsertAscends(f: Field, fields: seq<Field>)
    requires Ascending(fields) && forall i :: 0 <= i < |fields| ==> fields[i].name != f.name
    ensures Ascending(Insert(f, fields))
  {
    if fields != [] {
      if Leq(f.name, fields[0].name) {
        forall i | 0 <= i < |fields| ensures Leq(f.name, fields[i].name) {
          if i > 0 {
            assert Leq(fields[0].name, fields[i].name);
            LexTransitive(UnitsOf(f.name), UnitsOf(fields[0].name), UnitsOf(fields[i].name));
          }
        }
      } else {
        var rest := Insert(f, fields[1..]);
        LexTotal(UnitsOf(f.name), UnitsOf(fields[0].name));
        InsertAscends(f, fields[1..]);
        forall j | 0 <= j < |rest| ensures Leq(fields[0].name, rest[j].name) && fields[0].name != rest[j].name {
          assert rest[j] in rest;
          if rest[j] != f {
            var k :| 0 <= k < |fields[1..]| && fields[1..][k] == rest[j];
            assert fields[k + 1] == rest[j];
          }
        }
      }
    }
  }

  lemma {:induction false} SortAscends(fields: seq<Field>)
    requires DistinctNames(fields)
    ensures Ascending(SortFields(fields))
  {
    if fields != [] {
      var rest := SortFields(fields[1..]);
      SortAscends(fields[1..]);
      forall i | 0 <= i < |rest| ensures rest[i].name != fields[0].name {
        assert rest[i] in rest;
        var k :| 0 <= k < |fields[1..]| && fields[1..][k] == rest[i];
        assert fields[k + 1] == rest[i];
      }
      InsertAscends(fields[0], rest);
    }
  }

  lemma SameFirst(a: seq<Field>, b: seq<Field>)
    requires Ascending(a) && Ascending(b) && a != [] && b != []
    requires forall x :: x in a <==> x in b
    ensures a[0] == b[0]
  {
    assert a[0] in b && b[0] in a;
    var k :| 0 <= k < |b| && b[k] == a[0];
    var m :| 0 <= m < |a| && a[m] == b[0];
    if k > 0 && m > 0 {
      LeqAntisymmetric(a[0].name, b[0].name);
    }
  }

  /** There is one way to list fields in ascending order. */
  lemma {:induction false} AscendingUnique(a: seq<Field>, b: seq<Field>)
    requires Ascending(a) && Ascending(b) && forall x :: x in a <==> x in b
    ensures a == b
  {
    if a == [] {
      assert forall i :: 0 <= i < |b| ==> b[i] in b;
    } else {
      assert a[0] in b;
      SameFirst(a, b);
      forall x ensures x in a[1..] <==> x in b[1..] {
        InTail(a, x);
        InTail(b, x);
      }
      AscendingUnique(a[1..], b[1..]);
      assert a == [a[0]] + a[1..] && b == [b[0]] + b[1..];
    }
  }

  lemma InTail(a: seq<Field>, x: Field)
    requires Ascending(a) && a != []
    ensures x in a[1..] <==> x in a && x != a[0]
  {
    if x in a && x != a[0] {
      var k :| 0 <= k < |a| && a[k] == x;
      assert a[1..][k - 1] == x;
    }
    if x in a[1..] {
      var k :| 0 <= k < |a[1..]| && a[1..][k] == x;
      assert a[k + 1] == x;
    }
  }

  /** The value with the keys of every object in order. */
  function Norm(v: Value): Value {
    match v
    case List(items) => List(seq(|items|, i requires 0 <= i < |items| => Norm(items[i])))
    case Record(fields) =>
      Record(SortFields(seq(|fields|, i requires 0 <= i < |fields| => Field(fields[i].name, Norm(fields[i].value)))))
    case _ => v
  }

  function NormFields(fields: seq<Field>): (r: seq<Field>)
    ensures |r| == |fields|
  {
    seq(|fields|, i requires 0 <= i < |fields| => Field(fields[i].name, Norm(fields[i].value)))
  }

  lemma NormRecord(fields: seq<Field>)
    ensures Norm(Record(fields)) == Record(SortFields(NormFields(fields)))
  {
    assert NormFields(fields) ==
        seq(|fields|, i requires 0 <= i < |fields| => Field(fields[i].name, Norm(fields[i].value)));
  }

  lemma {:induction false} SameIsNorm(v: Value, w: Value)
    requires WellFormed(v) && WellFormed(w)
    ensures Same(v, w) <==> Norm(v) == Norm(w)
    decreases v
  {
    match (v, w)
    case (List(a), List(b)) => SameLists(a, b);
    case (Record(a), Record(b)) => SameRecords(a, b);
    case _ =>
  }

  lemma {:induction false} SameLists(a: seq<Value>, b: seq<Value>)
    requires WellFormed(List(a)) && WellFormed(List(b))
    ensures Same(List(a), List(b)) <==> Norm(List(a)) == Norm(List(b))
    decreases a
  {
    var x, y := Norm(List(a)).items, Norm(List(b)).items;
    if |a| == |b| {
      forall i | 0 <= i < |a| ensures Same(a[i], b[i]) <==> x[i] == y[i] {
        SameIsNorm(a[i], b[i]);
      }
    }
  }

  lemma {:induction false} SameRecords(a: seq<Field>, b: seq<Field>)
    requires WellFormed(Record(a)) && WellFormed(Record(b))
    ensures Same(Record(a), Record(b)) <==> Norm(Record(a)) == Norm(Record(b))
    decreases a
  {
    var x, y := NormFields(a), NormFields(b);
    forall i, j | 0 <= i < |a| && 0 <= j < |b| ensures SameField(a[i], b[j]) <==> x[i] == y[j] {
      SameIsNorm(a[i].value, b[j].value);
    }
    NormRecord(a);
    NormRecord(b);
    SameElements(a, b, x, y);
    SortTells(x, y);
  }

  predicate SameFields(a: seq<Field>, b: seq<Field>) {
    (forall f :: f in a ==> f in b) && (forall f :: f in b ==> f in a)
  }

  /** Sorted lists are equal exactly when the lists hold the same fields. */
  lemma SortTells(a: seq<Field>, b: seq<Field>)
    requires DistinctNames(a) && DistinctNames(b)
    ensures SortFields(a) == SortFields(b) <==> SameFields(a, b)
  {
    var x, y := SortFields(a), SortFields(b);
    if SameFields(a, b) {
      SortAscends(a);
      SortAscends(b);
      AscendingUnique(x, y);
    }
  }

  lemma SameElements(a: seq<Field>, b: seq<Field>, x: seq<Field>, y: seq<Field>)
    requires |x| == |a| && |y| == |b|
    requires forall i, j :: 0 <= i < |a| && 0 <= j < |b| ==> (SameField(a[i], b[j]) <==> x[i] == y[j])
    ensures Same(Record(a), Record(b)) <==> SameFields(x, y)
  {
    forall i | 0 <= i < |a| ensures HasField(a[i], b) <==> x[i] in y {
      if j :| 0 <= j < |b| && SameField(a[i], b[j]) {
        assert x[i] == y[j];
      }
      if j :| 0 <= j < |y| && y[j] == x[i] {
        assert SameField(a[i], b[j]);
      }
    }
    forall j | 0 <= j < |b| ensures IsField(a, b[j]) <==> y[j] in x {
      if i :| 0 <= i < |a| && SameField(a[i], b[j]) {
        assert x[i] == y[j];
      }
      if i :| 0 <= i < |x| && x[i] == y[j] {
        assert SameField(a[i], b[j]);
      }
    }
    AllIn(x, y);
    AllIn(y, x);
  }

  lemma AllIn(x: seq<Field>, y: seq<Field>)
    ensures (forall f :: f in x ==> f in y) <==> forall i :: 0 <= i < |x| ==> x[i] in y
  {
  }

  // ---------- printing ----------

  /** A character as `JSON.stringify` writes it inside quotes. */
  function JsEscape(c: char): string {
    if c in SHORT || c < ' ' then Escape(c) else [c]
  }

  function JsEscapeAll(s: string): string {
    if s == "" then "" else JsEscape(s[0]) + JsEscapeAll(s[1..])
  }

  function JsQuote(s: string): string {
    "\"" + JsEscapeAll(s) + "\""
  }

  function Print(v: Value): string
    decreases v, 1
  {
    match v
    case Null => "null"
    case Bool(b) => if b then "true" else "false"
    case Number(text) => text
    case Text(s) => JsQuote(s)
    case List(items) => "[" + PrintItems(items) + "]"
    case Record(fields) => "{" + PrintFields(fields) + "}"
  }

  function PrintItems(items: seq<Value>): string
    decreases items, 0
  {
    if items == [] then ""
    else Print(items[0]) + if |items| == 1 then "" else "," + PrintItems(items[1..])
  }

  function PrintFields(fields: seq<Field>): string
    decreases fields, 0
  {
    if fields == [] then ""
    else JsQuote(fields[0].name) + ":" + Print(fields[0].value) + if |fields| == 1 then "" else "," + PrintFields(fields[1..])
  }

  /** `canonicalJson`: the keys of every object are sorted, and the value is printed. */
  function Canonical(v: Value): string {
    Print(Norm(v))
  }

  // ---------- printed text tells the value ----------

  lemma ReadJsEscape(c: char, rest: string)
    ensures ReadChar(JsEscape(c) + rest) == Some(Read(c, rest)) && JsEscape(c)[0] != '"'
  {
    if c in SHORT || c < ' ' {
      ReadEscape(c, rest);
    } else {
      assert ([c] + rest)[1..] == rest;
    }
  }

  lemma {:induction false} ReadJsQuoted(s: string, rest: string)
    ensures ReadString(JsEscapeAll(s) + "\"" + rest) == Some(Read(s, rest))
  {
    if s == "" {
      assert (JsEscapeAll(s) + "\"" + rest)[1..] == rest;
    } else {
      var more := JsEscapeAll(s[1..]) + "\"" + rest;
      ReadJsQuoted(s[1..], rest);
      ReadJsEscape(s[0], more);
      assert JsEscapeAll(s) + "\"" + rest == JsEscape(s[0]) + more;
      ReadOneMore(JsEscapeAll(s) + "\"" + rest, s[0], more, s[1..], rest);
      assert [s[0]] + s[1..] == s;
    }
  }

  lemma QuoteTells(s: string, t: string, a: string, b: string)
    requires JsQuote(s) + a == JsQuote(t) + b
    ensures s == t && a == b
  {
    ReadQuotedText(s, a);
    ReadQuotedText(t, b);
  }

  lemma ReadQuotedText(s: string, a: string)
    ensures ReadString((JsQuote(s) + a)[1..]) == Some(Read(s, a))
  {
    ReadJsQuoted(s, a);
    QuoteTail(JsEscapeAll(s), a);
  }

  lemma NumberTells(s: string, t: string, a: string, b: string)
    requires (forall i :: 0 <= i < |s| ==> NumberChar(s[i])) && (forall i :: 0 <= i < |t| ==> NumberChar(t[i]))
    requires Delimited(a) && Delimited(b) && s + a == t + b
    ensures s == t && a == b
  {
    NumberLengthIs(s, a);
    NumberLengthIs(t, b);
    assert s == (s + a)[..|s|] && t == (t + b)[..|t|];
    assert a == (s + a)[|s|..] && b == (t + b)[|t|..];
  }

  predicate Numeric(v: Value) {
    match v
    case Number(text) => text != "" && forall i :: 0 <= i < |text| ==> NumberChar(text[i])
    case List(items) => forall i :: 0 <= i < |items| ==> Numeric(items[i])
    case Record(fields) => forall i :: 0 <= i < |fields| ==> Numeric(fields[i].value)
    case _ => true
  }

  /** The first character of printed text tells the kind of the value. */
  function Mark(v: Value): char {
    match v
    case Null => 'n'
    case Bool(b) => if b then 't' else 'f'
    case Number(_) => '0'
    case Text(_) => '"'
    case List(_) => '['
    case Record(_) => '{'
  }

  lemma PrintStart(v: Value, rest: string)
    requires Numeric(v)
    ensures var s := Print(v) + rest;
            s != "" && Mark(v) == if NumberChar(s[0]) then '0' else s[0]
  {
    assert (Print(v) + rest)[0] == Print(v)[0];
  }

  lemma HeadTells(head: string, a: string, b: string)
    requires head + a == head + b
    ensures a == b
  {
    assert a == (head + a)[|head|..] && b == (head + b)[|head|..];
  }

  lemma {:induction false} PrintTells(v: Value, w: Value, a: string, b: string)
    requires Numeric(v) && Numeric(w) && Delimited(a) && Delimited(b) && Print(v) + a == Print(w) + b
    ensures v == w && a == b
    decreases v, 1
  {
    PrintStart(v, a);
    PrintStart(w, b);
    match v
    case Number(s) => NumberTells(s, w.text, a, b);
    case Text(s) => QuoteTells(s, w.s, a, b);
    case List(items) =>
      Unbracket("[", PrintItems(items), "]", a);
      Unbracket("[", PrintItems(w.items), "]", b);
      HeadTells("[", PrintItems(items) + "]" + a, PrintItems(w.items) + "]" + b);
      ItemsTell(items, w.items, a, b);
    case Record(fields) =>
      Unbracket("{", PrintFields(fields), "}", a);
      Unbracket("{", PrintFields(w.fields), "}", b);
      HeadTells("{", PrintFields(fields) + "}" + a, PrintFields(w.fields) + "}" + b);
      FieldsTell(fields, w.fields, a, b);
    case _ => HeadTells(Print(v), a, b);
  }

  lemma Unbracket(left: string, middle: string, right: string, rest: string)
    ensures (left + middle + right) + rest == left + (middle + right + rest)
  {
  }

  /** The text after the first item: a bracket, or a comma and more. */
  function ItemsRest(items: seq<Value>, a: string): (r: string)
    requires items != []
    ensures r != "" && Delimited(r)
  {
    if |items| == 1 then "]" + a else "," + (PrintItems(items[1..]) + "]" + a)
  }

  lemma ItemsSplit(items: seq<Value>, a: string)
    requires items != []
    ensures PrintItems(items) + "]" + a == Print(items[0]) + ItemsRest(items, a)
  {
    var more := if |items| == 1 then "" else "," + PrintItems(items[1..]);
    assert PrintItems(items) == Print(items[0]) + more;
    RegroupItems(PrintItems(items), Print(items[0]), more, PrintItems(items[1..]), a);
  }

  lemma ItemsRestTells(xs: seq<Value>, ys: seq<Value>, a: string, b: string)
    requires xs != [] && ys != [] && ItemsRest(xs, a) == ItemsRest(ys, b)
    ensures |xs| == 1 <==> |ys| == 1
    ensures if |xs| == 1 then a == b else PrintItems(xs[1..]) + "]" + a == PrintItems(ys[1..]) + "]" + b
  {
    assert ItemsRest(xs, a)[0] == ItemsRest(ys, b)[0];
    if |xs| == 1 {
      HeadTells("]", a, b);
    } else {
      HeadTells(",", PrintItems(xs[1..]) + "]" + a, PrintItems(ys[1..]) + "]" + b);
    }
  }

  lemma {:induction false} ItemsTell(xs: seq<Value>, ys: seq<Value>, a: string, b: string)
    requires Numeric(List(xs)) && Numeric(List(ys))
    requires PrintItems(xs) + "]" + a == PrintItems(ys) + "]" + b
    ensures xs == ys && a == b
    decreases xs, 0
  {
    if xs == [] || ys == [] {
      EmptyItemsTell(xs, ys, a, b);
    } else {
      ItemsSplit(xs, a);
      ItemsSplit(ys, b);
      PrintTells(xs[0], ys[0], ItemsRest(xs, a), ItemsRest(ys, b));
      ItemsRestTells(xs, ys, a, b);
      if |xs| > 1 {
        NumericTail(xs);
        NumericTail(ys);
        ItemsTell(xs[1..], ys[1..], a, b);
      }
      SameByParts(xs, ys);
    }
  }

  lemma NumericTail(items: seq<Value>)
    requires Numeric(List(items)) && items != []
    ensures Numeric(List(items[1..]))
  {
  }

  lemma SameByParts<T>(xs: seq<T>, ys: seq<T>)
    requires xs != [] && ys != [] && xs[0] == ys[0] && xs[1..] == ys[1..]
    ensures xs == ys
  {
    assert xs == [xs[0]] + xs[1..] && ys == [ys[0]] + ys[1..];
  }

  lemma EmptyItemsTell(xs: seq<Value>, ys: seq<Value>, a: string, b: string)
    requires Numeric(List(xs)) && Numeric(List(ys)) && (xs == [] || ys == [])
    requires PrintItems(xs) + "]" + a == PrintItems(ys) + "]" + b
    ensures xs == ys && a == b
  {
    NoItems(xs, a);
    NoItems(ys, b);
    HeadTells("]", a, b);
  }

  /** Printed items start with a bracket only if there are none. */
  lemma NoItems(items: seq<Value>, a: string)
    requires Numeric(List(items))
    ensures var s := PrintItems(items) + "]" + a;
            s != "" && (s[0] == ']' <==> items == []) && (items == [] ==> s == "]" + a)
  {
    if items != [] {
      ItemsSplit(items, a);
      PrintStart(items[0], ItemsRest(items, a));
    } else {
      assert "" + "]" + a == "]" + a;
    }
  }

  function FieldsRest(fields: seq<Field>, a: string): (r: string)
    requires fields != []
    ensures r != "" && Delimited(r)
  {
    if |fields| == 1 then "}" + a else "," + (PrintFields(fields[1..]) + "}" + a)
  }

  lemma FieldsSplit(fields: seq<Field>, a: string)
    requires fields != []
    ensures PrintFields(fields) + "}" + a ==
            JsQuote(fields[0].name) + (":" + (Print(fields[0].value) + FieldsRest(fields, a)))
  {
    var more := if |fields| == 1 then "" else "," + PrintFields(fields[1..]);
    var name, value := JsQuote(fields[0].name), Print(fields[0].value);
    assert PrintFields(fields) == name + ":" + value + more;
    Regroup(PrintFields(fields), name, value, more, a);
    RegroupTail(PrintFields(fields[1..]), a);
    Regroup3(name, value + (more + "}" + a));
  }

  lemma FieldsRestTells(xs: seq<Field>, ys: seq<Field>, a: string, b: string)
    requires xs != [] && ys != [] && FieldsRest(xs, a) == FieldsRest(ys, b)
    ensures |xs| == 1 <==> |ys| == 1
    ensures if |xs| == 1 then a == b else PrintFields(xs[1..]) + "}" + a == PrintFields(ys[1..]) + "}" + b
  {
    assert FieldsRest(xs, a)[0] == FieldsRest(ys, b)[0];
    if |xs| == 1 {
      HeadTells("}", a, b);
    } else {
      HeadTells(",", PrintFields(xs[1..]) + "}" + a, PrintFields(ys[1..]) + "}" + b);
    }
  }

  lemma Regroup3(name: string, more: string)
    ensures name + ":" + more == name + (":" + more)
  {
  }

  lemma {:induction false} FieldsTell(xs: seq<Field>, ys: seq<Field>, a: string, b: string)
    requires Numeric(Record(xs)) && Numeric(Record(ys))
    requires PrintFields(xs) + "}" + a == PrintFields(ys) + "}" + b
    ensures xs == ys && a == b
    decreases xs, 0, 1
  {
    if xs == [] || ys == [] {
      EmptyFieldsTell(xs, ys, a, b);
    } else {
      FirstFieldTells(xs, ys, a, b);
      FieldsRestTells(xs, ys, a, b);
      if |xs| > 1 {
        NumericRest(xs);
        NumericRest(ys);
        FieldsTell(xs[1..], ys[1..], a, b);
      }
      SameByParts(xs, ys);
    }
  }

  lemma FirstFieldTells(xs: seq<Field>, ys: seq<Field>, a: string, b: string)
    requires xs != [] && ys != [] && Numeric(Record(xs)) && Numeric(Record(ys))
    requires PrintFields(xs) + "}" + a == PrintFields(ys) + "}" + b
    ensures xs[0] == ys[0] && FieldsRest(xs, a) == FieldsRest(ys, b)
    decreases xs, 0, 0
  {
    FieldsSplit(xs, a);
    FieldsSplit(ys, b);
    var x, y := Print(xs[0].value) + FieldsRest(xs, a), Print(ys[0].value) + FieldsRest(ys, b);
    QuoteTells(xs[0].name, ys[0].name, ":" + x, ":" + y);
    HeadTells(":", x, y);
    PrintTells(xs[0].value, ys[0].value, FieldsRest(xs, a), FieldsRest(ys, b));
  }

  lemma NumericRest(fields: seq<Field>)
    requires Numeric(Record(fields)) && fields != []
    ensures Numeric(Record(fields[1..]))
  {
  }

  lemma EmptyFieldsTell(xs: seq<Field>, ys: seq<Field>, a: string, b: string)
    requires xs == [] || ys == []
    requires PrintFields(xs) + "}" + a == PrintFields(ys) + "}" + b
    ensures xs == ys && a == b
  {
    NoFields(xs, a);
    NoFields(ys, b);
    HeadTells("}", a, b);
  }

  lemma NoFields(fields: seq<Field>, a: string)
    ensures var s := PrintFields(fields) + "}" + a;
            s != "" && (s[0] == '}' <==> fields == []) && (fields == [] ==> s == "}" + a)
  {
    if fields != [] {
      FieldsSplit(fields, a);
      assert JsQuote(fields[0].name)[0] == '"';
    } else {
      assert "" + "}" + a == "}" + a;
    }
  }

  // ---------- main result ----------

  lemma {:induction false} NormNumeric(v: Value)
    requires WellFormed(v)
    ensures Numeric(Norm(v))
  {
    match v
    case List(items) =>
      forall i | 0 <= i < |items| ensures Numeric(Norm(items[i])) { NormNumeric(items[i]); }
    case Record(fields) =>
      NormRecord(fields);
      forall i | 0 <= i < |fields| ensures Numeric(Norm(fields[i].value)) { NormNumeric(fields[i].value); }
      var sorted := SortFields(NormFields(fields));
      forall i | 0 <= i < |sorted| ensures Numeric(sorted[i].value) {
        assert sorted[i] in NormFields(fields);
      }
    case _ =>
  }

  /** Two values print the same if and only if they are equal up to the order of object keys. */
  lemma CanonicalIff(v: Value, w: Value)
    requires WellFormed(v) && WellFormed(w)
    ensures Canonical(v) == Canonical(w) <==> Same(v, w)
  {
    SameIsNorm(v, w);
    if Canonical(v) == Canonical(w) {
      NormNumeric(v);
      NormNumeric(w);
      assert Print(Norm(v)) + "" == Print(Norm(w)) + "";
      PrintTells(Norm(v), Norm(w), "", "");
    }
  }

  // ---------- what is printed ----------

  /** How UTF-16 orders two characters: by code, but those above U+FFFF come before U+E000. */
  predicate CharBelow(c: char, d: char) {
    var high, low := 0xE000 <= c as int < 0x10000, 0xE000 <= d as int < 0x10000;
    if high && d as int >= 0x10000 then false
    else if low && c as int >= 0x10000 then true
    else c < d
  }

  /** The first difference decides, or the end of the shorter name. */
  predicate NameBelow(a: string, b: string) {
    if a == "" then b != ""
    else b != "" && if a[0] == b[0] then NameBelow(a[1..], b[1..]) else CharBelow(a[0], b[0])
  }

  lemma UnitsBelow(c: char, d: char, a: seq<nat>, b: seq<nat>)
    requires c != d
    ensures Lex(Units(c) + a, Units(d) + b) <==> CharBelow(c, d)
  {
    var x, y := Units(c) + a, Units(d) + b;
    assert x[0] == Units(c)[0] && y[0] == Units(d)[0];
    if x[0] == y[0] {
      assert |Units(c)| == 2 && |Units(d)| == 2 by { FirstUnit(c); FirstUnit(d); }
      assert x[1..][0] == Units(c)[1] && y[1..][0] == Units(d)[1];
      SecondUnit(c, d);
    } else {
      FirstBelow(c, d);
    }
  }

  lemma FirstBelow(c: char, d: char)
    requires Units(c)[0] != Units(d)[0]
    ensures Units(c)[0] < Units(d)[0] <==> CharBelow(c, d)
  {
  }

  lemma SecondUnit(c: char, d: char)
    requires c != d && |Units(c)| == 2 && |Units(d)| == 2 && Units(c)[0] == Units(d)[0]
    ensures Units(c)[1] != Units(d)[1] && (Units(c)[1] < Units(d)[1] <==> CharBelow(c, d))
  {
  }

  lemma {:induction false} SamePrefixLex(u: seq<nat>, a: seq<nat>, b: seq<nat>)
    ensures Lex(u + a, u + b) <==> Lex(a, b)
  {
    if u == [] {
      assert u + a == a && u + b == b;
    } else {
      assert (u + a)[1..] == u[1..] + a && (u + b)[1..] == u[1..] + b;
      SamePrefixLex(u[1..], a, b);
    }
  }

  lemma {:induction false} LeqIs(a: string, b: string)
    requires a != b
    ensures Leq(a, b) <==> NameBelow(a, b)
  {
    if a != "" && b != "" {
      if a[0] == b[0] {
        SamePrefixLex(Units(a[0]), UnitsOf(a[1..]), UnitsOf(b[1..]));
        assert a == [a[0]] + a[1..] && b == [b[0]] + b[1..];
        LeqIs(a[1..], b[1..]);
      } else {
        UnitsBelow(a[0], b[0], UnitsOf(a[1..]), UnitsOf(b[1..]));
      }
    }
  }

  lemma {:induction false} PrintedItems(items: seq<Value>, parts: seq<string>)
    requires |parts| == |items| && forall i :: 0 <= i < |items| ==> parts[i] == Print(items[i])
    ensures PrintItems(items) == Commas(parts)
  {
    if |items| > 1 {
      PrintedItems(items[1..], parts[1..]);
      assert parts[0] + "," + Text.Join(parts[1..], ",") == parts[0] + ("," + Text.Join(parts[1..], ","));
    } else if |items| == 1 {
      assert Print(items[0]) + "" == Print(items[0]);
    }
  }

  function PrintField(f: Field): string {
    JsQuote(f.name) + ":" + Print(f.value)
  }

  lemma {:induction false} PrintedFields(fields: seq<Field>, parts: seq<string>)
    requires |parts| == |fields| && forall i :: 0 <= i < |fields| ==> parts[i] == PrintField(fields[i])
    ensures PrintFields(fields) == Commas(parts)
  {
    if |fields| > 1 {
      PrintedFields(fields[1..], parts[1..]);
      assert parts[0] + "," + Text.Join(parts[1..], ",") == parts[0] + ("," + Text.Join(parts[1..], ","));
    } else if |fields| == 1 {
      assert PrintField(fields[0]) + "" == PrintField(fields[0]);
    }
  }

  /** Text is quoted with no more escapes than JSON needs. */
  lemma JsQuoted(c: char, s: string)
    ensures JsQuote(s) == "\"" + JsEscapeAll(s) + "\"" && JsEscapeAll([c] + s) == JsEscape(c) + JsEscapeAll(s)
    ensures c >= ' ' && c != '"' && c != '\\' ==> JsEscape(c) == [c]
    ensures c < ' ' || c == '"' || c == '\\' ==> JsEscape(c) == Escape(c)
  {
    assert ([c] + s)[1..] == s;
  }

  lemma CanonicalScalar(v: Value)
    ensures v == Null ==> Canonical(v) == "null"
    ensures v.Bool? ==> Canonical(v) == if v.b then "true" else "false"
    ensures v.Number? ==> Canonical(v) == v.text
    ensures v.Text? ==> Canonical(v) == JsQuote(v.s)
  {
  }

  /** A list prints its items in order. */
  lemma CanonicalList(items: seq<Value>, parts: seq<string>)
    requires |parts| == |items| && forall i :: 0 <= i < |items| ==> parts[i] == Canonical(items[i])
    ensures Canonical(List(items)) == "[" + Commas(parts) + "]"
  {
    PrintedItems(Norm(List(items)).items, parts);
  }

  /** An object prints each of its fields once, quoted key, colon and value, the keys ascending. */
  lemma CanonicalRecord(fields: seq<Field>) returns (order: seq<Field>, parts: seq<string>)
    requires DistinctNames(fields)
    ensures |order| == |fields| == |parts| && forall f :: f in order <==> f in fields
    ensures forall i, j :: 0 <= i < j < |order| ==> NameBelow(order[i].name, order[j].name)
    ensures forall i :: 0 <= i < |parts| ==> parts[i] == JsQuote(order[i].name) + ":" + Canonical(order[i].value)
    ensures Canonical(Record(fields)) == "{" + Commas(parts) + "}"
  {
    order := SortFields(fields);
    SortAscends(fields);
    forall i, j | 0 <= i < j < |order| ensures NameBelow(order[i].name, order[j].name) {
      LeqIs(order[i].name, order[j].name);
    }
    SortNorm(fields);
    NormRecord(fields);
    var printed := NormFields(order);
    parts := seq(|printed|, i requires 0 <= i < |printed| => PrintField(printed[i]));
    PrintedFields(printed, parts);
  }

  /** Sorting looks at names only. */
  lemma {:induction false} SortNorm(fields: seq<Field>)
    ensures SortFields(NormFields(fields)) == NormFields(SortFields(fields))
  {
    if fields != [] {
      assert NormFields(fields)[1..] == NormFields(fields[1..]);
      SortNorm(fields[1..]);
      InsertNorm(fields[0], SortFields(fields[1..]));
    }
  }

  lemma {:induction false} InsertNorm(f: Field, fields: seq<Field>)
    ensures Insert(Field(f.name, Norm(f.value)), NormFields(fields)) == NormFields(Insert(f, fields))
  {
    if fields != [] && !Leq(f.name, fields[0].name) {
      assert NormFields(fields)[1..] == NormFields(fields[1..]);
      InsertNorm(f, fields[1..]);
    }
  }
}
