/** Pair-preserving JSON values (scripts/sanitize_nim_capture.py): an object keeps its pairs in
    order, duplicates included. */
module JsonValues {

  datatype Sign = Negative | Zero | Positive

  datatype NumberClass = NumberClass(sign: Sign, integer: bool)

  /** A Python number. A float is named by its `repr`, which tells any two floats apart, and
      carries the sign of its value: 0.0 and -0.0 both have sign Zero. */
  datatype Number = Int(value: int) | Float(sign: Sign, repr: string)

  datatype Json =
    | Null
    | Bool(b: bool)
    | Num(n: Number)
    | Str(s: string)
    | Arr(items: seq<Json>)
    | Obj(pairs: seq<Member>)

  datatype Member = Member(name: string, value: Json)

  /** `number_class` on a number. */
  function Class(n: Number): NumberClass {
    match n
    case Int(i) => NumberClass(if i < 0 then Negative else if i == 0 then Zero else Positive, true)
    case Float(sign, _) => NumberClass(sign, false)
  }

  predicate Finite(n: Number) {
    n.Float? ==> n.repr !in {"nan", "inf", "-inf"}
  }

  // ---------- decimal text ----------

  function Digit(d: nat): char
    requires d < 10
  {
    '0' + d as char
  }

  predicate IsDigit(c: char) { '0' <= c <= '9' }

  function DigitValue(c: char): nat
    requires IsDigit(c)
  {
    c as int - '0' as int
  }

  /** Decimal text of a natural number, without leading zeros. */
  function Decimal(n: nat): (s: string)
    ensures s != ""
    ensures forall i :: 0 <= i < |s| ==> IsDigit(s[i])
  {
    if n < 10 then [Digit(n)] else Decimal(n / 10) + [Digit(n % 10)]
  }

  /** The number a string of digits denotes. */
  function DecimalValue(s: string): nat
    requires forall i :: 0 <= i < |s| ==> IsDigit(s[i])
  {
    if s == "" then 0
    else
      assert IsDigit(s[|s| - 1]);
      DecimalValue(s[..|s| - 1]) * 10 + DigitValue(s[|s| - 1])
  }

  lemma {:induction false} DecimalRoundTrip(n: nat)
    ensures DecimalValue(Decimal(n)) == n
  {
    if n >= 10 {
      DecimalRoundTrip(n / 10);
      assert Decimal(n)[..|Decimal(n)| - 1] == Decimal(n / 10);
    }
  }

  /** Decimal text tells numbers apart. */
  lemma DecimalInjective(m: nat, n: nat)
    requires Decimal(m) == Decimal(n)
    ensures m == n
  {
    DecimalRoundTrip(m);
    DecimalRoundTrip(n);
  }
}
