/** The compact ASCII encoder of scripts/sanitize_nim_capture.py, and a reader of its output:
    reading back what was encoded gives the value again. */
module JsonText {
  import opened Wrappers
  import opened JsonValues

  // ---------- strings ----------

  function HexDigit(d: nat): char
    requires d < 16
  {
    if d < 10 then '0' + d as char else 'a' + (d - 10) as char
  }

  predicate IsHex(c: char) { '0' <= c <= '9' || 'a' <= c <= 'f' }

  function HexValue(c: char): (d: nat)
    requires IsHex(c)
    ensures d < 16
  {
    if c <= '9' then c as int - '0' as int else c as int - 'a' as int + 10
  }

  function Hex4(n: nat): string
    requires n < 0x10000
  {
    [HexDigit(n / 0x1000), HexDigit(n / 0x100 % 16), HexDigit(n / 16 % 16), HexDigit(n % 16)]
  }

  function ReadHex4(s: string): Option<nat> {
    if |s| >= 4 && IsHex(s[0]) && IsHex(s[1]) && IsHex(s[2]) && IsHex(s[3])
    then Some(((HexValue(s[0]) * 16 + HexValue(s[1])) * 16 + HexValue(s[2])) * 16 + HexValue(s[3]))
    else None
  }

  predicate Printable(c: char) { ' ' <= c <= '~' }

  /** A character as `json.dumps` with `ensure_ascii` writes it inside quotes. */
  function Escape(c: char): string {
    if c == '"' then "\\\""
    else if c == '\\' then "\\\\"
    else if c == '\n' then "\\n"
    else if c == '\r' then "\\r"
    else if c == '\t' then "\\t"
    else if c == 8 as char then "\\b"
    else if c == 12 as char then "\\f"
    else if Printable(c) then [c]
    else if c as int < 0x10000 then "\\u" + Hex4(c as int)
    else PairText(c as int - 0x10000)
  }

  /** A surrogate pair. */
  function PairText(n: nat): string
    requires n < 0x100000
  {
    SurrogateText(n / 0x400, n % 0x400)
  }

  function SurrogateText(a: nat, b: nat): string
    requires a < 0x400 && b < 0x400
  {
    "\\u" + Hex4(0xD800 + a) + "\\u" + Hex4(0xDC00 + b)
  }

  function EscapeAll(s: string): string {
    if s == "" then "" else Escape(s[0]) + EscapeAll(s[1..])
  }

  function Quote(s: string): string {
    "\"" + EscapeAll(s) + "\""
  }

  datatype Read<T> = Read(value: T, rest: string)

  /** One character of a quoted string, at the start of `s`. */
  function ReadChar(s: string): (r: Option<Read<char>>)
    ensures r.Some? ==> |r.value.rest| < |s|
  {
    if s == "" || s[0] == '"' || s[0] < ' ' then None
    else if s[0] != '\\' then Some(Read(s[0], s[1..]))
    else if |s| < 2 then None
    else if s[1] in {'"', '\\', '/'} then Some(Read(s[1], s[2..]))
    else if s[1] == 'n' then Some(Read('\n', s[2..]))
    else if s[1] == 'r' then Some(Read('\r', s[2..]))
    else if s[1] == 't' then Some(Read('\t', s[2..]))
    else if s[1] == 'b' then Some(Read(8 as char, s[2..]))
    else if s[1] == 'f' then Some(Read(12 as char, s[2..]))
    else if s[1] != 'u' then None
    else
      match ReadHex4(s[2..])
      case None => None
      case Some(n) =>
        if n < 0xD800 || 0xE000 <= n < 0x10000 then Some(Read(n as char, s[6..]))
        else if 0xD800 <= n < 0xDC00 && |s| >= 8 && s[6] == '\\' && s[7] == 'u' then
          match ReadHex4(s[8..])
          case None => None
          case Some(m) =>
            if 0xDC00 <= m < 0xE000
            then Some(Read((0x10000 + (n - 0xD800) * 0x400 + (m - 0xDC00)) as char, s[12..]))
            else None
        else None
  }

  /** The rest of a quoted string, up to and including the closing quote. */
  function ReadString(s: string): (r: Option<Read<string>>)
    ensures r.Some? ==> |r.value.rest| < |s|
    decreases |s|
  {
    if s == "" then None
    else if s[0] == '"' then Some(Read("", s[1..]))
    else
      var c := ReadChar(s);
      if c.None? then None
      else
        var more := ReadString(c.value.rest);
        if more.None? then None else Some(Read([c.value.value] + more.value.value, more.value.rest))
  }

  lemma HexDigitRoundTrip(d: nat)
    requires d < 16
    ensures IsHex(HexDigit(d)) && HexValue(HexDigit(d)) == d
  {
  }

  lemma Hex4RoundTrip(n: nat, rest: string)
    requires n < 0x10000
    ensures ReadHex4(Hex4(n) + rest) == Some(n)
  {
    ReadDigits(n / 0x1000, n / 0x100 % 16, n / 16 % 16, n % 16, rest);
    HexSum(n);
  }

  lemma ReadDigits(a: nat, b: nat, c: nat, d: nat, rest: string)
    requires a < 16 && b < 16 && c < 16 && d < 16
    ensures ReadHex4([HexDigit(a), HexDigit(b), HexDigit(c), HexDigit(d)] + rest) == Some(((a * 16 + b) * 16 + c) * 16 + d)
  {
    HexDigitRoundTrip(a);
    HexDigitRoundTrip(b);
    HexDigitRoundTrip(c);
    HexDigitRoundTrip(d);
  }

  lemma HexSum(n: nat)
    ensures ((n / 0x1000 * 16 + n / 0x100 % 16) * 16 + n / 16 % 16) * 16 + n % 16 == n
  {
    DivideTwice(n);
    DivideTwice(n / 16);
    DivideThrice(n);
  }

  lemma DivideTwice(n: nat)
    ensures n / 0x100 == n / 16 / 16 && n == n / 16 * 16 + n % 16
  {
  }

  lemma DivideThrice(n: nat)
    ensures n / 0x1000 == n / 16 / 16 / 16
  {
    var a, b, c := n / 16, n / 16 / 16, n / 16 / 16 / 16;
    assert n == a * 16 + n % 16 && a == b * 16 + a % 16 && b == c * 16 + b % 16;
    assert c * 0x1000 <= n < (c + 1) * 0x1000;
  }

  lemma ReadShort(c: char, e: char, rest: string)
    requires Escape(c) == ['\\', e] && e != 'u'
    ensures ReadChar(Escape(c) + rest) == Some(Read(c, rest))
  {
    assert (Escape(c) + rest)[2..] == rest;
  }

  lemma ReadUnicode(n: nat, rest: string)
    requires n < 0xD800 || 0xE000 <= n < 0x10000
    ensures ReadChar("\\u" + Hex4(n) + rest) == Some(Read(n as char, rest))
  {
    var s := "\\u" + Hex4(n) + rest;
    assert s[2..] == Hex4(n) + rest && s[6..] == rest;
    Hex4RoundTrip(n, rest);
  }

  lemma ReadPair(hi: nat, lo: nat, s: string)
    requires 0xD800 <= hi < 0xDC00 && 0xDC00 <= lo < 0xE000 && |s| >= 12
    requires s[0] == '\\' && s[1] == 'u' && ReadHex4(s[2..]) == Some(hi)
    requires s[6] == '\\' && s[7] == 'u' && ReadHex4(s[8..]) == Some(lo)
    ensures ReadChar(s) == Some(Read((0x10000 + (hi - 0xD800) * 0x400 + (lo - 0xDC00)) as char, s[12..]))
  {
  }

  lemma ReadSurrogates(n: nat, rest: string)
    requires n < 0x100000
    ensures ReadChar(PairText(n) + rest) == Some(Read((0x10000 + n) as char, rest))
  {
    Halves(n);
    ReadHalves(n, n / 0x400, n % 0x400, rest);
  }

  lemma Halves(n: nat)
    requires n < 0x100000
    ensures n / 0x400 < 0x400 && n / 0x400 * 0x400 + n % 0x400 == n
  {
  }

  lemma ReadHalves(n: nat, a: nat, b: nat, rest: string)
    requires a < 0x400 && b < 0x400 && n == a * 0x400 + b
    ensures ReadChar(SurrogateText(a, b) + rest) == Some(Read((0x10000 + n) as char, rest))
  {
    var hi, lo := 0xD800 + a, 0xDC00 + b;
    Hex4RoundTrip(hi, "\\u" + Hex4(lo) + rest);
    Hex4RoundTrip(lo, rest);
    ReadHexPair(Hex4(hi), hi, Hex4(lo), lo, rest);
  }

  lemma ReadHexPair(h: string, hi: nat, l: string, lo: nat, rest: string)
    requires |h| == |l| == 4 && 0xD800 <= hi < 0xDC00 && 0xDC00 <= lo < 0xE000
    requires ReadHex4(h + ("\\u" + l + rest)) == Some(hi) && ReadHex4(l + rest) == Some(lo)
    ensures ReadChar("\\u" + h + "\\u" + l + rest) == Some(Read((0x10000 + (hi - 0xD800) * 0x400 + (lo - 0xDC00)) as char, rest))
  {
    PairSlices(h, l, rest);
    ReadPair(hi, lo, "\\u" + h + "\\u" + l + rest);
  }

  lemma PairSlices(hi: string, lo: string, rest: string)
    requires |hi| == |lo| == 4
    ensures var s := "\\u" + hi + "\\u" + lo + rest;
            |s| >= 12 && s[0] == '\\' && s[1] == 'u' && s[6] == '\\' && s[7] == 'u' &&
            s[2..] == hi + ("\\u" + lo + rest) && s[8..] == lo + rest && s[12..] == rest
  {
  }

  lemma ReadEscape(c: char, rest: string)
    ensures ReadChar(Escape(c) + rest) == Some(Read(c, rest))
    ensures Escape(c)[0] != '"'
  {
    if c in SHORT {
      EscapeOfShort(c);
      ReadShort(c, Escape(c)[1], rest);
    } else if Printable(c) {
      ReadPlain(c, rest);
    } else {
      ReadLong(c, rest);
    }
  }

  /** The characters written as a backslash and a letter. */
  const SHORT: set<char> := {'"', '\\', '\n', '\r', '\t', 8 as char, 12 as char}

  lemma EscapeOfShort(c: char)
    requires c in SHORT
    ensures |Escape(c)| == 2 && Escape(c) == ['\\', Escape(c)[1]] && Escape(c)[1] != 'u'
  {
  }

  lemma ReadPlain(c: char, rest: string)
    requires c !in SHORT && Printable(c)
    ensures Escape(c) == [c] && ReadChar([c] + rest) == Some(Read(c, rest))
  {
    assert ([c] + rest)[1..] == rest;
  }

  lemma ReadLong(c: char, rest: string)
    requires c !in SHORT && !Printable(c)
    ensures ReadChar(Escape(c) + rest) == Some(Read(c, rest)) && Escape(c)[0] == '\\'
  {
    if c as int < 0x10000 { ReadUnit(c, rest); } else { ReadAstral(c, rest); }
  }

  lemma ReadUnit(c: char, rest: string)
    requires c !in SHORT && !Printable(c) && c as int < 0x10000
    ensures ReadChar(Escape(c) + rest) == Some(Read(c, rest)) && Escape(c)[0] == '\\'
  {
    EscapeOfUnit(c);
    ReadUnicode(c as int, rest);
  }

  lemma ReadAstral(c: char, rest: string)
    requires c as int >= 0x10000
    ensures ReadChar(Escape(c) + rest) == Some(Read(c, rest)) && Escape(c)[0] == '\\'
  {
    EscapeOfPair(c);
    ReadSurrogates(c as int - 0x10000, rest);
  }

  lemma EscapeOfUnit(c: char)
    requires c !in SHORT && !Printable(c) && c as int < 0x10000
    ensures Escape(c) == "\\u" + Hex4(c as int)
  {
  }

  lemma EscapeOfPair(c: char)
    requires c as int >= 0x10000
    ensures Escape(c) == PairText(c as int - 0x10000) && Escape(c)[0] == '\\'
  {
  }

  lemma EscapeFirst(s: string, rest: string)
    requires s != ""
    ensures EscapeAll(s) + "\"" + rest == Escape(s[0]) + (EscapeAll(s[1..]) + "\"" + rest)
  {
  }

  lemma {:induction false} ReadQuoted(s: string, rest: string)
    ensures ReadString(EscapeAll(s) + "\"" + rest) == Some(Read(s, rest))
  {
    if s == "" {
      assert (EscapeAll(s) + "\"" + rest)[1..] == rest;
    } else {
      var more := EscapeAll(s[1..]) + "\"" + rest;
      ReadQuoted(s[1..], rest);
      ReadEscape(s[0], more);
      EscapeFirst(s, rest);
      ReadOneMore(EscapeAll(s) + "\"" + rest, s[0], more, s[1..], rest);
      assert [s[0]] + s[1..] == s;
    }
  }

  lemma ReadOneMore(text: string, c: char, more: string, t: string, rest: string)
    requires text != "" && text[0] != '"' && ReadChar(text) == Some(Read(c, more))
    requires ReadString(more) == Some(Read(t, rest))
    ensures ReadString(text) == Some(Read([c] + t, rest))
  {
  }

  // ---------- numbers ----------

  predicate NumberChar(c: char) {
    IsDigit(c) || c == '-' || c == '+' || c == '.' || c == 'e'
  }

  /** A float literal rather than an integer one. */
  predicate HasFraction(s: string) {
    '.' in s || 'e' in s
  }

  function SignOf(repr: string): Sign {
    if repr == "0.0" || repr == "-0.0" then Zero else if "-" <= repr then Negative else Positive
  }

  /** Text that is read as a float of this name; the `repr` of every finite float is such a text. */
  predicate FloatText(sign: Sign, repr: string) {
    && repr != "" && (IsDigit(repr[0]) || repr[0] == '-')
    && (forall i :: 0 <= i < |repr| ==> NumberChar(repr[i]))
    && HasFraction(repr) && sign == SignOf(repr)
  }

  function IntText(i: int): string {
    if i < 0 then "-" + Decimal(-i) else Decimal(i)
  }

  function NumberText(n: Number): string {
    match n
    case Int(i) => IntText(i)
    case Float(_, repr) => repr
  }

  function NumberLength(s: string): (n: nat)
    ensures n <= |s|
  {
    if s == "" || !NumberChar(s[0]) then 0 else 1 + NumberLength(s[1..])
  }

  predicate AllDigits(s: string) {
    forall i :: 0 <= i < |s| ==> IsDigit(s[i])
  }

  function NumberOf(token: string): Option<Number> {
    if HasFraction(token) then Some(Float(SignOf(token), token))
    else if token != "" && AllDigits(token) then Some(Int(DecimalValue(token)))
    else if |token| > 1 && token[0] == '-' && AllDigits(token[1..]) then Some(Int(-(DecimalValue(token[1..]) as int)))
    else None
  }

  predicate Delimited(rest: string) {
    rest == "" || !NumberChar(rest[0])
  }

  lemma {:induction false} NumberLengthIs(token: string, rest: string)
    requires forall i :: 0 <= i < |token| ==> NumberChar(token[i])
    requires Delimited(rest)
    ensures NumberLength(token + rest) == |token|
  {
    if token != "" {
      assert (token + rest)[1..] == token[1..] + rest;
      NumberLengthIs(token[1..], rest);
    } else {
      assert token + rest == rest;
    }
  }

  predicate Writable(n: Number) {
    n.Float? ==> FloatText(n.sign, n.repr)
  }

  lemma NumberRoundTrip(n: Number)
    requires Writable(n)
    ensures NumberOf(NumberText(n)) == Some(n)
    ensures var t := NumberText(n); t != "" && (IsDigit(t[0]) || t[0] == '-')
    ensures forall i :: 0 <= i < |NumberText(n)| ==> NumberChar(NumberText(n)[i])
  {
    match n
    case Float(_, _) =>
    case Int(i) =>
      if i < 0 { NegativeRoundTrip(-i); } else { DecimalRoundTrip(i); }
  }

  lemma NegativeRoundTrip(m: nat)
    ensures var t := "-" + Decimal(m);
            NumberOf(t) == Some(Int(-(m as int))) && t[0] == '-' && forall i :: 0 <= i < |t| ==> NumberChar(t[i])
  {
    var t := "-" + Decimal(m);
    DecimalRoundTrip(m);
    assert t[1..] == Decimal(m) && !IsDigit(t[0]);
    assert forall i :: 0 < i < |t| ==> IsDigit(t[i]);
    assert !HasFraction(t);
  }

  // ---------- values ----------

  function Encode(v: Json): string
    decreases v, 1
  {
    match v
    case Null => "null"
    case Bool(b) => if b then "true" else "false"
    case Num(n) => NumberText(n)
    case Str(s) => Quote(s)
    case Arr(items) => "[" + EncodeItems(items) + "]"
    case Obj(pairs) => "{" + EncodePairs(pairs) + "}"
  }

  function EncodeItems(items: seq<Json>): string
    decreases items, 0
  {
    if items == [] then ""
    else Encode(items[0]) + if |items| == 1 then "" else "," + EncodeItems(items[1..])
  }

  function EncodePairs(pairs: seq<Member>): string
    decreases pairs, 0
  {
    if pairs == [] then ""
    else Quote(pairs[0].name) + ":" + Encode(pairs[0].value)
         + if |pairs| == 1 then "" else "," + EncodePairs(pairs[1..])
  }

  /** Every float of the value is finite and named by its `repr`. */
  predicate Encodable(v: Json) {
    match v
    case Num(n) => Writable(n)
    case Arr(items) => forall i :: 0 <= i < |items| ==> Encodable(items[i])
    case Obj(pairs) => forall i :: 0 <= i < |pairs| ==> Encodable(pairs[i].value)
    case _ => true
  }

  /** A reader of compact JSON text; the text after the value is returned. */
  function ReadValue(s: string): (r: Option<Read<Json>>)
    ensures r.Some? ==> |r.value.rest| < |s|
    decreases |s|, 0
  {
    if s == "" then None
    else if s[0] == '"' then
      var t := ReadString(s[1..]);
      if t.None? then None else Some(Read(Str(t.value.value), t.value.rest))
    else if s[0] == '[' then
      if |s| > 1 && s[1] == ']' then Some(Read(Arr([]), s[2..]))
      else
        var t := ReadItems(s[1..]);
        if t.None? then None else Some(Read(Arr(t.value.value), t.value.rest))
    else if s[0] == '{' then
      if |s| > 1 && s[1] == '}' then Some(Read(Obj([]), s[2..]))
      else
        var t := ReadPairs(s[1..]);
        if t.None? then None else Some(Read(Obj(t.value.value), t.value.rest))
    else if "null" <= s then Some(Read(Null, s[4..]))
    else if "true" <= s then Some(Read(Bool(true), s[4..]))
    else if "false" <= s then Some(Read(Bool(false), s[5..]))
    else
      var k := NumberLength(s);
      var n := NumberOf(s[..k]);
      if k == 0 || n.None? then None else Some(Read(Num(n.value), s[k..]))
  }

  function ReadItems(s: string): (r: Option<Read<seq<Json>>>)
    ensures r.Some? ==> |r.value.rest| < |s|
    decreases |s|, 1
  {
    var v := ReadValue(s);
    if v.None? || v.value.rest == "" then None
    else if v.value.rest[0] == ']' then Some(Read([v.value.value], v.value.rest[1..]))
    else if v.value.rest[0] != ',' then None
    else
      var more := ReadItems(v.value.rest[1..]);
      if more.None? then None else Some(Read([v.value.value] + more.value.value, more.value.rest))
  }

  function ReadPairs(s: string): (r: Option<Read<seq<Member>>>)
    ensures r.Some? ==> |r.value.rest| < |s|
    decreases |s|, 1
  {
    if s == "" || s[0] != '"' then None
    else
      var name := ReadString(s[1..]);
      if name.None? || name.value.rest == "" || name.value.rest[0] != ':' then None
      else
        var v := ReadValue(name.value.rest[1..]);
        if v.None? || v.value.rest == "" then None
        else
          var member := Member(name.value.value, v.value.value);
          if v.value.rest[0] == '}' then Some(Read([member], v.value.rest[1..]))
          else if v.value.rest[0] != ',' then None
          else
            var more := ReadPairs(v.value.rest[1..]);
            if more.None? then None else Some(Read([member] + more.value.value, more.value.rest))
  }

  /** Encoded text starts with none of the characters that close or separate. */
  lemma EncodeStart(v: Json)
    requires Encodable(v)
    ensures Encode(v) != "" && Encode(v)[0] in "ntf\"[{-0123456789"
  {
    if v.Num? { NumberRoundTrip(v.n); }
  }

  lemma ReadEncodedNumber(n: Number, rest: string)
    requires Writable(n) && Delimited(rest)
    ensures ReadValue(NumberText(n) + rest) == Some(Read(Num(n), rest))
  {
    var t := NumberText(n);
    var s := t + rest;
    NumberRoundTrip(n);
    NumberLengthIs(t, rest);
    assert s[..|t|] == t && s[|t|..] == rest && s[0] == t[0];
  }

  lemma ReadEncodedWord(v: Json, rest: string)
    requires v.Null? || v.Bool?
    ensures ReadValue(Encode(v) + rest) == Some(Read(v, rest))
  {
    var s := Encode(v) + rest;
    assert s[|Encode(v)|..] == rest;
    assert s[0] == Encode(v)[0];
  }

  lemma ReadEncodedString(t: string, rest: string)
    ensures ReadValue(Quote(t) + rest) == Some(Read(Str(t), rest))
  {
    ReadQuotedText(t, rest);
    ReadStringValue(Quote(t) + rest, t, rest);
  }

  lemma ReadQuotedText(t: string, rest: string)
    ensures var s := Quote(t) + rest; s != "" && s[0] == '"' && ReadString(s[1..]) == Some(Read(t, rest))
  {
    ReadQuoted(t, rest);
    QuoteTail(EscapeAll(t), rest);
  }

  lemma QuoteTail(escaped: string, rest: string)
    ensures var s := ("\"" + escaped + "\"") + rest; s[0] == '"' && s[1..] == escaped + "\"" + rest
  {
  }

  lemma ReadStringValue(s: string, t: string, rest: string)
    requires s != "" && s[0] == '"' && ReadString(s[1..]) == Some(Read(t, rest))
    ensures ReadValue(s) == Some(Read(Str(t), rest))
  {
  }

  lemma ReadArray(items: seq<Json>, inner: string, rest: string)
    requires ReadItems(inner) == Some(Read(items, rest)) && inner != "" && inner[0] != ']'
    ensures ReadValue("[" + inner) == Some(Read(Arr(items), rest))
  {
    assert ("[" + inner)[1..] == inner;
  }

  lemma ReadObject(pairs: seq<Member>, inner: string, rest: string)
    requires ReadPairs(inner) == Some(Read(pairs, rest))
    ensures ReadValue("{" + inner) == Some(Read(Obj(pairs), rest))
  {
    assert ("{" + inner)[1..] == inner;
  }

  lemma ReadEmpty(v: Json, rest: string)
    requires v == Arr([]) || v == Obj([])
    ensures ReadValue(Encode(v) + rest) == Some(Read(v, rest))
  {
    var s := Encode(v) + rest;
    assert Encode(v) == if v.Arr? then "[]" else "{}";
    assert s[2..] == rest;
  }

  lemma ReadLastItem(v: Json, s: string, rest: string)
    requires ReadValue(s) == Some(Read(v, "]" + rest))
    ensures ReadItems(s) == Some(Read([v], rest))
  {
    assert ("]" + rest)[1..] == rest;
  }

  lemma ReadNextItem(v: Json, items: seq<Json>, s: string, tail: string, rest: string)
    requires ReadValue(s) == Some(Read(v, "," + tail)) && ReadItems(tail) == Some(Read(items, rest))
    ensures ReadItems(s) == Some(Read([v] + items, rest))
  {
    assert ("," + tail)[1..] == tail;
  }

  /** A name and a value, followed by what closes or continues the object. */
  lemma ReadName(name: string, t: string)
    ensures var s := Quote(name) + ":" + t;
            s[0] == '"' && ReadString(s[1..]) == Some(Read(name, ":" + t)) && (":" + t)[1..] == t
  {
    ReadQuoted(name, ":" + t);
    assert (Quote(name) + ":" + t)[1..] == EscapeAll(name) + "\"" + (":" + t);
  }

  lemma ReadLastMember(m: Member, t: string, rest: string)
    requires ReadValue(t) == Some(Read(m.value, "}" + rest))
    ensures ReadPairs(Quote(m.name) + ":" + t) == Some(Read([m], rest))
  {
    ReadName(m.name, t);
    assert ("}" + rest)[1..] == rest;
  }

  lemma ReadNextMember(m: Member, t: string, pairs: seq<Member>, tail: string, rest: string)
    requires ReadValue(t) == Some(Read(m.value, "," + tail))
    requires ReadPairs(tail) == Some(Read(pairs, rest))
    ensures ReadPairs(Quote(m.name) + ":" + t) == Some(Read([m] + pairs, rest))
  {
    ReadName(m.name, t);
    assert ("," + tail)[1..] == tail;
  }

  // How encoded text falls into its first part and the remainder.

  lemma CutLastItem(items: seq<Json>, rest: string)
    requires |items| == 1
    ensures EncodeItems(items) + "]" + rest == Encode(items[0]) + ("]" + rest)
  {
    EncodeItemsIs(items);
    RegroupItems(EncodeItems(items), Encode(items[0]), "", "", rest);
  }

  lemma CutNextItem(items: seq<Json>, rest: string)
    requires |items| > 1
    ensures EncodeItems(items) + "]" + rest == Encode(items[0]) + ("," + (EncodeItems(items[1..]) + "]" + rest))
  {
    EncodeItemsIs(items);
    RegroupItems(EncodeItems(items), Encode(items[0]), "," + EncodeItems(items[1..]), EncodeItems(items[1..]), rest);
  }

  lemma EncodeItemsIs(items: seq<Json>)
    requires items != []
    ensures EncodeItems(items) == Encode(items[0]) + if |items| == 1 then "" else "," + EncodeItems(items[1..])
  {
  }

  lemma RegroupItems(all: string, value: string, more: string, tail: string, rest: string)
    requires all == value + more
    ensures all + "]" + rest == value + (more + "]" + rest)
    ensures ("," + tail) + "]" + rest == "," + (tail + "]" + rest) && "" + "]" + rest == "]" + rest
  {
  }

  lemma CutPairs(pairs: seq<Member>, rest: string)
    requires pairs != []
    ensures EncodePairs(pairs) + "}" + rest ==
            Quote(pairs[0].name) + ":" +
            (Encode(pairs[0].value) +
             if |pairs| == 1 then "}" + rest else "," + (EncodePairs(pairs[1..]) + "}" + rest))
  {
    var more := if |pairs| == 1 then "" else "," + EncodePairs(pairs[1..]);
    EncodePairsIs(pairs);
    Regroup(EncodePairs(pairs), Quote(pairs[0].name), Encode(pairs[0].value), more, rest);
    RegroupTail(EncodePairs(pairs[1..]), rest);
  }

  lemma EncodePairsIs(pairs: seq<Member>)
    requires pairs != []
    ensures EncodePairs(pairs) ==
            Quote(pairs[0].name) + ":" + Encode(pairs[0].value) + if |pairs| == 1 then "" else "," + EncodePairs(pairs[1..])
  {
  }

  lemma Regroup(all: string, name: string, value: string, more: string, rest: string)
    requires all == name + ":" + value + more
    ensures all + "}" + rest == name + ":" + (value + (more + "}" + rest))
  {
  }

  lemma RegroupTail(tail: string, rest: string)
    ensures ("," + tail) + "}" + rest == "," + (tail + "}" + rest)
    ensures "" + "}" + rest == "}" + rest
  {
  }

  lemma CutArray(items: seq<Json>, rest: string)
    ensures Encode(Arr(items)) + rest == "[" + (EncodeItems(items) + "]" + rest)
  {
  }

  lemma NotClosed(items: seq<Json>, rest: string)
    requires items != [] && Encodable(Arr(items))
    ensures (EncodeItems(items) + "]" + rest)[0] != ']'
  {
    if |items| == 1 { CutLastItem(items, rest); } else { CutNextItem(items, rest); }
    EncodeStart(items[0]);
    var e := Encode(items[0]);
    assert forall t :: (e + t)[0] == e[0];
  }

  lemma CutObject(pairs: seq<Member>, rest: string)
    ensures Encode(Obj(pairs)) + rest == "{" + (EncodePairs(pairs) + "}" + rest)
  {
  }

  /** Reading back what was encoded gives the value again, whatever follows it. */
  lemma {:induction false} ReadEncoded(v: Json, rest: string)
    requires Encodable(v) && Delimited(rest)
    ensures ReadValue(Encode(v) + rest) == Some(Read(v, rest))
    decreases v, 1
  {
    match v
    case Null => ReadEncodedWord(v, rest);
    case Bool(_) => ReadEncodedWord(v, rest);
    case Num(n) => ReadEncodedNumber(n, rest);
    case Str(t) => ReadEncodedString(t, rest);
    case Arr(items) => if items == [] { ReadEmpty(v, rest); } else { ReadEncodedArray(items, rest); }
    case Obj(pairs) => if pairs == [] { ReadEmpty(v, rest); } else { ReadEncodedObject(pairs, rest); }
  }

  lemma {:induction false} ReadEncodedArray(items: seq<Json>, rest: string)
    requires items != [] && Encodable(Arr(items))
    ensures ReadValue(Encode(Arr(items)) + rest) == Some(Read(Arr(items), rest))
    decreases items, 1
  {
    ReadEncodedItems(items, rest);
    CutArray(items, rest);
    NotClosed(items, rest);
    ReadArray(items, EncodeItems(items) + "]" + rest, rest);
  }

  lemma {:induction false} ReadEncodedObject(pairs: seq<Member>, rest: string)
    requires pairs != [] && Encodable(Obj(pairs))
    ensures ReadValue(Encode(Obj(pairs)) + rest) == Some(Read(Obj(pairs), rest))
    decreases pairs, 1
  {
    ReadEncodedPairs(pairs, rest);
    CutObject(pairs, rest);
    ReadObject(pairs, EncodePairs(pairs) + "}" + rest, rest);
  }

  lemma {:induction false} ReadEncodedItems(items: seq<Json>, rest: string)
    requires items != [] && Encodable(Arr(items))
    ensures ReadItems(EncodeItems(items) + "]" + rest) == Some(Read(items, rest))
    decreases items, 0
  {
    if |items| == 1 {
      ReadEncoded(items[0], "]" + rest);
      ReadOnlyItem(items, rest);
    } else {
      ReadEncoded(items[0], "," + (EncodeItems(items[1..]) + "]" + rest));
      ReadEncodedItems(items[1..], rest);
      ReadFirstItem(items, rest);
    }
  }

  lemma ReadOnlyItem(items: seq<Json>, rest: string)
    requires |items| == 1 && ReadValue(Encode(items[0]) + ("]" + rest)) == Some(Read(items[0], "]" + rest))
    ensures ReadItems(EncodeItems(items) + "]" + rest) == Some(Read(items, rest))
  {
    CutLastItem(items, rest);
    ReadLastItem(items[0], EncodeItems(items) + "]" + rest, rest);
    assert [items[0]] == items;
  }

  lemma ReadFirstItem(items: seq<Json>, rest: string)
    requires |items| > 1
    requires var tail := EncodeItems(items[1..]) + "]" + rest;
             ReadValue(Encode(items[0]) + ("," + tail)) == Some(Read(items[0], "," + tail)) &&
             ReadItems(tail) == Some(Read(items[1..], rest))
    ensures ReadItems(EncodeItems(items) + "]" + rest) == Some(Read(items, rest))
  {
    var tail := EncodeItems(items[1..]) + "]" + rest;
    CutNextItem(items, rest);
    ReadNextItem(items[0], items[1..], EncodeItems(items) + "]" + rest, tail, rest);
    assert [items[0]] + items[1..] == items;
  }

  lemma {:induction false} ReadEncodedPairs(pairs: seq<Member>, rest: string)
    requires pairs != [] && Encodable(Obj(pairs))
    ensures ReadPairs(EncodePairs(pairs) + "}" + rest) == Some(Read(pairs, rest))
    decreases pairs, 0
  {
    var m := pairs[0];
    CutPairs(pairs, rest);
    if |pairs| == 1 {
      ReadEncoded(m.value, "}" + rest);
      ReadLastMember(m, Encode(m.value) + ("}" + rest), rest);
      assert [m] == pairs;
    } else {
      var tail := EncodePairs(pairs[1..]) + "}" + rest;
      ReadEncoded(m.value, "," + tail);
      ReadEncodedPairs(pairs[1..], rest);
      ReadNextMember(m, Encode(m.value) + ("," + tail), pairs[1..], tail, rest);
      assert [m] + pairs[1..] == pairs;
    }
  }

  // ---------- encoded text is printable ASCII ----------

  predicate AllPrintable(s: string) {
    forall i :: 0 <= i < |s| ==> Printable(s[i])
  }

  lemma EscapePrintable(c: char)
    ensures AllPrintable(Escape(c))
  {
  }

  lemma {:induction false} QuotePrintable(s: string)
    ensures AllPrintable(EscapeAll(s)) && AllPrintable(Quote(s))
  {
    if s != "" {
      EscapePrintable(s[0]);
      QuotePrintable(s[1..]);
    }
  }

  lemma {:induction false} EncodePrintable(v: Json)
    requires Encodable(v)
    ensures AllPrintable(Encode(v))
    decreases v, 1
  {
    match v
    case Num(n) => NumberRoundTrip(n);
    case Str(s) => QuotePrintable(s);
    case Arr(items) => EncodeItemsPrintable(items);
    case Obj(pairs) => EncodePairsPrintable(pairs);
    case _ =>
  }

  lemma {:induction false} EncodeItemsPrintable(items: seq<Json>)
    requires Encodable(Arr(items))
    ensures AllPrintable(EncodeItems(items))
    decreases items, 0
  {
    if items != [] {
      EncodePrintable(items[0]);
      EncodeItemsPrintable(items[1..]);
    }
  }

  lemma {:induction false} EncodePairsPrintable(pairs: seq<Member>)
    requires Encodable(Obj(pairs))
    ensures AllPrintable(EncodePairs(pairs))
    decreases pairs, 0
  {
    if pairs != [] {
      QuotePrintable(pairs[0].name);
      EncodePrintable(pairs[0].value);
      EncodePairsPrintable(pairs[1..]);
    }
  }

  /** Encoded text determines its value. */
  lemma EncodeInjective(v: Json, w: Json)
    requires Encodable(v) && Encodable(w) && Encode(v) == Encode(w)
    ensures v == w
  {
    ReadEncoded(v, "");
    ReadEncoded(w, "");
    assert Encode(v) + "" == Encode(w) + "";
  }
}
