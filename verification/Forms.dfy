/** Form decoding of src/auth.rs, against the serializer of section 5.2 of the WHATWG URL Standard. */
module Forms {
  import opened Wrappers
  import opened Text
  import opened Codecs

  function PlusToSpace(s: Bytes): Bytes {
    seq(|s|, i requires 0 <= i < |s| => if s[i] == '+' then ' ' as byte else s[i])
  }

  /** A "%XX" escape with both digits in place starts here. */
  predicate IsEscape(s: Bytes) {
    |s| >= 3 && s[0] == '%' && HexVal(s[1]).Some? && HexVal(s[2]).Some?
  }

  function DecodePercent(s: Bytes): Bytes {
    if s == [] then []
    else if IsEscape(s) then [ByteOf(HexVal(s[1]).value * 16 + HexVal(s[2]).value)] + DecodePercent(s[3..])
    else [s[0]] + DecodePercent(s[1..])
  }

  /** One turn of the loop: an escape is three bytes and becomes one, anything else stays. */
  lemma DecodeStep(bytes: Bytes, i: nat, out: Bytes)
    requires i < |bytes|
    ensures IsEscape(bytes[i..]) <==> bytes[i] == '%' && i + 2 < |bytes| && HexVal(bytes[i + 1]).Some? && HexVal(bytes[i + 2]).Some?
    ensures out + DecodePercent(bytes[i..]) ==
            if IsEscape(bytes[i..])
            then out + [ByteOf(HexVal(bytes[i + 1]).value * 16 + HexVal(bytes[i + 2]).value)] + DecodePercent(bytes[i + 3..])
            else out + [bytes[i]] + DecodePercent(bytes[i + 1..])
  {
    var rest := bytes[i..];
    if IsEscape(rest) {
      assert rest[3..] == bytes[i + 3..];
    } else {
      assert rest[1..] == bytes[i + 1..];
    }
  }

  /** `url_decode`; `lossy` is `String::from_utf8_lossy`. */
  method UrlDecode(s: Bytes, lossy: Bytes -> Bytes) returns (r: Bytes)
    ensures r == lossy(DecodePercent(PlusToSpace(s)))
  {
    var bytes := PlusToSpace(s);
    var out: Bytes := [];
    var i := 0;
    assert bytes[0..] == bytes;
    while i < |bytes|
      invariant 0 <= i <= |bytes|
      invariant out + DecodePercent(bytes[i..]) == DecodePercent(bytes)
    {
      DecodeStep(bytes, i, out);
      if bytes[i] == '%' && i + 2 < |bytes| && HexVal(bytes[i + 1]).Some? && HexVal(bytes[i + 2]).Some? {
        out := out + [ByteOf(HexVal(bytes[i + 1]).value * 16 + HexVal(bytes[i + 2]).value)];
        i := i + 3;
      } else {
        out := out + [bytes[i]];
        i := i + 1;
      }
    }
    assert out + [] == out;
    r := lossy(out);
  }

  /** `pair.split_once('=')`. */
  function SplitOnce(pair: Bytes): Option<(Bytes, Bytes)> {
    var i := Find(pair, "=");
    if i == -1 then None else Some((pair[..i], pair[i + 1..]))
  }

  function FieldOf(pairs: seq<Bytes>, field: Bytes, lossy: Bytes -> Bytes): Option<Bytes> {
    if pairs == [] then None
    else
      var kv := SplitOnce(pairs[0]);
      if kv.Some? && kv.value.0 == field then Some(lossy(DecodePercent(PlusToSpace(kv.value.1))))
      else FieldOf(pairs[1..], field, lossy)
  }

  function FormFieldSpec(body: Bytes, field: Bytes, lossy: Bytes -> Bytes): Option<Bytes> {
    FieldOf(SplitBytes(body, '&'), field, lossy)
  }

  /** `body.split(c)`. */
  function SplitBytes(s: Bytes, c: byte): (parts: seq<Bytes>)
    ensures |parts| >= 1
  {
    if s == [] then [[]]
    else
      var rest := SplitBytes(s[1..], c);
      if s[0] == c then [[]] + rest else [[s[0]] + rest[0]] + rest[1..]
  }

  method FormField(body: Bytes, field: Bytes, lossy: Bytes -> Bytes) returns (r: Option<Bytes>)
    ensures r == FormFieldSpec(body, field, lossy)
  {
    var pairs := SplitBytes(body, '&');
    for i := 0 to |pairs|
      invariant FieldOf(pairs[i..], field, lossy) == FieldOf(pairs, field, lossy)
    {
      assert pairs[i..][1..] == pairs[i + 1..];
      var kv := SplitOnce(pairs[i]);
      if kv.Some? && kv.value.0 == field {
        var value := UrlDecode(kv.value.1, lossy);
        return Some(value);
      }
    }
    return None;
  }

  // ---------- the serializer ----------

  /** Bytes the serializer leaves as they are. */
  predicate Unreserved(c: byte) {
    'a' <= c <= 'z' || 'A' <= c <= 'Z' || '0' <= c <= '9' || c in "*-._"
  }

  function SerializeByte(c: byte): Bytes {
    if c == ' ' then ['+']
    else if Unreserved(c) then [c]
    else ['%', UpperHex(c as int / 16), UpperHex(c as int % 16)]
  }

  function SerializeText(s: Bytes): Bytes {
    if s == [] then [] else SerializeByte(s[0]) + SerializeText(s[1..])
  }

  function SerializePair(p: (Bytes, Bytes)): Bytes {
    SerializeText(p.0) + ['='] + SerializeText(p.1)
  }

  function Serialize(form: seq<(Bytes, Bytes)>): Bytes {
    if form == [] then []
    else if |form| == 1 then SerializePair(form[0])
    else SerializePair(form[0]) + ['&'] + Serialize(form[1..])
  }

  /** The first value under a name. */
  function Lookup(form: seq<(Bytes, Bytes)>, name: Bytes): Option<Bytes> {
    if form == [] then None else if form[0].0 == name then Some(form[0].1) else Lookup(form[1..], name)
  }

  predicate PlainName(name: Bytes) {
    forall i :: 0 <= i < |name| ==> Unreserved(name[i])
  }

  // ---------- round trip ----------

  lemma ByteRoundTrip(c: byte, rest: Bytes)
    ensures DecodePercent(PlusToSpace(SerializeByte(c)) + rest) == [c] + DecodePercent(rest)
    ensures '&' !in SerializeByte(c) && '=' !in SerializeByte(c)
  {
    var e := PlusToSpace(SerializeByte(c));
    if c == ' ' || Unreserved(c) {
      assert e == [c];
      assert (e + rest)[1..] == rest;
    } else {
      HexDigits(c as int / 16);
      HexDigits(c as int % 16);
      assert e == SerializeByte(c);
      assert (e + rest)[3..] == rest;
      assert ByteOf(c as int / 16 * 16 + c as int % 16) == c;
    }
  }

  lemma PlusOfJoin(a: Bytes, b: Bytes)
    ensures PlusToSpace(a + b) == PlusToSpace(a) + PlusToSpace(b)
  {
  }

  /** Decoding inverts serialization on every byte string. */
  lemma {:induction false} TextRoundTrip(s: Bytes)
    ensures DecodePercent(PlusToSpace(SerializeText(s))) == s
    ensures '&' !in SerializeText(s) && '=' !in SerializeText(s)
  {
    if s != [] {
      TextRoundTrip(s[1..]);
      ByteRoundTrip(s[0], PlusToSpace(SerializeText(s[1..])));
      PlusOfJoin(SerializeByte(s[0]), SerializeText(s[1..]));
      assert [s[0]] + s[1..] == s;
    }
  }

  lemma {:induction false} PlainSerializes(name: Bytes)
    requires PlainName(name)
    ensures SerializeText(name) == name
  {
    if name != [] {
      PlainSerializes(name[1..]);
      assert [name[0]] + name[1..] == name;
    }
  }

  /** A serialized pair is cut at its own '=', and its name is the field's only if it was. */
  lemma PairSplits(p: (Bytes, Bytes), field: Bytes)
    requires PlainName(field)
    ensures SplitOnce(SerializePair(p)) == Some((SerializeText(p.0), SerializeText(p.1)))
    ensures SerializeText(p.0) == field <==> p.0 == field
  {
    var name, value := SerializeText(p.0), SerializeText(p.1);
    PlainSerializes(field);
    TextRoundTrip(p.0);
    TextRoundTrip(field);
    CleanChar(name, '=');
    FindPrefix(name + "=", value, "=");
    var pair := SerializePair(p);
    assert pair == name + "=" + value;
    assert pair[..|name|] == name && pair[|name| + 1..] == value;
  }

  lemma PairIsOnePart(p: (Bytes, Bytes))
    ensures '&' !in SerializePair(p)
  {
    TextRoundTrip(p.0);
    TextRoundTrip(p.1);
  }

  lemma {:induction false} SplitPlain(s: Bytes, c: byte)
    requires c !in s
    ensures SplitBytes(s, c) == [s]
  {
    if s != [] {
      SplitPlain(s[1..], c);
      assert [s[0]] + s[1..] == s;
    }
  }

  lemma {:induction false} SplitFirstPart(s: Bytes, c: byte, rest: Bytes)
    requires c !in s
    ensures SplitBytes(s + [c] + rest, c) == [s] + SplitBytes(rest, c)
  {
    var all := s + [c] + rest;
    if s == [] {
      assert all[1..] == rest;
    } else {
      SplitFirstPart(s[1..], c, rest);
      assert all[1..] == s[1..] + [c] + rest;
      assert [s[0]] + s[1..] == s;
    }
  }

  lemma {:induction false} PairsOfForm(form: seq<(Bytes, Bytes)>)
    requires form != []
    ensures var pairs := SplitBytes(Serialize(form), '&');
            |pairs| == |form| && forall i :: 0 <= i < |form| ==> pairs[i] == SerializePair(form[i])
  {
    PairIsOnePart(form[0]);
    if |form| == 1 {
      SplitPlain(SerializePair(form[0]), '&');
    } else {
      PairsOfForm(form[1..]);
      SplitFirstPart(SerializePair(form[0]), '&', Serialize(form[1..]));
    }
  }

  function Through(value: Option<Bytes>, lossy: Bytes -> Bytes): Option<Bytes> {
    if value.None? then None else Some(lossy(value.value))
  }

  lemma {:induction false} LookupPairs(pairs: seq<Bytes>, form: seq<(Bytes, Bytes)>, field: Bytes, lossy: Bytes -> Bytes)
    requires PlainName(field)
    requires |pairs| == |form| && forall i :: 0 <= i < |form| ==> pairs[i] == SerializePair(form[i])
    ensures FieldOf(pairs, field, lossy) == Through(Lookup(form, field), lossy)
  {
    if form != [] {
      PairSplits(form[0], field);
      TextRoundTrip(form[0].1);
      LookupPairs(pairs[1..], form[1..], field, lossy);
    }
  }

  /** Of any form, whatever its names and values, the first value under a field whose name needs no
      escaping is found, as far as it is valid UTF-8, and nothing when there is none. */
  lemma FormFieldFinds(form: seq<(Bytes, Bytes)>, field: Bytes, lossy: Bytes -> Bytes)
    requires PlainName(field)
    ensures FormFieldSpec(Serialize(form), field, lossy) == Through(Lookup(form, field), lossy)
    ensures Lookup(form, field).Some? && lossy(Lookup(form, field).value) == Lookup(form, field).value ==>
            FormFieldSpec(Serialize(form), field, lossy) == Lookup(form, field)
  {
    if form == [] {
      NoPairs(field, lossy);
    } else {
      PairsOfForm(form);
      LookupPairs(SplitBytes(Serialize(form), '&'), form, field, lossy);
    }
  }

  lemma NoPairs(field: Bytes, lossy: Bytes -> Bytes)
    ensures FormFieldSpec([], field, lossy) == None
  {
    var one: seq<Bytes> := [[]];
    assert SplitBytes([], '&') == one;
    assert SplitOnce(one[0]).None? && one[1..] == [];
    assert FieldOf(one, field, lossy) == FieldOf(one[1..], field, lossy) == None;
  }

  // ---------- any body at all ----------

  /** An escape with two hexadecimal digits of either case starts at `i`. */
  predicate EscapeAt(s: Bytes, i: nat) {
    i + 2 < |s| && s[i] == '%' && IsHexDigit(s[i + 1]) && IsHexDigit(s[i + 2])
  }

  /** Text before the first such escape stays as it is, malformed escapes included, and the rest is
      decoded on its own. */
  lemma {:induction false} DecodedUpTo(s: Bytes, k: nat)
    requires k <= |s| && forall i :: 0 <= i < k ==> !EscapeAt(s, i)
    ensures DecodePercent(s) == s[..k] + DecodePercent(s[k..])
  {
    if k > 0 {
      assert !EscapeAt(s, 0);
      forall i | 0 <= i < k - 1 ensures !EscapeAt(s[1..], i) {
        assert !EscapeAt(s, i + 1);
      }
      DecodedUpTo(s[1..], k - 1);
      assert s[1..][k - 1..] == s[k..] && [s[0]] + s[1..][..k - 1] == s[..k];
    } else {
      assert s[0..] == s;
    }
  }

  /** An escape is the byte its digits say. */
  lemma DecodedEscape(s: Bytes, high: nat, low: nat)
    requires EscapeAt(s, 0) && high < 16 && low < 16
    requires s[1] == LowerHex(high) || s[1] == UpperHex(high)
    requires s[2] == LowerHex(low) || s[2] == UpperHex(low)
    ensures DecodePercent(s) == [(16 * high + low) as char] + DecodePercent(s[3..])
  {
    HexDigits(high);
    HexDigits(low);
  }

  /** The part is `field=`, and then the value. */
  predicate Names(part: Bytes, field: Bytes) {
    field + ['='] <= part
  }

  lemma NamesIs(part: Bytes, field: Bytes)
    requires '=' !in field
    ensures Names(part, field) <==> SplitOnce(part).Some? && SplitOnce(part).value.0 == field
    ensures Names(part, field) ==> SplitOnce(part).value.1 == part[|field| + 1..]
  {
    var i, n := Find(part, "="), |field|;
    if Names(part, field) {
      assert part[n] == (field + ['='])[n] == '=';
      assert part[n..n + 1] == "=";
      assert At(part, "=", n);
      forall j: nat | j < n ensures !At(part, "=", j) {
        assert part[j] == (field + ['='])[j] == field[j];
        assert part[j..j + 1][0] == part[j];
      }
      assert part[..n] == (field + ['='])[..n] == field;
    }
    if i != -1 && part[..i] == field {
      assert part[i..i + 1][0] == '=';
      assert part[..i + 1] == part[..i] + [part[i]];
    }
  }

  /** Of any body: the first part that names the field decides; parts without a value do not. */
  lemma {:induction false} FirstNamed(pairs: seq<Bytes>, field: Bytes, lossy: Bytes -> Bytes, i: nat)
    requires '=' !in field && i <= |pairs| && forall j :: 0 <= j < i ==> !Names(pairs[j], field)
    ensures i == |pairs| ==> FieldOf(pairs, field, lossy) == None
    ensures i < |pairs| && Names(pairs[i], field) ==>
              FieldOf(pairs, field, lossy) == Some(lossy(DecodePercent(PlusToSpace(pairs[i][|field| + 1..]))))
    decreases |pairs|
  {
    if pairs != [] {
      NamesIs(pairs[0], field);
      if i > 0 {
        assert forall j :: 0 <= j < i - 1 ==> pairs[1..][j] == pairs[j + 1];
        FirstNamed(pairs[1..], field, lossy, i - 1);
      }
    }
  }
}
