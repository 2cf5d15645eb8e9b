/** Byte codecs of src/auth.rs: hex, base64 and form decoding. A byte string is a `string` whose
    characters are below 256. */
module Codecs {
  import opened Collections
  import opened Wrappers

  type byte = c: char | c < 256 as char witness 'a'
  type Bytes = seq<byte>

  function ByteOf(n: nat): byte
    requires n < 256
  {
    n as char
  }

  // ---------- hex ----------

  function HexVal(c: char): (d: Option<nat>)
    ensures d.Some? ==> d.value < 16
  {
    if '0' <= c <= '9' then Some(c as int - '0' as int)
    else if 'a' <= c <= 'f' then Some(c as int - 'a' as int + 10)
    else if 'A' <= c <= 'F' then Some(c as int - 'A' as int + 10)
    else None
  }

  function LowerHex(d: nat): byte
    requires d < 16
  {
    if d < 10 then '0' + d as char else 'a' + (d - 10) as char
  }

  function UpperHex(d: nat): byte
    requires d < 16
  {
    if d < 10 then '0' + d as char else 'A' + (d - 10) as char
  }

  function Hex(bytes: Bytes): Bytes {
    if bytes == [] then []
    else [LowerHex(bytes[0] as int / 16), LowerHex(bytes[0] as int % 16)] + Hex(bytes[1..])
  }

  function Unhex(s: Bytes): Option<Bytes> {
    if s == [] then Some([])
    else if |s| == 1 || HexVal(s[0]).None? || HexVal(s[1]).None? then None
    else
      var rest := Unhex(s[2..]);
      if rest.None? then None else Some([ByteOf(HexVal(s[0]).value * 16 + HexVal(s[1]).value)] + rest.value)
  }

  lemma HexDigits(d: nat)
    requires d < 16
    ensures HexVal(LowerHex(d)) == Some(d) && HexVal(UpperHex(d)) == Some(d)
    ensures LowerHex(d) != '.' && LowerHex(d) != '+'
  {
  }

  lemma {:induction false} UnhexOfHex(bytes: Bytes)
    ensures Unhex(Hex(bytes)) == Some(bytes)
    ensures '.' !in Hex(bytes)
  {
    if bytes != [] {
      var n := bytes[0] as int;
      HexDigits(n / 16);
      HexDigits(n % 16);
      UnhexOfHex(bytes[1..]);
      assert Hex(bytes)[2..] == Hex(bytes[1..]);
      assert [ByteOf(n)] + bytes[1..] == bytes;
    }
  }

  // ---------- base64 ----------

  function Base64Val(c: byte): (v: Option<nat>)
    ensures v.Some? ==> v.value < 64
  {
    if 'A' <= c <= 'Z' then Some(c as int - 'A' as int)
    else if 'a' <= c <= 'z' then Some(c as int - 'a' as int + 26)
    else if '0' <= c <= '9' then Some(c as int - '0' as int + 52)
    else if c == '+' then Some(62)
    else if c == '/' then Some(63)
    else None
  }

  function Base64Digit(n: nat): (c: byte)
    requires n < 64
    ensures Base64Val(c) == Some(n) && !Ignored(c)
  {
    if n < 26 then 'A' + n as char
    else if n < 52 then 'a' + (n - 26) as char
    else if n < 62 then '0' + (n - 52) as char
    else if n == 62 then '+' else '/'
  }

  /** Padding and ASCII whitespace. */
  predicate Ignored(c: byte) {
    c == '=' || c == ' ' || c == '\t' || c == '\n' || c == 12 as char || c == '\r'
  }

  function Clean64(s: Bytes): Bytes {
    if s == [] then [] else (if Ignored(s[0]) then [] else [s[0]]) + Clean64(s[1..])
  }

  /** The number a group of at most four digits stands for. */
  function Accumulate(chunk: Bytes): Option<nat> {
    if chunk == [] then Some(0)
    else
      var acc := Accumulate(chunk[..|chunk| - 1]);
      var v := Base64Val(chunk[|chunk| - 1]);
      if acc.None? || v.None? then None else Some(acc.value * 64 + v.value)
  }

  /** The bytes of one group: three, two or one of 24 bits, most significant first. */
  function GroupBytes(acc: nat, length: nat): (r: Option<Bytes>)
  {
    if length == 4 then Some([ByteOf(acc / 65536 % 256), ByteOf(acc / 256 % 256), ByteOf(acc % 256)])
    else if length == 3 then Some([ByteOf(acc * 64 / 65536 % 256), ByteOf(acc * 64 / 256 % 256)])
    else if length == 2 then Some([ByteOf(acc * 4096 / 65536 % 256)])
    else None
  }

  function DecodeGroups(clean: Bytes): Option<Bytes>
    decreases |clean|
  {
    if clean == [] then Some([])
    else
      var k := Min(4, |clean|);
      var acc := Accumulate(clean[..k]);
      if acc.None? then None
      else
        var bytes, rest := GroupBytes(acc.value, k), DecodeGroups(clean[k..]);
        if bytes.None? || rest.None? then None else Some(bytes.value + rest.value)
  }

  function Base64Spec(s: Bytes): Option<Bytes> {
    DecodeGroups(Clean64(s))
  }

  method AccumulateChunk(chunk: Bytes) returns (r: Option<nat>)
    ensures r == Accumulate(chunk)
  {
    var acc := 0;
    for i := 0 to |chunk|
      invariant Accumulate(chunk[..i]) == Some(acc)
    {
      assert chunk[..i + 1][..i] == chunk[..i];
      var v := Base64Val(chunk[i]);
      if v.None? {
        AccumulateFails(chunk, i);
        return None;
      }
      acc := acc * 64 + v.value;
    }
    assert chunk[..|chunk|] == chunk;
    r := Some(acc);
  }

  lemma GroupStep(clean: Bytes, pos: nat)
    requires pos < |clean|
    ensures var k := Min(4, |clean| - pos);
            var acc := Accumulate(clean[pos..pos + k]);
            DecodeGroups(clean[pos..]) ==
              if acc.None? || GroupBytes(acc.value, k).None? then None
              else Prepend(GroupBytes(acc.value, k).value, DecodeGroups(clean[pos + k..]))
  {
    var k := Min(4, |clean| - pos);
    assert clean[pos..][..k] == clean[pos..pos + k] && clean[pos..][k..] == clean[pos + k..];
  }

  /** `base64_decode`, with its accumulator and output vector. */
  method Base64Decode(s: Bytes) returns (r: Option<Bytes>)
    ensures r == Base64Spec(s)
  {
    var clean := Clean64(s);
    var out: Bytes := [];
    var pos := 0;
    assert clean[0..] == clean && forall t: Bytes :: [] + t == t;
    while pos < |clean|
      invariant 0 <= pos <= |clean|
      invariant Prepend(out, DecodeGroups(clean[pos..])) == DecodeGroups(clean)
    {
      var k := Min(4, |clean| - pos);
      GroupStep(clean, pos);
      var acc := AccumulateChunk(clean[pos..pos + k]);
      if acc.None? {
        return None;
      }
      var bytes := GroupBytes(acc.value, k);
      if bytes.None? {
        return None;
      }
      PrependTwice(out, bytes.value, DecodeGroups(clean[pos + k..]));
      out := out + bytes.value;
      pos := pos + k;
    }
    assert clean[pos..] == [] && out + [] == out;
    r := Some(out);
  }

  lemma PrependTwice(a: Bytes, b: Bytes, rest: Option<Bytes>)
    ensures Prepend(a, Prepend(b, rest)) == Prepend(a + b, rest)
  {
    if rest.Some? { assert a + (b + rest.value) == a + b + rest.value; }
  }

  function Prepend(out: Bytes, rest: Option<Bytes>): Option<Bytes> {
    if rest.None? then None else Some(out + rest.value)
  }

  lemma {:induction false} AccumulateFails(chunk: Bytes, i: nat)
    requires i < |chunk| && Base64Val(chunk[i]).None?
    ensures Accumulate(chunk).None?
    decreases |chunk|
  {
    if i < |chunk| - 1 {
      AccumulateFails(chunk[..|chunk| - 1], i);
    }
  }

  // ---------- the encoder of RFC 4648, section 4 ----------

  /** The 24 bits of three bytes, and their four digits. */
  function Bits24(a: byte, b: byte, c: byte): (n: nat)
    ensures n < 0x1000000
  {
    (a as int * 256 + b as int) * 256 + c as int
  }

  function Digits(n: nat): Bytes
    requires n < 0x1000000
  {
    [Base64Digit(n / 262144), Base64Digit(n / 4096 % 64), Base64Digit(n / 64 % 64), Base64Digit(n % 64)]
  }

  function Base64Encode(bytes: Bytes): Bytes {
    if bytes == [] then []
    else if |bytes| == 1 then Digits(Bits24(bytes[0], 0 as char, 0 as char))[..2] + ['=', '=']
    else if |bytes| == 2 then Digits(Bits24(bytes[0], bytes[1], 0 as char))[..3] + ['=']
    else Digits(Bits24(bytes[0], bytes[1], bytes[2])) + Base64Encode(bytes[3..])
  }

  /** The encoding without its padding. */
  function Unpadded(bytes: Bytes): Bytes {
    if bytes == [] then []
    else if |bytes| == 1 then Digits(Bits24(bytes[0], 0 as char, 0 as char))[..2]
    else if |bytes| == 2 then Digits(Bits24(bytes[0], bytes[1], 0 as char))[..3]
    else Digits(Bits24(bytes[0], bytes[1], bytes[2])) + Unpadded(bytes[3..])
  }

  lemma {:induction false} CleanOfJoin(a: Bytes, b: Bytes)
    ensures Clean64(a + b) == Clean64(a) + Clean64(b)
  {
    if a == [] {
      assert a + b == b;
    } else {
      var first: Bytes := if Ignored(a[0]) then [] else [a[0]];
      CleanOfJoin(a[1..], b);
      assert (a + b)[0] == a[0] && (a + b)[1..] == a[1..] + b;
      assert first + (Clean64(a[1..]) + Clean64(b)) == (first + Clean64(a[1..])) + Clean64(b);
    }
  }

  lemma {:induction false} CleanKept(s: Bytes)
    requires forall i :: 0 <= i < |s| ==> !Ignored(s[i])
    ensures Clean64(s) == s
  {
    if s != [] { CleanKept(s[1..]); }
  }

  lemma DigitsKept(n: nat, k: nat, rest: Bytes)
    requires n < 0x1000000 && k <= 4
    ensures Clean64(Digits(n)[..k] + rest) == Digits(n)[..k] + Clean64(rest)
  {
    CleanKept(Digits(n)[..k]);
    CleanOfJoin(Digits(n)[..k], rest);
  }

  lemma {:induction false} CleanEncode(bytes: Bytes)
    ensures Clean64(Base64Encode(bytes)) == Unpadded(bytes)
  {
    PaddingIgnored();
    if bytes == [] {
    } else if |bytes| == 1 {
      DigitsKept(Bits24(bytes[0], 0 as char, 0 as char), 2, ['=', '=']);
    } else if |bytes| == 2 {
      DigitsKept(Bits24(bytes[0], bytes[1], 0 as char), 3, ['=']);
    } else {
      CleanEncode(bytes[3..]);
      var n := Bits24(bytes[0], bytes[1], bytes[2]);
      DigitsKept(n, 4, Base64Encode(bytes[3..]));
      assert Digits(n)[..4] == Digits(n);
    }
  }

  lemma PaddingIgnored()
    ensures Clean64(['=']) == [] && Clean64(['=', '=']) == []
  {
    var two: Bytes := ['=', '='];
    assert two[1..] == ['='];
  }

  lemma AccumulateSnoc(chunk: Bytes, d: nat)
    requires d < 64 && Accumulate(chunk).Some?
    ensures Accumulate(chunk + [Base64Digit(d)]) == Some(Accumulate(chunk).value * 64 + d)
  {
    assert (chunk + [Base64Digit(d)])[..|chunk|] == chunk;
  }

  /** Reading a prefix of some digits gives the number they stand for. */
  lemma AccumulateDigits(a: nat, b: nat, c: nat, d: nat)
    requires a < 64 && b < 64 && c < 64 && d < 64
    ensures var s := [Base64Digit(a), Base64Digit(b), Base64Digit(c), Base64Digit(d)];
            Accumulate(s[..2]) == Some(a * 64 + b) && Accumulate(s[..3]) == Some((a * 64 + b) * 64 + c) &&
            Accumulate(s) == Some(((a * 64 + b) * 64 + c) * 64 + d)
  {
    var s := [Base64Digit(a), Base64Digit(b), Base64Digit(c), Base64Digit(d)];
    AccumulateSnoc(s[..0], a);
    assert s[..0] + [Base64Digit(a)] == s[..1];
    AccumulateSnoc(s[..1], b);
    assert s[..1] + [Base64Digit(b)] == s[..2];
    AccumulateSnoc(s[..2], c);
    assert s[..2] + [Base64Digit(c)] == s[..3];
    AccumulateSnoc(s[..3], d);
    assert s[..3] + [Base64Digit(d)] == s;
  }

  lemma SixBits(n: nat)
    requires n < 0x1000000
    ensures n / 262144 < 64 && n / 262144 * 64 + n / 4096 % 64 == n / 4096
    ensures n / 4096 * 64 + n / 64 % 64 == n / 64 && n / 64 * 64 + n % 64 == n
  {
  }

  lemma AccumulateBits(n: nat)
    requires n < 0x1000000
    ensures Accumulate(Digits(n)[..2]) == Some(n / 4096)
    ensures Accumulate(Digits(n)[..3]) == Some(n / 64)
    ensures Accumulate(Digits(n)) == Some(n)
  {
    SixBits(n);
    AccumulateDigits(n / 262144, n / 4096 % 64, n / 64 % 64, n % 64);
  }

  // The bytes a full or a final group stands for.

  lemma FullGroup(a: byte, b: byte, c: byte)
    ensures GroupBytes(Bits24(a, b, c), 4) == Some([a, b, c])
  {
    var n := Bits24(a, b, c);
    assert n / 256 == a as int * 256 + b as int && n % 256 == c as int;
    assert n / 65536 == a as int;
  }

  lemma PairGroup(a: byte, b: byte)
    ensures GroupBytes(Bits24(a, b, 0 as char) / 64, 3) == Some([a, b])
  {
    var n := Bits24(a, b, 0 as char);
    assert n / 64 * 64 == n;
    FullGroup(a, b, 0 as char);
  }

  lemma LoneGroup(a: byte)
    ensures GroupBytes(Bits24(a, 0 as char, 0 as char) / 4096, 2) == Some([a])
  {
    var n := Bits24(a, 0 as char, 0 as char);
    assert n / 4096 * 4096 == n;
    FullGroup(a, 0 as char, 0 as char);
  }

  /** One group, decoded. */
  lemma DecodeGroup(group: Bytes, rest: Bytes, acc: nat, bytes: Bytes)
    requires 2 <= |group| <= 4 && (|group| == 4 || rest == [])
    requires Accumulate(group) == Some(acc) && GroupBytes(acc, |group|) == Some(bytes)
    ensures DecodeGroups(group + rest) == Prepend(bytes, DecodeGroups(rest))
  {
    assert (group + rest)[..|group|] == group && (group + rest)[|group|..] == rest;
  }

  lemma DecodeTriple(a: byte, b: byte, c: byte, rest: Bytes)
    ensures DecodeGroups(Digits(Bits24(a, b, c)) + rest) == Prepend([a, b, c], DecodeGroups(rest))
  {
    var n := Bits24(a, b, c);
    AccumulateBits(n);
    FullGroup(a, b, c);
    DecodeGroup(Digits(n), rest, n, [a, b, c]);
  }

  lemma DecodeLast(group: Bytes, acc: nat, bytes: Bytes)
    requires 2 <= |group| <= 4 && Accumulate(group) == Some(acc) && GroupBytes(acc, |group|) == Some(bytes)
    ensures DecodeGroups(group) == Some(bytes)
  {
    DecodeGroup(group, [], acc, bytes);
    assert group + [] == group && bytes + [] == bytes;
  }

  lemma DecodePair(a: byte, b: byte)
    ensures DecodeGroups(Digits(Bits24(a, b, 0 as char))[..3]) == Some([a, b])
  {
    var n := Bits24(a, b, 0 as char);
    AccumulateBits(n);
    PairGroup(a, b);
    DecodeLast(Digits(n)[..3], n / 64, [a, b]);
  }

  lemma DecodeLone(a: byte)
    ensures DecodeGroups(Digits(Bits24(a, 0 as char, 0 as char))[..2]) == Some([a])
  {
    var n := Bits24(a, 0 as char, 0 as char);
    AccumulateBits(n);
    LoneGroup(a);
    DecodeLast(Digits(n)[..2], n / 4096, [a]);
  }

  lemma {:induction false} DecodeUnpadded(bytes: Bytes)
    ensures DecodeGroups(Unpadded(bytes)) == Some(bytes)
  {
    if |bytes| == 1 {
      DecodeLone(bytes[0]);
      assert bytes == [bytes[0]];
    } else if |bytes| == 2 {
      DecodePair(bytes[0], bytes[1]);
      assert bytes == [bytes[0], bytes[1]];
    } else if bytes != [] {
      DecodeTriple(bytes[0], bytes[1], bytes[2], Unpadded(bytes[3..]));
      DecodeUnpadded(bytes[3..]);
      assert [bytes[0], bytes[1], bytes[2]] + bytes[3..] == bytes;
    }
  }

  /** Decoding inverts encoding on every byte string, wherever whitespace and padding stand. */
  lemma Base64RoundTrip(s: Bytes, bytes: Bytes)
    requires Clean64(s) == Clean64(Base64Encode(bytes))
    ensures Base64Spec(s) == Some(bytes)
  {
    CleanEncode(bytes);
    DecodeUnpadded(bytes);
  }

  predicate Foreign(clean: Bytes) {
    exists i :: 0 <= i < |clean| && Base64Val(clean[i]).None?
  }

  lemma {:induction false} AccumulateFailsIff(chunk: Bytes)
    ensures Accumulate(chunk).None? <==> Foreign(chunk)
  {
    if chunk != [] {
      AccumulateFailsIff(chunk[..|chunk| - 1]);
      assert forall i :: 0 <= i < |chunk| - 1 ==> chunk[..|chunk| - 1][i] == chunk[i];
    }
  }

  lemma ForeignSplit(clean: Bytes, k: nat)
    requires k <= |clean|
    ensures Foreign(clean) <==> Foreign(clean[..k]) || Foreign(clean[k..])
  {
    if i :| 0 <= i < |clean| && Base64Val(clean[i]).None? {
      assert if i < k then clean[..k][i] == clean[i] else clean[k..][i - k] == clean[i];
    }
    if i :| 0 <= i < k && Base64Val(clean[..k][i]).None? { assert clean[i] == clean[..k][i]; }
    if i :| 0 <= i < |clean| - k && Base64Val(clean[k..][i]).None? { assert clean[k + i] == clean[k..][i]; }
  }

  lemma LengthStep(n: nat)
    requires n > 0
    ensures var k := Min(4, n); n % 4 == 1 <==> k == 1 || (n - k) % 4 == 1
  {
  }

  lemma FirstGroupFails(clean: Bytes)
    requires clean != []
    ensures var k := Min(4, |clean|);
            DecodeGroups(clean).None? <==>
            Accumulate(clean[..k]).None? || k == 1 || DecodeGroups(clean[k..]).None?
  {
  }

  lemma {:induction false} GroupsFailIff(clean: Bytes)
    ensures DecodeGroups(clean).None? <==> Foreign(clean) || |clean| % 4 == 1
    decreases |clean|
  {
    if clean != [] {
      var k := Min(4, |clean|);
      AccumulateFailsIff(clean[..k]);
      ForeignSplit(clean, k);
      GroupsFailIff(clean[k..]);
      FirstGroupFails(clean);
      LengthStep(|clean|);
    }
  }

  /** Decoding fails exactly on a foreign character or a length of one modulo four. */
  lemma Base64FailsIff(s: Bytes)
    ensures Base64Spec(s).None? <==> Foreign(Clean64(s)) || |Clean64(s)| % 4 == 1
  {
    GroupsFailIff(Clean64(s));
  }

  // ---------- exactly what is decoded ----------

  predicate IsHexDigit(c: char) {
    '0' <= c <= '9' || 'a' <= c <= 'f' || 'A' <= c <= 'F'
  }

  /** Unhex fails exactly on an odd length or a character that is not a hexadecimal digit. */
  lemma {:induction false} UnhexFailsIff(s: Bytes)
    ensures Unhex(s).None? <==> |s| % 2 == 1 || exists i :: 0 <= i < |s| && !IsHexDigit(s[i])
  {
    if |s| >= 2 {
      UnhexFailsIff(s[2..]);
      assert forall i :: 2 <= i < |s| ==> s[2..][i - 2] == s[i];
      if i :| 0 <= i < |s[2..]| && !IsHexDigit(s[2..][i]) {
        assert !IsHexDigit(s[i + 2]);
      }
    }
  }

  /** Padding and ASCII white space. */
  predicate Skipped(c: char) {
    c == '=' || c == ' ' || c == '\t' || c == '\n' || c == '\U{C}' || c == '\r'
  }

  predicate InAlphabet(c: char) {
    'A' <= c <= 'Z' || 'a' <= c <= 'z' || '0' <= c <= '9' || c == '+' || c == '/'
  }

  function Kept(s: Bytes): set<nat> {
    set i: nat | i < |s| && !Skipped(s[i])
  }

  /** A character that is neither of the alphabet nor skipped. */
  predicate Strange(s: Bytes) {
    exists i :: 0 <= i < |s| && !Skipped(s[i]) && !InAlphabet(s[i])
  }

  lemma StrangeSnoc(s: Bytes, c: byte)
    ensures Strange(s + [c]) <==> Strange(s) || (!Skipped(c) && !InAlphabet(c))
  {
    var all := s + [c];
    assert all[|s|] == c && forall i :: 0 <= i < |s| ==> all[i] == s[i];
    if i :| 0 <= i < |all| && !Skipped(all[i]) && !InAlphabet(all[i]) {
      assert i < |s| ==> !Skipped(s[i]) && !InAlphabet(s[i]);
    }
  }

  lemma {:induction false} CleanSize(s: Bytes)
    ensures |Clean64(s)| == |Kept(s)| && (Foreign(Clean64(s)) <==> Strange(s))
  {
    if s == [] {
      assert Kept(s) == {};
    } else {
      var init, last := s[..|s| - 1], s[|s| - 1];
      CleanSize(init);
      CleanSnoc(init, last);
      assert s == init + [last];
      KeptSnoc(init, last);
      StrangeSnoc(init, last);
      ForeignSnoc(Clean64(init), last);
      assert Clean64(init) + [] == Clean64(init);
    }
  }

  lemma KeptSnoc(s: Bytes, c: byte)
    ensures |Kept(s + [c])| == |Kept(s)| + if Skipped(c) then 0 else 1
  {
    var all := s + [c];
    assert all[|s|] == c && forall i :: 0 <= i < |s| ==> all[i] == s[i];
    assert Kept(all) == if Skipped(c) then Kept(s) else Kept(s) + {|s|};
    assert |s| !in Kept(s);
  }

  lemma {:induction false} CleanSnoc(s: Bytes, c: byte)
    ensures Clean64(s + [c]) == Clean64(s) + if Skipped(c) then [] else [c]
  {
    if s == [] {
      assert s + [c] == [c];
    } else {
      assert (s + [c])[1..] == s[1..] + [c];
      CleanSnoc(s[1..], c);
    }
  }

  lemma ForeignSnoc(s: Bytes, c: byte)
    ensures Foreign(s + [c]) <==> Foreign(s) || !InAlphabet(c)
  {
    var all := s + [c];
    assert all[|s|] == c && forall i :: 0 <= i < |s| ==> all[i] == s[i];
    if i :| 0 <= i < |all| && Base64Val(all[i]).None? {
      assert i < |s| ==> Base64Val(s[i]).None?;
    }
  }

  /** Decoding fails exactly when a character is neither of the alphabet nor skipped, or the others
      number one modulo four. */
  lemma DecodeFailsIff(s: Bytes)
    ensures Base64Spec(s).None? <==>
            Strange(s) || |Kept(s)| % 4 == 1
  {
    CleanSize(s);
    Base64FailsIff(s);
  }
}
