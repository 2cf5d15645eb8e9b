/** Session tokens (src/auth.rs). HMAC-SHA-256 under the boot's key, the digest of a password hash
    and the UTF-8 check are uninterpreted. */
module Session {
  import opened Wrappers
  import opened Codecs

  const MAX_U64: nat := 0x1_0000_0000_0000_0000

  // ---------- the framed MAC input ----------

  function BigEndian(n: nat, width: nat): (r: Bytes)
    ensures |r| == width
  {
    if width == 0 then [] else BigEndian(n / 256, width - 1) + [ByteOf(n % 256)]
  }

  function FromBigEndian(s: Bytes): nat {
    if s == [] then 0 else FromBigEndian(s[..|s| - 1]) * 256 + s[|s| - 1] as int
  }

  /** Every part preceded by its length in eight bytes. */
  function Frame(parts: seq<Bytes>): Bytes {
    if parts == [] then [] else BigEndian(|parts[0]|, 8) + parts[0] + Frame(parts[1..])
  }

  predicate Framable(parts: seq<Bytes>) {
    forall i :: 0 <= i < |parts| ==> |parts[i]| < MAX_U64
  }

  function Power256(width: nat): (p: nat)
    ensures p > 0
  {
    if width == 0 then 1 else 256 * Power256(width - 1)
  }

  lemma {:induction false} BigEndianRoundTrip(n: nat, width: nat)
    requires n < Power256(width)
    ensures FromBigEndian(BigEndian(n, width)) == n
  {
    if width > 0 {
      assert n / 256 < Power256(width - 1);
      BigEndianRoundTrip(n / 256, width - 1);
      var r := BigEndian(n, width);
      assert r[..|r| - 1] == BigEndian(n / 256, width - 1);
    }
  }

  lemma Power8()
    ensures Power256(8) == MAX_U64
  {
    assert Power256(2) == 0x10000;
    assert Power256(4) == 0x1_0000_0000;
    assert Power256(6) == 0x1_0000_0000_0000;
  }

  /** The framing is injective over all lists of parts, of any number and any lengths. */
  lemma {:induction false} FrameInjective(a: seq<Bytes>, b: seq<Bytes>)
    requires Framable(a) && Framable(b) && Frame(a) == Frame(b)
    ensures a == b
    decreases |a|
  {
    if a == [] || b == [] {
      assert |Frame(a)| == |Frame(b)|;
    } else {
      var f := Frame(a);
      HeadOfFrame(a);
      HeadOfFrame(b);
      Power8();
      BigEndianRoundTrip(|a[0]|, 8);
      BigEndianRoundTrip(|b[0]|, 8);
      FrameInjective(a[1..], b[1..]);
      assert a == [a[0]] + a[1..] && b == [b[0]] + b[1..];
    }
  }

  lemma HeadOfFrame(parts: seq<Bytes>)
    requires parts != []
    ensures var f, n := Frame(parts), |parts[0]|;
            |f| >= 8 + n && f[..8] == BigEndian(n, 8) && f[8..8 + n] == parts[0] && f[8 + n..] == Frame(parts[1..])
  {
  }

  // ---------- the expiry in hexadecimal ----------

  /** `{expiry:x}`. */
  function HexNumber(n: nat): (s: Bytes)
    ensures s != [] && forall i :: 0 <= i < |s| ==> HexVal(s[i]).Some?
    ensures '.' !in s && '+' !in s
  {
    HexDigits(n % 16);
    if n < 16 then [LowerHex(n)] else HexNumber(n / 16) + [LowerHex(n % 16)]
  }

  function HexValue(s: Bytes): Option<nat> {
    if s == [] then Some(0)
    else
      var init, last := HexValue(s[..|s| - 1]), HexVal(s[|s| - 1]);
      if init.None? || last.None? then None else Some(init.value * 16 + last.value)
  }

  /** `u64::from_str_radix(s, 16)`: an optional plus sign, at least one digit, no overflow. */
  function ParseHex(s: Bytes): Option<nat> {
    var digits := if s != [] && s[0] == '+' then s[1..] else s;
    var v := HexValue(digits);
    if digits == [] || v.None? || v.value >= MAX_U64 then None else v
  }

  lemma {:induction false} HexNumberRoundTrip(n: nat)
    ensures HexValue(HexNumber(n)) == Some(n)
  {
    HexDigits(n % 16);
    if n < 16 {
      assert [LowerHex(n)][..0] == [];
    } else {
      HexNumberRoundTrip(n / 16);
      assert HexNumber(n)[..|HexNumber(n)| - 1] == HexNumber(n / 16);
    }
  }

  // ---------- tokens ----------

  /** `token.split('.')`. */
  function SplitDots(s: Bytes): (parts: seq<Bytes>)
    ensures |parts| >= 1
  {
    if s == [] then [[]]
    else
      var rest := SplitDots(s[1..]);
      if s[0] == '.' then [[]] + rest else [[s[0]] + rest[0]] + rest[1..]
  }

  /** The primitives the model leaves open. */
  datatype Primitives = Primitives(
    mac: Bytes -> Bytes,        // HMAC-SHA-256 under the boot's key
    fragment: Bytes -> Bytes,   // pw_fragment
    utf8: Bytes -> bool)

  type Store = map<Bytes, Bytes>   // user name to password hash

  function SessionMessage(expiry: nat, user: Bytes, fragment: Bytes): Bytes
    requires expiry < MAX_U64
  {
    Frame([BigEndian(expiry, 8), user, fragment])
  }

  /** `sign_session`. */
  function Sign(p: Primitives, expiry: nat, user: Bytes, passwordHash: Bytes): Bytes
    requires expiry < MAX_U64
  {
    var fragment := p.fragment(passwordHash);
    HexNumber(expiry) + ['.'] + Hex(user) + ['.'] + fragment + ['.'] +
    Hex(p.mac(SessionMessage(expiry, user, fragment)))
  }

  datatype Claim = Claim(expiry: nat, user: Bytes, fragment: Bytes, tagHex: Bytes)

  /** The four fields of a token, decoded. */
  function ParseToken(p: Primitives, token: Bytes): (c: Option<Claim>)
    ensures c.Some? ==> c.value.expiry < MAX_U64
  {
    var parts := SplitDots(token);
    if |parts| != 4 then None
    else
      var expiry, user := ParseHex(parts[0]), Unhex(parts[1]);
      if expiry.None? || user.None? || !p.utf8(user.value) then None
      else Some(Claim(expiry.value, user.value, parts[2], parts[3]))
  }

  /** `verify_session`. */
  function Verify(p: Primitives, token: Bytes, now: nat, store: Store): Option<Bytes> {
    var c := ParseToken(p, token);
    if c.None? || c.value.expiry < now then None
    else if c.value.tagHex != Hex(p.mac(SessionMessage(c.value.expiry, c.value.user, c.value.fragment))) then None
    else if c.value.user !in store || c.value.fragment != p.fragment(store[c.value.user]) then None
    else Some(c.value.user)
  }

  lemma {:induction false} SplitLastPart(s: Bytes)
    requires '.' !in s
    ensures SplitDots(s) == [s]
  {
    if s != [] {
      SplitLastPart(s[1..]);
      assert [s[0]] + s[1..] == s;
    }
  }

  lemma {:induction false} SplitNextPart(s: Bytes, rest: Bytes)
    requires '.' !in s
    ensures SplitDots(s + ['.'] + rest) == [s] + SplitDots(rest)
  {
    var all := s + ['.'] + rest;
    if s == [] {
      assert all[1..] == rest;
    } else {
      SplitNextPart(s[1..], rest);
      assert all[1..] == s[1..] + ['.'] + rest;
      assert [s[0]] + s[1..] == s;
    }
  }

  lemma SplitFour(a: Bytes, b: Bytes, c: Bytes, d: Bytes)
    requires '.' !in a && '.' !in b && '.' !in c && '.' !in d
    ensures SplitDots(a + ['.'] + b + ['.'] + c + ['.'] + d) == [a, b, c, d]
  {
    SplitTwo(c, d);
    SplitNextPart(b, c + ['.'] + d);
    SplitNextPart(a, b + ['.'] + (c + ['.'] + d));
    Regroup(a, b, c, d);
  }

  lemma SplitTwo(c: Bytes, d: Bytes)
    requires '.' !in c && '.' !in d
    ensures SplitDots(c + ['.'] + d) == [c, d]
  {
    SplitLastPart(d);
    SplitNextPart(c, d);
  }

  lemma Regroup(a: Bytes, b: Bytes, c: Bytes, d: Bytes)
    ensures a + ['.'] + b + ['.'] + c + ['.'] + d == a + ['.'] + (b + ['.'] + (c + ['.'] + d))
  {
  }

  lemma ParseHexRoundTrip(n: nat)
    requires n < MAX_U64
    ensures ParseHex(HexNumber(n)) == Some(n)
  {
    HexNumberRoundTrip(n);
    assert HexNumber(n)[0] in HexNumber(n);
  }

  /** A signed token parses back to what was signed. */
  lemma SignedParses(p: Primitives, expiry: nat, user: Bytes, passwordHash: Bytes)
    requires expiry < MAX_U64 && p.utf8(user) && '.' !in p.fragment(passwordHash)
    ensures var fragment := p.fragment(passwordHash);
            ParseToken(p, Sign(p, expiry, user, passwordHash)) ==
            Some(Claim(expiry, user, fragment, Hex(p.mac(SessionMessage(expiry, user, fragment)))))
  {
    var fragment := p.fragment(passwordHash);
    var tag := p.mac(SessionMessage(expiry, user, fragment));
    ParseHexRoundTrip(expiry);
    UnhexOfHex(user);
    UnhexOfHex(tag);
    SplitFour(HexNumber(expiry), Hex(user), fragment, Hex(tag));
  }

  /** A signed token is accepted, as its user, exactly until its expiry and for as long as the user
      exists with the same password fragment. */
  lemma SignedVerifiesIff(p: Primitives, expiry: nat, user: Bytes, passwordHash: Bytes, now: nat, store: Store)
    requires expiry < MAX_U64 && p.utf8(user) && '.' !in p.fragment(passwordHash)
    ensures var token := Sign(p, expiry, user, passwordHash);
            (Verify(p, token, now, store) == Some(user) <==>
               now <= expiry && user in store && p.fragment(store[user]) == p.fragment(passwordHash)) &&
            (Verify(p, token, now, store).Some? ==> Verify(p, token, now, store) == Some(user))
  {
    SignedParses(p, expiry, user, passwordHash);
  }

  // ---------- exactly which tokens are accepted ----------

  lemma {:induction false} HexValueIff(s: Bytes)
    ensures HexValue(s).Some? <==> forall i :: 0 <= i < |s| ==> IsHexDigit(s[i])
  {
    if s != [] {
      var init := s[..|s| - 1];
      HexValueIff(init);
      assert forall i :: 0 <= i < |init| ==> init[i] == s[i];
    }
  }

  /** An expiry is read from one or more hexadecimal digits of either case, after at most one plus
      sign, that stay below 2^64. */
  lemma ParseHexIff(s: Bytes)
    ensures var digits := if s != [] && s[0] == '+' then s[1..] else s;
            ParseHex(s).Some? <==>
              digits != [] && (forall i :: 0 <= i < |digits| ==> IsHexDigit(digits[i])) &&
              HexValue(digits).Some? && HexValue(digits).value < 0x1_0000_0000_0000_0000
  {
    HexValueIff(if s != [] && s[0] == '+' then s[1..] else s);
  }

  lemma {:induction false} SplitDotFree(s: Bytes)
    ensures forall i :: 0 <= i < |SplitDots(s)| ==> '.' !in SplitDots(s)[i]
  {
    if s != [] { SplitDotFree(s[1..]); }
  }

  /** The parts with dots between them. */
  function Dotted(parts: seq<Bytes>): Bytes
    requires parts != []
  {
    if |parts| == 1 then parts[0] else parts[0] + ['.'] + Dotted(parts[1..])
  }

  lemma DottedStep(first: Bytes, rest: seq<Bytes>)
    requires rest != []
    ensures Dotted([first] + rest) == first + ['.'] + Dotted(rest)
  {
    assert ([first] + rest)[1..] == rest;
  }

  lemma DottedFirst(c: byte, first: Bytes, rest: seq<Bytes>)
    ensures Dotted([[c] + first] + rest) == [c] + Dotted([first] + rest)
  {
    if rest == [] {
      assert [[c] + first] + rest == [[c] + first] && [first] + rest == [first];
    } else {
      DottedStep([c] + first, rest);
      DottedStep(first, rest);
      Prefixed([c], first, Dotted(rest));
    }
  }

  lemma Prefixed(c: Bytes, first: Bytes, rest: Bytes)
    ensures (c + first) + ['.'] + rest == c + (first + ['.'] + rest)
  {
  }

  lemma {:induction false} SplitDotted(s: Bytes)
    ensures Dotted(SplitDots(s)) == s
  {
    if s != [] {
      var rest := SplitDots(s[1..]);
      SplitDotted(s[1..]);
      assert s == [s[0]] + s[1..];
      if s[0] == '.' {
        DottedStep([], rest);
      } else {
        assert rest == [rest[0]] + rest[1..];
        DottedFirst(s[0], rest[0], rest[1..]);
      }
    }
  }

  /** Four parts that are worth the user's name now. */
  predicate Worth(p: Primitives, a: Bytes, b: Bytes, fragment: Bytes, tag: Bytes, now: nat, store: Store, user: Bytes) {
    '.' !in a && '.' !in b && '.' !in fragment && '.' !in tag &&
    ParseHex(a).Some? && ParseHex(a).value >= now && ParseHex(a).value < MAX_U64 && Unhex(b) == Some(user) && p.utf8(user) &&
    user in store && fragment == p.fragment(store[user]) && tag == Hex(p.mac(SessionMessage(ParseHex(a).value, user, fragment)))
  }

  predicate Spells(token: Bytes, a: Bytes, b: Bytes, fragment: Bytes, tag: Bytes) {
    token == a + ['.'] + b + ['.'] + fragment + ['.'] + tag
  }

  lemma AcceptedParts(p: Primitives, token: Bytes, now: nat, store: Store, user: Bytes)
    requires Verify(p, token, now, store) == Some(user)
    ensures var s := SplitDots(token);
            |s| == 4 && Worth(p, s[0], s[1], s[2], s[3], now, store, user) && Spells(token, s[0], s[1], s[2], s[3])
  {
    SplitDotFree(token);
    SplitDotted(token);
    DottedFour(SplitDots(token));
  }

  lemma PartsAccepted(p: Primitives, token: Bytes, a: Bytes, b: Bytes, fragment: Bytes, tag: Bytes, now: nat, store: Store, user: Bytes)
    requires Worth(p, a, b, fragment, tag, now, store, user) && Spells(token, a, b, fragment, tag)
    ensures Verify(p, token, now, store) == Some(user)
  {
    SplitFour(a, b, fragment, tag);
  }

  /** A token is accepted as a user's, whoever made it, exactly when it is four parts between dots:
      an expiry that is not past, the user's name in hexadecimal, the fragment of the password the
      user has, and the tag of the three in hexadecimal. */
  lemma AcceptedIff(p: Primitives, token: Bytes, now: nat, store: Store, user: Bytes)
    ensures Verify(p, token, now, store) == Some(user) <==>
            exists a: Bytes, b: Bytes, fragment: Bytes, tag: Bytes ::
              Spells(token, a, b, fragment, tag) && Worth(p, a, b, fragment, tag, now, store, user)
  {
    if Verify(p, token, now, store) == Some(user) {
      AcceptedParts(p, token, now, store, user);
    }
    if a: Bytes, b: Bytes, fragment: Bytes, tag: Bytes :|
        Spells(token, a, b, fragment, tag) && Worth(p, a, b, fragment, tag, now, store, user) {
      PartsAccepted(p, token, a, b, fragment, tag, now, store, user);
    }
  }

  lemma DottedFour(parts: seq<Bytes>)
    requires |parts| == 4
    ensures Dotted(parts) == parts[0] + ['.'] + parts[1] + ['.'] + parts[2] + ['.'] + parts[3]
  {
    var rest := parts[1..];
    assert rest[1..][1..] == [parts[3]];
    assert Dotted(rest[1..]) == parts[2] + ['.'] + parts[3];
    assert Dotted(rest) == parts[1] + ['.'] + (parts[2] + ['.'] + parts[3]);
    Regroup(parts[0], parts[1], parts[2], parts[3]);
  }

  // ---------- runs ----------

  /** What the process does with its signing key and its store. */
  datatype Event =
    | Signed(expiry: nat, user: Bytes, passwordHash: Bytes)
    | Memoized(credential: Bytes)
    | PasswordSet(user: Bytes, passwordHash: Bytes)
    | Deleted(user: Bytes)

  /** The messages put under the MAC so far. */
  function Messages(p: Primitives, events: seq<Event>): set<Bytes> {
    if events == [] then {}
    else
      var last := events[|events| - 1];
      Messages(p, events[..|events| - 1]) +
      match last
      case Signed(expiry, user, hash) =>
        if expiry < MAX_U64 then {SessionMessage(expiry, user, p.fragment(hash))} else {}
      case Memoized(credential) => {Frame([credential])}
      case _ => {}
  }

  function StoreAfter(store: Store, events: seq<Event>): Store {
    if events == [] then store
    else
      var before := StoreAfter(store, events[..|events| - 1]);
      match events[|events| - 1]
      case PasswordSet(user, hash) => before[user := hash]
      case Deleted(user) => before - {user}
      case _ => before
  }

  predicate Sizes(p: Primitives, events: seq<Event>) {
    forall i :: 0 <= i < |events| ==>
      match events[i]
      case Signed(_, user, hash) => |user| < MAX_U64 && |p.fragment(hash)| < MAX_U64
      case Memoized(credential) => |credential| < MAX_U64
      case _ => true
  }

  /** Nobody guessed this token's tag: if it is the right one for what the token claims, that claim
      was put under the MAC. */
  ghost predicate Unforged(p: Primitives, token: Bytes, messages: set<Bytes>) {
    var c := ParseToken(p, token);
    c.Some? ==>
      var m := SessionMessage(c.value.expiry, c.value.user, c.value.fragment);
      c.value.tagHex == Hex(p.mac(m)) ==> m in messages
  }

  /** The event signed this expiry, user and fragment. */
  predicate Signs(p: Primitives, e: Event, expiry: nat, user: Bytes, fragment: Bytes) {
    e.Signed? && e.expiry == expiry && e.user == user && p.fragment(e.passwordHash) == fragment
  }

  /** A message of this form under the MAC is there because it was signed: framing keeps the three
      parts of a session apart from each other and from a memoized credential. */
  lemma {:induction false} MessageWasSigned(p: Primitives, events: seq<Event>, expiry: nat, user: Bytes, fragment: Bytes)
    requires Sizes(p, events) && expiry < MAX_U64 && |user| < MAX_U64 && |fragment| < MAX_U64
    requires SessionMessage(expiry, user, fragment) in Messages(p, events)
    ensures exists i :: 0 <= i < |events| && Signs(p, events[i], expiry, user, fragment)
  {
    var init, last := events[..|events| - 1], events[|events| - 1];
    var m := SessionMessage(expiry, user, fragment);
    if m in Messages(p, init) {
      MessageWasSigned(p, init, expiry, user, fragment);
      var i :| 0 <= i < |init| && Signs(p, init[i], expiry, user, fragment);
      assert events[i] == init[i];
    } else {
      match last
      case Signed(e, u, hash) =>
        SameMessage(expiry, user, fragment, e, u, p.fragment(hash));
        assert Signs(p, events[|events| - 1], expiry, user, fragment);
      case Memoized(credential) =>
        FrameInjective([BigEndian(expiry, 8), user, fragment], [credential]);
        assert false;
      case _ => assert false;
    }
  }

  lemma SameMessage(e: nat, u: Bytes, f: Bytes, e': nat, u': Bytes, f': Bytes)
    requires e < MAX_U64 && e' < MAX_U64 && |u| < MAX_U64 && |f| < MAX_U64 && |u'| < MAX_U64 && |f'| < MAX_U64
    requires SessionMessage(e, u, f) == SessionMessage(e', u', f')
    ensures e == e' && u == u' && f == f'
  {
    var a, b := [BigEndian(e, 8), u, f], [BigEndian(e', 8), u', f'];
    FrameInjective(a, b);
    assert a[0] == b[0] && a[1] == b[1] && a[2] == b[2];
    Power8();
    BigEndianRoundTrip(e, 8);
    BigEndianRoundTrip(e', 8);
  }

  /** Whatever token is accepted after a run, its expiry, user and fragment were signed together in
      the run, and the fragment is that of the user's password now. */
  lemma AcceptedWasSigned(p: Primitives, initial: Store, events: seq<Event>, token: Bytes, now: nat)
    requires Sizes(p, events) && |token| < MAX_U64 && Unforged(p, token, Messages(p, events))
    requires Verify(p, token, now, StoreAfter(initial, events)).Some?
    ensures var c, store := ParseToken(p, token).value, StoreAfter(initial, events);
            now <= c.expiry && c.user in store && p.fragment(store[c.user]) == c.fragment &&
            exists i :: 0 <= i < |events| && Signs(p, events[i], c.expiry, c.user, c.fragment)
  {
    var c := ParseToken(p, token).value;
    ParsedSizes(p, token);
    MessageWasSigned(p, events, c.expiry, c.user, c.fragment);
  }

  lemma {:induction false} PartSizes(s: Bytes)
    ensures forall i :: 0 <= i < |SplitDots(s)| ==> |SplitDots(s)[i]| <= |s|
  {
    if s != [] { PartSizes(s[1..]); }
  }

  lemma {:induction false} UnhexSize(s: Bytes)
    ensures Unhex(s).Some? ==> |Unhex(s).value| <= |s|
  {
    if |s| >= 2 { UnhexSize(s[2..]); }
  }

  lemma ParsedSizes(p: Primitives, token: Bytes)
    ensures ParseToken(p, token).Some? ==>
              |ParseToken(p, token).value.user| <= |token| && |ParseToken(p, token).value.fragment| <= |token|
  {
    PartSizes(token);
    var parts := SplitDots(token);
    if |parts| == 4 { UnhexSize(parts[1]); }
  }

  /** While no session was signed with the fragment of the user's current password, or once the user
      is deleted, no token carrying the user's name is accepted. */
  lemma UnsignedRefused(p: Primitives, initial: Store, events: seq<Event>, user: Bytes, token: Bytes, now: nat)
    requires Sizes(p, events) && |token| < MAX_U64 && Unforged(p, token, Messages(p, events))
    requires var store := StoreAfter(initial, events);
             user in store ==> forall i, e :: 0 <= i < |events| ==> !Signs(p, events[i], e, user, p.fragment(store[user]))
    ensures Verify(p, token, now, StoreAfter(initial, events)) != Some(user)
  {
    if Verify(p, token, now, StoreAfter(initial, events)) == Some(user) {
      AcceptedWasSigned(p, initial, events, token, now);
    }
  }

  predicate Touches(e: Event, user: Bytes) {
    (e.PasswordSet? || e.Deleted?) && e.user == user
  }

  /** The last event of the run that touches the user decides what the store holds of it. */
  lemma {:induction false} StoreSince(initial: Store, events: seq<Event>, i: nat, user: Bytes)
    requires i < |events| && Touches(events[i], user)
    requires forall j :: i < j < |events| ==> !Touches(events[j], user)
    ensures var store := StoreAfter(initial, events);
            if events[i].Deleted? then user !in store else user in store && store[user] == events[i].passwordHash
    decreases |events|
  {
    var k := |events| - 1;
    if i < k {
      StoreSince(initial, events[..k], i, user);
      assert !Touches(events[k], user);
    }
  }

  /** A password change or a deletion, at any point of the run and as long as nothing touches the
      user after it: of the tokens accepted for the user before it, exactly those that have not
      expired and carry the fragment of the new password are still accepted. */
  lemma ChangeRevokes(p: Primitives, initial: Store, events: seq<Event>, i: nat, user: Bytes, token: Bytes, earlier: nat, now: nat)
    requires i < |events| && Touches(events[i], user)
    requires forall j :: i < j < |events| ==> !Touches(events[j], user)
    requires Verify(p, token, earlier, StoreAfter(initial, events[..i])) == Some(user)
    ensures var held := StoreAfter(initial, events[..i]);
            user in held &&
            (Verify(p, token, now, StoreAfter(initial, events)) == Some(user) <==>
               now <= ParseToken(p, token).value.expiry && events[i].PasswordSet? &&
               p.fragment(events[i].passwordHash) == p.fragment(held[user]))
  {
    StoreSince(initial, events, i, user);
  }

  /** And whoever made it, a token with another fragment is not accepted for the user. */
  lemma OtherFragmentRefused(p: Primitives, initial: Store, events: seq<Event>, i: nat, user: Bytes, token: Bytes, now: nat)
    requires i < |events| && Touches(events[i], user)
    requires forall j :: i < j < |events| ==> !Touches(events[j], user)
    requires ParseToken(p, token).Some?
    requires events[i].PasswordSet? ==> ParseToken(p, token).value.fragment != p.fragment(events[i].passwordHash)
    ensures Verify(p, token, now, StoreAfter(initial, events)) != Some(user)
  {
    StoreSince(initial, events, i, user);
  }
}
