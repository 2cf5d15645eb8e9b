/** Message catalogs: the brace grammar and the validation of scripts/locale_v1.py, and the
    substitution of src/web/login.js. */
module Catalog {
  import opened Wrappers
  import opened Text

  predicate BraceFree(s: string) {
    '{' !in s && '}' !in s
  }

  /** A message is made of literal text and groups in braces. */
  datatype Piece = Literal(s: string) | Group(s: string)

  function Render(p: Piece): string {
    match p
    case Literal(s) => s
    case Group(s) => "{" + s + "}"
  }

  function RenderAll(pieces: seq<Piece>): string {
    if pieces == [] then "" else Render(pieces[0]) + RenderAll(pieces[1..])
  }

  predicate Unnested(pieces: seq<Piece>) {
    forall i :: 0 <= i < |pieces| ==> BraceFree(pieces[i].s)
  }

  // ---------- unbalanced_braces ----------

  /** Scanning on from a point inside or outside a group meets an error. */
  predicate Unbalanced(text: string, inside: bool) {
    if text == "" then inside
    else if text[0] == '{' then inside || Unbalanced(text[1..], true)
    else if text[0] == '}' then !inside || Unbalanced(text[1..], false)
    else Unbalanced(text[1..], inside)
  }

  method UnbalancedBraces(text: string) returns (r: bool)
    ensures r <==> Unbalanced(text, false)
  {
    var depth := 0;
    assert text[0..] == text;
    for i := 0 to |text|
      invariant depth == 0 || depth == 1
      invariant Unbalanced(text, false) <==> Unbalanced(text[i..], depth == 1)
    {
      assert text[i..][1..] == text[i + 1..];
      if text[i] == '{' {
        if depth != 0 {
          return true;
        }
        depth := 1;
      } else if text[i] == '}' {
        if depth == 0 {
          return true;
        }
        depth := 0;
      }
    }
    r := depth != 0;
  }

  lemma {:induction false} LiteralScans(s: string, rest: string, inside: bool)
    requires BraceFree(s)
    ensures Unbalanced(s + rest, inside) <==> Unbalanced(rest, inside)
  {
    if s == "" {
      assert s + rest == rest;
    } else {
      assert (s + rest)[1..] == s[1..] + rest;
      LiteralScans(s[1..], rest, inside);
    }
  }

  lemma GroupScans(s: string, rest: string)
    requires BraceFree(s)
    ensures Unbalanced("{" + s + "}" + rest, false) <==> Unbalanced(rest, false)
  {
    var t := "{" + s + "}" + rest;
    assert t[1..] == s + ("}" + rest);
    LiteralScans(s, "}" + rest, true);
    assert ("}" + rest)[1..] == rest;
  }

  lemma {:induction false} RenderedBalanced(pieces: seq<Piece>)
    requires Unnested(pieces)
    ensures !Unbalanced(RenderAll(pieces), false)
  {
    if pieces != [] {
      RenderedBalanced(pieces[1..]);
      match pieces[0]
      case Literal(s) => LiteralScans(s, RenderAll(pieces[1..]), false);
      case Group(s) => GroupScans(s, RenderAll(pieces[1..]));
    }
  }

  /** The length of the brace-free text up to the next brace. */
  function FreeLength(text: string): (n: nat)
    ensures n <= |text| && BraceFree(text[..n])
    ensures n < |text| ==> text[n] == '{' || text[n] == '}'
  {
    if text == "" || text[0] == '{' || text[0] == '}' then 0
    else
      var n := FreeLength(text[1..]);
      assert text[..n + 1] == [text[0]] + text[1..][..n];
      n + 1
  }

  lemma ScanToBrace(text: string, inside: bool)
    requires !Unbalanced(text, inside)
    ensures var n := FreeLength(text);
            text[..n] + text[n..] == text && !Unbalanced(text[n..], inside) && (inside ==> n < |text| && text[n] == '}')
  {
    var n := FreeLength(text);
    assert text[..n] + text[n..] == text;
    LiteralScans(text[..n], text[n..], inside);
  }

  lemma {:induction false} BalancedParses(text: string) returns (pieces: seq<Piece>)
    requires !Unbalanced(text, false)
    ensures Unnested(pieces) && RenderAll(pieces) == text
    decreases |text|
  {
    if text == "" {
      return [];
    }
    var first, rest := FirstPiece(text);
    var more := BalancedParses(rest);
    pieces := [first] + more;
    assert pieces[1..] == more;
  }

  lemma FirstPiece(text: string) returns (first: Piece, rest: string)
    requires text != "" && !Unbalanced(text, false)
    ensures BraceFree(first.s) && !Unbalanced(rest, false) && |rest| < |text| && text == Render(first) + rest
  {
    if text[0] == '{' {
      var inner := text[1..];
      ScanToBrace(inner, true);
      var n := FreeLength(inner);
      first, rest := Group(inner[..n]), inner[n + 1..];
      assert text == "{" + inner[..n] + "}" + rest;
    } else {
      first, rest := Literal([text[0]]), text[1..];
    }
  }

  /** The check passes exactly the texts made of brace-free literals and unnested groups. */
  lemma BalancedIff(text: string)
    ensures !Unbalanced(text, false) <==> exists pieces :: Unnested(pieces) && RenderAll(pieces) == text
  {
    if !Unbalanced(text, false) {
      var pieces := BalancedParses(text);
    }
    if pieces :| Unnested(pieces) && RenderAll(pieces) == text {
      RenderedBalanced(pieces);
    }
  }

  // ---------- placeholders ----------

  const INLINE: set<string> := {"{b}", "{/b}"}

  /** Every match of a brace-free group, from the left. */
  function Groups(text: string): seq<string>
    decreases |text|
  {
    if text == "" then []
    else if text[0] == '{' then
      var n := FreeLength(text[1..]);
      if n + 1 < |text| && text[n + 1] == '}' then [text[..n + 2]] + Groups(text[n + 2..]) else Groups(text[1..])
    else Groups(text[1..])
  }

  function Placeholders(text: string): set<string> {
    set g | g in Groups(text) && g !in INLINE
  }

  function GroupTexts(pieces: seq<Piece>): seq<string> {
    if pieces == [] then []
    else (if pieces[0].Group? then [Render(pieces[0])] else []) + GroupTexts(pieces[1..])
  }

  lemma {:induction false} GroupsSkip(s: string, rest: string)
    requires BraceFree(s)
    ensures Groups(s + rest) == Groups(rest)
  {
    if s == "" {
      assert s + rest == rest;
    } else {
      assert (s + rest)[1..] == s[1..] + rest;
      GroupsSkip(s[1..], rest);
    }
  }

  lemma {:induction false} FreeLengthIs(s: string, rest: string)
    requires BraceFree(s) && rest != "" && (rest[0] == '{' || rest[0] == '}')
    ensures FreeLength(s + rest) == |s|
  {
    if s == "" {
      assert s + rest == rest;
    } else {
      assert (s + rest)[1..] == s[1..] + rest;
      FreeLengthIs(s[1..], rest);
    }
  }

  lemma GroupsTake(s: string, rest: string)
    requires BraceFree(s)
    ensures Groups("{" + s + "}" + rest) == ["{" + s + "}"] + Groups(rest)
  {
    var t := "{" + s + "}" + rest;
    assert t[1..] == s + ("}" + rest);
    FreeLengthIs(s, "}" + rest);
    assert t[..|s| + 2] == "{" + s + "}" && t[|s| + 2..] == rest;
  }

  /** In a balanced text the matches are its groups. */
  lemma {:induction false} GroupsOfPieces(pieces: seq<Piece>)
    requires Unnested(pieces)
    ensures Groups(RenderAll(pieces)) == GroupTexts(pieces)
  {
    if pieces != [] {
      GroupsOfPieces(pieces[1..]);
      match pieces[0]
      case Literal(s) => GroupsSkip(s, RenderAll(pieces[1..]));
      case Group(s) => GroupsTake(s, RenderAll(pieces[1..]));
    }
  }

  // ---------- substitution ----------

  datatype Param = Param(key: string, value: string)

  /** The loop of `message`, one parameter after the other. */
  function Substituted(text: string, params: seq<Param>): string
    decreases |params|
  {
    if params == [] then text
    else Substituted(Replace(text, Placeholder(params[0].key), params[0].value), params[1..])
  }

  method Message(messages: map<string, string>, id: string, params: seq<Param>) returns (text: string)
    ensures text == Substituted(if id in messages then messages[id] else id, params)
  {
    text := if id in messages then messages[id] else id;
    ghost var start := text;
    for i := 0 to |params|
      invariant Substituted(text, params[i..]) == Substituted(start, params)
    {
      assert params[i..][1..] == params[i + 1..];
      text := Join(Split(text, Placeholder(params[i].key)), params[i].value);
    }
  }

  function ValueOf(params: seq<Param>, key: string): Option<string> {
    if params == [] then None else if params[0].key == key then Some(params[0].value) else ValueOf(params[1..], key)
  }

  /** All parameters at once: every group that names one becomes its value. */
  function Filled(pieces: seq<Piece>, params: seq<Param>): (r: seq<Piece>)
    ensures |r| == |pieces|
  {
    seq(|pieces|, i requires 0 <= i < |pieces| =>
      if pieces[i].Group? && ValueOf(params, pieces[i].s).Some? then Literal(ValueOf(params, pieces[i].s).value)
      else pieces[i])
  }

  /** A separator that starts with a brace is not found inside brace-free text. */
  lemma FindSkips(s: string, rest: string, sep: string)
    requires sep != "" && forall j: nat :: j < |s| ==> !At(s + rest, sep, j)
    ensures Find(s + rest, sep) == if Find(rest, sep) == -1 then -1 else |s| + Find(rest, sep)
  {
    var all := s + rest;
    forall j: nat | j >= |s| ensures At(all, sep, j) <==> At(rest, sep, j - |s|) {
      if j + |sep| <= |all| { assert all[j..j + |sep|] == rest[j - |s|..j - |s| + |sep|]; }
    }
    var i := Find(rest, sep);
    assert i != -1 ==> At(all, sep, |s| + i);
  }

  lemma HeadGrows(s: string, head: string, parts: seq<string>, glue: string)
    ensures Join([s + head] + parts, glue) == s + Join([head] + parts, glue)
  {
    if parts != [] {
      JoinCons(head, parts, glue);
      JoinCons(s + head, parts, glue);
      assert (s + head) + glue + Join(parts, glue) == s + (head + glue + Join(parts, glue));
    }
  }

  lemma TailAfter(s: string, rest: string, k: nat)
    requires k <= |rest|
    ensures (s + rest)[..|s| + k] == s + rest[..k] && (s + rest)[|s| + k..] == rest[k..]
  {
  }

  lemma ReplaceSkips(s: string, rest: string, sep: string, glue: string)
    requires sep != "" && forall j: nat :: j < |s| ==> !At(s + rest, sep, j)
    ensures Replace(s + rest, sep, glue) == s + Replace(rest, sep, glue)
  {
    FindSkips(s, rest, sep);
    var i := Find(rest, sep);
    if i != -1 {
      SplitAt(rest, sep, i);
      SplitAt(s + rest, sep, |s| + i);
      TailAfter(s, rest, i);
      TailAfter(s, rest, i + |sep|);
      HeadGrows(s, rest[..i], Split(rest[i + |sep|..], sep), glue);
    }
  }

  lemma ReplaceHits(rest: string, sep: string, glue: string)
    requires sep != ""
    ensures Replace(sep + rest, sep, glue) == glue + Replace(rest, sep, glue)
  {
    assert At(sep + rest, sep, 0);
    TailAfter(sep, rest, 0);
    JoinCons("", Split(rest, sep), glue);
    assert "" + glue + Replace(rest, sep, glue) == glue + Replace(rest, sep, glue);
  }

  function Placeholder(key: string): string {
    "{" + key + "}"
  }

  lemma FirstChar(text: string, sep: string, j: nat)
    requires sep != "" && j < |text|
    ensures At(text, sep, j) ==> text[j] == sep[0]
  {
    if At(text, sep, j) {
      assert text[j..j + |sep|][0] == text[j];
    }
  }

  lemma LiteralHasNone(s: string, rest: string, key: string)
    requires BraceFree(s)
    ensures forall j: nat :: j < |s| ==> !At(s + rest, Placeholder(key), j)
  {
    forall j: nat | j < |s| ensures !At(s + rest, Placeholder(key), j) {
      FirstChar(s + rest, Placeholder(key), j);
      assert (s + rest)[j] == s[j];
    }
  }

  /** Only the name itself, in braces, starts like a group. */
  lemma GroupStart(s: string, rest: string, key: string)
    requires BraceFree(s) && BraceFree(key) && At(Placeholder(s) + rest, Placeholder(key), 0)
    ensures s == key
  {
    var all, want := Placeholder(s) + rest, Placeholder(key);
    assert all[..|want|] == want;
    assert forall j :: 0 <= j < |want| ==> all[j] == want[j];
    assert all[|s| + 1] == '}' && all[|key| + 1] == '}';
    assert forall j :: 1 <= j < |s| + 1 ==> all[j] == s[j - 1] != '}';
    assert forall j :: 1 <= j < |key| + 1 ==> all[j] == key[j - 1] != '}';
    assert |s| == |key|;
    assert s == all[1..|s| + 1] == key;
  }

  lemma OtherGroupHasNone(s: string, rest: string, key: string)
    requires BraceFree(s) && BraceFree(key) && s != key
    ensures forall j: nat :: j < |s| + 2 ==> !At(Placeholder(s) + rest, Placeholder(key), j)
  {
    var all, want := Placeholder(s) + rest, Placeholder(key);
    forall j: nat | j < |s| + 2 ensures !At(all, want, j) {
      FirstChar(all, want, j);
      assert j > 0 ==> all[j] == if j <= |s| then s[j - 1] else '}';
      if At(all, want, 0) {
        GroupStart(s, rest, key);
      }
    }
  }

  /** One parameter at once. */
  function FilledOne(pieces: seq<Piece>, p: Param): (r: seq<Piece>)
    ensures |r| == |pieces|
  {
    seq(|pieces|, i requires 0 <= i < |pieces| => if pieces[i] == Group(p.key) then Literal(p.value) else pieces[i])
  }

  ghost predicate Plain(params: seq<Param>) {
    forall i :: 0 <= i < |params| ==> BraceFree(params[i].key) && BraceFree(params[i].value)
  }

  /** Splitting on a group and joining with the value fills exactly the groups of that name. */
  lemma {:induction false} ReplaceFillsOne(pieces: seq<Piece>, p: Param)
    requires Unnested(pieces) && BraceFree(p.key)
    ensures Replace(RenderAll(pieces), Placeholder(p.key), p.value) == RenderAll(FilledOne(pieces, p))
  {
    if pieces == [] {
      assert FilledOne(pieces, p) == [];
    } else {
      var rest, sep := RenderAll(pieces[1..]), Placeholder(p.key);
      ReplaceFillsOne(pieces[1..], p);
      assert FilledOne(pieces, p)[1..] == FilledOne(pieces[1..], p);
      match pieces[0]
      case Literal(s) =>
        LiteralHasNone(s, rest, p.key);
        ReplaceSkips(s, rest, sep, p.value);
      case Group(s) =>
        if s == p.key {
          ReplaceHits(rest, sep, p.value);
        } else {
          OtherGroupHasNone(s, rest, p.key);
          ReplaceSkips(Placeholder(s), rest, sep, p.value);
        }
    }
  }

  lemma FilledStep(pieces: seq<Piece>, params: seq<Param>)
    requires params != []
    ensures Filled(FilledOne(pieces, params[0]), params[1..]) == Filled(pieces, params)
  {
  }

  /** On a balanced text, with brace-free keys and values, replacing one parameter after the other
      is replacing them all at once. */
  lemma {:induction false} SequentialIsSimultaneous(pieces: seq<Piece>, params: seq<Param>)
    requires Unnested(pieces) && Plain(params)
    ensures Substituted(RenderAll(pieces), params) == RenderAll(Filled(pieces, params))
    decreases |params|
  {
    if params == [] {
      assert Filled(pieces, params) == pieces;
    } else {
      ReplaceFillsOne(pieces, params[0]);
      SequentialIsSimultaneous(FilledOne(pieces, params[0]), params[1..]);
      FilledStep(pieces, params);
    }
  }

  /** The order of the parameters does not matter: only the value each name stands for. */
  lemma OrderFree(text: string, params: seq<Param>, others: seq<Param>)
    requires !Unbalanced(text, false) && Plain(params) && Plain(others)
    requires forall key :: ValueOf(params, key) == ValueOf(others, key)
    ensures Substituted(text, params) == Substituted(text, others)
  {
    var pieces := BalancedParses(text);
    SequentialIsSimultaneous(pieces, params);
    SequentialIsSimultaneous(pieces, others);
    assert Filled(pieces, params) == Filled(pieces, others);
  }

  /** A value with braces is scanned again by the parameters after it, so order would matter. */
  lemma BracedValueIsRescanned()
    ensures Substituted("{a}", [Param("a", "{c}"), Param("c", "x")]) == "x"
    ensures Substituted("{a}", [Param("c", "x"), Param("a", "{c}")]) == "{c}"
  {
    var a, c := Param("a", "{c}"), Param("c", "x");
    var none: seq<Param> := [];
    EmptyReplace(Placeholder("a"), "{c}");
    EmptyReplace(Placeholder("c"), "x");
    ReplaceHits("", Placeholder("a"), "{c}");
    ReplaceHits("", Placeholder("c"), "x");
    OtherGroupHasNone("a", "", "c");
    assert Placeholder("a") == "{a}";
    ReplaceSkips(Placeholder("a"), "", Placeholder("c"), "x");
    assert "{a}" + "" == "{a}" && "{c}" + "" == "{c}" && "x" + "" == "x";
    assert [a, c][1..] == [c] && [c, a][1..] == [a] && [c][1..] == none && [a][1..] == none;
    assert Substituted("{a}", [a, c]) == Substituted("{c}", [c]);
    assert Substituted("{a}", [c, a]) == Substituted("{a}", [a]);
  }

  lemma EmptyReplace(sep: string, glue: string)
    requires sep != ""
    ensures Replace("", sep, glue) == ""
  {
  }

  predicate Supplied(params: seq<Param>, g: string) {
    exists i :: 0 <= i < |params| && Placeholder(params[i].key) == g
  }

  lemma {:induction false} SuppliedIff(params: seq<Param>, key: string)
    ensures Supplied(params, Placeholder(key)) <==> ValueOf(params, key).Some?
  {
    if params != [] {
      SuppliedIff(params[1..], key);
      SamePlaceholder(params[0].key, key);
      if Supplied(params, Placeholder(key)) && params[0].key != key {
        var i :| 0 <= i < |params| && Placeholder(params[i].key) == Placeholder(key);
        assert params[1..][i - 1] == params[i];
      }
      if Supplied(params[1..], Placeholder(key)) {
        var i :| 0 <= i < |params[1..]| && Placeholder(params[1..][i].key) == Placeholder(key);
        assert params[i + 1] == params[1..][i];
      }
    }
  }

  lemma SamePlaceholder(a: string, b: string)
    ensures Placeholder(a) == Placeholder(b) <==> a == b
  {
    assert Placeholder(a)[1..|a| + 1] == a && Placeholder(b)[1..|b| + 1] == b;
  }

  lemma {:induction false} GroupTextsIn(pieces: seq<Piece>, g: string)
    ensures g in GroupTexts(pieces) <==> exists i :: 0 <= i < |pieces| && pieces[i].Group? && Render(pieces[i]) == g
  {
    if pieces != [] {
      GroupTextsIn(pieces[1..], g);
      if i :| 0 <= i < |pieces[1..]| && pieces[1..][i].Group? && Render(pieces[1..][i]) == g {
        assert pieces[i + 1] == pieces[1..][i];
      }
      if i :| 1 <= i < |pieces| && pieces[i].Group? && Render(pieces[i]) == g {
        assert pieces[1..][i - 1] == pieces[i];
      }
    }
  }

  lemma GroupsLeft(pieces: seq<Piece>, params: seq<Param>, g: string)
    requires Unnested(pieces) && Plain(params)
    ensures Unnested(Filled(pieces, params))
    ensures g in GroupTexts(Filled(pieces, params)) <==> g in GroupTexts(pieces) && !Supplied(params, g)
  {
    var filled := Filled(pieces, params);
    forall i | 0 <= i < |pieces|
      ensures BraceFree(filled[i].s)
      ensures pieces[i].Group? ==> (filled[i].Group? <==> !Supplied(params, Render(pieces[i])))
    {
      ValuesPlain(params, pieces[i].s);
      SuppliedIff(params, pieces[i].s);
    }
    GroupTextsIn(pieces, g);
    GroupTextsIn(filled, g);
    if i :| 0 <= i < |pieces| && pieces[i].Group? && Render(pieces[i]) == g && !Supplied(params, g) {
      assert filled[i] == pieces[i];
    }
  }

  lemma {:induction false} ValuesPlain(params: seq<Param>, key: string)
    requires Plain(params)
    ensures ValueOf(params, key).Some? ==> BraceFree(ValueOf(params, key).value)
  {
    if params != [] {
      ValuesPlain(params[1..], key);
    }
  }

  /** A rendered balanced text is balanced, and still shows exactly the placeholders that were
      not supplied. */
  lemma PlaceholdersLeft(text: string, params: seq<Param>)
    requires !Unbalanced(text, false) && Plain(params)
    ensures !Unbalanced(Substituted(text, params), false)
    ensures forall g :: g in Placeholders(Substituted(text, params)) <==> g in Placeholders(text) && !Supplied(params, g)
  {
    var pieces := BalancedParses(text);
    var filled := Filled(pieces, params);
    SequentialIsSimultaneous(pieces, params);
    GroupsOfPieces(pieces);
    forall g ensures Unnested(filled)
      ensures g in GroupTexts(filled) <==> g in GroupTexts(pieces) && !Supplied(params, g)
    {
      GroupsLeft(pieces, params, g);
    }
    GroupsLeft(pieces, params, "");
    RenderedBalanced(filled);
    GroupsOfPieces(filled);
  }
}
