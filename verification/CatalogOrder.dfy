/** Parameters whose values hold placeholders themselves (the loop of src/web/login.js): when the
    order of the parameters can be seen in the message, and when it cannot. */
module CatalogOrder {
  import opened Wrappers
  import opened Text
  import opened Catalog

  // ---------- values with braces ----------

  predicate Balanced(text: string) {
    !Unbalanced(text, false)
  }

  /** Keys without braces, and values that are texts like the messages themselves. */
  predicate Braced(params: seq<Param>) {
    forall i :: 0 <= i < |params| ==> BraceFree(params[i].key) && Balanced(params[i].value)
  }

  lemma {:induction false} JoinScans(x: string, y: string, inside: bool)
    requires !Unbalanced(x, inside)
    ensures Unbalanced(x + y, inside) <==> Unbalanced(y, false)
  {
    if x == "" {
      assert x + y == y;
    } else {
      assert (x + y)[1..] == x[1..] + y;
      JoinScans(x[1..], y, if x[0] == '{' then true else if x[0] == '}' then false else inside);
    }
  }

  function ReplaceParam(text: string, p: Param): string {
    Replace(text, Placeholder(p.key), p.value)
  }

  /** What one parameter makes of one piece. */
  function Put(piece: Piece, p: Param): string {
    if piece == Group(p.key) then p.value else Render(piece)
  }

  lemma ReplacePiece(piece: Piece, rest: string, p: Param)
    requires BraceFree(piece.s) && BraceFree(p.key)
    ensures ReplaceParam(Render(piece) + rest, p) ==
            Put(piece, p) + ReplaceParam(rest, p)
  {
    match piece
    case Literal(s) =>
      LiteralHasNone(s, rest, p.key);
      ReplaceSkips(s, rest, Placeholder(p.key), p.value);
    case Group(s) =>
      if s == p.key {
        ReplaceHits(rest, Placeholder(p.key), p.value);
      } else {
        OtherGroupHasNone(s, rest, p.key);
        ReplaceSkips(Placeholder(s), rest, Placeholder(p.key), p.value);
      }
  }

  lemma PieceBalanced(piece: Piece)
    requires BraceFree(piece.s)
    ensures Balanced(Render(piece))
  {
    assert RenderAll([piece]) == Render(piece) + "" == Render(piece);
    RenderedBalanced([piece]);
  }

  /** Replacing goes through a balanced text and what follows it separately. */
  lemma {:induction false} ReplaceJoin(pieces: seq<Piece>, y: string, p: Param)
    requires Unnested(pieces) && BraceFree(p.key)
    ensures ReplaceParam(RenderAll(pieces) + y, p) == ReplaceParam(RenderAll(pieces), p) + ReplaceParam(y, p)
  {
    if pieces == [] {
      EmptyReplace(Placeholder(p.key), p.value);
      assert "" + y == y && "" + ReplaceParam(y, p) == ReplaceParam(y, p);
    } else {
      ReplaceJoin(pieces[1..], y, p);
      FirstJoin(pieces[0], RenderAll(pieces[1..]), y, p);
    }
  }

  lemma FirstJoin(first: Piece, rest: string, y: string, p: Param)
    requires BraceFree(first.s) && BraceFree(p.key)
    requires ReplaceParam(rest + y, p) == ReplaceParam(rest, p) + ReplaceParam(y, p)
    ensures ReplaceParam((Render(first) + rest) + y, p) == ReplaceParam(Render(first) + rest, p) + ReplaceParam(y, p)
  {
    ReplacePiece(first, rest, p);
    ReplacePiece(first, rest + y, p);
    Regroup(Render(first), rest, y);
    Regroup(Put(first, p), ReplaceParam(rest, p), ReplaceParam(y, p));
  }

  lemma Regroup(a: string, b: string, c: string)
    ensures (a + b) + c == a + (b + c)
  {
  }

  lemma {:induction false} ReplaceBalanced(pieces: seq<Piece>, p: Param)
    requires Unnested(pieces) && BraceFree(p.key) && Balanced(p.value)
    ensures Balanced(ReplaceParam(RenderAll(pieces), p))
  {
    if pieces == [] {
      EmptyReplace(Placeholder(p.key), p.value);
    } else {
      ReplaceBalanced(pieces[1..], p);
      ReplacePiece(pieces[0], RenderAll(pieces[1..]), p);
      PieceBalanced(pieces[0]);
      JoinScans(Put(pieces[0], p), ReplaceParam(RenderAll(pieces[1..]), p), false);
    }
  }

  lemma {:induction false} SubstitutedJoin(x: string, y: string, params: seq<Param>)
    requires Balanced(x) && Braced(params)
    ensures Substituted(x + y, params) == Substituted(x, params) + Substituted(y, params)
    decreases |params|
  {
    if params != [] {
      var pieces := BalancedParses(x);
      ReplaceJoin(pieces, y, params[0]);
      ReplaceBalanced(pieces, params[0]);
      SubstitutedJoin(ReplaceParam(x, params[0]), ReplaceParam(y, params[0]), params[1..]);
    }
  }

  /** What becomes of a group: the value, seen by the parameters after it. */
  function Rescanned(params: seq<Param>, key: string): string
    decreases |params|
  {
    if params == [] then Placeholder(key)
    else if params[0].key == key then Substituted(params[0].value, params[1..])
    else Rescanned(params[1..], key)
  }

  lemma {:induction false} GroupRescanned(params: seq<Param>, key: string)
    requires Braced(params) && BraceFree(key)
    ensures Substituted(Placeholder(key), params) == Rescanned(params, key)
    decreases |params|
  {
    if params != [] {
      ReplaceAlone(Group(key), params[0]);
      if params[0].key != key { GroupRescanned(params[1..], key); }
    }
  }

  lemma ReplaceAlone(piece: Piece, p: Param)
    requires BraceFree(piece.s) && BraceFree(p.key)
    ensures ReplaceParam(Render(piece), p) == Put(piece, p)
  {
    ReplacePiece(piece, "", p);
    EmptyReplace(Placeholder(p.key), p.value);
    assert Render(piece) + "" == Render(piece) && p.value + "" == p.value;
  }

  lemma {:induction false} LiteralStays(s: string, params: seq<Param>)
    requires Braced(params) && BraceFree(s)
    ensures Substituted(s, params) == s
    decreases |params|
  {
    if params != [] {
      ReplaceAlone(Literal(s), params[0]);
      LiteralStays(s, params[1..]);
    }
  }

  /** The parameters after it leave the value of the first parameter of each name alone. */
  predicate Undisturbed(params: seq<Param>) {
    forall i :: 0 <= i < |params| && ValueOf(params[..i], params[i].key).None? ==>
      Substituted(params[i].value, params[i + 1..]) == params[i].value
  }

  lemma {:induction false} RescannedAt(params: seq<Param>, i: nat)
    requires i < |params| && ValueOf(params[..i], params[i].key).None?
    ensures Rescanned(params, params[i].key) == Substituted(params[i].value, params[i + 1..])
    ensures ValueOf(params, params[i].key) == Some(params[i].value)
    decreases |params|
  {
    if i > 0 {
      assert params[..i][0] == params[0] && params[..i][1..] == params[1..][..i - 1];
      assert params[1..][i - 1] == params[i] && params[1..][i..] == params[i + 1..];
      RescannedAt(params[1..], i - 1);
    }
  }

  lemma {:induction false} FirstOf(params: seq<Param>, key: string) returns (i: nat)
    requires ValueOf(params, key).Some?
    ensures i < |params| && params[i].key == key && ValueOf(params[..i], key).None?
    decreases |params|
  {
    if params[0].key == key {
      i := 0;
    } else {
      var j := FirstOf(params[1..], key);
      i := j + 1;
      assert params[..i][0] == params[0] && params[..i][1..] == params[1..][..j];
    }
  }

  lemma {:induction false} RescannedNone(params: seq<Param>, key: string)
    requires ValueOf(params, key).None?
    ensures Rescanned(params, key) == Placeholder(key)
  {
    if params != [] { RescannedNone(params[1..], key); }
  }

  /** What becomes of one piece of a message. */
  lemma PieceFilled(piece: Piece, params: seq<Param>)
    requires BraceFree(piece.s) && Braced(params) && Undisturbed(params)
    ensures Substituted(Render(piece), params) == Render(Filled([piece], params)[0])
  {
    match piece
    case Literal(s) => LiteralStays(s, params);
    case Group(s) =>
      GroupRescanned(params, s);
      if ValueOf(params, s).Some? {
        var i := FirstOf(params, s);
        RescannedAt(params, i);
      } else {
        RescannedNone(params, s);
      }
  }

  lemma {:induction false} UndisturbedFills(pieces: seq<Piece>, params: seq<Param>)
    requires Unnested(pieces) && Braced(params) && Undisturbed(params)
    ensures Substituted(RenderAll(pieces), params) == RenderAll(Filled(pieces, params))
  {
    if pieces == [] {
      LiteralStays("", params);
      assert Filled(pieces, params) == [];
    } else {
      PieceBalanced(pieces[0]);
      SubstitutedJoin(Render(pieces[0]), RenderAll(pieces[1..]), params);
      PieceFilled(pieces[0], params);
      UndisturbedFills(pieces[1..], params);
      assert Filled(pieces, params)[1..] == Filled(pieces[1..], params);
      assert Filled(pieces, params)[0] == Filled([pieces[0]], params)[0];
    }
  }

  /** The loop fills every balanced text as if all parameters were substituted at once if and only
      if no value is changed by the parameters after it. */
  lemma SimultaneousIff(params: seq<Param>)
    requires Braced(params)
    ensures (forall pieces :: Unnested(pieces) ==> Substituted(RenderAll(pieces), params) == RenderAll(Filled(pieces, params)))
            <==> Undisturbed(params)
  {
    if Undisturbed(params) {
      forall pieces | Unnested(pieces) ensures Substituted(RenderAll(pieces), params) == RenderAll(Filled(pieces, params)) {
        UndisturbedFills(pieces, params);
      }
    } else {
      var i :| 0 <= i < |params| && ValueOf(params[..i], params[i].key).None? &&
               Substituted(params[i].value, params[i + 1..]) != params[i].value;
      var piece := Group(params[i].key);
      RescannedAt(params, i);
      GroupRescanned(params, params[i].key);
      assert Unnested([piece]) && RenderAll([piece]) == Render(piece);
      assert Filled([piece], params) == [Literal(params[i].value)];
      assert RenderAll([Literal(params[i].value)]) == params[i].value;
    }
  }

  // ---------- two parameters in either order ----------

  /** The parameter finds nothing to change in the text. */
  predicate Untouched(text: string, p: Param) {
    Placeholder(p.key) in Groups(text) ==> p.value == Placeholder(p.key)
  }

  lemma {:induction false} FilledLength(pieces: seq<Piece>, p: Param)
    requires Unnested(pieces) && BraceFree(p.key)
    ensures var a, b := |ReplaceParam(RenderAll(pieces), p)|, |RenderAll(pieces)|;
            (|p.value| >= |Placeholder(p.key)| ==> a >= b && (Group(p.key) in pieces && |p.value| > |Placeholder(p.key)| ==> a > b)) &&
            (|p.value| <= |Placeholder(p.key)| ==> a <= b && (Group(p.key) in pieces && |p.value| < |Placeholder(p.key)| ==> a < b))
  {
    if pieces == [] {
      EmptyReplace(Placeholder(p.key), p.value);
    } else {
      FilledLength(pieces[1..], p);
      ReplacePiece(pieces[0], RenderAll(pieces[1..]), p);
    }
  }

  lemma SameFront(a: string, b: string, c: string, d: string)
    requires |a| == |b| && a + c == b + d
    ensures a == b && c == d
  {
    assert (a + c)[..|a|] == a && (b + d)[..|b|] == b && (a + c)[|a|..] == c && (b + d)[|b|..] == d;
  }

  lemma {:induction false} SameAfter(pieces: seq<Piece>, p: Param)
    requires Unnested(pieces) && BraceFree(p.key) && |p.value| == |Placeholder(p.key)|
    ensures ReplaceParam(RenderAll(pieces), p) == RenderAll(pieces)
            <==> (Group(p.key) in pieces ==> p.value == Placeholder(p.key))
  {
    if pieces == [] {
      EmptyReplace(Placeholder(p.key), p.value);
    } else {
      var rest := RenderAll(pieces[1..]);
      SameAfter(pieces[1..], p);
      ReplacePiece(pieces[0], rest, p);
      if ReplaceParam(RenderAll(pieces), p) == RenderAll(pieces) {
        SameFront(Put(pieces[0], p), Render(pieces[0]), ReplaceParam(rest, p), rest);
      }
    }
  }

  lemma UntouchedIff(text: string, p: Param)
    requires Balanced(text) && BraceFree(p.key)
    ensures ReplaceParam(text, p) == text <==> Untouched(text, p)
  {
    var pieces := BalancedParses(text);
    GroupsOfPieces(pieces);
    GroupTextsIn(pieces, Placeholder(p.key));
    GroupIn(pieces, p.key);
    FilledLength(pieces, p);
    if |p.value| == |Placeholder(p.key)| {
      SameAfter(pieces, p);
    } else if Group(p.key) !in pieces {
      NotThere(pieces, p);
    }
  }

  lemma GroupIn(pieces: seq<Piece>, key: string)
    ensures Group(key) in pieces <==> exists i :: 0 <= i < |pieces| && pieces[i].Group? && Render(pieces[i]) == Placeholder(key)
  {
    if i :| 0 <= i < |pieces| && pieces[i].Group? && Render(pieces[i]) == Placeholder(key) {
      SamePlaceholder(pieces[i].s, key);
    }
    if Group(key) in pieces {
      var i :| 0 <= i < |pieces| && pieces[i] == Group(key);
      assert Render(pieces[i]) == Placeholder(key);
    }
  }

  lemma {:induction false} NotThere(pieces: seq<Piece>, p: Param)
    requires Unnested(pieces) && BraceFree(p.key) && Group(p.key) !in pieces
    ensures ReplaceParam(RenderAll(pieces), p) == RenderAll(pieces)
  {
    if pieces == [] {
      EmptyReplace(Placeholder(p.key), p.value);
    } else {
      NotThere(pieces[1..], p);
      ReplacePiece(pieces[0], RenderAll(pieces[1..]), p);
    }
  }

  lemma TwoInTurn(text: string, a: Param, b: Param)
    ensures Substituted(text, [a, b]) == ReplaceParam(ReplaceParam(text, a), b)
  {
    var none: seq<Param> := [];
    assert [a, b][1..] == [b] && [b][1..] == none;
    assert Substituted(ReplaceParam(ReplaceParam(text, a), b), none) == ReplaceParam(ReplaceParam(text, a), b);
    assert Substituted(ReplaceParam(text, a), [b]) == ReplaceParam(ReplaceParam(text, a), b);
  }

  /** With both untouched by the other, each finds only its own groups. */
  lemma {:induction false} BothOrders(pieces: seq<Piece>, a: Param, b: Param)
    requires Unnested(pieces) && a.key != b.key && Braced([a]) && Braced([b])
    requires ReplaceParam(a.value, b) == a.value && ReplaceParam(b.value, a) == b.value
    ensures ReplaceParam(ReplaceParam(RenderAll(pieces), a), b) == ReplaceParam(ReplaceParam(RenderAll(pieces), b), a)
  {
    if pieces == [] {
      EmptyReplace(Placeholder(a.key), a.value);
      EmptyReplace(Placeholder(b.key), b.value);
    } else {
      BothOrders(pieces[1..], a, b);
      OnePieceBoth(pieces[0], RenderAll(pieces[1..]), a, b);
      OnePieceBoth(pieces[0], RenderAll(pieces[1..]), b, a);
    }
  }

  lemma OnePieceBoth(piece: Piece, rest: string, a: Param, b: Param)
    requires BraceFree(piece.s) && a.key != b.key && Braced([a]) && Braced([b]) && ReplaceParam(a.value, b) == a.value
    ensures ReplaceParam(ReplaceParam(Render(piece) + rest, a), b) ==
            (if piece == Group(a.key) then a.value else if piece == Group(b.key) then b.value else Render(piece))
            + ReplaceParam(ReplaceParam(rest, a), b)
  {
    assert Braced([a]) && [a][0] == a && [b][0] == b;
    ReplacePiece(piece, rest, a);
    if piece == Group(a.key) {
      var pieces := BalancedParses(a.value);
      ReplaceJoin(pieces, ReplaceParam(rest, a), b);
    } else {
      ReplacePiece(piece, ReplaceParam(rest, a), b);
    }
  }

  /** Two parameters of different names commute on every balanced text if and only if neither finds
      anything to change in the other's value. */
  lemma CommuteIff(a: Param, b: Param)
    requires a.key != b.key && Braced([a]) && Braced([b])
    ensures (forall text :: Balanced(text) ==> Substituted(text, [a, b]) == Substituted(text, [b, a]))
            <==> Untouched(a.value, b) && Untouched(b.value, a)
  {
    assert [a][0] == a && [b][0] == b;
    UntouchedIff(a.value, b);
    UntouchedIff(b.value, a);
    if Untouched(a.value, b) && Untouched(b.value, a) {
      forall text | Balanced(text) ensures Substituted(text, [a, b]) == Substituted(text, [b, a]) {
        var pieces := BalancedParses(text);
        BothOrders(pieces, a, b);
        TwoInTurn(text, a, b);
        TwoInTurn(text, b, a);
      }
    } else if Untouched(b.value, a) {
      OrderShows(a, b);
    } else {
      OrderShows(b, a);
    }
  }

  lemma OrderShows(a: Param, b: Param)
    requires a.key != b.key && BraceFree(a.key) && BraceFree(b.key) && ReplaceParam(a.value, b) != a.value
    ensures Balanced(Placeholder(a.key)) && Substituted(Placeholder(a.key), [a, b]) != Substituted(Placeholder(a.key), [b, a])
  {
    PieceBalanced(Group(a.key));
    TwoInTurn(Placeholder(a.key), a, b);
    TwoInTurn(Placeholder(a.key), b, a);
    ReplaceAlone(Group(a.key), a);
    ReplaceAlone(Group(a.key), b);
  }
}
