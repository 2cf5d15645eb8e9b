/** The validation of a translated catalog against its source (scripts/locale_v1.py), and what a
    clean validation promises about the rendered interface. */
module Translation {
  import opened Wrappers
  import opened Text
  import opened Catalog

  /** A source message: its text, the hash of it, and an optional length cap. */
  datatype Source = Source(text: string, hash: string, cap: Option<int>)

  /** A translated message: either field may be missing. */
  datatype Candidate = Candidate(text: Option<string>, hash: Option<string>)

  /** What `html.unescape` does to a text, and the tokens no locale may translate. */
  datatype Rules = Rules(unescape: string -> string, frozen: seq<string>)

  datatype Problem =
    | Missing(id: string)
    | Orphan(id: string)
    | Syntax(id: string)
    | Parity(id: string)
    | RawMarkup(id: string)
    | EntityMarkup(id: string)
    | Inline(id: string)
    | Stale(id: string)
    | TooLong(id: string)
    | Frozen(id: string, token: string)

  predicate Usable(rules: Rules) {
    "" !in rules.frozen
  }

  function TextOf(c: Candidate): string {
    if c.text.Some? then c.text.value else ""
  }

  predicate HasMarkup(text: string) {
    '<' in text || '>' in text
  }

  predicate Contains(text: string, token: string)
    requires token != ""
  {
    Find(text, token) != -1
  }

  // ---------- inline markers ----------

  /** Every inline marker, from the left. */
  function Markers(text: string): seq<string> {
    if text == "" then []
    else if At(text, "{b}", 0) then ["{b}"] + Markers(text[3..])
    else if At(text, "{/b}", 0) then ["{/b}"] + Markers(text[4..])
    else Markers(text[1..])
  }

  function OnlyMarkers(groups: seq<string>): seq<string> {
    if groups == [] then []
    else (if groups[0] in INLINE then [groups[0]] else []) + OnlyMarkers(groups[1..])
  }

  lemma {:induction false} MarkersSkip(s: string, rest: string)
    requires forall j: nat :: j < |s| ==> !At(s + rest, "{b}", j) && !At(s + rest, "{/b}", j)
    ensures Markers(s + rest) == Markers(rest)
  {
    if s == "" {
      assert s + rest == rest;
    } else {
      assert !At(s + rest, "{b}", 0) && !At(s + rest, "{/b}", 0);
      assert (s + rest)[1..] == s[1..] + rest;
      forall j: nat | j < |s[1..]|
        ensures !At(s[1..] + rest, "{b}", j) && !At(s[1..] + rest, "{/b}", j)
      {
        AtLater(s + rest, "{b}", j);
        AtLater(s + rest, "{/b}", j);
      }
      MarkersSkip(s[1..], rest);
    }
  }

  lemma AtLater(text: string, sep: string, j: nat)
    requires text != ""
    ensures At(text[1..], sep, j) <==> At(text, sep, j + 1)
  {
    if j + 1 + |sep| <= |text| {
      assert text[1..][j..j + |sep|] == text[j + 1..j + 1 + |sep|];
    }
  }

  lemma MarkersOfGroup(s: string, rest: string)
    requires BraceFree(s)
    ensures Markers(Placeholder(s) + rest) ==
            (if Placeholder(s) in INLINE then [Placeholder(s)] else []) + Markers(rest)
  {
    var all := Placeholder(s) + rest;
    assert all[..|s| + 2] == Placeholder(s) && all[|s| + 2..] == rest;
    assert Placeholder("b") == "{b}" && Placeholder("/b") == "{/b}";
    SamePlaceholder(s, "b");
    SamePlaceholder(s, "/b");
    if s == "b" {
      assert At(all, "{b}", 0);
    } else if s == "/b" {
      OtherGroupHasNone(s, rest, "b");
      assert At(all, "{/b}", 0);
    } else {
      OtherGroupHasNone(s, rest, "b");
      OtherGroupHasNone(s, rest, "/b");
      MarkersSkip(Placeholder(s), rest);
    }
  }

  function Marked(p: Piece): seq<string> {
    if p.Group? && Render(p) in INLINE then [Render(p)] else []
  }

  lemma OnlyMarkersStep(pieces: seq<Piece>)
    requires pieces != []
    ensures OnlyMarkers(GroupTexts(pieces)) == Marked(pieces[0]) + OnlyMarkers(GroupTexts(pieces[1..]))
  {
    var more := GroupTexts(pieces[1..]);
    if pieces[0].Group? {
      assert GroupTexts(pieces) == [Render(pieces[0])] + more;
      assert GroupTexts(pieces)[1..] == more;
    } else {
      assert GroupTexts(pieces) == more;
    }
  }

  lemma MarkersOfLiteral(s: string, rest: string)
    requires BraceFree(s)
    ensures Markers(s + rest) == Markers(rest)
  {
    assert Placeholder("b") == "{b}" && Placeholder("/b") == "{/b}";
    LiteralHasNone(s, rest, "b");
    LiteralHasNone(s, rest, "/b");
    MarkersSkip(s, rest);
  }

  lemma MarkersOfPiece(p: Piece, rest: string)
    requires BraceFree(p.s)
    ensures Markers(Render(p) + rest) == Marked(p) + Markers(rest)
  {
    match p
    case Literal(s) => MarkersOfLiteral(s, rest);
    case Group(s) => MarkersOfGroup(s, rest);
  }

  /** In a balanced text the markers are the groups that are markers. */
  lemma {:induction false} MarkersOfPieces(pieces: seq<Piece>)
    requires Unnested(pieces)
    ensures Markers(RenderAll(pieces)) == OnlyMarkers(GroupTexts(pieces))
  {
    if pieces != [] {
      MarkersOfPieces(pieces[1..]);
      OnlyMarkersStep(pieces);
      MarkersOfPiece(pieces[0], RenderAll(pieces[1..]));
    }
  }

  lemma MarkedKept(p: Piece, params: seq<Param>)
    requires !Supplied(params, "{b}") && !Supplied(params, "{/b}")
    ensures Marked(Filled([p], params)[0]) == Marked(p)
  {
    SuppliedIff(params, p.s);
    assert p.Group? ==> Render(p) == Placeholder(p.s);
  }

  lemma {:induction false} FillingKeepsMarkers(pieces: seq<Piece>, params: seq<Param>)
    requires !Supplied(params, "{b}") && !Supplied(params, "{/b}")
    ensures OnlyMarkers(GroupTexts(Filled(pieces, params))) == OnlyMarkers(GroupTexts(pieces))
  {
    var filled := Filled(pieces, params);
    if pieces != [] {
      FillingKeepsMarkers(pieces[1..], params);
      assert filled[1..] == Filled(pieces[1..], params);
      OnlyMarkersStep(pieces);
      OnlyMarkersStep(filled);
      MarkedKept(pieces[0], params);
    }
  }

  /** Rendering keeps the inline markers, in order, unless a parameter is named like one. */
  lemma MarkersKept(text: string, params: seq<Param>)
    requires !Unbalanced(text, false) && Plain(params)
    requires !Supplied(params, "{b}") && !Supplied(params, "{/b}")
    ensures Markers(Substituted(text, params)) == Markers(text)
  {
    var pieces := BalancedParses(text);
    GroupsLeft(pieces, params, "");
    SequentialIsSimultaneous(pieces, params);
    MarkersOfPieces(pieces);
    MarkersOfPieces(Filled(pieces, params));
    FillingKeepsMarkers(pieces, params);
  }

  // ---------- validation ----------

  /** The problems of one message that both catalogs hold. */
  predicate Wrong(p: Problem, s: Source, c: Candidate, rules: Rules)
    requires Usable(rules)
  {
    var text := TextOf(c);
    match p
    case Missing(_) => false
    case Orphan(_) => false
    case Syntax(_) => Unbalanced(text, false)
    case Parity(_) => !Unbalanced(text, false) && Placeholders(s.text) != Placeholders(text)
    case RawMarkup(_) => HasMarkup(text)
    case EntityMarkup(_) => rules.unescape(text) != text && HasMarkup(rules.unescape(text))
    case Inline(_) => Markers(text) != Markers(s.text)
    case Stale(_) => c.hash != Some(s.hash)
    case TooLong(_) => s.cap.Some? && s.cap.value != 0 && |text| > s.cap.value
    case Frozen(_, token) => token in rules.frozen && Contains(s.text, token) && !Contains(text, token)
  }

  /** Problem `p` is one of the two catalogs'. */
  predicate Defect(p: Problem, source: map<string, Source>, candidate: map<string, Candidate>, rules: Rules)
    requires Usable(rules)
  {
    if p.Missing? then p.id in source && p.id !in candidate
    else if p.Orphan? then p.id in candidate && p.id !in source
    else p.id in source && p.id in candidate && Wrong(p, source[p.id], candidate[p.id], rules)
  }

  method Untranslatable(id: string, s: Source, c: Candidate, rules: Rules) returns (problems: seq<Problem>)
    requires Usable(rules)
    ensures forall p :: p in problems <==> p.Frozen? && p.id == id && Wrong(p, s, c, rules)
  {
    problems := [];
    var text := TextOf(c);
    for i := 0 to |rules.frozen|
      invariant forall p :: p in problems <==>
          p.Frozen? && p.id == id && p.token in rules.frozen[..i] && Wrong(p, s, c, rules)
    {
      var token := rules.frozen[i];
      assert rules.frozen[..i + 1] == rules.frozen[..i] + [token];
      if Contains(s.text, token) && !Contains(text, token) {
        problems := problems + [Frozen(id, token)];
      }
    }
    assert rules.frozen[..|rules.frozen|] == rules.frozen;
  }

  method TextProblems(id: string, s: Source, c: Candidate, rules: Rules) returns (problems: seq<Problem>)
    requires Usable(rules)
    ensures forall p :: p in problems <==>
            p.id == id && (p.Syntax? || p.Parity? || p.RawMarkup? || p.EntityMarkup?) && Wrong(p, s, c, rules)
  {
    problems := [];
    var text := TextOf(c);
    var unbalanced := UnbalancedBraces(text);
    if unbalanced {
      problems := problems + [Syntax(id)];
    } else if Placeholders(s.text) != Placeholders(text) {
      problems := problems + [Parity(id)];
    }
    if HasMarkup(text) {
      problems := problems + [RawMarkup(id)];
    }
    var decoded := rules.unescape(text);
    if decoded != text && HasMarkup(decoded) {
      problems := problems + [EntityMarkup(id)];
    }
  }

  method Inspect(id: string, s: Source, c: Candidate, rules: Rules) returns (problems: seq<Problem>)
    requires Usable(rules)
    ensures forall p :: p in problems <==> p.id == id && Wrong(p, s, c, rules)
  {
    var text := TextOf(c);
    problems := TextProblems(id, s, c, rules);
    if Markers(text) != Markers(s.text) {
      problems := problems + [Inline(id)];
    }
    if c.hash != Some(s.hash) {
      problems := problems + [Stale(id)];
    }
    if s.cap.Some? && s.cap.value != 0 && |text| > s.cap.value {
      problems := problems + [TooLong(id)];
    }
    var frozen := Untranslatable(id, s, c, rules);
    problems := problems + frozen;
  }

  method Validate(source: map<string, Source>, candidate: map<string, Candidate>, rules: Rules)
    returns (problems: seq<Problem>)
    requires Usable(rules)
    ensures forall p :: p in problems <==> Defect(p, source, candidate, rules)
  {
    problems := [];
    var missing := source.Keys - candidate.Keys;
    while missing != {}
      invariant missing <= source.Keys - candidate.Keys
      invariant forall p :: p in problems <==> p.Missing? && p.id in source.Keys - candidate.Keys - missing
    {
      var id :| id in missing;
      problems := problems + [Missing(id)];
      missing := missing - {id};
    }
    var orphans := candidate.Keys - source.Keys;
    while orphans != {}
      invariant orphans <= candidate.Keys - source.Keys
      invariant forall p :: p in problems <==>
          Defect(p, source, candidate, rules) && (p.Missing? || (p.Orphan? && p.id !in orphans))
    {
      var id :| id in orphans;
      problems := problems + [Orphan(id)];
      orphans := orphans - {id};
    }
    var shared := source.Keys * candidate.Keys;
    while shared != {}
      invariant shared <= source.Keys * candidate.Keys
      invariant forall p :: p in problems <==> Defect(p, source, candidate, rules) && p.id !in shared
    {
      var id :| id in shared;
      var found := Inspect(id, source[id], candidate[id], rules);
      problems := problems + found;
      shared := shared - {id};
    }
  }

  /** What each problem means, for a message that both catalogs hold. */
  lemma EachDefect(source: map<string, Source>, candidate: map<string, Candidate>, rules: Rules, id: string)
    requires Usable(rules) && id in source && id in candidate
    ensures var s, c := source[id], candidate[id];
            var text := if c.text.Some? then c.text.value else "";
            var shown := rules.unescape(text);
            (Defect(RawMarkup(id), source, candidate, rules) <==> exists i :: 0 <= i < |text| && (text[i] == '<' || text[i] == '>')) &&
            (Defect(EntityMarkup(id), source, candidate, rules) <==>
               shown != text && exists i :: 0 <= i < |shown| && (shown[i] == '<' || shown[i] == '>')) &&
            (Defect(Stale(id), source, candidate, rules) <==> c.hash.None? || c.hash.value != s.hash) &&
            (Defect(TooLong(id), source, candidate, rules) <==> s.cap.Some? && s.cap.value != 0 && s.cap.value < |text|) &&
            (Defect(Inline(id), source, candidate, rules) <==> Markers(text) != Markers(s.text)) &&
            (Defect(Syntax(id), source, candidate, rules) <==> !exists pieces :: Unnested(pieces) && RenderAll(pieces) == text) &&
            !Defect(Missing(id), source, candidate, rules) && !Defect(Orphan(id), source, candidate, rules)
  {
    var s, text := source[id], TextOf(candidate[id]);
    BalancedIff(text);
    MarkupIs(text);
    MarkupIs(rules.unescape(text));
  }

  /** Parity is about texts that pass the syntax check, and about placeholders that are no markers. */
  lemma ParityDefect(source: map<string, Source>, candidate: map<string, Candidate>, rules: Rules, id: string)
    requires Usable(rules) && id in source && id in candidate
    ensures var text := if candidate[id].text.Some? then candidate[id].text.value else "";
            Defect(Parity(id), source, candidate, rules) <==>
              (exists pieces :: Unnested(pieces) && RenderAll(pieces) == text) &&
              exists g :: (g in Groups(source[id].text) <==> g !in Groups(text)) && g != "{b}" && g != "{/b}"
  {
    BalancedIff(TextOf(candidate[id]));
    ParityIs(source[id].text, TextOf(candidate[id]));
  }

  lemma MarkupIs(text: string)
    ensures HasMarkup(text) <==> exists i :: 0 <= i < |text| && (text[i] == '<' || text[i] == '>')
  {
  }

  lemma ParityIs(a: string, b: string)
    ensures Placeholders(a) != Placeholders(b) <==>
            exists g :: (g in Groups(a) <==> g !in Groups(b)) && g != "{b}" && g != "{/b}"
  {
    if Placeholders(a) != Placeholders(b) {
      if g :| g in Placeholders(a) && g !in Placeholders(b) {
        assert g in Groups(a) <==> g !in Groups(b);
      } else {
        var g :| g in Placeholders(b) && g !in Placeholders(a);
        assert g in Groups(a) <==> g !in Groups(b);
      }
    }
    if g :| (g in Groups(a) <==> g !in Groups(b)) && g != "{b}" && g != "{/b}" {
      assert g in Placeholders(a) <==> g !in Placeholders(b);
    }
  }

  /** A frozen token that the source uses and the translation does not is a defect, and no other. */
  lemma FrozenDefect(source: map<string, Source>, candidate: map<string, Candidate>, rules: Rules, id: string, token: string)
    requires Usable(rules) && id in source && id in candidate
    ensures var text := if candidate[id].text.Some? then candidate[id].text.value else "";
            Defect(Frozen(id, token), source, candidate, rules) <==>
              token in rules.frozen && (exists i: nat :: At(source[id].text, token, i)) && forall i: nat :: !At(text, token, i)
  {
    if token in rules.frozen {
      ContainsIs(source[id].text, token);
      ContainsIs(TextOf(candidate[id]), token);
    }
  }

  lemma ContainsIs(text: string, token: string)
    requires token != ""
    ensures Contains(text, token) <==> exists i: nat :: At(text, token, i)
  {
  }

  /** A message that only one catalog holds has one problem. */
  lemma LoneDefect(source: map<string, Source>, candidate: map<string, Candidate>, rules: Rules, p: Problem)
    requires Usable(rules) && (p.id !in source || p.id !in candidate)
    ensures Defect(p, source, candidate, rules) <==>
            (p == Missing(p.id) && p.id in source) || (p == Orphan(p.id) && p.id in candidate)
  {
  }

  /** What the operator sees of a translation without a syntax, placeholder or inline problem: when
      every placeholder of the source is supplied, none is left, and the markers are the source's. */
  lemma SoundRenders(source: map<string, Source>, candidate: map<string, Candidate>, rules: Rules, id: string,
                     params: seq<Param>)
    requires Usable(rules) && id in source && Plain(params)
    requires !Supplied(params, "{b}") && !Supplied(params, "{/b}")
    requires forall g :: g in Placeholders(source[id].text) ==> Supplied(params, g)
    requires !Defect(Missing(id), source, candidate, rules)
    requires !Defect(Syntax(id), source, candidate, rules)
    requires !Defect(Parity(id), source, candidate, rules)
    requires !Defect(Inline(id), source, candidate, rules)
    ensures id in candidate
    ensures var shown := Substituted(TextOf(candidate[id]), params);
            !Unbalanced(shown, false) && Placeholders(shown) == {} && Markers(shown) == Markers(source[id].text)
  {
    assert !Wrong(Syntax(id), source[id], candidate[id], rules);
    assert !Wrong(Parity(id), source[id], candidate[id], rules);
    assert !Wrong(Inline(id), source[id], candidate[id], rules);
    PlaceholdersLeft(TextOf(candidate[id]), params);
    MarkersKept(TextOf(candidate[id]), params);
  }

  // ---------- parity ----------

  /** One empty value for every placeholder. */
  function Suppliers(pieces: seq<Piece>): seq<Param> {
    if pieces == [] then []
    else (if pieces[0].Group? && Render(pieces[0]) !in INLINE then [Param(pieces[0].s, "")] else []) + Suppliers(pieces[1..])
  }

  lemma SuppliedCons(p: Param, params: seq<Param>, g: string)
    ensures Supplied([p] + params, g) <==> Placeholder(p.key) == g || Supplied(params, g)
  {
    var all := [p] + params;
    if i :| 0 <= i < |params| && Placeholder(params[i].key) == g {
      assert all[i + 1] == params[i];
    }
    if i :| 0 < i < |all| && Placeholder(all[i].key) == g {
      assert params[i - 1] == all[i];
    }
    assert all[0] == p;
  }

  lemma {:induction false} SuppliersSupply(pieces: seq<Piece>, g: string)
    requires Unnested(pieces)
    ensures Plain(Suppliers(pieces))
    ensures Supplied(Suppliers(pieces), g) <==> g in GroupTexts(pieces) && g !in INLINE
  {
    if pieces != [] {
      var more := Suppliers(pieces[1..]);
      SuppliersSupply(pieces[1..], g);
      SuppliedCons(Param(pieces[0].s, ""), more, g);
      assert BraceFree(pieces[0].s);
      assert [] + more == more;
      assert pieces[0].Group? ==> Render(pieces[0]) == Placeholder(pieces[0].s);
    }
  }

  /** Supplying exactly the placeholders of `s` leaves none in it; if it leaves none in `t` either,
      `t` has no others. */
  lemma SuppliedAlike(s: string, t: string) returns (params: seq<Param>)
    requires !Unbalanced(s, false) && !Unbalanced(t, false)
    ensures Plain(params) && Placeholders(Substituted(s, params)) == {}
    ensures Placeholders(Substituted(t, params)) == {} ==> Placeholders(t) <= Placeholders(s)
  {
    var pieces := BalancedParses(s);
    params := Suppliers(pieces);
    GroupsOfPieces(pieces);
    SuppliersSupply(pieces, "");
    forall g ensures Supplied(params, g) <==> g in Placeholders(s) {
      SuppliersSupply(pieces, g);
    }
    PlaceholdersLeft(s, params);
    PlaceholdersLeft(t, params);
  }

  /** The parity check is the exact one: two balanced texts have the same placeholders if and only
      if the same supplies are complete for both. */
  lemma ParityIff(s: string, t: string)
    requires !Unbalanced(s, false) && !Unbalanced(t, false)
    ensures Placeholders(s) == Placeholders(t) <==>
            forall params :: Plain(params) ==>
              (Placeholders(Substituted(s, params)) == {} <==> Placeholders(Substituted(t, params)) == {})
  {
    if Placeholders(s) == Placeholders(t) {
      forall params | Plain(params)
        ensures Placeholders(Substituted(s, params)) == {} <==> Placeholders(Substituted(t, params)) == {}
      {
        PlaceholdersLeft(s, params);
        PlaceholdersLeft(t, params);
      }
    } else {
      var a := SuppliedAlike(s, t);
      var b := SuppliedAlike(t, s);
    }
  }
}
