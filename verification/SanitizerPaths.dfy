/** Which parts of a body survive sanitizing, and as what (`sanitize_json_value` in
    scripts/sanitize_nim_capture.py), said of a value laid out flat: every node in document order,
    with the chain of names that leads to it. */
module SanitizerPaths {
  import opened Collections
  import opened JsonValues
  import opened Sanitizer
  import opened SanitizerRun

  /** A node without what is below it; a list knows how many items it has. */
  datatype Head = NullHead | BoolHead(b: bool) | NumHead(n: Number) | StrHead(s: string) | ListHead(size: nat) | ObjectHead

  /** A node: the names on the way to it, and its own name, "" for an item of a list or the root. */
  datatype Node = Node(chain: seq<string>, key: string, head: Head)

  function HeadOf(v: Json): Head {
    match v
    case Null => NullHead
    case Bool(b) => BoolHead(b)
    case Num(n) => NumHead(n)
    case Str(s) => StrHead(s)
    case Arr(items) => ListHead(|items|)
    case Obj(_) => ObjectHead
  }

  /** The nodes of a value in document order. Items of a list are reached by the list's chain. */
  function Nodes(v: Json, chain: seq<string>, key: string): seq<Node>
    decreases v, 1
  {
    [Node(chain, key, HeadOf(v))] + Below(v, chain)
  }

  function Below(v: Json, chain: seq<string>): seq<Node>
    decreases v, 0
  {
    match v
    case Arr(items) => ItemNodes(items, chain)
    case Obj(pairs) => PairNodes(pairs, chain)
    case _ => []
  }

  function ItemNodes(items: seq<Json>, chain: seq<string>): seq<Node>
    decreases items, 0
  {
    if items == [] then [] else ItemNodes(items[..|items| - 1], chain) + Nodes(items[|items| - 1], chain, "")
  }

  function PairNodes(pairs: seq<Member>, chain: seq<string>): seq<Node>
    decreases pairs, 0
  {
    if pairs == [] then []
    else
      var last := pairs[|pairs| - 1];
      PairNodes(pairs[..|pairs| - 1], chain) + Nodes(last.value, chain + [last.name], last.name)
  }

  // ---------- what survives ----------

  /** The names that change what is permitted below them. */
  const GOVERNING: set<string> := {"usage", "choices", "error", "message", "delta", "tool_calls", "function"}

  /** The last of those names in a chain. */
  function Governor(chain: seq<string>): string {
    if chain == [] then ""
    else if chain[|chain| - 1] in GOVERNING then chain[|chain| - 1]
    else Governor(chain[..|chain| - 1])
  }

  predicate MayFollow(governor: string, name: string) {
    if governor == "" then name == "usage" || name == "choices" || name == "error"
    else if governor == "choices" then name == "index" || name == "finish_reason" || name == "message" || name == "delta"
    else if governor == "message" || governor == "delta" then name == "tool_calls"
    else if governor == "tool_calls" then
      name == "index" || name == "id" || name == "tool_call_id" || name == "type" || name == "function"
    else if governor == "function" then name == "name" || name == "arguments"
    else governor == "usage"
  }

  /** Each name of the chain is permitted by the last governing name before it. */
  predicate Survives(chain: seq<string>) {
    forall i :: 0 <= i < |chain| ==> MayFollow(Governor(chain[..i]), chain[i])
  }

  function Surviving(nodes: seq<Node>): seq<Node> {
    if nodes == [] then []
    else
      var last := nodes[|nodes| - 1];
      Surviving(nodes[..|nodes| - 1]) + if Survives(last.chain) then [last] else []
  }

  /** Below `usage` everything survives that no other governing name stands over. */
  lemma UsageSurvives(rest: seq<string>)
    requires forall i :: 0 <= i < |rest| ==> rest[i] !in GOVERNING
    ensures Survives(["usage"] + rest)
  {
    var chain := ["usage"] + rest;
    forall i | 0 <= i < |chain| ensures MayFollow(Governor(chain[..i]), chain[i]) {
      if i > 0 {
        assert chain[..i] == ["usage"] + rest[..i - 1];
        UsageGoverns(rest[..i - 1]);
      }
    }
  }

  lemma {:induction false} UsageGoverns(rest: seq<string>)
    requires forall i :: 0 <= i < |rest| ==> rest[i] !in GOVERNING
    ensures Governor(["usage"] + rest) == "usage"
    decreases |rest|
  {
    var chain := ["usage"] + rest;
    if rest != [] {
      assert chain[..|chain| - 1] == ["usage"] + rest[..|rest| - 1];
      UsageGoverns(rest[..|rest| - 1]);
    }
  }

  /** The rest of the contract: where a governing name stands in its place, exactly these names
      follow it. */
  lemma ChoicesSurvive(name: string)
    ensures Survives([name]) <==> name in {"usage", "choices", "error"}
    ensures Survives(["choices", name]) <==> name in {"index", "finish_reason", "message", "delta"}
  {
    SurvivesSnoc([], name);
    SurvivesSnoc([], "choices");
    SurvivesSnoc(["choices"], name);
    assert [] + [name] == [name] && [] + ["choices"] == ["choices"] && ["choices"] + [name] == ["choices", name];
  }

  /** Nothing follows `error`, even below `usage`. */
  lemma ErrorEmptied(name: string)
    ensures !Survives(["error", name]) && !Survives(["usage", "error", name])
  {
    SurvivesSnoc(["error"], name);
    SurvivesSnoc(["usage", "error"], name);
    assert ["error"] + [name] == ["error", name] && ["usage", "error"] + [name] == ["usage", "error", name];
  }

  lemma ToolsSurvive(part: string, name: string)
    requires part in {"message", "delta"}
    ensures Survives(["choices", part, name]) <==> name == "tool_calls"
    ensures Survives(["choices", part, "tool_calls", name]) <==> name in {"index", "id", "tool_call_id", "type", "function"}
    ensures Survives(["choices", part, "tool_calls", "function", name]) <==> name in {"name", "arguments"}
  {
    var a, b, c := ["choices", part], ["choices", part, "tool_calls"], ["choices", part, "tool_calls", "function"];
    ChoicesSurvive(part);
    SurvivesSnoc(a, name);
    SurvivesSnoc(a, "tool_calls");
    SurvivesSnoc(b, name);
    SurvivesSnoc(b, "function");
    SurvivesSnoc(c, name);
    assert a + [name] == ["choices", part, name] && a + ["tool_calls"] == b && b + ["function"] == c;
    assert b + [name] == ["choices", part, "tool_calls", name];
    assert c + [name] == ["choices", part, "tool_calls", "function", name];
    assert Governor(a) == part && Governor(b) == "tool_calls" && Governor(c) == "function";
  }

  lemma SurvivesSnoc(chain: seq<string>, name: string)
    ensures Survives(chain + [name]) <==> Survives(chain) && MayFollow(Governor(chain), name)
  {
    var all := chain + [name];
    assert all[..|chain|] == chain && all[|chain|] == name;
    forall i | 0 <= i < |chain| ensures all[..i] == chain[..i] && all[i] == chain[i] {
    }
    if Survives(all) {
      assert MayFollow(Governor(all[..|chain|]), all[|chain|]);
      forall i | 0 <= i < |chain| ensures MayFollow(Governor(chain[..i]), chain[i]) {
        assert MayFollow(Governor(all[..i]), all[i]);
      }
    }
  }

  // ---------- projection keeps what survives ----------

  lemma {:induction false} SurvivingJoin(a: seq<Node>, b: seq<Node>)
    ensures Surviving(a + b) == Surviving(a) + Surviving(b)
    decreases |b|
  {
    if b == [] {
      assert a + b == a;
    } else {
      var k := |b| - 1;
      assert (a + b)[..|a + b| - 1] == a + b[..k];
      SurvivingJoin(a, b[..k]);
    }
  }

  function ContextOf(governor: string): Context {
    if governor == "usage" then Usage
    else if governor == "choices" then Choice
    else if governor == "error" then Error
    else if governor == "message" then Message
    else if governor == "delta" then Delta
    else if governor == "tool_calls" then Tool
    else if governor == "function" then Function
    else Root
  }

  lemma {:induction false} GovernorIs(chain: seq<string>)
    ensures Governor(chain) in GOVERNING + {""}
  {
    if chain != [] { GovernorIs(chain[..|chain| - 1]); }
  }

  lemma ContextAfter(chain: seq<string>, name: string)
    ensures Child(name, ContextOf(Governor(chain))) == ContextOf(Governor(chain + [name]))
    ensures Governor(chain) != "error" ==> (Allowed(name, ContextOf(Governor(chain))) <==> MayFollow(Governor(chain), name))
    ensures ContextOf(Governor(chain)) == Error <==> Governor(chain) == "error"
  {
    GovernorIs(chain);
    assert (chain + [name])[..|chain|] == chain;
  }

  /** Nothing below a chain that does not survive does. */
  lemma {:induction false} NoneSurvive(v: Json, chain: seq<string>, key: string)
    requires !Survives(chain)
    ensures Surviving(Nodes(v, chain, key)) == []
    decreases v, 1
  {
    var head := [Node(chain, key, HeadOf(v))];
    SurvivingJoin(head, Below(v, chain));
    assert head[..0] == [];
    match v
    case Arr(items) => NoItemsSurvive(items, chain);
    case Obj(pairs) => NoPairsSurvive(pairs, chain);
    case _ =>
  }

  lemma {:induction false} NoItemsSurvive(items: seq<Json>, chain: seq<string>)
    requires !Survives(chain)
    ensures Surviving(ItemNodes(items, chain)) == []
    decreases items, 0
  {
    if items != [] {
      var init, last := items[..|items| - 1], items[|items| - 1];
      NoItemsSurvive(init, chain);
      NoneSurvive(last, chain, "");
      SurvivingJoin(ItemNodes(init, chain), Nodes(last, chain, ""));
    }
  }

  lemma {:induction false} NoPairsSurvive(pairs: seq<Member>, chain: seq<string>)
    requires !Survives(chain) || Governor(chain) == "error"
    ensures Surviving(PairNodes(pairs, chain)) == []
    decreases pairs, 0
  {
    if pairs != [] {
      var init, last := pairs[..|pairs| - 1], pairs[|pairs| - 1];
      NoPairsSurvive(init, chain);
      SurvivesSnoc(chain, last.name);
      NoneSurvive(last.value, chain + [last.name], last.name);
      SurvivingJoin(PairNodes(init, chain), Nodes(last.value, chain + [last.name], last.name));
    }
  }

  lemma {:induction false} ProjectSurvives(v: Json, chain: seq<string>, key: string)
    requires Survives(chain)
    ensures Nodes(Project(v, ContextOf(Governor(chain))), chain, key) == Surviving(Nodes(v, chain, key))
    decreases v, 1
  {
    var context := ContextOf(Governor(chain));
    var head := [Node(chain, key, HeadOf(v))];
    SurvivingJoin(head, Below(v, chain));
    assert head[..0] == [] && Surviving(head) == head;
    ContextAfter(chain, "");
    match v
    case Arr(items) => ProjectItemsSurvive(items, chain);
    case Obj(pairs) =>
      if Governor(chain) == "error" {
        NoPairsSurvive(pairs, chain);
      } else {
        ProjectPairsSurvive(pairs, chain);
      }
    case _ =>
  }

  lemma {:induction false} ProjectItemsSurvive(items: seq<Json>, chain: seq<string>)
    requires Survives(chain)
    ensures var projected := ProjectItems(items, ContextOf(Governor(chain)));
            ItemNodes(projected, chain) == Surviving(ItemNodes(items, chain)) && |projected| == |items|
    decreases items, 0
  {
    if items != [] {
      var init, last := items[..|items| - 1], items[|items| - 1];
      var context := ContextOf(Governor(chain));
      ProjectItemsSurvive(init, chain);
      ProjectSurvives(last, chain, "");
      SurvivingJoin(ItemNodes(init, chain), Nodes(last, chain, ""));
      ItemNodesSnoc(ProjectItems(init, context), Project(last, context), chain);
    }
  }

  lemma ItemNodesSnoc(items: seq<Json>, last: Json, chain: seq<string>)
    ensures ItemNodes(items + [last], chain) == ItemNodes(items, chain) + Nodes(last, chain, "")
  {
    assert (items + [last])[..|items|] == items;
  }

  lemma PairNodesSnoc(pairs: seq<Member>, last: Member, chain: seq<string>)
    ensures PairNodes(pairs + [last], chain) == PairNodes(pairs, chain) + Nodes(last.value, chain + [last.name], last.name)
  {
    assert (pairs + [last])[..|pairs|] == pairs;
  }

  lemma {:induction false} ProjectPairsSurvive(pairs: seq<Member>, chain: seq<string>)
    requires Survives(chain) && Governor(chain) != "error"
    ensures PairNodes(ProjectPairs(pairs, ContextOf(Governor(chain))), chain) == Surviving(PairNodes(pairs, chain))
    decreases pairs, 0
  {
    if pairs != [] {
      var init, last := pairs[..|pairs| - 1], pairs[|pairs| - 1];
      var context, longer := ContextOf(Governor(chain)), chain + [last.name];
      ProjectPairsSurvive(init, chain);
      SurvivesSnoc(chain, last.name);
      ContextAfter(chain, last.name);
      SurvivingJoin(PairNodes(init, chain), Nodes(last.value, longer, last.name));
      if Survives(longer) {
        ProjectSurvives(last.value, longer, last.name);
        PairNodesSnoc(ProjectPairs(init, context), Member(last.name, Project(last.value, Child(last.name, context))), chain);
      } else {
        NoneSurvive(last.value, longer, last.name);
      }
    }
  }

  // ---------- the dictionaries, node by node ----------

  predicate IsId(node: Node) {
    node.head.StrHead? && (node.key == "id" || node.key == "tool_call_id")
  }

  function NotedNode(seen: Seen, node: Node): Seen {
    if node.head.NumHead? then seen.(numbers := Note(seen.numbers, node.head.n))
    else if IsId(node) then seen.(ids := Note(seen.ids, node.head.s))
    else seen
  }

  function NotedAll(nodes: seq<Node>, seen: Seen): Seen {
    if nodes == [] then seen else NotedNode(NotedAll(nodes[..|nodes| - 1], seen), nodes[|nodes| - 1])
  }

  lemma {:induction false} NotedJoin(a: seq<Node>, b: seq<Node>, seen: Seen)
    ensures NotedAll(a + b, seen) == NotedAll(b, NotedAll(a, seen))
    decreases |b|
  {
    if b == [] {
      assert a + b == a;
    } else {
      var k := |b| - 1;
      assert (a + b)[..|a + b| - 1] == a + b[..k];
      NotedJoin(a, b[..k], seen);
    }
  }

  /** What becomes of a node when `seen` was seen before it. */
  function Renamed(node: Node, seen: Seen): Node {
    match node.head
    case NumHead(n) => node.(head := NumHead(NumberName(seen.numbers, n)))
    case StrHead(s) =>
      node.(head := StrHead(
        if node.key == "finish_reason" then FinishName(s)
        else if IsId(node) then IdName(IndexOf(seen.ids, s))
        else "<redacted>"))
    case _ => node
  }

  /** Every node renamed in its turn. */
  function RenamedAll(nodes: seq<Node>, seen: Seen): (r: seq<Node>)
    ensures |r| == |nodes|
  {
    if nodes == [] then []
    else
      var init := nodes[..|nodes| - 1];
      RenamedAll(init, seen) + [Renamed(nodes[|nodes| - 1], NotedAll(init, seen))]
  }

  lemma {:induction false} RenamedJoin(a: seq<Node>, b: seq<Node>, seen: Seen)
    ensures RenamedAll(a + b, seen) == RenamedAll(a, seen) + RenamedAll(b, NotedAll(a, seen))
    decreases |b|
  {
    if b == [] {
      assert a + b == a;
    } else {
      var k := |b| - 1;
      assert (a + b)[..|a + b| - 1] == a + b[..k];
      RenamedJoin(a, b[..k], seen);
      NotedJoin(a, b[..k], seen);
    }
  }

  lemma RenamedHead(v: Json, chain: seq<string>, key: string, seen: Seen)
    ensures var head := [Node(chain, key, HeadOf(v))];
            RenamedAll(head, seen) == [Node(chain, key, HeadOf(Relabel(v, key, seen).value))]
    ensures !v.Arr? && !v.Obj? ==> NotedAll([Node(chain, key, HeadOf(v))], seen) == Relabel(v, key, seen).seen
    ensures v.Arr? || v.Obj? ==> NotedAll([Node(chain, key, HeadOf(v))], seen) == seen
  {
    var head := [Node(chain, key, HeadOf(v))];
    assert head[..0] == [];
  }

  lemma {:induction false} RelabelRenames(v: Json, chain: seq<string>, key: string, seen: Seen)
    ensures Nodes(Relabel(v, key, seen).value, chain, key) == RenamedAll(Nodes(v, chain, key), seen)
    ensures Relabel(v, key, seen).seen == NotedAll(Nodes(v, chain, key), seen)
    decreases v, 1
  {
    var head := [Node(chain, key, HeadOf(v))];
    RenamedHead(v, chain, key, seen);
    RenamedJoin(head, Below(v, chain), seen);
    NotedJoin(head, Below(v, chain), seen);
    match v
    case Arr(items) =>
      RelabelItemsRenames(items, chain, seen);
    case Obj(pairs) =>
      RelabelPairsRenames(pairs, chain, seen);
    case _ => NothingBelow(v, Relabel(v, key, seen).value, chain, NotedAll(head, seen));
  }

  lemma NothingBelow(v: Json, w: Json, chain: seq<string>, seen: Seen)
    requires !v.Arr? && !v.Obj? && !w.Arr? && !w.Obj?
    ensures Below(v, chain) == [] && Below(w, chain) == []
    ensures RenamedAll(Below(v, chain), seen) == [] && NotedAll(Below(v, chain), seen) == seen
  {
  }

  lemma {:induction false} RelabelItemsRenames(items: seq<Json>, chain: seq<string>, seen: Seen)
    ensures ItemNodes(RelabelItems(items, seen).value, chain) == RenamedAll(ItemNodes(items, chain), seen)
    ensures RelabelItems(items, seen).seen == NotedAll(ItemNodes(items, chain), seen)
    decreases items, 0
  {
    if items != [] {
      var init, last := items[..|items| - 1], items[|items| - 1];
      var r := RelabelItems(init, seen);
      RelabelItemsRenames(init, chain, seen);
      RelabelRenames(last, chain, "", r.seen);
      RenamedJoin(ItemNodes(init, chain), Nodes(last, chain, ""), seen);
      NotedJoin(ItemNodes(init, chain), Nodes(last, chain, ""), seen);
      ItemNodesSnoc(r.value, Relabel(last, "", r.seen).value, chain);
    }
  }

  lemma {:induction false} RelabelPairsRenames(pairs: seq<Member>, chain: seq<string>, seen: Seen)
    ensures PairNodes(RelabelPairs(pairs, seen).value, chain) == RenamedAll(PairNodes(pairs, chain), seen)
    ensures RelabelPairs(pairs, seen).seen == NotedAll(PairNodes(pairs, chain), seen)
    decreases pairs, 0
  {
    if pairs != [] {
      var init, last := pairs[..|pairs| - 1], pairs[|pairs| - 1];
      var r := RelabelPairs(init, seen);
      var nodes := Nodes(last.value, chain + [last.name], last.name);
      RelabelPairsRenames(init, chain, seen);
      RelabelRenames(last.value, chain + [last.name], last.name, r.seen);
      RenamedJoin(PairNodes(init, chain), nodes, seen);
      NotedJoin(PairNodes(init, chain), nodes, seen);
      PairNodesSnoc(r.value, Member(last.name, Relabel(last.value, last.name, r.seen).value), chain);
    }
  }

  // ---------- what is written, said of the nodes alone ----------

  /** The numbers of a class among the nodes. */
  function NumbersIn(nodes: seq<Node>, c: NumberClass): set<Number> {
    set i | 0 <= i < |nodes| && nodes[i].head.NumHead? && Class(nodes[i].head.n) == c :: nodes[i].head.n
  }

  function IdsIn(nodes: seq<Node>): set<string> {
    set i | 0 <= i < |nodes| && IsId(nodes[i]) :: nodes[i].head.s
  }

  /** The first node that holds the number. */
  function FirstNumber(nodes: seq<Node>, n: Number): (f: nat)
    ensures f <= |nodes| && (f < |nodes| ==> nodes[f].head == NumHead(n))
    ensures forall i :: 0 <= i < f ==> nodes[i].head != NumHead(n)
  {
    if nodes == [] then 0 else if nodes[0].head == NumHead(n) then 0 else 1 + FirstNumber(nodes[1..], n)
  }

  /** The first node that holds the identifier. */
  function FirstId(nodes: seq<Node>, s: string): (f: nat)
    ensures f <= |nodes| && (f < |nodes| ==> IsId(nodes[f]) && nodes[f].head.s == s)
    ensures forall i :: 0 <= i < f ==> !(IsId(nodes[i]) && nodes[i].head.s == s)
  {
    if nodes == [] then 0 else if IsId(nodes[0]) && nodes[0].head.s == s then 0 else 1 + FirstId(nodes[1..], s)
  }

  /** The `k`-th number of its class, as it is written. */
  function NumberText(sign: Sign, integer: bool, k: nat): Number {
    if integer then Int(if sign == Zero then 0 else if sign == Positive then k else -(k as int))
    else if sign == Zero then Float(Zero, "0.0")
    else if sign == Positive then Float(Positive, Decimal(k) + ".5")
    else Float(Negative, "-" + Decimal(k) + ".5")
  }

  /** What is written for a node after others: numbers by their place among the numbers of their
      class, identifiers by their place among the identifiers, both in the order in which they first
      appear; the five known finish reasons as themselves; of other text, nothing. */
  predicate WrittenAs(before: seq<Node>, node: Node, written: Head) {
    match node.head
    case NumHead(n) =>
      var k := 1 + |NumbersIn(before[..FirstNumber(before, n)], Class(n))|;
      written == NumHead(NumberText(Class(n).sign, Class(n).integer, k))
    case StrHead(s) =>
      if node.key == "finish_reason" then
        written == StrHead(
          if s == "content_filter" || s == "function_call" || s == "length" || s == "stop" || s == "tool_calls" then s
          else "__other__")
      else if node.key == "id" || node.key == "tool_call_id" then
        written == StrHead("id-" + Decimal(1 + |IdsIn(before[..FirstId(before, s)])|))
      else written == StrHead("<redacted>")
    case _ => written == node.head
  }

  lemma {:induction false} RenamedAt(nodes: seq<Node>, seen: Seen, i: nat)
    requires i < |nodes|
    ensures RenamedAll(nodes, seen)[i] == Renamed(nodes[i], NotedAll(nodes[..i], seen))
    decreases |nodes|
  {
    var k := |nodes| - 1;
    if i < k {
      RenamedAt(nodes[..k], seen, i);
      assert nodes[..k][..i] == nodes[..i];
    }
  }

  /** The dictionaries hold what appeared, each once. */
  lemma {:induction false} NotedHolds(nodes: seq<Node>)
    ensures var seen := NotedAll(nodes, NOTHING);
            Distinct(seen.numbers) && Distinct(seen.ids) && Elements(seen.ids) == IdsIn(nodes) &&
            forall n :: n in seen.numbers <==> n in NumbersIn(nodes, Class(n))
  {
    if nodes != [] {
      var init, last := nodes[..|nodes| - 1], nodes[|nodes| - 1];
      NotedHolds(init);
      assert nodes == init + [last];
      InSnoc(init, last);
      NotedStepHolds(init, last);
    }
  }

  lemma InSnoc(init: seq<Node>, last: Node)
    ensures IdsIn(init + [last]) == IdsIn(init) + if IsId(last) then {last.head.s} else {}
    ensures forall c :: NumbersIn(init + [last], c) ==
              NumbersIn(init, c) + if last.head.NumHead? && Class(last.head.n) == c then {last.head.n} else {}
  {
    var all := init + [last];
    assert all[|init|] == last && forall i :: 0 <= i < |init| ==> all[i] == init[i];
  }

  lemma NotedStepHolds(init: seq<Node>, last: Node)
    requires var seen := NotedAll(init, NOTHING);
             Distinct(seen.numbers) && Distinct(seen.ids) && Elements(seen.ids) == IdsIn(init) &&
             forall n :: n in seen.numbers <==> n in NumbersIn(init, Class(n))
    requires IdsIn(init + [last]) == IdsIn(init) + if IsId(last) then {last.head.s} else {}
    requires forall c :: NumbersIn(init + [last], c) ==
               NumbersIn(init, c) + if last.head.NumHead? && Class(last.head.n) == c then {last.head.n} else {}
    ensures var seen := NotedNode(NotedAll(init, NOTHING), last);
            Distinct(seen.numbers) && Distinct(seen.ids) && Elements(seen.ids) == IdsIn(init + [last]) &&
            forall n :: n in seen.numbers <==> n in NumbersIn(init + [last], Class(n))
  {
    var seen := NotedAll(init, NOTHING);
    if last.head.NumHead? {
      NoteHolds(seen.numbers, last.head.n);
    } else if IsId(last) {
      NoteHolds(seen.ids, last.head.s);
    }
  }

  lemma NoteHolds<T>(s: seq<T>, x: T)
    requires Distinct(s)
    ensures Distinct(Note(s, x)) && Elements(Note(s, x)) == Elements(s) + {x}
    ensures forall y :: y in Note(s, x) <==> y in s || y == x
  {
  }

  lemma {:induction false} NotedGrows(nodes: seq<Node>, f: nat)
    requires f <= |nodes|
    ensures var before, after := NotedAll(nodes[..f], NOTHING), NotedAll(nodes, NOTHING);
            before.numbers <= after.numbers && before.ids <= after.ids
    decreases |nodes|
  {
    if f == |nodes| {
      assert nodes[..f] == nodes;
    } else {
      var k := |nodes| - 1;
      NotedGrows(nodes[..k], f);
      assert nodes[..k][..f] == nodes[..f];
    }
  }

  /** What is not in a prefix comes right after it, or at the end. */
  lemma IndexAfter<T>(s: seq<T>, t: seq<T>, x: T)
    requires s <= t && x !in s && (x in t ==> |s| < |t| && t[|s|] == x)
    ensures IndexOf(t, x) == if x in t then |s| else |t|
  {
    assert forall j :: 0 <= j < |s| ==> t[j] == s[j] && s[j] != x;
  }

  /** What is noted at `f` comes right after what was noted before. */
  lemma NotedBetween(nodes: seq<Node>, f: nat)
    requires f <= |nodes|
    ensures var before, now := NotedAll(nodes[..f], NOTHING), NotedAll(nodes, NOTHING);
            before.numbers <= now.numbers && before.ids <= now.ids &&
            (f < |nodes| ==> NotedNode(before, nodes[f]).numbers <= now.numbers && NotedNode(before, nodes[f]).ids <= now.ids)
  {
    NotedGrows(nodes, f);
    if f < |nodes| {
      assert nodes[..f + 1][..f] == nodes[..f];
      NotedGrows(nodes, f + 1);
    }
  }

  lemma NotedNumber(nodes: seq<Node>, n: Number)
    ensures n in NotedAll(nodes, NOTHING).numbers <==> exists j :: 0 <= j < |nodes| && nodes[j].head == NumHead(n)
    ensures Distinct(NotedAll(nodes, NOTHING).numbers)
  {
    NotedHolds(nodes);
    assert n in NumbersIn(nodes, Class(n)) <==> exists j :: 0 <= j < |nodes| && nodes[j].head == NumHead(n);
  }

  lemma NotedId(nodes: seq<Node>, s: string)
    ensures s in NotedAll(nodes, NOTHING).ids <==> exists j :: 0 <= j < |nodes| && IsId(nodes[j]) && nodes[j].head.s == s
    ensures Distinct(NotedAll(nodes, NOTHING).ids)
  {
    NotedHolds(nodes);
    assert s in NotedAll(nodes, NOTHING).ids <==> s in Elements(NotedAll(nodes, NOTHING).ids);
    assert s in IdsIn(nodes) <==> exists j :: 0 <= j < |nodes| && IsId(nodes[j]) && nodes[j].head.s == s;
  }

  /** A key has the place after all that was noted before it first appeared. */
  lemma NumberPlace(nodes: seq<Node>, n: Number)
    ensures var before, now := NotedAll(nodes[..FirstNumber(nodes, n)], NOTHING).numbers, NotedAll(nodes, NOTHING).numbers;
            before <= now && IndexOf(now, n) == |before|
  {
    var f := FirstNumber(nodes, n);
    NotedNumber(nodes[..f], n);
    NotedNumber(nodes, n);
    NotedBetween(nodes, f);
    assert f == |nodes| ==> nodes[..f] == nodes;
    IndexAfter(NotedAll(nodes[..f], NOTHING).numbers, NotedAll(nodes, NOTHING).numbers, n);
  }

  lemma IdPlace(nodes: seq<Node>, s: string)
    ensures IndexOf(NotedAll(nodes, NOTHING).ids, s) == |NotedAll(nodes[..FirstId(nodes, s)], NOTHING).ids|
  {
    var f := FirstId(nodes, s);
    NotedId(nodes[..f], s);
    NotedId(nodes, s);
    NotedBetween(nodes, f);
    assert f == |nodes| ==> nodes[..f] == nodes;
    IndexAfter(NotedAll(nodes[..f], NOTHING).ids, NotedAll(nodes, NOTHING).ids, s);
  }

  lemma CountedIn(nodes: seq<Node>, c: NumberClass)
    ensures CountClass(NotedAll(nodes, NOTHING).numbers, c) == |NumbersIn(nodes, c)|
  {
    NotedHolds(nodes);
    CountIsCardinality(NotedAll(nodes, NOTHING).numbers, c);
    assert OfClass(Elements(NotedAll(nodes, NOTHING).numbers), c) == NumbersIn(nodes, c);
  }

  lemma NumberWritten(nodes: seq<Node>, n: Number)
    ensures NumberName(NotedAll(nodes, NOTHING).numbers, n) ==
            NumberText(Class(n).sign, Class(n).integer, 1 + |NumbersIn(nodes[..FirstNumber(nodes, n)], Class(n))|)
  {
    NumberPlace(nodes, n);
    CountedIn(nodes[..FirstNumber(nodes, n)], Class(n));
    NameAfter(NotedAll(nodes[..FirstNumber(nodes, n)], NOTHING).numbers, NotedAll(nodes, NOTHING).numbers, n);
  }

  lemma NameAfter(before: seq<Number>, now: seq<Number>, n: Number)
    requires before <= now && IndexOf(now, n) == |before|
    ensures NumberName(now, n) == NumberText(Class(n).sign, Class(n).integer, 1 + CountClass(before, Class(n)))
  {
    assert now[..|before|] == before;
  }

  lemma IdWritten(nodes: seq<Node>, s: string)
    ensures IdName(IndexOf(NotedAll(nodes, NOTHING).ids, s)) == "id-" + Decimal(1 + |IdsIn(nodes[..FirstId(nodes, s)])|)
  {
    var f := FirstId(nodes, s);
    IdPlace(nodes, s);
    NotedHolds(nodes[..f]);
    DistinctSize(NotedAll(nodes[..f], NOTHING).ids, IdsIn(nodes[..f]));
  }

  lemma NodeWritten(before: seq<Node>, node: Node)
    ensures WrittenAs(before, node, Renamed(node, NotedAll(before, NOTHING)).head)
  {
    match node.head
    case NumHead(n) => NumberWritten(before, n);
    case StrHead(s) => IdWritten(before, s);
    case _ =>
  }

  // ---------- main results ----------

  /** The nodes of `result` are those of `source`, in order, each written as it is and what comes
      before it say; `earlier` comes before all of them. */
  predicate Writes(earlier: seq<Node>, source: seq<Node>, result: seq<Node>) {
    |result| == |source| &&
    forall i :: 0 <= i < |source| ==>
      result[i].chain == source[i].chain && result[i].key == source[i].key &&
      WrittenAs(earlier + source[..i], source[i], result[i].head)
  }

  /** Of a value in a stream: its surviving nodes are written, and nothing else is, numbers and
      identifiers counted over the nodes that were written before. */
  lemma SurvivorsWritten(v: Json, earlier: seq<Node>)
    ensures var r := Relabel(Project(v, Root), "", NotedAll(earlier, NOTHING));
            Writes(earlier, Surviving(Nodes(v, [], "")), Nodes(r.value, [], "")) &&
            r.seen == NotedAll(earlier + Surviving(Nodes(v, [], "")), NOTHING)
  {
    var seen, source := NotedAll(earlier, NOTHING), Surviving(Nodes(v, [], ""));
    ProjectSurvives(v, [], "");
    RelabelRenames(Project(v, Root), [], "", seen);
    NotedJoin(earlier, source, NOTHING);
    WritesInTurn(earlier, source);
  }

  lemma WritesInTurn(earlier: seq<Node>, source: seq<Node>)
    ensures Writes(earlier, source, RenamedAll(source, NotedAll(earlier, NOTHING)))
  {
    forall i | 0 <= i < |source|
      ensures var node := RenamedAll(source, NotedAll(earlier, NOTHING))[i];
              node.chain == source[i].chain && node.key == source[i].key && WrittenAs(earlier + source[..i], source[i], node.head)
    {
      RenamedAt(source, NotedAll(earlier, NOTHING), i);
      NotedJoin(earlier, source[..i], NOTHING);
      NodeWritten(earlier + source[..i], source[i]);
    }
  }

  /** Of a body: exactly the nodes with a surviving chain are written, in order, numbers and
      identifiers by their place in the body. */
  lemma BodyWritten(v: Json)
    ensures Writes([], Surviving(Nodes(v, [], "")), Nodes(Relabel(Project(v, Root), "", NOTHING).value, [], ""))
  {
    SurvivorsWritten(v, []);
  }

  // ---------- what is refused ----------

  /** A number that JSON cannot hold, as Python's reader accepts it. */
  predicate NotFinite(node: Node) {
    node.head.NumHead? && node.head.n.Float? && (node.head.n.repr == "nan" || node.head.n.repr == "inf" || node.head.n.repr == "-inf")
  }

  predicate AnyNotFinite(nodes: seq<Node>) {
    exists i :: 0 <= i < |nodes| && NotFinite(nodes[i])
  }

  lemma AnyJoin(a: seq<Node>, b: seq<Node>)
    ensures AnyNotFinite(a + b) <==> AnyNotFinite(a) || AnyNotFinite(b)
  {
    if i :| 0 <= i < |a| && NotFinite(a[i]) { assert NotFinite((a + b)[i]); }
    if i :| 0 <= i < |b| && NotFinite(b[i]) { assert NotFinite((a + b)[|a| + i]); }
  }

  lemma {:induction false} FiniteNodes(v: Json, chain: seq<string>, key: string)
    ensures AllFinite(v) <==> !AnyNotFinite(Nodes(v, chain, key))
    decreases v, 1
  {
    var head := [Node(chain, key, HeadOf(v))];
    AnyJoin(head, Below(v, chain));
    assert AnyNotFinite(head) <==> NotFinite(head[0]);
    match v
    case Arr(items) => FiniteItems(items, chain);
    case Obj(pairs) => FinitePairs(pairs, chain);
    case _ =>
  }

  lemma {:induction false} FiniteItems(items: seq<Json>, chain: seq<string>)
    ensures (forall i :: 0 <= i < |items| ==> AllFinite(items[i])) <==> !AnyNotFinite(ItemNodes(items, chain))
    decreases items, 0
  {
    if items != [] {
      var init, last := items[..|items| - 1], items[|items| - 1];
      FiniteItems(init, chain);
      FiniteNodes(last, chain, "");
      AnyJoin(ItemNodes(init, chain), Nodes(last, chain, ""));
      assert forall i :: 0 <= i < |init| ==> init[i] == items[i];
    }
  }

  lemma {:induction false} FinitePairs(pairs: seq<Member>, chain: seq<string>)
    ensures (forall i :: 0 <= i < |pairs| ==> AllFinite(pairs[i].value)) <==> !AnyNotFinite(PairNodes(pairs, chain))
    decreases pairs, 0
  {
    if pairs != [] {
      var init, last := pairs[..|pairs| - 1], pairs[|pairs| - 1];
      FinitePairs(init, chain);
      FiniteNodes(last.value, chain + [last.name], last.name);
      AnyJoin(PairNodes(init, chain), Nodes(last.value, chain + [last.name], last.name));
      assert forall i :: 0 <= i < |init| ==> init[i] == pairs[i];
    }
  }

  /** A body is refused exactly when a number that survives is not finite. */
  lemma RefusedIff(v: Json)
    ensures !AllFinite(Project(v, Root)) <==> AnyNotFinite(Surviving(Nodes(v, [], "")))
  {
    ProjectSurvives(v, [], "");
    FiniteNodes(Project(v, Root), [], "");
  }
}
