/** The prerequisite graph of the interaction rows (scripts/render_check.js): the checks that each
    row's prerequisites come before it, the depth-first search for cycles, and the list of
    actions to perform before a row. */
module Prerequisites {
  import opened Collections

  datatype Row = Row(id: string, needs: seq<string>)

  /** `byId`: of rows that share an id, the last one counts. */
  function ById(rows: seq<Row>): (graph: map<string, seq<string>>)
    ensures forall id :: id in graph <==> exists i :: 0 <= i < |rows| && rows[i].id == id
  {
    if rows == [] then map[]
    else
      var n := |rows| - 1;
      assert rows == rows[..n] + [rows[n]];
      ById(rows[..n])[rows[n].id := rows[n].needs]
  }

  function Needs(graph: map<string, seq<string>>, id: string): seq<string> {
    if id in graph then graph[id] else []
  }

  // ---------- paths ----------

  predicate Path(graph: map<string, seq<string>>, w: seq<string>) {
    forall i :: 0 <= i < |w| - 1 ==> w[i + 1] in Needs(graph, w[i])
  }

  predicate Cycle(graph: map<string, seq<string>>, w: seq<string>) {
    |w| >= 2 && w[0] == w[|w| - 1] && Path(graph, w)
  }

  ghost predicate OnCycle(graph: map<string, seq<string>>, id: string) {
    exists w :: Cycle(graph, w) && w[0] == id
  }

  ghost predicate Cyclic(graph: map<string, seq<string>>) {
    exists w :: Cycle(graph, w)
  }

  predicate Leads(graph: map<string, seq<string>>, a: string, w: seq<string>, b: string) {
    w != [] && w[0] == a && w[|w| - 1] == b && Path(graph, w)
  }

  /** `b` is `a` or one of its transitive prerequisites. */
  ghost predicate Reaches(graph: map<string, seq<string>>, a: string, b: string) {
    exists w :: Leads(graph, a, w, b)
  }

  /** Everything an element requires comes before it. */
  predicate Topological(graph: map<string, seq<string>>, order: seq<string>) {
    forall i :: 0 <= i < |order| ==> Before(graph, order, i)
  }

  predicate Before(graph: map<string, seq<string>>, order: seq<string>, i: nat)
    requires i < |order|
  {
    forall d :: d in Needs(graph, order[i]) ==> d in order[..i]
  }

  lemma TopologicalSnoc(graph: map<string, seq<string>>, order: seq<string>, id: string)
    requires Topological(graph, order) && forall d :: d in Needs(graph, id) ==> d in order
    ensures Topological(graph, order + [id])
  {
    var longer := order + [id];
    forall i | 0 <= i < |longer| ensures Before(graph, longer, i) {
      assert longer[..i] == order[..i];
      assert i < |order| ==> Before(graph, order, i);
      assert order[..|order|] == order;
    }
  }

  /** Following requirements from an element of such an order only moves towards its start. */
  lemma {:induction false} PathDescends(graph: map<string, seq<string>>, order: seq<string>, k: nat, w: seq<string>)
    requires Topological(graph, order) && k < |order|
    requires Path(graph, w) && |w| >= 2 && w[0] == order[k]
    ensures w[|w| - 1] in order[..k]
    decreases |w|
  {
    assert Before(graph, order, k);
    assert w[1] in Needs(graph, w[0]);
    var j :| 0 <= j < k && order[j] == w[1];
    if |w| > 2 {
      PathTail(graph, w);
      PathDescends(graph, order, j, w[1..]);
    }
  }

  lemma PathTail(graph: map<string, seq<string>>, w: seq<string>)
    requires Path(graph, w) && w != []
    ensures Path(graph, w[1..])
  {
    forall i | 0 <= i < |w[1..]| - 1 ensures w[1..][i + 1] in Needs(graph, w[1..][i]) {
      assert w[i + 2] in Needs(graph, w[i + 1]);
    }
  }

  lemma NoCycleInOrder(graph: map<string, seq<string>>, order: seq<string>, w: seq<string>)
    requires Topological(graph, order) && Distinct(order) && w != [] && w[0] in order
    ensures !Cycle(graph, w)
  {
    if Cycle(graph, w) {
      var k :| 0 <= k < |order| && order[k] == w[0];
      PathDescends(graph, order, k, w);
    }
  }

  lemma ClosesCycle(graph: map<string, seq<string>>, path: seq<string>, id: string)
    requires Path(graph, path + [id]) && id in path
    ensures OnCycle(graph, id)
  {
    var k :| 0 <= k < |path| && path[k] == id;
    var all := path + [id];
    var w := all[k..];
    forall i | 0 <= i < |w| - 1 ensures w[i + 1] in Needs(graph, w[i]) {
      assert all[k + i + 1] in Needs(graph, all[k + i]);
    }
    assert Cycle(graph, w);
  }

  /** The calls still open, from the outermost, lead to `id`. */
  predicate Led(graph: map<string, seq<string>>, path: seq<string>, id: string) {
    Path(graph, path + [id])
  }

  lemma PathSnoc(graph: map<string, seq<string>>, path: seq<string>, id: string, d: string)
    requires Led(graph, path, id) && d in Needs(graph, id)
    ensures Led(graph, path + [id], d)
  {
    var w, v := path + [id] + [d], path + [id];
    forall i | 0 <= i < |w| - 1 ensures w[i + 1] in Needs(graph, w[i]) {
      assert i < |path| ==> v[i + 1] in Needs(graph, v[i]);
    }
  }

  // ---------- the search ----------

  ghost predicate Closed(graph: map<string, seq<string>>, nodes: set<string>) {
    forall x, d :: x in nodes && d in Needs(graph, x) ==> d in nodes
  }

  /** Everything a ranked id requires has a lower rank. */
  ghost predicate Ranked(graph: map<string, seq<string>>, rank: map<string, nat>) {
    forall x, d :: x in rank && d in Needs(graph, x) ==> d in rank && rank[d] < rank[x]
  }

  lemma {:induction false} PathDescendsRank(graph: map<string, seq<string>>, rank: map<string, nat>, w: seq<string>)
    requires Ranked(graph, rank) && Path(graph, w) && |w| >= 2 && w[0] in rank
    ensures w[|w| - 1] in rank && rank[w[|w| - 1]] < rank[w[0]]
    decreases |w|
  {
    assert w[1] in Needs(graph, w[0]);
    if |w| > 2 {
      PathTail(graph, w);
      PathDescendsRank(graph, rank, w[1..]);
    }
  }

  /** Finished ids are ranked by when they finished, above what they require as long as no problem
      was found; every reported id is on a cycle. */
  ghost predicate Sane(graph: map<string, seq<string>>, visiting: set<string>, visited: set<string>,
                       problems: seq<string>, rank: map<string, nat>, clock: nat) {
    rank.Keys == visited && visiting !! visited && (forall x :: x in rank ==> rank[x] < clock) &&
    (problems == [] ==> Ranked(graph, rank)) &&
    forall i :: 0 <= i < |problems| ==> OnCycle(graph, problems[i])
  }

  lemma SaneReport(graph: map<string, seq<string>>, visiting: set<string>, visited: set<string>,
                   problems: seq<string>, rank: map<string, nat>, clock: nat, path: seq<string>, id: string)
    requires Sane(graph, visiting, visited, problems, rank, clock) && Led(graph, path, id) && id in path
    ensures Sane(graph, visiting, visited, problems + [id], rank, clock)
  {
    ClosesCycle(graph, path, id);
  }

  lemma SaneFinish(graph: map<string, seq<string>>, visiting: set<string>, visited: set<string>,
                   problems: seq<string>, rank: map<string, nat>, clock: nat, id: string)
    requires Sane(graph, visiting, visited, problems, rank, clock) && id in visiting
    requires problems == [] ==> forall d :: d in Needs(graph, id) ==> d in visited
    ensures Sane(graph, visiting - {id}, visited + {id}, problems, rank[id := clock], clock + 1)
  {
    assert rank[id := clock].Keys == rank.Keys + {id};
  }

  class Search {
    const graph: map<string, seq<string>>
    var visiting: set<string>
    var visited: set<string>
    var problems: seq<string>
    ghost var rank: map<string, nat>
    ghost var clock: nat

    constructor (graph: map<string, seq<string>>)
      ensures Valid() && this.graph == graph && visiting == {} && problems == []
    {
      this.graph := graph;
      visiting, visited, problems, rank, clock := {}, {}, [], map[], 0;
    }

    ghost predicate Valid()
      reads this
    {
      Sane(graph, visiting, visited, problems, rank, clock)
    }

    /** The id is on the path already: a cycle. */
    method Report(id: string, ghost path: seq<string>)
      requires Valid() && Led(graph, path, id) && id in path
      modifies `problems
      ensures Valid() && problems == old(problems) + [id]
    {
      SaneReport(graph, visiting, visited, problems, rank, clock, path, id);
      problems := problems + [id];
    }

    method Enter(id: string)
      requires Valid() && id !in visited
      modifies `visiting
      ensures Valid() && visiting == old(visiting) + {id}
    {
      visiting := visiting + {id};
    }

    method Finish(id: string)
      requires Valid() && id in visiting
      requires problems == [] ==> forall d :: d in Needs(graph, id) ==> d in visited
      modifies `visiting, `visited, `rank, `clock
      ensures Valid() && visiting == old(visiting) - {id} && visited == old(visited) + {id}
    {
      SaneFinish(graph, visiting, visited, problems, rank, clock, id);
      visiting := visiting - {id};
      visited := visited + {id};
      rank, clock := rank[id := clock], clock + 1;
    }

    /** `path` leads from the outer call to this one; `nodes` bounds the search. */
    method Visit(id: string, ghost path: seq<string>, ghost nodes: set<string>)
      requires Valid() && id in nodes && Closed(graph, nodes)
      requires Led(graph, path, id) && visiting == Elements(path)
      modifies this
      ensures Valid() && visiting == old(visiting)
      ensures old(visited) <= visited
      ensures problems == [] ==> old(problems) == [] && id in visited
      decreases nodes - visiting, 0
    {
      if id in visiting {
        Report(id, path);
        return;
      }
      if id in visited {
        return;
      }
      Enter(id);
      ElementsSnoc(path, id);
      VisitNeeds(id, path, nodes);
      Finish(id);
    }

    /** The loop over what the id requires. */
    method VisitNeeds(id: string, ghost path: seq<string>, ghost nodes: set<string>)
      requires Valid() && id in nodes && Closed(graph, nodes)
      requires Led(graph, path, id) && visiting == Elements(path + [id])
      modifies this
      ensures Valid() && visiting == old(visiting)
      ensures old(visited) <= visited
      ensures problems == [] ==> old(problems) == [] && forall d :: d in Needs(graph, id) ==> d in visited
      decreases nodes - visiting, 1
    {
      var deps := if id in graph then graph[id] else [];
      for i := 0 to |deps|
        invariant Valid() && visiting == old(visiting)
        invariant old(visited) <= visited
        invariant problems == [] ==> old(problems) == [] && forall k :: 0 <= k < i ==> deps[k] in visited
      {
        PathSnoc(graph, path, id, deps[i]);
        Visit(deps[i], path + [id], nodes);
      }
    }

    method VisitRows(rows: seq<Row>, ghost nodes: set<string>)
      requires Valid() && visiting == {} && Closed(graph, nodes)
      requires forall i :: 0 <= i < |rows| ==> rows[i].id in nodes
      modifies this
      ensures Valid()
      ensures problems == [] ==> forall i :: 0 <= i < |rows| ==> rows[i].id in visited
    {
      for i := 0 to |rows|
        invariant Valid() && visiting == {}
        invariant problems == [] ==> forall k :: 0 <= k < i ==> rows[k].id in visited
      {
        LedStart(graph, rows[i].id);
        Visit(rows[i].id, [], nodes);
      }
    }
  }

  lemma LedStart(graph: map<string, seq<string>>, id: string)
    ensures Led(graph, [], id) && Elements([]) == {}
  {
  }

  lemma ElementsSnoc(path: seq<string>, id: string)
    ensures Elements(path + [id]) == Elements(path) + {id}
  {
  }

  function Elements(s: seq<string>): set<string> {
    set x | x in s
  }

  function NodesOf(rows: seq<Row>): set<string> {
    if rows == [] then {}
    else
      var last := rows[|rows| - 1];
      NodesOf(rows[..|rows| - 1]) + {last.id} + Elements(last.needs)
  }

  lemma {:induction false} NeedsAreNodes(rows: seq<Row>, id: string, d: string)
    requires d in Needs(ById(rows), id)
    ensures d in NodesOf(rows)
  {
    if rows != [] {
      var front, last := rows[..|rows| - 1], rows[|rows| - 1];
      if id == last.id {
        assert d in Elements(last.needs);
      } else {
        NeedsAreNodes(front, id, d);
      }
    }
  }

  lemma {:induction false} RowsAreNodes(rows: seq<Row>)
    ensures forall i :: 0 <= i < |rows| ==> rows[i].id in NodesOf(rows)
  {
    if rows != [] {
      RowsAreNodes(rows[..|rows| - 1]);
    }
  }

  lemma NodesClosed(rows: seq<Row>)
    ensures Closed(ById(rows), NodesOf(rows))
  {
    forall id, d | d in Needs(ById(rows), id) ensures d in NodesOf(rows) {
      NeedsAreNodes(rows, id, d);
    }
  }

  /** The search reports something exactly when the graph has a cycle, and only ids on a cycle. */
  method Cycles(rows: seq<Row>) returns (problems: seq<string>)
    ensures problems != [] <==> Cyclic(ById(rows))
    ensures forall i :: 0 <= i < |problems| ==> OnCycle(ById(rows), problems[i])
  {
    var search := new Search(ById(rows));
    NodesClosed(rows);
    RowsAreNodes(rows);
    search.VisitRows(rows, NodesOf(rows));
    problems := search.problems;
    if problems == [] {
      RankedIsAcyclic(ById(rows), search.rank);
    } else {
      assert OnCycle(ById(rows), problems[0]);
    }
  }

  lemma RankedIsAcyclic(graph: map<string, seq<string>>, rank: map<string, nat>)
    requires Ranked(graph, rank) && forall id :: id in graph ==> id in rank
    ensures !Cyclic(graph)
  {
    forall w ensures !Cycle(graph, w) {
      if Cycle(graph, w) {
        assert w[1] in Needs(graph, w[0]);
        PathDescendsRank(graph, rank, w);
      }
    }
  }

  // ---------- every prerequisite precedes its row ----------

  datatype Problem = NotUnique(id: string) | Invalid(id: string, dependency: string) | Late(id: string, dependency: string)

  /** `rowIndexes`: of rows that share an id, the last index counts. */
  function IndexOf(rows: seq<Row>, id: string): (i: int)
    ensures i == -1 || (0 <= i < |rows| && rows[i].id == id)
    ensures forall j :: i < j < |rows| ==> rows[j].id != id
  {
    if rows == [] then -1
    else if rows[|rows| - 1].id == id then |rows| - 1
    else IndexOf(rows[..|rows| - 1], id)
  }

  predicate Wrong(rows: seq<Row>, row: Row, dependency: string) {
    IndexOf(rows, dependency) == -1 || dependency == row.id || IndexOf(rows, dependency) >= IndexOf(rows, row.id)
  }

  predicate RowFine(rows: seq<Row>, row: Row) {
    Distinct(row.needs) && forall d :: d in row.needs ==> !Wrong(rows, row, d)
  }

  /** The report on one row: prerequisites named twice, and then nothing else; otherwise each one
      that is no row or the row itself is invalid, and each other one that does not come before the
      row is late. Of rows that share an id, the last one counts. */
  ghost predicate Reported(rows: seq<Row>, row: Row, p: Problem) {
    var unique := forall i, j :: 0 <= i < j < |row.needs| ==> row.needs[i] != row.needs[j];
    match p
    case NotUnique(id) => id == row.id && !unique
    case Invalid(id, d) =>
      id == row.id && unique && d in row.needs && (d == row.id || forall i :: 0 <= i < |rows| ==> rows[i].id != d)
    case Late(id, d) =>
      id == row.id && unique && d in row.needs && d != row.id && (exists i :: 0 <= i < |rows| && rows[i].id == d) &&
      !exists i :: 0 <= i < |rows| && Precedes(rows, i, d, row.id)
  }

  /** The row at `i` is the last one called `d`, and one called `id` comes after it. */
  predicate Precedes(rows: seq<Row>, i: nat, d: string, id: string)
    requires i < |rows|
  {
    rows[i].id == d && (forall j :: i < j < |rows| ==> rows[j].id != d) && exists j :: i < j < |rows| && rows[j].id == id
  }

  lemma LateIs(rows: seq<Row>, d: string, id: string)
    requires exists i :: 0 <= i < |rows| && rows[i].id == d
    ensures IndexOf(rows, d) >= 0
    ensures IndexOf(rows, d) < IndexOf(rows, id) <==> exists i :: 0 <= i < |rows| && Precedes(rows, i, d, id)
  {
    var k, m := IndexOf(rows, d), IndexOf(rows, id);
    if k < m {
      assert Precedes(rows, k, d, id);
    }
    if i :| 0 <= i < |rows| && Precedes(rows, i, d, id) {
      assert i == k;
    }
  }

  /** What is wrong with one prerequisite. */
  lemma DependencyReported(rows: seq<Row>, row: Row, d: string)
    requires Distinct(row.needs) && d in row.needs
    ensures Reported(rows, row, Invalid(row.id, d)) <==> d !in ById(rows) || d == row.id
    ensures Reported(rows, row, Late(row.id, d)) <==>
            d in ById(rows) && d != row.id && IndexOf(rows, d) >= IndexOf(rows, row.id)
  {
    if d in ById(rows) {
      LateIs(rows, d, row.id);
    }
  }

  method RowProblems(rows: seq<Row>, row: Row) returns (problems: seq<Problem>)
    ensures forall p :: p in problems <==> Reported(rows, row, p)
  {
    problems := [];
    if !Distinct(row.needs) {
      return [NotUnique(row.id)];
    }
    for i := 0 to |row.needs|
      invariant forall p :: p in problems <==> OneOf(row.needs[..i], p) && Reported(rows, row, p)
    {
      var dependency := row.needs[i];
      ghost var before := problems;
      DependencyReported(rows, row, dependency);
      if dependency !in ById(rows) || dependency == row.id {
        problems := problems + [Invalid(row.id, dependency)];
      } else if IndexOf(rows, dependency) >= IndexOf(rows, row.id) {
        problems := problems + [Late(row.id, dependency)];
      }
      OneMore(rows, row, i, before, problems);
    }
    assert row.needs[..|row.needs|] == row.needs;
  }

  predicate OneOf(needs: seq<string>, p: Problem) {
    (p.Invalid? || p.Late?) && p.dependency in needs
  }

  lemma OneMore(rows: seq<Row>, row: Row, i: nat, before: seq<Problem>, after: seq<Problem>)
    requires i < |row.needs| && Distinct(row.needs)
    requires forall p :: p in before <==> OneOf(row.needs[..i], p) && Reported(rows, row, p)
    requires var d := row.needs[i];
             after == if Reported(rows, row, Invalid(row.id, d)) then before + [Invalid(row.id, d)]
                      else if Reported(rows, row, Late(row.id, d)) then before + [Late(row.id, d)] else before
    ensures forall p :: p in after <==> OneOf(row.needs[..i + 1], p) && Reported(rows, row, p)
  {
    assert row.needs[..i + 1] == row.needs[..i] + [row.needs[i]];
  }

  /** A row is fine when nothing is reported of it. */
  lemma FineIff(rows: seq<Row>, row: Row)
    requires row in rows
    ensures RowFine(rows, row) <==> forall p :: !Reported(rows, row, p)
  {
    if !Distinct(row.needs) {
      assert Reported(rows, row, NotUnique(row.id));
    } else {
      forall d | d in row.needs
        ensures Wrong(rows, row, d) <==> Reported(rows, row, Invalid(row.id, d)) || Reported(rows, row, Late(row.id, d)) {
        DependencyReported(rows, row, d);
        IndexKnown(rows, d);
      }
    }
  }

  lemma {:induction false} IndexKnown(rows: seq<Row>, d: string)
    ensures d in ById(rows) <==> IndexOf(rows, d) != -1
  {
    if d in ById(rows) {
      var i :| 0 <= i < |rows| && rows[i].id == d;
    }
  }

  /** The prerequisite checks of `fixtureRecipeProblems`, row by row and then over the graph. */
  method RecipeProblems(rows: seq<Row>) returns (problems: seq<Problem>, cyclic: seq<string>)
    ensures forall p :: p in problems <==> exists i :: 0 <= i < |rows| && Reported(rows, rows[i], p)
    ensures problems == [] <==> forall i :: 0 <= i < |rows| ==> RowFine(rows, rows[i])
    ensures cyclic != [] <==> Cyclic(ById(rows))
  {
    problems := [];
    for i := 0 to |rows|
      invariant forall p :: p in problems <==> exists k :: 0 <= k < i && Reported(rows, rows[k], p)
    {
      var more := RowProblems(rows, rows[i]);
      problems := problems + more;
    }
    AllFine(rows, problems);
    cyclic := Cycles(rows);
  }

  lemma AllFine(rows: seq<Row>, problems: seq<Problem>)
    requires forall p :: p in problems <==> exists i :: 0 <= i < |rows| && Reported(rows, rows[i], p)
    ensures problems == [] <==> forall i :: 0 <= i < |rows| ==> RowFine(rows, rows[i])
  {
    forall i | 0 <= i < |rows| ensures RowFine(rows, rows[i]) <==> forall p :: p in problems ==> !Reported(rows, rows[i], p) {
      assert rows[i] in rows;
      FineIff(rows, rows[i]);
    }
    if problems != [] {
      assert problems[0] in problems;
      var i :| 0 <= i < |rows| && Reported(rows, rows[i], problems[0]);
    }
  }

  function Ids(rows: seq<Row>): (ids: seq<string>)
    ensures |ids| == |rows| && forall i :: 0 <= i < |rows| ==> ids[i] == rows[i].id
  {
    seq(|rows|, i requires 0 <= i < |rows| => rows[i].id)
  }

  /** The inventory: ids are unique, and every prerequisite is an earlier row. */
  ghost predicate Ordered(rows: seq<Row>) {
    Distinct(Ids(rows)) && forall i, d :: 0 <= i < |rows| && d in rows[i].needs ==> d in Ids(rows)[..i]
  }

  lemma IndexIs(rows: seq<Row>, i: nat)
    requires i < |rows| && Distinct(Ids(rows))
    ensures IndexOf(rows, rows[i].id) == i
  {
    var j := IndexOf(rows, rows[i].id);
    assert Ids(rows)[i] == rows[i].id && (j != -1 ==> Ids(rows)[j] == rows[i].id);
  }

  /** With unique ids, the row checks pass exactly when no row names a prerequisite twice and every
      prerequisite is an earlier row. */
  lemma RowsFineIff(rows: seq<Row>)
    requires Distinct(Ids(rows))
    ensures (forall i :: 0 <= i < |rows| ==> RowFine(rows, rows[i]))
            <==> Ordered(rows) && forall i :: 0 <= i < |rows| ==> Distinct(rows[i].needs)
  {
    forall i, d | 0 <= i < |rows| && d in rows[i].needs
      ensures !Wrong(rows, rows[i], d) <==> d in Ids(rows)[..i]
    {
      IndexIs(rows, i);
      var j := IndexOf(rows, d);
      assert j != -1 ==> Ids(rows)[j] == d;
      if d in Ids(rows)[..i] {
        var k :| 0 <= k < i && Ids(rows)[k] == d;
        IndexIs(rows, k);
      }
    }
  }

  lemma {:induction false} GraphOfDistinct(rows: seq<Row>, i: nat)
    requires i < |rows| && Distinct(Ids(rows))
    ensures rows[i].id in ById(rows) && ById(rows)[rows[i].id] == rows[i].needs
  {
    var front := rows[..|rows| - 1];
    if i < |rows| - 1 {
      assert forall j :: 0 <= j < |front| ==> Ids(front)[j] == Ids(rows)[j];
      GraphOfDistinct(front, i);
      assert Ids(rows)[i] != Ids(rows)[|rows| - 1];
    }
  }

  /** Rows in such an order have no prerequisite cycle. */
  lemma OrderedIsAcyclic(rows: seq<Row>)
    requires Ordered(rows)
    ensures !Cyclic(ById(rows))
  {
    var graph, ids := ById(rows), Ids(rows);
    forall i | 0 <= i < |ids| ensures Before(graph, ids, i) {
      GraphOfDistinct(rows, i);
    }
    forall w ensures !Cycle(graph, w) {
      if Cycle(graph, w) {
        assert w[1] in Needs(graph, w[0]);
        var i :| 0 <= i < |rows| && rows[i].id == w[0];
        assert ids[i] == w[0];
        NoCycleInOrder(graph, ids, w);
      }
    }
  }

  // ---------- addDependency ----------

  lemma ReachesSelf(graph: map<string, seq<string>>, a: string)
    ensures Reaches(graph, a, a)
  {
    assert Leads(graph, a, [a], a);
  }

  lemma ReachesVia(graph: map<string, seq<string>>, a: string, d: string, x: string)
    requires d in Needs(graph, a) && Reaches(graph, d, x)
    ensures Reaches(graph, a, x)
  {
    var w :| Leads(graph, d, w, x);
    var v := [a] + w;
    forall i | 0 <= i < |v| - 1 ensures v[i + 1] in Needs(graph, v[i]) {
      assert i > 0 ==> w[i] in Needs(graph, w[i - 1]);
    }
    assert Leads(graph, a, v, x);
  }

  lemma ReachesFirst(graph: map<string, seq<string>>, a: string, x: string) returns (d: string)
    requires Reaches(graph, a, x) && a != x
    ensures d in Needs(graph, a) && Reaches(graph, d, x)
  {
    var w :| Leads(graph, a, w, x);
    assert |w| >= 2 && w[1] in Needs(graph, w[0]);
    PathTail(graph, w);
    d := w[1];
    assert Leads(graph, d, w[1..], x);
  }

  lemma EarlierRow(rows: seq<Row>, i: nat, d: string)
    requires Ordered(rows) && i < |rows| && d in rows[i].needs
    ensures d in Ids(rows) && IndexOf(rows, d) < IndexOf(rows, rows[i].id) == i
  {
    assert d in Ids(rows)[..i];
    var j :| 0 <= j < i && Ids(rows)[j] == d;
    IndexIs(rows, j);
    IndexIs(rows, i);
  }

  /** `after` holds what `before` held and what the first `n` needs reach. */
  ghost predicate Gained(graph: map<string, seq<string>>, before: seq<string>, after: seq<string>, needs: seq<string>, n: nat)
    requires n <= |needs|
  {
    forall x :: x in after <==> x in before || ReachedBy(graph, needs[..n], x)
  }

  ghost predicate ReachedBy(graph: map<string, seq<string>>, needs: seq<string>, x: string) {
    exists k :: 0 <= k < |needs| && Reaches(graph, needs[k], x)
  }

  lemma GainNext(graph: map<string, seq<string>>, before: seq<string>, mid: seq<string>, after: seq<string>,
                 needs: seq<string>, n: nat)
    requires n < |needs| && Gained(graph, before, mid, needs, n)
    requires forall x :: x in after <==> x in mid || Reaches(graph, needs[n], x)
    ensures Gained(graph, before, after, needs, n + 1)
  {
    forall x ensures x in after <==> x in before || ReachedBy(graph, needs[..n + 1], x) {
      if x in mid && x !in before {
        var k :| 0 <= k < n && Reaches(graph, needs[..n][k], x);
        assert needs[..n + 1][k] == needs[k];
      }
      if Reaches(graph, needs[n], x) {
        assert needs[..n + 1][n] == needs[n];
      }
      if ReachedBy(graph, needs[..n + 1], x) {
        var k :| 0 <= k < n + 1 && Reaches(graph, needs[..n + 1][k], x);
        assert k < n ==> needs[..n][k] == needs[k];
      }
    }
  }

  lemma ReachesIff(graph: map<string, seq<string>>, id: string, x: string)
    ensures Reaches(graph, id, x) <==> x == id || ReachedBy(graph, Needs(graph, id), x)
  {
    ReachesSelf(graph, id);
    if Reaches(graph, id, x) && x != id {
      var d := ReachesFirst(graph, id, x);
    }
    if ReachedBy(graph, Needs(graph, id), x) {
      var k :| 0 <= k < |Needs(graph, id)| && Reaches(graph, Needs(graph, id)[k], x);
      ReachesVia(graph, id, Needs(graph, id)[k], x);
    }
  }

  /** Once everything `id` needs is there, only `id` itself can be missing. */
  lemma GainSelf(graph: map<string, seq<string>>, before: seq<string>, mid: seq<string>, after: seq<string>, id: string)
    requires var needs := Needs(graph, id); Gained(graph, before, mid, needs, |needs|)
    requires forall x :: x in after <==> x in mid || x == id
    ensures forall x :: x in after <==> x in before || Reaches(graph, id, x)
  {
    var needs := Needs(graph, id);
    assert needs[..|needs|] == needs;
    forall x ensures x in after <==> x in before || Reaches(graph, id, x) {
      ReachesIff(graph, id, x);
    }
  }

  lemma GainsNeeds(graph: map<string, seq<string>>, before: seq<string>, mid: seq<string>, id: string)
    requires var needs := Needs(graph, id); Gained(graph, before, mid, needs, |needs|)
    ensures forall d :: d in Needs(graph, id) ==> d in mid
  {
    var needs := Needs(graph, id);
    assert needs[..|needs|] == needs;
    forall d | d in needs ensures d in mid {
      ReachesSelf(graph, d);
      assert ReachedBy(graph, needs, d);
    }
  }

  class Planner {
    const rows: seq<Row>
    var dependencies: seq<Row>

    constructor (rows: seq<Row>)
      requires Ordered(rows)
      ensures Valid() && this.rows == rows && dependencies == []
    {
      this.rows := rows;
      dependencies := [];
    }

    /** Rows of the inventory, each once, each after everything it requires. */
    ghost predicate Valid()
      reads this
    {
      Ordered(rows) && Distinct(Ids(dependencies)) && Topological(ById(rows), Ids(dependencies)) &&
      forall k :: 0 <= k < |dependencies| ==> dependencies[k] in rows
    }

    /** `find` */
    method FindRow(id: string) returns (i: nat)
      requires id in Ids(rows)
      ensures i < |rows| && rows[i].id == id
    {
      i := 0;
      while rows[i].id != id
        invariant i < |rows| && id in Ids(rows)[i..]
        decreases |rows| - i
      {
        assert Ids(rows)[i..][1..] == Ids(rows)[i + 1..];
        i := i + 1;
      }
    }

    /** The row itself, unless it is there already. */
    method Push(dependency: Row)
      requires Valid() && dependency in rows
      requires forall d :: d in Needs(ById(rows), dependency.id) ==> d in Ids(dependencies)
      modifies this
      ensures Valid() && old(dependencies) <= dependencies
      ensures forall x :: x in Ids(dependencies) <==> x in Ids(old(dependencies)) || x == dependency.id
    {
      if dependency.id !in Ids(dependencies) {
        TopologicalSnoc(ById(rows), Ids(dependencies), dependency.id);
        assert Ids(dependencies + [dependency]) == Ids(dependencies) + [dependency.id];
        dependencies := dependencies + [dependency];
      }
    }

    /** Adds the row of `id` after its transitive prerequisites, whatever is there already. */
    method AddDependency(id: string)
      requires Valid() && id in Ids(rows)
      modifies this
      ensures Valid() && old(dependencies) <= dependencies
      ensures forall x :: x in Ids(dependencies) <==> x in Ids(old(dependencies)) || Reaches(ById(rows), id, x)
      decreases IndexOf(rows, id)
    {
      ghost var graph := ById(rows);
      var at := FindRow(id);
      var dependency := rows[at];
      GraphOfDistinct(rows, at);
      assert dependency.needs[..0] == [];
      for i := 0 to |dependency.needs|
        invariant Valid() && old(dependencies) <= dependencies
        invariant Gained(graph, Ids(old(dependencies)), Ids(dependencies), dependency.needs, i)
      {
        ghost var mid := Ids(dependencies);
        EarlierRow(rows, at, dependency.needs[i]);
        AddDependency(dependency.needs[i]);
        GainNext(graph, Ids(old(dependencies)), mid, Ids(dependencies), dependency.needs, i);
      }
      ghost var mid := Ids(dependencies);
      GainsNeeds(graph, Ids(old(dependencies)), mid, id);
      Push(dependency);
      GainSelf(graph, Ids(old(dependencies)), mid, Ids(dependencies), id);
    }
  }

  /** The actions to perform before a row: exactly its transitive prerequisites, each once, each
      after everything it requires. */
  method Dependencies(rows: seq<Row>, row: Row) returns (list: seq<Row>)
    requires Ordered(rows) && row in rows
    ensures Distinct(Ids(list)) && Topological(ById(rows), Ids(list))
    ensures forall k :: 0 <= k < |list| ==> list[k] in rows
    ensures forall x :: x in Ids(list) <==> x != row.id && Reaches(ById(rows), row.id, x)
  {
    ghost var graph := ById(rows);
    ghost var at :| 0 <= at < |rows| && rows[at] == row;
    GraphOfDistinct(rows, at);
    var planner := new Planner(rows);
    assert row.needs[..0] == [];
    for i := 0 to |row.needs|
      invariant planner.Valid() && planner.rows == rows && fresh(planner)
      invariant Gained(graph, [], Ids(planner.dependencies), row.needs, i)
    {
      ghost var mid := Ids(planner.dependencies);
      EarlierRow(rows, at, row.needs[i]);
      planner.AddDependency(row.needs[i]);
      GainNext(graph, [], mid, Ids(planner.dependencies), row.needs, i);
    }
    list := planner.dependencies;
    assert row.needs[..|row.needs|] == row.needs;
    forall x ensures x in Ids(list) <==> x != row.id && Reaches(graph, row.id, x) {
      ReachesIff(graph, row.id, x);
      NotOwnPrerequisite(rows, row.id);
    }
  }

  lemma NotOwnPrerequisite(rows: seq<Row>, id: string)
    requires Ordered(rows)
    ensures !ReachedBy(ById(rows), Needs(ById(rows), id), id)
  {
    var graph := ById(rows);
    OrderedIsAcyclic(rows);
    if ReachedBy(graph, Needs(graph, id), id) {
      var k :| 0 <= k < |Needs(graph, id)| && Reaches(graph, Needs(graph, id)[k], id);
      var w :| Leads(graph, Needs(graph, id)[k], w, id);
      var v := [id] + w;
      forall i | 0 <= i < |v| - 1 ensures v[i + 1] in Needs(graph, v[i]) {
        assert i > 0 ==> w[i] in Needs(graph, w[i - 1]);
      }
      assert Cycle(graph, v);
    }
  }
}
