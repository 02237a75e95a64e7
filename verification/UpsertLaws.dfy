/** What runs of upserts, scope switches and stamps keep, and why repeating a
    batch changes nothing. */
module UpsertLaws {
  import opened Paths
  import opened Tables
  import opened Upsert
  import opened Uris

  // ----- One row per owner ------------------------------------------------------------------

  /** A path-bearing non-dependency key has one unowned row alone, or rows owned
      by pairwise different repositories. */
  predicate OneRowPerOwner(nodes: map<nat, Row>) {
    forall i, j | i in nodes && j in nodes && i != j && KeyOf(nodes[i]) == KeyOf(nodes[j]) &&
                  nodes[i].path.Some? && nodes[i].kind != DEPENDENCY ::
      nodes[i].repo.Some? && nodes[j].repo.Some? && nodes[i].repo != nodes[j].repo
  }

  /** Builtin rows are shared by every repository and stay unowned. */
  predicate BuiltinsUnowned(nodes: map<nat, Row>) {
    forall i | i in nodes && nodes[i].kind == BUILTIN :: nodes[i].repo == None
  }

  predicate Disciplined(nodes: map<nat, Row>) {
    OneRowPerOwner(nodes) && BuiltinsUnowned(nodes)
  }

  lemma InsertDisciplined(nodes: map<nat, Row>, scope: Option<string>, row: Row)
    requires Disciplined(nodes)
    requires NodeId(nodes, scope, KeyOf(row)) == None && row.repo == Stamped(scope, KeyOf(row))
    ensures Disciplined(nodes[Fresh(nodes.Keys) := row])
  {
    forall i | i in nodes && KeyOf(nodes[i]) == KeyOf(row) ensures !Matches(nodes[i], scope, KeyOf(row)) {
      assert i !in Candidates(nodes, scope, KeyOf(row));
    }
  }

  lemma LandingRow(nodes: map<nat, Row>, scope: Option<string>, node: GraphNode)
    ensures var id := Landing(nodes, scope, node);
            id.Some? ==> id.value in nodes && nodes[id.value].kind == node.key.kind &&
                         (node.key.kind != DEPENDENCY ==> Matches(nodes[id.value], scope, node.key))
  {
  }

  lemma UpsertNodeDisciplined(nodes: map<nat, Row>, scope: Option<string>, node: GraphNode)
    requires Disciplined(nodes)
    ensures Disciplined(UpsertedNode(nodes, scope, node))
  {
    LandingRow(nodes, scope, node);
    if Landing(nodes, scope, node) == None {
      InsertDisciplined(nodes, scope, NewRow(scope, node.key, node.line, Serialize(node.attrs), node.uri));
    }
  }

  lemma {:induction false} UpsertNodesDisciplined(nodes: map<nat, Row>, scope: Option<string>, records: seq<GraphNode>)
    requires Disciplined(nodes)
    ensures Disciplined(UpsertedNodes(nodes, scope, records))
  {
    if records != [] {
      UpsertNodesDisciplined(nodes, scope, records[..|records| - 1]);
      UpsertNodeDisciplined(UpsertedNodes(nodes, scope, records[..|records| - 1]), scope, records[|records| - 1]);
    }
  }

  lemma EnsuredDisciplined(nodes: map<nat, Row>, scope: Option<string>, key: NodeKey)
    requires Disciplined(nodes)
    ensures Disciplined(Ensured(nodes, scope, key))
  {
    if NodeId(nodes, scope, key) == None { InsertDisciplined(nodes, scope, NewRow(scope, key, None, None, None)); }
  }

  lemma {:induction false} UpsertEdgesDisciplined(t: Tables, scope: Option<string>, records: seq<GraphEdge>)
    requires Disciplined(t.nodes)
    ensures Disciplined(UpsertedEdges(t, scope, records).nodes)
  {
    if records != [] {
      var edge, before := records[|records| - 1], UpsertedEdges(t, scope, records[..|records| - 1]);
      UpsertEdgesDisciplined(t, scope, records[..|records| - 1]);
      EnsuredDisciplined(before.nodes, scope, edge.src);
      EnsuredDisciplined(Ensured(before.nodes, scope, edge.src), scope, StoredDst(edge));
    }
  }

  datatype Op =
    | Batch(nodes: seq<GraphNode>, edges: seq<GraphEdge>)
    | SwitchRepo(scope: Option<string>)
    | StampPass(repo: string)

  datatype World = World(tables: Tables, scope: Option<string>)

  function Step(w: World, op: Op): World {
    match op
    case Batch(nodes, edges) => w.(tables := Upserted(w.tables, w.scope, nodes, edges))
    case SwitchRepo(scope) => w.(scope := scope)
    case StampPass(repo) => w.(tables := w.tables.(nodes := StampedRows(w.tables.nodes, repo)))
  }

  function Run(w: World, ops: seq<Op>): World {
    if ops == [] then w else Step(Run(w, ops[..|ops| - 1]), ops[|ops| - 1])
  }

  /** In every run, from any disciplined start, the discipline holds. */
  lemma {:induction false} RunDisciplined(w: World, ops: seq<Op>)
    requires Disciplined(w.tables.nodes)
    ensures Disciplined(Run(w, ops).tables.nodes)
  {
    if ops != [] {
      RunDisciplined(w, ops[..|ops| - 1]);
      var before := Run(w, ops[..|ops| - 1]);
      match ops[|ops| - 1] {
        case Batch(nodes, edges) =>
          UpsertNodesDisciplined(before.tables.nodes, before.scope, nodes);
          UpsertEdgesDisciplined(Tables(UpsertedNodes(before.tables.nodes, before.scope, nodes), before.tables.edges),
                                 before.scope, edges);
        case SwitchRepo(_) =>
        case StampPass(_) =>
      }
    }
  }

  // ----- When another repository's rows are altered ------------------------------------------

  /** A row that another repository than the current scope's owns. */
  predicate Foreign(row: Row, scope: Option<string>) {
    && row.path.Some? && row.kind != BUILTIN
    && scope.Some? && row.repo.Some? && row.repo != scope
  }

  predicate ForeignKept(before: map<nat, Row>, after: map<nat, Row>, scope: Option<string>) {
    forall i | i in before && Foreign(before[i], scope) :: i in after && after[i] == before[i]
  }

  /** Foreign rows that can only be found by their key. */
  predicate ForeignKeyedKept(before: map<nat, Row>, after: map<nat, Row>, scope: Option<string>) {
    forall i | i in before && Foreign(before[i], scope) && before[i].kind != DEPENDENCY ::
      i in after && after[i] == before[i]
  }

  /** The record would land on the row by its URI, whoever owns the row. */
  predicate Hits(r: GraphNode, row: Row) {
    r.key.kind == DEPENDENCY && row.kind == DEPENDENCY && r.uri.Some? && r.uri == row.uri
  }

  /** No dependency record has the URI of another repository's dependency. */
  predicate Spares(nodes: map<nat, Row>, scope: Option<string>, records: seq<GraphNode>) {
    forall i, r | i in nodes && r in records && Foreign(nodes[i], scope) :: !Hits(r, nodes[i])
  }

  /** A record lands on a foreign row only by URI. */
  lemma ForeignLanding(nodes: map<nat, Row>, scope: Option<string>, r: GraphNode, i: nat)
    requires i in nodes && Foreign(nodes[i], scope) && Landing(nodes, scope, r) == Some(i)
    ensures Hits(r, nodes[i])
  {
  }

  lemma {:induction false} UpsertNodesKeepForeign(nodes: map<nat, Row>, scope: Option<string>, records: seq<GraphNode>)
    ensures ForeignKeyedKept(nodes, UpsertedNodes(nodes, scope, records), scope)
    ensures Spares(nodes, scope, records) ==> ForeignKept(nodes, UpsertedNodes(nodes, scope, records), scope)
  {
    if records != [] {
      var n := |records| - 1;
      var now := UpsertedNodes(nodes, scope, records[..n]);
      UpsertNodesKeepForeign(nodes, scope, records[..n]);
      forall i | i in nodes && i in now && now[i] == nodes[i] && Foreign(nodes[i], scope)
        ensures Landing(now, scope, records[n]) == Some(i) ==> Hits(records[n], nodes[i])
      {
        if Landing(now, scope, records[n]) == Some(i) { ForeignLanding(now, scope, records[n], i); }
      }
      assert records[n] in records && forall r | r in records[..n] :: r in records;
    }
  }

  lemma {:induction false} UpsertEdgesKeepRows(t: Tables, scope: Option<string>, records: seq<GraphEdge>)
    ensures forall i | i in t.nodes :: i in UpsertedEdges(t, scope, records).nodes &&
                                      UpsertedEdges(t, scope, records).nodes[i] == t.nodes[i]
  {
    if records != [] {
      var edge, before := records[|records| - 1], UpsertedEdges(t, scope, records[..|records| - 1]);
      UpsertEdgesKeepRows(t, scope, records[..|records| - 1]);
      EnsuredResolves(before.nodes, scope, edge.src);
      EnsuredResolves(Ensured(before.nodes, scope, edge.src), scope, StoredDst(edge));
    }
  }

  /** A batch under one repository alters no path-bearing row of another that is
      found by its key, and no dependency row either if it spares their URIs. */
  lemma BatchKeepsForeign(t: Tables, scope: Option<string>, nodes: seq<GraphNode>, edges: seq<GraphEdge>)
    ensures ForeignKeyedKept(t.nodes, Upserted(t, scope, nodes, edges).nodes, scope)
    ensures Spares(t.nodes, scope, nodes) ==> ForeignKept(t.nodes, Upserted(t, scope, nodes, edges).nodes, scope)
  {
    UpsertNodesKeepForeign(t.nodes, scope, nodes);
    UpsertEdgesKeepRows(Tables(UpsertedNodes(t.nodes, scope, nodes), t.edges), scope, edges);
  }

  /** No two dependency rows share a URI. */
  predicate DependencyUrisDistinct(nodes: map<nat, Row>) {
    forall i, j | i in nodes && j in nodes && i != j && nodes[i].kind == nodes[j].kind == DEPENDENCY ::
      nodes[i].uri.Some? ==> nodes[i].uri != nodes[j].uri
  }

  lemma UpsertKeepsUrisDistinct(nodes: map<nat, Row>, scope: Option<string>, r: GraphNode)
    requires DependencyUrisDistinct(nodes)
    ensures DependencyUrisDistinct(UpsertedNode(nodes, scope, r))
  {
    LandingRow(nodes, scope, r);
    if r.key.kind == DEPENDENCY && r.uri.Some? && UriRows(nodes, r.uri) == {} {
      assert forall j | j in nodes && nodes[j].kind == DEPENDENCY :: j !in UriRows(nodes, r.uri);
    }
  }

  lemma {:induction false} UpsertsKeepUrisDistinct(nodes: map<nat, Row>, scope: Option<string>, records: seq<GraphNode>)
    requires DependencyUrisDistinct(nodes)
    ensures DependencyUrisDistinct(UpsertedNodes(nodes, scope, records))
  {
    if records != [] {
      var some := records[..|records| - 1];
      UpsertsKeepUrisDistinct(nodes, scope, some);
      UpsertKeepsUrisDistinct(UpsertedNodes(nodes, scope, some), scope, records[|records| - 1]);
    }
  }

  /** The records with another line number each, all the same. */
  function AtLine(records: seq<GraphNode>, line: Option<int>): (out: seq<GraphNode>)
    ensures |out| == |records|
  {
    if records == [] then [] else AtLine(records[..|records| - 1], line) + [records[|records| - 1].(line := line)]
  }

  /** A foreign row is overwritten by the first record that hits it and by every
      later one, and by nothing else. */
  lemma {:induction false} HitOverwrites(nodes: map<nat, Row>, scope: Option<string>, records: seq<GraphNode>,
                                         line: Option<int>, f: nat)
    requires DependencyUrisDistinct(nodes) && f in nodes && Foreign(nodes[f], scope)
    ensures var after := UpsertedNodes(nodes, scope, AtLine(records, line));
            && f in after && after[f].kind == nodes[f].kind
            && if exists r :: r in records && Hits(r, nodes[f]) then after[f].line == line else after[f] == nodes[f]
  {
    if records != [] {
      var n := |records| - 1;
      var last := records[n].(line := line);
      HitOverwrites(nodes, scope, records[..n], line, f);
      var some := AtLine(records[..n], line);
      var now := UpsertedNodes(nodes, scope, some);
      assert AtLine(records, line)[..n] == some;
      UpsertsKeepUrisDistinct(nodes, scope, some);
      LandingRow(now, scope, last);
      assert forall r :: r in records <==> r in records[..n] || r == records[n];
      assert Hits(last, nodes[f]) <==> Hits(records[n], nodes[f]);
      if Hits(last, nodes[f]) {
        assert records[n] in records;
        if now[f] == nodes[f] { assert UriRows(now, last.uri) == {f}; }
      } else if now[f] == nodes[f] && Landing(now, scope, last) == Some(f) {
        ForeignLanding(now, scope, last, f);
      }
    }
  }

  lemma SparesAtLine(nodes: map<nat, Row>, scope: Option<string>, records: seq<GraphNode>, line: Option<int>)
    requires Spares(nodes, scope, records)
    ensures Spares(nodes, scope, AtLine(records, line))
  {
    if records != [] {
      var some, last := records[..|records| - 1], records[|records| - 1];
      forall i, r | i in nodes && r in some && Foreign(nodes[i], scope) ensures !Hits(r, nodes[i]) {
        assert r in records;
      }
      SparesAtLine(nodes, scope, some, line);
      assert last in records;
      assert forall i | i in nodes :: Hits(last.(line := line), nodes[i]) <==> Hits(last, nodes[i]);
    }
  }

  /** Whatever line numbers a batch carries, it keeps all foreign rows exactly if
      it spares the URIs of foreign dependencies. */
  lemma ForeignKeptIff(t: Tables, scope: Option<string>, nodes: seq<GraphNode>, edges: seq<GraphEdge>)
    requires DependencyUrisDistinct(t.nodes)
    ensures (forall line :: ForeignKept(t.nodes, Upserted(t, scope, AtLine(nodes, line), edges).nodes, scope)) <==>
              Spares(t.nodes, scope, nodes)
  {
    if Spares(t.nodes, scope, nodes) {
      forall line ensures ForeignKept(t.nodes, Upserted(t, scope, AtLine(nodes, line), edges).nodes, scope) {
        SparesAtLine(t.nodes, scope, nodes, line);
        BatchKeepsForeign(t, scope, AtLine(nodes, line), edges);
      }
    } else {
      var f, r :| f in t.nodes && r in nodes && Foreign(t.nodes[f], scope) && Hits(r, t.nodes[f]);
      var other := if t.nodes[f].line == None then Some(0) else None;
      HitOverwrites(t.nodes, scope, nodes, other, f);
      UpsertEdgesKeepRows(Tables(UpsertedNodes(t.nodes, scope, AtLine(nodes, other)), t.edges), scope, edges);
      assert !ForeignKept(t.nodes, Upserted(t, scope, AtLine(nodes, other), edges).nodes, scope);
    }
  }

  /** One record under the second repository overwrites a row of the first. */
  lemma ForeignOverwritten()
    ensures var nodes := map[1 := Row(DEPENDENCY, "a", Some("p"), None, None, Some("u"), Some("r1"))];
            var record := GraphNode(NodeKey(DEPENDENCY, "b", Some("q")), None, map[], Some("u"));
            && Foreign(nodes[1], Some("r2"))
            && var after := UpsertedNodes(nodes, Some("r2"), [record]);
            && 1 in after && after[1] == nodes[1].(name := "b", path := Some("q"))
  {
    var nodes := map[1 := Row(DEPENDENCY, "a", Some("p"), None, None, Some("u"), Some("r1"))];
    var record := GraphNode(NodeKey(DEPENDENCY, "b", Some("q")), None, map[], Some("u"));
    assert UriRows(nodes, Some("u")) == {1};
    assert [record][..0] == [];
  }

  // ----- Repeating a batch changes nothing --------------------------------------------------

  /** Two dependency records that name the same thing name it the same way: one
      key has one URI, or none, and one URI has one key. */
  predicate Compatible(a: GraphNode, b: GraphNode) {
    a.key.kind == b.key.kind == DEPENDENCY ==>
      (a.key == b.key ==> a.uri == b.uri) && (a.uri == b.uri && a.uri.Some? ==> a.key == b.key)
  }

  predicate Consistent(records: seq<GraphNode>) {
    forall i, j | 0 <= i < |records| && 0 <= j < |records| :: Compatible(records[i], records[j])
  }

  /** Record `r` has row `i`: it lands there, and the row carries its identity. */
  predicate Owns(nodes: map<nat, Row>, scope: Option<string>, r: GraphNode, i: nat) {
    && i in nodes && Landing(nodes, scope, r) == Some(i) && KeyOf(nodes[i]) == r.key
    && (r.key.kind == DEPENDENCY ==> nodes[i].uri == r.uri)
  }

  lemma UpsertedOwns(nodes: map<nat, Row>, scope: Option<string>, r: GraphNode) returns (i: nat)
    ensures Owns(UpsertedNode(nodes, scope, r), scope, r, i)
    ensures UpsertedNode(nodes, scope, r)[i] == Written(UpsertedNode(nodes, scope, r)[i], r)
  {
    var after := UpsertedNode(nodes, scope, r);
    match Landing(nodes, scope, r) {
      case Some(id) =>
        i := id;
        LandingRow(nodes, scope, r);
        if r.key.kind == DEPENDENCY && r.uri.Some? {
          UriHome(nodes, after, r, i);
        } else {
          assert Candidates(after, scope, r.key) == Candidates(nodes, scope, r.key);
        }
      case None =>
        i := Fresh(nodes.Keys);
        if r.key.kind == DEPENDENCY && r.uri.Some? { UriHome(nodes, after, r, i); }
        InsertResolves(nodes, scope, NewRow(scope, r.key, r.line, Serialize(r.attrs), r.uri));
    }
  }

  /** Writing a dependency's URI where its record lands makes that its URI row. */
  lemma UriHome(nodes: map<nat, Row>, after: map<nat, Row>, r: GraphNode, i: nat)
    requires r.uri.Some? && i in after && after[i].kind == DEPENDENCY && after[i].uri == r.uri
    requires after.Keys == nodes.Keys + {i} && forall j | j in nodes && j != i :: after[j] == nodes[j]
    requires DependencyId(nodes, r.uri) in {None, Some(i)}
    ensures DependencyId(after, r.uri) == Some(i)
  {
    assert UriRows(after, r.uri) == UriRows(nodes, r.uri) + {i};
    assert i in UriRows(after, r.uri);
    forall j | j in UriRows(after, r.uri) ensures i <= j {
      if j != i { assert j in UriRows(nodes, r.uri); }
    }
  }

  /** A later compatible record leaves `r` its row, and leaves the row itself
      alone unless it names the same thing. */
  lemma UpsertKeepsOwner(nodes: map<nat, Row>, scope: Option<string>, r: GraphNode, i: nat, s: GraphNode)
    requires Owns(nodes, scope, r, i) && Compatible(r, s)
    ensures Owns(UpsertedNode(nodes, scope, s), scope, r, i)
    ensures s.key != r.key ==> UpsertedNode(nodes, scope, s)[i] == nodes[i]
  {
    var after := UpsertedNode(nodes, scope, s);
    LandingRow(nodes, scope, s);
    if r.key.kind != DEPENDENCY {
      LeastStays(Candidates(nodes, scope, r.key), Candidates(after, scope, r.key));
    } else if r.uri.None? {
      var before, now := Candidates(nodes, scope, r.key), Candidates(after, scope, r.key);
      assert i in before && i in now;
      forall j | j in now ensures i <= j {
        if j in nodes && Landing(nodes, scope, s) != Some(j) { assert j in before; }
      }
    } else {
      var before, now := UriRows(nodes, r.uri), UriRows(after, r.uri);
      assert i in before && i in now;
      forall j | j in now ensures i <= j {
        if j in nodes && Landing(nodes, scope, s) != Some(j) { assert j in before; }
      }
    }
  }

  /** Every record has its row, and the last record of each key has had its say. */
  ghost predicate Reflects(nodes: map<nat, Row>, scope: Option<string>, records: seq<GraphNode>) {
    forall j | 0 <= j < |records| :: ReflectsAt(nodes, scope, records, j)
  }

  predicate NoneLater(records: seq<GraphNode>, j: nat)
    requires j < |records|
  {
    forall k | j < k < |records| :: records[k].key != records[j].key
  }

  ghost predicate ReflectsAt(nodes: map<nat, Row>, scope: Option<string>, records: seq<GraphNode>, j: nat)
    requires j < |records|
  {
    exists i :: Owns(nodes, scope, records[j], i) &&
                (NoneLater(records, j) ==> nodes[i] == Written(nodes[i], records[j]))
  }

  lemma {:induction false} BatchReflected(nodes: map<nat, Row>, scope: Option<string>, records: seq<GraphNode>)
    requires Consistent(records)
    ensures Reflects(UpsertedNodes(nodes, scope, records), scope, records)
  {
    if records != [] {
      var n := |records| - 1;
      var init, r := records[..n], records[n];
      BatchReflected(nodes, scope, init);
      var before := UpsertedNodes(nodes, scope, init);
      forall j | 0 <= j < |records| ensures ReflectsAt(UpsertedNodes(nodes, scope, records), scope, records, j) {
        if j == n {
          var i := UpsertedOwns(before, scope, r);
        } else {
          assert ReflectsAt(before, scope, init, j) && init[j] == records[j];
          var i :| Owns(before, scope, init[j], i) && (NoneLater(init, j) ==> before[i] == Written(before[i], init[j]));
          assert Compatible(records[j], r);
          UpsertKeepsOwner(before, scope, init[j], i, r);
          if NoneLater(records, j) {
            assert forall k | j < k < n :: init[k] == records[k];
          }
        }
      }
    }
  }

  /** The columns that decide where records land. */
  predicate SameIdentity(u: map<nat, Row>, t: map<nat, Row>) {
    && u.Keys == t.Keys
    && (forall i | i in t :: KeyOf(u[i]) == KeyOf(t[i]) && u[i].repo == t[i].repo)
    && (forall i | i in t && t[i].kind == DEPENDENCY :: u[i].uri == t[i].uri)
  }

  lemma SameLanding(u: map<nat, Row>, t: map<nat, Row>, scope: Option<string>, r: GraphNode)
    requires SameIdentity(u, t)
    ensures Landing(u, scope, r) == Landing(t, scope, r)
  {
    forall i | i in t ensures u[i].kind == t[i].kind { assert KeyOf(u[i]).kind == KeyOf(t[i]).kind; }
    assert UriRows(u, r.uri) == UriRows(t, r.uri);
    assert Candidates(u, scope, r.key) == Candidates(t, scope, r.key);
  }

  ghost predicate LandsLater(t: map<nat, Row>, scope: Option<string>, records: seq<GraphNode>, m: nat, i: nat) {
    exists k | m <= k < |records| :: Landing(t, scope, records[k]) == Some(i)
  }

  lemma WrittenIdentity(u: map<nat, Row>, t: map<nat, Row>, scope: Option<string>, r: GraphNode, i: nat)
    requires SameIdentity(u, t) && Owns(t, scope, r, i)
    ensures SameIdentity(u[i := Written(u[i], r)], t) && Written(u[i], r) == Written(t[i], r)
    ensures UpsertedNode(u, scope, r) == u[i := Written(u[i], r)]
  {
    SameLanding(u, t, scope, r);
    assert KeyOf(u[i]) == KeyOf(t[i]) == r.key;
  }

  /** Replaying the first `m` records over rows that already reflect the whole
      batch only disturbs rows that later records restore. */
  lemma {:induction false} ReplayDisturbs(t: map<nat, Row>, scope: Option<string>, records: seq<GraphNode>, m: nat)
    requires Reflects(t, scope, records) && m <= |records| && Consistent(records)
    ensures SameIdentity(UpsertedNodes(t, scope, records[..m]), t)
    ensures forall i | i in t :: UpsertedNodes(t, scope, records[..m])[i] == t[i] || LandsLater(t, scope, records, m, i)
  {
    if m > 0 {
      ReplayDisturbs(t, scope, records, m - 1);
      assert records[..m][..m - 1] == records[..m - 1];
      var r, u := records[m - 1], UpsertedNodes(t, scope, records[..m - 1]);
      assert ReflectsAt(t, scope, records, m - 1);
      var i :| Owns(t, scope, r, i) && (NoneLater(records, m - 1) ==> t[i] == Written(t[i], r));
      WrittenIdentity(u, t, scope, r, i);
      assert UpsertedNodes(t, scope, records[..m]) == u[i := Written(u[i], r)];
      ReplayOne(u, t, scope, records, m, i);
    }
  }

  lemma ReplayOne(u: map<nat, Row>, t: map<nat, Row>, scope: Option<string>, records: seq<GraphNode>, m: nat, i: nat)
    requires Reflects(t, scope, records) && 0 < m <= |records| && Consistent(records)
    requires Owns(t, scope, records[m - 1], i) && u.Keys == t.Keys
    requires NoneLater(records, m - 1) ==> t[i] == Written(u[i], records[m - 1])
    requires forall h | h in t :: u[h] == t[h] || LandsLater(t, scope, records, m - 1, h)
    ensures forall h | h in t :: u[i := Written(u[i], records[m - 1])][h] == t[h] || LandsLater(t, scope, records, m, h)
  {
    hide Landing;
    hide Written;
    hide Reflects;
    hide Consistent;
    forall h | h in t
      ensures u[i := Written(u[i], records[m - 1])][h] == t[h] || LandsLater(t, scope, records, m, h)
    {
      if h == i {
        if !NoneLater(records, m - 1) { SameKeyLands(t, scope, records, m - 1, i); }
      } else if u[h] != t[h] {
        var k :| m - 1 <= k < |records| && Landing(t, scope, records[k]) == Some(h);
        assert k != m - 1;
      }
    }
  }

  lemma SameKeyLands(t: map<nat, Row>, scope: Option<string>, records: seq<GraphNode>, j: nat, i: nat)
    requires Reflects(t, scope, records) && j < |records| && !NoneLater(records, j) && Consistent(records)
    requires Owns(t, scope, records[j], i)
    ensures LandsLater(t, scope, records, j + 1, i)
  {
    var k :| j < k < |records| && records[k].key == records[j].key;
    assert Compatible(records[j], records[k]);
    assert ReflectsAt(t, scope, records, k);
    var h :| Owns(t, scope, records[k], h);
    assert Landing(t, scope, records[k]) == Some(i);
  }

  lemma ReplayNodes(t: map<nat, Row>, scope: Option<string>, records: seq<GraphNode>)
    requires Reflects(t, scope, records) && Consistent(records)
    ensures UpsertedNodes(t, scope, records) == t
  {
    ReplayDisturbs(t, scope, records, |records|);
    assert records[..|records|] == records;
    assert forall i | i in t :: !LandsLater(t, scope, records, |records|, i);
  }

  // The edge half of a batch only adds rows, so it disturbs no record's row ...

  lemma EnsuredReflects(nodes: map<nat, Row>, scope: Option<string>, key: NodeKey, records: seq<GraphNode>)
    requires Reflects(nodes, scope, records)
    ensures Reflects(Ensured(nodes, scope, key), scope, records)
  {
    var after := Ensured(nodes, scope, key);
    forall j | 0 <= j < |records| ensures ReflectsAt(after, scope, records, j) {
      assert ReflectsAt(nodes, scope, records, j);
      var r := records[j];
      var i :| Owns(nodes, scope, r, i) && (NoneLater(records, j) ==> nodes[i] == Written(nodes[i], r));
      EnsuredResolves(nodes, scope, key);
      if r.key.kind == DEPENDENCY {
        assert KeyOf(nodes[i]).kind == DEPENDENCY && i in UriRows(nodes, r.uri);
        assert r.uri.Some? ==> UriRows(after, r.uri) == UriRows(nodes, r.uri);
        if r.uri.None? { EnsuredKeepsIds(nodes, scope, key, r.key); }
      } else {
        EnsuredKeepsIds(nodes, scope, key, r.key);
      }
      assert Owns(after, scope, r, i);
    }
  }

  /** Both ends of every edge record resolve, and the last record of each stored
      edge has had its say. */
  ghost predicate ReflectsEdges(t: Tables, scope: Option<string>, records: seq<GraphEdge>) {
    && (forall j | 0 <= j < |records| :: EndsFound(t.nodes, scope, records[j]))
    && (forall j | 0 <= j < |records| :: EdgeSaid(t, scope, records, j))
  }

  predicate EndsFound(nodes: map<nat, Row>, scope: Option<string>, e: GraphEdge) {
    NodeId(nodes, scope, e.src).Some? && NodeId(nodes, scope, StoredDst(e)).Some?
  }

  ghost predicate EdgeSaid(t: Tables, scope: Option<string>, records: seq<GraphEdge>, j: nat)
    requires j < |records| && EndsFound(t.nodes, scope, records[j])
  {
    var key := StoredKey(t.nodes, scope, records[j]);
    key in t.edges && (t.edges[key] == StoredAttrs(records[j]) || StoredLater(t, scope, records, j + 1, key))
  }

  ghost predicate StoredLater(t: Tables, scope: Option<string>, records: seq<GraphEdge>, m: nat, key: EdgeKey) {
    exists k | m <= k < |records| ::
        EndsFound(t.nodes, scope, records[k]) && StoredKey(t.nodes, scope, records[k]) == key
  }

  lemma EndsKept(nodes: map<nat, Row>, scope: Option<string>, e: GraphEdge, f: GraphEdge)
    requires EndsFound(nodes, scope, e)
    ensures EndsFound(WithEnds(nodes, scope, f), scope, e)
    ensures StoredKey(WithEnds(nodes, scope, f), scope, e) == StoredKey(nodes, scope, e)
  {
    var mid := Ensured(nodes, scope, f.src);
    EnsuredKeepsIds(nodes, scope, f.src, e.src);
    EnsuredKeepsIds(nodes, scope, f.src, StoredDst(e));
    EnsuredKeepsIds(mid, scope, StoredDst(f), e.src);
    EnsuredKeepsIds(mid, scope, StoredDst(f), StoredDst(e));
  }

  lemma {:induction false} EdgesReflected(t: Tables, scope: Option<string>, records: seq<GraphEdge>)
    ensures ReflectsEdges(UpsertedEdges(t, scope, records), scope, records)
  {
    if records != [] {
      var n := |records| - 1;
      var init, e := records[..n], records[n];
      EdgesReflected(t, scope, init);
      var before := UpsertedEdges(t, scope, init);
      var after := UpsertedEdges(t, scope, records);
      EndsResolve(before.nodes, scope, e);
      forall j | 0 <= j < |records|
        ensures EndsFound(after.nodes, scope, records[j]) && EdgeSaid(after, scope, records, j)
      {
        if j < n {
          assert init[j] == records[j] && EndsFound(before.nodes, scope, init[j]) && EdgeSaid(before, scope, init, j);
          EndsKept(before.nodes, scope, records[j], e);
          EdgeStillSaid(before, after, scope, records, j);
        }
      }
    }
  }

  lemma EdgeStillSaid(before: Tables, after: Tables, scope: Option<string>, records: seq<GraphEdge>, j: nat)
    requires var n := |records| - 1; j < n && after == UpsertedEdge(before, scope, records[n])
    requires EndsFound(before.nodes, scope, records[j]) && EdgeSaid(before, scope, records[..|records| - 1], j)
    ensures EndsFound(after.nodes, scope, records[j]) && EdgeSaid(after, scope, records, j)
  {
    hide Ensured;
    hide NodeId;
    hide StoredAttrs;
    hide StoredDst;
    var n := |records| - 1;
    var init, e, key := records[..n], records[n], StoredKey(before.nodes, scope, records[j]);
    EndsKept(before.nodes, scope, records[j], e);
    EndsResolve(before.nodes, scope, e);
    if StoredKey(after.nodes, scope, e) == key {
      assert StoredLater(after, scope, records, j + 1, key);
    } else if before.edges[key] != StoredAttrs(records[j]) {
      var k :| j + 1 <= k < |init| && EndsFound(before.nodes, scope, init[k]) &&
          StoredKey(before.nodes, scope, init[k]) == key;
      EndsKept(before.nodes, scope, records[k], e);
      assert StoredLater(after, scope, records, j + 1, key);
    }
  }

  // ... and replays to nothing itself.

  /** The edges agree, up to those that the records from `m` on will restore. */
  ghost predicate EdgesPending(u: Tables, t: Tables, scope: Option<string>, records: seq<GraphEdge>, m: nat) {
    && u.nodes == t.nodes && u.edges.Keys == t.edges.Keys
    && forall key | key in t.edges :: u.edges[key] == t.edges[key] || StoredLater(t, scope, records, m, key)
  }

  lemma ReplayOneEdge(u: Tables, t: Tables, scope: Option<string>, records: seq<GraphEdge>, m: nat)
    requires 0 < m <= |records| && EdgesPending(u, t, scope, records, m - 1)
    requires EndsFound(t.nodes, scope, records[m - 1]) && EdgeSaid(t, scope, records, m - 1)
    ensures EdgesPending(UpsertedEdge(u, scope, records[m - 1]), t, scope, records, m)
  {
    var e := records[m - 1];
    var key := StoredKey(t.nodes, scope, e);
    assert UpsertedEdge(u, scope, e) == Tables(t.nodes, u.edges[key := StoredAttrs(e)]);
    hide NodeId;
    hide StoredAttrs;
    hide StoredDst;
    hide UpsertedEdge;
    forall h | h in t.edges && h != key && u.edges[h] != t.edges[h] ensures StoredLater(t, scope, records, m, h) {
      var k :| m - 1 <= k < |records| && EndsFound(t.nodes, scope, records[k]) &&
          StoredKey(t.nodes, scope, records[k]) == h;
      assert k != m - 1;
    }
  }

  lemma {:induction false} ReplayEdgesDisturbs(t: Tables, scope: Option<string>, records: seq<GraphEdge>, m: nat)
    requires ReflectsEdges(t, scope, records) && m <= |records|
    ensures EdgesPending(UpsertedEdges(t, scope, records[..m]), t, scope, records, m)
  {
    if m > 0 {
      ReplayEdgesDisturbs(t, scope, records, m - 1);
      assert records[..m][..m - 1] == records[..m - 1];
      ReplayOneEdge(UpsertedEdges(t, scope, records[..m - 1]), t, scope, records, m);
    }
  }

  lemma {:induction false} EdgesReflectNodes(t: Tables, scope: Option<string>, records: seq<GraphEdge>,
                                             nodes: seq<GraphNode>)
    requires Reflects(t.nodes, scope, nodes)
    ensures Reflects(UpsertedEdges(t, scope, records).nodes, scope, nodes)
  {
    if records != [] {
      var n := |records| - 1;
      var before := UpsertedEdges(t, scope, records[..n]);
      EdgesReflectNodes(t, scope, records[..n], nodes);
      EnsuredReflects(before.nodes, scope, records[n].src, nodes);
      EnsuredReflects(Ensured(before.nodes, scope, records[n].src), scope, StoredDst(records[n]), nodes);
    }
  }

  /** Repeating a batch of consistent records changes nothing. */
  lemma UpsertIdempotent(t: Tables, scope: Option<string>, nodes: seq<GraphNode>, edges: seq<GraphEdge>)
    requires Consistent(nodes)
    ensures Upserted(Upserted(t, scope, nodes, edges), scope, nodes, edges) == Upserted(t, scope, nodes, edges)
  {
    var mid := Tables(UpsertedNodes(t.nodes, scope, nodes), t.edges);
    var after := UpsertedEdges(mid, scope, edges);
    BatchReflected(t.nodes, scope, nodes);
    EdgesReflectNodes(mid, scope, edges, nodes);
    ReplayNodes(after.nodes, scope, nodes);
    EdgesReflected(mid, scope, edges);
    ReplayEdgesDisturbs(after, scope, edges, |edges|);
    assert edges[..|edges|] == edges;
    var again := UpsertedEdges(after, scope, edges);
    assert forall key | key in after.edges :: !StoredLater(after, scope, edges, |edges|, key);
    assert again.edges == after.edges;
  }

  /** What the emitters of dependency records build: key and URI minted from one
      repository, ecosystem and name. */
  ghost predicate Minted(r: GraphNode) {
    r.key.kind == DEPENDENCY ==> exists ctx: RepoContext, ecosystem, name :: MintedFrom(r, ctx, ecosystem, name)
  }

  predicate MintedFrom(r: GraphNode, ctx: RepoContext, ecosystem: string, name: string) {
    && ctx.WellNamed() && Plain(ecosystem)
    && r.key == NodeKey(DEPENDENCY, name, Some(DependencyPath(ctx, ecosystem, name)))
    && r.uri == Some(DependencyUri(ctx, ecosystem, name))
  }

  lemma MintedCompatible(a: GraphNode, b: GraphNode)
    requires Minted(a) && Minted(b)
    ensures Compatible(a, b)
  {
    if a.key.kind == b.key.kind == DEPENDENCY {
      var c1: RepoContext, e1, n1 :| MintedFrom(a, c1, e1, n1);
      var c2: RepoContext, e2, n2 :| MintedFrom(b, c2, e2, n2);
      hide DependencyPath;
      hide DependencyUri;
      if a.key == b.key {
        DependencyPathInjective(c1, e1, n1, c2, e2, n2);
      } else if a.uri == b.uri {
        DependencyUriInjective(c1, e1, n1, c2, e2, n2);
      }
    }
  }

  /** Every batch whose dependency records are minted repeats without effect. */
  lemma EmittedBatchRepeats(t: Tables, scope: Option<string>, nodes: seq<GraphNode>, edges: seq<GraphEdge>)
    requires forall r | r in nodes :: Minted(r)
    ensures Upserted(Upserted(t, scope, nodes, edges), scope, nodes, edges) == Upserted(t, scope, nodes, edges)
  {
    forall i, j | 0 <= i < |nodes| && 0 <= j < |nodes| ensures Compatible(nodes[i], nodes[j]) {
      MintedCompatible(nodes[i], nodes[j]);
    }
    UpsertIdempotent(t, scope, nodes, edges);
  }

  function Renaming(): seq<GraphNode> {
    var k1, k2 := NodeKey(DEPENDENCY, "a", Some("a")), NodeKey(DEPENDENCY, "b", Some("b"));
    [GraphNode(k1, None, map[], None), GraphNode(k1, None, map[], Some("u")), GraphNode(k2, None, map[], Some("u"))]
  }

  /** Consistency cannot just be dropped.  In this batch, which no emitter builds,
      the second record names the first's row by key and the third renames it by
      URI, so a repeat finds no row for the first and inserts another. */
  lemma InconsistentBatchRepeats()
    ensures var once := Upserted(Tables(map[], map[]), None, Renaming(), []);
            Upserted(once, None, Renaming(), []) != once
  {
    var r := Renaming();
    var t0: map<nat, Row> := map[];
    var t1 := UpsertedNode(t0, None, r[0]);
    var t2 := UpsertedNode(t1, None, r[1]);
    var t3 := UpsertedNode(t2, None, r[2]);
    assert t1.Keys == {1} && KeyOf(t1[1]) == r[0].key;
    assert Candidates(t1, None, r[0].key) == {1} && UriRows(t1, Some("u")) == {};
    assert t2.Keys == {1} && t2[1].uri == Some("u") && t2[1].kind == DEPENDENCY;
    assert UriRows(t2, Some("u")) == {1};
    assert t3.Keys == {1} && KeyOf(t3[1]) == r[2].key;
    assert Candidates(t3, None, r[0].key) == {};
    var t4 := UpsertedNode(t3, None, r[0]);
    assert Fresh(t3.Keys) in t4 && Fresh(t3.Keys) != 1;
    var t5 := UpsertedNode(t4, None, r[1]);
    var t6 := UpsertedNode(t5, None, r[2]);
    assert t4.Keys <= t5.Keys <= t6.Keys;
    Unfold3(t0, r);
    Unfold3(t3, r);
  }

  lemma Unfold3(nodes: map<nat, Row>, r: seq<GraphNode>)
    requires |r| == 3
    ensures UpsertedNodes(nodes, None, r) ==
            UpsertedNode(UpsertedNode(UpsertedNode(nodes, None, r[0]), None, r[1]), None, r[2])
  {
    assert r[..2][..1] == r[..1] && r[..1][..0] == [];
    assert UpsertedNodes(nodes, None, r[..1]) == UpsertedNode(nodes, None, r[0]);
    assert UpsertedNodes(nodes, None, r[..2]) == UpsertedNode(UpsertedNodes(nodes, None, r[..1]), None, r[1]);
  }
}
