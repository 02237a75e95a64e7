/** Upserting parser records into the graph (code_graph_io/upsert.py), and the
    end-of-pass repository stamp (code_graph_io/update.py). */
module Upsert {
  import opened Paths
  import opened Tables

  const BUILTIN := "builtin"
  const DEPENDENCY := "dependency"
  const UNRESOLVED_SYMBOL := "unresolved_symbol"

  datatype NodeKey = NodeKey(kind: string, name: string, path: Option<string>)

  /** A parser node; `uri` is carried apart from the other attributes. */
  datatype GraphNode = GraphNode(key: NodeKey, line: Option<int>, attrs: AttrMap, uri: Option<string>)

  datatype GraphEdge = GraphEdge(src: NodeKey, dst: NodeKey, kind: string, attrs: AttrMap)

  function KeyOf(row: Row): NodeKey {
    NodeKey(row.kind, row.name, row.path)
  }

  function Serialize(attrs: AttrMap): Attrs {
    if attrs == map[] then None else Some(attrs)
  }

  /** The rows `_node_id` may return under the current repository scope. */
  predicate Matches(row: Row, scope: Option<string>, key: NodeKey) {
    && KeyOf(row) == key
    && (key.path.Some? && scope.Some? && key.kind != BUILTIN ==> row.repo == scope || row.repo == None)
  }

  function Candidates(nodes: map<nat, Row>, scope: Option<string>, key: NodeKey): set<nat> {
    set i | i in nodes && Matches(nodes[i], scope, key)
  }

  /** `_node_id`. */
  function NodeId(nodes: map<nat, Row>, scope: Option<string>, key: NodeKey): Option<nat> {
    Least(Candidates(nodes, scope, key))
  }

  function Stamped(scope: Option<string>, key: NodeKey): Option<string> {
    if key.path.Some? && key.kind != BUILTIN then scope else None
  }

  function NewRow(scope: Option<string>, key: NodeKey, line: Option<int>, attrs: Attrs, uri: Option<string>): Row {
    Row(key.kind, key.name, key.path, line, attrs, uri, Stamped(scope, key))
  }

  function UriRows(nodes: map<nat, Row>, uri: Option<string>): set<nat> {
    set i | i in nodes && nodes[i].kind == DEPENDENCY && nodes[i].uri == uri
  }

  /** `_dependency_id_by_uri`. */
  function DependencyId(nodes: map<nat, Row>, uri: Option<string>): Option<nat> {
    if uri == None then None
    else Least(UriRows(nodes, uri))
  }

  /** The existing row a node record lands on, if any. */
  function Landing(nodes: map<nat, Row>, scope: Option<string>, node: GraphNode): Option<nat> {
    var byUri := if node.key.kind == DEPENDENCY then DependencyId(nodes, node.uri) else None;
    if byUri.Some? then byUri else NodeId(nodes, scope, node.key)
  }

  /** The UPDATE of `_upsert_node`: every column but kind and repo. */
  function Written(row: Row, node: GraphNode): Row {
    row.(name := node.key.name, path := node.key.path, line := node.line, attrs := Serialize(node.attrs),
        uri := node.uri)
  }

  function UpsertedNode(nodes: map<nat, Row>, scope: Option<string>, node: GraphNode): map<nat, Row> {
    match Landing(nodes, scope, node)
    case Some(id) => nodes[id := Written(nodes[id], node)]
    case None => nodes[Fresh(nodes.Keys) := NewRow(scope, node.key, node.line, Serialize(node.attrs), node.uri)]
  }

  /** `_ensure_node`. */
  function Ensured(nodes: map<nat, Row>, scope: Option<string>, key: NodeKey): map<nat, Row> {
    if NodeId(nodes, scope, key).Some? then nodes
    else nodes[Fresh(nodes.Keys) := NewRow(scope, key, None, None, None)]
  }

  function WithDefault(attrs: AttrMap, name: string, value: string): AttrMap {
    if name in attrs then attrs else attrs[name := Text(value)]
  }

  /** `_symbol_placeholder_key`: the stored destination of an edge. */
  function StoredDst(edge: GraphEdge): NodeKey {
    if IsSymbolReference(edge) then NodeKey(UNRESOLVED_SYMBOL, edge.dst.name, None) else edge.dst
  }

  predicate IsSymbolReference(edge: GraphEdge) {
    edge.dst.path == None && edge.dst.kind in {"function", "method", "class", "type"} &&
        edge.kind in {"calls", "exports"}
  }

  function StoredAttrs(edge: GraphEdge): Attrs {
    var kinded := if IsSymbolReference(edge) then WithDefault(edge.attrs, "symbol_kind", edge.dst.kind) else edge.attrs;
    Serialize(if StoredDst(edge).path == None then WithDefault(kinded, "resolution", "unresolved") else kinded)
  }

  function WithEnds(nodes: map<nat, Row>, scope: Option<string>, edge: GraphEdge): map<nat, Row> {
    Ensured(Ensured(nodes, scope, edge.src), scope, StoredDst(edge))
  }

  /** Where an edge record is stored, once both ends exist. */
  function StoredKey(nodes: map<nat, Row>, scope: Option<string>, edge: GraphEdge): EdgeKey
    requires NodeId(nodes, scope, edge.src).Some? && NodeId(nodes, scope, StoredDst(edge)).Some?
  {
    EdgeKey(NodeId(nodes, scope, edge.src).value, NodeId(nodes, scope, StoredDst(edge)).value, edge.kind)
  }

  // ----- What one step keeps ------------------------------------------------------------

  lemma LeastStays(small: set<nat>, large: set<nat>)
    requires small != {} && small <= large && forall i, j | i in small && j in large - small :: i < j
    ensures Least(small) == Least(large)
  {
    var m := Least(small).value;
    assert m in large;
    forall j | j in large ensures m <= j {
      if j !in small { assert j in large - small; }
    }
  }

  /** A key that resolves keeps resolving to the same row when a missing key is
      inserted. */
  lemma InsertKeepsIds(nodes: map<nat, Row>, scope: Option<string>, row: Row, key: NodeKey)
    requires NodeId(nodes, scope, key).Some?
    ensures NodeId(nodes[Fresh(nodes.Keys) := row], scope, key) == NodeId(nodes, scope, key)
  {
    LeastStays(Candidates(nodes, scope, key), Candidates(nodes[Fresh(nodes.Keys) := row], scope, key));
  }

  lemma InsertResolves(nodes: map<nat, Row>, scope: Option<string>, row: Row)
    requires NodeId(nodes, scope, KeyOf(row)) == None && row.repo == Stamped(scope, KeyOf(row))
    ensures NodeId(nodes[Fresh(nodes.Keys) := row], scope, KeyOf(row)) == Some(Fresh(nodes.Keys))
  {
    assert Candidates(nodes[Fresh(nodes.Keys) := row], scope, KeyOf(row)) == {Fresh(nodes.Keys)};
  }

  lemma EnsuredResolves(nodes: map<nat, Row>, scope: Option<string>, key: NodeKey)
    ensures NodeId(Ensured(nodes, scope, key), scope, key).Some?
    ensures forall i | i in nodes :: i in Ensured(nodes, scope, key) && Ensured(nodes, scope, key)[i] == nodes[i]
  {
    if NodeId(nodes, scope, key) == None { InsertResolves(nodes, scope, NewRow(scope, key, None, None, None)); }
  }

  lemma EnsuredKeepsIds(nodes: map<nat, Row>, scope: Option<string>, key: NodeKey, other: NodeKey)
    requires NodeId(nodes, scope, other).Some?
    ensures NodeId(Ensured(nodes, scope, key), scope, other) == NodeId(nodes, scope, other)
  {
    if NodeId(nodes, scope, key) == None { InsertKeepsIds(nodes, scope, NewRow(scope, key, None, None, None), other); }
  }

  // ----- Batches ---------------------------------------------------------------------------

  function UpsertedNodes(nodes: map<nat, Row>, scope: Option<string>, records: seq<GraphNode>): map<nat, Row> {
    if records == [] then nodes
    else UpsertedNode(UpsertedNodes(nodes, scope, records[..|records| - 1]), scope, records[|records| - 1])
  }

  lemma EndsResolve(nodes: map<nat, Row>, scope: Option<string>, edge: GraphEdge)
    ensures NodeId(WithEnds(nodes, scope, edge), scope, edge.src).Some?
    ensures NodeId(WithEnds(nodes, scope, edge), scope, StoredDst(edge)).Some?
  {
    EnsuredResolves(nodes, scope, edge.src);
    EnsuredKeepsIds(Ensured(nodes, scope, edge.src), scope, StoredDst(edge), edge.src);
    EnsuredResolves(Ensured(nodes, scope, edge.src), scope, StoredDst(edge));
  }

  function UpsertedEdge(t: Tables, scope: Option<string>, edge: GraphEdge): Tables {
    var nodes := WithEnds(t.nodes, scope, edge);
    EndsResolve(t.nodes, scope, edge);
    Tables(nodes, t.edges[StoredKey(nodes, scope, edge) := StoredAttrs(edge)])
  }

  function UpsertedEdges(t: Tables, scope: Option<string>, records: seq<GraphEdge>): Tables {
    if records == [] then t
    else UpsertedEdge(UpsertedEdges(t, scope, records[..|records| - 1]), scope, records[|records| - 1])
  }

  /** `upsert_records`: nodes first, then edges. */
  function Upserted(t: Tables, scope: Option<string>, nodes: seq<GraphNode>, edges: seq<GraphEdge>): Tables {
    UpsertedEdges(Tables(UpsertedNodes(t.nodes, scope, nodes), t.edges), scope, edges)
  }

  // ----- What a record leaves in the tables, in terms of its own fields -------------------------

  predicate HasKey(row: Row, kind: string, name: string, path: Option<string>) {
    row.kind == kind && row.name == name && row.path == path
  }

  /** Path-bearing rows other than builtins are only seen by their repository. */
  predicate InReach(row: Row, scope: Option<string>) {
    row.path.Some? && row.kind != "builtin" && scope.Some? ==> row.repo == None || row.repo == scope
  }

  predicate IsStampOf(row: Row, scope: Option<string>) {
    row.repo == if row.path.Some? && row.kind != "builtin" then scope else None
  }

  /** Row `id` now holds the record.  It was there under the record's dependency
      URI or else under its key, or it is new; no other row changed. */
  predicate NodeStored(before: map<nat, Row>, scope: Option<string>, node: GraphNode, after: map<nat, Row>, id: nat) {
    && after.Keys == before.Keys + {id} && (forall j | j in before && j != id :: after[j] == before[j])
    && HasKey(after[id], node.key.kind, node.key.name, node.key.path) && after[id].line == node.line
    && after[id].attrs == (if |node.attrs| == 0 then None else Some(node.attrs)) && after[id].uri == node.uri
    && (id in before ==>
          && before[id].kind == node.key.kind && after[id].repo == before[id].repo
          && (HeldByUri(before[id], node) || (HasKey(before[id], node.key.kind, node.key.name, node.key.path) &&
                                              InReach(before[id], scope))))
    && ((exists j | j in before :: HeldByUri(before[j], node)) ==> id in before && HeldByUri(before[id], node))
    && (id !in before ==>
          && IsStampOf(after[id], scope)
          && forall j | j in before ::
               j < id && !(HasKey(before[j], node.key.kind, node.key.name, node.key.path) && InReach(before[j], scope)))
  }

  predicate HeldByUri(row: Row, node: GraphNode) {
    row.kind == "dependency" && node.key.kind == "dependency" && node.uri.Some? && row.uri == node.uri
  }

  lemma UpsertedIsStored(nodes: map<nat, Row>, scope: Option<string>, node: GraphNode)
    ensures NodeStored(nodes, scope, node, UpsertedNode(nodes, scope, node),
                       Landing(nodes, scope, node).GetOr(Fresh(nodes.Keys)))
  {
    LandsByUri(nodes, scope, node);
    LandsByKey(nodes, scope, node);
    AttrsWritten(node);
    hide Landing;
    hide HeldByUri;
    hide Serialize;
  }

  lemma AttrsWritten(node: GraphNode)
    ensures Serialize(node.attrs) == if |node.attrs| == 0 then None else Some(node.attrs)
  {
    assert |node.attrs| == 0 <==> node.attrs == map[];
  }

  lemma LandsByUri(nodes: map<nat, Row>, scope: Option<string>, node: GraphNode)
    ensures var id := Landing(nodes, scope, node);
            (exists j | j in nodes :: HeldByUri(nodes[j], node)) ==>
              id.Some? && id.value in nodes && HeldByUri(nodes[id.value], node)
  {
    if j :| j in nodes && HeldByUri(nodes[j], node) {
      assert j in UriRows(nodes, node.uri);
    }
  }

  lemma LandsByKey(nodes: map<nat, Row>, scope: Option<string>, node: GraphNode)
    ensures var id := Landing(nodes, scope, node);
            if id.Some? then
              && id.value in nodes && nodes[id.value].kind == node.key.kind
              && (HeldByUri(nodes[id.value], node) ||
                  (HasKey(nodes[id.value], node.key.kind, node.key.name, node.key.path) &&
                   InReach(nodes[id.value], scope)))
            else forall j | j in nodes ::
              !(HasKey(nodes[j], node.key.kind, node.key.name, node.key.path) && InReach(nodes[j], scope))
  {
    forall j | j in nodes
      ensures HasKey(nodes[j], node.key.kind, node.key.name, node.key.path) && InReach(nodes[j], scope) <==>
                j in Candidates(nodes, scope, node.key)
    {
    }
    hide Candidates;
  }

  /** A call or export of a code symbol whose place is not known. */
  predicate NamesSymbol(edge: GraphEdge) {
    && edge.dst.path == None && (edge.kind == "calls" || edge.kind == "exports")
    && edge.dst.kind in {"function", "method", "class", "type"}
  }

  /** The row is the one end of the record's edge. */
  predicate IsEnd(before: map<nat, Row>, scope: Option<string>, after: map<nat, Row>, id: nat,
                  kind: string, name: string, path: Option<string>)
  {
    && id in after && HasKey(after[id], kind, name, path) && InReach(after[id], scope)
    && (id !in before ==>
          && IsStampOf(after[id], scope)
          && after[id].line == None && after[id].attrs == None && after[id].uri == None
          && forall j | j in before :: !(HasKey(before[j], kind, name, path) && InReach(before[j], scope)))
  }

  /** All that the record says, the kind of a symbol, and that a pathless end is
      unresolved, unless the record says otherwise; null if that is nothing. */
  predicate AttrsStored(edge: GraphEdge, attrs: Attrs) {
    var names := edge.attrs.Keys + (if NamesSymbol(edge) then {"symbol_kind"} else {}) +
                 (if edge.dst.path == None then {"resolution"} else {});
    && (attrs.None? <==> edge.attrs.Keys == {} && edge.dst.path.Some?)
    && (attrs.Some? ==>
          && attrs.value.Keys == names && (forall n | n in edge.attrs :: attrs.value[n] == edge.attrs[n])
          && (NamesSymbol(edge) && "symbol_kind" !in edge.attrs ==>
                attrs.value["symbol_kind"] == Text(edge.dst.kind))
          && (edge.dst.path == None && "resolution" !in edge.attrs ==>
                attrs.value["resolution"] == Text("unresolved")))
  }

  /** An edge of the record's kind now runs between its ends, a symbol standing
      for a pathless code destination; no other row or edge came or changed. */
  ghost predicate EdgeStoredAt(before: Tables, scope: Option<string>, edge: GraphEdge, after: Tables, key: EdgeKey) {
    && key.kind == edge.kind
    && IsEnd(before.nodes, scope, after.nodes, key.src, edge.src.kind, edge.src.name, edge.src.path)
    && (if NamesSymbol(edge)
        then IsEnd(before.nodes, scope, after.nodes, key.dst, "unresolved_symbol", edge.dst.name, None)
        else IsEnd(before.nodes, scope, after.nodes, key.dst, edge.dst.kind, edge.dst.name, edge.dst.path))
    && (forall i | i in before.nodes :: i in after.nodes && after.nodes[i] == before.nodes[i])
    && (forall i | i in after.nodes :: i in before.nodes || i == key.src || i == key.dst)
    && (forall k :: k in after.edges <==> k in before.edges || k == key)
    && (forall k | k in before.edges && k != key :: after.edges[k] == before.edges[k])
    && AttrsStored(edge, after.edges[key])
  }

  lemma StoredAttrsSay(edge: GraphEdge)
    ensures AttrsStored(edge, StoredAttrs(edge))
    ensures StoredDst(edge) == if NamesSymbol(edge) then NodeKey("unresolved_symbol", edge.dst.name, None) else edge.dst
  {
    assert edge.attrs.Keys == {} <==> edge.attrs == map[];
    if StoredDst(edge).path == None {
      var kinded := if IsSymbolReference(edge) then WithDefault(edge.attrs, "symbol_kind", edge.dst.kind)
                    else edge.attrs;
      assert "resolution" in WithDefault(kinded, "resolution", "unresolved");
    }
  }

  lemma EnsuredIsEnd(nodes: map<nat, Row>, scope: Option<string>, key: NodeKey)
    ensures var after := Ensured(nodes, scope, key);
            && NodeId(after, scope, key).Some?
            && IsEnd(nodes, scope, after, NodeId(after, scope, key).value, key.kind, key.name, key.path)
            && (forall i | i in nodes :: i in after && after[i] == nodes[i])
            && forall i | i in after :: i in nodes || i == NodeId(after, scope, key).value
  {
    EnsuredResolves(nodes, scope, key);
    var after := Ensured(nodes, scope, key);
    assert NodeId(after, scope, key).value in Candidates(after, scope, key);
    if NodeId(nodes, scope, key) == None {
      InsertResolves(nodes, scope, NewRow(scope, key, None, None, None));
      forall j | j in nodes && HasKey(nodes[j], key.kind, key.name, key.path) ensures !InReach(nodes[j], scope) {
        assert j !in Candidates(nodes, scope, key);
      }
    }
  }

  lemma UpsertedEdgeIsStored(t: Tables, scope: Option<string>, edge: GraphEdge)
    ensures exists key :: EdgeStoredAt(t, scope, edge, UpsertedEdge(t, scope, edge), key)
  {
    var once := Ensured(t.nodes, scope, edge.src);
    EnsuredIsEnd(t.nodes, scope, edge.src);
    EnsuredIsEnd(once, scope, StoredDst(edge));
    EnsuredResolves(once, scope, StoredDst(edge));
    EnsuredKeepsIds(once, scope, StoredDst(edge), edge.src);
    StoredAttrsSay(edge);
    var key := StoredKey(WithEnds(t.nodes, scope, edge), scope, edge);
    hide AttrsStored;
    hide Ensured;
    hide NamesSymbol;
    hide StoredAttrs;
    hide StoredDst;
    assert EdgeStoredAt(t, scope, edge, UpsertedEdge(t, scope, edge), key);
  }

  /** A row that the end-of-pass UPDATE claims: unowned, and owned by some member. */
  predicate Claimable(row: Row) {
    row.repo == None && row.kind != BUILTIN && row.kind != DEPENDENCY
  }

  function StampedRows(nodes: map<nat, Row>, repo: string): map<nat, Row> {
    map i | i in nodes :: if Claimable(nodes[i]) then nodes[i].(repo := Some(repo)) else nodes[i]
  }

  /** The first stamp settles who owns what: no later stamp claims anything. */
  lemma StampSettles(nodes: map<nat, Row>, repo: string, later: string)
    ensures forall i | i in StampedRows(nodes, repo) :: !Claimable(StampedRows(nodes, repo)[i])
    ensures StampedRows(StampedRows(nodes, repo), later) == StampedRows(nodes, repo)
  {
    var once := StampedRows(nodes, repo);
    assert forall i | i in once :: StampedRows(once, later)[i] == once[i];
  }

  /** The connection: two tables and the current repository scope. */
  class GraphDb {
    var nodes: map<nat, Row>
    var edges: map<EdgeKey, Attrs>
    var currentRepo: Option<string>

    ghost function State(): Tables
      reads this
    {
      Tables(nodes, edges)
    }

    constructor ()
      ensures State() == Tables(map[], map[]) && currentRepo == None
    {
      nodes, edges, currentRepo := map[], map[], None;
    }

    /** `set_current_repo`. */
    method SetCurrentRepo(repo: Option<string>)
      modifies this`currentRepo
      ensures currentRepo == repo
    {
      currentRepo := repo;
    }

    /** `_insert_node`. */
    method InsertNode(key: NodeKey, line: Option<int>, attrs: Attrs, uri: Option<string>) returns (id: nat)
      modifies this`nodes
      ensures id == Fresh(old(nodes).Keys)
      ensures nodes == old(nodes)[id := NewRow(currentRepo, key, line, attrs, uri)]
    {
      var repo := if key.path.Some? && key.kind != BUILTIN then currentRepo else None;
      id := Fresh(nodes.Keys);
      nodes := nodes[id := Row(key.kind, key.name, key.path, line, attrs, uri, repo)];
    }

    /** `_upsert_node`. */
    method UpsertNode(node: GraphNode) returns (id: nat)
      modifies this`nodes
      ensures nodes == UpsertedNode(old(nodes), currentRepo, node)
      ensures id == Landing(old(nodes), currentRepo, node).GetOr(Fresh(old(nodes).Keys))
      ensures id in nodes && KeyOf(nodes[id]) == node.key && nodes[id] == Written(nodes[id], node)
      ensures NodeStored(old(nodes), currentRepo, node, nodes, id)
    {
      UpsertedIsStored(nodes, currentRepo, node);
      hide NodeStored;
      var nid := None;
      if node.key.kind == DEPENDENCY {
        nid := DependencyId(nodes, node.uri);
      }
      if nid == None {
        nid := NodeId(nodes, currentRepo, node.key);
      }
      if nid.Some? {
        var row := nodes[nid.value];
        nodes := nodes[nid.value := row.(name := node.key.name, path := node.key.path, line := node.line,
                                         attrs := Serialize(node.attrs), uri := node.uri)];
        return nid.value;
      }
      id := InsertNode(node.key, node.line, Serialize(node.attrs), node.uri);
    }

    /** `_ensure_node`. */
    method EnsureNode(key: NodeKey) returns (id: nat)
      modifies this`nodes
      ensures nodes == Ensured(old(nodes), currentRepo, key)
      ensures NodeId(nodes, currentRepo, key) == Some(id)
    {
      EnsuredResolves(nodes, currentRepo, key);
      var nid := NodeId(nodes, currentRepo, key);
      if nid.Some? {
        return nid.value;
      }
      InsertResolves(nodes, currentRepo, NewRow(currentRepo, key, None, None, None));
      id := InsertNode(key, None, None, None);
    }

    /** `_upsert_edge`. */
    method UpsertEdge(edge: GraphEdge)
      modifies this`nodes, this`edges
      ensures State() == UpsertedEdge(old(State()), currentRepo, edge)
      ensures exists key :: EdgeStoredAt(old(State()), currentRepo, edge, State(), key)
    {
      UpsertedEdgeIsStored(State(), currentRepo, edge);
      hide EdgeStoredAt;
      var src := EnsureNode(edge.src);
      EnsuredKeepsIds(nodes, currentRepo, StoredDst(edge), edge.src);
      var dst := EnsureNode(StoredDst(edge));
      edges := edges[EdgeKey(src, dst, edge.kind) := StoredAttrs(edge)];
    }

    /** `upsert_records`. */
    method UpsertRecords(nodeRecords: seq<GraphNode>, edgeRecords: seq<GraphEdge>)
      modifies this`nodes, this`edges
      ensures State() == Upserted(old(State()), currentRepo, nodeRecords, edgeRecords)
    {
      ghost var start := State();
      for i := 0 to |nodeRecords|
        invariant currentRepo == old(currentRepo) && edges == start.edges
        invariant nodes == UpsertedNodes(start.nodes, currentRepo, nodeRecords[..i])
      {
        assert nodeRecords[..i + 1][..i] == nodeRecords[..i];
        var _ := UpsertNode(nodeRecords[i]);
      }
      assert nodeRecords[..|nodeRecords|] == nodeRecords;
      ghost var mid := State();
      for i := 0 to |edgeRecords|
        invariant currentRepo == old(currentRepo)
        invariant State() == UpsertedEdges(mid, currentRepo, edgeRecords[..i])
      {
        assert edgeRecords[..i + 1][..i] == edgeRecords[..i];
        UpsertEdge(edgeRecords[i]);
      }
      assert edgeRecords[..|edgeRecords|] == edgeRecords;
    }

    /** The stamp that ends a member's pass. */
    method StampRepo(repo: string)
      modifies this`nodes
      ensures nodes.Keys == old(nodes).Keys
      ensures forall i | i in nodes && Claimable(old(nodes)[i]) :: nodes[i] == old(nodes)[i].(repo := Some(repo))
      ensures forall i | i in nodes && !Claimable(old(nodes)[i]) :: nodes[i] == old(nodes)[i]
      ensures nodes == StampedRows(old(nodes), repo)
    {
      var rows := nodes.Keys;
      ghost var before := nodes;
      while rows != {}
        invariant rows <= nodes.Keys == before.Keys
        invariant forall i | i in nodes :: nodes[i] == if i in rows then before[i] else StampedRows(before, repo)[i]
      {
        var i :| i in rows;
        if nodes[i].repo == None && nodes[i].kind !in {BUILTIN, DEPENDENCY} {
          nodes := nodes[i := nodes[i].(repo := Some(repo))];
        }
        rows := rows - {i};
      }
    }
  }
}
