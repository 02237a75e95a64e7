/** Whole sessions on the code graph: batches as the emitters of
    code_graph_io build them, scope switches, stamps and sweeps in any order. */
module Sessions {
  import opened Paths
  import opened Tables
  import opened Upsert
  import opened UpsertLaws
  import opened Uris
  import opened Manifests
  import opened Sweep
  import Reconcile

  /** One thing that happens to the store: an upsert, a scope switch or a stamp;
      the explicit stamp of one dependency; an edge put between rows; rows or
      edges deleted; a sweep. */
  datatype Event =
    | Ran(op: Op)
    | StampedOne(key: ScopedKey)
    | PutEdge(edge: EdgeKey, attrs: Attrs)
    | Deleted
    | SweptUp

  ghost predicate Follows(before: World, event: Event, after: World) {
    match event
    case Ran(op) => after == Step(before, op)
    case StampedOne(key) =>
      after == before.(tables := before.tables.(nodes := Reconcile.StampedDependency(before.tables.nodes, key)))
    case PutEdge(edge, attrs) =>
      after == before.(tables := before.tables.(edges := before.tables.edges[edge := attrs]))
    case Deleted =>
      && after.scope == before.scope && after.tables.Sound()
      && (forall i | i in after.tables.nodes ::
            i in before.tables.nodes && after.tables.nodes[i] == before.tables.nodes[i])
      && (forall e | e in after.tables.edges ::
            e in before.tables.edges && after.tables.edges[e] == before.tables.edges[e])
    case SweptUp => after.scope == before.scope && exists mid :: Swept(before.tables, mid, after.tables)
  }

  /** Minted for the repository whose scope is set, or for any when none is. */
  predicate InScope(scope: Option<string>, ctx: RepoContext) {
    scope == None || scope == Some(RepoUri(ctx))
  }

  predicate KeyFrom(key: NodeKey, ctx: RepoContext, ecosystem: string, name: string) {
    ctx.WellNamed() && Plain(ecosystem) && key.path == Some(DependencyPath(ctx, ecosystem, name))
  }

  ghost predicate MintedKey(scope: Option<string>, key: NodeKey) {
    key.kind == DEPENDENCY ==>
      exists ctx: RepoContext, ecosystem, name :: KeyFrom(key, ctx, ecosystem, name) && InScope(scope, ctx)
  }

  ghost predicate MintedRecord(scope: Option<string>, r: GraphNode) {
    r.key.kind == DEPENDENCY ==>
      exists ctx: RepoContext, ecosystem, name :: MintedFrom(r, ctx, ecosystem, name) && InScope(scope, ctx)
  }

  ghost predicate EmittedEdge(scope: Option<string>, e: GraphEdge) {
    e.src.path.Some? && MintedKey(scope, e.src) && MintedKey(scope, e.dst)
  }

  /** What the emitters build: edges from a node with a path, and dependencies
      named after the repository they are emitted for. */
  ghost predicate Emitted(world: World, event: Event) {
    match event
    case Ran(Batch(nodes, edges)) =>
      (forall r | r in nodes :: MintedRecord(world.scope, r)) && forall e | e in edges :: EmittedEdge(world.scope, e)
    case PutEdge(edge, _) =>
      edge.src in world.tables.nodes && edge.dst in world.tables.nodes && world.tables.nodes[edge.src].path.Some?
    case StampedOne(key) => key.ctx.WellNamed() && Plain(key.ecosystem)
    case _ => true
  }

  predicate RowFrom(row: Row, ctx: RepoContext, ecosystem: string, name: string) {
    && KeyFrom(KeyOf(row), ctx, ecosystem, name)
    && row.uri in {None, Some(DependencyUri(ctx, ecosystem, name))}
    && row.repo in {None, Some(RepoUri(ctx))}
  }

  ghost predicate MintedRow(row: Row) {
    row.kind == DEPENDENCY ==> exists ctx: RepoContext, ecosystem, name :: RowFrom(row, ctx, ecosystem, name)
  }

  /** Every dependency row is named after the repository that owns it. */
  ghost predicate AllMinted(nodes: map<nat, Row>) {
    DependencyUrisDistinct(nodes) && forall i | i in nodes :: MintedRow(nodes[i])
  }

  /** Foreign keys hold, and every edge starts at a row with a path. */
  predicate Shaped(t: Tables) {
    t.Sound() && PlaceholdersAreSinks(t)
  }

  ghost predicate Good(t: Tables) {
    Shaped(t) && AllMinted(t.nodes)
  }

  // ----- Dependency rows stay named after their owners ----------------------------------------

  lemma WrittenMinted(scope: Option<string>, row: Row, r: GraphNode)
    requires MintedRow(row) && MintedRecord(scope, r) && row.kind == r.key.kind
    requires row.kind == DEPENDENCY ==> Hits(r, row) || KeyOf(row) == r.key
    ensures MintedRow(Written(row, r))
  {
    if row.kind == DEPENDENCY {
      var c1: RepoContext, e1, n1 :| RowFrom(row, c1, e1, n1);
      var c2: RepoContext, e2, n2 :| MintedFrom(r, c2, e2, n2) && InScope(scope, c2);
      hide DependencyPath;
      hide DependencyUri;
      hide RepoUri;
      if Hits(r, row) {
        DependencyUriInjective(c1, e1, n1, c2, e2, n2);
      } else {
        DependencyPathInjective(c1, e1, n1, c2, e2, n2);
      }
      assert RowFrom(Written(row, r), c2, e2, n2);
    }
  }

  lemma NewRowMinted(scope: Option<string>, key: NodeKey, line: Option<int>, attrs: Attrs, uri: Option<string>)
    requires key.kind == DEPENDENCY ==> exists ctx: RepoContext, ecosystem, name ::
               KeyFrom(key, ctx, ecosystem, name) && InScope(scope, ctx) &&
               uri in {None, Some(DependencyUri(ctx, ecosystem, name))}
    ensures MintedRow(NewRow(scope, key, line, attrs, uri))
  {
    hide DependencyPath;
    hide DependencyUri;
    hide RepoUri;
    if key.kind == DEPENDENCY {
      var ctx: RepoContext, e, n :| KeyFrom(key, ctx, e, n) && InScope(scope, ctx) &&
          uri in {None, Some(DependencyUri(ctx, e, n))};
      assert RowFrom(NewRow(scope, key, line, attrs, uri), ctx, e, n);
    }
  }

  lemma UpsertMinted(nodes: map<nat, Row>, scope: Option<string>, r: GraphNode)
    requires AllMinted(nodes) && MintedRecord(scope, r)
    ensures AllMinted(UpsertedNode(nodes, scope, r))
  {
    UpsertKeepsUrisDistinct(nodes, scope, r);
    hide MintedRow;
    match Landing(nodes, scope, r) {
      case Some(id) => WrittenMinted(scope, nodes[id], r);
      case None =>
        hide DependencyPath;
        hide DependencyUri;
        if r.key.kind == DEPENDENCY {
          var ctx: RepoContext, e, n :| MintedFrom(r, ctx, e, n) && InScope(scope, ctx);
          assert KeyFrom(r.key, ctx, e, n);
        }
        NewRowMinted(scope, r.key, r.line, Serialize(r.attrs), r.uri);
    }
  }

  lemma {:induction false} UpsertsMinted(nodes: map<nat, Row>, scope: Option<string>, records: seq<GraphNode>)
    requires AllMinted(nodes) && forall r | r in records :: MintedRecord(scope, r)
    ensures AllMinted(UpsertedNodes(nodes, scope, records))
  {
    hide AllMinted;
    hide MintedRecord;
    if records != [] {
      var some := records[..|records| - 1];
      assert forall r | r in some :: r in records;
      UpsertsMinted(nodes, scope, some);
      UpsertMinted(UpsertedNodes(nodes, scope, some), scope, records[|records| - 1]);
    }
  }

  lemma EnsureMinted(nodes: map<nat, Row>, scope: Option<string>, key: NodeKey)
    requires AllMinted(nodes) && MintedKey(scope, key)
    ensures AllMinted(Ensured(nodes, scope, key))
  {
    hide MintedRow;
    NewRowMinted(scope, key, None, None, None);
  }

  lemma {:induction false} EdgesMinted(t: Tables, scope: Option<string>, edges: seq<GraphEdge>)
    requires AllMinted(t.nodes) && forall e | e in edges :: EmittedEdge(scope, e)
    ensures AllMinted(UpsertedEdges(t, scope, edges).nodes)
  {
    hide AllMinted;
    hide MintedKey;
    if edges != [] {
      var some, e := edges[..|edges| - 1], edges[|edges| - 1];
      assert e in edges && forall x | x in some :: x in edges;
      EdgesMinted(t, scope, some);
      var nodes := UpsertedEdges(t, scope, some).nodes;
      EnsureMinted(nodes, scope, e.src);
      StoredDstMinted(scope, e);
      EnsureMinted(Ensured(nodes, scope, e.src), scope, StoredDst(e));
    }
  }

  lemma StoredDstMinted(scope: Option<string>, e: GraphEdge)
    requires MintedKey(scope, e.dst)
    ensures MintedKey(scope, StoredDst(e))
  {
  }

  lemma StampMinted(nodes: map<nat, Row>, key: ScopedKey)
    requires AllMinted(nodes) && key.ctx.WellNamed() && Plain(key.ecosystem)
    ensures AllMinted(Reconcile.StampedDependency(nodes, key))
  {
    var after := Reconcile.StampedDependency(nodes, key);
    hide DependencyPath;
    hide DependencyUri;
    hide RepoUri;
    forall i | i in after ensures MintedRow(after[i]) {
      if nodes[i].kind == DEPENDENCY {
        var c: RepoContext, e, n :| RowFrom(nodes[i], c, e, n);
        if nodes[i].uri == Some(key.Uri()) { DependencyUriInjective(c, e, n, key.ctx, key.ecosystem, key.name); }
        assert RowFrom(after[i], c, e, n);
      }
    }
  }

  lemma StampPassMinted(nodes: map<nat, Row>, repo: string)
    requires AllMinted(nodes)
    ensures AllMinted(StampedRows(nodes, repo))
  {
    var after := StampedRows(nodes, repo);
    assert forall i | i in after && after[i].kind == DEPENDENCY :: after[i] == nodes[i];
  }

  // ----- Edges keep starting at rows with a path ----------------------------------------------

  /** No row goes, and none loses its path. */
  predicate PathsStay(before: map<nat, Row>, after: map<nat, Row>) {
    forall i | i in before :: i in after && (before[i].path.Some? ==> after[i].path.Some?)
  }

  lemma {:induction false} UpsertsKeepPaths(nodes: map<nat, Row>, scope: Option<string>, records: seq<GraphNode>)
    requires forall r | r in records :: MintedRecord(scope, r)
    ensures PathsStay(nodes, UpsertedNodes(nodes, scope, records))
  {
    if records != [] {
      var some, r := records[..|records| - 1], records[|records| - 1];
      assert r in records && forall x | x in some :: x in records;
      UpsertsKeepPaths(nodes, scope, some);
      LandingRow(UpsertedNodes(nodes, scope, some), scope, r);
      assert MintedRecord(scope, r);
    }
  }

  lemma {:induction false} EdgesKeepShape(t: Tables, scope: Option<string>, edges: seq<GraphEdge>)
    requires Shaped(t) && forall e | e in edges :: e.src.path.Some?
    ensures Shaped(UpsertedEdges(t, scope, edges))
  {
    if edges != [] {
      var some, e := edges[..|edges| - 1], edges[|edges| - 1];
      assert e in edges && forall x | x in some :: x in edges;
      EdgesKeepShape(t, scope, some);
      EdgeKeepsShape(UpsertedEdges(t, scope, some), scope, e);
    }
  }

  lemma EdgeKeepsShape(t: Tables, scope: Option<string>, e: GraphEdge)
    requires Shaped(t) && e.src.path.Some?
    ensures Shaped(UpsertedEdge(t, scope, e))
  {
    var nodes := WithEnds(t.nodes, scope, e);
    EndsResolve(t.nodes, scope, e);
    EnsuredResolves(t.nodes, scope, e.src);
    EnsuredResolves(Ensured(t.nodes, scope, e.src), scope, StoredDst(e));
    assert NodeId(nodes, scope, e.src).value in Candidates(nodes, scope, e.src);
    assert NodeId(nodes, scope, StoredDst(e)).value in Candidates(nodes, scope, StoredDst(e));
  }

  lemma PathsKeepShape(t: Tables, nodes: map<nat, Row>)
    requires Shaped(t) && PathsStay(t.nodes, nodes)
    ensures Shaped(Tables(nodes, t.edges))
  {
  }

  /** A sweep leaves edges between rows that stay. */
  lemma SweepKeepsGood(t: Tables, mid: Tables, after: Tables)
    requires Good(t) && Swept(t, mid, after)
    ensures Good(after)
  {
    hide MintedRow;
    forall e | e in mid.edges ensures e.src in t.nodes && e.dst in t.nodes && t.nodes[e.src].path.Some? {
      assert RepointedAt(t, mid.edges, t.edges.Keys, e);
    }
  }

  // ----- Sessions ---------------------------------------------------------------------------------

  lemma BatchKeepsGood(t: Tables, scope: Option<string>, nodes: seq<GraphNode>, edges: seq<GraphEdge>)
    requires Good(t) && Emitted(World(t, scope), Ran(Batch(nodes, edges)))
    ensures Good(Upserted(t, scope, nodes, edges))
  {
    var mid := Tables(UpsertedNodes(t.nodes, scope, nodes), t.edges);
    UpsertsMinted(t.nodes, scope, nodes);
    UpsertsKeepPaths(t.nodes, scope, nodes);
    hide AllMinted;
    PathsKeepShape(t, mid.nodes);
    assert forall e | e in edges :: EmittedEdge(scope, e);
    EdgesMinted(mid, scope, edges);
    EdgesKeepShape(mid, scope, edges);
  }

  lemma EventKeepsGood(before: World, event: Event, after: World)
    requires Good(before.tables) && Emitted(before, event) && Follows(before, event, after)
    ensures Good(after.tables)
  {
    match event {
      case Ran(Batch(nodes, edges)) => BatchKeepsGood(before.tables, before.scope, nodes, edges);
      case Ran(SwitchRepo(_)) =>
      case Ran(StampPass(repo)) =>
        StampPassMinted(before.tables.nodes, repo);
        hide AllMinted;
        PathsKeepShape(before.tables, StampedRows(before.tables.nodes, repo));
      case StampedOne(key) =>
        StampMinted(before.tables.nodes, key);
        hide AllMinted;
        PathsKeepShape(before.tables, Reconcile.StampedDependency(before.tables.nodes, key));
      case PutEdge(_, _) =>
      case Deleted =>
      case SweptUp =>
        var mid :| Swept(before.tables, mid, after.tables);
        SweepKeepsGood(before.tables, mid, after.tables);
    }
  }

  /** The worlds a session goes through, event by event. */
  ghost predicate IsSession(worlds: seq<World>, events: seq<Event>) {
    |worlds| == |events| + 1 &&
    forall i | 0 <= i < |events| ::
      Emitted(worlds[i], events[i]) && Follows(worlds[i], events[i], worlds[i + 1])
  }

  lemma {:induction false} SessionKeepsGood(worlds: seq<World>, events: seq<Event>, i: nat)
    requires IsSession(worlds, events) && Good(worlds[0].tables) && i < |worlds|
    ensures Good(worlds[i].tables)
  {
    hide Good;
    hide Emitted;
    hide Follows;
    if i > 0 {
      SessionKeepsGood(worlds, events, i - 1);
      EventKeepsGood(worlds[i - 1], events[i - 1], worlds[i]);
    }
  }

  /** In every session from a good store, an empty one to begin with, edges stay
      sound and start at rows with a path, so no sweep strands a placeholder. */
  lemma SessionStrandsNothing(worlds: seq<World>, events: seq<Event>, i: nat)
    requires IsSession(worlds, events) && Good(worlds[0].tables) && i < |worlds|
    ensures Shaped(worlds[i].tables) && forall p :: !Stranded(worlds[i].tables, p)
  {
    SessionKeepsGood(worlds, events, i);
    SinksAreNotStranded(worlds[i].tables);
  }

  /** So in every such session a second sweep right after a first changes nothing. */
  lemma SessionSweepsOnce(worlds: seq<World>, events: seq<Event>, i: nat)
    requires IsSession(worlds, events) && Good(worlds[0].tables) && i + 1 < |events|
    requires events[i] == events[i + 1] == SweptUp
    ensures worlds[i + 2] == worlds[i + 1]
  {
    SessionStrandsNothing(worlds, events, i);
    assert Follows(worlds[i], SweptUp, worlds[i + 1]) && Follows(worlds[i + 1], SweptUp, worlds[i + 2]);
    var mid :| Swept(worlds[i].tables, mid, worlds[i + 1].tables);
    var mid2 :| Swept(worlds[i + 1].tables, mid2, worlds[i + 2].tables);
    SweepTwice(worlds[i].tables, mid, worlds[i + 1].tables, mid2, worlds[i + 2].tables);
  }

  lemma EmptyIsGood()
    ensures Good(Tables(map[], map[]))
  {
  }

  /** Dependency records minted for one repository spare those of every other. */
  lemma MintedSpares(nodes: map<nat, Row>, scope: Option<string>, records: seq<GraphNode>)
    requires AllMinted(nodes) && forall r | r in records :: MintedRecord(scope, r)
    ensures Spares(nodes, scope, records)
  {
    forall i, r | i in nodes && r in records && Foreign(nodes[i], scope) ensures !Hits(r, nodes[i]) {
      if Hits(r, nodes[i]) {
        assert MintedRow(nodes[i]) && MintedRecord(scope, r);
        var c1: RepoContext, e1, n1 :| RowFrom(nodes[i], c1, e1, n1);
        var c2: RepoContext, e2, n2 :| MintedFrom(r, c2, e2, n2) && InScope(scope, c2);
        hide DependencyPath;
        hide DependencyUri;
        DependencyUriInjective(c1, e1, n1, c2, e2, n2);
      }
    }
  }

  /** In every such session, a batch alters no path-bearing row, dependency rows
      included, that another repository than the one in scope owns. */
  lemma SessionKeepsForeign(worlds: seq<World>, events: seq<Event>, i: nat)
    requires IsSession(worlds, events) && Good(worlds[0].tables) && i < |events| && events[i].Ran? &&
               events[i].op.Batch?
    ensures ForeignKept(worlds[i].tables.nodes, worlds[i + 1].tables.nodes, worlds[i].scope)
  {
    SessionKeepsGood(worlds, events, i);
    var op, before := events[i].op, worlds[i];
    MintedSpares(before.tables.nodes, before.scope, op.nodes);
    BatchKeepsForeign(before.tables, before.scope, op.nodes, op.edges);
  }
}
