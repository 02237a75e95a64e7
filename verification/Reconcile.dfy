/** Dependency reconciliation (code_graph_io/dependencies.py): dependency rows and
    their edges are rebuilt from the manifest inventory, and a persisted ownership
    record says which of them the reconciler may delete next time. */
module Reconcile {
  import opened Paths
  import opened Tables
  import opened Upsert
  import opened Uris
  import opened Manifests

  /** An edge named by URIs, as the ownership record stores it. */
  datatype Identity = Identity(src: string, kind: string, dst: string)

  /** The edges these inputs call for: consumers use their dependency; a
      dependency is implemented by the matching packages; and, composed, a package
      consumer depends on those packages. */
  function OwnedIdentities(inputs: Inputs): set<Identity> {
    (set d | d in Declarations(inputs) :: Identity(d.consumer, "used_by", d.key.Uri())) +
    (set d, p | d in Declarations(inputs) && p in ImplementedBy(inputs, d.key) ::
        Identity(d.key.Uri(), "implemented_by", p)) +
    (set d, p | d in Declarations(inputs) && d.isPackage && p in ImplementedBy(inputs, d.key) ::
       Identity(d.consumer, "depends_on_package", p))
  }

  function OwnedUris(inputs: Inputs): set<string> {
    set k | k in Keys(inputs) :: k.Uri()
  }

  // ----- What the store holds, split into foreign and owned -----------------------------------

  predicate UniqueUris(nodes: map<nat, Row>) {
    forall i, j | i in nodes && j in nodes && nodes[i].uri.Some? && nodes[i].uri == nodes[j].uri :: i == j
  }

  predicate Names(nodes: map<nat, Row>, e: EdgeKey, id: Identity) {
    && e.kind == id.kind && e.src in nodes && e.dst in nodes
    && nodes[e.src].uri == Some(id.src) && nodes[e.dst].uri == Some(id.dst)
  }

  predicate NamedBySome(nodes: map<nat, Row>, ids: set<Identity>, e: EdgeKey) {
    exists id | id in ids :: Names(nodes, e, id)
  }

  /** Tables plus the persisted ownership record. */
  datatype Ledger = Ledger(tables: Tables, uris: set<string>, edges: set<Identity>) {
    predicate OwnsRow(i: nat) {
      i in tables.nodes && tables.nodes[i].kind == DEPENDENCY &&
      tables.nodes[i].uri.Some? && tables.nodes[i].uri.value in uris
    }

    predicate OwnsEdge(e: EdgeKey) {
      NamedBySome(tables.nodes, edges, e)
    }

    /** Everything the reconciler did not record. */
    function Base(): Tables {
      Tables(map i | i in tables.nodes && !OwnsRow(i) :: tables.nodes[i],
             map e | e in tables.edges && !OwnsEdge(e) :: tables.edges[e])
    }

    /** The record is intact, URIs are unique, and no foreign edge touches an
        owned dependency row. */
    ghost predicate Intact() {
      && UniqueUris(tables.nodes) && tables.Sound() && Base().Sound()
      && forall i | OwnsRow(i) :: IsDependencyRow(tables.nodes[i])
    }
  }

  ghost predicate IsDependencyRow(row: Row) {
    exists k: ScopedKey :: RowNames(row, k)
  }

  predicate RowNames(row: Row, k: ScopedKey) {
    k.WellNamed() && row.uri == Some(k.Uri()) && KeyOf(row) == k.Key()
  }

  /** No foreign row or edge takes the place of one the inputs call for. */
  predicate Clear(base: Tables, inputs: Inputs) {
    && ClearRows(base.nodes, inputs)
    && (forall e | e in base.edges :: !NamedBySome(base.nodes, OwnedIdentities(inputs), e))
  }

  predicate ClearRows(base: map<nat, Row>, inputs: Inputs) {
    forall k | k in Keys(inputs) :: ClearFor(base, k)
  }

  predicate ClearFor(base: map<nat, Row>, k: ScopedKey) {
    forall i | i in base :: ClearOf(base[i], k)
  }

  predicate ClearOf(row: Row, k: ScopedKey) {
    row.uri != Some(k.Uri()) && KeyOf(row) != k.Key()
  }

  predicate HasUri(nodes: map<nat, Row>, uri: string) {
    exists i | i in nodes :: nodes[i].uri == Some(uri)
  }

  /** Every consumer and implementation the inputs mention is a row. */
  predicate EndpointsPresent(base: Tables, inputs: Inputs) {
    && (forall d | d in Declarations(inputs) :: HasUri(base.nodes, d.consumer))
    && (forall d | d in Declarations(inputs) :: forall p | p in ImplementedBy(inputs, d.key) :: HasUri(base.nodes, p))
  }

  predicate IsRowOf(base: map<nat, Row>, nodes: map<nat, Row>, inputs: Inputs, k: ScopedKey, i: nat) {
    i in nodes && i !in base && nodes[i] == DependencyRow(inputs, k)
  }

  /** Every declared dependency has its row above `base`. */
  ghost predicate AllPresent(base: map<nat, Row>, nodes: map<nat, Row>, inputs: Inputs) {
    forall k | k in Keys(inputs) :: exists i :: IsRowOf(base, nodes, inputs, k, i)
  }

  ghost predicate IsDeclaredRow(inputs: Inputs, row: Row) {
    exists k :: k in Keys(inputs) && row == DependencyRow(inputs, k)
  }

  /** Every row above `base` is a declared dependency's, or is as in `start`. */
  ghost predicate DeclaredOrKept(base: map<nat, Row>, start: map<nat, Row>, nodes: map<nat, Row>, inputs: Inputs) {
    forall i | i in nodes && i !in base :: IsDeclaredRow(inputs, nodes[i]) || (i in start && nodes[i] == start[i])
  }

  /** The rows besides `base` are exactly one per declared dependency. */
  ghost predicate CanonicalRows(base: map<nat, Row>, inputs: Inputs, nodes: map<nat, Row>) {
    && AllPresent(base, nodes, inputs) && DeclaredOrKept(base, map[], nodes, inputs) && UniqueUris(nodes)
  }

  /** The edges besides `base` are exactly one, without attributes, per identity. */
  predicate CanonicalEdges(base: map<EdgeKey, Attrs>, ids: set<Identity>, t: Tables) {
    && (forall id | id in ids :: exists e :: e in t.edges && e !in base && Names(t.nodes, e, id))
    && (forall e | e in t.edges && e !in base :: t.edges[e] == None && exists id :: id in ids && Names(t.nodes, e, id))
  }

  /** The store that holds `base` and, besides it, exactly what `inputs` call
      for: the canonical result of a reconciliation, up to dependency row ids. */
  ghost predicate Canonical(base: Tables, inputs: Inputs, s: Ledger) {
    && s.Base() == base && s.uris == OwnedUris(inputs) && s.edges == OwnedIdentities(inputs)
    && CanonicalRows(base.nodes, inputs, s.tables.nodes)
    && CanonicalEdges(base.edges, OwnedIdentities(inputs), s.tables)
  }

  // ----- Keys, URIs and paths name each other ---------------------------------------------------

  lemma OneUri(k1: ScopedKey, k2: ScopedKey)
    requires k1.WellNamed() && k2.WellNamed() && k1.Uri() == k2.Uri()
    ensures k1 == k2
  {
    DependencyUriInjective(k1.ctx, k1.ecosystem, k1.name, k2.ctx, k2.ecosystem, k2.name);
  }

  lemma OnePath(k1: ScopedKey, k2: ScopedKey)
    requires k1.WellNamed() && k2.WellNamed() && k1.Key() == k2.Key()
    ensures k1 == k2
  {
    DependencyPathInjective(k1.ctx, k1.ecosystem, k1.name, k2.ctx, k2.ecosystem, k2.name);
  }

  lemma ConsumersArePackagesOrRepositories(inputs: Inputs, d: Declaration)
    requires d in Declarations(inputs)
    ensures (exists c, n :: d.consumer == PkgUri(c, n)) || (exists c :: d.consumer == RepoUri(c))
  {
    ManifestConsumers(inputs.manifests, d);
    VirtualConsumers(inputs.virtuals, d);
  }

  lemma {:induction false} ManifestConsumers(ms: seq<ManifestPackage>, d: Declaration)
    ensures d in ByManifests(ms) ==> exists c, n :: d.consumer == PkgUri(c, n)
  {
    if ms != [] { ManifestConsumers(ms[..|ms| - 1], d); }
  }

  lemma {:induction false} VirtualConsumers(vs: seq<(RepoContext, seq<ManifestDependency>)>, d: Declaration)
    ensures d in ByVirtuals(vs) ==> exists c :: d.consumer == RepoUri(c)
  {
    if vs != [] { VirtualConsumers(vs[..|vs| - 1], d); }
  }

  /** The ends of owned edges that are not dependencies are never dependency URIs. */
  lemma EndsApart(inputs: Inputs, d: Declaration, k: ScopedKey)
    requires d in Declarations(inputs)
    ensures d.consumer != k.Uri()
    ensures forall p | p in ImplementedBy(inputs, d.key) :: p != k.Uri()
  {
    ConsumersArePackagesOrRepositories(inputs, d);
    if c, n :| d.consumer == PkgUri(c, n) { DependencyUriApart(k.ctx, k.ecosystem, k.name, c, n); }
    if c :| d.consumer == RepoUri(c) { DependencyUriApart(k.ctx, k.ecosystem, k.name, c, ""); }
    forall p | p in ImplementedBy(inputs, d.key) ensures p != k.Uri() {
      var m :| m in inputs.manifests && p == PkgUri(m.repo, m.name);
      DependencyUriApart(k.ctx, k.ecosystem, k.name, m.repo, m.name);
    }
  }

  // ----- Rows: foreign below, dependencies on top -------------------------------------------------

  /** The rows are those of `base` and dependency rows, with unique URIs. */
  ghost predicate Layered(base: map<nat, Row>, nodes: map<nat, Row>) {
    && (forall i | i in base :: i in nodes && nodes[i] == base[i])
    && (forall i | i in nodes && i !in base :: IsDependencyRow(nodes[i]))
    && UniqueUris(nodes)
  }

  /** Row `i` is the dependency's, all but the repository column. */
  predicate Holds(base: map<nat, Row>, nodes: map<nat, Row>, inputs: Inputs, k: ScopedKey, i: nat) {
    i in nodes && i !in base && nodes[i].(repo := Some(RepoUri(k.ctx))) == DependencyRow(inputs, k)
  }

  lemma HeldNames(inputs: Inputs, k: ScopedKey, row: Row)
    requires k.WellNamed() && row.(repo := Some(RepoUri(k.ctx))) == DependencyRow(inputs, k)
    ensures RowNames(row, k)
  {
    assert row.uri == DependencyRow(inputs, k).uri && row.kind == DEPENDENCY;
  }

  lemma NamedKind(row: Row, k: ScopedKey)
    requires RowNames(row, k)
    ensures row.kind == DEPENDENCY
  {
    assert KeyOf(row).kind == k.Key().kind;
  }

  /** Where a dependency record lands among layered rows: on the dependency's own
      row, or nowhere. */
  lemma DependencyLanding(base: map<nat, Row>, nodes: map<nat, Row>, inputs: Inputs, k: ScopedKey)
    requires Layered(base, nodes) && k.WellNamed() && ClearFor(base, k)
    ensures var id := Landing(nodes, None, DependencyRecord(inputs, k));
            if id.Some? then id.value in nodes && id.value !in base && RowNames(nodes[id.value], k)
            else forall i | i in nodes :: nodes[i].uri != Some(k.Uri())
  {
    hide ScopedKey.Uri;
    hide ScopedKey.Key;
    forall i | i in base ensures i in nodes && nodes[i].uri != Some(k.Uri()) && KeyOf(nodes[i]) != k.Key() {
      assert ClearOf(base[i], k);
    }
    forall i | i in nodes && (nodes[i].uri == Some(k.Uri()) || KeyOf(nodes[i]) == k.Key())
      ensures i !in base && RowNames(nodes[i], k) && nodes[i].kind == DEPENDENCY
    {
      var k2 :| RowNames(nodes[i], k2);
      if nodes[i].uri == Some(k.Uri()) { OneUri(k, k2); } else { OnePath(k, k2); }
      NamedKind(nodes[i], k);
    }
    LandingFacts(nodes, inputs, k);
  }

  lemma LandingFacts(nodes: map<nat, Row>, inputs: Inputs, k: ScopedKey)
    ensures var id := Landing(nodes, None, DependencyRecord(inputs, k));
            && (id.Some? ==> id.value in nodes)
            && (id.Some? ==> nodes[id.value].uri == Some(k.Uri()) || KeyOf(nodes[id.value]) == k.Key())
            && (id.None? ==> forall i | i in nodes && nodes[i].kind == DEPENDENCY :: nodes[i].uri != Some(k.Uri()))
  {
    var record := DependencyRecord(inputs, k);
    if Landing(nodes, None, record).None? {
      assert DependencyId(nodes, record.uri) == None && UriRows(nodes, record.uri) == {};
      forall i | i in nodes && nodes[i].kind == DEPENDENCY ensures nodes[i].uri != Some(k.Uri()) {
        assert i !in UriRows(nodes, record.uri);
      }
    }
  }

  /** `after` is `nodes` with row `i` written, and `i` is now dependency `k`'s. */
  ghost predicate Gains(base: map<nat, Row>, nodes: map<nat, Row>, after: map<nat, Row>, inputs: Inputs, k: ScopedKey,
                        i: nat)
  {
    && Layered(base, after) && Holds(base, after, inputs, k, i)
    && after.Keys == nodes.Keys + {i} && (forall j | j in nodes && j != i :: after[j] == nodes[j])
    && (i in nodes ==> nodes[i].uri == Some(k.Uri()))
  }

  lemma LayeredWrite(base: map<nat, Row>, nodes: map<nat, Row>, k: ScopedKey, i: nat, row: Row)
    requires Layered(base, nodes) && i !in base && RowNames(row, k)
    requires forall j | j in nodes && j != i :: nodes[j].uri != row.uri
    ensures Layered(base, nodes[i := row])
  {
    hide ScopedKey.Uri;
    hide ScopedKey.Key;
    var after := nodes[i := row];
    assert IsDependencyRow(row);
    forall j, h | j in after && h in after && after[j].uri.Some? && after[j].uri == after[h].uri ensures j == h {
    }
  }

  /** Upserting one declared dependency: it gets a row of its own, and every other
      row stays as it was. */
  lemma UpsertDependency(base: map<nat, Row>, nodes: map<nat, Row>, inputs: Inputs, k: ScopedKey) returns (i: nat)
    requires Layered(base, nodes) && k.WellNamed() && ClearFor(base, k)
    ensures Gains(base, nodes, UpsertedNode(nodes, None, DependencyRecord(inputs, k)), inputs, k, i)
  {
    hide ClearFor;
    hide DependencyRecord;
    hide Landing;
    hide ScopedKey.Uri;
    hide ScopedKey.Key;
    DependencyLanding(base, nodes, inputs, k);
    var record := DependencyRecord(inputs, k);
    RecordColumns(inputs, k);
    var after := UpsertedNode(nodes, None, record);
    match Landing(nodes, None, record) {
      case Some(id) =>
        i := id;
        NamedKind(nodes[i], k);
      case None =>
        i := Fresh(nodes.Keys);
    }
    HoldsAfter(base, nodes, after, inputs, k, i);
    HeldNames(inputs, k, after[i]);
    LayeredWrite(base, nodes, k, i, after[i]);
    assert after == nodes[i := after[i]];
  }

  lemma RecordColumns(inputs: Inputs, k: ScopedKey)
    ensures var r := DependencyRecord(inputs, k); r.key == k.Key() && r.line == None && r.uri == Some(k.Uri())
  {
  }

  lemma HoldsAfter(base: map<nat, Row>, nodes: map<nat, Row>, after: map<nat, Row>, inputs: Inputs, k: ScopedKey,
                   i: nat)
    requires forall j | j in base :: j in nodes
    requires var record := DependencyRecord(inputs, k);
             if i in nodes then nodes[i].kind == DEPENDENCY && i !in base &&
                 after == nodes[i := Written(nodes[i], record)]
             else after == nodes[i := NewRow(None, record.key, None, Serialize(record.attrs), record.uri)]
    ensures Holds(base, after, inputs, k, i) && after[i].uri == Some(k.Uri())
  {
    hide DependencyPath;
    hide DependencyUri;
    hide Versions;
    hide RegistryUrl;
  }

  function StampedDependency(nodes: map<nat, Row>, k: ScopedKey): map<nat, Row> {
    map i | i in nodes ::
      if nodes[i].kind == DEPENDENCY && nodes[i].uri == Some(k.Uri())
      then nodes[i].(repo := Some(RepoUri(k.ctx))) else nodes[i]
  }

  /** The explicit repository stamp completes the dependency's row. */
  lemma StampDependency(base: map<nat, Row>, nodes: map<nat, Row>, inputs: Inputs, k: ScopedKey, i: nat)
    requires Layered(base, nodes) && k.WellNamed() && Holds(base, nodes, inputs, k, i)
    ensures StampedDependency(nodes, k) == nodes[i := DependencyRow(inputs, k)]
    ensures Layered(base, StampedDependency(nodes, k))
  {
    hide DependencyRow;
    hide ScopedKey.Uri;
    hide ScopedKey.Key;
    HeldNames(inputs, k, nodes[i]);
    NamedKind(nodes[i], k);
    var row := DependencyRow(inputs, k);
    HeldNames(inputs, k, row) by { RowIsStamped(inputs, k); }
    assert nodes[i].uri == Some(k.Uri());
    forall j | j in nodes && j != i ensures nodes[j].uri != Some(k.Uri()) {
    }
    assert StampedDependency(nodes, k) == nodes[i := row];
    LayeredWrite(base, nodes, k, i, row);
  }

  lemma RowIsStamped(inputs: Inputs, k: ScopedKey)
    ensures var row := DependencyRow(inputs, k); row.(repo := Some(RepoUri(k.ctx))) == row
  {
  }

  // ----- The phases ----------------------------------------------------------------------------------

  function UriIds(nodes: map<nat, Row>, uri: string): set<nat> {
    set i | i in nodes && nodes[i].uri == Some(uri)
  }

  lemma UniqueId(nodes: map<nat, Row>, uri: string, i: nat)
    requires UniqueUris(nodes) && i in nodes && nodes[i].uri == Some(uri)
    ensures Least(UriIds(nodes, uri)) == Some(i)
  {
    assert i in UriIds(nodes, uri);
  }

  datatype Outcome = Done | UnsupportedEcosystem | MissingEndpoint

  /** The connection and the persisted ownership record. */
  class Store {
    var nodes: map<nat, Row>
    var edges: map<EdgeKey, Attrs>
    var ownedUris: set<string>
    var ownedEdges: set<Identity>

    ghost function State(): Ledger
      reads this
    {
      Ledger(Tables(nodes, edges), ownedUris, ownedEdges)
    }

    constructor (nodes: map<nat, Row>, edges: map<EdgeKey, Attrs>, ownedUris: set<string>, ownedEdges: set<Identity>)
      ensures State() == Ledger(Tables(nodes, edges), ownedUris, ownedEdges)
    {
      this.nodes, this.edges, this.ownedUris, this.ownedEdges := nodes, edges, ownedUris, ownedEdges;
    }

    /** `_delete_owned_edges`. */
    method DeleteOwnedEdges(identities: set<Identity>)
      requires UniqueUris(nodes)
      modifies this`edges
      ensures edges == map e | e in old(edges) && !NamedBySome(nodes, identities, e) :: old(edges)[e]
    {
      var rest := identities;
      while rest != {}
        invariant rest <= identities
        invariant forall e :: e in edges <==>
                    e in old(edges) && forall id | id in identities - rest :: !Names(nodes, e, id)
        invariant forall e | e in edges :: edges[e] == old(edges)[e]
      {
        var id :| id in rest;
        var src, dst := Least(UriIds(nodes, id.src)), Least(UriIds(nodes, id.dst));
        forall e: EdgeKey
          ensures Names(nodes, e, id) <==> src == Some(e.src) && dst == Some(e.dst) && e.kind == id.kind
        {
          if Names(nodes, e, id) {
            UniqueId(nodes, id.src, e.src);
            UniqueId(nodes, id.dst, e.dst);
          }
        }
        if src.Some? && dst.Some? {
          edges := edges - {EdgeKey(src.value, dst.value, id.kind)};
        }
        assert identities - (rest - {id}) == (identities - rest) + {id};
        rest := rest - {id};
      }
    }

    /** Upserts every declared dependency outside any repository scope. */
    method UpsertEach(versions: map<ScopedKey, set<string>>, ghost inputs: Inputs, ghost base: map<nat, Row>)
      returns (ghost home: map<ScopedKey, nat>)
      requires Layered(base, nodes) && WellNamedInputs(inputs) && ClearRows(base, inputs)
      requires Tallies(versions, Declarations(inputs))
      modifies this`nodes
      ensures Housed(base, old(nodes), nodes, inputs, home, {}) && home.Keys == Keys(inputs)
    {
      RecordKeys(versions, inputs);
      hide *;
      var rest := versions.Keys;
      home := map[];
      HousedStart(base, nodes, inputs);
      ghost var done: set<ScopedKey> := {};
      while rest != {}
        invariant home.Keys == done && done !! rest && done + rest == Keys(inputs)
        invariant Housed(base, old(nodes), nodes, inputs, home, {})
      {
        var k :| k in rest;
        Moved(done, rest, k);
        OneOf(done, rest, k);
        home := UpsertDeclared(k, versions, inputs, base, old(nodes), home);
        done, rest := done + {k}, rest - {k};
      }
    }

    method UpsertDeclared(k: ScopedKey, versions: map<ScopedKey, set<string>>, ghost inputs: Inputs,
                          ghost base: map<nat, Row>, ghost start: map<nat, Row>, ghost home: map<ScopedKey, nat>)
      returns (ghost home': map<ScopedKey, nat>)
      requires Housed(base, start, nodes, inputs, home, {}) && k in Keys(inputs) && k !in home
      requires WellNamedInputs(inputs) && ClearRows(base, inputs) && Tallies(versions, Declarations(inputs))
      modifies this`nodes
      ensures Housed(base, start, nodes, inputs, home', {}) && home'.Keys == home.Keys + {k}
    {
      hide *;
      ghost var i := HouseOne(base, start, nodes, inputs, home, k);
      RecordIs(versions, inputs, k);
      nodes := UpsertedNode(nodes, None, RecordIn(versions, k));
      home' := home[k := i];
    }

    /** The dependency rows: upsert every declared one outside any repository
        scope, then stamp each with its own repository. */
    method UpsertDependencies(versions: map<ScopedKey, set<string>>, ghost inputs: Inputs, ghost base: map<nat, Row>)
      requires Layered(base, nodes) && WellNamedInputs(inputs) && ClearRows(base, inputs)
      requires Tallies(versions, Declarations(inputs))
      modifies this`nodes
      ensures Layered(base, nodes) && AllPresent(base, nodes, inputs) && DeclaredOrKept(base, old(nodes), nodes, inputs)
    {
      RecordKeys(versions, inputs);
      hide *;
      ghost var start := nodes;
      ghost var home := UpsertEach(versions, inputs, base);
      StampEach(versions.Keys, inputs, base, start, home);
      HousedEnd(base, start, nodes, inputs, home);
    }

    method StampEach(keys: set<ScopedKey>, ghost inputs: Inputs, ghost base: map<nat, Row>, ghost start: map<nat, Row>,
                     ghost home: map<ScopedKey, nat>)
      requires Housed(base, start, nodes, inputs, home, {}) && home.Keys == keys
      modifies this`nodes
      ensures Housed(base, start, nodes, inputs, home, keys)
    {
      hide *;
      var rest := keys;
      ghost var stamped: set<ScopedKey> := {};
      while rest != {}
        invariant rest <= keys && stamped + rest == keys && Housed(base, start, nodes, inputs, home, stamped)
      {
        var k :| k in rest;
        StampOne(base, start, nodes, inputs, home, stamped, k);
        nodes := StampedDependency(nodes, k);
        Moved(stamped, rest, k);
        stamped, rest := stamped + {k}, rest - {k};
      }
    }

    /** `_insert_uri_edge`: fails if an end is missing; an edge already there loses
        its attributes. */
    method InsertUriEdge(id: Identity) returns (ok: bool)
      requires UniqueUris(nodes)
      modifies this`edges
      ensures ok <==> HasUri(nodes, id.src) && HasUri(nodes, id.dst)
      ensures if ok then Inserted(nodes, old(edges), id, edges) else edges == old(edges)
    {
      var src, dst := Least(UriIds(nodes, id.src)), Least(UriIds(nodes, id.dst));
      NoRow(nodes, id.src);
      NoRow(nodes, id.dst);
      if src == None || dst == None {
        return false;
      }
      var key := EdgeKey(src.value, dst.value, id.kind);
      NamesOne(nodes, id, key);
      assert Names(nodes, key, id);
      edges := edges[key := None];
      return true;
    }

    /** The edges of one kind from one end to each package of a bucket. */
    method LinkPackages(from: string, kind: string, packages: seq<string>, recorded: set<Identity>, ghost base: Tables,
                        ghost wanted: set<Identity>)
      returns (ok: bool, identities: set<Identity>)
      requires UniqueUris(nodes) && EdgesAdded(base.edges, recorded, Tables(nodes, edges))
      requires FreeOf(base, nodes, wanted) && Links(from, kind, packages) <= wanted
      modifies this`edges
      ensures identities <= recorded + Links(from, kind, packages)
      ensures ok <==> EndsExist(nodes, Links(from, kind, packages))
      ensures ok ==> identities == recorded + Links(from, kind, packages)
      ensures ok ==> EdgesAdded(base.edges, identities, Tables(nodes, edges))
    {
      identities := recorded;
      LinksNone(from, kind);
      hide *;
      for i := 0 to |packages|
        invariant identities == recorded + Links(from, kind, packages[..i])
        invariant EdgesAdded(base.edges, identities, Tables(nodes, edges))
        invariant EndsExist(nodes, Links(from, kind, packages[..i]))
      {
        var id := Identity(from, kind, packages[i]);
        LinksOne(from, kind, packages, i);
        LinkIsFree(base, nodes, wanted, id);
        EndsOne(nodes, Links(from, kind, packages), Links(from, kind, packages[..i]), id);
        ghost var before := edges;
        ok := InsertUriEdge(id);
        if !ok {
          return;
        }
        AddEdge(base.edges, identities, nodes, before, id, edges);
        identities := identities + {id};
      }
      assert packages[..|packages|] == packages;
      ok := true;
    }

    /** The two edge loops: implementations of every declared key, then the uses,
        declaration by declaration. */
    method InsertOwnedEdges(g: Gatherer, ghost inputs: Inputs, ghost base: Tables)
      returns (ok: bool, identities: set<Identity>)
      requires g.declarations == Declarations(inputs) && Tallies(g.versions, g.declarations)
      requires ListsAll(g.implementations, inputs.manifests)
      requires UniqueUris(nodes) && edges == base.edges && FreeOf(base, nodes, OwnedIdentities(inputs))
      modifies this`edges
      ensures ok <==> EndsExist(nodes, OwnedIdentities(inputs))
      ensures ok ==> identities == OwnedIdentities(inputs) && EdgesAdded(base.edges, identities, Tables(nodes, edges))
    {
      RecordKeys(g.versions, inputs);
      NothingLinked(base, nodes, inputs);
      ok, identities := LinkImplementations(g.versions.Keys, g.implementations, inputs, base);
      if ok {
        ok, identities := LinkUses(g.declarations, g.implementations, identities, inputs, base);
        AllUsesLinked(inputs);
      }
    }

    method LinkImplementations(keys: set<ScopedKey>, implementations: map<(string, string), seq<string>>,
                               ghost inputs: Inputs, ghost base: Tables)
      returns (ok: bool, identities: set<Identity>)
      requires keys == Keys(inputs) && ListsAll(implementations, inputs.manifests)
      requires UniqueUris(nodes) && EdgesAdded(base.edges, {}, Tables(nodes, edges)) &&
                 FreeOf(base, nodes, OwnedIdentities(inputs))
      modifies this`edges
      ensures !ok ==> !EndsExist(nodes, OwnedIdentities(inputs))
      ensures ok ==> identities == ImplementedLinks(inputs, Keys(inputs)) && EndsExist(nodes, identities)
                     && EdgesAdded(base.edges, identities, Tables(nodes, edges))
    {
      identities := {};
      NothingLinked(base, nodes, inputs);
      hide *;
      var rest := keys;
      assert keys - rest == {};
      while rest != {}
        invariant rest <= keys && identities == ImplementedLinks(inputs, keys - rest)
        invariant EdgesAdded(base.edges, identities, Tables(nodes, edges))
        invariant EndsExist(nodes, identities)
      {
        var key :| key in rest;
        KeyLinks(inputs, implementations, rest, key);
        var packages := Bucket(implementations, key.ecosystem, key.name);
        ghost var before := identities;
        ok, identities := LinkPackages(key.Uri(), "implemented_by", packages, identities, base,
            OwnedIdentities(inputs));
        EndsUnion(nodes, before, Links(key.Uri(), "implemented_by", packages), OwnedIdentities(inputs));
        if !ok {
          return;
        }
        rest := rest - {key};
      }
      assert keys - rest == keys;
      ok := true;
    }

    method LinkUses(declarations: seq<Declaration>, implementations: map<(string, string), seq<string>>,
                    recorded: set<Identity>, ghost inputs: Inputs, ghost base: Tables)
      returns (ok: bool, identities: set<Identity>)
      requires declarations == Declarations(inputs) && ListsAll(implementations, inputs.manifests)
      requires UniqueUris(nodes) && EdgesAdded(base.edges, recorded, Tables(nodes, edges)) && EndsExist(nodes, recorded)
      requires FreeOf(base, nodes, OwnedIdentities(inputs))
      modifies this`edges
      ensures !ok ==> !EndsExist(nodes, OwnedIdentities(inputs))
      ensures ok ==> identities == recorded + UseLinks(inputs, declarations) && EndsExist(nodes, identities)
                     && EdgesAdded(base.edges, identities, Tables(nodes, edges))
    {
      identities := recorded;
      NothingLinked(base, nodes, inputs);
      UsesBounds(inputs, declarations);
      hide *;
      for i := 0 to |declarations|
        invariant identities == recorded + UsesUpTo(inputs, declarations, i)
        invariant EdgesAdded(base.edges, identities, Tables(nodes, edges))
        invariant EndsExist(nodes, identities)
      {
        var d := declarations[i];
        DeclarationLinks(inputs, implementations, i);
        ok, identities := LinkOneUse(d, Bucket(implementations, d.key.ecosystem, d.key.name), identities, base,
            OwnedIdentities(inputs));
        if !ok {
          return;
        }
      }
      ok := true;
    }

    /** One declaration: its use, and for a package the packages behind it. */
    method LinkOneUse(d: Declaration, packages: seq<string>, recorded: set<Identity>, ghost base: Tables,
                      ghost wanted: set<Identity>)
      returns (ok: bool, identities: set<Identity>)
      requires UniqueUris(nodes) && EdgesAdded(base.edges, recorded, Tables(nodes, edges)) && EndsExist(nodes, recorded)
      requires FreeOf(base, nodes, wanted) && Use(d) in wanted
      requires d.isPackage ==> Links(d.consumer, "depends_on_package", packages) <= wanted
      modifies this`edges
      ensures !ok ==> !EndsExist(nodes, wanted)
      ensures ok ==>
                identities == recorded + {Use(d)} +
                              (if d.isPackage then Links(d.consumer, "depends_on_package", packages) else {})
      ensures ok ==> EndsExist(nodes, identities) && EdgesAdded(base.edges, identities, Tables(nodes, edges))
    {
      hide *;
      LinkIsFree(base, nodes, wanted, Use(d));
      EndsOne(nodes, wanted, recorded, Use(d));
      UseEnds(d);
      ghost var start := edges;
      ok := InsertUriEdge(Use(d));
      identities := recorded + {Use(d)};
      if ok {
        AddEdge(base.edges, recorded, nodes, start, Use(d), edges);
      }
      if ok && d.isPackage {
        ghost var before := identities;
        ok, identities := LinkPackages(d.consumer, "depends_on_package", packages, identities, base, wanted);
        EndsUnion(nodes, before, Links(d.consumer, "depends_on_package", packages), wanted);
      }
    }

    /** `_delete_orphan_owned_dependency_nodes`: one DELETE for each URI. */
    method DeleteOrphans(uris: set<string>)
      modifies this`nodes
      ensures nodes.Keys <= old(nodes).Keys && forall i | i in nodes :: nodes[i] == old(nodes)[i]
      ensures forall i | i in old(nodes) :: i !in nodes <==> IsStaleOrphan(Tables(old(nodes), edges), uris, i)
    {
      var rest := uris;
      while rest != {}
        invariant rest <= uris && nodes.Keys <= old(nodes).Keys && forall i | i in nodes :: nodes[i] == old(nodes)[i]
        invariant forall i | i in old(nodes) :: i !in nodes <==>
                    IsStaleOrphan(Tables(old(nodes), edges), uris - rest, i)
      {
        var uri :| uri in rest;
        var gone := set i | i in nodes && nodes[i].kind == DEPENDENCY && nodes[i].uri == Some(uri) &&
            Untouched(edges, i);
        nodes := nodes - gone;
        rest := rest - {uri};
      }
    }

    /** `reconcile_dependencies`. */
    method ReconcileDependencies(inputs: Inputs) returns (outcome: Outcome)
      requires State().Intact() && WellNamedInputs(inputs) && Clear(State().Base(), inputs)
      modifies this
      ensures outcome == UnsupportedEcosystem <==> !AllSupported(inputs)
      ensures outcome == UnsupportedEcosystem ==> State() == old(State())
      ensures outcome == Done <==> AllSupported(inputs) && EndpointsPresent(old(State()).Base(), inputs)
      ensures outcome == Done ==> Canonical(old(State()).Base(), inputs, State()) && State().Intact()
    {
      hide Canonical;
      hide Layered;
      hide AllPresent;
      hide DeclaredOrKept;
      hide EdgesAdded;
      hide Rebuilt;
      hide Clear;
      hide ClearRows;
      hide EndpointsPresent;
      hide OwnedIdentities;
      hide OwnedUris;
      hide AllSupported;
      hide WellNamedInputs;
      hide Ledger.Intact;
      hide Ledger.Base;
      hide UniqueUris;
      hide NamedBySome;
      hide HasUri;
      hide HasDependency;
      hide IsStaleOrphan;
      ghost var before := State();
      ghost var base := before.Base();
      var gatherer := new Gatherer();
      var supported := gatherer.Gather(inputs);
      if !supported {
        return UnsupportedEcosystem;
      }
      var previousUris, previousEdges := ownedUris, ownedEdges;
      IntactParts(before);
      DeleteOwnedEdges(previousEdges);
      BaseEdges(before, edges);
      ClearParts(before, inputs);
      UpsertDependencies(gatherer.versions, inputs, base.nodes);
      LayeredParts(base, nodes, inputs);
      var ok, identities := InsertOwnedEdges(gatherer, inputs, base);
      EndpointsFound(base, nodes, inputs);
      if !ok {
        return MissingEndpoint;
      }
      var current := set key | key in gatherer.versions :: key.Uri();
      CurrentUris(gatherer.versions, inputs);
      var stale := previousUris - current;
      ghost var full := Tables(nodes, edges);
      RebuiltIntro(before, inputs, full);
      DeleteOrphans(stale);
      OrphansGone(full, stale, nodes);
      var retained := set uri | uri in stale && HasDependency(nodes, uri);
      StaleGone(before, inputs, full, nodes);
      assert current + retained == current;
      ownedUris, ownedEdges := current + retained, identities;
      Finished(before, inputs, full, State());
      outcome := Done;
    }
  }

  lemma Moved<T>(done: set<T>, rest: set<T>, x: T)
    requires x in rest
    ensures (done + {x}) + (rest - {x}) == done + rest
    ensures done !! rest ==> (done + {x}) !! (rest - {x})
  {
  }

  lemma OneOf<T>(done: set<T>, rest: set<T>, x: T)
    requires x in rest && done !! rest
    ensures x in done + rest && x !in done
  {
  }

  predicate HasDependency(nodes: map<nat, Row>, uri: string) {
    exists i | i in nodes :: nodes[i].kind == DEPENDENCY && nodes[i].uri == Some(uri)
  }

  // ----- Why the phases compose ---------------------------------------------------------------------------

  lemma IntactParts(s: Ledger)
    requires s.Intact()
    ensures UniqueUris(s.tables.nodes) && Layered(s.Base().nodes, s.tables.nodes) && s.Base().Sound()
  {
  }

  lemma BaseEdges(s: Ledger, edges: map<EdgeKey, Attrs>)
    requires edges == map e | e in s.tables.edges && !NamedBySome(s.tables.nodes, s.edges, e) :: s.tables.edges[e]
    ensures edges == s.Base().edges
  {
  }

  lemma ClearParts(s: Ledger, inputs: Inputs)
    requires Clear(s.Base(), inputs)
    ensures ClearRows(s.Base().nodes, inputs)
  {
  }

  /** Above sound foreign tables, foreign edges keep their ends' names. */
  lemma NamesAbove(base: Tables, nodes: map<nat, Row>, ids: set<Identity>, e: EdgeKey)
    requires base.Sound() && Layered(base.nodes, nodes) && e in base.edges
    ensures NamedBySome(nodes, ids, e) <==> NamedBySome(base.nodes, ids, e)
  {
  }

  lemma LayeredParts(base: Tables, nodes: map<nat, Row>, inputs: Inputs)
    requires base.Sound() && Layered(base.nodes, nodes) && Clear(base, inputs)
    ensures UniqueUris(nodes)
    ensures forall e | e in base.edges :: !NamedBySome(nodes, OwnedIdentities(inputs), e)
  {
    hide OwnedIdentities;
    hide ClearRows;
    forall e | e in base.edges { NamesAbove(base, nodes, OwnedIdentities(inputs), e); }
  }

  /** An end of an owned edge: a dependency's own URI, or one that never is. */
  predicate IsEnd(inputs: Inputs, uri: string) {
    exists d :: d in Declarations(inputs) && (uri == d.consumer || uri in ImplementedBy(inputs, d.key))
  }

  lemma IdentityEnds(inputs: Inputs, id: Identity)
    requires id in OwnedIdentities(inputs)
    ensures IsEnd(inputs, id.src) || id.src in OwnedUris(inputs)
    ensures IsEnd(inputs, id.dst) || id.dst in OwnedUris(inputs)
  {
    if d :| d in Declarations(inputs) && id == Identity(d.consumer, "used_by", d.key.Uri()) {
      assert d.key in Keys(inputs);
    } else if d, p :| d in Declarations(inputs) && p in ImplementedBy(inputs, d.key) &&
                      id == Identity(d.key.Uri(), "implemented_by", p) {
      assert d.key in Keys(inputs);
    }
  }

  lemma EndIsNoDependency(inputs: Inputs, uri: string, k: ScopedKey)
    requires IsEnd(inputs, uri)
    ensures uri != k.Uri()
  {
    hide ImplementedBy;
    hide ScopedKey.Uri;
    var d :| d in Declarations(inputs) && (uri == d.consumer || uri in ImplementedBy(inputs, d.key));
    EndsApart(inputs, d, k);
  }

  lemma EndsMakeIdentities(inputs: Inputs, d: Declaration)
    requires d in Declarations(inputs)
    ensures Identity(d.consumer, "used_by", d.key.Uri()) in OwnedIdentities(inputs)
    ensures forall p | p in ImplementedBy(inputs, d.key) ::
              Identity(d.key.Uri(), "implemented_by", p) in OwnedIdentities(inputs)
  {
  }

  lemma PresentEnd(base: map<nat, Row>, nodes: map<nat, Row>, inputs: Inputs, uri: string)
    requires Layered(base, nodes) && IsEnd(inputs, uri)
    ensures HasUri(nodes, uri) <==> HasUri(base, uri)
  {
    hide ScopedKey.Uri;
    hide IsEnd;
    if HasUri(nodes, uri) {
      var i :| i in nodes && nodes[i].uri == Some(uri);
      if i !in base {
        var k :| RowNames(nodes[i], k);
        EndIsNoDependency(inputs, uri, k);
      }
    }
    if i :| i in base && base[i].uri == Some(uri) { assert i in nodes; }
  }

  lemma PresentDependency(base: map<nat, Row>, nodes: map<nat, Row>, inputs: Inputs, uri: string)
    requires AllPresent(base, nodes, inputs) && uri in OwnedUris(inputs)
    ensures HasUri(nodes, uri)
  {
    var k :| k in Keys(inputs) && uri == k.Uri();
    var i :| IsRowOf(base, nodes, inputs, k, i);
    assert nodes[i].uri == Some(uri);
  }

  lemma EndpointsFound(base: Tables, nodes: map<nat, Row>, inputs: Inputs)
    requires Layered(base.nodes, nodes) && AllPresent(base.nodes, nodes, inputs)
    ensures EndpointsPresent(base, inputs) <==>
              forall id | id in OwnedIdentities(inputs) :: HasUri(nodes, id.src) && HasUri(nodes, id.dst)
  {
    hide Layered;
    hide AllPresent;
    hide HasUri;
    hide ScopedKey.Uri;
    hide ImplementedBy;
    hide OwnedIdentities;
    hide OwnedUris;
    hide Declarations;
    forall uri | IsEnd(inputs, uri) { PresentEnd(base.nodes, nodes, inputs, uri); }
    forall uri | uri in OwnedUris(inputs) { PresentDependency(base.nodes, nodes, inputs, uri); }
    if EndpointsPresent(base, inputs) {
      forall id | id in OwnedIdentities(inputs) { IdentityEnds(inputs, id); }
    }
    if forall id | id in OwnedIdentities(inputs) :: HasUri(nodes, id.src) && HasUri(nodes, id.dst) {
      forall d | d in Declarations(inputs)
        ensures HasUri(base.nodes, d.consumer) && forall p | p in ImplementedBy(inputs, d.key) :: HasUri(base.nodes, p)
      {
        EndsMakeIdentities(inputs, d);
        assert HasUri(nodes, Identity(d.consumer, "used_by", d.key.Uri()).src) && IsEnd(inputs, d.consumer);
        forall p | p in ImplementedBy(inputs, d.key) ensures HasUri(base.nodes, p) {
          assert HasUri(nodes, Identity(d.key.Uri(), "implemented_by", p).dst) && IsEnd(inputs, p);
        }
      }
    }
  }

  /** The store after the new rows and edges went in, before stale rows go. */
  ghost predicate Rebuilt(before: Ledger, inputs: Inputs, full: Tables) {
    var base := before.Base();
    && before.Intact() && Clear(base, inputs) && WellNamedInputs(inputs)
    && Layered(base.nodes, full.nodes) && AllPresent(base.nodes, full.nodes, inputs)
    && DeclaredOrKept(base.nodes, before.tables.nodes, full.nodes, inputs)
    && EdgesAdded(base.edges, OwnedIdentities(inputs), full)
  }

  lemma RebuiltIntro(before: Ledger, inputs: Inputs, full: Tables)
    requires before.Intact() && Clear(before.Base(), inputs) && WellNamedInputs(inputs)
    requires Layered(before.Base().nodes, full.nodes) && AllPresent(before.Base().nodes, full.nodes, inputs)
    requires DeclaredOrKept(before.Base().nodes, before.tables.nodes, full.nodes, inputs)
    requires EdgesAdded(before.Base().edges, OwnedIdentities(inputs), full)
    ensures Rebuilt(before, inputs, full)
  {
  }

  /** Edges reach only foreign rows and declared dependencies. */
  lemma EdgeEnds(before: Ledger, inputs: Inputs, full: Tables, e: EdgeKey, i: nat)
    requires Rebuilt(before, inputs, full) && e in full.edges && (e.src == i || e.dst == i)
    ensures i in full.nodes &&
              (i in before.Base().nodes || (full.nodes[i].uri.Some? && full.nodes[i].uri.value in OwnedUris(inputs)))
  {
    hide OwnedIdentities;
    hide OwnedUris;
    hide Clear;
    hide ScopedKey.Uri;
    hide AllPresent;
    hide DeclaredOrKept;
    hide Ledger.Base;
    var base := before.Base();
    if e !in base.edges {
      var id :| id in OwnedIdentities(inputs) && Names(full.nodes, e, id);
      IdentityEnds(inputs, id);
      if i !in base.nodes {
        var k :| RowNames(full.nodes[i], k);
        if IsEnd(inputs, full.nodes[i].uri.value) { EndIsNoDependency(inputs, full.nodes[i].uri.value, k); }
      }
    } else {
      assert base.Sound();
    }
  }

  /** Which rows the orphan pass removes: the recorded ones no longer declared. */
  lemma StaleAreOrphans(before: Ledger, inputs: Inputs, full: Tables, i: nat)
    requires Rebuilt(before, inputs, full) && i in full.nodes
    ensures IsStaleOrphan(full, before.uris - OwnedUris(inputs), i) <==>
            full.nodes[i].kind == DEPENDENCY && full.nodes[i].uri.Some? &&
                full.nodes[i].uri.value in before.uris - OwnedUris(inputs)
    ensures i in before.Base().nodes ==> !IsStaleOrphan(full, before.uris - OwnedUris(inputs), i)
  {
    hide OwnedUris;
    hide Clear;
    hide AllPresent;
    hide DeclaredOrKept;
    if i in before.Base().nodes { assert !before.OwnsRow(i) && full.nodes[i] == before.tables.nodes[i]; }
    forall e | e in full.edges && (e.src == i || e.dst == i) { EdgeEnds(before, inputs, full, e, i); }
  }

  lemma StaleGone(before: Ledger, inputs: Inputs, full: Tables, nodes: map<nat, Row>)
    requires Rebuilt(before, inputs, full)
    requires nodes == map i | i in full.nodes && !IsStaleOrphan(full, before.uris - OwnedUris(inputs), i) ::
               full.nodes[i]
    ensures forall uri | uri in before.uris - OwnedUris(inputs) :: !HasDependency(nodes, uri)
  {
    hide OwnedUris;
    hide Rebuilt;
    forall uri | uri in before.uris - OwnedUris(inputs) ensures !HasDependency(nodes, uri) {
      if i :| i in nodes && nodes[i].kind == DEPENDENCY && nodes[i].uri == Some(uri) {
        StaleAreOrphans(before, inputs, full, i);
      }
    }
  }

  predicate Untouched(edges: map<EdgeKey, Attrs>, i: nat) {
    forall e | e in edges :: e.src != i && e.dst != i
  }

  predicate IsStaleOrphan(t: Tables, uris: set<string>, i: nat) {
    && i in t.nodes && t.nodes[i].kind == DEPENDENCY && t.nodes[i].uri.Some? && t.nodes[i].uri.value in uris
    && Untouched(t.edges, i)
  }

  lemma OrphansGone(t: Tables, uris: set<string>, nodes: map<nat, Row>)
    requires nodes.Keys <= t.nodes.Keys && forall i | i in nodes :: nodes[i] == t.nodes[i]
    requires forall i | i in t.nodes :: i !in nodes <==> IsStaleOrphan(t, uris, i)
    ensures nodes == map i | i in t.nodes && !IsStaleOrphan(t, uris, i) :: t.nodes[i]
  {
  }

  function RecordIn(versions: map<ScopedKey, set<string>>, k: ScopedKey): GraphNode {
    RecordOf(k, if k in versions then versions[k] else {})
  }

  lemma RecordKeys(versions: map<ScopedKey, set<string>>, inputs: Inputs)
    requires Tallies(versions, Declarations(inputs))
    ensures versions.Keys == Keys(inputs)
  {
  }

  lemma RecordIs(versions: map<ScopedKey, set<string>>, inputs: Inputs, k: ScopedKey)
    requires Tallies(versions, Declarations(inputs)) && k in Keys(inputs)
    ensures RecordIn(versions, k) == DependencyRecord(inputs, k)
  {
  }

  lemma CurrentUris(versions: map<ScopedKey, set<string>>, inputs: Inputs)
    requires Tallies(versions, Declarations(inputs))
    ensures (set key | key in versions :: key.Uri()) == OwnedUris(inputs)
  {
  }

  // ----- The edges, as they are inserted ----------------------------------------------------------------------

  function Bucket(implementations: map<(string, string), seq<string>>, ecosystem: string, name: string): seq<string> {
    if (ecosystem, name) in implementations then implementations[(ecosystem, name)] else []
  }

  function Links(from: string, kind: string, packages: seq<string>): set<Identity> {
    set p | p in packages :: Identity(from, kind, p)
  }

  function ImplementedLinks(inputs: Inputs, keys: set<ScopedKey>): set<Identity> {
    set k, p | k in keys && p in ImplementedBy(inputs, k) :: Identity(k.Uri(), "implemented_by", p)
  }

  function UseLinks(inputs: Inputs, ds: seq<Declaration>): set<Identity> {
    (set d | d in ds :: Use(d)) +
    (set d, p | d in ds && d.isPackage && p in ImplementedBy(inputs, d.key) ::
        Identity(d.consumer, "depends_on_package", p))
  }

  function Use(d: Declaration): Identity {
    Identity(d.consumer, "used_by", d.key.Uri())
  }

  lemma UseEnds(d: Declaration)
    ensures Use(d) == Identity(d.consumer, "used_by", d.key.Uri())
  {
  }

  function UsesUpTo(inputs: Inputs, ds: seq<Declaration>, i: nat): set<Identity>
    requires i <= |ds|
  {
    UseLinks(inputs, ds[..i])
  }

  lemma UsesBounds(inputs: Inputs, ds: seq<Declaration>)
    ensures UsesUpTo(inputs, ds, 0) == {} && UsesUpTo(inputs, ds, |ds|) == UseLinks(inputs, ds)
  {
    assert ds[..0] == [] && ds[..|ds|] == ds;
  }

  predicate EndsExist(nodes: map<nat, Row>, ids: set<Identity>) {
    forall id | id in ids :: HasUri(nodes, id.src) && HasUri(nodes, id.dst)
  }

  /** No foreign edge carries an identity that the inputs call for. */
  predicate FreeOf(base: Tables, nodes: map<nat, Row>, wanted: set<Identity>) {
    forall e | e in base.edges :: !NamedBySome(nodes, wanted, e)
  }

  lemma LinkIsFree(base: Tables, nodes: map<nat, Row>, wanted: set<Identity>, id: Identity)
    requires FreeOf(base, nodes, wanted) && id in wanted
    ensures forall e | e in base.edges :: !Names(nodes, e, id)
  {
    forall e | e in base.edges ensures !Names(nodes, e, id) {
      assert !NamedBySome(nodes, wanted, e);
    }
  }

  lemma LinksNone(from: string, kind: string)
    ensures Links(from, kind, []) == {} && forall nodes :: EndsExist(nodes, {})
  {
  }

  lemma LinksOne(from: string, kind: string, packages: seq<string>, i: nat)
    requires i < |packages|
    ensures Links(from, kind, packages[..i + 1]) == Links(from, kind, packages[..i]) +
              {Identity(from, kind, packages[i])}
    ensures Identity(from, kind, packages[i]) in Links(from, kind, packages)
    ensures Links(from, kind, packages[..i]) <= Links(from, kind, packages)
  {
    assert forall p :: p in packages[..i + 1] <==> p in packages[..i] || p == packages[i];
  }

  lemma EndsOne(nodes: map<nat, Row>, wanted: set<Identity>, done: set<Identity>, id: Identity)
    requires id in wanted
    ensures EndsExist(nodes, done + {id}) <==> EndsExist(nodes, done) && HasUri(nodes, id.src) && HasUri(nodes, id.dst)
    ensures EndsExist(nodes, wanted) ==> HasUri(nodes, id.src) && HasUri(nodes, id.dst)
  {
    assert forall x :: x in done + {id} <==> x in done || x == id;
  }

  lemma EndsUnion(nodes: map<nat, Row>, a: set<Identity>, b: set<Identity>, wanted: set<Identity>)
    requires b <= wanted
    ensures EndsExist(nodes, a + b) <==> EndsExist(nodes, a) && EndsExist(nodes, b)
    ensures EndsExist(nodes, wanted) ==> EndsExist(nodes, b)
  {
    assert forall x :: x in a + b <==> x in a || x in b;
  }

  lemma NothingLinked(base: Tables, nodes: map<nat, Row>, inputs: Inputs)
    ensures ImplementedLinks(inputs, {}) == {} && UseLinks(inputs, []) == {} && EndsExist(nodes, {})
    ensures EdgesAdded(base.edges, {}, Tables(nodes, base.edges))
  {
  }

  lemma BucketIsListed(inputs: Inputs, implementations: map<(string, string), seq<string>>, key: ScopedKey)
    requires ListsAll(implementations, inputs.manifests)
    ensures forall p :: p in Bucket(implementations, key.ecosystem, key.name) <==> p in ImplementedBy(inputs, key)
  {
    assert Listed(implementations, key.ecosystem, key.name) == ImplementedBy(inputs, key);
  }

  lemma KeyLinks(inputs: Inputs, implementations: map<(string, string), seq<string>>, keys: set<ScopedKey>,
                 key: ScopedKey)
    requires ListsAll(implementations, inputs.manifests) && keys <= Keys(inputs) && key in keys
    ensures var links := Links(key.Uri(), "implemented_by", Bucket(implementations, key.ecosystem, key.name));
            && ImplementedLinks(inputs, Keys(inputs) - (keys - {key})) ==
                ImplementedLinks(inputs, Keys(inputs) - keys) + links
            && links <= OwnedIdentities(inputs)
  {
    BucketIsListed(inputs, implementations, key);
    var d :| d in Declarations(inputs) && d.key == key;
    assert forall k :: k in Keys(inputs) - (keys - {key}) <==> k in Keys(inputs) - keys || k == key;
  }

  lemma DeclarationLinks(inputs: Inputs, implementations: map<(string, string), seq<string>>, i: nat)
    requires ListsAll(implementations, inputs.manifests) && i < |Declarations(inputs)|
    ensures var ds := Declarations(inputs);
            var d := ds[i];
            var links := Links(d.consumer, "depends_on_package", Bucket(implementations, d.key.ecosystem, d.key.name));
            && Use(d) in OwnedIdentities(inputs)
            && (d.isPackage ==> links <= OwnedIdentities(inputs))
            && UsesUpTo(inputs, ds, i + 1) == UsesUpTo(inputs, ds, i) + {Use(d)} + if d.isPackage then links else {}
  {
    var ds := Declarations(inputs);
    BucketIsListed(inputs, implementations, ds[i].key);
    assert ds[i] in ds && forall d :: d in ds[..i + 1] <==> d in ds[..i] || d == ds[i];
  }

  lemma AllUsesLinked(inputs: Inputs)
    ensures ImplementedLinks(inputs, Keys(inputs)) + UseLinks(inputs, Declarations(inputs)) == OwnedIdentities(inputs)
  {
  }

  lemma NoRow(nodes: map<nat, Row>, uri: string)
    ensures Least(UriIds(nodes, uri)) == None <==> !HasUri(nodes, uri)
  {
    if i :| i in nodes && nodes[i].uri == Some(uri) { assert i in UriIds(nodes, uri); }
  }

  /** The edges with the identity are there, without attributes, and all others
      are as before. */
  ghost predicate Inserted(nodes: map<nat, Row>, before: map<EdgeKey, Attrs>, id: Identity,
                           after: map<EdgeKey, Attrs>)
  {
    && (exists e :: Names(nodes, e, id))
    && forall e ::
         && (e in after <==> e in before || Names(nodes, e, id))
         && (e in after ==> after[e] == if Names(nodes, e, id) then None else before[e])
  }

  /** The edges are those of `base`, unchanged, plus one without attributes for
      each identity. */
  ghost predicate EdgesAdded(base: map<EdgeKey, Attrs>, ids: set<Identity>, t: Tables) {
    && (forall e :: e in t.edges <==> e in base || NamedBySome(t.nodes, ids, e))
    && (forall e | e in t.edges :: t.edges[e] == if e in base then base[e] else None)
    && (forall id | id in ids :: exists e :: Names(t.nodes, e, id))
  }

  lemma AddEdge(base: map<EdgeKey, Attrs>, ids: set<Identity>, nodes: map<nat, Row>, edges: map<EdgeKey, Attrs>,
                id: Identity, after: map<EdgeKey, Attrs>)
    requires EdgesAdded(base, ids, Tables(nodes, edges)) && Inserted(nodes, edges, id, after)
    requires forall e | e in base :: !Names(nodes, e, id)
    ensures EdgesAdded(base, ids + {id}, Tables(nodes, after))
  {
    forall e ensures NamedBySome(nodes, ids + {id}, e) <==> NamedBySome(nodes, ids, e) || Names(nodes, e, id) {
    }
  }

  /** One edge has the identity, and it is the one with the given ends. */
  lemma NamesOne(nodes: map<nat, Row>, id: Identity, key: EdgeKey)
    requires UniqueUris(nodes) && key.kind == id.kind
    requires Least(UriIds(nodes, id.src)) == Some(key.src) && Least(UriIds(nodes, id.dst)) == Some(key.dst)
    ensures forall e :: Names(nodes, e, id) <==> e == key
  {
    forall e | Names(nodes, e, id) ensures e == key {
      UniqueId(nodes, id.src, e.src);
      UniqueId(nodes, id.dst, e.dst);
    }
  }

  /** The upserted dependencies have rows of their own, complete once stamped, and
      every other row is as at the start. */
  ghost predicate Housed(base: map<nat, Row>, start: map<nat, Row>, nodes: map<nat, Row>, inputs: Inputs,
                         home: map<ScopedKey, nat>, stamped: set<ScopedKey>)
  {
    && Layered(base, nodes) && home.Keys <= Keys(inputs)
    && (forall k | k in home :: k.WellNamed() && Holds(base, nodes, inputs, k, home[k]))
    && (forall k | k in home && k in stamped :: nodes[home[k]] == DependencyRow(inputs, k))
    && (forall i | i in nodes :: IsHome(home, i) || (i in start && nodes[i] == start[i]))
  }

  ghost predicate IsHome(home: map<ScopedKey, nat>, i: nat) {
    exists k :: k in home && home[k] == i
  }

  lemma HousedStart(base: map<nat, Row>, start: map<nat, Row>, inputs: Inputs)
    requires Layered(base, start)
    ensures Housed(base, start, start, inputs, map[], {})
  {
  }

  lemma HomesApart(base: map<nat, Row>, nodes: map<nat, Row>, inputs: Inputs, k1: ScopedKey, k2: ScopedKey, i: nat)
    requires k1.WellNamed() && k2.WellNamed() && k1 != k2 && Holds(base, nodes, inputs, k2, i)
    ensures i in nodes && nodes[i].uri != Some(k1.Uri())
  {
    hide ScopedKey.Uri;
    HeldNames(inputs, k2, nodes[i]);
    if nodes[i].uri == Some(k1.Uri()) { OneUri(k1, k2); }
  }

  lemma WellNamedKey(inputs: Inputs, k: ScopedKey)
    requires WellNamedInputs(inputs) && k in Keys(inputs)
    ensures k.WellNamed()
  {
  }

  lemma ClearForOne(base: map<nat, Row>, inputs: Inputs, k: ScopedKey)
    requires ClearRows(base, inputs) && k in Keys(inputs)
    ensures ClearFor(base, k)
  {
  }

  lemma HousedIsLayered(base: map<nat, Row>, start: map<nat, Row>, nodes: map<nat, Row>, inputs: Inputs,
                        home: map<ScopedKey, nat>, stamped: set<ScopedKey>)
    requires Housed(base, start, nodes, inputs, home, stamped)
    ensures Layered(base, nodes) && home.Keys <= Keys(inputs)
  {
  }

  lemma HouseOne(base: map<nat, Row>, start: map<nat, Row>, nodes: map<nat, Row>, inputs: Inputs,
                 home: map<ScopedKey, nat>, k: ScopedKey)
    returns (i: nat)
    requires Housed(base, start, nodes, inputs, home, {}) && WellNamedInputs(inputs) && k in Keys(inputs) && k !in home
    requires ClearRows(base, inputs)
    ensures Housed(base, start, UpsertedNode(nodes, None, DependencyRecord(inputs, k)), inputs, home[k := i], {})
  {
    hide *;
    WellNamedKey(inputs, k);
    ClearForOne(base, inputs, k);
    HousedIsLayered(base, start, nodes, inputs, home, {});
    i := UpsertDependency(base, nodes, inputs, k);
    HousedMore(base, start, nodes, UpsertedNode(nodes, None, DependencyRecord(inputs, k)), inputs, home, k, i);
  }

  lemma HousedMore(base: map<nat, Row>, start: map<nat, Row>, nodes: map<nat, Row>, after: map<nat, Row>,
                   inputs: Inputs,
                   home: map<ScopedKey, nat>, k: ScopedKey, i: nat)
    requires Housed(base, start, nodes, inputs, home, {}) && Gains(base, nodes, after, inputs, k, i)
    requires k in Keys(inputs) && k !in home && k.WellNamed() && home.Keys <= Keys(inputs)
    ensures Housed(base, start, after, inputs, home[k := i], {})
  {
    hide *;
    KeysGrow(home, k, i, Keys(inputs));
    HeldMore(base, start, nodes, after, inputs, home, k, i);
    OthersKept(base, start, nodes, after, inputs, home, k, i);
    HousedIntro(base, start, after, inputs, home[k := i]);
  }

  lemma HousedIntro(base: map<nat, Row>, start: map<nat, Row>, nodes: map<nat, Row>, inputs: Inputs,
                    home: map<ScopedKey, nat>)
    requires home.Keys <= Keys(inputs) && AllHeld(base, nodes, inputs, home) && Layered(base, nodes)
    requires forall i | i in nodes :: IsHome(home, i) || (i in start && nodes[i] == start[i])
    ensures Housed(base, start, nodes, inputs, home, {})
  {
    hide Layered;
    hide Holds;
    hide IsHome;
  }

  lemma KeysGrow<K, V>(m: map<K, V>, k: K, v: V, keys: set<K>)
    requires m.Keys <= keys && k in keys
    ensures m[k := v].Keys <= keys
  {
  }

  ghost predicate AllHeld(base: map<nat, Row>, nodes: map<nat, Row>, inputs: Inputs, home: map<ScopedKey, nat>) {
    forall k | k in home :: k.WellNamed() && Holds(base, nodes, inputs, k, home[k])
  }

  lemma HeldMore(base: map<nat, Row>, start: map<nat, Row>, nodes: map<nat, Row>, after: map<nat, Row>, inputs: Inputs,
                 home: map<ScopedKey, nat>, k: ScopedKey, i: nat)
    requires Housed(base, start, nodes, inputs, home, {}) && Gains(base, nodes, after, inputs, k, i) && k.WellNamed() &&
               k !in home
    ensures AllHeld(base, after, inputs, home[k := i]) && Layered(base, after)
  {
    hide DependencyRow;
    hide Keys;
    hide Layered;
    hide ScopedKey.Uri;
    hide IsHome;
    forall k2 | k2 in home ensures home[k2] != i { HomesApart(base, nodes, inputs, k, k2, home[k2]); }
  }

  lemma OthersKept(base: map<nat, Row>, start: map<nat, Row>, nodes: map<nat, Row>, after: map<nat, Row>,
                   inputs: Inputs,
                   home: map<ScopedKey, nat>, k: ScopedKey, i: nat)
    requires Housed(base, start, nodes, inputs, home, {}) && Gains(base, nodes, after, inputs, k, i) && k !in home
    ensures forall j | j in after :: IsHome(home[k := i], j) || (j in start && after[j] == start[j])
  {
    hide Layered;
    hide Holds;
    hide Keys;
    var more := home[k := i];
    assert k in more && more[k] == i;
    forall j | j in after ensures IsHome(more, j) || (j in start && after[j] == start[j]) {
      if j != i && IsHome(home, j) {
        var k2 :| k2 in home && home[k2] == j;
        assert k2 in more && more[k2] == j;
      }
    }
  }

  lemma StampOne(base: map<nat, Row>, start: map<nat, Row>, nodes: map<nat, Row>, inputs: Inputs,
                 home: map<ScopedKey, nat>,
                 stamped: set<ScopedKey>, k: ScopedKey)
    requires Housed(base, start, nodes, inputs, home, stamped) && k in home
    ensures Housed(base, start, StampedDependency(nodes, k), inputs, home, stamped + {k})
  {
    hide DependencyRow;
    hide DependencyRecord;
    hide Declarations;
    hide Keys;
    hide Layered;
    hide StampedDependency;
    hide ScopedKey.Uri;
    var i := home[k];
    StampDependency(base, nodes, inputs, k, i);
    HeldNames(inputs, k, nodes[i]);
    forall k2 | k2 in home && k2 != k ensures home[k2] != i { HomesApart(base, nodes, inputs, k, k2, home[k2]); }
  }

  lemma HousedEnd(base: map<nat, Row>, start: map<nat, Row>, nodes: map<nat, Row>, inputs: Inputs,
                  home: map<ScopedKey, nat>)
    requires Housed(base, start, nodes, inputs, home, Keys(inputs)) && home.Keys == Keys(inputs)
    ensures Layered(base, nodes) && AllPresent(base, nodes, inputs) && DeclaredOrKept(base, start, nodes, inputs)
  {
    hide DependencyRow;
    hide Keys;
    hide Layered;
    forall k | k in Keys(inputs) ensures IsRowOf(base, nodes, inputs, k, home[k]) {
      assert Holds(base, nodes, inputs, k, home[k]);
    }
    forall i | i in nodes && i !in base
      ensures IsDeclaredRow(inputs, nodes[i]) || (i in start && nodes[i] == start[i])
    {
      if k :| k in home && home[k] == i {}
    }
  }

  /** The rows that remain above the foreign ones are the declared dependencies. */
  lemma RemainingRows(before: Ledger, inputs: Inputs, full: Tables, i: nat)
    requires Rebuilt(before, inputs, full) && i in full.nodes &&
               !IsStaleOrphan(full, before.uris - OwnedUris(inputs), i)
    ensures i in before.Base().nodes <==> !IsDeclaredRow(inputs, full.nodes[i])
  {
    hide Clear;
    hide EdgesAdded;
    hide DependencyRow;
    StaleAreOrphans(before, inputs, full, i);
    if i in before.Base().nodes {
      if IsDeclaredRow(inputs, full.nodes[i]) {
        var k :| k in Keys(inputs) && full.nodes[i] == DependencyRow(inputs, k);
        DeclaredIsNotClear(before.Base(), inputs, k, i);
      }
    } else if !IsDeclaredRow(inputs, full.nodes[i]) {
      assert before.OwnsRow(i);
      var k :| k in Keys(inputs) && full.nodes[i].uri == Some(k.Uri());
      var h :| IsRowOf(before.Base().nodes, full.nodes, inputs, k, h);
      DependencyRowUri(inputs, k);
    }
  }

  lemma DependencyRowUri(inputs: Inputs, k: ScopedKey)
    ensures DependencyRow(inputs, k).uri == Some(k.Uri()) && DependencyRow(inputs, k).kind == DEPENDENCY
  {
  }

  lemma DeclaredIsNotClear(base: Tables, inputs: Inputs, k: ScopedKey, i: nat)
    requires Clear(base, inputs) && k in Keys(inputs) && i in base.nodes
    ensures base.nodes[i] != DependencyRow(inputs, k) && base.nodes[i].uri != Some(k.Uri())
  {
    hide Keys;
    assert ClearFor(base.nodes, k);
    assert ClearOf(base.nodes[i], k);
    DependencyRowUri(inputs, k);
  }

  /** The final ledger: stale orphans gone, the new record written. */
  ghost predicate Settled(before: Ledger, inputs: Inputs, full: Tables, s: Ledger) {
    && Rebuilt(before, inputs, full)
    && s.tables.nodes ==
        (map i | i in full.nodes && !IsStaleOrphan(full, before.uris - OwnedUris(inputs), i) :: full.nodes[i])
    && s.tables.edges == full.edges && s.uris == OwnedUris(inputs) && s.edges == OwnedIdentities(inputs)
  }

  lemma SettledRows(before: Ledger, inputs: Inputs, full: Tables, s: Ledger, i: nat)
    requires Settled(before, inputs, full, s)
    ensures i in before.Base().nodes ==> i in s.tables.nodes && s.tables.nodes[i] == before.Base().nodes[i]
    ensures i in s.tables.nodes && i !in before.Base().nodes ==> IsDeclaredRow(inputs, s.tables.nodes[i])
    ensures i in s.tables.nodes ==> (s.OwnsRow(i) <==> i !in before.Base().nodes)
  {
    hide DependencyRow;
    hide Clear;
    hide EdgesAdded;
    hide AllPresent;
    hide DeclaredOrKept;
    if i in full.nodes {
      StaleAreOrphans(before, inputs, full, i);
      if i in s.tables.nodes { RemainingRows(before, inputs, full, i); }
    }
    if i in s.tables.nodes && i !in before.Base().nodes {
      var k :| k in Keys(inputs) && s.tables.nodes[i] == DependencyRow(inputs, k);
      DependencyRowUri(inputs, k);
    }
    if i in s.tables.nodes && i in before.Base().nodes && s.OwnsRow(i) {
      var k :| k in Keys(inputs) && s.tables.nodes[i].uri == Some(k.Uri());
      DeclaredIsNotClear(before.Base(), inputs, k, i);
    }
  }

  lemma SettledEnds(before: Ledger, inputs: Inputs, full: Tables, s: Ledger, e: EdgeKey)
    requires Settled(before, inputs, full, s)
    ensures e in full.edges ==> e.src in s.tables.nodes && e.dst in s.tables.nodes
    ensures s.OwnsEdge(e) && e in full.edges <==> e in full.edges && e !in before.Base().edges
  {
    hide Rebuilt;
    hide OwnedIdentities;
    hide OwnedUris;
    if e in full.edges {
      EdgeEnds(before, inputs, full, e, e.src);
      EdgeEnds(before, inputs, full, e, e.dst);
      assert e.src in s.tables.nodes && e.dst in s.tables.nodes;
      AddedEdge(before, inputs, full, e);
      assert NamedBySome(s.tables.nodes, s.edges, e) <==> NamedBySome(full.nodes, s.edges, e);
    }
  }

  lemma AddedEdge(before: Ledger, inputs: Inputs, full: Tables, e: EdgeKey)
    requires Rebuilt(before, inputs, full) && e in full.edges
    ensures NamedBySome(full.nodes, OwnedIdentities(inputs), e) <==> e !in before.Base().edges
  {
    hide OwnedIdentities;
    hide Layered;
    hide AllPresent;
    hide DeclaredOrKept;
    if e in before.Base().edges { NamesAbove(before.Base(), full.nodes, OwnedIdentities(inputs), e); }
  }

  lemma SettledBase(before: Ledger, inputs: Inputs, full: Tables, s: Ledger)
    requires Settled(before, inputs, full, s)
    ensures s.Base() == before.Base()
  {
    hide Rebuilt;
    hide IsDeclaredRow;
    var base := before.Base();
    forall i ensures i in s.Base().nodes <==> i in base.nodes
             ensures i in base.nodes ==> s.Base().nodes[i] == base.nodes[i]
    {
      SettledRows(before, inputs, full, s, i);
    }
    BaseEdgesKept(before, inputs, full);
    forall e ensures e in s.Base().edges <==> e in base.edges { SettledEnds(before, inputs, full, s, e); }
    assert s.Base().nodes == base.nodes;
    assert s.Base().edges == base.edges;
  }

  lemma BaseEdgesKept(before: Ledger, inputs: Inputs, full: Tables)
    requires Rebuilt(before, inputs, full)
    ensures forall e | e in before.Base().edges :: e in full.edges && full.edges[e] == before.Base().edges[e]
  {
  }

  lemma SettledCanonicalRows(before: Ledger, inputs: Inputs, full: Tables, s: Ledger)
    requires Settled(before, inputs, full, s)
    ensures CanonicalRows(before.Base().nodes, inputs, s.tables.nodes)
  {
    hide IsDeclaredRow;
    hide IsRowOf;
    hide Rebuilt;
    hide Keys;
    var base := before.Base().nodes;
    forall i | i in s.tables.nodes && i !in base ensures IsDeclaredRow(inputs, s.tables.nodes[i]) {
      SettledRows(before, inputs, full, s, i);
    }
    forall k | k in Keys(inputs) ensures exists i :: IsRowOf(base, s.tables.nodes, inputs, k, i) {
      var i := SettledRowOf(before, inputs, full, s, k);
    }
    SettledUris(before, inputs, full, s);
  }

  lemma SettledRowOf(before: Ledger, inputs: Inputs, full: Tables, s: Ledger, k: ScopedKey) returns (i: nat)
    requires Settled(before, inputs, full, s) && k in Keys(inputs)
    ensures IsRowOf(before.Base().nodes, s.tables.nodes, inputs, k, i)
  {
    hide DependencyRow;
    hide EdgesAdded;
    hide Clear;
    hide ScopedKey.Uri;
    i :| IsRowOf(before.Base().nodes, full.nodes, inputs, k, i);
    StaleAreOrphans(before, inputs, full, i);
    DependencyRowUri(inputs, k);
  }

  lemma SettledUris(before: Ledger, inputs: Inputs, full: Tables, s: Ledger)
    requires Settled(before, inputs, full, s)
    ensures UniqueUris(s.tables.nodes)
  {
    hide EdgesAdded;
    hide Clear;
    hide AllPresent;
    hide DeclaredOrKept;
  }

  lemma SettledCanonicalEdges(before: Ledger, inputs: Inputs, full: Tables, s: Ledger)
    requires Settled(before, inputs, full, s)
    ensures CanonicalEdges(before.Base().edges, OwnedIdentities(inputs), s.tables)
  {
    hide OwnedIdentities;
    hide OwnedUris;
    hide Layered;
    hide AllPresent;
    hide DeclaredOrKept;
    var base, ids := before.Base().edges, OwnedIdentities(inputs);
    forall e | e in s.tables.edges && e !in base
      ensures s.tables.edges[e] == None && exists id :: id in ids && Names(s.tables.nodes, e, id)
    {
      SettledEnds(before, inputs, full, s, e);
    }
    forall id | id in ids ensures exists e :: e in s.tables.edges && e !in base && Names(s.tables.nodes, e, id) {
      var e :| Names(full.nodes, e, id);
      assert NamedBySome(full.nodes, ids, e);
      SettledEnds(before, inputs, full, s, e);
      AddedEdge(before, inputs, full, e);
    }
  }

  lemma Finished(before: Ledger, inputs: Inputs, full: Tables, s: Ledger)
    requires Rebuilt(before, inputs, full)
    requires s.tables.nodes == map i | i in full.nodes && !IsStaleOrphan(full, before.uris - OwnedUris(inputs), i) ::
               full.nodes[i]
    requires s.tables.edges == full.edges && s.uris == OwnedUris(inputs) && s.edges == OwnedIdentities(inputs)
    ensures Canonical(before.Base(), inputs, s) && s.Intact()
  {
    hide OwnedIdentities;
    hide OwnedUris;
    hide CanonicalRows;
    hide CanonicalEdges;
    hide Ledger.Base;
    hide DeclaredOrKept;
    hide AllPresent;
    hide EdgesAdded;
    SettledBase(before, inputs, full, s);
    SettledCanonicalRows(before, inputs, full, s);
    SettledCanonicalEdges(before, inputs, full, s);
    forall e | e in s.tables.edges { SettledEnds(before, inputs, full, s, e); }
    forall i | s.OwnsRow(i) ensures IsDependencyRow(s.tables.nodes[i]) { SettledRows(before, inputs, full, s, i); }
  }

  // ----- History does not matter ---------------------------------------------------------------------------

  /** Two stores that differ at most in the row ids of owned dependencies. */
  ghost predicate SameUpToIds(s1: Ledger, s2: Ledger) {
    && s1.Base() == s2.Base() && s1.uris == s2.uris && s1.edges == s2.edges
    && (forall i | s1.OwnsRow(i) :: exists j :: s2.OwnsRow(j) && s2.tables.nodes[j] == s1.tables.nodes[i])
    && (forall j | s2.OwnsRow(j) :: exists i :: s1.OwnsRow(i) && s1.tables.nodes[i] == s2.tables.nodes[j])
    && (forall id | id in s1.edges :: HasPlainEdge(s1.tables, id) && HasPlainEdge(s2.tables, id))
  }

  predicate HasPlainEdge(t: Tables, id: Identity) {
    exists e | e in t.edges :: Names(t.nodes, e, id) && t.edges[e] == None
  }

  lemma RowsMatch(base: Tables, inputs: Inputs, s1: Ledger, s2: Ledger, i: nat) returns (j: nat)
    requires Canonical(base, inputs, s1) && Canonical(base, inputs, s2) && s1.OwnsRow(i)
    ensures s2.OwnsRow(j) && s2.tables.nodes[j] == s1.tables.nodes[i]
  {
    hide DependencyRow;
    hide OwnedIdentities;
    assert i !in base.nodes by { assert s1.Base() == base; }
    assert IsDeclaredRow(inputs, s1.tables.nodes[i]);
    var k :| k in Keys(inputs) && s1.tables.nodes[i] == DependencyRow(inputs, k);
    j :| IsRowOf(base.nodes, s2.tables.nodes, inputs, k, j);
  }

  /** The canonical store for given inputs over given foreign tables is unique. */
  lemma CanonicalUnique(base: Tables, inputs: Inputs, s1: Ledger, s2: Ledger)
    requires Canonical(base, inputs, s1) && Canonical(base, inputs, s2)
    ensures SameUpToIds(s1, s2)
  {
    hide DependencyRow;
    hide OwnedIdentities;
    hide CanonicalRows;
    forall i | s1.OwnsRow(i) ensures exists j :: s2.OwnsRow(j) && s2.tables.nodes[j] == s1.tables.nodes[i] {
      var j := RowsMatch(base, inputs, s1, s2, i);
    }
    forall j | s2.OwnsRow(j) ensures exists i :: s1.OwnsRow(i) && s1.tables.nodes[i] == s2.tables.nodes[j] {
      var i := RowsMatch(base, inputs, s2, s1, j);
    }
    forall id | id in s1.edges ensures HasPlainEdge(s1.tables, id) && HasPlainEdge(s2.tables, id) {
    }
  }

  /** A run of reconciliations: each one leaves what its contract says. */
  ghost predicate IsRun(states: seq<Ledger>, inputs: seq<Inputs>) {
    && |states| == |inputs| + 1
    && forall i | 0 <= i < |inputs| :: Canonical(states[i].Base(), inputs[i], states[i + 1])
  }

  lemma {:induction false} RunKeepsForeign(states: seq<Ledger>, inputs: seq<Inputs>, i: nat)
    requires IsRun(states, inputs) && i < |states|
    ensures states[i].Base() == states[0].Base()
    decreases i
  {
    if i > 0 { RunKeepsForeign(states, inputs, i - 1); }
  }

  /** Any run ends, up to dependency row ids, where one reconciliation of the
      first store with the last inputs ends; and it never touches what the
      ownership record did not name. */
  lemma HistoryIndependent(states: seq<Ledger>, inputs: seq<Inputs>, direct: Ledger)
    requires IsRun(states, inputs) && |inputs| > 0
    requires Canonical(states[0].Base(), inputs[|inputs| - 1], direct)
    ensures SameUpToIds(states[|states| - 1], direct) && direct.Base() == states[0].Base()
  {
    var n := |inputs|;
    RunKeepsForeign(states, inputs, n - 1);
    CanonicalUnique(states[0].Base(), inputs[n - 1], states[n], direct);
  }
}
