/** What a canonical store holds, in terms of the manifests themselves
    (code_graph_io/dependencies.py): which dependency rows, with which columns,
    and which edges. */
module ReconcileMeaning {
  import opened Paths
  import opened Tables
  import opened Upsert
  import opened Uris
  import opened Manifests
  import opened Reconcile

  /** A distributable package of the repository, or its virtual root, asks for `d`. */
  ghost predicate Asks(inputs: Inputs, ctx: RepoContext, consumer: string, d: ManifestDependency, isPackage: bool) {
    if isPackage then
      exists m :: m in inputs.manifests && m.distributable && d in m.dependencies && m.repo == ctx &&
                  consumer == "pkg:" + ctx.org + "/" + ctx.repo + "/" + m.name
    else
      consumer == "repo:" + ctx.org + "/" + ctx.repo && exists v :: v in inputs.virtuals && v.0 == ctx && d in v.1
  }

  /** The version entry that a use contributes. */
  predicate IsEntry(d: ManifestDependency, normal: string, entry: Option<string>) {
    if d.spec == "" then entry == None
    else entry == Some(if d.ecosystem == "pypi" then normal + d.spec else d.spec)
  }

  ghost predicate DeclaredFor(inputs: Inputs, x: Declaration, d: ManifestDependency) {
    && Asks(inputs, x.key.ctx, x.consumer, d, x.isPackage)
    && x.key.ecosystem == d.ecosystem && x.key.name == NormalizeName(d.ecosystem, d.name)
    && IsEntry(d, x.key.name, x.entry)
  }

  lemma InDeclared(ctx: RepoContext, consumer: string, ds: seq<ManifestDependency>, isPackage: bool, x: Declaration)
    ensures x in Declared(ctx, consumer, ds, isPackage) <==>
              exists d :: d in ds && x == Declare(ctx, consumer, d, isPackage)
  {
    var out := Declared(ctx, consumer, ds, isPackage);
    assert |out| == |ds| && forall i | 0 <= i < |ds| :: out[i] == Declare(ctx, consumer, ds[i], isPackage);
    if d :| d in ds && x == Declare(ctx, consumer, d, isPackage) {
      var i :| 0 <= i < |ds| && ds[i] == d;
      assert out[i] == x;
    }
    if x in out {
      var i :| 0 <= i < |out| && out[i] == x;
      assert ds[i] in ds;
    }
  }

  lemma {:induction false} InManifests(ms: seq<ManifestPackage>, x: Declaration)
    ensures x in ByManifests(ms) <==>
              exists m, d :: m in ms && m.distributable && d in m.dependencies &&
                             x == Declare(m.repo, PkgUri(m.repo, m.name), d, true)
  {
    if ms != [] {
      var init, last := ms[..|ms| - 1], ms[|ms| - 1];
      InManifests(init, x);
      InDeclared(last.repo, PkgUri(last.repo, last.name), last.dependencies, true, x);
      hide Declare;
      hide Declared;
      hide PkgUri;
      assert forall m :: m in ms <==> m in init || m == last;
    }
  }

  lemma {:induction false} InVirtuals(vs: seq<(RepoContext, seq<ManifestDependency>)>, x: Declaration)
    ensures x in ByVirtuals(vs) <==>
              exists v, d :: v in vs && d in v.1 && x == Declare(v.0, RepoUri(v.0), d, false)
  {
    if vs != [] {
      var init, last := vs[..|vs| - 1], vs[|vs| - 1];
      InVirtuals(init, x);
      InDeclared(last.0, RepoUri(last.0), last.1, false, x);
      hide Declare;
      hide Declared;
      hide RepoUri;
      assert forall v :: v in vs <==> v in init || v == last;
    }
  }

  /** The declarations are one for each use that a manifest or a root asks for. */
  lemma DeclarationsMean(inputs: Inputs, x: Declaration)
    ensures x in Declarations(inputs) <==> exists d :: DeclaredFor(inputs, x, d)
  {
    InManifests(inputs.manifests, x);
    InVirtuals(inputs.virtuals, x);
    hide NormalizeName;
    if x in ByManifests(inputs.manifests) {
      var m, d :| m in inputs.manifests && m.distributable && d in m.dependencies &&
                  x == Declare(m.repo, PkgUri(m.repo, m.name), d, true);
      assert DeclaredFor(inputs, x, d);
    } else if x in ByVirtuals(inputs.virtuals) {
      var v, d :| v in inputs.virtuals && d in v.1 && x == Declare(v.0, RepoUri(v.0), d, false);
      assert DeclaredFor(inputs, x, d);
    }
    if d :| DeclaredFor(inputs, x, d) {
      if x.isPackage {
        var m :| m in inputs.manifests && m.distributable && d in m.dependencies && m.repo == x.key.ctx &&
                 x.consumer == "pkg:" + x.key.ctx.org + "/" + x.key.ctx.repo + "/" + m.name;
        assert x == Declare(m.repo, PkgUri(m.repo, m.name), d, true);
      } else {
        var v :| v in inputs.virtuals && v.0 == x.key.ctx && d in v.1;
        assert x == Declare(v.0, RepoUri(v.0), d, false);
      }
    }
  }

  function DependencyOf(ctx: RepoContext, d: ManifestDependency): string {
    "dependency:" + ctx.org + "/" + ctx.repo + "/" + d.ecosystem + "/" + NormalizeName(d.ecosystem, d.name)
  }

  /** The package is published under the name that `d` asks for. */
  ghost predicate Publishes(inputs: Inputs, d: ManifestDependency, uri: string) {
    exists m :: m in inputs.manifests && m.distributable && m.ecosystem == d.ecosystem &&
                SameName(d.ecosystem, d.name, m.name) &&
                uri == "pkg:" + m.repo.org + "/" + m.repo.repo + "/" + m.name
  }

  /** What the inputs call for between two URIs. */
  ghost predicate CallsFor(inputs: Inputs, from: string, kind: string, to: string) {
    exists ctx, consumer, d, isPackage :: Asks(inputs, ctx, consumer, d, isPackage) &&
      CalledBy(inputs, ctx, consumer, d, isPackage, from, kind, to)
  }

  /** A use calls for an edge from its consumer to the dependency of its own
      repository, one from that dependency to every package published under the
      name, and, if a package uses it, one from the package to each of these. */
  ghost predicate CalledBy(inputs: Inputs, ctx: RepoContext, consumer: string, d: ManifestDependency, isPackage: bool,
                           from: string, kind: string, to: string)
  {
    || (kind == "used_by" && from == consumer && to == DependencyOf(ctx, d))
    || (kind == "implemented_by" && from == DependencyOf(ctx, d) && Publishes(inputs, d, to))
    || (kind == "depends_on_package" && isPackage && from == consumer && Publishes(inputs, d, to))
  }

  lemma ImplementsIffPublishes(inputs: Inputs, x: Declaration, d: ManifestDependency, uri: string)
    requires DeclaredFor(inputs, x, d) && Supported(d.ecosystem)
    ensures uri in ImplementedBy(inputs, x.key) <==> Publishes(inputs, d, uri)
  {
    hide Asks;
    hide IsEntry;
    forall m: ManifestPackage | m.ecosystem == d.ecosystem
      ensures NormalizeName(m.ecosystem, m.name) == x.key.name <==> SameName(d.ecosystem, d.name, m.name)
    {
      NamesMeet(d.ecosystem, d.name, m.name);
    }
    hide NormalizeName;
    hide SameName;
    if uri in ImplementedBy(inputs, x.key) {
      var m :| m in inputs.manifests && m.distributable && m.ecosystem == x.key.ecosystem &&
               NormalizeName(m.ecosystem, m.name) == x.key.name && uri == PkgUri(m.repo, m.name);
    }
  }

  lemma AskedIsSupported(inputs: Inputs, ctx: RepoContext, consumer: string, d: ManifestDependency, isPackage: bool)
    requires AllSupported(inputs) && Asks(inputs, ctx, consumer, d, isPackage)
    ensures Supported(d.ecosystem)
  {
  }

  lemma AskedIsDeclared(inputs: Inputs, ctx: RepoContext, consumer: string, d: ManifestDependency, isPackage: bool)
    requires Asks(inputs, ctx, consumer, d, isPackage)
    ensures var x := Declare(ctx, consumer, d, isPackage);
            x in Declarations(inputs) && DeclaredFor(inputs, x, d) && x.key.Uri() == DependencyOf(ctx, d)
  {
    hide Asks;
    hide NormalizeName;
    var x := Declare(ctx, consumer, d, isPackage);
    assert DeclaredFor(inputs, x, d);
    DeclarationsMean(inputs, x);
  }

  lemma DeclaredIsAsked(inputs: Inputs, x: Declaration) returns (d: ManifestDependency)
    requires x in Declarations(inputs)
    ensures DeclaredFor(inputs, x, d) && x.key.Uri() == DependencyOf(x.key.ctx, d)
  {
    DeclarationsMean(inputs, x);
    d :| DeclaredFor(inputs, x, d);
    hide Asks;
    hide NormalizeName;
  }

  lemma OwnedIffCalledFor(inputs: Inputs, from: string, kind: string, to: string)
    requires AllSupported(inputs)
    ensures Identity(from, kind, to) in OwnedIdentities(inputs) <==> CallsFor(inputs, from, kind, to)
  {
    if Identity(from, kind, to) in OwnedIdentities(inputs) {
      OwnedIsCalledFor(inputs, from, kind, to);
    }
    if ctx, consumer, d, isPackage :| Asks(inputs, ctx, consumer, d, isPackage) &&
                                      CalledBy(inputs, ctx, consumer, d, isPackage, from, kind, to) {
      AskedIsDeclared(inputs, ctx, consumer, d, isPackage);
      AskedIsSupported(inputs, ctx, consumer, d, isPackage);
      var x := Declare(ctx, consumer, d, isPackage);
      ImplementsIffPublishes(inputs, x, d, to);
      hide Asks;
      hide Publishes;
      hide NormalizeName;
      hide ImplementedBy;
      hide Declarations;
    }
  }

  lemma OwnedIsCalledFor(inputs: Inputs, from: string, kind: string, to: string)
    requires AllSupported(inputs) && Identity(from, kind, to) in OwnedIdentities(inputs)
    ensures CallsFor(inputs, from, kind, to)
  {
    hide ImplementedBy;
    var x: Declaration :| x in Declarations(inputs) &&
      (Identity(from, kind, to) == Identity(x.consumer, "used_by", x.key.Uri()) ||
       (to in ImplementedBy(inputs, x.key) &&
        (Identity(from, kind, to) == Identity(x.key.Uri(), "implemented_by", to) ||
         (x.isPackage && Identity(from, kind, to) == Identity(x.consumer, "depends_on_package", to)))));
    var d := DeclaredIsAsked(inputs, x);
    hide Declarations;
    AskedIsSupported(inputs, x.key.ctx, x.consumer, d, x.isPackage);
    ImplementsIffPublishes(inputs, x, d, to);
    hide Asks;
    hide Publishes;
    hide DependencyOf;
    hide ScopedKey.Uri;
    assert CalledBy(inputs, x.key.ctx, x.consumer, d, x.isPackage, from, kind, to);
  }

  /** An edge between rows with these URIs that the foreign tables do not have. */
  ghost predicate HasEdge(base: Tables, t: Tables, from: string, kind: string, to: string) {
    exists e :: e in t.edges && e !in base.edges && e.kind == kind && e.src in t.nodes && e.dst in t.nodes &&
                t.nodes[e.src].uri == Some(from) && t.nodes[e.dst].uri == Some(to)
  }

  /** Besides the foreign edges, the canonical store has exactly the edges that
      the manifests call for. */
  lemma EdgesMean(base: Tables, inputs: Inputs, s: Ledger, from: string, kind: string, to: string)
    requires Canonical(base, inputs, s) && AllSupported(inputs)
    ensures HasEdge(base, s.tables, from, kind, to) <==> CallsFor(inputs, from, kind, to)
  {
    OwnedIffCalledFor(inputs, from, kind, to);
    hide CallsFor;
    hide OwnedIdentities;
    hide CanonicalRows;
    var id := Identity(from, kind, to);
    if e :| e in s.tables.edges && e !in base.edges && Names(s.tables.nodes, e, id) {
      var other :| other in OwnedIdentities(inputs) && Names(s.tables.nodes, e, other);
      assert other == id;
    }
  }

  /** The columns of a dependency's row. */
  ghost predicate RowShows(inputs: Inputs, row: Row, ctx: RepoContext, d: ManifestDependency) {
    var normal := NormalizeName(d.ecosystem, d.name);
    && row.kind == "dependency" && row.name == normal && row.line == None
    && row.path == Some("dependency:" + ctx.org + "/" + ctx.repo + ":" + d.ecosystem + ":" + normal)
    && row.uri == Some(DependencyOf(ctx, d)) && row.repo == Some("repo:" + ctx.org + "/" + ctx.repo)
    && row.attrs.Some? && row.attrs.value.Keys == {"ecosystem", "name", "url", "versions_in_use"}
    && row.attrs.value["ecosystem"] == Text(d.ecosystem) && row.attrs.value["name"] == Text(normal)
    && row.attrs.value["url"] == Text(if d.ecosystem == "pypi" then "https://pypi.org/project/" + normal + "/"
                                      else "https://www.npmjs.com/package/" + normal)
    && row.attrs.value["versions_in_use"].Texts?
    && forall v :: v in row.attrs.value["versions_in_use"].items <==> IsVersion(inputs, ctx, d, v)
  }

  /** The repository asks for the dependency at this version somewhere. */
  ghost predicate IsVersion(inputs: Inputs, ctx: RepoContext, d: ManifestDependency, v: string) {
    exists consumer, other, isPackage :: Asks(inputs, ctx, consumer, other, isPackage) &&
      other.ecosystem == d.ecosystem && SameName(d.ecosystem, d.name, other.name) &&
      IsEntry(other, NormalizeName(d.ecosystem, d.name), Some(v))
  }

  lemma VersionsMean(inputs: Inputs, x: Declaration, d: ManifestDependency, v: string)
    requires AllSupported(inputs) && DeclaredFor(inputs, x, d)
    ensures v in Versions(inputs, x.key) <==> IsVersion(inputs, x.key.ctx, d, v)
  {
    AskedIsSupported(inputs, x.key.ctx, x.consumer, d, x.isPackage);
    hide Asks;
    hide Declarations;
    hide SameName;
    hide NormalizeName;
    if v in Versions(inputs, x.key) {
      var y :| y in Declarations(inputs) && y.key == x.key && y.entry == Some(v);
      var other := DeclaredIsAsked(inputs, y);
      NamesMeet(d.ecosystem, d.name, other.name);
    }
    if IsVersion(inputs, x.key.ctx, d, v) {
      var consumer, other, isPackage :| Asks(inputs, x.key.ctx, consumer, other, isPackage) &&
        other.ecosystem == d.ecosystem && SameName(d.ecosystem, d.name, other.name) &&
        IsEntry(other, NormalizeName(d.ecosystem, d.name), Some(v));
      NamesMeet(d.ecosystem, d.name, other.name);
      AskedIsDeclared(inputs, x.key.ctx, consumer, other, isPackage);
      var y := Declare(x.key.ctx, consumer, other, isPackage);
      assert y.key == x.key && y.entry == Some(v);
    }
  }

  lemma DeclaredRowShows(inputs: Inputs, x: Declaration, d: ManifestDependency)
    requires AllSupported(inputs) && DeclaredFor(inputs, x, d) && x.key.Uri() == DependencyOf(x.key.ctx, d)
    ensures RowShows(inputs, DependencyRow(inputs, x.key), x.key.ctx, d)
  {
    forall v ensures v in Versions(inputs, x.key) <==> IsVersion(inputs, x.key.ctx, d, v) {
      VersionsMean(inputs, x, d, v);
    }
    hide Versions;
    hide IsVersion;
    hide Asks;
    hide IsEntry;
    hide NormalizeName;
    assert DependencyRecord(inputs, x.key).attrs.Keys == {"ecosystem", "name", "url", "versions_in_use"};
  }

  /** Besides the foreign rows, the canonical store has a row for each dependency
      that the manifests ask for, with these columns, and no other. */
  lemma RowsMean(base: Tables, inputs: Inputs, s: Ledger)
    requires Canonical(base, inputs, s) && AllSupported(inputs)
    ensures forall i | i in s.tables.nodes && i !in base.nodes :: exists ctx, consumer, d, isPackage ::
              Asks(inputs, ctx, consumer, d, isPackage) && RowShows(inputs, s.tables.nodes[i], ctx, d)
    ensures forall ctx, consumer, d, isPackage | Asks(inputs, ctx, consumer, d, isPackage) ::
              exists i :: i in s.tables.nodes && i !in base.nodes && RowShows(inputs, s.tables.nodes[i], ctx, d)
  {
    hide CanonicalEdges;
    hide Asks;
    hide RowShows;
    hide DependencyRow;
    hide Declarations;
    hide Ledger.Base;
    forall i | i in s.tables.nodes && i !in base.nodes
      ensures exists ctx, consumer, d, isPackage ::
                Asks(inputs, ctx, consumer, d, isPackage) && RowShows(inputs, s.tables.nodes[i], ctx, d)
    {
      assert IsDeclaredRow(inputs, s.tables.nodes[i]);
      var k :| k in Keys(inputs) && s.tables.nodes[i] == DependencyRow(inputs, k);
      var x :| x in Declarations(inputs) && x.key == k;
      var d := DeclaredIsAsked(inputs, x);
      DeclaredRowShows(inputs, x, d);
    }
    forall ctx, consumer, d, isPackage | Asks(inputs, ctx, consumer, d, isPackage)
      ensures exists i :: i in s.tables.nodes && i !in base.nodes && RowShows(inputs, s.tables.nodes[i], ctx, d)
    {
      AskedIsDeclared(inputs, ctx, consumer, d, isPackage);
      var x := Declare(ctx, consumer, d, isPackage);
      DeclaredRowShows(inputs, x, d);
      assert x.key in Keys(inputs);
      var i :| IsRowOf(base.nodes, s.tables.nodes, inputs, x.key, i);
    }
  }
}
