/** What dependency reconciliation reads (code_graph_io/dependencies.py): the
    manifests of the workspace, the identities they declare, and the loops that
    gather them. */
module Manifests {
  import opened Paths
  import opened Tables
  import opened Upsert
  import opened Uris

  datatype ManifestDependency = ManifestDependency(ecosystem: string, name: string, spec: string)

  datatype ManifestPackage = ManifestPackage(
    repo: RepoContext, name: string, ecosystem: string, distributable: bool, dependencies: seq<ManifestDependency>)

  /** The manifests of the workspace, and the dependencies each virtual
      repository root declares. */
  datatype Inputs = Inputs(manifests: seq<ManifestPackage>, virtuals: seq<(RepoContext, seq<ManifestDependency>)>)

  function LowerChar(c: char): char {
    if 'A' <= c <= 'Z' then c - 'A' + 'a' else c
  }

  function Lower(s: string): string {
    seq(|s|, i requires 0 <= i < |s| => LowerChar(s[i]))
  }

  predicate IsDash(c: char) {
    c in {'-', '_', '.'}
  }

  /** Runs of dashes, underscores and dots become one dash. */
  function Collapse(s: string): string {
    if s == "" then ""
    else if !IsDash(s[0]) then [s[0]] + Collapse(s[1..])
    else if |s| > 1 && IsDash(s[1]) then Collapse(s[1..])
    else ['-'] + Collapse(s[1..])
  }

  predicate Supported(ecosystem: string) {
    ecosystem in {"pypi", "npm"}
  }

  /** `_normalize_name`, for a supported ecosystem. */
  function NormalizeName(ecosystem: string, name: string): string {
    if ecosystem == "pypi" then Lower(Collapse(name)) else Lower(name)
  }

  /** No two dashes in a row, and only `-` among them. */
  predicate Tidy(s: string) {
    && (forall i | 0 <= i < |s| && IsDash(s[i]) :: s[i] == '-')
    && (forall i | 0 <= i < |s| - 1 :: !(IsDash(s[i]) && IsDash(s[i + 1])))
  }

  lemma {:induction false} CollapseTidies(s: string)
    ensures Tidy(Collapse(s)) && (s != "" ==> Collapse(s) != "" && (IsDash(Collapse(s)[0]) <==> IsDash(s[0])))
  {
    if s != "" { CollapseTidies(s[1..]); }
  }

  lemma {:induction false} TidyStays(s: string)
    requires Tidy(s)
    ensures Collapse(s) == s
  {
    if s != "" {
      assert forall i | 0 <= i < |s| - 1 :: s[1..][i] == s[i + 1];
      TidyStays(s[1..]);
    }
  }

  /** A normalized name is its own normalized form: identities are stable. */
  lemma NormalizeIdempotent(ecosystem: string, name: string)
    ensures NormalizeName(ecosystem, NormalizeName(ecosystem, name)) == NormalizeName(ecosystem, name)
  {
    var c := Collapse(name);
    CollapseTidies(name);
    assert forall i | 0 <= i < |c| :: IsDash(Lower(c)[i]) <==> IsDash(c[i]);
    TidyStays(Lower(c));
    assert Lower(Lower(c)) == Lower(c);
    assert Lower(Lower(name)) == Lower(name);
  }

  // ----- When two names are one ----------------------------------------------------------------

  /** The same character, or one letter in either case. */
  predicate SameLetter(c: char, d: char) {
    || c == d
    || ('A' <= c <= 'Z' && 'a' <= d <= 'z' && c - 'A' == d - 'a')
    || ('a' <= c <= 'z' && 'A' <= d <= 'Z' && c - 'a' == d - 'A')
  }

  predicate Upper(c: char) {
    'A' <= c <= 'Z'
  }

  /** The length of the run of `-`, `_` and `.` that the name starts with. */
  function Run(name: string): (n: nat)
    ensures n <= |name| && (forall i | 0 <= i < n :: name[i] in {'-', '_', '.'})
    ensures n < |name| ==> name[n] !in {'-', '_', '.'}
  {
    if name != "" && name[0] in {'-', '_', '.'} then 1 + Run(name[1..]) else 0
  }

  /** The names differ at most in the case of letters and in which nonempty run of
      `-`, `_` and `.` stands where either has one. */
  predicate SameProject(a: string, b: string)
    decreases |a|
  {
    if a == "" || b == "" then a == b
    else if Run(a) > 0 then Run(b) > 0 && SameProject(a[Run(a)..], b[Run(b)..])
    else Run(b) == 0 && SameLetter(a[0], b[0]) && SameProject(a[1..], b[1..])
  }

  /** The names differ at most in the case of letters. */
  predicate SameLetters(a: string, b: string) {
    |a| == |b| && forall i | 0 <= i < |a| :: SameLetter(a[i], b[i])
  }

  /** When an index of the ecosystem takes two names for one package. */
  predicate SameName(ecosystem: string, a: string, b: string) {
    if ecosystem == "pypi" then SameProject(a, b) else SameLetters(a, b)
  }

  lemma SameLetterIff(c: char, d: char)
    ensures LowerChar(c) == LowerChar(d) <==> SameLetter(c, d)
    ensures !Upper(LowerChar(c)) && SameLetter(LowerChar(c), c)
  {
  }

  /** A leading run becomes one dash. */
  lemma {:induction false} CollapseRun(name: string)
    requires Run(name) > 0
    ensures Collapse(name) == "-" + Collapse(name[Run(name)..])
  {
    if Run(name) > 1 {
      CollapseRun(name[1..]);
      assert name[1..][Run(name[1..])..] == name[Run(name)..];
    }
  }

  lemma LowerCons(c: char, s: string)
    ensures Lower([c] + s) == [LowerChar(c)] + Lower(s)
  {
  }

  lemma ConsEqual(c: char, s: string, d: char, t: string)
    ensures [c] + s == [d] + t <==> c == d && s == t
  {
    assert ([c] + s)[1..] == s && ([d] + t)[1..] == t;
  }

  lemma PypiHead(name: string)
    requires name != ""
    ensures Run(name) > 0 ==> NormalizeName("pypi", name) == ['-'] + NormalizeName("pypi", name[Run(name)..])
    ensures Run(name) == 0 ==> NormalizeName("pypi", name) == [LowerChar(name[0])] + NormalizeName("pypi", name[1..])
    ensures Run(name) == 0 ==> LowerChar(name[0]) != '-'
  {
    if Run(name) > 0 {
      CollapseRun(name);
      LowerCons('-', Collapse(name[Run(name)..]));
    } else {
      LowerCons(name[0], Collapse(name[1..]));
    }
  }

  lemma {:induction false} PypiNamesMeet(a: string, b: string)
    ensures NormalizeName("pypi", a) == NormalizeName("pypi", b) <==> SameProject(a, b)
    decreases |a|
  {
    if a != "" { PypiHead(a); }
    if b != "" { PypiHead(b); }
    if a == "" || b == "" {
      assert Collapse("") == "";
    } else if Run(a) > 0 && Run(b) > 0 {
      var x, y := NormalizeName("pypi", a[Run(a)..]), NormalizeName("pypi", b[Run(b)..]);
      hide NormalizeName;
      ConsEqual('-', x, '-', y);
      PypiNamesMeet(a[Run(a)..], b[Run(b)..]);
    } else if Run(a) == 0 && Run(b) == 0 {
      var x, y := NormalizeName("pypi", a[1..]), NormalizeName("pypi", b[1..]);
      hide NormalizeName;
      ConsEqual(LowerChar(a[0]), x, LowerChar(b[0]), y);
      SameLetterIff(a[0], b[0]);
      PypiNamesMeet(a[1..], b[1..]);
    } else {
      hide LowerChar;
    }
  }

  lemma LettersMeet(a: string, b: string)
    ensures Lower(a) == Lower(b) <==> SameLetters(a, b)
  {
    assert |Lower(a)| == |a| && |Lower(b)| == |b|;
    forall i | 0 <= i < |a| && i < |b| ensures Lower(a)[i] == Lower(b)[i] <==> SameLetter(a[i], b[i]) {
      SameLetterIff(a[i], b[i]);
    }
  }

  /** Two names have one normal form exactly if the ecosystem's index takes them
      for one package. */
  lemma NamesMeet(ecosystem: string, a: string, b: string)
    requires Supported(ecosystem)
    ensures NormalizeName(ecosystem, a) == NormalizeName(ecosystem, b) <==> SameName(ecosystem, a, b)
  {
    if ecosystem == "pypi" { PypiNamesMeet(a, b); } else { LettersMeet(a, b); }
  }

  /** The normal form of a name for PyPI has no capital, no `_` or `.`, and no two
      dashes in a row; for npm it is the name in lower case. */
  lemma NormalForm(name: string)
    ensures forall c | c in NormalizeName("pypi", name) :: !Upper(c) && c !in {'_', '.'}
    ensures var n := NormalizeName("pypi", name); forall i | 0 <= i < |n| - 1 :: !(n[i] == '-' && n[i + 1] == '-')
    ensures SameProject(name, NormalizeName("pypi", name))
    ensures var n := NormalizeName("npm", name); SameLetters(name, n) && forall c | c in n :: !Upper(c)
  {
    var c := Collapse(name);
    CollapseTidies(name);
    forall i | 0 <= i < |c| ensures !Upper(Lower(c)[i]) && (IsDash(Lower(c)[i]) <==> IsDash(c[i])) {
      SameLetterIff(c[i], c[i]);
    }
    forall i | 0 <= i < |name| ensures SameLetter(name[i], Lower(name)[i]) && !Upper(Lower(name)[i]) {
      SameLetterIff(name[i], name[i]);
    }
    NormalizeIdempotent("pypi", name);
    PypiNamesMeet(name, NormalizeName("pypi", name));
  }

  datatype ScopedKey = ScopedKey(ctx: RepoContext, ecosystem: string, name: string) {
    predicate WellNamed() {
      ctx.WellNamed() && Supported(ecosystem)
    }

    function Uri(): string {
      DependencyUri(ctx, ecosystem, name)
    }

    function Key(): NodeKey {
      NodeKey(DEPENDENCY, name, Some(DependencyPath(ctx, ecosystem, name)))
    }
  }

  datatype Declaration = Declaration(key: ScopedKey, consumer: string, entry: Option<string>, isPackage: bool)

  function Entry(key: ScopedKey, d: ManifestDependency): Option<string> {
    if d.spec == "" then None else Some(if d.ecosystem == "pypi" then key.name + d.spec else d.spec)
  }

  function Declare(ctx: RepoContext, consumer: string, d: ManifestDependency, isPackage: bool): Declaration {
    var key := ScopedKey(ctx, d.ecosystem, NormalizeName(d.ecosystem, d.name));
    Declaration(key, consumer, Entry(key, d), isPackage)
  }

  function Declared(ctx: RepoContext, consumer: string, ds: seq<ManifestDependency>,
                    isPackage: bool): seq<Declaration> {
    seq(|ds|, i requires 0 <= i < |ds| => Declare(ctx, consumer, ds[i], isPackage))
  }

  function ByManifests(ms: seq<ManifestPackage>): seq<Declaration> {
    if ms == [] then []
    else
      var m := ms[|ms| - 1];
      ByManifests(ms[..|ms| - 1]) +
          if m.distributable then Declared(m.repo, PkgUri(m.repo, m.name), m.dependencies, true) else []
  }

  function ByVirtuals(vs: seq<(RepoContext, seq<ManifestDependency>)>): seq<Declaration> {
    if vs == [] then []
    else
      var v := vs[|vs| - 1];
      ByVirtuals(vs[..|vs| - 1]) + Declared(v.0, RepoUri(v.0), v.1, false)
  }

  function Declarations(inputs: Inputs): seq<Declaration> {
    ByManifests(inputs.manifests) + ByVirtuals(inputs.virtuals)
  }

  /** The distributable packages that implement an (ecosystem, name) identity. */
  function Implementations(ms: seq<ManifestPackage>, ecosystem: string, name: string): set<string> {
    set m | m in ms && m.distributable && m.ecosystem == ecosystem &&
            NormalizeName(m.ecosystem, m.name) == name :: PkgUri(m.repo, m.name)
  }

  function ImplementedBy(inputs: Inputs, key: ScopedKey): set<string> {
    Implementations(inputs.manifests, key.ecosystem, key.name)
  }

  predicate SupportedAll(ds: seq<ManifestDependency>) {
    forall d | d in ds :: Supported(d.ecosystem)
  }

  predicate SupportedManifest(m: ManifestPackage) {
    m.distributable ==> Supported(m.ecosystem) && SupportedAll(m.dependencies)
  }

  predicate AllSupported(inputs: Inputs) {
    && (forall m | m in inputs.manifests :: SupportedManifest(m))
    && (forall v | v in inputs.virtuals :: SupportedAll(v.1))
  }

  predicate WellNamedInputs(inputs: Inputs) {
    forall d | d in Declarations(inputs) :: d.key.WellNamed()
  }

  function KeysOf(ds: seq<Declaration>): set<ScopedKey> {
    set d | d in ds :: d.key
  }

  function VersionsOf(ds: seq<Declaration>, key: ScopedKey): set<string> {
    set d | d in ds && d.key == key && d.entry.Some? :: d.entry.value
  }

  function Keys(inputs: Inputs): set<ScopedKey> {
    KeysOf(Declarations(inputs))
  }

  function Versions(inputs: Inputs, key: ScopedKey): set<string> {
    VersionsOf(Declarations(inputs), key)
  }

  function RegistryUrl(ecosystem: string, name: string): string {
    if ecosystem == "pypi" then "https://pypi.org/project/" + name + "/" else "https://www.npmjs.com/package/" + name
  }

  function RecordOf(key: ScopedKey, versions: set<string>): GraphNode {
    GraphNode(key.Key(), None,
              map["ecosystem" := Text(key.ecosystem), "name" := Text(key.name),
                  "url" := Text(RegistryUrl(key.ecosystem, key.name)), "versions_in_use" := Texts(versions)],
              Some(key.Uri()))
  }

  function DependencyRecord(inputs: Inputs, key: ScopedKey): GraphNode {
    RecordOf(key, Versions(inputs, key))
  }

  /** The row a declared dependency must end with, whatever was there before. */
  function DependencyRow(inputs: Inputs, key: ScopedKey): Row {
    var record := DependencyRecord(inputs, key);
    Row(DEPENDENCY, key.name, key.Key().path, None, Serialize(record.attrs), Some(key.Uri()), Some(RepoUri(key.ctx)))
  }

  // ----- Gathering -----------------------------------------------------------------------------

  /** The package URIs filed under an (ecosystem, name) identity. */
  function Listed(implementations: map<(string, string), seq<string>>, ecosystem: string, name: string): set<string> {
    if (ecosystem, name) in implementations then set p | p in implementations[(ecosystem, name)] else {}
  }

  ghost predicate ListsAll(implementations: map<(string, string), seq<string>>, ms: seq<ManifestPackage>) {
    forall ecosystem, name :: Listed(implementations, ecosystem, name) == Implementations(ms, ecosystem, name)
  }

  /** A bucket per declared key, with the version entries declared for it. */
  ghost predicate Tallies(versions: map<ScopedKey, set<string>>, ds: seq<Declaration>) {
    versions.Keys == KeysOf(ds) && forall k | k in versions :: versions[k] == VersionsOf(ds, k)
  }

  function Filed(implementations: map<(string, string), seq<string>>, ecosystem: string, name: string, uri: string)
    : map<(string, string), seq<string>>
  {
    var bucket := if (ecosystem, name) in implementations then implementations[(ecosystem, name)] else [];
    implementations[(ecosystem, name) := bucket + [uri]]
  }

  lemma TalliesOne(versions: map<ScopedKey, set<string>>, ds: seq<Declaration>, d: Declaration)
    requires Tallies(versions, ds)
    ensures var bucket := if d.key in versions then versions[d.key] else {};
            Tallies(versions[d.key := bucket + if d.entry.Some? then {d.entry.value} else {}], ds + [d])
  {
    assert forall x :: x in ds + [d] <==> x in ds || x == d;
    assert d.key !in versions ==> VersionsOf(ds, d.key) == {};
    forall k ensures VersionsOf(ds + [d], k) ==
                       VersionsOf(ds, k) + if k == d.key && d.entry.Some? then {d.entry.value} else {} {
    }
  }

  lemma ListsOne(implementations: map<(string, string), seq<string>>, ms: seq<ManifestPackage>, m: ManifestPackage)
    requires ListsAll(implementations, ms)
    ensures !m.distributable ==> ListsAll(implementations, ms + [m])
    ensures m.distributable ==>
              ListsAll(Filed(implementations, m.ecosystem, NormalizeName(m.ecosystem, m.name), PkgUri(m.repo, m.name)),
                  ms + [m])
  {
    var more, uri, own := ms + [m], PkgUri(m.repo, m.name), NormalizeName(m.ecosystem, m.name);
    assert forall x :: x in more <==> x in ms || x == m;
    hide NormalizeName;
    hide PkgUri;
    forall ecosystem, name
      ensures Implementations(more, ecosystem, name) == Implementations(ms, ecosystem, name) +
                if m.distributable && m.ecosystem == ecosystem && own == name then {uri} else {} {
    }
    var filed := Filed(implementations, m.ecosystem, own, uri);
    forall ecosystem, name
      ensures Listed(filed, ecosystem, name) == Listed(implementations, ecosystem, name) +
                if m.ecosystem == ecosystem && own == name then {uri} else {} {
      assert Listed(implementations, ecosystem, name) == Implementations(ms, ecosystem, name);
    }
  }

  /** The accumulators of `reconcile_dependencies` and its inner `declare`. */
  class Gatherer {
    var implementations: map<(string, string), seq<string>>
    var versions: map<ScopedKey, set<string>>
    var declarations: seq<Declaration>

    constructor ()
      ensures implementations == map[] && versions == map[] && declarations == []
    {
      implementations, versions, declarations := map[], map[], [];
    }

    /** `declare`: a use of the dependency, and its version entry if it has a
        spec; refused for an ecosystem without a normal form. */
    method DeclareOne(ctx: RepoContext, consumer: string, d: ManifestDependency, isPackage: bool) returns (ok: bool)
      requires Tallies(versions, declarations)
      modifies this`versions, this`declarations
      ensures ok <==> d.ecosystem == "pypi" || d.ecosystem == "npm"
      ensures ok ==> Tallies(versions, declarations)
      ensures ok ==> declarations == old(declarations) + [Declare(ctx, consumer, d, isPackage)]
    {
      if !Supported(d.ecosystem) {
        return false;
      }
      var key := ScopedKey(ctx, d.ecosystem, NormalizeName(d.ecosystem, d.name));
      TalliesOne(versions, declarations, Declare(ctx, consumer, d, isPackage));
      declarations := declarations + [Declaration(key, consumer, Entry(key, d), isPackage)];
      var bucket := if key in versions then versions[key] else {};
      if d.spec != "" {
        bucket := bucket + {if d.ecosystem == "pypi" then key.name + d.spec else d.spec};
      }
      versions := versions[key := bucket];
      return true;
    }

    method DeclareEach(ctx: RepoContext, consumer: string, ds: seq<ManifestDependency>, isPackage: bool)
      returns (ok: bool)
      requires Tallies(versions, declarations)
      modifies this`versions, this`declarations
      ensures ok <==> SupportedAll(ds)
      ensures ok ==> Tallies(versions, declarations)
      ensures ok ==> declarations == old(declarations) + Declared(ctx, consumer, ds, isPackage)
    {
      for i := 0 to |ds|
        invariant Tallies(versions, declarations) && SupportedAll(ds[..i])
        invariant declarations == old(declarations) + Declared(ctx, consumer, ds[..i], isPackage)
      {
        hide Tallies;
        DeclaredOne(ctx, consumer, ds, i, isPackage);
        ok := DeclareOne(ctx, consumer, ds[i], isPackage);
        if !ok {
          return;
        }
      }
      assert ds[..|ds|] == ds;
      return true;
    }

    /** The first loop: distributable manifests, filed and their dependencies declared. */
    method ReadManifests(ms: seq<ManifestPackage>) returns (ok: bool)
      requires implementations == map[] && versions == map[] && declarations == []
      modifies this
      ensures ok <==> forall m | m in ms :: SupportedManifest(m)
      ensures ok ==> Tallies(versions, declarations) && declarations == ByManifests(ms) && ListsAll(implementations, ms)
    {
      GatheredNothing();
      for i := 0 to |ms|
        invariant Tallies(versions, declarations) && declarations == ByManifests(ms[..i]) &&
                    ListsAll(implementations, ms[..i])
        invariant forall m | m in ms[..i] :: SupportedManifest(m)
      {
        hide Tallies;
        hide ListsAll;
        var m := ms[i];
        assert m in ms;
        OneManifest(ms, i);
        ListsOne(implementations, ms[..i], m);
        if m.distributable {
          if !Supported(m.ecosystem) {
            return false;
          }
          implementations := Filed(implementations, m.ecosystem, NormalizeName(m.ecosystem, m.name),
              PkgUri(m.repo, m.name));
          ok := DeclareEach(m.repo, PkgUri(m.repo, m.name), m.dependencies, true);
          if !ok {
            return;
          }
        }
      }
      assert ms[..|ms|] == ms;
      return true;
    }

    /** The second loop: what virtual repository roots declare. */
    method ReadVirtuals(vs: seq<(RepoContext, seq<ManifestDependency>)>) returns (ok: bool)
      requires Tallies(versions, declarations)
      modifies this`versions, this`declarations
      ensures ok <==> forall v | v in vs :: SupportedAll(v.1)
      ensures ok ==> Tallies(versions, declarations) && declarations == old(declarations) + ByVirtuals(vs)
    {
      for i := 0 to |vs|
        invariant Tallies(versions, declarations) && declarations == old(declarations) + ByVirtuals(vs[..i])
        invariant forall v | v in vs[..i] :: SupportedAll(v.1)
      {
        hide Tallies;
        OneVirtual(vs, i);
        ok := DeclareEach(vs[i].0, RepoUri(vs[i].0), vs[i].1, false);
        if !ok {
          return;
        }
      }
      assert vs[..|vs|] == vs;
      return true;
    }

    /** Everything the reconciler gathers before it writes: it refuses exactly if
        some ecosystem is unsupported. */
    method Gather(inputs: Inputs) returns (ok: bool)
      requires implementations == map[] && versions == map[] && declarations == []
      modifies this
      ensures ok <==> AllSupported(inputs)
      ensures ok ==> declarations == Declarations(inputs) && Tallies(versions, declarations)
                     && ListsAll(implementations, inputs.manifests)
    {
      ok := ReadManifests(inputs.manifests);
      if ok {
        ok := ReadVirtuals(inputs.virtuals);
      }
    }
  }

  lemma GatheredNothing()
    ensures Tallies(map[], []) && ListsAll(map[], []) && ByManifests([]) == []
  {
  }

  lemma DeclaredOne(ctx: RepoContext, consumer: string, ds: seq<ManifestDependency>, i: nat, isPackage: bool)
    requires i < |ds|
    ensures Declared(ctx, consumer, ds[..i + 1], isPackage) ==
            Declared(ctx, consumer, ds[..i], isPackage) + [Declare(ctx, consumer, ds[i], isPackage)]
    ensures SupportedAll(ds[..i + 1]) <==> SupportedAll(ds[..i]) && Supported(ds[i].ecosystem)
    ensures SupportedAll(ds) ==> Supported(ds[i].ecosystem)
  {
    assert forall d :: d in ds[..i + 1] <==> d in ds[..i] || d == ds[i];
  }

  lemma OneManifest(ms: seq<ManifestPackage>, i: nat)
    requires i < |ms|
    ensures ms[..i + 1] == ms[..i] + [ms[i]]
    ensures ByManifests(ms[..i + 1]) == ByManifests(ms[..i]) +
              if ms[i].distributable
              then Declared(ms[i].repo, PkgUri(ms[i].repo, ms[i].name), ms[i].dependencies, true) else []
  {
    assert ms[..i + 1][..i] == ms[..i];
  }

  lemma OneVirtual(vs: seq<(RepoContext, seq<ManifestDependency>)>, i: nat)
    requires i < |vs|
    ensures vs[..i + 1] == vs[..i] + [vs[i]]
    ensures ByVirtuals(vs[..i + 1]) == ByVirtuals(vs[..i]) + Declared(vs[i].0, RepoUri(vs[i].0), vs[i].1, false)
  {
    assert vs[..i + 1][..i] == vs[..i];
  }
}
