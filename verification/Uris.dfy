/** Resource URIs (code_graph_io/uri.py): composed by plain concatenation, and
    unambiguous because organization, repository and ecosystem hold no separator. */
module Uris {
  import opened Paths

  datatype RepoContext = RepoContext(org: string, repo: string) {
    predicate WellNamed() {
      Plain(org) && Plain(repo)
    }
  }

  /** A name that survives as one part of a URI and of a synthetic path. */
  predicate Plain(s: string) {
    s != "" && Free(s, '/') && Free(s, ':')
  }

  function RepoUri(ctx: RepoContext): string {
    "repo:" + ctx.org + "/" + ctx.repo
  }

  function PkgUri(ctx: RepoContext, name: string): string {
    "pkg:" + ctx.org + "/" + ctx.repo + "/" + name
  }

  function AppUri(ctx: RepoContext, name: string): string {
    "app:" + ctx.org + "/" + ctx.repo + "/" + name
  }

  function AgentPluginUri(ctx: RepoContext, name: string): string {
    "agent_plugin:" + ctx.org + "/" + ctx.repo + "/" + name
  }

  function TestSuiteUri(ctx: RepoContext, suite: string): string {
    "test_suite:" + ctx.org + "/" + ctx.repo + "/" + suite
  }

  function FileUri(ctx: RepoContext, relPath: string): string {
    "file:" + ctx.org + "/" + ctx.repo + "/" + relPath
  }

  function DependencyUri(ctx: RepoContext, ecosystem: string, name: string): string {
    "dependency:" + ctx.org + "/" + ctx.repo + "/" + ecosystem + "/" + name
  }

  /** `dependency_path`: the synthetic store path. */
  function DependencyPath(ctx: RepoContext, ecosystem: string, name: string): string {
    "dependency:" + ctx.org + "/" + ctx.repo + ":" + ecosystem + ":" + name
  }

  /** Parts recovered from a left-to-right composition: separator-free heads, then
      the rest verbatim. */
  lemma {:induction false} SplitHead(head: string, rest: string, sep: char)
    requires Free(head, sep)
    ensures Split(head + [sep] + rest, sep) == [head] + Split(rest, sep)
  {
    SplitAround(head, rest, sep);
    SplitOne(head, sep);
  }

  lemma HeadsEqual(h1: string, r1: string, h2: string, r2: string, sep: char)
    requires Free(h1, sep) && Free(h2, sep) && h1 + [sep] + r1 == h2 + [sep] + r2
    ensures h1 == h2 && r1 == r2
  {
    SplitHead(h1, r1, sep);
    SplitHead(h2, r2, sep);
    assert ([h1] + Split(r1, sep))[0] == ([h2] + Split(r2, sep))[0];
    assert (h1 + [sep] + r1)[|h1| + 1..] == r1 && (h2 + [sep] + r2)[|h2| + 1..] == r2;
  }

  lemma PrefixesCancel(p: string, a: string, b: string)
    requires p + a == p + b
    ensures a == b
  {
    assert (p + a)[|p|..] == a && (p + b)[|p|..] == b;
  }

  /** A dependency URI names one repository, ecosystem and dependency. */
  lemma DependencyUriInjective(c1: RepoContext, e1: string, n1: string, c2: RepoContext, e2: string, n2: string)
    requires c1.WellNamed() && c2.WellNamed() && Plain(e1) && Plain(e2)
    requires DependencyUri(c1, e1, n1) == DependencyUri(c2, e2, n2)
    ensures c1 == c2 && e1 == e2 && n1 == n2
  {
    var d := "dependency:";
    var x1, x2 := c1.repo + "/" + (e1 + "/" + n1), c2.repo + "/" + (e2 + "/" + n2);
    assert DependencyUri(c1, e1, n1) == d + (c1.org + ['/'] + x1);
    assert DependencyUri(c2, e2, n2) == d + (c2.org + ['/'] + x2);
    PrefixesCancel(d, c1.org + ['/'] + x1, c2.org + ['/'] + x2);
    HeadsEqual(c1.org, x1, c2.org, x2, '/');
    HeadsEqual(c1.repo, e1 + "/" + n1, c2.repo, e2 + "/" + n2, '/');
    HeadsEqual(e1, n1, e2, n2, '/');
  }

  lemma DependencyPathInjective(c1: RepoContext, e1: string, n1: string, c2: RepoContext, e2: string, n2: string)
    requires c1.WellNamed() && c2.WellNamed() && Plain(e1) && Plain(e2)
    requires DependencyPath(c1, e1, n1) == DependencyPath(c2, e2, n2)
    ensures c1 == c2 && e1 == e2 && n1 == n2
  {
    var d := "dependency:";
    var x1, x2 := c1.repo + ":" + (e1 + ":" + n1), c2.repo + ":" + (e2 + ":" + n2);
    assert DependencyPath(c1, e1, n1) == d + (c1.org + ['/'] + x1);
    assert DependencyPath(c2, e2, n2) == d + (c2.org + ['/'] + x2);
    PrefixesCancel(d, c1.org + ['/'] + x1, c2.org + ['/'] + x2);
    HeadsEqual(c1.org, x1, c2.org, x2, '/');
    HeadsEqual(c1.repo, e1 + ":" + n1, c2.repo, e2 + ":" + n2, ':');
    HeadsEqual(e1, n1, e2, n2, ':');
  }

  /** Dependency URIs are never package or repository URIs. */
  lemma DependencyUriApart(c1: RepoContext, e: string, n1: string, c2: RepoContext, n2: string)
    ensures DependencyUri(c1, e, n1) != PkgUri(c2, n2) && DependencyUri(c1, e, n1) != RepoUri(c2)
  {
    assert DependencyUri(c1, e, n1)[0] == 'd' && PkgUri(c2, n2)[0] == 'p' && RepoUri(c2)[0] == 'r';
  }

  /** `dependency_identifier_from_path`: `org/repo/ecosystem/name` out of a
      synthetic path, if it is one. */
  function DependencyIdentifier(path: string): Option<string> {
    var head := "dependency:";
    if !(head <= path) then None
    else
      var parts := SplitMax(path[|head|..], ':', 2);
      if |parts| != 3 || parts[0] == "" || parts[1] == "" || parts[2] == "" then None
      else
        var scope := SplitMax(parts[0], '/', 1);
        if |scope| != 2 || scope[0] == "" || scope[1] == "" || '/' in scope[1] then None
        else Some(scope[0] + "/" + scope[1] + "/" + parts[1] + "/" + parts[2])
  }

  /** `org/repo`, as it stands in both forms. */
  function Scope(ctx: RepoContext): (scope: string)
    ensures ctx.WellNamed() ==> Free(scope, ':')
  {
    ctx.org + "/" + ctx.repo
  }

  lemma PathPayload(ctx: RepoContext, ecosystem: string, name: string)
    ensures var path := DependencyPath(ctx, ecosystem, name);
            "dependency:" <= path && path[|"dependency:"|..] == Scope(ctx) + [':'] + (ecosystem + [':'] + name)
  {
    var payload := Scope(ctx) + [':'] + (ecosystem + [':'] + name);
    assert DependencyPath(ctx, ecosystem, name) == "dependency:" + payload;
    assert ("dependency:" + payload)[|"dependency:"|..] == payload;
  }

  lemma UriPayload(ctx: RepoContext, ecosystem: string, name: string)
    ensures DependencyUri(ctx, ecosystem, name) == "dependency:" +
              (ctx.org + "/" + ctx.repo + "/" + ecosystem + "/" + name)
  {
  }

  lemma PathParts(ctx: RepoContext, ecosystem: string, name: string)
    requires ctx.WellNamed() && Plain(ecosystem)
    ensures var path := DependencyPath(ctx, ecosystem, name);
            "dependency:" <= path && SplitMax(path[|"dependency:"|..], ':', 2) == [Scope(ctx), ecosystem, name]
    ensures SplitMax(Scope(ctx), '/', 1) == [ctx.org, ctx.repo]
  {
    PathPayload(ctx, ecosystem, name);
    hide DependencyPath;
    SplitMaxHead(ctx.org, ctx.repo, '/', 1);
    assert Scope(ctx) == ctx.org + ['/'] + ctx.repo;
    hide Scope;
    SplitMaxHead(Scope(ctx), ecosystem + [':'] + name, ':', 2);
    SplitMaxHead(ecosystem, name, ':', 1);
  }

  /** The identifier read off a dependency's path is the rest of its URI. */
  lemma IdentifierOfPath(ctx: RepoContext, ecosystem: string, name: string)
    requires ctx.WellNamed() && Plain(ecosystem) && name != ""
    ensures DependencyIdentifier(DependencyPath(ctx, ecosystem, name)).Some?
    ensures DependencyUri(ctx, ecosystem, name) ==
              "dependency:" + DependencyIdentifier(DependencyPath(ctx, ecosystem, name)).value
  {
    PathParts(ctx, ecosystem, name);
    UriPayload(ctx, ecosystem, name);
    assert Scope(ctx) != "";
    hide SplitMax;
    hide DependencyPath;
    hide DependencyUri;
    hide Scope;
    assert DependencyIdentifier(DependencyPath(ctx, ecosystem, name)) ==
           Some(ctx.org + "/" + ctx.repo + "/" + ecosystem + "/" + name);
  }

  /** The first cut of a string that is cut at all. */
  lemma CutOnce(s: string, sep: char, n: nat)
    requires |SplitMax(s, sep, n)| > 1
    ensures var head := SplitMax(s, sep, n)[0];
            && n > 0 && Free(head, sep) && |head| < |s| && s == head + [sep] + s[|head| + 1..]
            && SplitMax(s, sep, n)[1..] == SplitMax(s[|head| + 1..], sep, n - 1)
  {
    var k := FirstAt(s, sep);
    assert s[..k] + [s[k]] + s[k + 1..] == s;
  }

  /** The path of a dependency, with the identifier that it stands for. */
  predicate IdentifiedBy(path: string, id: string, org: string, repo: string, ecosystem: string, name: string) {
    && org != "" && repo != "" && ecosystem != "" && name != ""
    && (forall c | c in org + repo :: c != '/' && c != ':') && (forall c | c in ecosystem :: c != ':')
    && path == "dependency:" + ((org + "/" + repo) + [':'] + (ecosystem + [':'] + name))
    && id == org + "/" + repo + "/" + ecosystem + "/" + name
  }

  lemma ScopeCut(org: string, repo: string)
    requires org != "" && forall c | c in org + repo :: c != '/' && c != ':'
    ensures SplitMax(org + "/" + repo, '/', 1) == [org, repo] && Free(org + "/" + repo, ':') && org + "/" + repo != ""
    ensures Free(repo, '/')
  {
    assert forall c | c in org :: c in org + repo;
    assert forall c | c in repo :: c in org + repo;
    assert org + "/" + repo == org + ['/'] + repo;
    SplitMaxHead(org, repo, '/', 1);
  }

  lemma PayloadCut(scope: string, ecosystem: string, name: string)
    requires Free(scope, ':') && Free(ecosystem, ':')
    ensures SplitMax(scope + [':'] + (ecosystem + [':'] + name), ':', 2) == [scope, ecosystem, name]
  {
    SplitMaxHead(scope, ecosystem + [':'] + name, ':', 2);
    SplitMaxHead(ecosystem, name, ':', 1);
  }

  lemma BehindHead(path: string, payload: string)
    requires "dependency:" <= path
    ensures path == "dependency:" + payload <==> path[|"dependency:"|..] == payload
  {
    assert path == "dependency:" + path[|"dependency:"|..];
  }

  lemma IdentifiedPath(path: string, id: string, org: string, repo: string, ecosystem: string, name: string)
    requires IdentifiedBy(path, id, org, repo, ecosystem, name)
    ensures DependencyIdentifier(path) == Some(id)
  {
    ScopeCut(org, repo);
    PayloadCut(org + "/" + repo, ecosystem, name);
    BehindHead(path, (org + "/" + repo) + [':'] + (ecosystem + [':'] + name));
    hide SplitMax;
    hide Free;
  }

  /** A payload of three parts, put together from them. */
  lemma PayloadParts(payload: string)
    requires |SplitMax(payload, ':', 2)| == 3
    ensures var parts := SplitMax(payload, ':', 2);
            && Free(parts[0], ':') && Free(parts[1], ':')
            && payload == parts[0] + [':'] + (parts[1] + [':'] + parts[2])
  {
    var parts := SplitMax(payload, ':', 2);
    CutOnce(payload, ':', 2);
    CutOnce(payload[|parts[0]| + 1..], ':', 1);
  }

  lemma ScopeParts(scope: string)
    requires |SplitMax(scope, '/', 1)| == 2
    ensures var parts := SplitMax(scope, '/', 1); Free(parts[0], '/') && scope == parts[0] + "/" + parts[1]
    ensures Free(scope, ':') ==> forall c | c in SplitMax(scope, '/', 1)[0] + SplitMax(scope, '/', 1)[1] :: c != ':'
  {
    CutOnce(scope, '/', 1);
  }

  lemma IdentifierParts(path: string, id: string) returns (org: string, repo: string, ecosystem: string, name: string)
    requires DependencyIdentifier(path) == Some(id)
    ensures IdentifiedBy(path, id, org, repo, ecosystem, name)
  {
    var payload := path[|"dependency:"|..];
    var parts := SplitMax(payload, ':', 2);
    var scope := SplitMax(parts[0], '/', 1);
    org, repo, ecosystem, name := scope[0], scope[1], parts[1], parts[2];
    PayloadParts(payload);
    ScopeParts(parts[0]);
    BehindHead(path, payload);
    hide SplitMax;
  }

  /** Exactly the paths of dependencies have an identifier, each its own. */
  lemma IdentifierMeaning(path: string, id: string)
    ensures DependencyIdentifier(path) == Some(id) <==>
            exists org, repo, ecosystem, name :: IdentifiedBy(path, id, org, repo, ecosystem, name)
  {
    if DependencyIdentifier(path) == Some(id) {
      var org, repo, ecosystem, name := IdentifierParts(path, id);
    }
    if org, repo, ecosystem, name :| IdentifiedBy(path, id, org, repo, ecosystem, name) {
      IdentifiedPath(path, id, org, repo, ecosystem, name);
    }
  }
}
