/** Where a resource's page lives: resource URIs parsed into identities, the page
    ID that an identity dictates, and page IDs parsed back by position
    (code_wiki_okf/placement.py). */
module Placement {
  import opened Paths
  import opened Uris

  datatype Kind = Repository | Package | App | AgentPlugin | TestSuite | File | Dependency {
    function Prefix(): string {
      match this
      case Repository => "repo"
      case Package => "pkg"
      case App => "app"
      case AgentPlugin => "agent_plugin"
      case TestSuite => "test_suite"
      case File => "file"
      case Dependency => "dependency"
    }

    /** The directory of an entity kind; repositories and files have none. */
    function Lane(): Option<string> {
      match this
      case Package => Some("packages")
      case App => Some("apps")
      case TestSuite => Some("test-suites")
      case AgentPlugin => Some("agent-plugins")
      case Dependency => Some("dependencies")
      case _ => None
    }
  }

  /** What a resource names.  `name` is the source path of a file, and empty for a
      repository; the ecosystem is empty for all but dependencies. */
  datatype Identity = Identity(kind: Kind, ctx: RepoContext, ecosystem: string, name: string)

  predicate AllNonempty(parts: seq<string>) {
    forall i | 0 <= i < |parts| :: parts[i] != ""
  }

  /** The payload after the first colon, if what precedes it is the prefix. */
  function Payload(resource: string, prefix: string): Option<string> {
    if Free(resource, ':') then None
    else
      var k := FirstAt(resource, ':');
      if resource[..k] == prefix then Some(resource[k + 1..]) else None
  }

  /** What the payload of a resource of one kind says. */
  function ParseBody(kind: Kind, payload: string): Option<Identity> {
    match kind
    case Repository =>
      var parts := Split(payload, '/');
      if |parts| != 2 || !AllNonempty(parts) then None
      else Some(Identity(kind, RepoContext(parts[0], parts[1]), "", ""))
    case Dependency =>
      var parts := SplitMax(payload, '/', 3);
      if |parts| != 4 || !AllNonempty(parts) then None
      else Some(Identity(kind, RepoContext(parts[0], parts[1]), parts[2], parts[3]))
    case _ =>
      var parts := SplitMax(payload, '/', 2);
      if |parts| != 3 || !AllNonempty(parts) then None
      else Some(Identity(kind, RepoContext(parts[0], parts[1]), "", parts[2]))
  }

  /** Parses a resource of the given kind, or refuses it as malformed. */
  function ContextFromResource(kind: Kind, resource: string): Option<Identity> {
    var payload := Payload(resource, kind.Prefix());
    if payload.None? then None else ParseBody(kind, payload.value)
  }

  /** The URI of an identity, as the graph composes it. */
  function UriOf(i: Identity): string {
    match i.kind
    case Repository => RepoUri(i.ctx)
    case Package => PkgUri(i.ctx, i.name)
    case App => AppUri(i.ctx, i.name)
    case AgentPlugin => AgentPluginUri(i.ctx, i.name)
    case TestSuite => TestSuiteUri(i.ctx, i.name)
    case File => FileUri(i.ctx, i.name)
    case Dependency => DependencyUri(i.ctx, i.ecosystem, i.name)
  }

  predicate OnePart(s: string) {
    s != "" && Free(s, '/')
  }

  /** Organization, repository and ecosystem slash-free and nonempty; a name where
      the kind has one. */
  predicate WellFormed(i: Identity) {
    && OnePart(i.ctx.org) && OnePart(i.ctx.repo)
    && (if i.kind.Dependency? then OnePart(i.ecosystem) else i.ecosystem == "")
    && (if i.kind.Repository? then i.name == "" else i.name != "")
  }

  lemma PayloadOf(prefix: string, payload: string)
    requires Free(prefix, ':')
    ensures Payload(prefix + ":" + payload, prefix) == Some(payload)
  {
    assert prefix + ":" + payload == prefix + [':'] + payload;
    FirstAtHead(prefix, payload, ':');
  }

  lemma TwoHeads(a: string, b: string, rest: string)
    requires Free(a, '/') && Free(b, '/')
    ensures SplitMax(a + "/" + b + "/" + rest, '/', 2) == [a, b, rest]
  {
    assert a + "/" + b + "/" + rest == a + ['/'] + (b + ['/'] + rest);
    SplitMaxHead(a, b + ['/'] + rest, '/', 2);
    SplitMaxHead(b, rest, '/', 1);
  }

  lemma ThreeHeads(a: string, b: string, c: string, rest: string)
    requires Free(a, '/') && Free(b, '/') && Free(c, '/')
    ensures SplitMax(a + "/" + b + "/" + c + "/" + rest, '/', 3) == [a, b, c, rest]
  {
    assert a + "/" + b + "/" + c + "/" + rest == a + ['/'] + (b + "/" + c + "/" + rest);
    SplitMaxHead(a, b + "/" + c + "/" + rest, '/', 3);
    TwoHeads(b, c, rest);
  }

  /** The part of a URI after its prefix. */
  function Body(i: Identity): string {
    match i.kind
    case Repository => i.ctx.org + "/" + i.ctx.repo
    case Dependency => i.ctx.org + "/" + i.ctx.repo + "/" + i.ecosystem + "/" + i.name
    case _ => i.ctx.org + "/" + i.ctx.repo + "/" + i.name
  }

  lemma UriBody(i: Identity)
    ensures UriOf(i) == i.kind.Prefix() + ":" + Body(i) && Free(i.kind.Prefix(), ':')
  {
    var org, repo := i.ctx.org, i.ctx.repo;
    match i.kind
    case Repository => assert RepoUri(i.ctx) == "repo" + ":" + (org + "/" + repo);
    case Dependency => Regroup("dependency", "dependency:", org, repo, i.ecosystem + "/" + i.name);
      assert DependencyUri(i.ctx, i.ecosystem, i.name) ==
             "dependency:" + org + "/" + repo + "/" + (i.ecosystem + "/" + i.name);
      assert Body(i) == org + "/" + repo + "/" + (i.ecosystem + "/" + i.name);
    case Package => Regroup("pkg", "pkg:", org, repo, i.name);
    case App => Regroup("app", "app:", org, repo, i.name);
    case AgentPlugin => Regroup("agent_plugin", "agent_plugin:", org, repo, i.name);
    case TestSuite => Regroup("test_suite", "test_suite:", org, repo, i.name);
    case File => Regroup("file", "file:", org, repo, i.name);
  }

  lemma Regroup(prefix: string, head: string, org: string, repo: string, name: string)
    requires head == prefix + ":"
    ensures head + org + "/" + repo + "/" + name == prefix + ":" + (org + "/" + repo + "/" + name)
  {
  }

  lemma ParseBodyOf(i: Identity)
    requires WellFormed(i)
    ensures ParseBody(i.kind, Body(i)) == Some(i)
  {
    var org, repo := i.ctx.org, i.ctx.repo;
    hide SplitMax;
    hide Split;
    match i.kind
    case Repository =>
      assert org + "/" + repo == Join([org, repo], '/');
      SplitJoin([org, repo], '/');
    case Dependency => ThreeHeads(org, repo, i.ecosystem, i.name);
    case _ => TwoHeads(org, repo, i.name);
  }

  /** Parsing a composed resource recovers its parts. */
  lemma ParseComposed(i: Identity)
    requires WellFormed(i)
    ensures ContextFromResource(i.kind, UriOf(i)) == Some(i)
  {
    hide UriOf;
    hide Body;
    hide ParseBody;
    hide Payload;
    UriBody(i);
    PayloadOf(i.kind.Prefix(), Body(i));
    ParseBodyOf(i);
  }

  predicate HeadsFree(parts: seq<string>, sep: char) {
    |parts| > 1 ==> Free(parts[0], sep) && HeadsFree(parts[1..], sep)
  }

  /** The parts that a string is cut into, all but the last without separators. */
  predicate Cuts(s: string, parts: seq<string>, sep: char) {
    parts != [] && Join(parts, sep) == s && HeadsFree(parts, sep)
  }

  lemma {:induction false} JoinSplitMax(s: string, sep: char, n: nat)
    ensures Cuts(s, SplitMax(s, sep, n), sep)
  {
    hide Cuts;
    if n == 0 || Free(s, sep) {
      NoCut(s, sep);
    } else {
      var k := FirstAt(s, sep);
      JoinSplitMax(s[k + 1..], sep, n - 1);
      OneCut(s, k, SplitMax(s[k + 1..], sep, n - 1), sep);
    }
  }

  lemma NoCut(s: string, sep: char)
    ensures Cuts(s, [s], sep)
  {
  }

  lemma OneCut(s: string, k: nat, rest: seq<string>, sep: char)
    requires k < |s| && s[k] == sep && sep !in s[..k] && Cuts(s[k + 1..], rest, sep)
    ensures Cuts(s, [s[..k]] + rest, sep)
  {
    assert ([s[..k]] + rest)[1..] == rest;
    assert s == s[..k] + [sep] + s[k + 1..];
  }

  lemma ThreeParts(payload: string)
    requires |SplitMax(payload, '/', 2)| == 3
    ensures var p := SplitMax(payload, '/', 2);
            Free(p[0], '/') && Free(p[1], '/') && payload == p[0] + "/" + p[1] + "/" + p[2]
  {
    JoinSplitMax(payload, '/', 2);
    JoinThree(SplitMax(payload, '/', 2));
  }

  lemma FourParts(payload: string)
    requires |SplitMax(payload, '/', 3)| == 4
    ensures var p := SplitMax(payload, '/', 3);
            Free(p[0], '/') && Free(p[1], '/') && Free(p[2], '/') &&
            payload == p[0] + "/" + p[1] + "/" + p[2] + "/" + p[3]
  {
    var p := SplitMax(payload, '/', 3);
    JoinSplitMax(payload, '/', 3);
    hide SplitMax;
    JoinFour(p);
    assert HeadsFree(p[1..], '/') && HeadsFree(p[1..][1..], '/') && p[1..][1..][0] == p[2];
  }

  lemma TwoParts(payload: string)
    requires |Split(payload, '/')| == 2
    ensures var p := Split(payload, '/'); Free(p[0], '/') && Free(p[1], '/') && payload == p[0] + "/" + p[1]
  {
    JoinSplit(payload, '/');
    JoinTwo(Split(payload, '/'));
  }

  lemma ComposeBody(kind: Kind, payload: string)
    requires ParseBody(kind, payload).Some?
    ensures var i := ParseBody(kind, payload).value; i.kind == kind && WellFormed(i) && Body(i) == payload
  {
    hide SplitMax;
    hide Split;
    match kind {
      case Repository => TwoParts(payload);
      case Dependency => FourParts(payload);
      case _ => ThreeParts(payload);
    }
  }

  lemma PayloadWhole(resource: string, prefix: string)
    requires Payload(resource, prefix).Some?
    ensures resource == prefix + ":" + Payload(resource, prefix).value
  {
    var k := FirstAt(resource, ':');
    assert resource == resource[..k] + [':'] + resource[k + 1..];
  }

  /** Only composed resources parse: what is recovered composes back to them. */
  lemma ComposeParsed(kind: Kind, resource: string)
    requires ContextFromResource(kind, resource).Some?
    ensures var i := ContextFromResource(kind, resource).value;
            i.kind == kind && WellFormed(i) && UriOf(i) == resource
  {
    var payload := Payload(resource, kind.Prefix()).value;
    PayloadWhole(resource, kind.Prefix());
    hide UriOf;
    hide Body;
    hide ParseBody;
    hide Payload;
    ComposeBody(kind, payload);
    UriBody(ParseBody(kind, payload).value);
  }

  lemma JoinTwo(p: seq<string>)
    requires |p| == 2
    ensures Join(p, '/') == p[0] + "/" + p[1]
  {
  }

  lemma JoinThree(p: seq<string>)
    requires |p| == 3
    ensures Join(p, '/') == p[0] + "/" + p[1] + "/" + p[2]
  {
    JoinTwo(p[1..]);
    assert p[0] + "/" + (p[1] + "/" + p[2]) == p[0] + "/" + p[1] + "/" + p[2];
  }

  lemma JoinFour(p: seq<string>)
    requires |p| == 4
    ensures Join(p, '/') == p[0] + "/" + p[1] + "/" + p[2] + "/" + p[3]
  {
    JoinThree(p[1..]);
    var rest := p[1] + "/" + p[2] + "/" + p[3];
    assert p[0] + "/" + rest == p[0] + "/" + p[1] + "/" + p[2] + "/" + p[3];
  }

  // ---- Pages ----

  const INVALID: string := "<>:\"/\\|?*"

  predicate IsControl(c: char) {
    c < ' ' || '\U{7f}' <= c <= '\U{9f}'
  }

  function Upper(s: string): string {
    if s == "" then ""
    else [if 'a' <= s[0] <= 'z' then s[0] - 'a' + 'A' else s[0]] + Upper(s[1..])
  }

  function BeforeDot(s: string): string {
    if '.' in s then s[..FirstAt(s, '.')] else s
  }

  /** A device name of Windows, whatever the extension. */
  predicate IsDevice(s: string) {
    var d := Upper(BeforeDot(s));
    d in {"CON", "PRN", "AUX", "NUL"}
    || (|d| == 4 && (d[..3] == "COM" || d[..3] == "LPT") && d[3] in "123456789\U{b9}\U{b2}\U{b3}")
  }

  predicate AllAllowed(s: string) {
    forall c | c in s :: !IsControl(c) && c !in INVALID
  }

  /** A component that may stand in a page's path on every file system. */
  predicate Safe(s: string) {
    && s != "" && s != "." && s != ".." && AllAllowed(s)
    && s[|s| - 1] != '.' && s[|s| - 1] != ' ' && !IsDevice(s)
  }

  /** A name as one component: each slash becomes two underscores. */
  function Slug(name: string): string {
    if name == "" then "" else (if name[0] == '/' then "__" else [name[0]]) + Slug(name[1..])
  }

  predicate SafeParts(parts: seq<string>) {
    forall i | 0 <= i < |parts| :: Safe(parts[i])
  }

  /** Whether the identity has a page: all its components are safe, and its name is
      not absolute. */
  predicate Placeable(i: Identity) {
    && Safe(i.ctx.repo)
    && match i.kind
       case Repository => true
       case File => SafeParts(Split(i.name, '/'))
       case Dependency => Safe(i.ecosystem) && i.name != "" && i.name[0] != '/' && Safe(Slug(i.name))
       case _ => i.name != "" && i.name[0] != '/' && Safe(Slug(i.name))
  }

  const LANE := "code-graph"

  /** The path segments of an identity's page. */
  function Segments(i: Identity): (segments: seq<string>)
    ensures |segments| >= 2
  {
    match i.kind
    case Repository => [LANE, i.ctx.repo]
    case File => [LANE, i.ctx.repo, "file-system"] + Split(i.name, '/')
    case Dependency => [LANE, i.ctx.repo, "entities", "dependencies", i.ecosystem, Slug(i.name)]
    case _ => [LANE, i.ctx.repo, "entities", i.kind.Lane().GetOr(""), Slug(i.name)]
  }

  /** The one page ID for a resource, or the refusal to place it. */
  function CanonicalConceptId(kind: Kind, resource: string): Option<string> {
    var i := ContextFromResource(kind, resource);
    if i.None? || !Placeable(i.value) then None else Some(Join(Segments(i.value), '/'))
  }

  datatype EntityPage = EntityPage(kind: Kind, repository: string, name: string, ecosystem: Option<string>)

  function KindOfLane(lane: string): Option<Kind> {
    if lane == "packages" then Some(Package)
    else if lane == "apps" then Some(App)
    else if lane == "test-suites" then Some(TestSuite)
    else if lane == "agent-plugins" then Some(AgentPlugin)
    else if lane == "dependencies" then Some(Dependency)
    else None
  }

  /** Parses a page ID by position into the entity it belongs to. */
  function ParsePage(conceptId: string): Option<EntityPage> {
    ParseSegments(Split(conceptId, '/'))
  }

  function ParseSegments(parts: seq<string>): Option<EntityPage>
    requires |parts| > 0
  {
    if !AllNonempty(parts) || parts[0] != LANE then None
    else if |parts| == 2 then Some(EntityPage(Repository, parts[1], parts[1], None))
    else if |parts| < 5 || parts[2] != "entities" then None
    else
      match KindOfLane(parts[3])
      case None => None
      case Some(Dependency) =>
        if |parts| != 6 then None else Some(EntityPage(Dependency, parts[1], parts[5], Some(parts[4])))
      case Some(kind) =>
        if |parts| != 5 then None else Some(EntityPage(kind, parts[1], parts[4], None))
  }

  /** What a page ID tells about an identity. */
  function PageOf(i: Identity): Option<EntityPage> {
    match i.kind
    case File => None
    case Repository => Some(EntityPage(i.kind, i.ctx.repo, i.ctx.repo, None))
    case Dependency => Some(EntityPage(i.kind, i.ctx.repo, Slug(i.name), Some(i.ecosystem)))
    case _ => Some(EntityPage(i.kind, i.ctx.repo, Slug(i.name), None))
  }

  lemma SafeIsOnePart(s: string)
    requires Safe(s)
    ensures OnePart(s)
  {
    hide IsDevice;
    assert INVALID[4] == '/';
  }

  predicate AllOneParts(parts: seq<string>) {
    forall i | 0 <= i < |parts| :: OnePart(parts[i])
  }

  lemma OnePartsJoin(a: seq<string>, b: seq<string>)
    requires AllOneParts(a) && AllOneParts(b)
    ensures AllOneParts(a + b)
  {
  }

  lemma LanesAreOneParts(kind: Kind)
    ensures OnePart(LANE) && OnePart("entities") && OnePart("file-system") && OnePart("dependencies")
    ensures kind.Lane().Some? ==> OnePart(kind.Lane().value)
  {
  }

  lemma SafeSegments(i: Identity)
    requires Placeable(i)
    ensures AllOneParts(Segments(i))
  {
    LanesAreOneParts(i.kind);
    hide Safe;
    hide OnePart;
    hide Slug;
    hide Kind.Lane;
    SafeIsOnePart(i.ctx.repo);
    match i.kind {
      case Repository =>
      case File =>
        var parts := Split(i.name, '/');
        forall j | 0 <= j < |parts| ensures OnePart(parts[j]) {
          SafeIsOnePart(parts[j]);
        }
        OnePartsJoin([LANE, i.ctx.repo, "file-system"], parts);
      case Dependency =>
        SafeIsOnePart(i.ecosystem);
        SafeIsOnePart(Slug(i.name));
      case _ =>
        SafeIsOnePart(Slug(i.name));
        HasLane(i.kind);
    }
  }

  lemma HasLane(kind: Kind)
    requires !kind.Repository? && !kind.File?
    ensures kind.Lane().Some?
  {
  }

  lemma SegmentsSplit(i: Identity)
    requires Placeable(i)
    ensures AllNonempty(Segments(i)) && Split(Join(Segments(i), '/'), '/') == Segments(i)
  {
    SafeSegments(i);
    hide Segments;
    hide Placeable;
    assert AllFree(Segments(i), '/');
    SplitJoin(Segments(i), '/');
  }

  /** A page ID parses back to the kind, repository, ecosystem and slug it was made
      from, except that a file's page is never taken for an entity's. */
  lemma PageRoundTrip(kind: Kind, resource: string)
    requires CanonicalConceptId(kind, resource).Some?
    ensures ParsePage(CanonicalConceptId(kind, resource).value) == PageOf(ContextFromResource(kind, resource).value)
    ensures kind.File? <==> ParsePage(CanonicalConceptId(kind, resource).value).None?
  {
    var i := ContextFromResource(kind, resource).value;
    SegmentsSplit(i);
    ComposeParsed(kind, resource);
    hide Placeable;
    hide Segments;
    SegmentsParse(i);
  }

  lemma SegmentsParse(i: Identity)
    requires AllNonempty(Segments(i))
    ensures ParseSegments(Segments(i)) == PageOf(i)
  {
  }

  function PageSegments(page: EntityPage): (segments: seq<string>)
    ensures |segments| > 0
  {
    match page.kind
    case Repository => [LANE, page.repository]
    case Dependency => [LANE, page.repository, "entities", "dependencies", page.ecosystem.GetOr(""), page.name]
    case _ => [LANE, page.repository, "entities", page.kind.Lane().GetOr(""), page.name]
  }

  lemma ParsedSegments(parts: seq<string>)
    requires |parts| > 0 && ParseSegments(parts).Some?
    ensures var page := ParseSegments(parts).value;
            !page.kind.File? && (page.ecosystem.Some? <==> page.kind.Dependency?) && parts == PageSegments(page)
  {
  }

  /** Only page IDs of entities parse, and each is the ID of what it parses to. */
  lemma ParsedPageIsCanonical(conceptId: string)
    requires ParsePage(conceptId).Some?
    ensures var page := ParsePage(conceptId).value;
            !page.kind.File? && (page.ecosystem.Some? <==> page.kind.Dependency?)
            && conceptId == Join(PageSegments(page), '/')
  {
    JoinSplit(conceptId, '/');
    ParsedSegments(Split(conceptId, '/'));
  }

  // ---- Pages, in terms of the text of a resource ----

  /** The character may stand in a file name: no control character, and none of
      those that a file system gives a meaning. */
  predicate MayStand(c: char) {
    && !('\0' <= c <= '\U{1f}') && !('\U{7f}' <= c <= '\U{9f}')
    && c !in {'<', '>', ':', '"', '/', '\\', '|', '?', '*'}
  }

  /** A reserved device: one of four, or a numbered serial or printer port. */
  predicate IsReserved(device: string) {
    || device == "CON" || device == "PRN" || device == "AUX" || device == "NUL"
    || (|device| == 4 && ("COM" <= device || "LPT" <= device) &&
        ('1' <= device[3] <= '9' || device[3] in {'\U{b9}', '\U{b2}', '\U{b3}'}))
  }

  /** The same text but for the case of its letters. */
  predicate CapitalsOf(s: string, capitals: string) {
    |s| == |capitals| && forall i | 0 <= i < |s| ::
      if 'a' <= s[i] <= 'z' then 'A' <= capitals[i] <= 'Z' && s[i] - 'a' == capitals[i] - 'A' else capitals[i] == s[i]
  }

  /** The text is a reserved device, or one with a dot and anything after it. */
  ghost predicate NamesDevice(s: string) {
    exists stem, device :: IsReserved(device) && CapitalsOf(stem, device) && IsStem(s, stem)
  }

  predicate IsStem(s: string, stem: string) {
    '.' !in stem && (s == stem || stem + "." <= s)
  }

  /** A file name for every system. */
  ghost predicate IsFileName(s: string) {
    && s != "" && s != "." && s != ".." && (forall i | 0 <= i < |s| :: MayStand(s[i]))
    && s[|s| - 1] != '.' && s[|s| - 1] != ' ' && !NamesDevice(s)
  }

  lemma {:induction false} UpperIsCapitals(s: string, capitals: string)
    ensures CapitalsOf(s, capitals) <==> capitals == Upper(s)
  {
    if s != "" {
      if capitals != "" {
        UpperIsCapitals(s[1..], capitals[1..]);
        assert capitals == [capitals[0]] + capitals[1..];
        assert CapitalsOf(s, capitals) ==> forall i | 0 <= i < |s| - 1 :: s[1..][i] == s[i + 1];
        if capitals == Upper(s) {
          assert capitals[1..] == Upper(s[1..]);
          assert forall i | 1 <= i < |s| :: s[i] == s[1..][i - 1] && capitals[i] == capitals[1..][i - 1];
        }
      }
    }
  }

  lemma StemIsBeforeDot(s: string, stem: string)
    ensures IsStem(s, stem) <==> stem == BeforeDot(s)
  {
    if IsStem(s, stem) && s != stem {
      assert s == stem + ['.'] + s[|stem| + 1..];
      FirstAtHead(stem, s[|stem| + 1..], '.');
    }
    if stem == BeforeDot(s) && '.' in s {
      assert stem + "." == s[..|stem| + 1];
    }
  }

  lemma ReservedIff(d: string)
    ensures IsReserved(d) <==>
              (d in {"CON", "PRN", "AUX", "NUL"} ||
               (|d| == 4 && (d[..3] == "COM" || d[..3] == "LPT") && d[3] in "123456789\U{b9}\U{b2}\U{b3}"))
  {
    var digits := "123456789\U{b9}\U{b2}\U{b3}";
    assert |digits| == 12 && digits[9] == '\U{b9}' && digits[10] == '\U{b2}' && digits[11] == '\U{b3}';
    assert forall i | 0 <= i < 9 :: digits[i] as int == '1' as int + i;
    if |d| == 4 {
      if '1' <= d[3] <= '9' { assert digits[d[3] as int - '1' as int] == d[3]; }
      assert d[3] in digits <==> '1' <= d[3] <= '9' || d[3] in {'\U{b9}', '\U{b2}', '\U{b3}'};
    }
  }

  lemma DeviceMeaning(s: string)
    ensures IsDevice(s) <==> NamesDevice(s)
  {
    var stem := BeforeDot(s);
    StemIsBeforeDot(s, stem);
    UpperIsCapitals(stem, Upper(stem));
    ReservedIff(Upper(stem));
    hide IsReserved;
    hide CapitalsOf;
    hide IsStem;
    hide BeforeDot;
    if other, device :| IsReserved(device) && CapitalsOf(other, device) && IsStem(s, other) {
      StemIsBeforeDot(s, other);
      UpperIsCapitals(other, device);
    }
  }

  lemma MayStandIff(c: char)
    ensures MayStand(c) <==> !IsControl(c) && c !in INVALID
  {
    assert |INVALID| == 9 && INVALID[0] == '<' && INVALID[1] == '>' && INVALID[2] == ':' && INVALID[3] == '"';
    assert INVALID[4] == '/' && INVALID[5] == '\\' && INVALID[6] == '|' && INVALID[7] == '?' && INVALID[8] == '*';
  }

  lemma SafeMeaning(s: string)
    ensures Safe(s) <==> IsFileName(s)
  {
    DeviceMeaning(s);
    forall c: char { MayStandIff(c); }
    hide IsDevice;
    hide NamesDevice;
    hide MayStand;
    hide IsControl;
  }

  /** Every slash of the name written as two underscores. */
  lemma {:induction false} SlugMeaning(name: string)
    ensures Slug(name) == Underscored(Split(name, '/'))
  {
    if name != "" {
      SlugMeaning(name[1..]);
      var rest := Split(name[1..], '/');
      if name[0] == '/' {
        assert ([""] + rest)[1..] == rest;
      } else {
        var parts := [[name[0]] + rest[0]] + rest[1..];
        assert parts[1..] == rest[1..];
      }
    }
  }

  function Underscored(parts: seq<string>): string
    requires |parts| > 0
  {
    if |parts| == 1 then parts[0] else parts[0] + "__" + Underscored(parts[1..])
  }

  /** The resource has a page: its repository, its ecosystem and its slug, or every
      part of its source path, are file names, and its name is not absolute. */
  ghost predicate HasPage(i: Identity) {
    && IsFileName(i.ctx.repo)
    && (i.kind == File ==> forall k | 0 <= k < |Split(i.name, '/')| :: IsFileName(Split(i.name, '/')[k]))
    && (i.kind == Dependency ==> IsFileName(i.ecosystem))
    && (i.kind !in {Repository, File} ==>
          i.name != "" && i.name[0] != '/' && IsFileName(Underscored(Split(i.name, '/'))))
  }

  /** The page ID as text. */
  function PageText(i: Identity): string {
    var top, slug := "code-graph/" + i.ctx.repo, Underscored(Split(i.name, '/'));
    match i.kind
    case Repository => top
    case File => top + "/file-system/" + i.name
    case Package => top + "/entities/packages/" + slug
    case App => top + "/entities/apps/" + slug
    case TestSuite => top + "/entities/test-suites/" + slug
    case AgentPlugin => top + "/entities/agent-plugins/" + slug
    case Dependency => top + "/entities/dependencies/" + i.ecosystem + "/" + slug
  }

  lemma PlaceableMeaning(i: Identity)
    ensures Placeable(i) <==> HasPage(i)
  {
    SafeMeaning(i.ctx.repo);
    SafeMeaning(i.ecosystem);
    SlugMeaning(i.name);
    SafeMeaning(Slug(i.name));
    forall k | 0 <= k < |Split(i.name, '/')| { SafeMeaning(Split(i.name, '/')[k]); }
    hide Safe;
    hide IsFileName;
    hide Slug;
    hide Underscored;
  }

  lemma TwoMore(head: seq<string>, text: string, a: string, b: string)
    requires |head| > 0 && Join(head, '/') == text
    ensures Join(head + [a, b], '/') == text + "/" + a + "/" + b
  {
    JoinConcat(head, [a, b], '/');
    JoinTwo([a, b]);
    hide Join;
    assert text + ['/'] + (a + "/" + b) == text + "/" + a + "/" + b;
  }

  lemma EntitiesText(repo: string)
    ensures Join([LANE, repo, "entities"], '/') == "code-graph/" + repo + "/entities"
  {
    JoinThree([LANE, repo, "entities"]);
    assert "code-graph" + "/" + repo + "/" + "entities" == "code-graph/" + repo + "/entities";
  }

  lemma SegmentsText(i: Identity)
    ensures Join(Segments(i), '/') == PageText(i)
  {
    SlugMeaning(i.name);
    hide Slug;
    hide Underscored;
    hide Segments;
    hide Join;
    var slug := Slug(i.name);
    match i.kind {
      case Repository => RepositoryText(i);
      case File => FileText(i);
      case Dependency => DependencyText(i, slug);
      case _ => EntityText(i, slug);
    }
  }

  lemma RepositoryText(i: Identity)
    requires i.kind == Repository
    ensures Join(Segments(i), '/') == "code-graph/" + i.ctx.repo
  {
    JoinTwo(Segments(i));
    assert "code-graph" + "/" + i.ctx.repo == "code-graph/" + i.ctx.repo;
  }

  lemma DependencyText(i: Identity, slug: string)
    requires i.kind == Dependency && slug == Slug(i.name)
    ensures Join(Segments(i), '/') == "code-graph/" + i.ctx.repo + "/entities/dependencies/" + i.ecosystem + "/" + slug
  {
    var repo := i.ctx.repo;
    var lane := [LANE, repo] + ["entities", "dependencies"];
    JoinTwo([LANE, repo]);
    TwoMore([LANE, repo], "code-graph" + "/" + repo, "entities", "dependencies");
    var text := "code-graph" + "/" + repo + "/" + "entities" + "/" + "dependencies";
    assert text == "code-graph/" + repo + "/entities/dependencies";
    TwoMore(lane, text, i.ecosystem, slug);
    assert Segments(i) == lane + [i.ecosystem, slug];
    assert "code-graph/" + repo + "/entities/dependencies" + "/" == "code-graph/" + repo + "/entities/dependencies/";
  }

  lemma FileText(i: Identity)
    requires i.kind == File
    ensures Join(Segments(i), '/') == "code-graph/" + i.ctx.repo + "/file-system/" + i.name
  {
    var head := [LANE, i.ctx.repo, "file-system"];
    JoinConcat(head, Split(i.name, '/'), '/');
    JoinThree(head);
    JoinSplit(i.name, '/');
    assert "code-graph" + "/" + i.ctx.repo + "/" + "file-system" + "/" == "code-graph/" + i.ctx.repo + "/file-system/";
  }

  lemma EntityText(i: Identity, slug: string)
    requires i.kind in {Package, App, TestSuite, AgentPlugin} && slug == Slug(i.name)
    ensures var lane := if i.kind == Package then "packages" else if i.kind == App then "apps"
                        else if i.kind == TestSuite then "test-suites" else "agent-plugins";
            Join(Segments(i), '/') == "code-graph/" + i.ctx.repo + "/entities/" + lane + "/" + slug
  {
    var lane := i.kind.Lane().GetOr("");
    EntitiesText(i.ctx.repo);
    TwoMore([LANE, i.ctx.repo, "entities"], "code-graph/" + i.ctx.repo + "/entities", lane, slug);
    assert Segments(i) == [LANE, i.ctx.repo, "entities"] + [lane, slug];
    assert "code-graph/" + i.ctx.repo + "/entities" + "/" == "code-graph/" + i.ctx.repo + "/entities/";
  }

  /** A resource is placed exactly if it is one of its kind and has a page, and then
      on that page. */
  lemma ConceptIdMeaning(i: Identity)
    requires WellFormed(i)
    ensures CanonicalConceptId(i.kind, UriOf(i)) == if HasPage(i) then Some(PageText(i)) else None
  {
    ParseComposed(i);
    PlaceableMeaning(i);
    SegmentsText(i);
    hide *;
    PlacedIf(i);
  }

  lemma PlacedIf(i: Identity)
    requires ContextFromResource(i.kind, UriOf(i)) == Some(i)
    ensures CanonicalConceptId(i.kind, UriOf(i)) == if Placeable(i) then Some(Join(Segments(i), '/')) else None
  {
  }

  /** What two resources must agree on to share a page. */
  predicate SamePlace(i: Identity, j: Identity) {
    && i.kind == j.kind && i.ctx.repo == j.ctx.repo
    && match i.kind
       case Repository => true
       case File => i.name == j.name
       case Dependency => i.ecosystem == j.ecosystem && Slug(i.name) == Slug(j.name)
       case _ => Slug(i.name) == Slug(j.name)
  }

  /** Two resources share a page exactly if they agree on kind, repository, and
      ecosystem and slug, or source path.  Organizations play no part. */
  lemma SharedPage(k: Kind, r: string, l: Kind, q: string)
    requires CanonicalConceptId(k, r).Some? && CanonicalConceptId(l, q).Some?
    ensures CanonicalConceptId(k, r) == CanonicalConceptId(l, q) <==>
              SamePlace(ContextFromResource(k, r).value, ContextFromResource(l, q).value)
  {
    var i, j := ContextFromResource(k, r).value, ContextFromResource(l, q).value;
    SegmentsSplit(i);
    SegmentsSplit(j);
    ComposeParsed(k, r);
    ComposeParsed(l, q);
    hide Placeable;
    hide Segments;
    hide ContextFromResource;
    SegmentsAgree(i, j);
  }

  lemma SegmentsAgree(i: Identity, j: Identity)
    requires AllNonempty(Segments(i)) && AllNonempty(Segments(j))
    ensures Segments(i) == Segments(j) <==> SamePlace(i, j)
  {
    if Segments(i) == Segments(j) {
      SegmentsParse(i);
      SegmentsParse(j);
      if i.kind.File? && j.kind.File? {
        JoinSplit(i.name, '/');
        JoinSplit(j.name, '/');
        assert Segments(i)[3..] == Split(i.name, '/') && Segments(j)[3..] == Split(j.name, '/');
      }
    }
  }

  /** The slug forgets which underscores were slashes. */
  lemma SlugsCollide()
    ensures var a := Identity(Package, RepoContext("o", "r"), "", "a/b");
            var b := Identity(Package, RepoContext("o", "r"), "", "a__b");
            WellFormed(a) && WellFormed(b) && a != b && SamePlace(a, b)
  {
    assert Slug("/b") == "__" + Slug("b");
    assert Slug("b") == "b" + Slug("") == "b";
    assert Slug("__b") == "_" + Slug("_b") && Slug("_b") == "_" + Slug("b");
    assert "a/b"[1..] == "/b" && "a__b"[1..] == "__b" && "__b"[1..] == "_b" && "_b"[1..] == "b" && "b"[1..] == "";
  }
}
