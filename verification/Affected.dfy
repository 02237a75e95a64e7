/** Which package units a change touches (scripts/affected_packages.py): changed
    paths are classified, and the touched units widened to their dependents. */
module Affected {
  import opened Paths

  /** For each unit, the units it depends on. */
  type Graph = map<string, set<string>>

  /** Requirements are recorded between known units only. */
  predicate KnownUnits(graph: Graph) {
    forall owner | owner in graph :: graph[owner] <= graph.Keys
  }

  predicate Needs(graph: Graph, owner: string, dep: string) {
    owner in graph && dep in graph[owner]
  }

  /** Each unit of the chain depends on the next. */
  predicate IsChain(graph: Graph, chain: seq<string>) {
    |chain| > 0 && (|chain| > 1 ==> Needs(graph, chain[0], chain[1]) && IsChain(graph, chain[1..]))
  }

  /** The unit is the seed or depends on it, transitively. */
  ghost predicate DependsOn(graph: Graph, unit: string, seed: string) {
    exists chain :: IsChain(graph, chain) && chain[0] == unit && chain[|chain| - 1] == seed
  }

  /** Everything that depends on a member is a member. */
  ghost predicate Closed(graph: Graph, s: set<string>) {
    forall owner, dep | Needs(graph, owner, dep) && dep in s :: owner in s
  }

  function Owners(graph: Graph, dep: string): set<string> {
    set owner | owner in graph && dep in graph[owner]
  }

  method Dependents(graph: Graph) returns (dependents: map<string, set<string>>)
    requires KnownUnits(graph)
    ensures dependents.Keys == graph.Keys && forall u | u in graph :: dependents[u] == Owners(graph, u)
  {
    dependents := map u | u in graph :: {};
    var owners := graph.Keys;
    while owners != {}
      invariant owners <= graph.Keys && dependents.Keys == graph.Keys
      invariant forall u | u in graph :: dependents[u] == set o | o in graph.Keys - owners && u in graph[o]
    {
      var owner :| owner in owners;
      var deps := graph[owner];
      while deps != {}
        invariant deps <= graph[owner] && dependents.Keys == graph.Keys
        invariant forall u | u in graph :: dependents[u] ==
                    (set o | o in graph.Keys - owners && u in graph[o]) +
                    if u in graph[owner] - deps then {owner} else {}
      {
        var dep :| dep in deps;
        dependents := dependents[dep := dependents[dep] + {owner}];
        deps := deps - {dep};
      }
      owners := owners - {owner};
    }
  }

  /** The least set that holds the seeds and everything depending on a member. */
  ghost predicate IsClosure(graph: Graph, seeds: set<string>, selected: set<string>) {
    && seeds <= selected && Closed(graph, selected)
    && forall s | seeds <= s && Closed(graph, s) :: selected <= s
  }

  /** While the worklist runs: a unit off the frontier has its owners selected, but
      for those still to be looked at for `unit`; and nothing was selected that a
      closed set could lack. */
  ghost predicate Working(graph: Graph, seeds: set<string>, selected: set<string>, frontier: seq<string>,
                          unit: Option<string>, found: set<string>)
  {
    && seeds <= selected <= seeds + graph.Keys
    && (forall u | u in frontier :: u in selected)
    && (forall u | u in selected && u !in frontier && Some(u) != unit :: Owners(graph, u) <= selected)
    && (unit.Some? ==> unit.value in selected && found <= Owners(graph, unit.value) <= selected + found)
    && Needed(graph, seeds, selected)
  }

  ghost predicate Needed(graph: Graph, seeds: set<string>, selected: set<string>) {
    forall s | seeds <= s && Closed(graph, s) :: selected <= s
  }

  method ToList(s: set<string>) returns (list: seq<string>)
    ensures forall u :: u in list <==> u in s
  {
    list := [];
    var todo := s;
    while todo != {}
      invariant todo <= s && forall u :: u in list <==> u in s - todo
    {
      var u :| u in todo;
      todo := todo - {u};
      list := list + [u];
    }
  }

  lemma Starts(graph: Graph, seeds: set<string>, frontier: seq<string>)
    requires forall u :: u in frontier <==> u in seeds
    ensures Working(graph, seeds, seeds, frontier, None, {})
  {
  }

  lemma Pops(graph: Graph, seeds: set<string>, selected: set<string>, frontier: seq<string>)
    requires frontier != [] && Working(graph, seeds, selected, frontier, None, {})
    ensures var unit := frontier[|frontier| - 1];
            Working(graph, seeds, selected, frontier[..|frontier| - 1], Some(unit), Owners(graph, unit))
  {
    assert forall u | u in frontier :: u == frontier[|frontier| - 1] || u in frontier[..|frontier| - 1];
  }

  lemma Adds(graph: Graph, seeds: set<string>, selected: set<string>, frontier: seq<string>,
             unit: string, found: set<string>, u: string)
    requires Working(graph, seeds, selected, frontier, Some(unit), found) && u in found
    ensures u in selected ==> Working(graph, seeds, selected, frontier, Some(unit), found - {u})
    ensures Working(graph, seeds, selected + {u}, frontier + [u], Some(unit), found - {u}) && u in seeds + graph.Keys
  {
    NeededMore(graph, seeds, selected, unit, u);
    hide Needed;
    hide Closed;
  }

  lemma Settles(graph: Graph, seeds: set<string>, selected: set<string>, frontier: seq<string>, unit: string)
    requires Working(graph, seeds, selected, frontier, Some(unit), {})
    ensures Working(graph, seeds, selected, frontier, None, {})
  {
  }

  lemma Ends(graph: Graph, seeds: set<string>, selected: set<string>)
    requires Working(graph, seeds, selected, [], None, {})
    ensures IsClosure(graph, seeds, selected)
  {
    forall owner, dep | Needs(graph, owner, dep) && dep in selected ensures owner in selected {
      assert owner in Owners(graph, dep);
    }
  }

  method ReverseClosure(graph: Graph, seeds: set<string>) returns (selected: set<string>)
    requires KnownUnits(graph)
    ensures IsClosure(graph, seeds, selected)
  {
    var dependents := Dependents(graph);
    assert forall u | u !in graph :: Owners(graph, u) == {};
    selected := seeds;
    var frontier := ToList(seeds);
    Starts(graph, seeds, frontier);
    hide *;
    while frontier != []
      invariant Working(graph, seeds, selected, frontier, None, {})
      decreases seeds + graph.Keys - selected, |frontier|
    {
      Pops(graph, seeds, selected, frontier);
      var unit := frontier[|frontier| - 1];
      frontier := frontier[..|frontier| - 1];
      ghost var before, rest := selected, frontier;
      var found := if unit in dependents then dependents[unit] else {};
      while found != {}
        invariant Working(graph, seeds, selected, frontier, Some(unit), found)
        invariant before <= selected && (selected == before ==> frontier == rest)
        invariant selected == before || exists u :: u in selected - before && u in seeds + graph.Keys
        decreases found
      {
        var dependent :| dependent in found;
        Adds(graph, seeds, selected, frontier, unit, found, dependent);
        if dependent !in selected {
          selected := selected + {dependent};
          frontier := frontier + [dependent];
          assert dependent in selected - before;
        }
        found := found - {dependent};
      }
      Settles(graph, seeds, selected, frontier, unit);
    }
    Ends(graph, seeds, selected);
  }

  lemma NeededMore(graph: Graph, seeds: set<string>, selected: set<string>, unit: string, dependent: string)
    requires Needed(graph, seeds, selected) && unit in selected && dependent in Owners(graph, unit)
    ensures Needed(graph, seeds, selected + {dependent})
  {
    forall s | seeds <= s && Closed(graph, s) ensures selected + {dependent} <= s {
      assert Needs(graph, dependent, unit);
    }
  }

  // ---- Meaning ----

  lemma {:induction false} ChainInClosed(graph: Graph, chain: seq<string>, s: set<string>)
    requires IsChain(graph, chain) && Closed(graph, s) && chain[|chain| - 1] in s
    ensures chain[0] in s
  {
    if |chain| > 1 {
      ChainInClosed(graph, chain[1..], s);
    }
  }

  ghost predicate DependsOnAny(graph: Graph, unit: string, seeds: set<string>) {
    exists seed | seed in seeds :: DependsOn(graph, unit, seed)
  }

  /** The closure is exactly the units that depend on a seed, transitively. */
  lemma ClosureIsDependents(graph: Graph, seeds: set<string>, selected: set<string>, unit: string)
    requires IsClosure(graph, seeds, selected)
    ensures unit in selected <==> DependsOnAny(graph, unit, seeds)
  {
    if DependsOnAny(graph, unit, seeds) {
      var seed :| seed in seeds && DependsOn(graph, unit, seed);
      var chain :| IsChain(graph, chain) && chain[0] == unit && chain[|chain| - 1] == seed;
      ChainInClosed(graph, chain, selected);
    }
    DependentsClosed(graph, seeds, selected);
  }

  ghost function ReachingIn(graph: Graph, seeds: set<string>, selected: set<string>): set<string> {
    set u | u in selected && DependsOnAny(graph, u, seeds)
  }

  lemma DependentsClosed(graph: Graph, seeds: set<string>, selected: set<string>)
    requires IsClosure(graph, seeds, selected)
    ensures selected <= ReachingIn(graph, seeds, selected)
  {
    var reaching := ReachingIn(graph, seeds, selected);
    forall seed | seed in seeds ensures seed in reaching {
      assert IsChain(graph, [seed]);
      assert DependsOn(graph, seed, seed);
    }
    forall owner, dep | Needs(graph, owner, dep) && dep in reaching ensures owner in reaching {
      var seed :| seed in seeds && DependsOn(graph, dep, seed);
      var chain :| IsChain(graph, chain) && chain[0] == dep && chain[|chain| - 1] == seed;
      assert ([owner] + chain)[1..] == chain;
      assert IsChain(graph, [owner] + chain);
      assert DependsOn(graph, owner, seed);
    }
    assert Closed(graph, reaching);
  }

  // ---- Selection ----

  datatype Mode = Nothing | RepoOnly | Packages | Full {
    function Rank(): nat {
      match this
      case Nothing => 0
      case RepoOnly => 1
      case Packages => 2
      case Full => 3
    }
  }

  /** What one changed path asks for. */
  datatype Effect = Touches(unit: string) | Plugin | RepoWide | FullCheck {
    function Mode(): Mode {
      match this
      case Touches(_) => Packages
      case Plugin => RepoOnly
      case RepoWide => RepoOnly
      case FullCheck => Full
    }
  }

  /** The package layout: package directories, and the unit owning a directory. */
  datatype Layout = Layout(packageDirs: set<string>, aliases: map<string, string>) {
    function Unit(name: string): string {
      if name in aliases then aliases[name] else name
    }

    function Classify(path: string): Effect {
      var parts := Split(path, '/');
      if parts[0] == "packages" && |parts| > 2 && parts[1] in packageDirs then Touches(Unit(parts[1]))
      else if parts[0] == "plugins" then Plugin
      else if EndsWith(path, ".md") && parts[0] != "packages" then RepoWide
      else FullCheck
    }
  }

  predicate EndsWith(s: string, tail: string) {
    |tail| <= |s| && s[|s| - |tail|..] == tail
  }

  /** The first directory of the path is `top`, or the path is `top` itself. */
  predicate IsUnder(path: string, top: string) {
    path == top || top + "/" <= path
  }

  /** The path is that of something inside a listed package. */
  ghost predicate InPackage(layout: Layout, path: string, name: string) {
    name in layout.packageDirs && '/' !in name && "packages/" + name + "/" <= path
  }

  predicate IsMarkdown(path: string) {
    |path| >= 3 && path[|path| - 3..] == ".md"
  }

  /** What one path asks for, read off its text. */
  ghost predicate AsksFor(layout: Layout, path: string, effect: Effect) {
    match effect
    case Touches(unit) => exists name :: InPackage(layout, path, name) &&
                            unit == if name in layout.aliases then layout.aliases[name] else name
    case Plugin => IsUnder(path, "plugins")
    case RepoWide => IsMarkdown(path) && !IsUnder(path, "packages") && !IsUnder(path, "plugins")
    case FullCheck => (forall name :: !InPackage(layout, path, name)) && !IsUnder(path, "plugins") &&
                      (IsMarkdown(path) ==> IsUnder(path, "packages"))
  }

  lemma FirstPart(path: string, top: string)
    requires '/' !in top
    ensures Split(path, '/')[0] == top <==> IsUnder(path, top)
  {
    var parts := Split(path, '/');
    SplitOne(path, '/');
    if top + "/" <= path { PrefixIsFirst(path, top); }
    if |parts| > 1 {
      var k := CutAt(path, 1, '/');
      assert parts[..1] == [parts[0]] && path == parts[0] + "/" + path[k + 1..];
    }
    if path == top { SplitOne(top, '/'); }
  }

  lemma PrefixIsFirst(path: string, top: string)
    requires '/' !in top && top + "/" <= path
    ensures Split(path, '/') == [top] + Split(path[|top| + 1..], '/')
  {
    assert path == top + ['/'] + path[|top| + 1..];
    SplitAround(top, path[|top| + 1..], '/');
    SplitOne(top, '/');
  }

  lemma SecondPart(path: string, name: string)
    requires '/' !in name
    ensures var parts := Split(path, '/');
            parts[0] == "packages" && |parts| > 2 && parts[1] == name <==> "packages/" + name + "/" <= path
  {
    var parts := Split(path, '/');
    FirstPart(path, "packages");
    SplitOne(path, '/');
    if "packages/" + name + "/" <= path { assert path[..9] == "packages" + "/"; }
    if "packages" + "/" <= path {
      var below := path[9..];
      PrefixIsFirst(path, "packages");
      assert path == "packages/" + below && parts[1..] == Split(below, '/');
      SplitOne(below, '/');
      FirstPart(below, name);
      if |parts| > 2 && parts[1] == name { assert "packages/" + (name + "/") <= path; }
      if "packages/" + name + "/" <= path {
        assert below[..|name| + 1] == name + "/";
        PrefixIsFirst(below, name);
      }
      assert "packages/" + name + "/" == "packages/" + (name + "/");
    }
  }

  /** The classification is exactly what the path asks for. */
  lemma ClassifyMeaning(layout: Layout, path: string, effect: Effect)
    ensures layout.Classify(path) == effect <==> AsksFor(layout, path, effect)
  {
    var parts := Split(path, '/');
    FirstPart(path, "packages");
    FirstPart(path, "plugins");
    if |parts| > 1 { SecondPart(path, parts[1]); }
    forall name | InPackage(layout, path, name) ensures |parts| > 2 && parts[0] == "packages" && parts[1] == name {
      SecondPart(path, name);
    }
    assert IsUnder(path, "plugins") ==> !IsUnder(path, "packages");
    if |parts| > 2 && parts[0] == "packages" && parts[1] in layout.packageDirs {
      assert InPackage(layout, path, parts[1]);
    }
    hide IsUnder;
    hide InPackage;
  }

  function SetOf(s: seq<string>): set<string> {
    set p | p in s
  }

  datatype Selection = Selection(mode: Mode, plugin: bool, units: set<string>)

  /** The strongest mode that some path asks for, and nothing for no path. */
  ghost predicate IsMode(layout: Layout, paths: set<string>, mode: Mode) {
    && (forall p | p in paths :: layout.Classify(p).Mode().Rank() <= mode.Rank())
    && (mode == Nothing || exists p | p in paths :: layout.Classify(p).Mode() == mode)
  }

  predicate Touched(layout: Layout, paths: set<string>, unit: string) {
    exists p | p in paths :: layout.Classify(p) == Touches(unit)
  }

  function Stronger(m: Mode, n: Mode): Mode {
    if n.Rank() > m.Rank() then n else m
  }

  /** What one more path adds. */
  lemma OnePath(layout: Layout, seen: set<string>, path: string, mode: Mode)
    requires IsMode(layout, seen, mode)
    ensures IsMode(layout, seen + {path}, Stronger(mode, layout.Classify(path).Mode()))
    ensures AnyPlugin(layout, seen + {path}) <==> AnyPlugin(layout, seen) || layout.Classify(path) == Plugin
    ensures forall u :: Touched(layout, seen + {path}, u) <==>
              Touched(layout, seen, u) || layout.Classify(path) == Touches(u)
  {
    hide Layout.Classify;
    assert path in seen + {path};
    if mode != Nothing {
      var p :| p in seen && layout.Classify(p).Mode() == mode;
      assert p in seen + {path};
    }
  }

  predicate AnyPlugin(layout: Layout, paths: set<string>) {
    exists p | p in paths :: layout.Classify(p) == Plugin
  }

  /** What a selection must be: the strongest mode, and in `packages` mode the
      units that depend on a touched one. */
  ghost predicate Selects(graph: Graph, layout: Layout, paths: set<string>, selection: Selection) {
    && IsMode(layout, paths, selection.mode)
    && (selection.plugin <==> AnyPlugin(layout, paths))
    && (selection.mode != Packages ==> selection.units == {})
    && (selection.mode == Packages ==> forall u :: u in selection.units <==> Affects(graph, layout, paths, u))
  }

  ghost predicate Affects(graph: Graph, layout: Layout, paths: set<string>, u: string) {
    exists unit :: Touched(layout, paths, unit) && DependsOn(graph, u, unit)
  }

  method Select(paths: set<string>, graph: Graph, layout: Layout) returns (selection: Selection)
    requires KnownUnits(graph)
    ensures Selects(graph, layout, paths, selection)
    ensures selection.mode == ModeFor(layout, paths) && (selection.plugin <==> Asked(layout, paths, Plugin))
    ensures forall u :: u in selection.units <==> selection.mode == Packages && AskedBelow(graph, layout, paths, u)
  {
    var mode, plugin, seeds := Nothing, false, {};
    var sorted := ToList(paths);
    for i := 0 to |sorted|
      invariant IsMode(layout, SetOf(sorted[..i]), mode)
      invariant plugin <==> AnyPlugin(layout, SetOf(sorted[..i]))
      invariant forall u :: u in seeds <==> Touched(layout, SetOf(sorted[..i]), u)
    {
      var effect := layout.Classify(sorted[i]);
      ghost var seen := SetOf(sorted[..i]);
      assert SetOf(sorted[..i + 1]) == seen + {sorted[i]};
      OnePath(layout, seen, sorted[i], mode);
      hide *;
      match effect {
        case Touches(unit) => seeds := seeds + {unit};
        case Plugin => plugin := true;
        case _ =>
      }
      mode := Stronger(mode, effect.Mode());
    }
    assert SetOf(sorted[..|sorted|]) == paths;
    var units := {};
    if mode == Packages {
      units := ReverseClosure(graph, seeds);
      forall u ensures u in units <==> Affects(graph, layout, paths, u) {
        ClosureIsDependents(graph, seeds, units, u);
      }
    }
    selection := Selection(mode, plugin, units);
    SelectionMeaning(graph, layout, paths, selection);
  }

  /** Some path asks for the effect. */
  ghost predicate Asked(layout: Layout, paths: set<string>, effect: Effect) {
    exists p | p in paths :: AsksFor(layout, p, effect)
  }

  /** A full check beats package checks, which beat the repository's own. */
  ghost function ModeFor(layout: Layout, paths: set<string>): Mode {
    if Asked(layout, paths, FullCheck) then Full
    else if exists unit :: Asked(layout, paths, Touches(unit)) then Packages
    else if Asked(layout, paths, Plugin) || Asked(layout, paths, RepoWide) then RepoOnly
    else Nothing
  }

  ghost predicate AskedBelow(graph: Graph, layout: Layout, paths: set<string>, u: string) {
    exists unit :: Asked(layout, paths, Touches(unit)) && DependsOn(graph, u, unit)
  }

  ghost predicate Found(layout: Layout, paths: set<string>, effect: Effect) {
    exists p | p in paths :: layout.Classify(p) == effect
  }

  lemma AskedMeaning(layout: Layout, paths: set<string>, effect: Effect)
    ensures Asked(layout, paths, effect) <==> Found(layout, paths, effect)
  {
    forall p ensures layout.Classify(p) == effect <==> AsksFor(layout, p, effect) {
      ClassifyMeaning(layout, p, effect);
    }
  }

  lemma StrongestFound(layout: Layout, paths: set<string>, mode: Mode)
    requires IsMode(layout, paths, mode)
    ensures mode == if Found(layout, paths, FullCheck) then Full
                    else if exists unit :: Found(layout, paths, Touches(unit)) then Packages
                    else if Found(layout, paths, Plugin) || Found(layout, paths, RepoWide) then RepoOnly
                    else Nothing
  {
    hide Layout.Classify;
    if mode != Nothing {
      var p :| p in paths && layout.Classify(p).Mode() == mode;
      assert Found(layout, paths, layout.Classify(p));
    }
  }

  /** A selection in terms of what the texts of the paths ask for. */
  lemma SelectionMeaning(graph: Graph, layout: Layout, paths: set<string>, selection: Selection)
    requires Selects(graph, layout, paths, selection)
    ensures selection.mode == ModeFor(layout, paths) && (selection.plugin <==> Asked(layout, paths, Plugin))
    ensures forall u :: u in selection.units <==> selection.mode == Packages && AskedBelow(graph, layout, paths, u)
  {
    forall effect ensures Asked(layout, paths, effect) <==> Found(layout, paths, effect) {
      AskedMeaning(layout, paths, effect);
    }
    StrongestFound(layout, paths, selection.mode);
    assert forall unit :: Touched(layout, paths, unit) <==> Found(layout, paths, Touches(unit));
    assert AnyPlugin(layout, paths) <==> Found(layout, paths, Plugin);
    hide Asked;
    hide Found;
    hide IsMode;
    hide Touched;
    hide AnyPlugin;
    forall u ensures AskedBelow(graph, layout, paths, u) <==> Affects(graph, layout, paths, u) {
    }
  }

  /** Adding changed paths never weakens the mode and never drops the plugin
      check, and while the mode stays `packages` it drops no unit. */
  lemma MorePathsSelectMore(graph: Graph, layout: Layout, few: set<string>, many: set<string>, one: Selection,
                            two: Selection)
    requires few <= many && Selects(graph, layout, few, one) && Selects(graph, layout, many, two)
    ensures one.mode.Rank() <= two.mode.Rank() && (one.plugin ==> two.plugin)
    ensures forall u :: Touched(layout, few, u) ==> Touched(layout, many, u)
    ensures two.mode == Packages ==> one.units <= two.units
  {
    if one.mode != Nothing {
      var p :| p in few && layout.Classify(p).Mode() == one.mode;
      assert p in many;
    }
    forall u | Touched(layout, few, u) ensures Touched(layout, many, u) {
      var p :| p in few && layout.Classify(p) == Touches(u);
      assert p in many;
    }
    forall u | Affects(graph, layout, few, u) ensures Affects(graph, layout, many, u) {
      var unit :| Touched(layout, few, unit) && DependsOn(graph, u, unit);
      assert Touched(layout, many, unit);
    }
  }
}
