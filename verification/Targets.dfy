/** The legacy planner's `_targets` (scripts/migrate_vault_work.py): every item
    gets a path-native target below its parent's, computed by a memoizing
    recursion that ends only because the parent map has no cycle. */
module Targets {
  import opened Paths
  import opened WorkPaths
  import opened Forest
  import opened Hierarchy

  // ----- Acyclic parent maps end -------------------------------------------------------

  lemma {:induction false} TrailEnds(parents: Parents, trail: seq<string>)
    requires forall q :: !OnCycle(parents, q)
    requires trail != [] && IsTrail(parents, trail) && NoDuplicates(trail)
    requires forall i | 0 <= i < |trail| :: trail[i] in Universe(parents)
    ensures Ends(parents, trail[|trail| - 1])
    decreases |Universe(parents)| - |trail|
  {
    var last := trail[|trail| - 1];
    TrailFits(parents, trail);
    match Next(parents, last)
    case None =>
      assert Climb(parents, last, 1) == None;
    case Some(q) =>
      if q in trail {
        var k :| 0 <= k < |trail| && trail[k] == q;
        TrailCloses(parents, trail, k, k);
        assert false;
      } else {
        TrailFits(parents, trail + [q]);
        TrailEnds(parents, trail + [q]);
        var n: nat :| Climb(parents, q, n) == None;
        assert Climb(parents, last, n + 1) == None;
      }
  }

  lemma AcyclicEnds(parents: Parents, p: string)
    requires forall q :: !OnCycle(parents, q)
    ensures Ends(parents, p)
  {
    if p in parents { TrailEnds(parents, [p]); } else { assert Climb(parents, p, 1) == None; }
  }

  ghost predicate IsHeight(parents: Parents, p: string, m: nat) {
    Climb(parents, p, m) == None && forall k: nat | k < m :: Climb(parents, p, k).Some?
  }

  lemma {:induction false} LeastEnd(parents: Parents, p: string, n: nat) returns (m: nat)
    requires Climb(parents, p, n) == None
    ensures IsHeight(parents, p, m)
  {
    if k: nat :| k < n && Climb(parents, p, k) == None {
      m := LeastEnd(parents, p, k);
    } else {
      m := n;
    }
  }

  lemma HeightExists(parents: Parents, p: string)
    requires Ends(parents, p)
    ensures exists m: nat :: IsHeight(parents, p, m)
  {
    var n: nat :| Climb(parents, p, n) == None;
    var m := LeastEnd(parents, p, n);
  }

  /** The number of items on the chain from `p` to its root. */
  ghost function Height(parents: Parents, p: string): (m: nat)
    requires Ends(parents, p)
    ensures m > 0 && IsHeight(parents, p, m)
  {
    HeightExists(parents, p);
    var m: nat :| IsHeight(parents, p, m);
    m
  }

  ghost function Depth(parents: Parents, p: string): nat {
    if Ends(parents, p) then Height(parents, p) else 0
  }

  lemma HeightNext(parents: Parents, p: string, q: string)
    requires Ends(parents, p) && Next(parents, p) == Some(q)
    ensures Ends(parents, q) && Height(parents, p) == Height(parents, q) + 1
  {
    var m := Height(parents, p);
    assert Climb(parents, q, m - 1) == None;
    forall k: nat | k < m - 1 ensures Climb(parents, q, k).Some? {
      assert Climb(parents, p, k + 1).Some?;
    }
    assert IsHeight(parents, q, m - 1);
    OneHeight(parents, q, m - 1, Height(parents, q));
  }

  lemma OneHeight(parents: Parents, p: string, m: nat, k: nat)
    requires IsHeight(parents, p, m) && IsHeight(parents, p, k)
    ensures m == k
  {
  }

  // ----- Where each item goes --------------------------------------------------------------

  /** What `_targets` is given once nothing upstream was refused: an acyclic
      parent map over exactly the nodes. */
  ghost predicate Plannable(nodes: seq<LegacyNode>, parents: Parents) {
    && DistinctPaths(nodes)
    && parents.Keys == OldPaths(nodes)
    && (forall p | p in parents && parents[p].Some? :: parents[p].value in parents)
    && (forall q :: !OnCycle(parents, q))
  }

  lemma AgreementIsPlannable(nodes: seq<LegacyNode>, aliases: AliasMap, parents: Parents)
    requires DistinctPaths(nodes) && Agrees(nodes, aliases, parents)
    ensures Plannable(nodes, parents)
  {
    hide PhysicalParent;
    forall p | p in parents && parents[p].Some? ensures parents[p].value in parents {
      var i :| 0 <= i < |nodes| && nodes[i].oldPath == p;
      assert OwnedProperly(nodes, ParentClaims(nodes, aliases), ChildClaims(nodes, aliases), nodes[i],
          parents[p].value);
    }
  }

  function NameOf(node: LegacyNode): string {
    PrefixedBasename(node.basename, node.kind)
  }

  function NodeAt(nodes: seq<LegacyNode>, p: string): LegacyNode
    requires p in OldPaths(nodes)
  {
    ByPath(nodes)[p]
  }

  /** The place of an item in the migrated tree: below its parent's place, or in
      the lane its own archive flag selects. */
  ghost function PlaceOf(nodes: seq<LegacyNode>, parents: Parents, p: string): (place: Location)
    requires Plannable(nodes, parents) && p in parents
    ensures |place.names| > 0
    decreases Depth(parents, p)
  {
    match Next(parents, p)
    case None => Location(NodeAt(nodes, p).archived, [NameOf(NodeAt(nodes, p))])
    case Some(q) =>
      DepthNext(parents, p, q);
      var up := PlaceOf(nodes, parents, q);
      Location(up.archived, up.names + [NameOf(NodeAt(nodes, p))])
  }

  /** Nodes whose basename came out of the path grammar. */
  predicate AllParsed(nodes: seq<LegacyNode>) {
    forall i | 0 <= i < |nodes| :: IsBasename(nodes[i].basename)
  }

  lemma {:induction false} PlaceIsValid(nodes: seq<LegacyNode>, parents: Parents, p: string)
    requires Plannable(nodes, parents) && p in parents && AllParsed(nodes)
    ensures PlaceOf(nodes, parents, p).Valid()
    decreases Depth(parents, p)
  {
    hide IsBasename;
    hide NameOf;
    NameIsValid(nodes, p);
    match Next(parents, p)
    case None =>
    case Some(q) =>
      DepthNext(parents, p, q);
      PlaceIsValid(nodes, parents, q);
  }

  lemma NameIsValid(nodes: seq<LegacyNode>, p: string)
    requires DistinctPaths(nodes) && p in OldPaths(nodes) && AllParsed(nodes)
    ensures IsBasename(NameOf(NodeAt(nodes, p)))
  {
    hide IsBasename;
    hide PrefixedBasename;
    var i :| 0 <= i < |nodes| && nodes[i].oldPath == p;
    DateFreeBasenameValid(nodes[i].basename, nodes[i].kind);
  }

  lemma DepthNext(parents: Parents, p: string, q: string)
    requires (forall x :: !OnCycle(parents, x)) && Next(parents, p) == Some(q)
    ensures Depth(parents, p) == Depth(parents, q) + 1
  {
    AcyclicEnds(parents, p);
    HeightNext(parents, p, q);
  }

  ghost function Target(nodes: seq<LegacyNode>, parents: Parents, p: string): string
    requires Plannable(nodes, parents) && p in parents
  {
    PathOf(PlaceOf(nodes, parents, p))
  }

  lemma TargetOfRoot(archived: bool, name: string)
    ensures PathOf(Location(archived, [name])) == (if archived then "work/_archive" else "work") + "/" + name
  {
    assert Interleave([name]) == [name];
    JoinConcat(Lane(archived), [name], SLASH);
    if archived { assert Lane(true)[1..] == [ARCHIVE]; }
  }

  lemma TargetOfChild(up: Location, name: string)
    requires |up.names| > 0
    ensures PathOf(Location(up.archived, up.names + [name])) == PathOf(up) + "/children" + "/" + name
  {
    InterleaveConcat(up.names, [name]);
    var a := Lane(up.archived) + Interleave(up.names);
    assert Lane(up.archived) + Interleave(up.names + [name]) == a + [CHILDREN, name];
    JoinConcat(a, [CHILDREN, name], SLASH);
    JoinPair(CHILDREN, name);
    SpellChild(Join(a, SLASH), name);
  }

  lemma SpellChild(x: string, name: string)
    ensures x + [SLASH] + (CHILDREN + [SLASH] + name) == x + "/children" + "/" + name
  {
    assert [SLASH] + CHILDREN == "/children";
  }

  lemma JoinPair(a: string, b: string)
    ensures Join([a, b], SLASH) == a + [SLASH] + b
  {
    assert [a, b][1..] == [b];
  }

  /** The closure `target_for` and the dictionary it fills. */
  class TargetPlanner {
    ghost const nodes: seq<LegacyNode>
    const byPath: map<string, LegacyNode>
    const parents: Parents
    const basenames: map<string, string>
    var targets: map<string, string>

    ghost predicate Valid()
      reads this
    {
      && Plannable(nodes, parents)
      && byPath == ByPath(nodes)
      && basenames.Keys == parents.Keys
      && (forall p | p in basenames :: basenames[p] == NameOf(NodeAt(nodes, p)))
      && (forall p | p in targets :: p in parents && targets[p] == Target(nodes, parents, p))
    }

    constructor (nodes: seq<LegacyNode>, parents: Parents, basenames: map<string, string>)
      requires Plannable(nodes, parents) && basenames.Keys == parents.Keys
      requires forall p | p in basenames :: basenames[p] == NameOf(NodeAt(nodes, p))
      ensures Valid() && this.nodes == nodes && this.parents == parents && targets == map[]
    {
      this.nodes, byPath, this.parents, this.basenames := nodes, ByPath(nodes), parents, basenames;
      targets := map[];
    }

    method TargetFor(oldPath: string) returns (target: string)
      requires Valid() && oldPath in parents
      modifies this
      ensures Valid() && target == Target(nodes, parents, oldPath)
      ensures old(targets.Keys) + {oldPath} <= targets.Keys
      decreases Depth(parents, oldPath)
    {
      hide NameOf;
      hide ByPath;
      hide PathOf;
      if oldPath in targets {
        return targets[oldPath];
      }
      var node, parent, lane := byPath[oldPath], parents[oldPath], "";
      if parent == None {
        lane := if node.archived then "work/_archive" else "work";
        TargetOfRoot(node.archived, basenames[oldPath]);
      } else {
        DepthNext(parents, oldPath, parent.value);
        var above := TargetFor(parent.value);
        lane := above + "/children";
        TargetOfChild(PlaceOf(nodes, parents, parent.value), basenames[oldPath]);
      }
      target := lane + "/" + basenames[oldPath];
      targets := targets[oldPath := target];
    }
  }

  /** Every node has a valid date-free basename. */
  predicate AllNamed(nodes: seq<LegacyNode>) {
    forall i | 0 <= i < |nodes| :: DateFreeBasename(nodes[i].basename, nodes[i].kind).Some?
  }

  /** A node at the path has no date-free name. */
  predicate Nameless(nodes: seq<LegacyNode>, path: string) {
    exists i | 0 <= i < |nodes| ::
      nodes[i].oldPath == path && DateFreeBasename(nodes[i].basename, nodes[i].kind) == None
  }

  lemma NamelessNext(nodes: seq<LegacyNode>, i: nat, path: string)
    requires i < |nodes|
    ensures Nameless(nodes[..i + 1], path) <==>
              Nameless(nodes[..i], path) ||
              (nodes[i].oldPath == path && DateFreeBasename(nodes[i].basename, nodes[i].kind) == None)
  {
    hide DateFreeBasename;
    assert nodes[..i + 1] == nodes[..i] + [nodes[i]];
    if h :| 0 <= h < i && nodes[..i][h].oldPath == path &&
            DateFreeBasename(nodes[..i][h].basename, nodes[..i][h].kind) == None {
      assert nodes[..i + 1][h] == nodes[..i][h];
    }
    assert nodes[..i + 1][i] == nodes[i];
  }

  /** The first loop of `_targets`. */
  method Basenames(nodes: seq<LegacyNode>) returns (basenames: map<string, string>, refusals: seq<Refusal>)
    requires DistinctPaths(nodes)
    ensures refusals == [] <==> AllNamed(nodes)
    ensures refusals == [] ==> basenames.Keys == OldPaths(nodes)
    ensures refusals == [] ==> forall p | p in basenames :: basenames[p] == NameOf(NodeAt(nodes, p))
    ensures forall r :: r in refusals <==> r.kind == BasenameInvalid && Nameless(nodes, r.path)
  {
    basenames, refusals := map[], [];
    hide DateFreeBasename;
    hide PrefixedBasename;
    hide ByPath;
    for i := 0 to |nodes|
      invariant refusals == [] <==> forall h | 0 <= h < i :: DateFreeBasename(nodes[h].basename, nodes[h].kind).Some?
      invariant forall r :: r in refusals <==> r.kind == BasenameInvalid && Nameless(nodes[..i], r.path)
      invariant refusals == [] ==> forall h | 0 <= h < i :: nodes[h].oldPath in basenames
      invariant forall p | p in basenames :: p in OldPaths(nodes) && basenames[p] == NameOf(NodeAt(nodes, p))
    {
      NodeAtIndex(nodes, i);
      NameIfAny(nodes[i]);
      forall path { NamelessNext(nodes, i, path); }
      hide Nameless;
      match DateFreeBasename(nodes[i].basename, nodes[i].kind) {
        case None => refusals := refusals + [Refusal(nodes[i].oldPath, BasenameInvalid)];
        case Some(name) => basenames := basenames[nodes[i].oldPath := name];
      }
    }
    assert nodes[..|nodes|] == nodes;
  }

  lemma NodeAtIndex(nodes: seq<LegacyNode>, i: nat)
    requires DistinctPaths(nodes) && i < |nodes|
    ensures nodes[i].oldPath in OldPaths(nodes) && NodeAt(nodes, nodes[i].oldPath) == nodes[i]
  {
    assert nodes[i].oldPath in ByPath(nodes);
  }

  lemma NameIfAny(node: LegacyNode)
    ensures DateFreeBasename(node.basename, node.kind) in {None, Some(NameOf(node))}
  {
  }

  lemma ParsedIsNamed(nodes: seq<LegacyNode>)
    requires AllParsed(nodes)
    ensures AllNamed(nodes)
  {
    hide DateFreeBasename;
    hide IsBasename;
    hide PrefixedBasename;
    forall i | 0 <= i < |nodes| { DateFreeBasenameValid(nodes[i].basename, nodes[i].kind); }
  }

  ghost predicate AllTargetsDiffer(nodes: seq<LegacyNode>, parents: Parents)
    requires Plannable(nodes, parents)
  {
    forall a, b | a in parents && b in parents && a != b :: Target(nodes, parents, a) != Target(nodes, parents, b)
  }

  lemma PlannableShape(nodes: seq<LegacyNode>, parents: Parents)
    requires Plannable(nodes, parents)
    ensures parents.Keys == OldPaths(nodes) && DistinctPaths(nodes)
  {
  }

  /** `_targets`: always ends; with a valid basename for every node it gives every
      item its target and refuses exactly when two items would get the same one. */
  method PlanTargets(nodes: seq<LegacyNode>, parents: Parents)
    returns (targets: map<string, string>, refusals: seq<Refusal>)
    requires Plannable(nodes, parents)
    ensures AllNamed(nodes) ==>
              targets.Keys == parents.Keys && forall p | p in targets :: targets[p] == Target(nodes, parents, p)
    ensures refusals == [] <==> AllNamed(nodes) && AllTargetsDiffer(nodes, parents)
    ensures !AllNamed(nodes) ==> targets == map[]
    ensures !AllNamed(nodes) ==> forall r :: r in refusals <==> r.kind == BasenameInvalid && Nameless(nodes, r.path)
    ensures AllNamed(nodes) ==> CollisionsOf(targets, refusals)
  {
    hide Nameless;
    hide ByPath;
    hide Target;
    hide NameOf;
    hide PathList;
    hide OldPaths;
    hide AllNamed;
    hide Plannable;
    PlannableShape(nodes, parents);
    var basenames;
    basenames, refusals := Basenames(nodes);
    if refusals != [] {
      targets := map[];
      return;
    }
    var planner := new TargetPlanner(nodes, parents, basenames);
    var order := PathList(nodes);
    assert forall i | 0 <= i < |order| :: order[i] in Elements(order);
    for i := 0 to |order|
      invariant planner.Valid() && planner.nodes == nodes && planner.parents == parents
      invariant forall h | 0 <= h < i :: order[h] in planner.targets
    {
      var _ := planner.TargetFor(order[i]);
    }
    targets := planner.targets;
    forall p | p in parents ensures p in order { assert p in Elements(order); }
    refusals := Collisions(order, targets);
    OverTargets(order, targets, refusals);
  }

  /** The refusals are collisions of targets, one at least for each two items
      that share one. */
  ghost predicate CollisionsOf(targets: map<string, string>, refusals: seq<Refusal>) {
    && (forall r | r in refusals ::
          && r.kind == DestinationCollision && r.path in targets
          && exists other | other in targets :: other != r.path && targets[other] == targets[r.path])
    && (forall a, b | a in targets && b in targets && a != b && targets[a] == targets[b] ::
          CollisionOf(refusals, a) || CollisionOf(refusals, b))
  }

  lemma OverTargets(order: seq<string>, targets: map<string, string>, refusals: seq<Refusal>)
    requires (forall i | 0 <= i < |order| :: order[i] in targets) && (forall p | p in targets :: p in order)
    requires (forall r | r in refusals :: r.kind == DestinationCollision && Collides(order, targets, r.path))
    requires PairsRefused(order, targets, refusals)
    ensures CollisionsOf(targets, refusals)
  {
    hide CollisionOf;
  }

  /** Another item has the same target. */
  predicate Collides(order: seq<string>, targets: map<string, string>, path: string)
    requires forall i | 0 <= i < |order| :: order[i] in targets
  {
    path in order && exists other | other in order :: other != path && targets[other] == targets[path]
  }

  /** Of two items with one target, one is refused. */
  ghost predicate PairsRefused(order: seq<string>, targets: map<string, string>, refusals: seq<Refusal>)
    requires forall i | 0 <= i < |order| :: order[i] in targets
  {
    forall a, b | a in order && b in order && a != b && targets[a] == targets[b] ::
      CollisionOf(refusals, a) || CollisionOf(refusals, b)
  }

  lemma PairsStep(seen: seq<string>, source: string, targets: map<string, string>, were: seq<Refusal>,
                  refusals: seq<Refusal>)
    requires source in targets && (forall i | 0 <= i < |seen| :: seen[i] in targets)
    requires PairsRefused(seen, targets, were)
    requires were <= refusals
    requires CollisionOf(refusals, source) || source in seen || forall a | a in seen :: targets[a] != targets[source]
    ensures PairsRefused(seen + [source], targets, refusals)
  {
    assert forall a | CollisionOf(were, a) :: CollisionOf(refusals, a);
    hide CollisionOf;
    assert forall a | a in seen + [source] :: a in seen || a == source;
  }

  predicate CollisionOf(refusals: seq<Refusal>, path: string) {
    Refusal(path, DestinationCollision) in refusals
  }

  /** The last loop of `_targets`. */
  method Collisions(order: seq<string>, targets: map<string, string>) returns (refusals: seq<Refusal>)
    requires forall i | 0 <= i < |order| :: order[i] in targets
    ensures refusals == [] <==> forall a, b | a in order && b in order && a != b :: targets[a] != targets[b]
    ensures forall r | r in refusals :: r.kind == DestinationCollision && Collides(order, targets, r.path)
    ensures PairsRefused(order, targets, refusals)
  {
    refusals := [];
    var claimed: map<string, string> := map[];
    for i := 0 to |order|
      invariant forall d | d in claimed :: claimed[d] in order[..i] && targets[claimed[d]] == d
      invariant forall h | 0 <= h < i :: targets[order[h]] in claimed
      invariant refusals == [] <==>
                  forall a, b | a in order[..i] && b in order[..i] && a != b :: targets[a] != targets[b]
      invariant forall r | r in refusals :: r.kind == DestinationCollision && Collides(order, targets, r.path)
      invariant PairsRefused(order[..i], targets, refusals)
    {
      ghost var were := refusals;
      var source := order[i];
      var destination := targets[source];
      assert order[..i + 1] == order[..i] + [source];
      if destination in claimed && claimed[destination] != source {
        assert claimed[destination] in order && targets[claimed[destination]] == destination;
        refusals := refusals + [Refusal(source, DestinationCollision)];
      }
      PairsStep(order[..i], source, targets, were, refusals);
      hide PairsRefused;
      claimed := claimed[destination := source];
    }
    assert order[..|order|] == order;
  }

  // ----- Path nesting is exactly the parent forest -------------------------------------------

  lemma {:induction false} AncestorsArePrefixes(nodes: seq<LegacyNode>, parents: Parents, a: string, n: nat)
    requires Plannable(nodes, parents) && a in parents && Climb(parents, a, n).Some?
    ensures var b := Climb(parents, a, n).value;
            && b in parents
            && PlaceOf(nodes, parents, b).archived == PlaceOf(nodes, parents, a).archived
            && |PlaceOf(nodes, parents, b).names| + n == |PlaceOf(nodes, parents, a).names|
            && PlaceOf(nodes, parents, b).names <= PlaceOf(nodes, parents, a).names
    decreases n
  {
    hide PlaceOf;
    hide Plannable;
    hide Next;
    if n > 0 {
      var q := Next(parents, a).value;
      PlaceStep(nodes, parents, a, q);
      AncestorsArePrefixes(nodes, parents, q, n - 1);
      PrefixesChain(PlaceOf(nodes, parents, Climb(parents, a, n).value).names, PlaceOf(nodes, parents, q).names,
          PlaceOf(nodes, parents, a).names);
    }
  }

  lemma PrefixesChain<T>(a: seq<T>, b: seq<T>, c: seq<T>)
    requires a <= b <= c
    ensures a <= c
  {
  }

  lemma PlaceStep(nodes: seq<LegacyNode>, parents: Parents, a: string, q: string)
    requires Plannable(nodes, parents) && a in parents && Next(parents, a) == Some(q)
    ensures q in parents
    ensures PlaceOf(nodes, parents, a).archived == PlaceOf(nodes, parents, q).archived
    ensures |PlaceOf(nodes, parents, a).names| == |PlaceOf(nodes, parents, q).names| + 1
    ensures PlaceOf(nodes, parents, q).names < PlaceOf(nodes, parents, a).names
  {
    hide NameOf;
    hide NodeAt;
  }

  lemma ParentIsAbove(nodes: seq<LegacyNode>, parents: Parents, a: string)
    requires Plannable(nodes, parents) && a in parents && |PlaceOf(nodes, parents, a).names| > 1
    ensures Next(parents, a).Some? && Next(parents, a).value in parents
    ensures |PlaceOf(nodes, parents, a).names| == |PlaceOf(nodes, parents, Next(parents, a).value).names| + 1
  {
    hide NameOf;
    hide NodeAt;
    assert Next(parents, a).Some?;
    PlaceStep(nodes, parents, a, Next(parents, a).value);
  }

  lemma {:induction false} EveryPrefixIsAnAncestor(nodes: seq<LegacyNode>, parents: Parents, a: string, n: nat)
    requires Plannable(nodes, parents) && a in parents && n < |PlaceOf(nodes, parents, a).names|
    ensures Climb(parents, a, n).Some?
    decreases n
  {
    hide PlaceOf;
    hide Plannable;
    hide Next;
    if n > 0 {
      ParentIsAbove(nodes, parents, a);
      EveryPrefixIsAnAncestor(nodes, parents, Next(parents, a).value, n - 1);
    }
  }

  ghost predicate ProperDescendant(parents: Parents, a: string, b: string) {
    exists n: nat :: n > 0 && Climb(parents, a, n) == Some(b)
  }

  /** One target directory lies strictly inside another exactly when the first
      item is a proper descendant of the second. */
  lemma NestingIsAncestry(nodes: seq<LegacyNode>, parents: Parents, a: string, b: string)
    requires Plannable(nodes, parents) && a in parents && b in parents
    requires AllParsed(nodes) && AllTargetsDiffer(nodes, parents)
    ensures StrictlyInside(Target(nodes, parents, a), Target(nodes, parents, b)) <==> ProperDescendant(parents, a, b)
  {
    hide PathOf;
    hide StrictlyInside;
    var inner, outer := PlaceOf(nodes, parents, a), PlaceOf(nodes, parents, b);
    PlaceIsValid(nodes, parents, a);
    PlaceIsValid(nodes, parents, b);
    ContainmentIsPrefix(inner, outer);
    if ProperDescendant(parents, a, b) {
      var n: nat :| n > 0 && Climb(parents, a, n) == Some(b);
      AncestorsArePrefixes(nodes, parents, a, n);
    }
    if inner.archived == outer.archived && outer.names < inner.names {
      var n := |inner.names| - |outer.names|;
      EveryPrefixIsAnAncestor(nodes, parents, a, n);
      AncestorsArePrefixes(nodes, parents, a, n);
      var c := Climb(parents, a, n).value;
      assert PlaceOf(nodes, parents, c).names == inner.names[..|outer.names|] == outer.names;
      assert Target(nodes, parents, c) == Target(nodes, parents, b);
    }
  }

  /** The migrated tree re-parses to the forest it was planned from: a target's
      physical parent is its parent's target. */
  lemma MigratedTreeReparses(nodes: seq<LegacyNode>, parents: Parents, a: string)
    requires Plannable(nodes, parents) && a in parents && AllParsed(nodes)
    ensures ParseItemPath(Target(nodes, parents, a)) == Some(PlaceOf(nodes, parents, a))
    ensures PhysicalParent(Target(nodes, parents, a)) ==
            if parents[a].None? then None else Some(Target(nodes, parents, parents[a].value))
  {
    var place := PlaceOf(nodes, parents, a);
    PlaceIsValid(nodes, parents, a);
    ParsePath(place);
    hide ParseItemPath;
    hide PathOf;
    if parents[a].Some? {
      assert place.names[..|place.names| - 1] == PlaceOf(nodes, parents, parents[a].value).names;
    }
  }

  // ----- From the nodes to the migrated tree ---------------------------------------------------

  /** The claims of the nodes fit one parent map, and its targets do not collide. */
  ghost predicate Movable(nodes: seq<LegacyNode>, aliases: AliasMap) {
    AllResolve(nodes, aliases) &&
    exists parents :: Agrees(nodes, aliases, parents) && Plannable(nodes, parents) && AllTargetsDiffer(nodes, parents)
  }

  /** The planned tree stands for the hierarchy: targets parse and are different,
      a target's physical parent is its parent's target, and one lies strictly
      inside another exactly when its item is a proper descendant. */
  ghost predicate StandsFor(targets: map<string, string>, parents: Parents) {
    && targets.Keys == parents.Keys
    && (forall a | a in parents && parents[a].Some? :: parents[a].value in parents)
    && (forall a | a in parents :: ParseItemPath(targets[a]).Some?)
    && (forall a, b | a in parents && b in parents && a != b :: targets[a] != targets[b])
    && (forall a | a in parents :: PhysicalParent(targets[a]) ==
          if parents[a].None? then None else Some(targets[parents[a].value]))
    && (forall a, b | a in parents && b in parents ::
          StrictlyInside(targets[a], targets[b]) <==> ProperDescendant(parents, a, b))
  }

  /** Every item goes by its date-free name, at the top of its own lane or below
      its parent's target. */
  ghost predicate NamedBelow(nodes: seq<LegacyNode>, parents: Parents, targets: map<string, string>) {
    forall i | 0 <= i < |nodes| ::
      nodes[i].oldPath in targets && nodes[i].oldPath in parents && NamedAt(nodes[i], parents, targets)
  }

  ghost predicate NamedAt(node: LegacyNode, parents: Parents, targets: map<string, string>)
    requires node.oldPath in targets && node.oldPath in parents
  {
    exists name | DateFreeBasename(node.basename, node.kind) == Some(name) ::
      match parents[node.oldPath]
      case None => targets[node.oldPath] == (if node.archived then "work/_archive/" else "work/") + name
      case Some(up) => up in targets && targets[node.oldPath] == targets[up] + "/children/" + name
  }

  lemma TargetsAreNamed(nodes: seq<LegacyNode>, parents: Parents, targets: map<string, string>)
    requires Plannable(nodes, parents) && AllNamed(nodes)
    requires targets.Keys == parents.Keys && forall p | p in targets :: targets[p] == Target(nodes, parents, p)
    ensures NamedBelow(nodes, parents, targets)
  {
    hide PathOf;
    hide DateFreeBasename;
    hide OnCycle;
    forall i | 0 <= i < |nodes|
      ensures nodes[i].oldPath in targets && nodes[i].oldPath in parents && NamedAt(nodes[i], parents, targets)
    {
      var p := nodes[i].oldPath;
      NodeAtIndex(nodes, i);
      assert DateFreeBasename(nodes[i].basename, nodes[i].kind).Some?;
      NameIfAny(nodes[i]);
      TargetNamed(nodes, parents, p);
      hide NameOf;
      hide ByPath;
      hide Target;
      assert DateFreeBasename(nodes[i].basename, nodes[i].kind) == Some(NameOf(nodes[i]));
    }
  }

  lemma TargetNamed(nodes: seq<LegacyNode>, parents: Parents, p: string)
    requires Plannable(nodes, parents) && p in parents
    ensures match parents[p]
            case None =>
              Target(nodes, parents, p) ==
                (if NodeAt(nodes, p).archived then "work/_archive/" else "work/") + NameOf(NodeAt(nodes, p))
            case Some(up) =>
              up in parents &&
              Target(nodes, parents, p) == Target(nodes, parents, up) + "/children/" + NameOf(NodeAt(nodes, p))
  {
    hide PathOf;
    hide NameOf;
    hide ByPath;
    hide OnCycle;
    var name := NameOf(NodeAt(nodes, p));
    match parents[p] {
      case None =>
        TargetOfRoot(NodeAt(nodes, p).archived, name);
        assert "work/_archive" + "/" == "work/_archive/" && "work" + "/" == "work/";
      case Some(up) =>
        TargetOfChild(PlaceOf(nodes, parents, up), name);
        var t := Target(nodes, parents, up);
        assert t + "/children" + "/" + name == t + "/children/" + name;
    }
  }

  lemma TargetsStandFor(nodes: seq<LegacyNode>, parents: Parents, targets: map<string, string>)
    requires Plannable(nodes, parents) && AllParsed(nodes) && AllTargetsDiffer(nodes, parents)
    requires targets.Keys == parents.Keys && forall p | p in targets :: targets[p] == Target(nodes, parents, p)
    ensures StandsFor(targets, parents)
  {
    hide Target;
    hide PlaceOf;
    hide AllParsed;
    hide ParseItemPath;
    hide PhysicalParent;
    hide StrictlyInside;
    hide ProperDescendant;
    hide OnCycle;
    forall a | a in parents { MigratedTreeReparses(nodes, parents, a); }
    forall a, b | a in parents && b in parents { NestingIsAncestry(nodes, parents, a, b); }
  }

  lemma OnlyOneMove(nodes: seq<LegacyNode>, aliases: AliasMap, parents: Parents)
    requires AllResolve(nodes, aliases) && Agrees(nodes, aliases, parents) && Plannable(nodes, parents)
    ensures Movable(nodes, aliases) <==> AllTargetsDiffer(nodes, parents)
  {
    hide Agrees;
    hide AllTargetsDiffer;
    hide Plannable;
    if Movable(nodes, aliases) {
      var other :| Agrees(nodes, aliases, other) && Plannable(nodes, other) && AllTargetsDiffer(nodes, other);
      AgreementIsUnique(nodes, aliases, parents, other);
    }
  }

  lemma MovableIsCoherent(nodes: seq<LegacyNode>, aliases: AliasMap)
    requires Movable(nodes, aliases)
    ensures Coherent(nodes, aliases)
  {
    hide Agrees;
    hide Plannable;
    hide AllTargetsDiffer;
  }

  lemma CoherentResolves(nodes: seq<LegacyNode>, aliases: AliasMap)
    requires Coherent(nodes, aliases)
    ensures AllResolve(nodes, aliases)
  {
  }

  lemma AnswersAreNodes(nodes: seq<LegacyNode>, aliases: AliasMap)
    requires forall key, p :: p in Holders(aliases, key) <==>
               exists i | 0 <= i < |nodes| :: nodes[i].oldPath == p && AnswersTo(nodes[i], key)
    ensures forall key :: Holders(aliases, key) <= OldPaths(nodes)
  {
    hide AnswersTo;
  }

  /** The hierarchy part of `plan_migration`: aliases, parents, targets.  Nothing is
      refused exactly when the nodes' claims fit one parent map whose targets do not
      collide, and then the planned tree stands for that hierarchy. */
  method PlanTree(nodes: seq<LegacyNode>)
    returns (aliases: AliasMap, parents: Parents, targets: map<string, string>, refusals: seq<Refusal>)
    requires DistinctPaths(nodes) && AllParsed(nodes)
    ensures forall key, p :: p in Holders(aliases, key) <==>
              exists i | 0 <= i < |nodes| :: nodes[i].oldPath == p && AnswersTo(nodes[i], key)
    ensures refusals == [] <==> Movable(nodes, aliases)
    ensures refusals == [] ==> Agrees(nodes, aliases, parents) && StandsFor(targets, parents)
    ensures refusals == [] ==> NamedBelow(nodes, parents, targets)
    ensures !Coherent(nodes, aliases) ==> forall r :: r in refusals <==> Refused(nodes, aliases, parents, r)
    ensures Coherent(nodes, aliases) ==> targets.Keys == parents.Keys && CollisionsOf(targets, refusals)
  {
    targets := map[];
    aliases := Aliases(nodes);
    AnswersAreNodes(nodes, aliases);
    ParsedIsNamed(nodes);
    hide *;
    parents, refusals := BuildHierarchy(nodes, aliases);
    if refusals != [] {
      if Movable(nodes, aliases) { MovableIsCoherent(nodes, aliases); }
      return;
    }
    CoherentResolves(nodes, aliases);
    AgreementIsPlannable(nodes, aliases, parents);
    targets, refusals := PlanTargets(nodes, parents);
    OnlyOneMove(nodes, aliases, parents);
    if refusals == [] {
      TargetsStandFor(nodes, parents, targets);
      TargetsAreNamed(nodes, parents, targets);
    }
  }
}
