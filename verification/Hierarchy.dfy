/** The legacy planner's `_aliases`, `_resolve_legacy` and `_hierarchy`
    (scripts/migrate_vault_work.py): three kinds of claim about an item's parent
    are merged into one parent map, or refused. */
module Hierarchy {
  import opened Paths
  import opened WorkPaths
  import opened Forest

  datatype LegacyNode = LegacyNode(
    oldPath: string,
    basename: string,
    archived: bool,
    kind: ItemType,
    parentRaw: Option<string>,
    childrenDeclared: bool,
    childrenRaw: seq<string>)

  datatype RefusalKind =
    | MissingNode | AmbiguousNode | HierarchyDisagreement
    | InvalidParentType | NestedRelease | HierarchyCycle | BasenameInvalid | DestinationCollision

  datatype Refusal = Refusal(path: string, kind: RefusalKind)

  predicate CanOwnChildren(t: ItemType) {
    t in {Release, Epic, Feature}
  }

  predicate RootOnly(t: ItemType) {
    t == Release
  }

  function OldPaths(nodes: seq<LegacyNode>): set<string> {
    set i | 0 <= i < |nodes| :: nodes[i].oldPath
  }

  predicate DistinctPaths(nodes: seq<LegacyNode>) {
    forall i, j | 0 <= i < j < |nodes| :: nodes[i].oldPath != nodes[j].oldPath
  }

  // ----- Names -----------------------------------------------------------------------

  predicate IsSpace(c: char) {
    c in {' ', '\t', '\n', '\r'}
  }

  function StripLeft(s: string): string {
    if s != "" && IsSpace(s[0]) then StripLeft(s[1..]) else s
  }

  function StripRight(s: string): string {
    if s != "" && IsSpace(s[|s| - 1]) then StripRight(s[..|s| - 1]) else s
  }

  function Normalize(raw: string): string {
    var s := StripRight(StripLeft(raw));
    var t := if "/" <= s then s[1..] else s;
    if |t| >= 3 && t[|t| - 3..] == ".md" then t[..|t| - 3] else t
  }

  /** The spellings a node answers to. */
  function Spellings(node: LegacyNode): seq<string> {
    [node.oldPath, node.oldPath + ".md", node.basename, DropDate(node.basename),
     "/" + node.oldPath, "/" + node.oldPath + ".md"]
  }

  predicate AnswersTo(node: LegacyNode, key: string) {
    exists k | 0 <= k < |Spellings(node)| :: Normalize(Spellings(node)[k]) == key
  }

  predicate Blank(s: string) {
    forall i | 0 <= i < |s| :: s[i] in {' ', '\t', '\n', '\r'}
  }

  /** No white space at either end. */
  predicate Stripped(s: string) {
    s == "" || (!Blank(s[..1]) && !Blank(s[|s| - 1..]))
  }

  predicate EndsInMd(s: string) {
    |s| >= 3 && s[|s| - 3..] == ".md"
  }

  /** The reference is `core` in white space, behind at most one slash and before
      at most one `.md`, each of which is taken off if it is there. */
  ghost predicate Spells(raw: string, core: string) {
    exists left, slash, md, right :: SpelledWith(raw, core, left, slash, md, right)
  }

  predicate SpelledWith(raw: string, core: string, left: string, slash: string, md: string, right: string) {
    && raw == left + (slash + core + md) + right
    && Blank(left) && Blank(right) && Stripped(slash + core + md)
    && slash in {"", "/"} && (slash == "" ==> !("/" <= core + md))
    && md in {"", ".md"} && (md == "" ==> !EndsInMd(core))
  }

  lemma {:induction false} StripLeftDrops(left: string, s: string)
    requires Blank(left)
    ensures StripLeft(left + s) == StripLeft(s)
  {
    if left == "" {
      assert left + s == s;
    } else {
      assert left[0] == (left + s)[0] && (left + s)[1..] == left[1..] + s;
      StripLeftDrops(left[1..], s);
    }
  }

  lemma {:induction false} StripRightDrops(s: string, right: string)
    requires Blank(right)
    ensures StripRight(s + right) == StripRight(s)
  {
    if right == "" {
      assert s + right == s;
    } else {
      var n := |right| - 1;
      assert (s + right)[|s + right| - 1] == right[n] && (s + right)[..|s + right| - 1] == s + right[..n];
      StripRightDrops(s, right[..n]);
    }
  }

  lemma TrimsMiddle(left: string, s: string, right: string)
    requires Blank(left) && Blank(right) && Stripped(s)
    ensures StripRight(StripLeft(left + s + right)) == s
  {
    assert left + s + right == left + (s + right);
    StripLeftDrops(left, s + right);
    StrippedStays(s);
    if s == "" {
      StripLeftDrops(right, "");
      assert s + right == right + "";
    } else {
      assert (s + right)[0] == s[0] == s[..1][0];
      StripRightDrops(s, right);
    }
  }

  lemma SpellsNormalizes(raw: string, core: string)
    requires Spells(raw, core)
    ensures Normalize(raw) == core
  {
    hide SpelledWith;
    var left, slash, md, right :| SpelledWith(raw, core, left, slash, md, right);
    TrimsTo(raw, core, left, slash, md, right);
    SlashCut(raw, core, left, slash, md, right);
    EndingCut(raw, core, left, slash, md, right);
    hide *;
    NormalizesBy(raw, slash + core + md, core + md, core);
  }

  lemma TrimsTo(raw: string, core: string, left: string, slash: string, md: string, right: string)
    requires SpelledWith(raw, core, left, slash, md, right)
    ensures StripRight(StripLeft(raw)) == slash + core + md
  {
    TrimsMiddle(left, slash + core + md, right);
  }

  lemma NormalizesBy(raw: string, s: string, t: string, core: string)
    requires StripRight(StripLeft(raw)) == s && (if "/" <= s then s[1..] else s) == t
    requires (if |t| >= 3 && t[|t| - 3..] == ".md" then t[..|t| - 3] else t) == core
    ensures Normalize(raw) == core
  {
  }

  lemma SlashCut(raw: string, core: string, left: string, slash: string, md: string, right: string)
    requires SpelledWith(raw, core, left, slash, md, right)
    ensures var s := slash + core + md; (if "/" <= s then s[1..] else s) == core + md
  {
    assert slash + core + md == slash + (core + md);
    hide Stripped;
    hide Blank;
  }

  lemma EndingCut(raw: string, core: string, left: string, slash: string, md: string, right: string)
    requires SpelledWith(raw, core, left, slash, md, right)
    ensures var t := core + md; (if |t| >= 3 && t[|t| - 3..] == ".md" then t[..|t| - 3] else t) == core
  {
    if md == ".md" {
      assert (core + md)[|core|..] == md && (core + md)[..|core|] == core;
    } else {
      assert core + md == core;
    }
    hide Stripped;
    hide Blank;
  }

  lemma {:induction false} StripLeftLeaves(s: string) returns (left: string)
    ensures Blank(left) && s == left + StripLeft(s)
    ensures StripLeft(s) != "" ==> !IsSpace(StripLeft(s)[0])
  {
    if s != "" && IsSpace(s[0]) {
      left := StripLeftLeaves(s[1..]);
      left := [s[0]] + left;
    } else {
      left := "";
    }
  }

  lemma {:induction false} StripRightLeaves(s: string) returns (right: string)
    ensures Blank(right) && s == StripRight(s) + right && StripRight(s) <= s
    ensures StripRight(s) != "" ==> !IsSpace(StripRight(s)[|StripRight(s)| - 1])
  {
    if s != "" && IsSpace(s[|s| - 1]) {
      right := StripRightLeaves(s[..|s| - 1]);
      right := right + [s[|s| - 1]];
    } else {
      right := "";
    }
  }

  lemma Trimmed(raw: string) returns (left: string, right: string)
    ensures var s := StripRight(StripLeft(raw)); Blank(left) && Blank(right) && Stripped(s) && raw == left + s + right
  {
    left := StripLeftLeaves(raw);
    right := StripRightLeaves(StripLeft(raw));
    var inner, s := StripLeft(raw), StripRight(StripLeft(raw));
    if s != "" { assert inner[0] == s[0]; }
    assert left + (s + right) == left + s + right;
  }

  lemma Unwrapped(raw: string, s: string, core: string)
    requires s == StripRight(StripLeft(raw)) && Normalize(raw) == core
    ensures var slash := if "/" <= s then "/" else "";
            var t := if "/" <= s then s[1..] else s;
            var md := if EndsInMd(t) then ".md" else "";
            s == slash + core + md && t == core + md && (md == "" ==> !EndsInMd(core))
  {
    hide StripLeft;
    hide StripRight;
    var t := if "/" <= s then s[1..] else s;
    if "/" <= s { assert s == "/" + t; }
    if EndsInMd(t) { assert t == core + ".md"; }
  }

  /** Normalizing a reference gives what it spells, and every reference spells something. */
  lemma NormalizeMeaning(raw: string, core: string)
    ensures Normalize(raw) == core <==> Spells(raw, core)
  {
    if Spells(raw, core) { SpellsNormalizes(raw, core); }
    if Normalize(raw) == core {
      var left, right := Trimmed(raw);
      var s := StripRight(StripLeft(raw));
      Unwrapped(raw, s, core);
      hide *;
      var slash := if "/" <= s then "/" else "";
      var md := if EndsInMd(if "/" <= s then s[1..] else s) then ".md" else "";
      SpelledBy(raw, core, left, slash, md, right);
    }
  }

  lemma SpelledBy(raw: string, core: string, left: string, slash: string, md: string, right: string)
    requires raw == left + (slash + core + md) + right && Blank(left) && Blank(right) && Stripped(slash + core + md)
    requires slash == (if "/" <= slash + core + md then "/" else "") && md in {"", ".md"}
    requires md == "" ==> !EndsInMd(core)
    ensures Spells(raw, core)
  {
    if slash == "" { assert slash + core + md == core + md; }
    assert SpelledWith(raw, core, left, slash, md, right);
  }

  lemma StrippedStays(s: string)
    requires Stripped(s)
    ensures StripRight(StripLeft(s)) == s
  {
    if s != "" { assert s[..1][0] == s[0] && s[|s| - 1..][0] == s[|s| - 1]; }
  }

  /** A path or name without white space and dots, and not behind a slash. */
  predicate Tame(s: string) {
    s != "" && s[0] != '/' && forall i | 0 <= i < |s| :: s[i] !in {' ', '\t', '\n', '\r', '.'}
  }

  lemma ParsedPathIsTame(path: string)
    requires ParseItemPath(path).Some?
    ensures Tame(path)
  {
    forall c: char | c in {' ', '\t', '\n', '\r', '.'} { ParsedIsTame(path, c); }
    ParsedIsTame(path, ' ');
  }

  lemma TameSpelling(s: string, slash: string, md: string)
    requires Tame(s) && slash in {"", "/"} && md in {"", ".md"}
    ensures Normalize(slash + s + md) == s
  {
    var t := slash + s + md;
    if |s| >= 3 { assert s[|s| - 3..][0] == s[|s| - 3] != ".md"[0]; }
    assert (s + md)[0] == s[0];
    assert t[0] == (if slash == "" then s[0] else '/') && t[|t| - 1] == (if md == "" then s[|s| - 1] else 'd');
    assert t == "" + t + "";
    assert SpelledWith(t, s, "", slash, md, "");
    SpellsNormalizes(t, s);
  }

  lemma TameSpellings(s: string)
    requires Tame(s)
    ensures Normalize(s) == s && Normalize(s + ".md") == s && Normalize("/" + s) == s && Normalize("/" + s + ".md") == s
  {
    hide *;
    TameSpelling(s, "", "");
    TameSpelling(s, "", ".md");
    TameSpelling(s, "/", "");
    TameSpelling(s, "/", ".md");
    assert "" + s + "" == s && "" + s + ".md" == s + ".md" && "/" + s + "" == "/" + s;
  }

  lemma SpellingsNormalize(node: LegacyNode, k: nat)
    requires Tame(node.oldPath) && IsKebab(node.basename) && k < |Spellings(node)|
    ensures Normalize(Spellings(node)[k]) ==
              if k == 2 then node.basename else if k == 3 then DropDate(node.basename) else node.oldPath
  {
    var plain := DropDate(node.basename);
    KebabDropDate(node.basename);
    KebabIsTame(node.basename);
    KebabIsTame(plain);
    TameSpellings(node.oldPath);
    TameSpellings(node.basename);
    TameSpellings(plain);
    SpellingsAre(node);
    hide *;
  }

  lemma SpellingsAre(node: LegacyNode)
    ensures |Spellings(node)| == 6 && Spellings(node)[0] == node.oldPath && Spellings(node)[1] == node.oldPath + ".md"
    ensures Spellings(node)[2] == node.basename && Spellings(node)[3] == DropDate(node.basename)
    ensures Spellings(node)[4] == "/" + node.oldPath && Spellings(node)[5] == "/" + node.oldPath + ".md"
  {
  }

  /** An item answers to its path, its basename, and its basename without its date. */
  lemma AnswersIff(node: LegacyNode, key: string)
    requires Tame(node.oldPath) && IsKebab(node.basename)
    ensures AnswersTo(node, key) <==>
              key == node.oldPath || key == node.basename || exists d :: IsDate(d) && node.basename == d + "-" + key
  {
    var plain := DropDate(node.basename);
    forall k | 0 <= k < |Spellings(node)| { SpellingsNormalize(node, k); }
    DatedRest(node.basename, key);
    hide Normalize;
    hide DropDate;
    hide Tame;
    hide IsKebab;
    assert |Spellings(node)| == 6;
    if key in {node.oldPath, node.basename, plain} {
      var k := if key == node.oldPath then 0 else if key == node.basename then 2 else 3;
      assert Normalize(Spellings(node)[k]) == key;
    }
  }

  lemma DatedRest(s: string, key: string)
    ensures s == key || (exists d :: IsDate(d) && s == d + "-" + key) <==> s == key || DropDate(s) == key
  {
    if HasDatePrefix(s) {
      assert IsDate(s[..10]) && s == s[..10] + "-" + s[11..];
    }
    if d :| IsDate(d) && s == d + "-" + key { DateDrops(d, key); }
  }

  lemma KebabIsTame(s: string)
    requires IsKebab(s)
    ensures Tame(s)
  {
    KebabIsShape(s);
  }

  type AliasMap = map<string, set<string>>

  function Holders(aliases: AliasMap, key: string): set<string> {
    if key in aliases then aliases[key] else {}
  }

  /** `_aliases`: every normalized spelling, with the items that answer to it. */
  method Aliases(nodes: seq<LegacyNode>) returns (aliases: AliasMap)
    ensures forall key, p :: p in Holders(aliases, key) <==>
              exists i | 0 <= i < |nodes| :: nodes[i].oldPath == p && AnswersTo(nodes[i], key)
  {
    aliases := map[];
    for i := 0 to |nodes|
      invariant forall key, p :: p in Holders(aliases, key) <==>
                  exists h | 0 <= h < i :: nodes[h].oldPath == p && AnswersTo(nodes[h], key)
    {
      ghost var before := aliases;
      var values := Spellings(nodes[i]);
      for k := 0 to |values|
        invariant forall key, p :: p in Holders(aliases, key) <==>
                    p in Holders(before, key) ||
                    (p == nodes[i].oldPath && exists m | 0 <= m < k :: Normalize(values[m]) == key)
      {
        ghost var prior := aliases;
        var normalized := Normalize(values[k]);
        aliases := aliases[normalized := Holders(aliases, normalized) + {nodes[i].oldPath}];
        forall key, p ensures p in Holders(aliases, key) <==>
                              p in Holders(prior, key) || (p == nodes[i].oldPath && key == Normalize(values[k]))
        {
        }
      }
    }
  }

  /** An item at a dated basename is held under the undated one as well. */
  lemma HeldUndated(nodes: seq<LegacyNode>, aliases: AliasMap, i: nat, d: string, r: string)
    requires forall key, p :: p in Holders(aliases, key) <==>
               exists h | 0 <= h < |nodes| :: nodes[h].oldPath == p && AnswersTo(nodes[h], key)
    requires i < |nodes| && Tame(nodes[i].oldPath) && IsKebab(nodes[i].basename)
    requires IsDate(d) && nodes[i].basename == d + "-" + r
    ensures nodes[i].oldPath in Holders(aliases, r)
  {
    AnswersIff(nodes[i], r);
  }

  datatype Resolution = Found(path: string) | Missing | Ambiguous

  /** `_resolve_legacy`: a raw reference names an item only if exactly one item
      answers to it. */
  function Resolve(raw: string, aliases: AliasMap): (r: Resolution)
    ensures forall p :: r == Found(p) <==> Holders(aliases, Normalize(raw)) == {p}
    ensures r == Missing <==> Holders(aliases, Normalize(raw)) == {}
  {
    var matches := Holders(aliases, Normalize(raw));
    if matches == {} then Missing
    else if |matches| != 1 then Ambiguous
    else
      var p :| p in matches;
      assert matches == {p} by { SingletonOf(matches, p); }
      Found(p)
  }

  lemma SingletonOf<T>(s: set<T>, x: T)
    requires |s| == 1 && x in s
    ensures s == {x}
  {
    assert |s - {x}| == 0;
  }

  // ----- Claims ------------------------------------------------------------------------

  /** (child, parent) pairs. */
  type Claims = set<(string, string)>

  function ParentClaim(node: LegacyNode, aliases: AliasMap): Claims {
    if node.parentRaw.Some? && Resolve(node.parentRaw.value, aliases).Found?
    then {(node.oldPath, Resolve(node.parentRaw.value, aliases).path)} else {}
  }

  function ParentClaims(nodes: seq<LegacyNode>, aliases: AliasMap): Claims {
    if nodes == [] then {}
    else ParentClaims(nodes[..|nodes| - 1], aliases) + ParentClaim(nodes[|nodes| - 1], aliases)
  }

  function ListClaims(owner: string, raws: seq<string>, aliases: AliasMap): Claims {
    if raws == [] then {}
    else
      ListClaims(owner, raws[..|raws| - 1], aliases) + ClaimOf(owner, Resolve(raws[|raws| - 1], aliases))
  }

  function ClaimOf(owner: string, child: Resolution): Claims {
    if child.Found? then {(child.path, owner)} else {}
  }

  function ChildClaims(nodes: seq<LegacyNode>, aliases: AliasMap): Claims {
    if nodes == [] then {}
    else
      var last := nodes[|nodes| - 1];
      ChildClaims(nodes[..|nodes| - 1], aliases) + ListClaims(last.oldPath, last.childrenRaw, aliases)
  }

  predicate Resolves(node: LegacyNode, aliases: AliasMap) {
    && (node.parentRaw.Some? ==> Resolve(node.parentRaw.value, aliases).Found?)
    && forall j | 0 <= j < |node.childrenRaw| :: Resolve(node.childrenRaw[j], aliases).Found?
  }

  predicate AllResolve(nodes: seq<LegacyNode>, aliases: AliasMap) {
    forall i | 0 <= i < |nodes| :: Resolves(nodes[i], aliases)
  }

  /** No child is claimed by two parents. */
  predicate Unrivalled(claims: Claims) {
    forall x, y | x in claims && y in claims :: x.0 == y.0 ==> x == y
  }

  function PhysicalParent(path: string): Option<string> {
    match ParseItemPath(path)
    case None => None
    case Some(location) =>
      match location.Parent()
      case None => None
      case Some(up) => Some(PathOf(up))
  }

  /** What `_hierarchy` promises when it refuses nothing: the parent map is over
      exactly the nodes, agrees with every declared parent, every children list
      and every physical location, has no other parents, every parent is a node
      of a type that may own children and, if it lists children, lists this one;
      no root-only item is nested; and nothing is its own ancestor. */
  ghost predicate Agrees(nodes: seq<LegacyNode>, aliases: AliasMap, parents: Parents) {
    var up, down := ParentClaims(nodes, aliases), ChildClaims(nodes, aliases);
    && parents.Keys == OldPaths(nodes)
    && (forall x | x in up :: x.0 in parents && parents[x.0] == Some(x.1))
    && (forall x | x in down :: x.0 in parents && parents[x.0] == Some(x.1))
    && (forall c | c in parents && PhysicalParent(c).Some? :: parents[c] == PhysicalParent(c))
    && (forall i | 0 <= i < |nodes| && parents[nodes[i].oldPath].Some? ::
          OwnedProperly(nodes, up, down, nodes[i], parents[nodes[i].oldPath].value))
    && (forall c :: !OnCycle(parents, c))
  }

  ghost predicate OwnedProperly(nodes: seq<LegacyNode>, up: Claims, down: Claims, node: LegacyNode, p: string) {
    var c := node.oldPath;
    && ((c, p) in up || (c, p) in down || PhysicalParent(c) == Some(p))
    && MayOwn(nodes, down, node, p)
  }

  ghost predicate MayOwn(nodes: seq<LegacyNode>, down: Claims, node: LegacyNode, p: string) {
    && node.kind != Release
    && exists h | 0 <= h < |nodes| :: nodes[h].oldPath == p && nodes[h].kind in {Release, Epic, Feature} &&
         (nodes[h].childrenDeclared ==> (node.oldPath, p) in down)
  }

  lemma AgreementIsUnique(nodes: seq<LegacyNode>, aliases: AliasMap, m1: Parents, m2: Parents)
    requires Agrees(nodes, aliases, m1) && Agrees(nodes, aliases, m2)
    ensures m1 == m2
  {
    hide PhysicalParent;
    hide MayOwn;
    hide ParentClaims;
    hide ChildClaims;
    forall c | c in m1 ensures m1[c] == m2[c] {
      var i :| 0 <= i < |nodes| && nodes[i].oldPath == c;
    }
  }

  // ----- First loop: resolve the claims ---------------------------------------------------

  function Flatten(lists: map<string, set<string>>): Claims {
    set p, c | p in lists && c in lists[p] :: (c, p)
  }

  /** The map holds exactly the claims. */
  predicate Represents(m: map<string, string>, claims: Claims) {
    && (forall c | c in m :: (c, m[c]) in claims)
    && (forall x | x in claims :: x.0 in m && m[x.0] == x.1)
  }

  lemma AddClaim(m: map<string, string>, claims: Claims, c: string, p: string)
    requires Represents(m, claims)
    ensures c !in m || m[c] == p ==> Represents(m[c := p], claims + {(c, p)})
    ensures c in m && m[c] != p ==> !Unrivalled(claims + {(c, p)})
  {
    if c in m && m[c] != p {
      assert (c, m[c]) in claims + {(c, p)} && (c, p) in claims + {(c, p)};
    }
  }

  lemma AddToList(lists: map<string, set<string>>, owner: string, child: string)
    ensures Flatten(lists[owner := Holders(lists, owner) + {child}]) == Flatten(lists) + {(child, owner)}
  {
    var after := lists[owner := Holders(lists, owner) + {child}];
    forall x ensures x in Flatten(after) <==> x in Flatten(lists) + {(child, owner)} {
    }
  }

  predicate RawsResolve(raws: seq<string>, aliases: AliasMap) {
    forall j | 0 <= j < |raws| :: Resolve(raws[j], aliases).Found?
  }

  /** How a reference that names no single item is refused. */
  predicate FailsAs(found: Resolution, kind: RefusalKind) {
    (found.Missing? && kind == MissingNode) || (found.Ambiguous? && kind == AmbiguousNode)
  }

  /** What is wrong with a children list: a reference that does not resolve, or a
      child that an earlier list gave another owner. */
  predicate ListFault(owner: string, raws: seq<string>, aliases: AliasMap, before: map<string, string>, r: Refusal) {
    || (r.path == owner && RawFails(raws, aliases, r.kind))
    || (r.kind == HierarchyDisagreement && (r.path, owner) in ListClaims(owner, raws, aliases) &&
        r.path in before && before[r.path] != owner)
  }

  /** The claimed children have the owner now, and the others whom they had. */
  ghost predicate TakenOver(before: map<string, string>, now: map<string, string>, owner: string, claims: Claims) {
    && (forall c :: c in now <==> c in before || (c, owner) in claims)
    && (forall c | c in now :: if (c, owner) in claims then now[c] == owner else c in before && now[c] == before[c])
  }

  ghost predicate ListRead(owner: string, raws: seq<string>, aliases: AliasMap, before: map<string, string>,
                           now: map<string, string>, refusals: seq<Refusal>)
  {
    && TakenOver(before, now, owner, ListClaims(owner, raws, aliases))
    && forall r :: r in refusals <==> ListFault(owner, raws, aliases, before, r)
  }

  lemma NothingRead(owner: string, aliases: AliasMap, before: map<string, string>)
    ensures ListRead(owner, [], aliases, before, before, [])
  {
  }

  predicate RawFails(raws: seq<string>, aliases: AliasMap, kind: RefusalKind) {
    exists j | 0 <= j < |raws| :: FailsAs(Resolve(raws[j], aliases), kind)
  }

  lemma RawFailsStep(raws: seq<string>, j: nat, aliases: AliasMap, kind: RefusalKind)
    requires j < |raws|
    ensures RawFails(raws[..j + 1], aliases, kind) <==>
              RawFails(raws[..j], aliases, kind) || FailsAs(Resolve(raws[j], aliases), kind)
  {
    hide Resolve;
    hide FailsAs;
    assert raws[..j + 1] == raws[..j] + [raws[j]];
    if FailsAs(Resolve(raws[j], aliases), kind) {
      assert raws[..j + 1][j] == raws[j];
    }
    if k :| 0 <= k < j && FailsAs(Resolve(raws[..j][k], aliases), kind) {
      assert raws[..j + 1][k] == raws[..j][k];
    }
  }

  lemma ListFaultStep(owner: string, raws: seq<string>, j: nat, aliases: AliasMap, before: map<string, string>,
                      r: Refusal)
    requires j < |raws|
    ensures var found := Resolve(raws[j], aliases);
            ListFault(owner, raws[..j + 1], aliases, before, r) <==>
              || ListFault(owner, raws[..j], aliases, before, r)
              || (r.path == owner && FailsAs(found, r.kind))
              || (r.kind == HierarchyDisagreement && found.Found? && r.path == found.path &&
                  r.path in before && before[r.path] != owner)
  {
    ListClaimsNext(owner, raws, j, aliases);
    RawFailsStep(raws, j, aliases, r.kind);
    hide RawFails;
    hide FailsAs;
    hide Resolve;
    hide ListClaims;
  }

  /** One more entry of the list. */
  lemma ReadOne(owner: string, raws: seq<string>, j: nat, aliases: AliasMap, before: map<string, string>,
                now: map<string, string>, refusals: seq<Refusal>, now': map<string, string>, refusals': seq<Refusal>)
    requires j < |raws| && ListRead(owner, raws[..j], aliases, before, now, refusals)
    requires match Resolve(raws[j], aliases)
             case Missing => now' == now && refusals' == refusals + [Refusal(owner, MissingNode)]
             case Ambiguous => now' == now && refusals' == refusals + [Refusal(owner, AmbiguousNode)]
             case Found(child) =>
               && now' == now[child := owner]
               && refusals' == if child in now && now[child] != owner
                               then refusals + [Refusal(child, HierarchyDisagreement)] else refusals
    ensures ListRead(owner, raws[..j + 1], aliases, before, now', refusals')
  {
    var found, claims := Resolve(raws[j], aliases), ListClaims(owner, raws[..j], aliases);
    ListClaimsNext(owner, raws, j, aliases);
    TakeNext(before, now, owner, claims, found);
    assert TakenOver(before, now', owner, ListClaims(owner, raws[..j + 1], aliases));
    hide *;
    forall r ensures r in refusals' <==> ListFault(owner, raws[..j + 1], aliases, before, r) {
      ReadRefusal(owner, raws, j, aliases, before, now, r);
      assert r in refusals <==> ListFault(owner, raws[..j], aliases, before, r);
    }
  }

  /** When one more entry of the list is refused for `r`. */
  lemma ReadRefusal(owner: string, raws: seq<string>, j: nat, aliases: AliasMap, before: map<string, string>,
                    now: map<string, string>, r: Refusal)
    requires j < |raws| && TakenOver(before, now, owner, ListClaims(owner, raws[..j], aliases))
    ensures ListFault(owner, raws[..j + 1], aliases, before, r) <==>
              || ListFault(owner, raws[..j], aliases, before, r)
              || match Resolve(raws[j], aliases)
                 case Missing => r == Refusal(owner, MissingNode)
                 case Ambiguous => r == Refusal(owner, AmbiguousNode)
                 case Found(child) => child in now && now[child] != owner && r == Refusal(child, HierarchyDisagreement)
  {
    var found, claims := Resolve(raws[j], aliases), ListClaims(owner, raws[..j], aliases);
    ListFaultStep(owner, raws, j, aliases, before, r);
    if found.Found? {
      TakeOne(before, now, owner, claims, found.path);
    }
    assert r.kind == HierarchyDisagreement && (r.path, owner) in claims && r.path in before && before[r.path] != owner
           ==> ListFault(owner, raws[..j], aliases, before, r);
    hide Resolve;
    hide ListClaims;
    hide TakenOver;
    hide ListFault;
  }

  lemma TakeNext(before: map<string, string>, now: map<string, string>, owner: string, claims: Claims,
                 found: Resolution)
    requires TakenOver(before, now, owner, claims)
    ensures TakenOver(before, if found.Found? then now[found.path := owner] else now, owner,
                      claims + ClaimOf(owner, found))
  {
    if found.Found? {
      TakeOne(before, now, owner, claims, found.path);
    } else {
      assert claims + ClaimOf(owner, found) == claims;
    }
  }

  lemma TakeOne(before: map<string, string>, now: map<string, string>, owner: string, claims: Claims, child: string)
    requires TakenOver(before, now, owner, claims)
    ensures TakenOver(before, now[child := owner], owner, claims + {(child, owner)})
    ensures child in now && now[child] != owner <==>
              child in before && before[child] != owner && (child, owner) !in claims
  {
  }

  /** One node's turn in the first loop: its children list. */
  method CollectChildren(node: LegacyNode, aliases: AliasMap, ghost earlier: Claims,
                         childClaims: map<string, string>, lists: map<string, set<string>>)
    returns (childClaims': map<string, string>, lists': map<string, set<string>>, refusals: seq<Refusal>)
    requires Flatten(lists) == earlier
    ensures var claims := earlier + ListClaims(node.oldPath, node.childrenRaw, aliases);
            && Flatten(lists') == claims
            && (Represents(childClaims, earlier) && refusals == [] ==>
                  RawsResolve(node.childrenRaw, aliases) && Represents(childClaims', claims))
            && (Represents(childClaims, earlier) && refusals != [] ==>
                  !(RawsResolve(node.childrenRaw, aliases) && Unrivalled(claims)))
    ensures ListRead(node.oldPath, node.childrenRaw, aliases, childClaims, childClaims', refusals)
  {
    hide ListRead;
    hide Resolve;
    hide ListClaims;
    hide Represents;
    hide Unrivalled;
    hide Flatten;
    hide RawsResolve;
    refusals, childClaims', lists' := [], childClaims, lists;
    NothingListed(node.oldPath, earlier, aliases);
    NothingRead(node.oldPath, aliases, childClaims);
    var raws, owner := node.childrenRaw, node.oldPath;
    for j := 0 to |raws|
      invariant ListRead(owner, raws[..j], aliases, childClaims, childClaims', refusals)
      invariant Flatten(lists') == earlier + ListClaims(owner, raws[..j], aliases)
      invariant Represents(childClaims, earlier) && refusals == [] ==>
                  RawsResolve(raws[..j], aliases) &&
                      Represents(childClaims', earlier + ListClaims(owner, raws[..j], aliases))
      invariant Represents(childClaims, earlier) && refusals != [] ==>
                  !(RawsResolve(raws[..j], aliases) && Unrivalled(earlier + ListClaims(owner, raws[..j], aliases)))
    {
      ghost var now := earlier + ListClaims(owner, raws[..j], aliases);
      ghost var was, were := childClaims', refusals;
      ListClaimsStep(owner, raws, j, aliases, earlier);
      match Resolve(raws[j], aliases) {
        case Missing => refusals := refusals + [Refusal(owner, MissingNode)];
        case Ambiguous => refusals := refusals + [Refusal(owner, AmbiguousNode)];
        case Found(child) =>
          if Represents(childClaims', now) { AddClaim(childClaims', now, child, owner); }
          AddToList(lists', owner, child);
          if child in childClaims' && childClaims'[child] != owner {
            refusals := refusals + [Refusal(child, HierarchyDisagreement)];
          }
          childClaims' := childClaims'[child := owner];
          lists' := lists'[owner := Holders(lists', owner) + {child}];
      }
      ReadOne(owner, raws, j, aliases, childClaims, was, were, childClaims', refusals);
    }
    assert raws[..|raws|] == raws;
  }

  lemma UnrivalledSubset(small: Claims, large: Claims)
    requires small <= large && Unrivalled(large)
    ensures Unrivalled(small)
  {
  }

  lemma NothingListed(owner: string, earlier: Claims, aliases: AliasMap)
    ensures earlier + ListClaims(owner, [], aliases) == earlier && RawsResolve([], aliases)
  {
  }

  lemma RawsResolveStep(raws: seq<string>, j: nat, aliases: AliasMap)
    requires j < |raws|
    ensures RawsResolve(raws[..j + 1], aliases) <==> RawsResolve(raws[..j], aliases) && Resolve(raws[j], aliases).Found?
  {
    if RawsResolve(raws[..j + 1], aliases) {
      forall k | 0 <= k < j ensures Resolve(raws[..j][k], aliases).Found? {
        assert raws[..j][k] == raws[..j + 1][k];
      }
      assert raws[j] == raws[..j + 1][j];
    }
  }

  lemma ListClaimsNext(owner: string, raws: seq<string>, j: nat, aliases: AliasMap)
    requires j < |raws|
    ensures ListClaims(owner, raws[..j + 1], aliases) ==
            ListClaims(owner, raws[..j], aliases) + ClaimOf(owner, Resolve(raws[j], aliases))
  {
    assert raws[..j + 1][..j] == raws[..j] && raws[..j + 1][j] == raws[j];
  }

  lemma ListClaimsStep(owner: string, raws: seq<string>, j: nat, aliases: AliasMap, earlier: Claims)
    requires j < |raws|
    ensures var now, next := earlier + ListClaims(owner, raws[..j], aliases),
              earlier + ListClaims(owner, raws[..j + 1], aliases);
            next == now + ClaimOf(owner, Resolve(raws[j], aliases)) && (Unrivalled(next) ==> Unrivalled(now))
    ensures RawsResolve(raws[..j + 1], aliases) <==> RawsResolve(raws[..j], aliases) && Resolve(raws[j], aliases).Found?
  {
    hide Resolve;
    hide ListClaims;
    hide RawsResolve;
    hide Unrivalled;
    ListClaimsNext(owner, raws, j, aliases);
    RawsResolveStep(raws, j, aliases);
    var now, next := earlier + ListClaims(owner, raws[..j], aliases),
        earlier + ListClaims(owner, raws[..j + 1], aliases);
    if Unrivalled(next) { UnrivalledSubset(now, next); }
  }

  lemma ClaimsStep(nodes: seq<LegacyNode>, i: nat, aliases: AliasMap)
    requires i < |nodes|
    ensures ParentClaims(nodes[..i + 1], aliases) == ParentClaims(nodes[..i], aliases) + ParentClaim(nodes[i], aliases)
    ensures ChildClaims(nodes[..i + 1], aliases) ==
            ChildClaims(nodes[..i], aliases) + ListClaims(nodes[i].oldPath, nodes[i].childrenRaw, aliases)
  {
    assert nodes[..i + 1][..i] == nodes[..i] && nodes[..i + 1][i] == nodes[i];
  }

  lemma AllResolveStep(nodes: seq<LegacyNode>, i: nat, aliases: AliasMap)
    requires i < |nodes|
    ensures AllResolve(nodes[..i + 1], aliases) <==> AllResolve(nodes[..i], aliases) && Resolves(nodes[i], aliases)
  {
    hide Resolves;
    if AllResolve(nodes[..i + 1], aliases) {
      forall k | 0 <= k < i ensures Resolves(nodes[..i][k], aliases) {
        assert nodes[..i][k] == nodes[..i + 1][k];
      }
      assert nodes[i] == nodes[..i + 1][i];
    }
  }

  lemma {:induction false} ClaimantsAreNodes(nodes: seq<LegacyNode>, aliases: AliasMap)
    ensures forall x | x in ParentClaims(nodes, aliases) :: x.0 in OldPaths(nodes)
  {
    if nodes != [] {
      ClaimantsAreNodes(nodes[..|nodes| - 1], aliases);
      var last := nodes[|nodes| - 1];
      assert last.oldPath in OldPaths(nodes);
    }
  }

  /** What the first loop of `_hierarchy` has established about a prefix. */
  ghost predicate Collected(nodes: seq<LegacyNode>, aliases: AliasMap, parentClaims: map<string, string>,
                            childClaims: map<string, string>, lists: map<string, set<string>>, refused: bool)
  {
    && Represents(parentClaims, ParentClaims(nodes, aliases))
    && Flatten(lists) == ChildClaims(nodes, aliases)
    && (if refused then !(AllResolve(nodes, aliases) && Unrivalled(ChildClaims(nodes, aliases)))
        else AllResolve(nodes, aliases) && Represents(childClaims, ChildClaims(nodes, aliases)))
  }

  /** The refusals are those of a declared parent that does not resolve. */
  ghost predicate ParentRead(node: LegacyNode, aliases: AliasMap, refusals: seq<Refusal>) {
    forall r :: r in refusals <==>
      r.path == node.oldPath && node.parentRaw.Some? && FailsAs(Resolve(node.parentRaw.value, aliases), r.kind)
  }

  /** One node's turn in the first loop: its declared parent. */
  method CollectParent(node: LegacyNode, aliases: AliasMap, parentClaims: map<string, string>, ghost earlier: Claims)
    returns (parentClaims': map<string, string>, refusals: seq<Refusal>)
    requires Represents(parentClaims, earlier) && node.oldPath !in parentClaims
    ensures Represents(parentClaims', earlier + ParentClaim(node, aliases))
    ensures refusals == [] <==> (node.parentRaw.Some? ==> Resolve(node.parentRaw.value, aliases).Found?)
    ensures ParentRead(node, aliases, refusals)
  {
    refusals, parentClaims' := [], parentClaims;
    if node.parentRaw.Some? {
      match Resolve(node.parentRaw.value, aliases) {
        case Missing => refusals := [Refusal(node.oldPath, MissingNode)];
        case Ambiguous => refusals := [Refusal(node.oldPath, AmbiguousNode)];
        case Found(parent) =>
          AddClaim(parentClaims, earlier, node.oldPath, parent);
          parentClaims' := parentClaims[node.oldPath := parent];
      }
    }
  }

  predicate NodeFails(node: LegacyNode, aliases: AliasMap, kind: RefusalKind) {
    || (node.parentRaw.Some? && FailsAs(Resolve(node.parentRaw.value, aliases), kind))
    || RawFails(node.childrenRaw, aliases, kind)
  }

  predicate SomeFails(nodes: seq<LegacyNode>, aliases: AliasMap, r: Refusal) {
    exists i | 0 <= i < |nodes| :: nodes[i].oldPath == r.path && NodeFails(nodes[i], aliases, r.kind)
  }

  /** Two owners claim the child. */
  ghost predicate Rivalled(claims: Claims, c: string) {
    exists p, q :: (c, p) in claims && (c, q) in claims && p != q
  }

  /** What the first loop refuses: a node one of whose references does not resolve,
      and a child that two lists claim. */
  ghost predicate FirstRefuses(nodes: seq<LegacyNode>, aliases: AliasMap, r: Refusal) {
    || SomeFails(nodes, aliases, r)
    || (r.kind == HierarchyDisagreement && Rivalled(ChildClaims(nodes, aliases), r.path))
  }

  /** The map holds one claim for every claimed child. */
  ghost predicate HoldsClaims(m: map<string, string>, claims: Claims) {
    (forall c | c in m :: (c, m[c]) in claims) && forall x | x in claims :: x.0 in m
  }

  lemma HoldsMore(before: map<string, string>, now: map<string, string>, owner: string, claims: Claims, listed: Claims)
    requires HoldsClaims(before, claims) && TakenOver(before, now, owner, listed)
    requires forall x | x in listed :: x.1 == owner
    ensures HoldsClaims(now, claims + listed)
    ensures forall c :: Rivalled(claims + listed, c) <==>
                          Rivalled(claims, c) || ((c, owner) in listed && c in before && before[c] != owner)
  {
    forall c ensures Rivalled(claims + listed, c) <==>
                       Rivalled(claims, c) || ((c, owner) in listed && c in before && before[c] != owner) {
      if (c, owner) in listed && c in before && before[c] != owner {
        assert (c, before[c]) in claims + listed && (c, owner) in claims + listed;
      }
      if p, q :| (c, p) in claims && (c, q) in claims && p != q {
        assert (c, p) in claims + listed && (c, q) in claims + listed;
      }
      if p, q :| (c, p) in claims + listed && (c, q) in claims + listed && p != q {
        if c in before && before[c] == owner {
          assert (c, owner) in claims;
        }
        assert (c, p) in listed ==> p == owner;
        assert (c, q) in listed ==> q == owner;
      }
    }
  }

  lemma {:induction false} ListedByOwner(owner: string, raws: seq<string>, aliases: AliasMap)
    ensures forall x | x in ListClaims(owner, raws, aliases) :: x.1 == owner
  {
    if raws != [] {
      ListedByOwner(owner, raws[..|raws| - 1], aliases);
    }
  }

  lemma FirstRefusesStep(nodes: seq<LegacyNode>, i: nat, aliases: AliasMap, cc: map<string, string>,
                         cc': map<string, string>, r: Refusal)
    requires i < |nodes| && HoldsClaims(cc, ChildClaims(nodes[..i], aliases))
    requires TakenOver(cc, cc', nodes[i].oldPath, ListClaims(nodes[i].oldPath, nodes[i].childrenRaw, aliases))
    ensures FirstRefuses(nodes[..i + 1], aliases, r) <==>
              || FirstRefuses(nodes[..i], aliases, r)
              || (r.path == nodes[i].oldPath && nodes[i].parentRaw.Some? &&
                  FailsAs(Resolve(nodes[i].parentRaw.value, aliases), r.kind))
              || ListFault(nodes[i].oldPath, nodes[i].childrenRaw, aliases, cc, r)
    ensures HoldsClaims(cc', ChildClaims(nodes[..i + 1], aliases))
  {
    var owner, raws := nodes[i].oldPath, nodes[i].childrenRaw;
    ClaimsStep(nodes, i, aliases);
    ListedByOwner(owner, raws, aliases);
    HoldsMore(cc, cc', owner, ChildClaims(nodes[..i], aliases), ListClaims(owner, raws, aliases));
    SomeNodeFails(nodes, i, aliases, r);
    hide Rivalled;
    hide SomeFails;
    hide HoldsClaims;
    hide TakenOver;
    hide ChildClaims;
    hide ListClaims;
    hide RawFails;
    hide FailsAs;
    hide Resolve;
  }

  lemma SomeNodeFails(nodes: seq<LegacyNode>, i: nat, aliases: AliasMap, r: Refusal)
    requires i < |nodes|
    ensures SomeFails(nodes[..i + 1], aliases, r) <==>
              SomeFails(nodes[..i], aliases, r) || (nodes[i].oldPath == r.path && NodeFails(nodes[i], aliases, r.kind))
  {
    hide NodeFails;
    assert nodes[..i + 1] == nodes[..i] + [nodes[i]];
    if nodes[i].oldPath == r.path && NodeFails(nodes[i], aliases, r.kind) {
      assert nodes[..i + 1][i] == nodes[i];
    }
    if h :| 0 <= h < i && nodes[..i][h].oldPath == r.path && NodeFails(nodes[..i][h], aliases, r.kind) {
      assert nodes[..i + 1][h] == nodes[..i][h];
    }
  }

  ghost predicate Reported(nodes: seq<LegacyNode>, aliases: AliasMap, cc: map<string, string>, refusals: seq<Refusal>) {
    HoldsClaims(cc, ChildClaims(nodes, aliases)) && forall r :: r in refusals <==> FirstRefuses(nodes, aliases, r)
  }

  lemma ReportedStep(nodes: seq<LegacyNode>, i: nat, aliases: AliasMap, cc: map<string, string>,
                     cc': map<string, string>, refusals: seq<Refusal>, named: seq<Refusal>, listed: seq<Refusal>)
    requires i < |nodes| && Reported(nodes[..i], aliases, cc, refusals) && ParentRead(nodes[i], aliases, named)
    requires ListRead(nodes[i].oldPath, nodes[i].childrenRaw, aliases, cc, cc', listed)
    ensures Reported(nodes[..i + 1], aliases, cc', refusals + named + listed)
  {
    hide FirstRefuses;
    hide ListFault;
    hide HoldsClaims;
    hide TakenOver;
    hide FailsAs;
    hide Resolve;
    FirstRefusesStep(nodes, i, aliases, cc, cc', Refusal("", MissingNode));
    forall r ensures r in refusals + named + listed <==> FirstRefuses(nodes[..i + 1], aliases, r) {
      FirstRefusesStep(nodes, i, aliases, cc, cc', r);
    }
  }

  /** The first loop of `_hierarchy`. */
  method CollectClaims(nodes: seq<LegacyNode>, aliases: AliasMap)
    returns (parentClaims: map<string, string>, childClaims: map<string, string>,
             lists: map<string, set<string>>, refusals: seq<Refusal>)
    requires DistinctPaths(nodes)
    ensures Collected(nodes, aliases, parentClaims, childClaims, lists, refusals != [])
    ensures HoldsClaims(childClaims, ChildClaims(nodes, aliases))
    ensures forall r :: r in refusals <==> FirstRefuses(nodes, aliases, r)
  {
    parentClaims, childClaims, lists, refusals := map[], map[], map[], [];
    for i := 0 to |nodes|
      invariant Collected(nodes[..i], aliases, parentClaims, childClaims, lists, refusals != [])
      invariant Reported(nodes[..i], aliases, childClaims, refusals)
    {
      hide Reported;
      hide ParentRead;
      hide ListRead;
      ghost var up, down := ParentClaims(nodes[..i], aliases), ChildClaims(nodes[..i], aliases);
      ClaimsStep(nodes, i, aliases);
      AllResolveStep(nodes, i, aliases);
      ClaimantsAreNodes(nodes[..i], aliases);
      assert nodes[i].oldPath !in parentClaims;
      var named, listed;
      parentClaims, named := CollectParent(nodes[i], aliases, parentClaims, up);
      ghost var was, were := childClaims, refusals;
      childClaims, lists, listed := CollectChildren(nodes[i], aliases, down, childClaims, lists);
      if Unrivalled(ChildClaims(nodes[..i + 1], aliases)) {
        UnrivalledSubset(down, ChildClaims(nodes[..i + 1], aliases));
      }
      refusals := refusals + named + listed;
      ReportedStep(nodes, i, aliases, was, childClaims, were, named, listed);
    }
    assert nodes[..|nodes|] == nodes;
  }

  // ----- Second loop: settle each item's parent ----------------------------------------------

  function Candidates(parentClaims: map<string, string>, childClaims: map<string, string>, c: string): set<string> {
    (if c in parentClaims then {parentClaims[c]} else {}) +
    (if c in childClaims then {childClaims[c]} else {}) +
    (if PhysicalParent(c).Some? then {PhysicalParent(c).value} else {})
  }

  ghost predicate Placed(nodes: seq<LegacyNode>, candidates: set<string>, down: Claims, node: LegacyNode) {
    && (forall p, q | p in candidates && q in candidates :: p == q)
    && (forall p | p in candidates :: MayOwn(nodes, down, node, p))
  }

  function AsSet(p: Option<string>): set<string> {
    if p.Some? then {p.value} else {}
  }

  /** What is wrong with the candidates for a node's parent: several of them, or
      one that is no node, that lists its children without this one, or that may
      not own it. */
  ghost predicate Fault(nodes: seq<LegacyNode>, candidates: set<string>, down: Claims, node: LegacyNode,
                        kind: RefusalKind)
  {
    match kind
    case HierarchyDisagreement =>
      |candidates| > 1 ||
      exists h | 0 <= h < |nodes| :: candidates == {nodes[h].oldPath} && nodes[h].childrenDeclared &&
                                     (node.oldPath, nodes[h].oldPath) !in down
    case MissingNode => |candidates| == 1 && candidates !! OldPaths(nodes)
    case InvalidParentType =>
      exists h | 0 <= h < |nodes| :: candidates == {nodes[h].oldPath} && nodes[h].kind !in {Release, Epic, Feature}
    case NestedRelease => |candidates| == 1 && !(candidates !! OldPaths(nodes)) && node.kind == Release
    case _ => false
  }

  /** The second loop of `_hierarchy`, one node. */
  method Place(nodes: seq<LegacyNode>, byPath: map<string, LegacyNode>, candidates: set<string>,
               lists: map<string, set<string>>, node: LegacyNode)
    returns (parent: Option<string>, refusals: seq<Refusal>)
    requires forall p :: p in byPath <==> p in OldPaths(nodes)
    requires forall h | 0 <= h < |nodes| :: byPath[nodes[h].oldPath] == nodes[h]
    ensures refusals == [] <==> Placed(nodes, candidates, Flatten(lists), node)
    ensures refusals == [] ==> candidates == AsSet(parent)
    ensures |candidates| <= 1 ==> candidates == AsSet(parent)
    ensures |candidates| > 1 ==> parent == None
    ensures forall r :: r in refusals <==>
              r.path == node.oldPath && Fault(nodes, candidates, Flatten(lists), node, r.kind)
  {
    refusals, parent := [], None;
    if |candidates| > 1 {
      ghost var p :| p in candidates;
      ghost var rest := candidates - {p};
      assert |rest| == |candidates| - 1;
      ghost var q :| q in rest;
      assert p in candidates && q in candidates && p != q;
      refusals := [Refusal(node.oldPath, HierarchyDisagreement)];
      return;
    }
    if candidates == {} {
      return;
    }
    var p :| p in candidates;
    SingletonOf(candidates, p);
    parent := Some(p);
    if p !in byPath {
      refusals := [Refusal(node.oldPath, MissingNode)];
      return;
    }
    ghost var h :| 0 <= h < |nodes| && nodes[h].oldPath == p;
    if byPath[p].childrenDeclared && node.oldPath !in Holders(lists, p) {
      refusals := refusals + [Refusal(node.oldPath, HierarchyDisagreement)];
    }
    if !CanOwnChildren(byPath[p].kind) {
      refusals := refusals + [Refusal(node.oldPath, InvalidParentType)];
    }
    if RootOnly(node.kind) {
      refusals := refusals + [Refusal(node.oldPath, NestedRelease)];
    }
    assert node.oldPath in Holders(lists, p) <==> (node.oldPath, p) in Flatten(lists);
    assert byPath[p] == nodes[h];
  }

  function ByPath(nodes: seq<LegacyNode>): (m: map<string, LegacyNode>)
    ensures m.Keys == OldPaths(nodes)
    ensures DistinctPaths(nodes) ==>
              forall i | 0 <= i < |nodes| :: nodes[i].oldPath in m && m[nodes[i].oldPath] == nodes[i]
  {
    if nodes == [] then map[]
    else
      var last := nodes[|nodes| - 1];
      assert OldPaths(nodes) == OldPaths(nodes[..|nodes| - 1]) + {last.oldPath};
      ByPath(nodes[..|nodes| - 1])[last.oldPath := last]
  }

  function PathList(nodes: seq<LegacyNode>): (paths: seq<string>)
    ensures Elements(paths) == OldPaths(nodes)
  {
    if nodes == [] then []
    else
      var last := nodes[|nodes| - 1];
      assert OldPaths(nodes) == OldPaths(nodes[..|nodes| - 1]) + {last.oldPath};
      PathList(nodes[..|nodes| - 1]) + [last.oldPath]
  }

  /** The one candidate is taken, and none of several. */
  predicate Chosen(candidates: set<string>, parent: Option<string>) {
    if |candidates| > 1 then parent == None else candidates == AsSet(parent)
  }

  /** What the second loop refuses about the nodes so far. */
  ghost predicate SecondRefuses(nodes: seq<LegacyNode>, pc: map<string, string>, cc: map<string, string>, down: Claims,
                                n: nat, r: Refusal)
    requires n <= |nodes|
  {
    exists i | 0 <= i < n :: nodes[i].oldPath == r.path && FaultAt(nodes, pc, cc, down, nodes[i], r.kind)
  }

  ghost predicate FaultAt(nodes: seq<LegacyNode>, pc: map<string, string>, cc: map<string, string>, down: Claims,
                          node: LegacyNode, kind: RefusalKind)
  {
    Fault(nodes, Candidates(pc, cc, node.oldPath), down, node, kind)
  }

  ghost predicate Settles(nodes: seq<LegacyNode>, pc: map<string, string>, cc: map<string, string>, down: Claims,
                          n: nat, parents: Parents, refusals: seq<Refusal>)
    requires n <= |nodes|
  {
    && (forall r :: r in refusals <==> SecondRefuses(nodes, pc, cc, down, n, r))
    && forall i | 0 <= i < n :: nodes[i].oldPath in parents &&
                                Chosen(Candidates(pc, cc, nodes[i].oldPath), parents[nodes[i].oldPath])
  }

  lemma NoneSettled(nodes: seq<LegacyNode>, pc: map<string, string>, cc: map<string, string>, down: Claims,
                    parents: Parents)
    ensures Settles(nodes, pc, cc, down, 0, parents, [])
  {
  }

  lemma SettlesStep(nodes: seq<LegacyNode>, pc: map<string, string>, cc: map<string, string>, down: Claims,
                    n: nat, parents: Parents, refusals: seq<Refusal>, parent: Option<string>, more: seq<Refusal>)
    requires n < |nodes| && DistinctPaths(nodes) && Settles(nodes, pc, cc, down, n, parents, refusals)
    requires Chosen(Candidates(pc, cc, nodes[n].oldPath), parent)
    requires forall r :: r in more <==>
               r.path == nodes[n].oldPath && Fault(nodes, Candidates(pc, cc, nodes[n].oldPath), down, nodes[n], r.kind)
    ensures Settles(nodes, pc, cc, down, n + 1, parents[nodes[n].oldPath := parent], refusals + more)
  {
    hide Candidates;
    hide Fault;
    hide Chosen;
    forall r ensures r in refusals + more <==> SecondRefuses(nodes, pc, cc, down, n + 1, r) {
      assert r in refusals <==> SecondRefuses(nodes, pc, cc, down, n, r);
      assert r in more <==> r.path == nodes[n].oldPath && FaultAt(nodes, pc, cc, down, nodes[n], r.kind);
      hide FaultAt;
    }
  }

  /** The second loop of `_hierarchy`. */
  method AssignParents(nodes: seq<LegacyNode>, parentClaims: map<string, string>, childClaims: map<string, string>,
                       lists: map<string, set<string>>)
    returns (parents: Parents, refusals: seq<Refusal>)
    requires DistinctPaths(nodes)
    ensures parents.Keys == OldPaths(nodes)
    ensures refusals == [] <==> forall i | 0 <= i < |nodes| ::
              Placed(nodes, Candidates(parentClaims, childClaims, nodes[i].oldPath), Flatten(lists), nodes[i])
    ensures refusals == [] ==> forall i | 0 <= i < |nodes| ::
              Candidates(parentClaims, childClaims, nodes[i].oldPath) == AsSet(parents[nodes[i].oldPath])
    ensures Settles(nodes, parentClaims, childClaims, Flatten(lists), |nodes|, parents, refusals)
  {
    hide Settles;
    hide Candidates;
    hide Placed;
    hide Flatten;
    hide OldPaths;
    hide AsSet;
    hide ByPath;
    var byPath := ByPath(nodes);
    refusals := [];
    parents := map c | c in byPath :: None;
    NoneSettled(nodes, parentClaims, childClaims, Flatten(lists), parents);
    for i := 0 to |nodes|
      invariant parents.Keys == OldPaths(nodes)
      invariant Settles(nodes, parentClaims, childClaims, Flatten(lists), i, parents, refusals)
      invariant refusals == [] <==> forall h | 0 <= h < i ::
                  Placed(nodes, Candidates(parentClaims, childClaims, nodes[h].oldPath), Flatten(lists), nodes[h])
      invariant refusals == [] ==> forall h | 0 <= h < i ::
                  Candidates(parentClaims, childClaims, nodes[h].oldPath) == AsSet(parents[nodes[h].oldPath])
    {
      var candidates := Candidates(parentClaims, childClaims, nodes[i].oldPath);
      var parent, more := Place(nodes, byPath, candidates, lists, nodes[i]);
      assert forall h | 0 <= h < i :: nodes[h].oldPath != nodes[i].oldPath;
      SettlesStep(nodes, parentClaims, childClaims, Flatten(lists), i, parents, refusals, parent, more);
      parents := parents[nodes[i].oldPath := parent];
      refusals := refusals + more;
    }
  }

  /** Some parent map satisfies every claim. */
  ghost predicate Coherent(nodes: seq<LegacyNode>, aliases: AliasMap) {
    AllResolve(nodes, aliases) && exists m :: Agrees(nodes, aliases, m)
  }

  lemma CandidatesAreClaims(nodes: seq<LegacyNode>, aliases: AliasMap, pc: map<string, string>, cc: map<string, string>,
                            c: string, p: string)
    requires Represents(pc, ParentClaims(nodes, aliases)) && Represents(cc, ChildClaims(nodes, aliases))
    ensures p in Candidates(pc, cc, c) <==>
            (c, p) in ParentClaims(nodes, aliases) || (c, p) in ChildClaims(nodes, aliases) ||
                PhysicalParent(c) == Some(p)
  {
  }

  /** Placed nodes and no cycle: the assigned parents agree with everything. */
  lemma PlacedAgrees(nodes: seq<LegacyNode>, aliases: AliasMap, pc: map<string, string>, cc: map<string, string>,
                     parents: Parents)
    requires Represents(pc, ParentClaims(nodes, aliases)) && Represents(cc, ChildClaims(nodes, aliases))
    requires forall x | x in ChildClaims(nodes, aliases) :: x.0 in OldPaths(nodes)
    requires parents.Keys == OldPaths(nodes) && forall c :: !OnCycle(parents, c)
    requires forall i | 0 <= i < |nodes| ::
               && Placed(nodes, Candidates(pc, cc, nodes[i].oldPath), ChildClaims(nodes, aliases), nodes[i])
               && Candidates(pc, cc, nodes[i].oldPath) == AsSet(parents[nodes[i].oldPath])
    ensures Agrees(nodes, aliases, parents)
  {
    hide PhysicalParent;
    hide Candidates;
    hide MayOwn;
    hide Represents;
    hide ParentClaims;
    hide ChildClaims;
    var up, down := ParentClaims(nodes, aliases), ChildClaims(nodes, aliases);
    ClaimantsAreNodes(nodes, aliases);
    forall c, p | c in parents && ((c, p) in up || (c, p) in down || PhysicalParent(c) == Some(p))
      ensures parents[c] == Some(p)
    {
      CandidatesAreClaims(nodes, aliases, pc, cc, c, p);
      var i :| 0 <= i < |nodes| && nodes[i].oldPath == c;
      assert p in Candidates(pc, cc, c);
    }
    forall x | x in up ensures parents[x.0] == Some(x.1) { assert x == (x.0, x.1); }
    forall x | x in down ensures parents[x.0] == Some(x.1) { assert x == (x.0, x.1); }
    forall i | 0 <= i < |nodes| && parents[nodes[i].oldPath].Some?
      ensures OwnedProperly(nodes, up, down, nodes[i], parents[nodes[i].oldPath].value)
    {
      var c, p := nodes[i].oldPath, parents[nodes[i].oldPath].value;
      assert p in Candidates(pc, cc, c);
      CandidatesAreClaims(nodes, aliases, pc, cc, c, p);
    }
  }

  /** Conversely, if some map agrees with everything, every node is placed and
      the assigned map is that one. */
  lemma AgreementPlaces(nodes: seq<LegacyNode>, aliases: AliasMap, pc: map<string, string>, cc: map<string, string>,
                        m: Parents, i: nat)
    requires Represents(pc, ParentClaims(nodes, aliases)) && Represents(cc, ChildClaims(nodes, aliases))
    requires Agrees(nodes, aliases, m) && i < |nodes|
    ensures Candidates(pc, cc, nodes[i].oldPath) == AsSet(m[nodes[i].oldPath])
    ensures Placed(nodes, Candidates(pc, cc, nodes[i].oldPath), ChildClaims(nodes, aliases), nodes[i])
  {
    hide PhysicalParent;
    hide Candidates;
    hide Represents;
    hide ParentClaims;
    hide ChildClaims;
    hide MayOwn;
    var c := nodes[i].oldPath;
    assert c in OldPaths(nodes);
    forall p ensures p in Candidates(pc, cc, c) <==> m[c] == Some(p) {
      CandidatesAreClaims(nodes, aliases, pc, cc, c, p);
    }
  }

  /** If some map agrees with everything then no loop refuses anything. */
  lemma AgreementAccepted(nodes: seq<LegacyNode>, aliases: AliasMap, pc: map<string, string>, cc: map<string, string>,
                          parents: Parents, m: Parents)
    requires Agrees(nodes, aliases, m)
    ensures Unrivalled(ChildClaims(nodes, aliases))
    ensures Represents(pc, ParentClaims(nodes, aliases)) && Represents(cc, ChildClaims(nodes, aliases)) ==>
              forall i | 0 <= i < |nodes| ::
                Placed(nodes, Candidates(pc, cc, nodes[i].oldPath), ChildClaims(nodes, aliases), nodes[i])
    ensures Represents(pc, ParentClaims(nodes, aliases)) && Represents(cc, ChildClaims(nodes, aliases)) &&
            parents.Keys == OldPaths(nodes) &&
            (forall i | 0 <= i < |nodes| ::
                Candidates(pc, cc, nodes[i].oldPath) == AsSet(parents[nodes[i].oldPath])) ==>
              parents == m
  {
    hide PhysicalParent;
    hide Candidates;
    hide Placed;
    hide OwnedProperly;
    forall x, y | x in ChildClaims(nodes, aliases) && y in ChildClaims(nodes, aliases) && x.0 == y.0 ensures x == y {
      assert m[x.0] == Some(x.1) && m[y.0] == Some(y.1);
      assert x == (x.0, x.1) && y == (y.0, y.1);
    }
    if Represents(pc, ParentClaims(nodes, aliases)) && Represents(cc, ChildClaims(nodes, aliases)) {
      forall i | 0 <= i < |nodes|
        ensures Placed(nodes, Candidates(pc, cc, nodes[i].oldPath), ChildClaims(nodes, aliases), nodes[i])
        ensures Candidates(pc, cc, nodes[i].oldPath) == AsSet(m[nodes[i].oldPath])
      {
        AgreementPlaces(nodes, aliases, pc, cc, m, i);
      }
      if parents.Keys == OldPaths(nodes) &&
         forall i | 0 <= i < |nodes| :: Candidates(pc, cc, nodes[i].oldPath) == AsSet(parents[nodes[i].oldPath]) {
        forall c | c in parents ensures parents[c] == m[c] {
          var i :| 0 <= i < |nodes| && nodes[i].oldPath == c;
          SameSet(parents[c], m[c]);
        }
      }
    }
  }

  lemma SameSet(a: Option<string>, b: Option<string>)
    requires AsSet(a) == AsSet(b)
    ensures a == b
  {
    if a.Some? { assert a.value in AsSet(b); }
    if b.Some? { assert b.value in AsSet(a); }
  }

  ghost predicate Claimed(nodes: seq<LegacyNode>, aliases: AliasMap, c: string, p: string) {
    (c, p) in ParentClaims(nodes, aliases) || (c, p) in ChildClaims(nodes, aliases) || PhysicalParent(c) == Some(p)
  }

  /** Two claims about the node name different parents. */
  ghost predicate Disputed(nodes: seq<LegacyNode>, aliases: AliasMap, c: string) {
    exists p, q :: Claimed(nodes, aliases, c, p) && Claimed(nodes, aliases, c, q) && p != q
  }

  /** The parent is a node that lists its children, and leaves this one out. */
  ghost predicate Omitted(nodes: seq<LegacyNode>, aliases: AliasMap, c: string, parent: Option<string>) {
    exists h | 0 <= h < |nodes| ::
      parent == Some(nodes[h].oldPath) && nodes[h].childrenDeclared &&
      (c, nodes[h].oldPath) !in ChildClaims(nodes, aliases)
  }

  ghost predicate OwnedWrongly(nodes: seq<LegacyNode>, parent: Option<string>) {
    exists h | 0 <= h < |nodes| :: parent == Some(nodes[h].oldPath) && nodes[h].kind !in {Release, Epic, Feature}
  }

  /** What is wrong with one node and the parent it got. */
  ghost predicate NodeRefused(nodes: seq<LegacyNode>, aliases: AliasMap, node: LegacyNode, parent: Option<string>,
                              kind: RefusalKind)
  {
    match kind
    case AmbiguousNode => NodeFails(node, aliases, AmbiguousNode)
    case MissingNode => NodeFails(node, aliases, MissingNode) || (parent.Some? && parent.value !in OldPaths(nodes))
    case HierarchyDisagreement =>
      Disputed(nodes, aliases, node.oldPath) || Omitted(nodes, aliases, node.oldPath, parent)
    case InvalidParentType => OwnedWrongly(nodes, parent)
    case NestedRelease => node.kind == Release && parent.Some? && parent.value in OldPaths(nodes)
    case _ => false
  }

  /** Everything that is refused, for the parents that were found. */
  ghost predicate Refused(nodes: seq<LegacyNode>, aliases: AliasMap, parents: Parents, r: Refusal) {
    || (r.kind == HierarchyCycle && OnCycle(parents, r.path))
    || SomeRefused(nodes, aliases, parents, r)
  }

  /** The faults of the second loop in terms of the parent it chose. */
  lemma FaultOfParent(nodes: seq<LegacyNode>, candidates: set<string>, down: Claims, node: LegacyNode,
                      parent: Option<string>, kind: RefusalKind)
    requires Chosen(candidates, parent)
    ensures Fault(nodes, candidates, down, node, kind) <==>
              match kind
              case HierarchyDisagreement =>
                |candidates| > 1 ||
                exists h | 0 <= h < |nodes| :: parent == Some(nodes[h].oldPath) && nodes[h].childrenDeclared &&
                                               (node.oldPath, nodes[h].oldPath) !in down
              case MissingNode => parent.Some? && parent.value !in OldPaths(nodes)
              case InvalidParentType => OwnedWrongly(nodes, parent)
              case NestedRelease => node.kind == Release && parent.Some? && parent.value in OldPaths(nodes)
              case _ => false
  {
    if |candidates| <= 1 {
      assert forall p :: candidates == {p} <==> parent == Some(p);
      assert |candidates| == 1 <==> parent.Some?;
    } else {
      assert forall p: string :: |{p}| == 1;
    }
  }

  lemma SeveralCandidates(candidates: set<string>)
    ensures |candidates| > 1 <==> exists p, q :: p in candidates && q in candidates && p != q
  {
    if |candidates| > 1 {
      var p :| p in candidates;
      assert |candidates - {p}| == |candidates| - 1;
      var q :| q in candidates - {p};
    }
    if p, q :| p in candidates && q in candidates && p != q {
      assert {p, q} <= candidates;
      SubsetSize({p, q}, candidates);
    }
  }

  lemma SubsetSize(a: set<string>, b: set<string>)
    requires a <= b
    ensures |a| <= |b|
  {
    assert b == a + (b - a);
  }

  /** Both loops together see every dispute, whichever claim was kept. */
  lemma DisputeSeen(nodes: seq<LegacyNode>, aliases: AliasMap, pc: map<string, string>, cc: map<string, string>,
                    c: string)
    requires Represents(pc, ParentClaims(nodes, aliases)) && HoldsClaims(cc, ChildClaims(nodes, aliases))
    ensures Disputed(nodes, aliases, c) <==>
              |Candidates(pc, cc, c)| > 1 || Rivalled(ChildClaims(nodes, aliases), c)
  {
    hide ParentClaims;
    hide ChildClaims;
    hide PhysicalParent;
    SeveralCandidates(Candidates(pc, cc, c));
    forall p | p in Candidates(pc, cc, c) ensures Claimed(nodes, aliases, c, p) {
    }
    if Rivalled(ChildClaims(nodes, aliases), c) {
      var p, q :| (c, p) in ChildClaims(nodes, aliases) && (c, q) in ChildClaims(nodes, aliases) && p != q;
      assert Claimed(nodes, aliases, c, p) && Claimed(nodes, aliases, c, q);
    } else {
      forall p | Claimed(nodes, aliases, c, p) ensures p in Candidates(pc, cc, c) {
        if (c, p) in ChildClaims(nodes, aliases) {
          assert (c, cc[c]) in ChildClaims(nodes, aliases);
        }
      }
    }
  }

  /** What one node is refused for, over both loops. */
  lemma NodeRefusals(nodes: seq<LegacyNode>, aliases: AliasMap, pc: map<string, string>, cc: map<string, string>,
                     node: LegacyNode, parent: Option<string>, kind: RefusalKind)
    requires Represents(pc, ParentClaims(nodes, aliases)) && HoldsClaims(cc, ChildClaims(nodes, aliases))
    requires Chosen(Candidates(pc, cc, node.oldPath), parent)
    ensures NodeRefused(nodes, aliases, node, parent, kind) <==>
              || NodeFails(node, aliases, kind)
              || (kind == HierarchyDisagreement && Rivalled(ChildClaims(nodes, aliases), node.oldPath))
              || FaultAt(nodes, pc, cc, ChildClaims(nodes, aliases), node, kind)
  {
    FaultOfParent(nodes, Candidates(pc, cc, node.oldPath), ChildClaims(nodes, aliases), node, parent, kind);
    DisputeSeen(nodes, aliases, pc, cc, node.oldPath);
    FailsHow(node, aliases, kind);
    hide NodeFails;
    hide Fault;
    hide Disputed;
    hide Rivalled;
    hide Candidates;
    hide ParentClaims;
    hide ChildClaims;
    hide OwnedWrongly;
  }

  lemma FailsHow(node: LegacyNode, aliases: AliasMap, kind: RefusalKind)
    ensures NodeFails(node, aliases, kind) ==> kind in {MissingNode, AmbiguousNode}
  {
  }

  /** One of the nodes is refused. */
  ghost predicate SomeRefused(nodes: seq<LegacyNode>, aliases: AliasMap, parents: Parents, r: Refusal) {
    exists i | 0 <= i < |nodes| :: nodes[i].oldPath == r.path && r.path in parents &&
                                   NodeRefused(nodes, aliases, nodes[i], parents[r.path], r.kind)
  }

  lemma RefusedSomewhere(nodes: seq<LegacyNode>, aliases: AliasMap, pc: map<string, string>, cc: map<string, string>,
                         parents: Parents, second: seq<Refusal>, r: Refusal)
    requires parents.Keys == OldPaths(nodes)
    requires Represents(pc, ParentClaims(nodes, aliases)) && HoldsClaims(cc, ChildClaims(nodes, aliases))
    requires Settles(nodes, pc, cc, ChildClaims(nodes, aliases), |nodes|, parents, second)
    requires Rivalled(ChildClaims(nodes, aliases), r.path) ==> r.path in parents
    ensures SomeRefused(nodes, aliases, parents, r) <==> FirstRefuses(nodes, aliases, r) || r in second
  {
    var down := ChildClaims(nodes, aliases);
    assert r in second <==> SecondRefuses(nodes, pc, cc, down, |nodes|, r);
    forall i | 0 <= i < |nodes|
      ensures nodes[i].oldPath in parents
      ensures Chosen(Candidates(pc, cc, nodes[i].oldPath), parents[nodes[i].oldPath])
    {
    }
    hide Settles;
    hide Chosen;
    hide Candidates;
    forall i | 0 <= i < |nodes| && nodes[i].oldPath == r.path
      ensures NodeRefused(nodes, aliases, nodes[i], parents[r.path], r.kind) <==>
                || NodeFails(nodes[i], aliases, r.kind)
                || (r.kind == HierarchyDisagreement && Rivalled(down, r.path))
                || FaultAt(nodes, pc, cc, down, nodes[i], r.kind)
    {
      NodeRefusals(nodes, aliases, pc, cc, nodes[i], parents[r.path], r.kind);
    }
    hide NodeRefused;
    hide NodeFails;
    hide FaultAt;
    hide Rivalled;
    hide Represents;
    hide HoldsClaims;
    hide ChildClaims;
    hide ParentClaims;
  }

  /** The refusals of the three loops are exactly those. */
  lemma RefusedIff(nodes: seq<LegacyNode>, aliases: AliasMap, pc: map<string, string>, cc: map<string, string>,
                   parents: Parents, first: seq<Refusal>, second: seq<Refusal>, third: seq<Refusal>, r: Refusal)
    requires forall key :: Holders(aliases, key) <= OldPaths(nodes)
    requires parents.Keys == OldPaths(nodes)
    requires Represents(pc, ParentClaims(nodes, aliases)) && HoldsClaims(cc, ChildClaims(nodes, aliases))
    requires r in first <==> FirstRefuses(nodes, aliases, r)
    requires Settles(nodes, pc, cc, ChildClaims(nodes, aliases), |nodes|, parents, second)
    requires r in third <==> r.kind == HierarchyCycle && OnCycle(parents, r.path)
    ensures r in first + second + third <==> Refused(nodes, aliases, parents, r)
  {
    ChildrenAreNodes(nodes, aliases);
    if Rivalled(ChildClaims(nodes, aliases), r.path) {
      var p :| (r.path, p) in ChildClaims(nodes, aliases);
      assert r.path in OldPaths(nodes);
    }
    RefusedSomewhere(nodes, aliases, pc, cc, parents, second, r);
    hide SomeRefused;
    hide FirstRefuses;
    hide Settles;
    hide OnCycle;
  }

  /** `_hierarchy`: refuses nothing exactly when the claims are coherent, and then
      returns the one parent map that agrees with all of them; and otherwise
      refuses exactly what is wrong with each node. */
  method BuildHierarchy(nodes: seq<LegacyNode>, aliases: AliasMap) returns (parents: Parents, refusals: seq<Refusal>)
    requires DistinctPaths(nodes)
    requires forall key :: Holders(aliases, key) <= OldPaths(nodes)
    ensures refusals == [] <==> Coherent(nodes, aliases)
    ensures refusals == [] ==> Agrees(nodes, aliases, parents)
    ensures parents.Keys == OldPaths(nodes) && forall r :: r in refusals <==> Refused(nodes, aliases, parents, r)
  {
    hide *;
    var pc, cc, lists, first := CollectClaims(nodes, aliases);
    var second;
    parents, second := AssignParents(nodes, pc, cc, lists);
    var cycling := FindCycles(parents, PathList(nodes));
    var third := seq(|cycling|, i requires 0 <= i < |cycling| => Refusal(cycling[i], HierarchyCycle));
    refusals := first + second + third;
    Settled(nodes, aliases, pc, cc, lists, parents, first != [], second != [], cycling);
    CollectedMaps(nodes, aliases, pc, cc, lists, first != []);
    forall r ensures r in refusals <==> Refused(nodes, aliases, parents, r) {
      CycleRefusals(cycling, r);
      RefusedIff(nodes, aliases, pc, cc, parents, first, second, third, r);
    }
  }

  lemma CycleRefusals(cycling: seq<string>, r: Refusal)
    ensures r in seq(|cycling|, i requires 0 <= i < |cycling| => Refusal(cycling[i], HierarchyCycle)) <==>
              r.kind == HierarchyCycle && r.path in cycling
  {
    var third := seq(|cycling|, i requires 0 <= i < |cycling| => Refusal(cycling[i], HierarchyCycle));
    if r.kind == HierarchyCycle && r.path in cycling {
      var i :| 0 <= i < |cycling| && cycling[i] == r.path;
      assert third[i] == r;
    }
  }

  lemma CollectedMaps(nodes: seq<LegacyNode>, aliases: AliasMap, pc: map<string, string>, cc: map<string, string>,
                      lists: map<string, set<string>>, refused: bool)
    requires Collected(nodes, aliases, pc, cc, lists, refused)
    ensures Represents(pc, ParentClaims(nodes, aliases)) && Flatten(lists) == ChildClaims(nodes, aliases)
  {
  }

  /** The three loops together refuse nothing exactly when the claims cohere. */
  lemma Settled(nodes: seq<LegacyNode>, aliases: AliasMap, pc: map<string, string>, cc: map<string, string>,
                lists: map<string, set<string>>, parents: Parents, refused1: bool, refused2: bool, cycling: seq<string>)
    requires forall key :: Holders(aliases, key) <= OldPaths(nodes)
    requires Collected(nodes, aliases, pc, cc, lists, refused1)
    requires parents.Keys == OldPaths(nodes)
    requires !refused2 <==> forall i | 0 <= i < |nodes| ::
               Placed(nodes, Candidates(pc, cc, nodes[i].oldPath), Flatten(lists), nodes[i])
    requires !refused2 ==> forall i | 0 <= i < |nodes| ::
               Candidates(pc, cc, nodes[i].oldPath) == AsSet(parents[nodes[i].oldPath])
    requires cycling == [] <==> forall c :: !OnCycle(parents, c)
    ensures !refused1 && !refused2 && cycling == [] <==> Coherent(nodes, aliases)
    ensures !refused1 && !refused2 && cycling == [] ==> Agrees(nodes, aliases, parents)
  {
    hide PhysicalParent;
    hide Candidates;
    hide Placed;
    hide OwnedProperly;
    ChildrenAreNodes(nodes, aliases);
    if !refused1 && !refused2 && cycling == [] {
      PlacedAgrees(nodes, aliases, pc, cc, parents);
    }
    if Coherent(nodes, aliases) {
      var m :| Agrees(nodes, aliases, m);
      AgreementAccepted(nodes, aliases, pc, cc, parents, m);
    }
  }

  lemma {:induction false} ListedAreHeld(owner: string, raws: seq<string>, aliases: AliasMap, paths: set<string>)
    requires forall key :: Holders(aliases, key) <= paths
    ensures forall x | x in ListClaims(owner, raws, aliases) :: x.0 in paths
  {
    if raws != [] {
      ListedAreHeld(owner, raws[..|raws| - 1], aliases, paths);
      var r := Resolve(raws[|raws| - 1], aliases);
      if r.Found? { assert r.path in Holders(aliases, Normalize(raws[|raws| - 1])); }
    }
  }

  lemma {:induction false} ChildrenAreNodes(nodes: seq<LegacyNode>, aliases: AliasMap)
    requires forall key :: Holders(aliases, key) <= OldPaths(nodes)
    ensures forall x | x in ChildClaims(nodes, aliases) :: x.0 in OldPaths(nodes)
  {
    ChildrenWithin(nodes, aliases, OldPaths(nodes));
  }

  lemma {:induction false} ChildrenWithin(nodes: seq<LegacyNode>, aliases: AliasMap, paths: set<string>)
    requires forall key :: Holders(aliases, key) <= paths
    ensures forall x | x in ChildClaims(nodes, aliases) :: x.0 in paths
  {
    if nodes != [] {
      var last := nodes[|nodes| - 1];
      ChildrenWithin(nodes[..|nodes| - 1], aliases, paths);
      ListedAreHeld(last.oldPath, last.childrenRaw, aliases, paths);
    }
  }
}
