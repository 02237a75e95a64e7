/** The placeholder sweep of code_graph_io/resolve.py: every edge into a row
    without a path is repointed to its tier's candidates or flagged unresolved,
    and placeholders nothing points at any more are deleted. */
module Sweep {
  import opened Paths
  import opened Tables
  import opened Upsert

  const CODE_KINDS := {"function", "method", "class", "type"}

  predicate IsPlaceholder(t: Tables, e: EdgeKey) {
    e.dst in t.nodes && t.nodes[e.dst].path == None
  }

  function AttrsOf(attrs: Attrs): AttrMap {
    if attrs.Some? then attrs.value else map[]
  }

  /** `_set_resolution`. */
  function SetResolution(attrs: Attrs, resolution: string): Attrs {
    Some(AttrsOf(attrs)["resolution" := Text(resolution)])
  }

  /** The kind a placeholder edge is looked up under. */
  function SymbolKind(node: Row, attrs: Attrs): string {
    var m := AttrsOf(attrs);
    if node.kind == UNRESOLVED_SYMBOL && "symbol_kind" in m && m["symbol_kind"].Text? then m["symbol_kind"].text
    else node.kind
  }

  /** The trailing bare segment of a dotted name. */
  function Leaf(name: string): string {
    var parts := Split(name, '.'); parts[|parts| - 1]
  }

  predicate EndsWith(s: string, suffix: string) {
    |suffix| <= |s| && s[|s| - |suffix|..] == suffix
  }

  function Exact(nodes: map<nat, Row>, kind: string, name: string): set<nat> {
    set i | i in nodes && nodes[i].kind == kind && nodes[i].name == name && nodes[i].path.Some?
  }

  function CrossKind(nodes: map<nat, Row>, name: string): set<nat> {
    set i | i in nodes && nodes[i].kind in CODE_KINDS && nodes[i].name == name && nodes[i].path.Some?
  }

  function Suffixed(nodes: map<nat, Row>, leaf: string): set<nat> {
    set i | i in nodes && nodes[i].kind in CODE_KINDS && EndsWith(nodes[i].name, "." + leaf) && nodes[i].path.Some?
  }

  /** The three tiers: same kind and name; else, for code symbols, the unique
      exact name of any code kind; else, when no name matches exactly, every
      qualified name with that leaf. */
  function Tier(nodes: map<nat, Row>, kind: string, name: string): (matches: set<nat>)
    ensures forall i | i in matches :: i in nodes && nodes[i].path.Some?
  {
    var exact := Exact(nodes, kind, name);
    if exact != {} || kind !in CODE_KINDS then exact
    else
      var cross := CrossKind(nodes, name);
      if |cross| == 1 then cross else if cross == {} then Suffixed(nodes, Leaf(name)) else {}
  }

  predicate IsCode(nodes: map<nat, Row>, i: nat) {
    i in nodes && nodes[i].kind in {"function", "method", "class", "type"} && nodes[i].path.Some?
  }

  /** What a candidate is: a row of the same kind and name; if there is none, the
      only code row of that name; and if no code row has the name, every code row
      whose last part is the leaf.  Names that several code rows of other kinds
      share have no candidate. */
  ghost predicate IsCandidate(nodes: map<nat, Row>, kind: string, name: string, i: nat) {
    && i in nodes && nodes[i].path.Some?
    && if exists j | j in nodes :: nodes[j].kind == kind && nodes[j].name == name && nodes[j].path.Some? then
         nodes[i].kind == kind && nodes[i].name == name
       else
         && kind in {"function", "method", "class", "type"} && IsCode(nodes, i)
         && if exists j | j in nodes :: IsCode(nodes, j) && nodes[j].name == name then
              nodes[i].name == name && forall j | j in nodes && IsCode(nodes, j) && nodes[j].name == name :: j == i
            else SharesLeaf(nodes[i].name, name)
  }

  /** A dotted name that ends in the last dotted part of another. */
  ghost predicate SharesLeaf(dotted: string, name: string) {
    exists leaf :: IsLeaf(leaf, name) && exists owner :: dotted == owner + "." + leaf
  }

  ghost predicate IsLeaf(leaf: string, name: string) {
    '.' !in leaf && (name == leaf || exists front :: name == front + "." + leaf)
  }

  lemma LeafIsLast(leaf: string, name: string)
    ensures IsLeaf(leaf, name) <==> leaf == Leaf(name)
  {
    LastIsLeaf(name);
    if IsLeaf(leaf, name) { LeafIsPart(leaf, name); }
  }

  lemma LeafIsPart(leaf: string, name: string)
    requires IsLeaf(leaf, name)
    ensures leaf == Leaf(name)
  {
    SplitOne(leaf, '.');
    if name != leaf {
      var front :| name == front + "." + leaf;
      SplitAround(front, leaf, '.');
      assert name == front + ['.'] + leaf;
    }
  }

  lemma LastIsLeaf(name: string)
    ensures IsLeaf(Leaf(name), name)
  {
    var parts, leaf := Split(name, '.'), Leaf(name);
    SplitOne(name, '.');
    if |parts| > 1 {
      var k := CutAt(name, |parts| - 1, '.');
      SplitOne(name[k + 1..], '.');
      assert parts[|parts| - 1..] == [leaf];
      assert name == name[..k] + "." + leaf;
    }
  }

  lemma SuffixedIff(dotted: string, name: string)
    ensures EndsWith(dotted, "." + Leaf(name)) <==> SharesLeaf(dotted, name)
  {
    var tail := "." + Leaf(name);
    LeafIsLast(Leaf(name), name);
    if EndsWith(dotted, tail) {
      assert dotted == dotted[..|dotted| - |tail|] + tail == dotted[..|dotted| - |tail|] + "." + Leaf(name);
    }
    if leaf, owner :| IsLeaf(leaf, name) && dotted == owner + "." + leaf {
      LeafIsLast(leaf, name);
      assert dotted == owner + tail;
    }
  }

  lemma InExact(nodes: map<nat, Row>, kind: string, name: string)
    ensures forall j :: j in Exact(nodes, kind, name) <==>
              j in nodes && nodes[j].kind == kind && nodes[j].name == name && nodes[j].path.Some?
  {
  }

  lemma InCross(nodes: map<nat, Row>, name: string)
    ensures forall j :: j in CrossKind(nodes, name) <==> IsCode(nodes, j) && nodes[j].name == name
  {
  }

  lemma InSuffixed(nodes: map<nat, Row>, name: string)
    ensures forall j :: j in Suffixed(nodes, Leaf(name)) <==> IsCode(nodes, j) && SharesLeaf(nodes[j].name, name)
  {
    hide SharesLeaf;
    hide Leaf;
    forall j | j in nodes { SuffixedIff(nodes[j].name, name); }
  }

  lemma OnlyMember<T>(s: set<T>, x: T)
    requires x in s
    ensures |s| == 1 <==> forall y | y in s :: y == x
  {
    if |s| == 1 { assert |s - {x}| == 0; }
    if forall y | y in s :: y == x { assert s == {x}; }
  }

  /** The tiers find exactly the candidates. */
  lemma TierMeaning(nodes: map<nat, Row>, kind: string, name: string, i: nat)
    ensures i in Tier(nodes, kind, name) <==> IsCandidate(nodes, kind, name, i)
  {
    InExact(nodes, kind, name);
    InCross(nodes, name);
    InSuffixed(nodes, name);
    if i in CrossKind(nodes, name) { OnlyMember(CrossKind(nodes, name), i); }
    hide Exact;
    hide CrossKind;
    hide Suffixed;
    hide SharesLeaf;
  }

  /** The candidates of one placeholder edge. */
  function Targets(t: Tables, e: EdgeKey): (matches: set<nat>)
    requires e in t.edges && IsPlaceholder(t, e)
    ensures forall i | i in matches :: i in t.nodes && t.nodes[i].path.Some?
  {
    Tier(t.nodes, SymbolKind(t.nodes[e.dst], t.edges[e]), t.nodes[e.dst].name)
  }

  function Resolution(matches: set<nat>): string {
    if |matches| == 1 then "exact" else "ambiguous"
  }

  /** Edge `e` of the original tables is replaced by, among others, edge `k`. */
  predicate Replaces(t: Tables, e: EdgeKey, k: EdgeKey) {
    && e in t.edges && IsPlaceholder(t, e)
    && k.src == e.src && k.kind == e.kind && k.dst in Targets(t, e)
  }

  /** A placeholder edge that no tier resolves. */
  predicate Unresolved(t: Tables, e: EdgeKey) {
    e in t.edges && IsPlaceholder(t, e) && Targets(t, e) == {}
  }

  /** What repointing the edges of `done` must have produced from `t`. */
  ghost predicate Repointed(t: Tables, edges: map<EdgeKey, Attrs>, done: set<EdgeKey>) {
    forall k :: RepointedAt(t, edges, done, k)
  }

  ghost predicate RepointedAt(t: Tables, edges: map<EdgeKey, Attrs>, done: set<EdgeKey>, k: EdgeKey) {
    if IsPlaceholder(t, k) then
      && (k in edges <==> k in t.edges && (k in done ==> Unresolved(t, k)))
      && (k in edges ==> edges[k] == if k in done then SetResolution(t.edges[k], "unresolved") else t.edges[k])
    else if exists e :: e in done && Replaces(t, e, k) then
      k in edges && exists e :: e in done && Replaces(t, e, k) &&
                                edges[k] == SetResolution(t.edges[e], Resolution(Targets(t, e)))
    else
      (k in edges <==> k in t.edges) && (k in edges ==> edges[k] == t.edges[k])
  }

  /** Rows the closing DELETE removes. */
  predicate Orphan(t: Tables, i: nat) {
    && i in t.nodes && Deletable(t.nodes[i])
    && forall e | e in t.edges :: e.dst != i
  }

  predicate Deletable(row: Row) {
    row.path == None && row.uri == None && row.kind != "package"
  }

  /** The closing DELETE, with its cascade. */
  function Pruned(t: Tables): Tables {
    Tables(map i | i in t.nodes && !Orphan(t, i) :: t.nodes[i],
           map e | e in t.edges && !Orphan(t, e.src) && !Orphan(t, e.dst) :: t.edges[e])
  }

  ghost predicate Swept(before: Tables, mid: Tables, after: Tables) {
    && mid.nodes == before.nodes && Repointed(before, mid.edges, before.edges.Keys)
    && after == Pruned(mid)
  }

  // ----- The sweep ------------------------------------------------------------------------

  function FanOut(e: EdgeKey, matches: set<nat>, attrs: Attrs): map<EdgeKey, Attrs> {
    var keys := set m | m in matches :: EdgeKey(e.src, m, e.kind);
    map k | k in keys :: attrs
  }

  /** The inner loop: replace one edge by an edge to every match. */
  method Repoint(db: GraphDb, e: EdgeKey, matches: set<nat>, attrs: Attrs)
    modifies db`edges
    ensures db.edges == (old(db.edges) - {e}) + FanOut(e, matches, SetResolution(attrs, Resolution(matches)))
  {
    db.edges := db.edges - {e};
    var rest := matches;
    while rest != {}
      invariant rest <= matches
      invariant db.edges == (old(db.edges) - {e}) + FanOut(e, matches - rest, SetResolution(attrs, Resolution(matches)))
    {
      var m :| m in rest;
      ghost var before := matches - rest;
      rest := rest - {m};
      assert matches - rest == before + {m};
      db.edges := db.edges[EdgeKey(e.src, m, e.kind) := SetResolution(attrs, Resolution(matches))];
    }
    assert matches - rest == matches;
  }

  lemma KeepStep(t: Tables, edges: map<EdgeKey, Attrs>, done: set<EdgeKey>, e: EdgeKey)
    requires Repointed(t, edges, done) && Unresolved(t, e) && e !in done
    ensures e in edges && Repointed(t, edges[e := SetResolution(t.edges[e], "unresolved")], done + {e})
  {
    assert RepointedAt(t, edges, done, e);
    var after := edges[e := SetResolution(t.edges[e], "unresolved")];
    forall k ensures RepointedAt(t, after, done + {e}, k) {
      assert RepointedAt(t, edges, done, k);
      assert !Replaces(t, e, k);
    }
  }

  lemma RepointStep(t: Tables, edges: map<EdgeKey, Attrs>, done: set<EdgeKey>, e: EdgeKey)
    requires Repointed(t, edges, done) && e in t.edges && IsPlaceholder(t, e) && Targets(t, e) != {} && e !in done
    ensures var attrs := SetResolution(t.edges[e], Resolution(Targets(t, e)));
            Repointed(t, (edges - {e}) + FanOut(e, Targets(t, e), attrs), done + {e})
  {
    var attrs := SetResolution(t.edges[e], Resolution(Targets(t, e)));
    var after := (edges - {e}) + FanOut(e, Targets(t, e), attrs);
    forall k ensures RepointedAt(t, after, done + {e}, k) {
      assert RepointedAt(t, edges, done, k);
      if Replaces(t, e, k) { assert after[k] == attrs && e in done + {e}; }
      if x :| x in done && Replaces(t, x, k) { assert x in done + {e}; }
    }
  }

  /** `sweep`, over the placeholder edges in whatever order they were fetched. */
  method SweepPlaceholders(db: GraphDb, fetched: seq<EdgeKey>) returns (ghost mid: Tables)
    requires db.State().Sound()
    requires forall i, j | 0 <= i < j < |fetched| :: fetched[i] != fetched[j]
    requires forall e :: e in fetched <==> e in db.edges && IsPlaceholder(db.State(), e)
    modifies db`nodes, db`edges
    ensures Swept(old(db.State()), mid, db.State())
  {
    ghost var t := db.State();
    var attrsJson := db.edges;
    assert Repointed(t, db.edges, {}) by {
      forall k ensures RepointedAt(t, db.edges, {}, k) {}
    }
    for i := 0 to |fetched|
      invariant db.nodes == t.nodes
      invariant Repointed(t, db.edges, set j | 0 <= j < i :: fetched[j])
    {
      var e := fetched[i];
      ghost var done := set j | 0 <= j < i :: fetched[j];
      assert (set j | 0 <= j < i + 1 :: fetched[j]) == done + {e};
      assert e in fetched;
      var node := db.nodes[e.dst];
      var symbolKind := SymbolKind(node, attrsJson[e]);
      var matches := Exact(db.nodes, symbolKind, node.name);
      if matches == {} && symbolKind in CODE_KINDS {
        var cross := CrossKind(db.nodes, node.name);
        if |cross| == 1 {
          matches := cross;
        } else if cross == {} {
          matches := Suffixed(db.nodes, Leaf(node.name));
        }
      }
      assert matches == Targets(t, e);
      hide Tier;
      hide RepointedAt;
      hide Repointed;
      if matches == {} {
        KeepStep(t, db.edges, done, e);
        db.edges := db.edges[e := SetResolution(attrsJson[e], "unresolved")];
      } else {
        RepointStep(t, db.edges, done, e);
        Repoint(db, e, matches, attrsJson[e]);
      }
    }
    mid := db.State();
    assert Repointed(t, mid.edges, t.edges.Keys) by {
      var done := set j | 0 <= j < |fetched| :: fetched[j];
      forall k ensures RepointedAt(t, mid.edges, t.edges.Keys, k) {
        assert RepointedAt(t, mid.edges, done, k);
        assert forall e :: e in done <==> e in t.edges && IsPlaceholder(t, e) by {
          assert forall e :: e in done <==> e in fetched;
        }
      }
    }
    var pruned := Pruned(Tables(db.nodes, db.edges));
    db.nodes, db.edges := pruned.nodes, pruned.edges;
  }

  // ----- References are conserved ----------------------------------------------------------

  /** Pathless rows with no outgoing edge. */
  predicate PlaceholdersAreSinks(t: Tables) {
    forall e | e in t.edges :: e.src in t.nodes && t.nodes[e.src].path.Some?
  }

  ghost predicate Replaced(t: Tables, k: EdgeKey) {
    exists e :: Replaces(t, e, k)
  }

  /** The attributes are those of some edge that `k` replaces, flagged exact if it
      had one candidate and ambiguous if it had more. */
  ghost predicate FlaggedFrom(t: Tables, k: EdgeKey, attrs: Attrs) {
    exists e :: Replaces(t, e, k) && attrs == SetResolution(t.edges[e], Resolution(Targets(t, e)))
  }

  /** Every edge into a pathless row is kept and flagged, or replaced by edges to
      exactly its tier's candidates, with its attributes flagged; no other edge
      comes, goes or changes; and the only rows lost are unreferenced deletable placeholders. */
  lemma SweepConserves(t: Tables, mid: Tables, after: Tables)
    requires t.Sound() && Swept(t, mid, after) && PlaceholdersAreSinks(t)
    ensures forall e | e in t.edges && Unresolved(t, e) ::
              e in after.edges && after.edges[e] == SetResolution(t.edges[e], "unresolved")
    ensures forall e, m | e in t.edges && IsPlaceholder(t, e) && m in Targets(t, e) ::
              EdgeKey(e.src, m, e.kind) in after.edges
    ensures forall e | e in t.edges && IsPlaceholder(t, e) && !Unresolved(t, e) :: e !in after.edges
    ensures forall e | e in t.edges && !IsPlaceholder(t, e) :: e in after.edges
    ensures forall k | k in after.edges && k !in t.edges :: Replaced(t, k)
    ensures forall k | k in after.edges && Replaced(t, k) :: FlaggedFrom(t, k, after.edges[k])
    ensures forall k | k in t.edges && !IsPlaceholder(t, k) && !Replaced(t, k) :: after.edges[k] == t.edges[k]
    ensures forall i | i in t.nodes && i !in after.nodes ::
              Deletable(t.nodes[i]) && forall e | e in t.edges && e.dst == i :: !Unresolved(t, e)
  {
    assert forall k :: RepointedAt(t, mid.edges, t.edges.Keys, k);
    forall k | k in mid.edges
      ensures k in after.edges && (k !in t.edges ==> Replaced(t, k))
      ensures Replaced(t, k) ==> FlaggedFrom(t, k, mid.edges[k])
      ensures !IsPlaceholder(t, k) && !Replaced(t, k) ==> k in t.edges && mid.edges[k] == t.edges[k]
    {
      assert RepointedAt(t, mid.edges, t.edges.Keys, k);
      if k in t.edges { assert !Orphan(mid, k.src); }
    }
    forall e, m | e in t.edges && IsPlaceholder(t, e) && m in Targets(t, e)
      ensures EdgeKey(e.src, m, e.kind) in after.edges
    {
      var k := EdgeKey(e.src, m, e.kind);
      assert RepointedAt(t, mid.edges, t.edges.Keys, k) && Replaces(t, e, k);
    }
    forall e | e in t.edges
      ensures IsPlaceholder(t, e) ==> (e in mid.edges <==> Unresolved(t, e))
      ensures !IsPlaceholder(t, e) ==> e in mid.edges
      ensures Unresolved(t, e) ==> mid.edges[e] == SetResolution(t.edges[e], "unresolved")
    {
      assert RepointedAt(t, mid.edges, t.edges.Keys, e);
    }
  }

  // ----- What the sweep does to one edge, in terms of rows and attributes ----------------------

  /** An edge into an `unresolved_symbol` row is looked up under the kind that it
      carries as text, and every other edge under the row's own kind. */
  predicate SoughtAs(row: Row, attrs: Attrs, kind: string) {
    if row.kind == "unresolved_symbol" && attrs.Some? && "symbol_kind" in attrs.value &&
       attrs.value["symbol_kind"].Text?
    then attrs.value["symbol_kind"] == Text(kind)
    else row.kind == kind
  }

  /** The row is a candidate for the end of the edge. */
  ghost predicate IsAnswer(t: Tables, e: EdgeKey, i: nat) {
    && e in t.edges && e.dst in t.nodes && t.nodes[e.dst].path == None
    && exists kind :: SoughtAs(t.nodes[e.dst], t.edges[e], kind) && IsCandidate(t.nodes, kind, t.nodes[e.dst].name, i)
  }

  /** The attributes with the resolution set, all others as they were. */
  predicate Flagged(before: Attrs, after: Attrs, resolution: string) {
    && after.Some? && "resolution" in after.value && after.value["resolution"] == Text(resolution)
    && (before == None ==> after.value.Keys == {"resolution"})
    && (before.Some? ==> after.value.Keys == before.value.Keys + {"resolution"})
    && (before.Some? ==> forall n | n in before.value && n != "resolution" :: after.value[n] == before.value[n])
  }

  lemma TargetsAreAnswers(t: Tables, e: EdgeKey, i: nat)
    requires e in t.edges && IsPlaceholder(t, e)
    ensures i in Targets(t, e) <==> IsAnswer(t, e, i)
  {
    var row, kind := t.nodes[e.dst], SymbolKind(t.nodes[e.dst], t.edges[e]);
    TierMeaning(t.nodes, kind, row.name, i);
    assert SoughtAs(row, t.edges[e], kind);
    assert forall k | SoughtAs(row, t.edges[e], k) :: k == kind;
    hide IsCandidate;
    hide Tier;
  }

  lemma SetIsFlagged(before: Attrs, resolution: string)
    ensures Flagged(before, SetResolution(before, resolution), resolution)
  {
  }

  /** The flag of a replacing edge: "exact" if it is the one candidate, and
      "ambiguous" if there is another. */
  ghost predicate AnswersFor(t: Tables, e: EdgeKey, k: EdgeKey, attrs: Attrs) {
    && e.src == k.src && e.kind == k.kind && IsAnswer(t, e, k.dst)
    && ((forall j :: IsAnswer(t, e, j) ==> j == k.dst) ==> Flagged(t.edges[e], attrs, "exact"))
    && ((exists j :: IsAnswer(t, e, j) && j != k.dst) ==> Flagged(t.edges[e], attrs, "ambiguous"))
  }

  lemma OneOrMore(t: Tables, e: EdgeKey, i: nat)
    requires e in t.edges && IsPlaceholder(t, e) && i in Targets(t, e)
    ensures (forall j :: IsAnswer(t, e, j) ==> j == i) <==> Resolution(Targets(t, e)) == "exact"
    ensures Resolution(Targets(t, e)) in {"exact", "ambiguous"}
  {
    var all := Targets(t, e);
    forall j { TargetsAreAnswers(t, e, j); }
    hide IsAnswer;
    hide Targets;
    if |all| == 1 {
      assert |all - {i}| == 0;
      assert all == {i};
    } else if all == {i} {
      assert false;
    } else {
      var j :| j in all && j != i;
      assert IsAnswer(t, e, j);
    }
  }

  /** The sweep, edge by edge.  An edge into a row without a path stays, flagged
      unresolved, if nothing answers it; otherwise it gives way to an edge to every
      answer.  An edge that nothing gives way to is there afterwards only if it was
      there before, with the same attributes. */
  lemma SweepMeaning(t: Tables, mid: Tables, after: Tables, e: EdgeKey)
    requires t.Sound() && Swept(t, mid, after) && PlaceholdersAreSinks(t)
    ensures e in t.edges && t.nodes[e.dst].path == None && (forall i :: !IsAnswer(t, e, i)) ==>
              e in after.edges && Flagged(t.edges[e], after.edges[e], "unresolved")
    ensures forall i | IsAnswer(t, e, i) :: e !in after.edges && EdgeKey(e.src, i, e.kind) in after.edges
    ensures e in after.edges && e.dst in t.nodes && t.nodes[e.dst].path.Some? ==>
              if exists x: EdgeKey :: x.src == e.src && x.kind == e.kind && IsAnswer(t, x, e.dst)
              then exists x :: AnswersFor(t, x, e, after.edges[e])
              else e in t.edges && after.edges[e] == t.edges[e]
    ensures e in t.edges && t.nodes[e.dst].path.Some? ==> e in after.edges
    ensures e in after.edges ==> e.dst in t.nodes
  {
    hide *;
    if forall i :: !IsAnswer(t, e, i) { UnansweredStay(t, mid, after, e); }
    forall i | IsAnswer(t, e, i) { AnsweredGo(t, mid, after, e, i); }
    if x: EdgeKey :| x.src == e.src && x.kind == e.kind && IsAnswer(t, x, e.dst) {
      AnswersAreFlagged(t, mid, after, x, e);
    } else {
      OthersAreKept(t, mid, after, e);
    }
    SweptHasEnds(t, mid, after, e);
  }

  lemma UnansweredStay(t: Tables, mid: Tables, after: Tables, e: EdgeKey)
    requires t.Sound() && Swept(t, mid, after) && PlaceholdersAreSinks(t) && forall i :: !IsAnswer(t, e, i)
    ensures e in t.edges && t.nodes[e.dst].path == None ==>
              e in after.edges && Flagged(t.edges[e], after.edges[e], "unresolved")
  {
    if e in t.edges && t.nodes[e.dst].path == None {
      forall i { TargetsAreAnswers(t, e, i); }
      assert RepointedAt(t, mid.edges, t.edges.Keys, e);
      hide IsAnswer;
      hide Targets;
      SetIsFlagged(t.edges[e], "unresolved");
    }
  }

  lemma AnsweredGo(t: Tables, mid: Tables, after: Tables, e: EdgeKey, i: nat)
    requires t.Sound() && Swept(t, mid, after) && PlaceholdersAreSinks(t) && IsAnswer(t, e, i)
    ensures e !in after.edges && EdgeKey(e.src, i, e.kind) in after.edges
  {
    TargetsAreAnswers(t, e, i);
    var k := EdgeKey(e.src, i, e.kind);
    assert Replaces(t, e, k);
    assert RepointedAt(t, mid.edges, t.edges.Keys, e) && RepointedAt(t, mid.edges, t.edges.Keys, k);
    hide IsAnswer;
    hide Targets;
  }

  lemma ReplacesIffAnswers(t: Tables, x: EdgeKey, e: EdgeKey)
    ensures Replaces(t, x, e) <==> x.src == e.src && x.kind == e.kind && IsAnswer(t, x, e.dst)
  {
    if x in t.edges && IsPlaceholder(t, x) { TargetsAreAnswers(t, x, e.dst); }
    hide Targets;
  }

  lemma AnswersAreFlagged(t: Tables, mid: Tables, after: Tables, x: EdgeKey, e: EdgeKey)
    requires t.Sound() && Swept(t, mid, after) && PlaceholdersAreSinks(t)
    requires x.src == e.src && x.kind == e.kind && IsAnswer(t, x, e.dst)
    ensures e in after.edges && exists y :: AnswersFor(t, y, e, after.edges[e])
    ensures e in t.edges ==> t.nodes[e.dst].path.Some?
  {
    ReplacesIffAnswers(t, x, e);
    TargetsAreAnswers(t, x, e.dst);
    assert RepointedAt(t, mid.edges, t.edges.Keys, e);
    hide IsAnswer;
    hide Targets;
    var y :| y in t.edges && Replaces(t, y, e) &&
             mid.edges[e] == SetResolution(t.edges[y], Resolution(Targets(t, y)));
    OneOrMore(t, y, e.dst);
    ReplacesIffAnswers(t, y, e);
    SetIsFlagged(t.edges[y], Resolution(Targets(t, y)));
    hide Flagged;
    assert AnswersFor(t, y, e, mid.edges[e]);
  }

  lemma OthersAreKept(t: Tables, mid: Tables, after: Tables, e: EdgeKey)
    requires t.Sound() && Swept(t, mid, after) && PlaceholdersAreSinks(t)
    requires forall x: EdgeKey :: !(x.src == e.src && x.kind == e.kind && IsAnswer(t, x, e.dst))
    ensures e in after.edges && e.dst in t.nodes && t.nodes[e.dst].path.Some? ==>
              e in t.edges && after.edges[e] == t.edges[e]
    ensures e in t.edges && t.nodes[e.dst].path.Some? ==> e in after.edges
  {
    forall x ensures !Replaces(t, x, e) { ReplacesIffAnswers(t, x, e); }
    assert RepointedAt(t, mid.edges, t.edges.Keys, e);
    hide IsAnswer;
    hide Targets;
    hide Replaces;
  }

  lemma SweptHasEnds(t: Tables, mid: Tables, after: Tables, e: EdgeKey)
    requires t.Sound() && Swept(t, mid, after)
    ensures e in after.edges ==> e.dst in t.nodes
  {
    assert RepointedAt(t, mid.edges, t.edges.Keys, e);
  }

  ghost predicate Answered(t: Tables, e: EdgeKey) {
    exists i :: IsAnswer(t, e, i)
  }

  /** The sweep, row by row: lost are exactly the rows without a path or a URI, no
      package among them, into which every edge is answered. */
  lemma RowsSwept(t: Tables, mid: Tables, after: Tables, i: nat)
    requires t.Sound() && Swept(t, mid, after)
    ensures i in after.nodes <==>
              && i in t.nodes
              && (t.nodes[i].path == None && t.nodes[i].uri == None ==>
                    t.nodes[i].kind == "package" || exists e | e in t.edges && e.dst == i :: !Answered(t, e))
    ensures i in after.nodes ==> after.nodes[i] == t.nodes[i]
  {
    OrphansAreDoomed(t, mid, i);
    forall e | e in t.edges && e.dst == i && t.nodes[i].path == None ensures Unresolved(t, e) <==> !Answered(t, e) {
      assert IsPlaceholder(t, e);
      UnresolvedMeaning(t, e);
    }
    hide Answered;
  }

  lemma UnresolvedMeaning(t: Tables, e: EdgeKey)
    requires e in t.edges && IsPlaceholder(t, e)
    ensures Unresolved(t, e) <==> !Answered(t, e)
  {
    forall i ensures i in Targets(t, e) <==> IsAnswer(t, e, i) {
      TargetsAreAnswers(t, e, i);
    }
    hide Targets;
    hide IsAnswer;
  }

  // ----- When a second sweep changes nothing -------------------------------------------------

  /** A deletable placeholder no unresolved edge points at: the sweep removes it. */
  ghost predicate Doomed(t: Tables, p: nat) {
    p in t.nodes && Deletable(t.nodes[p]) && forall e | Unresolved(t, e) :: e.dst != p
  }

  /** A deletable placeholder whose every unresolved reference comes from rows
      the sweep itself removes. */
  ghost predicate Stranded(t: Tables, p: nat) {
    && p in t.nodes && Deletable(t.nodes[p])
    && (exists e :: Unresolved(t, e) && e.dst == p)
    && (forall e | Unresolved(t, e) && e.dst == p :: Doomed(t, e.src))
  }

  lemma OrphansAreDoomed(t: Tables, mid: Tables, p: nat)
    requires mid.nodes == t.nodes && Repointed(t, mid.edges, t.edges.Keys)
    ensures Orphan(mid, p) <==> Doomed(t, p)
  {
    if p in t.nodes && Deletable(t.nodes[p]) {
      forall e: EdgeKey | e.dst == p ensures e in mid.edges <==> Unresolved(t, e) {
        assert RepointedAt(t, mid.edges, t.edges.Keys, e);
      }
    }
  }

  lemma TierSurvives(t: Tables, mid: Tables, after: Tables, kind: string, name: string)
    requires Swept(t, mid, after)
    ensures Tier(after.nodes, kind, name) == Tier(t.nodes, kind, name)
  {
    assert Exact(after.nodes, kind, name) == Exact(t.nodes, kind, name);
    assert CrossKind(after.nodes, name) == CrossKind(t.nodes, name);
    assert Suffixed(after.nodes, Leaf(name)) == Suffixed(t.nodes, Leaf(name));
  }

  /** Whatever placeholder edge survives a sweep is one it could not resolve, and
      still cannot. */
  lemma SurvivorsStayUnresolved(t: Tables, mid: Tables, after: Tables, e: EdgeKey)
    requires t.Sound() && Swept(t, mid, after) && e in after.edges && IsPlaceholder(after, e)
    ensures Unresolved(t, e) && Unresolved(after, e)
    ensures after.edges[e] == SetResolution(after.edges[e], "unresolved")
  {
    assert RepointedAt(t, mid.edges, t.edges.Keys, e);
    var a, b := AttrsOf(t.edges[e]), AttrsOf(after.edges[e]);
    assert SymbolKind(after.nodes[e.dst], after.edges[e]) == SymbolKind(t.nodes[e.dst], t.edges[e]);
    TierSurvives(t, mid, after, SymbolKind(t.nodes[e.dst], t.edges[e]), t.nodes[e.dst].name);
    assert b["resolution" := Text("unresolved")] == b;
  }

  /** A second pass over the edges changes none of them. */
  lemma SecondPassKeepsEdges(t: Tables, mid: Tables, after: Tables, mid2: Tables)
    requires t.Sound() && Swept(t, mid, after)
    requires mid2.nodes == after.nodes && Repointed(after, mid2.edges, after.edges.Keys)
    ensures mid2.edges == after.edges
  {
    forall k ensures k in mid2.edges <==> k in after.edges
             ensures k in after.edges ==> mid2.edges[k] == after.edges[k]
    {
      assert RepointedAt(after, mid2.edges, after.edges.Keys, k);
      if IsPlaceholder(after, k) {
        if k in after.edges { SurvivorsStayUnresolved(t, mid, after, k); }
      } else if e :| e in after.edges && Replaces(after, e, k) {
        SurvivorsStayUnresolved(t, mid, after, e);
        assert false;
      }
    }
  }

  /** A sweep repeated right away changes nothing exactly when the first one
      stranded no placeholder. */
  lemma SweepTwice(t: Tables, mid: Tables, after: Tables, mid2: Tables, again: Tables)
    requires t.Sound() && Swept(t, mid, after) && Swept(after, mid2, again)
    ensures again == after <==> forall p :: !Stranded(t, p)
  {
    SecondPassKeepsEdges(t, mid, after, mid2);
    assert mid2 == after;
    forall p ensures Orphan(after, p) <==> Stranded(t, p) {
      OrphanAfterIsStranded(t, mid, after, p);
    }
    if p :| Stranded(t, p) {
      assert Orphan(after, p) && p in after.nodes && p !in again.nodes;
    } else {
      assert again.nodes == after.nodes;
      assert again.edges == after.edges;
    }
  }

  lemma OrphanAfterIsStranded(t: Tables, mid: Tables, after: Tables, p: nat)
    requires t.Sound() && Swept(t, mid, after)
    ensures Orphan(after, p) <==> Stranded(t, p)
  {
    OrphansAreDoomed(t, mid, p);
    if p in after.nodes && Deletable(after.nodes[p]) {
      forall e: EdgeKey | e.dst == p ensures e in after.edges <==> Unresolved(t, e) && !Doomed(t, e.src) {
        assert RepointedAt(t, mid.edges, t.edges.Keys, e);
        OrphansAreDoomed(t, mid, e.src);
      }
    }
  }

  /** In particular, when placeholders have no outgoing edges. */
  lemma SinksAreNotStranded(t: Tables)
    requires PlaceholdersAreSinks(t)
    ensures forall p :: !Stranded(t, p)
  {
  }

  /** A chain of two placeholders strands its second one. */
  lemma StrandedExample()
    ensures var ghostly := Row(UNRESOLVED_SYMBOL, "f", None, None, None, None, None);
            Stranded(Tables(map[1 := ghostly, 2 := ghostly], map[EdgeKey(1, 2, "calls") := None]), 2)
  {
    var ghostly := Row(UNRESOLVED_SYMBOL, "f", None, None, None, None, None);
    var t := Tables(map[1 := ghostly, 2 := ghostly], map[EdgeKey(1, 2, "calls") := None]);
    var e := EdgeKey(1, 2, "calls");
    assert e in t.edges && IsPlaceholder(t, e);
    assert Targets(t, e) == {};
    assert Unresolved(t, e);
    assert Doomed(t, 1);
  }
}
