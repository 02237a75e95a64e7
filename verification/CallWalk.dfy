/** The bounded recursive walks of code_graph_io/queries.py: `callers` and
    `callees`. */
module CallWalk {
  import opened Paths
  import opened Tables
  import opened Sweep

  /** `callers` walks call edges against their direction, `callees` along it. */
  datatype Direction = ToCallers | ToCallees

  function Near(dir: Direction, e: EdgeKey): nat {
    if dir == ToCallers then e.dst else e.src
  }

  function Far(dir: Direction, e: EdgeKey): nat {
    if dir == ToCallers then e.src else e.dst
  }

  /** The resolved filter, three-valued: no attributes at all, or a resolution
      that is present and not "unresolved". */
  predicate Admitted(attrs: Attrs) {
    attrs.None? ||
    ("resolution" in attrs.value && attrs.value["resolution"] != Null &&
        attrs.value["resolution"] != Text("unresolved"))
  }

  predicate IsTestFile(row: Row) {
    row.kind == "file" && row.attrs.Some? && "is_test" in row.attrs.value &&
    row.attrs.value["is_test"] in {Bool(true), Number(1)}
  }

  /** The row's path is the path of a file marked as a test. */
  predicate InTestFile(t: Tables, i: nat) {
    i in t.nodes && t.nodes[i].path.Some? &&
    exists f | f in t.nodes :: IsTestFile(t.nodes[f]) && t.nodes[f].path == t.nodes[i].path
  }

  /** A query: which way, from which name, how far, and whether tests are cut. */
  datatype Query = Query(dir: Direction, name: string, depth: int, includeTests: bool) {
    /** The first arm always runs, so the bound is never below one. */
    function Bound(): nat {
      if depth < 1 then 1 else depth
    }

    predicate Starts(t: Tables, i: nat) {
      i in t.nodes && t.nodes[i].path.Some? && (t.nodes[i].name == name || EndsWith(t.nodes[i].name, "." + name))
    }

    /** The edges the walk may take. */
    predicate Takes(t: Tables, e: EdgeKey) {
      e in t.edges && e.kind == "calls" && Admitted(t.edges[e]) && (includeTests || !InTestFile(t, Far(dir, e)))
    }

    /** A walk of taken edges from a matching start outward to `v`. */
    ghost predicate IsWalk(t: Tables, es: seq<EdgeKey>, v: nat) {
      && |es| > 0 && Starts(t, Near(dir, es[0])) && Far(dir, es[|es| - 1]) == v
      && (forall i | 0 <= i < |es| :: Takes(t, es[i]))
      && (forall i | 0 <= i < |es| - 1 :: Far(dir, es[i]) == Near(dir, es[i + 1]))
    }

    ghost predicate WalkOf(t: Tables, v: nat, d: nat) {
      exists es :: |es| == d && IsWalk(t, es, v)
    }

    ghost predicate Shortest(t: Tables, v: nat, d: nat) {
      WalkOf(t, v, d) && forall k: nat | WalkOf(t, v, k) :: d <= k
    }
  }

  type VisitRow = (nat, nat)

  function Base(t: Tables, q: Query): set<VisitRow> {
    set e | e in t.edges && q.Takes(t, e) && q.Starts(t, Near(q.dir, e)) :: (Far(q.dir, e), 1)
  }

  function Extend(t: Tables, q: Query, r: VisitRow): set<VisitRow> {
    set e | e in t.edges && q.Takes(t, e) && Near(q.dir, e) == r.0 && r.1 < q.depth :: (Far(q.dir, e), r.1 + 1)
  }

  function AllRows(t: Tables, q: Query): set<VisitRow> {
    set i, d | i in t.nodes && 1 <= d <= q.Bound() :: (i, d)
  }

  lemma BaseWalks(t: Tables, q: Query, r: VisitRow)
    requires r in Base(t, q) && t.Sound()
    ensures q.WalkOf(t, r.0, r.1) && r in AllRows(t, q)
  {
    var e :| e in t.edges && q.Takes(t, e) && q.Starts(t, Near(q.dir, e)) && r == (Far(q.dir, e), 1);
    assert q.IsWalk(t, [e], r.0);
  }

  lemma ExtendWalks(t: Tables, q: Query, r: VisitRow, x: VisitRow)
    requires q.WalkOf(t, r.0, r.1) && x in Extend(t, q, r) && t.Sound()
    ensures q.WalkOf(t, x.0, x.1) && x in AllRows(t, q)
  {
    var es :| |es| == r.1 && q.IsWalk(t, es, r.0);
    var e :| e in t.edges && q.Takes(t, e) && Near(q.dir, e) == r.0 && x == (Far(q.dir, e), r.1 + 1);
    assert q.IsWalk(t, es + [e], x.0);
  }

  /** A set of rows that holds the base rows and every extension of its rows
      holds every walk within the bound. */
  lemma {:induction false} ClosedHoldsWalks(t: Tables, q: Query, c: set<VisitRow>, es: seq<EdgeKey>, v: nat)
    requires Base(t, q) <= c && forall r | r in c :: Extend(t, q, r) <= c
    requires q.IsWalk(t, es, v) && |es| <= q.Bound()
    ensures (v, |es|) in c
  {
    var n := |es| - 1;
    if n == 0 {
      assert (Far(q.dir, es[0]), 1) in Base(t, q);
    } else {
      var init := es[..n];
      assert q.IsWalk(t, init, Far(q.dir, es[n - 1]));
      ClosedHoldsWalks(t, q, c, init, Far(q.dir, es[n - 1]));
      assert (v, n + 1) in Extend(t, q, (Far(q.dir, es[n - 1]), n));
    }
  }

  /** The recursive query with UNION: rows are expanded one at a time, in any
      order, and a row already produced is not produced again. */
  method RecursiveRows(t: Tables, q: Query) returns (c: set<VisitRow>)
    requires t.Sound()
    ensures forall v: nat, d: nat :: (v, d) in c <==> d <= q.Bound() && q.WalkOf(t, v, d)
  {
    hide Base;
    hide Extend;
    hide AllRows;
    hide Query.IsWalk;
    c := Base(t, q);
    var queue := c;
    forall r | r in c { BaseWalks(t, q, r); }
    while queue != {}
      invariant queue <= c <= AllRows(t, q) && Base(t, q) <= c
      invariant forall r | r in c :: q.WalkOf(t, r.0, r.1)
      invariant forall r | r in c - queue :: Extend(t, q, r) <= c
      decreases AllRows(t, q) - c, queue
    {
      var r :| r in queue;
      var produced := Extend(t, q, r) - c;
      forall x | x in produced { ExtendWalks(t, q, r, x); }
      ShrinksBy(AllRows(t, q), c, produced);
      queue := queue - {r} + produced;
      c := c + produced;
    }
    forall v: nat, d: nat | d <= q.Bound() && q.WalkOf(t, v, d) ensures (v, d) in c {
      var es :| |es| == d && q.IsWalk(t, es, v);
      ClosedHoldsWalks(t, q, c, es, v);
    }
    forall v: nat, d: nat | (v, d) in c ensures d <= q.Bound() { RowsWithinBound(t, q, (v, d)); }
  }

  lemma RowsWithinBound(t: Tables, q: Query, r: VisitRow)
    requires r in AllRows(t, q)
    ensures r.1 <= q.Bound()
  {
  }

  lemma ShrinksBy<T>(all: set<T>, c: set<T>, produced: set<T>)
    requires c + produced <= all && c !! produced
    ensures produced != {} ==> all - (c + produced) < all - c
    ensures produced == {} ==> c + produced == c
  {
    if produced != {} {
      var x :| x in produced;
      assert x in all - c && x !in all - (c + produced);
    }
  }

  function Depths(c: set<VisitRow>, v: nat): set<nat> {
    set r | r in c && r.0 == v :: r.1
  }

  /** `callers` / `callees`: every path-bearing row within the bound, with the
      length of a shortest walk to it. */
  method Walk(t: Tables, q: Query) returns (records: map<nat, nat>)
    requires t.Sound()
    ensures forall v: nat, d: nat :: v in records && records[v] == d <==>
              v in t.nodes && t.nodes[v].path.Some? && d <= q.Bound() && q.Shortest(t, v, d)
  {
    var c := RecursiveRows(t, q);
    var reached := set r | r in c && r.0 in t.nodes && t.nodes[r.0].path.Some? :: r.0;
    records := map v | v in reached :: Least(Depths(c, v)).GetOr(0);
    forall v: nat, d: nat
      ensures v in records && records[v] == d <==>
              v in t.nodes && t.nodes[v].path.Some? && d <= q.Bound() && q.Shortest(t, v, d)
    {
      forall k: nat ensures k in Depths(c, v) <==> k <= q.Bound() && q.WalkOf(t, v, k) {
        if k in Depths(c, v) { var r :| r in c && r.0 == v && r.1 == k; assert (v, k) == r; }
        if k <= q.Bound() && q.WalkOf(t, v, k) { assert (v, k) in c; }
      }
      assert d <= q.Bound() && q.WalkOf(t, v, d) ==> (v, d) in c;
      if v in reached {
        var r :| r in c && r.0 == v;
        assert r.1 in Depths(c, v);
        var m := Least(Depths(c, v)).value;
        assert q.Shortest(t, v, m);
      }
    }
  }

  // ----- What the two queries return, in terms of rows and edges ------------------------------

  /** A call that is resolved: no attributes, or a resolution that is given, not
      null and not "unresolved". */
  predicate IsCall(t: Tables, e: EdgeKey) {
    && e in t.edges && e.kind == "calls" && e.src in t.nodes && e.dst in t.nodes
    && (t.edges[e].Some? ==>
          "resolution" in t.edges[e].value && t.edges[e].value["resolution"] !in {Null, Text("unresolved")})
  }

  /** A row with a path, of the name or with it as the part after a dot. */
  ghost predicate IsNamed(row: Row, name: string) {
    row.path.Some? && (row.name == name || exists owner :: row.name == owner + "." + name)
  }

  /** No file marked as a test has the row's path. */
  predicate OutsideTests(t: Tables, i: nat) {
    i in t.nodes && t.nodes[i].path.Some? ==>
      forall f | f in t.nodes && t.nodes[f].kind == "file" && t.nodes[f].path == t.nodes[i].path ::
        t.nodes[f].attrs.Some? && "is_test" in t.nodes[f].attrs.value ==>
          t.nodes[f].attrs.value["is_test"] !in {Bool(true), Number(1)}
  }

  /** `v` reaches a row of the name over `d` calls. */
  ghost predicate CallerAt(t: Tables, name: string, tests: bool, v: nat, d: nat)
    decreases d, 1
  {
    exists e: EdgeKey :: e.src == v && CallerBy(t, name, tests, e, d)
  }

  ghost predicate CallerBy(t: Tables, name: string, tests: bool, e: EdgeKey, d: nat)
    decreases d, 0
  {
    && d > 0 && IsCall(t, e) && (tests || OutsideTests(t, e.src))
    && if d == 1 then IsNamed(t.nodes[e.dst], name) else CallerAt(t, name, tests, e.dst, d - 1)
  }

  /** A row of the name reaches `v` over `d` calls. */
  ghost predicate CalleeAt(t: Tables, name: string, tests: bool, v: nat, d: nat)
    decreases d, 1
  {
    exists e: EdgeKey :: e.dst == v && CalleeBy(t, name, tests, e, d)
  }

  ghost predicate CalleeBy(t: Tables, name: string, tests: bool, e: EdgeKey, d: nat)
    decreases d, 0
  {
    && d > 0 && IsCall(t, e) && (tests || OutsideTests(t, e.dst))
    && if d == 1 then IsNamed(t.nodes[e.src], name) else CalleeAt(t, name, tests, e.src, d - 1)
  }

  lemma StartsIffNamed(t: Tables, q: Query, i: nat)
    ensures q.Starts(t, i) <==> i in t.nodes && IsNamed(t.nodes[i], q.name)
  {
    if i in t.nodes {
      var n, tail := t.nodes[i].name, "." + q.name;
      if EndsWith(n, tail) {
        assert n == n[..|n| - |tail|] + tail == n[..|n| - |tail|] + "." + q.name;
      }
      if owner :| n == owner + "." + q.name {
        assert n == owner + tail;
      }
    }
  }

  lemma TakesIffCall(t: Tables, q: Query, e: EdgeKey)
    requires t.Sound()
    ensures q.Takes(t, e) <==>
              IsCall(t, e) && (q.includeTests || OutsideTests(t, if q.dir == ToCallers then e.src else e.dst))
  {
  }

  /** A walk is its last edge, after a shorter walk if there is one. */
  lemma WalkEnds(t: Tables, q: Query, v: nat, d: nat)
    requires t.Sound()
    ensures q.WalkOf(t, v, 0) == false
    ensures q.WalkOf(t, v, 1) <==> exists e :: Far(q.dir, e) == v && q.Takes(t, e) && q.Starts(t, Near(q.dir, e))
    ensures d > 0 ==>
              (q.WalkOf(t, v, d + 1) <==>
                 exists e :: Far(q.dir, e) == v && q.Takes(t, e) && q.WalkOf(t, Near(q.dir, e), d))
  {
    if e :| Far(q.dir, e) == v && q.Takes(t, e) && q.Starts(t, Near(q.dir, e)) {
      assert q.IsWalk(t, [e], v);
    }
    if d > 0 { WalkGrows(t, q, v, d); }
  }

  lemma WalkGrows(t: Tables, q: Query, v: nat, d: nat)
    requires t.Sound() && d > 0
    ensures q.WalkOf(t, v, d + 1) <==>
              exists e :: Far(q.dir, e) == v && q.Takes(t, e) && q.WalkOf(t, Near(q.dir, e), d)
  {
    hide Query.Takes;
    hide Query.Starts;
    if e :| Far(q.dir, e) == v && q.Takes(t, e) && q.WalkOf(t, Near(q.dir, e), d) {
      var es :| |es| == d && q.IsWalk(t, es, Near(q.dir, e));
      assert q.IsWalk(t, es + [e], v);
    }
    if q.WalkOf(t, v, d + 1) {
      var es :| |es| == d + 1 && q.IsWalk(t, es, v);
      assert q.IsWalk(t, es[..d], Near(q.dir, es[d]));
    }
  }

  lemma {:induction false} WalksAreCallers(t: Tables, q: Query, v: nat, d: nat)
    requires t.Sound() && q.dir == ToCallers
    ensures q.WalkOf(t, v, d) <==> CallerAt(t, q.name, q.includeTests, v, d)
    decreases d
  {
    hide Query.IsWalk;
    hide Query.Takes;
    hide Query.Starts;
    hide IsCall;
    hide OutsideTests;
    hide IsNamed;
    if d > 0 {
      WalkEnds(t, q, v, d - 1);
      forall e: EdgeKey
        ensures d == 1 && q.Takes(t, e) && q.Starts(t, e.dst) <==> d == 1 && CallerBy(t, q.name, q.includeTests, e, d)
        ensures d > 1 && q.Takes(t, e) && q.WalkOf(t, e.dst, d - 1) <==>
                  d > 1 && CallerBy(t, q.name, q.includeTests, e, d)
      {
        CallHasEnds(t, e);
        TakesIffCall(t, q, e);
        StartsIffNamed(t, q, e.dst);
        WalksAreCallers(t, q, e.dst, d - 1);
      }
    } else {
      WalkEnds(t, q, v, 0);
    }
  }

  lemma {:induction false} WalksAreCallees(t: Tables, q: Query, v: nat, d: nat)
    requires t.Sound() && q.dir == ToCallees
    ensures q.WalkOf(t, v, d) <==> CalleeAt(t, q.name, q.includeTests, v, d)
    decreases d
  {
    hide Query.IsWalk;
    hide Query.Takes;
    hide Query.Starts;
    hide IsCall;
    hide OutsideTests;
    hide IsNamed;
    if d > 0 {
      WalkEnds(t, q, v, d - 1);
      forall e: EdgeKey
        ensures d == 1 && q.Takes(t, e) && q.Starts(t, e.src) <==> d == 1 && CalleeBy(t, q.name, q.includeTests, e, d)
        ensures d > 1 && q.Takes(t, e) && q.WalkOf(t, e.src, d - 1) <==>
                  d > 1 && CalleeBy(t, q.name, q.includeTests, e, d)
      {
        CallHasEnds(t, e);
        TakesIffCall(t, q, e);
        StartsIffNamed(t, q, e.src);
        WalksAreCallees(t, q, e.src, d - 1);
      }
    } else {
      WalkEnds(t, q, v, 0);
    }
  }

  lemma CallHasEnds(t: Tables, e: EdgeKey)
    ensures IsCall(t, e) ==> e.src in t.nodes && e.dst in t.nodes
  {
  }

  ghost predicate FirstCaller(t: Tables, name: string, tests: bool, v: nat, d: nat) {
    CallerAt(t, name, tests, v, d) && forall k: nat | k < d :: !CallerAt(t, name, tests, v, k)
  }

  ghost predicate ListsCaller(t: Tables, name: string, depth: int, tests: bool, v: nat, d: nat) {
    v in t.nodes && t.nodes[v].path.Some? && (d == 1 || d <= depth) && FirstCaller(t, name, tests, v, d)
  }

  lemma ShortestCaller(t: Tables, q: Query, v: nat, d: nat)
    requires t.Sound() && q.dir == ToCallers
    ensures q.Shortest(t, v, d) <==> FirstCaller(t, q.name, q.includeTests, v, d)
    ensures q.Shortest(t, v, d) ==> d > 0
  {
    hide Query.WalkOf;
    hide CallerAt;
    WalkEnds(t, q, v, d);
    forall k: nat ensures q.WalkOf(t, v, k) <==> CallerAt(t, q.name, q.includeTests, v, k) {
      WalksAreCallers(t, q, v, k);
    }
    assert forall k: nat | k < d :: q.WalkOf(t, v, k) <==> CallerAt(t, q.name, q.includeTests, v, k);
  }

  ghost predicate FirstCallee(t: Tables, name: string, tests: bool, v: nat, d: nat) {
    CalleeAt(t, name, tests, v, d) && forall k: nat | k < d :: !CalleeAt(t, name, tests, v, k)
  }

  ghost predicate ListsCallee(t: Tables, name: string, depth: int, tests: bool, v: nat, d: nat) {
    v in t.nodes && t.nodes[v].path.Some? && (d == 1 || d <= depth) && FirstCallee(t, name, tests, v, d)
  }

  lemma ShortestCallee(t: Tables, q: Query, v: nat, d: nat)
    requires t.Sound() && q.dir == ToCallees
    ensures q.Shortest(t, v, d) <==> FirstCallee(t, q.name, q.includeTests, v, d)
    ensures q.Shortest(t, v, d) ==> d > 0
  {
    hide Query.WalkOf;
    hide CalleeAt;
    WalkEnds(t, q, v, d);
    forall k: nat ensures q.WalkOf(t, v, k) <==> CalleeAt(t, q.name, q.includeTests, v, k) {
      WalksAreCallees(t, q, v, k);
    }
    assert forall k: nat | k < d :: q.WalkOf(t, v, k) <==> CalleeAt(t, q.name, q.includeTests, v, k);
  }

  /** `callers`: every path-bearing row within the bound that calls its way to the
      name, at the least number of calls. */
  method Callers(t: Tables, name: string, depth: int, tests: bool) returns (records: map<nat, nat>)
    requires t.Sound()
    ensures forall v: nat, d: nat :: v in records && records[v] == d <==> ListsCaller(t, name, depth, tests, v, d)
  {
    var q := Query(ToCallers, name, depth, tests);
    records := Walk(t, q);
    forall v: nat, d: nat
      ensures v in records && records[v] == d <==> ListsCaller(t, name, depth, tests, v, d)
    {
      ShortestCaller(t, q, v, d);
      assert v in records && records[v] == d <==>
        v in t.nodes && t.nodes[v].path.Some? && d <= q.Bound() && q.Shortest(t, v, d);
    }
  }

  /** `callees`: the same along the calls that the name makes. */
  method Callees(t: Tables, name: string, depth: int, tests: bool) returns (records: map<nat, nat>)
    requires t.Sound()
    ensures forall v: nat, d: nat :: v in records && records[v] == d <==> ListsCallee(t, name, depth, tests, v, d)
  {
    var q := Query(ToCallees, name, depth, tests);
    records := Walk(t, q);
    forall v: nat, d: nat
      ensures v in records && records[v] == d <==> ListsCallee(t, name, depth, tests, v, d)
    {
      ShortestCallee(t, q, v, d);
      assert v in records && records[v] == d <==>
        v in t.nodes && t.nodes[v].path.Some? && d <= q.Bound() && q.Shortest(t, v, d);
    }
  }

  // ----- Callers and callees mirror each other ------------------------------------------------

  function Reversed(es: seq<EdgeKey>): seq<EdgeKey> {
    seq(|es|, i requires 0 <= i < |es| => es[|es| - 1 - i])
  }

  /** The same edges, read the other way, are a walk from the far end back. */
  lemma WalkReverses(t: Tables, up: Query, down: Query, es: seq<EdgeKey>, a: nat)
    requires up.dir != down.dir && up.includeTests && down.includeTests
    requires up.IsWalk(t, es, a) && down.Starts(t, a)
    ensures down.IsWalk(t, Reversed(es), Near(up.dir, es[0]))
  {
    var rs := Reversed(es);
    forall i | 0 <= i < |rs| - 1 ensures Far(down.dir, rs[i]) == Near(down.dir, rs[i + 1]) {
      var j := |es| - 2 - i;
      assert Far(up.dir, es[j]) == Near(up.dir, es[j + 1]);
    }
  }

  lemma WalksMirror(t: Tables, up: Query, down: Query, a: nat, b: nat, d: nat)
    requires up.dir != down.dir && up.includeTests && down.includeTests
    requires forall i: nat :: up.Starts(t, i) <==> i == b
    requires forall i: nat :: down.Starts(t, i) <==> i == a
    ensures up.WalkOf(t, a, d) <==> down.WalkOf(t, b, d)
  {
    if up.WalkOf(t, a, d) {
      var es :| |es| == d && up.IsWalk(t, es, a);
      WalkReverses(t, up, down, es, a);
    }
    if down.WalkOf(t, b, d) {
      var es :| |es| == d && down.IsWalk(t, es, b);
      WalkReverses(t, down, up, es, b);
    }
  }

  /** With the test filter off and each name matching one row: `a` is among the
      callers of `b` at depth `d` exactly when `b` is among the callees of `a` at
      depth `d`. */
  lemma CallersMirrorCallees(t: Tables, depth: int, nameA: string, nameB: string, a: nat, b: nat, d: nat)
    requires forall i: nat :: Query(ToCallers, nameB, depth, true).Starts(t, i) <==> i == b
    requires forall i: nat :: Query(ToCallees, nameA, depth, true).Starts(t, i) <==> i == a
    ensures Query(ToCallers, nameB, depth, true).Shortest(t, a, d) <==>
              Query(ToCallees, nameA, depth, true).Shortest(t, b, d)
  {
    var up, down := Query(ToCallers, nameB, depth, true), Query(ToCallees, nameA, depth, true);
    forall k: nat ensures up.WalkOf(t, a, k) <==> down.WalkOf(t, b, k) {
      WalksMirror(t, up, down, a, b, k);
    }
  }
}
