/** Parent maps and the cycle walk of scripts/migrate_vault_work.py.  A parent map
    may name parents that are not keys themselves. */
module Forest {
  import opened Paths

  type Parents = map<string, Option<string>>

  function Next(parents: Parents, p: string): Option<string> {
    if p in parents then parents[p] else None
  }

  /** The item reached by `n` steps towards the root, if the chain is that long. */
  function Climb(parents: Parents, p: string, n: nat): Option<string>
    decreases n
  {
    if n == 0 then Some(p)
    else match Next(parents, p)
      case None => None
      case Some(q) => Climb(parents, q, n - 1)
  }

  ghost predicate OnCycle(parents: Parents, p: string) {
    exists n: nat :: n > 0 && Climb(parents, p, n) == Some(p)
  }

  ghost predicate Ends(parents: Parents, p: string) {
    exists n: nat :: Climb(parents, p, n) == None
  }

  /** Every chain that starts in the set stays in it. */
  predicate Closed(parents: Parents, s: set<string>) {
    forall p | p in s :: Next(parents, p).Some? ==> Next(parents, p).value in s
  }

  lemma {:induction false} ClimbAdd(parents: Parents, p: string, m: nat, n: nat)
    ensures Climb(parents, p, m + n) ==
            match Climb(parents, p, m) case None => None case Some(q) => Climb(parents, q, n)
    decreases m
  {
    if m > 0 && Next(parents, p).Some? { ClimbAdd(parents, Next(parents, p).value, m - 1, n); }
  }

  lemma {:induction false} ClosedStays(parents: Parents, s: set<string>, p: string, n: nat)
    requires Closed(parents, s) && p in s
    ensures Climb(parents, p, n).Some? ==> Climb(parents, p, n).value in s
    decreases n
  {
    if n > 0 && Next(parents, p).Some? { ClosedStays(parents, s, Next(parents, p).value, n - 1); }
  }

  lemma {:induction false} GoRound(parents: Parents, p: string, m: nat, n: nat) returns (r: nat)
    requires m > 0 && Climb(parents, p, m) == Some(p)
    ensures r >= n && Climb(parents, p, r) == Some(p)
    decreases n
  {
    if n <= m {
      r := m;
    } else {
      r := GoRound(parents, p, m, n - m);
      ClimbAdd(parents, p, m, r);
      r := m + r;
    }
  }

  /** A chain that enters a closed set its start is outside of, or that ends,
      never comes back. */
  lemma {:induction false} LeavesForGood(parents: Parents, s: set<string>, p: string, n: nat)
    requires Closed(parents, s) && p !in s
    requires Climb(parents, p, n).Some? ==> Climb(parents, p, n).value in s
    ensures !OnCycle(parents, p)
  {
    if OnCycle(parents, p) {
      var m: nat :| m > 0 && Climb(parents, p, m) == Some(p);
      var r := GoRound(parents, p, m, n);
      ClimbAdd(parents, p, n, r - n);
      if Climb(parents, p, n).Some? { ClosedStays(parents, s, Climb(parents, p, n).value, r - n); }
    }
  }

  // ----- Trails -------------------------------------------------------------------

  predicate NoDuplicates<T(==)>(s: seq<T>) {
    forall i, j | 0 <= i < j < |s| :: s[i] != s[j]
  }

  function Elements<T>(s: seq<T>): set<T> {
    set x | x in s
  }

  lemma DistinctConcat<T>(a: seq<T>, b: seq<T>)
    requires NoDuplicates(a) && NoDuplicates(b) && forall x | x in b :: x !in a
    ensures NoDuplicates(a + b)
  {
    forall i, j | 0 <= i < j < |a + b| ensures (a + b)[i] != (a + b)[j] {
      if i < |a| <= j { assert b[j - |a|] !in a; }
    }
  }

  lemma {:induction false} DistinctFits<T>(s: seq<T>, all: set<T>)
    requires NoDuplicates(s) && Elements(s) <= all
    ensures |s| <= |all|
  {
    if s != [] {
      var last := s[|s| - 1];
      assert last in Elements(s);
      DistinctFits(s[..|s| - 1], all - {last});
    }
  }

  predicate IsTrail(parents: Parents, trail: seq<string>) {
    forall j | 0 <= j < |trail| - 1 :: Next(parents, trail[j]) == Some(trail[j + 1])
  }

  lemma {:induction false} ClimbTrail(parents: Parents, trail: seq<string>, j: nat, n: nat)
    requires IsTrail(parents, trail) && j + n < |trail|
    ensures Climb(parents, trail[j], n) == Some(trail[j + n])
    decreases n
  {
    if n > 0 { ClimbTrail(parents, trail, j + 1, n - 1); }
  }

  lemma ClimbOffTrail(parents: Parents, trail: seq<string>, j: nat)
    requires IsTrail(parents, trail) && j < |trail|
    ensures Climb(parents, trail[j], |trail| - j) == Next(parents, trail[|trail| - 1])
  {
    ClimbTrail(parents, trail, j, |trail| - 1 - j);
    ClimbAdd(parents, trail[j], |trail| - 1 - j, 1);
    var last := trail[|trail| - 1];
    assert Climb(parents, last, 1) == match Next(parents, last) case None => None case Some(q) => Climb(parents, q, 0);
  }

  /** A trail that ends, or runs into a closed set, lies on no cycle. */
  lemma TrailLeaves(parents: Parents, visited: set<string>, trail: seq<string>, j: nat)
    requires Closed(parents, visited) && IsTrail(parents, trail) && j < |trail| && trail[j] !in visited
    requires Next(parents, trail[|trail| - 1]).Some? ==> Next(parents, trail[|trail| - 1]).value in visited
    ensures !OnCycle(parents, trail[j])
  {
    ClimbOffTrail(parents, trail, j);
    LeavesForGood(parents, visited, trail[j], |trail| - j);
  }

  /** A trail that runs into its own item `k` has found one cycle: the part from
      `k` on, and nothing before it. */
  lemma TrailCloses(parents: Parents, trail: seq<string>, k: nat, j: nat)
    requires IsTrail(parents, trail) && NoDuplicates(trail) && k < |trail| && j < |trail|
    requires Next(parents, trail[|trail| - 1]) == Some(trail[k])
    ensures OnCycle(parents, trail[j]) <==> k <= j
  {
    if k <= j {
      ClimbOffTrail(parents, trail, j);
      ClimbTrail(parents, trail, k, j - k);
      ClimbAdd(parents, trail[j], |trail| - j, j - k);
    } else {
      var cycle := set i | k <= i < |trail| :: trail[i];
      forall p | p in cycle ensures Next(parents, p).Some? && Next(parents, p).value in cycle {
        var i :| k <= i < |trail| && p == trail[i];
        if i < |trail| - 1 { assert trail[i + 1] in cycle; } else { assert trail[k] in cycle; }
      }
      ClimbTrail(parents, trail, j, k - j);
      LeavesForGood(parents, cycle, trail[j], k - j);
    }
  }

  lemma TrailJoins(parents: Parents, visited: set<string>, trail: seq<string>)
    requires Closed(parents, visited) && IsTrail(parents, trail)
    requires trail != [] ==>
               var q := Next(parents, trail[|trail| - 1]); q.Some? ==> q.value in visited || q.value in trail
    ensures Closed(parents, visited + Elements(trail))
  {
    forall p | p in trail && Next(parents, p).Some? ensures Next(parents, p).value in visited + Elements(trail) {
      var i :| 0 <= i < |trail| && p == trail[i];
      if i < |trail| - 1 { assert trail[i + 1] in Elements(trail); }
    }
  }

  function IndexOf(s: seq<string>, x: string): (i: nat)
    requires x in s
    ensures i < |s| && s[i] == x
  {
    if s[0] == x then 0 else 1 + IndexOf(s[1..], x)
  }

  /** The items a walk may put on its trail. */
  function Universe(parents: Parents): set<string> {
    parents.Keys + set p | p in parents && parents[p].Some? :: parents[p].value
  }

  lemma {:induction false} TrailFits(parents: Parents, trail: seq<string>)
    requires NoDuplicates(trail) && forall i | 0 <= i < |trail| :: trail[i] in Universe(parents)
    ensures |trail| <= |Universe(parents)|
  {
    DistinctFits(trail, Universe(parents));
  }

  /** The walk that closes `_hierarchy`: from every start, climb until the chain
      ends, joins an earlier walk, or bites its own tail; report that tail. */
  method FindCycles(parents: Parents, starts: seq<string>) returns (cycling: seq<string>)
    requires Elements(starts) == parents.Keys
    ensures NoDuplicates(cycling)
    ensures forall p :: p in cycling <==> OnCycle(parents, p)
    ensures cycling == [] <==> forall p :: !OnCycle(parents, p)
  {
    cycling := [];
    var visited: set<string> := {};
    for s := 0 to |starts|
      invariant Closed(parents, visited)
      invariant forall i | 0 <= i < s :: starts[i] in visited
      invariant NoDuplicates(cycling)
      invariant forall p | p in cycling :: p in visited
      invariant forall p | p in visited :: p in cycling <==> OnCycle(parents, p)
    {
      assert starts[s] in Elements(starts);
      var found, trail := WalkFrom(parents, starts[s], visited);
      DistinctConcat(cycling, found);
      cycling := cycling + found;
      visited := visited + Elements(trail);
    }
    forall p | OnCycle(parents, p) ensures p in cycling {
      if p !in parents { LeavesForGood(parents, {}, p, 1); }
      assert p in Elements(starts);
    }
    assert cycling != [] ==> cycling[0] in cycling;
  }

  /** One walk: its trail, and the cycle it found, if any. */
  method WalkFrom(parents: Parents, start: string, visited: set<string>)
    returns (cycle: seq<string>, trail: seq<string>)
    requires start in parents && Closed(parents, visited)
    ensures Closed(parents, visited + Elements(trail)) && start in visited + Elements(trail)
    ensures Elements(trail) !! visited && NoDuplicates(cycle)
    ensures forall p | p in cycle :: p in trail
    ensures forall p | p in trail :: p in cycle <==> OnCycle(parents, p)
  {
    cycle, trail := [], [];
    var visiting: set<string> := {};
    var cursor := Some(start);
    while cursor.Some? && cursor.value !in visited
      invariant visiting == Elements(trail) && NoDuplicates(trail) && IsTrail(parents, trail)
      invariant forall i | 0 <= i < |trail| :: trail[i] in Universe(parents) && trail[i] !in visited
      invariant trail == [] ==> cursor == Some(start)
      invariant trail != [] ==> trail[0] == start && cursor == Next(parents, trail[|trail| - 1])
      decreases |Universe(parents)| + 1 - |trail|
    {
      var at := cursor.value;
      if at in visiting {
        cycle := if at in trail then trail[IndexOf(trail, at)..] else [at];
        ghost var k := IndexOf(trail, at);
        TrailJoins(parents, visited, trail);
        forall j | 0 <= j < |trail| ensures OnCycle(parents, trail[j]) <==> k <= j {
          TrailCloses(parents, trail, k, j);
        }
        forall p | p in trail ensures p in cycle <==> OnCycle(parents, p) {
          var j :| 0 <= j < |trail| && trail[j] == p;
          if k <= j { assert cycle[j - k] == p; }
        }
        return;
      }
      visiting := visiting + {at};
      trail := trail + [at];
      cursor := Next(parents, at);
      TrailFits(parents, trail);
    }
    TrailJoins(parents, visited, trail);
    forall p | p in trail ensures !OnCycle(parents, p) {
      var j :| 0 <= j < |trail| && trail[j] == p;
      TrailLeaves(parents, visited, trail, j);
    }
  }
}
