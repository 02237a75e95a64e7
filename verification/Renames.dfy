/** Carrying reserved members along with a directory move, and rolling that
    back (scripts/move_bundle.py), over the files and directories of a bundle. */
module Renames {

  /** A path relative to the bundle root; the root itself is empty. */
  type Path = seq<string>

  datatype Move = Move(source: Path, dest: Path)

  const INDEX := "index.md"

  function Parent(p: Path): Path
    requires p != []
  {
    p[..|p| - 1]
  }

  /** A path and everything above it. */
  function Prefixes(p: Path): set<Path> {
    if p == [] then {[]} else Prefixes(Parent(p)) + {p}
  }

  lemma {:induction false} InPrefixes(q: Path, p: Path)
    ensures q in Prefixes(p) <==> q <= p
  {
    if p != [] {
      InPrefixes(q, Parent(p));
      assert q <= p && q != p ==> |q| < |p| && q == Parent(p)[..|q|];
    }
  }

  datatype Tree = Tree(files: map<Path, string>, dirs: set<Path>) {
    predicate Exists(p: Path) {
      p in files || p in dirs
    }

    predicate Roots(p: Path) {
      p != [] ==> Parent(p) in dirs
    }

    /** No path is both a file and a directory, and what exists lies in directories. */
    ghost predicate Valid() {
      [] in dirs && files.Keys !! dirs && forall p | Exists(p) :: Roots(p)
    }

    predicate CanMake(p: Path) {
      Prefixes(p) !! files.Keys
    }

    /** `mkdir(parents=True, exist_ok=True)` when it succeeds. */
    function Made(p: Path): Tree {
      this.(dirs := dirs + Prefixes(p))
    }

    /** `Path.replace` when it succeeds: an existing destination is destroyed. */
    function Replaced(source: Path, dest: Path): Tree
      requires source in files
    {
      this.(files := (files - {source})[dest := files[source]])
    }

    predicate Empty(p: Path) {
      forall q | q in files.Keys + dirs :: p <= q ==> q == p
    }
  }

  /** Every file is still there under some path, with its content, and nothing else is. */
  ghost predicate Conserves(before: map<Path, string>, after: map<Path, string>) {
    exists there: map<Path, Path>, back: map<Path, Path> :: Relocates(before, after, there, back)
  }

  ghost predicate Relocates(before: map<Path, string>, after: map<Path, string>,
                            there: map<Path, Path>, back: map<Path, Path>)
  {
    && there.Keys == before.Keys && back.Keys == after.Keys
    && (forall p | p in there :: there[p] in back && back[there[p]] == p && after[there[p]] == before[p])
    && (forall r | r in back :: back[r] in there && there[back[r]] == r)
  }

  lemma ConservesSelf(f: map<Path, string>)
    ensures Conserves(f, f)
  {
    var same := map p | p in f :: p;
    assert Relocates(f, f, same, same);
  }

  /** Renaming onto a vacant path loses nothing. */
  lemma ConservesRename(before: map<Path, string>, f: map<Path, string>, source: Path, dest: Path)
    requires Conserves(before, f) && source in f && dest !in f
    ensures Conserves(before, (f - {source})[dest := f[source]])
  {
    var there: map<Path, Path>, back: map<Path, Path> :| Relocates(before, f, there, back);
    hide Conserves;
    var there', back' := there[back[source] := dest], (back - {source})[dest := back[source]];
    RelocatesRename(before, f, source, dest, there, back);
    ConservesBy(before, (f - {source})[dest := f[source]], there', back');
  }

  lemma RelocatesRename(before: map<Path, string>, f: map<Path, string>, source: Path, dest: Path,
                        there: map<Path, Path>, back: map<Path, Path>)
    requires Relocates(before, f, there, back) && source in f && dest !in f
    ensures Relocates(before, (f - {source})[dest := f[source]], there[back[source] := dest],
                      (back - {source})[dest := back[source]])
  {
    var origin := back[source];
    var after := (f - {source})[dest := f[source]];
    var there', back' := there[origin := dest], (back - {source})[dest := origin];
    assert origin in there && there[origin] == source;
    assert back'.Keys == after.Keys;
    forall p | p in there' ensures there'[p] in back' && back'[there'[p]] == p && after[there'[p]] == before[p] {
      if p != origin {
        assert p in there && there[p] in back && back[there[p]] == p;
        assert there[p] != source && there[p] != dest;
      }
    }
    forall r | r in back' ensures back'[r] in there' && there'[back'[r]] == r {
      if r != dest {
        assert r in back && there[back[r]] == r && back[r] != origin;
      }
    }
  }

  lemma ConservesBy(before: map<Path, string>, after: map<Path, string>, there: map<Path, Path>, back: map<Path, Path>)
    requires Relocates(before, after, there, back)
    ensures Conserves(before, after)
  {
  }

  lemma NotAbove(p: Path)
    requires p != []
    ensures p !in Prefixes(Parent(p))
  {
    InPrefixes(p, Parent(p));
  }

  lemma RenameKeepsValid(t: Tree, source: Path, dest: Path)
    requires t.Valid() && source in t.files && dest != [] && dest !in t.dirs && Parent(dest) in t.dirs
    ensures t.Replaced(source, dest).Valid()
  {
    forall p | t.Replaced(source, dest).Exists(p) ensures t.Replaced(source, dest).Roots(p) {
      assert p != dest ==> t.Exists(p) && t.Roots(p);
    }
  }

  lemma OneMoreDir(t: Tree, p: Path)
    requires t.Valid() && p !in t.files && p != [] && Parent(p) in t.dirs
    ensures t.(dirs := t.dirs + {p}).Valid()
  {
    var after := t.(dirs := t.dirs + {p});
    forall q | after.Exists(q) ensures after.Roots(q) {
      assert q != p ==> t.Exists(q) && t.Roots(q);
    }
  }

  /** Everything above a directory is a directory. */
  lemma {:induction false} AboveDirs(t: Tree, p: Path)
    requires t.Valid() && p in t.dirs
    ensures Prefixes(p) <= t.dirs
  {
    if p != [] {
      assert t.Exists(p) && t.Roots(p);
      AboveDirs(t, Parent(p));
    }
  }

  /** The files after renaming each entry in turn. */
  function Renamed(files: map<Path, string>, entries: seq<Move>): map<Path, string> {
    if entries == [] then files
    else
      var f, last := Renamed(files, entries[..|entries| - 1]), entries[|entries| - 1];
      if last.source in f then (f - {last.source})[last.dest := f[last.source]] else f
  }

  /** The reserved members of a batch: different live files, in the order they are renamed. */
  predicate Listed(t: Tree, entries: seq<Move>) {
    && (forall e | e in entries :: e.source in t.files && e.source != [] && e.dest != [])
    && (forall i, j | 0 <= i < j < |entries| :: entries[i].source != entries[j].source)
  }

  /** What a batch that landed tells about the tree it started from: every
      destination was vacant when its turn came. */
  ghost predicate Landed(t: Tree, entries: seq<Move>) {
    && Listed(t, entries)
    && (forall i, j | 0 <= i < j < |entries| :: entries[i].dest != entries[j].dest)
    && (forall e | e in entries :: e.dest !in t.dirs)
    && (forall i, j | 0 <= j <= i < |entries| :: !(entries[i].source <= entries[j].dest))
    && (forall j | 0 <= j < |entries| && entries[j].dest in t.files :: VacatedBefore(entries, j))
  }

  predicate VacatedBefore(entries: seq<Move>, j: nat)
    requires j < |entries|
  {
    exists i | 0 <= i < j :: entries[i].source == entries[j].dest
  }

  /** No destination is, or lies below, a path some entry leaves. */
  predicate Clear(entries: seq<Move>, others: seq<Move>) {
    forall e, o | e in entries && o in others :: !(e.source <= o.dest)
  }

  /** One entry of the rollback, when nothing but the tree itself stops it. */
  function Back(t: Tree, e: Move): Tree {
    if e.source == [] || e.dest !in t.files || t.Exists(e.source) || !t.CanMake(Parent(e.source)) then t
    else t.Made(Parent(e.source)).Replaced(e.dest, e.source)
  }

  function RolledBack(t: Tree, entries: seq<Move>): Tree {
    if entries == [] then t else Back(RolledBack(t, entries[..|entries| - 1]), entries[|entries| - 1])
  }

  lemma LandedPrefix(t: Tree, entries: seq<Move>, k: nat)
    requires Landed(t, entries) && k <= |entries|
    ensures Landed(t, entries[..k])
  {
    var some := entries[..k];
    assert forall e | e in some :: e in entries;
    forall j | 0 <= j < |some| && some[j].dest in t.files ensures VacatedBefore(some, j) {
      assert VacatedBefore(entries, j);
      var i :| 0 <= i < j && entries[i].source == entries[j].dest;
      assert some[i].source == some[j].dest;
    }
  }

  predicate Leaves(entries: seq<Move>, k: int, p: Path) {
    exists i | 0 <= i < |entries| :: k <= i && entries[i].source == p
  }

  predicate Arrives(entries: seq<Move>, k: int, p: Path) {
    exists i | 0 <= i < |entries| :: k <= i && entries[i].dest == p
  }

  ghost predicate Untouched(t: Tree, entries: seq<Move>, k: nat, files: map<Path, string>) {
    forall p | p in t.files && !Leaves(entries, k, p) :: p in files && files[p] == t.files[p]
  }

  ghost predicate Carried(t: Tree, entries: seq<Move>, k: nat, files: map<Path, string>) {
    forall i | k <= i < |entries| ::
      entries[i].source in t.files && entries[i].dest in files && files[entries[i].dest] == t.files[entries[i].source]
  }

  ghost predicate NothingElse(t: Tree, entries: seq<Move>, k: nat, files: map<Path, string>) {
    forall p | p in files :: (p in t.files && !Leaves(entries, k, p)) || Arrives(entries, k, p)
  }

  /** The files when the entries from `k` on are renamed and the others are not. */
  ghost predicate HalfMoved(t: Tree, entries: seq<Move>, k: nat, files: map<Path, string>) {
    Untouched(t, entries, k, files) && Carried(t, entries, k, files) && NothingElse(t, entries, k, files)
  }

  lemma RenamedNone(t: Tree)
    ensures HalfMoved(t, [], 0, t.files)
  {
  }

  /** Where everything is after a batch that landed. */
  lemma {:induction false} RenamedAt(t: Tree, entries: seq<Move>)
    requires Landed(t, entries)
    ensures HalfMoved(t, entries, 0, Renamed(t.files, entries))
    decreases |entries|
  {
    hide Untouched;
    hide Carried;
    if entries == [] {
      RenamedNone(t);
    } else {
      hide NothingElse;
      var n := |entries| - 1;
      LandedPrefix(t, entries, n);
      RenamedAt(t, entries[..n]);
      var f := Renamed(t.files, entries[..n]);
      hide Landed;
      UntouchedStep(t, entries, n, f);
      CarriedStep(t, entries, n, f);
      NothingElseStep(t, entries, n, f);
    }
  }

  /** What one more entry adds to the paths left and arrived at. */
  lemma OneMore(entries: seq<Move>, n: nat)
    requires |entries| == n + 1
    ensures forall p :: Leaves(entries, 0, p) <==> Leaves(entries[..n], 0, p) || p == entries[n].source
    ensures forall p :: Arrives(entries, 0, p) <==> Arrives(entries[..n], 0, p) || p == entries[n].dest
  {
    var some := entries[..n];
    forall p | Leaves(some, 0, p) || p == entries[n].source ensures Leaves(entries, 0, p) {
      if Leaves(some, 0, p) {
        var i :| 0 <= i < |some| && some[i].source == p;
        assert entries[i].source == p;
      }
    }
    forall p | Arrives(some, 0, p) || p == entries[n].dest ensures Arrives(entries, 0, p) {
      if Arrives(some, 0, p) {
        var i :| 0 <= i < |some| && some[i].dest == p;
        assert entries[i].dest == p;
      }
    }
    forall p | Leaves(entries, 0, p) && p != entries[n].source ensures Leaves(some, 0, p) {
      var i :| 0 <= i < |entries| && entries[i].source == p;
      assert some[i].source == p;
    }
    forall p | Arrives(entries, 0, p) && p != entries[n].dest ensures Arrives(some, 0, p) {
      var i :| 0 <= i < |entries| && entries[i].dest == p;
      assert some[i].dest == p;
    }
  }

  lemma LastLands(t: Tree, entries: seq<Move>, n: nat)
    requires Landed(t, entries) && |entries| == n + 1
    ensures entries[n].source in t.files && !Leaves(entries[..n], 0, entries[n].source)
    ensures entries[n].dest in t.files ==> Leaves(entries[..n], 0, entries[n].dest)
    ensures forall i | 0 <= i < n ::
              entries[..n][i].dest != entries[n].source && entries[..n][i].dest != entries[n].dest
  {
    var some := entries[..n];
    assert entries[n] in entries;
    if entries[n].dest in t.files {
      assert VacatedBefore(entries, n);
      var i :| 0 <= i < n && entries[i].source == entries[n].dest;
      assert some[i].source == entries[n].dest;
    }
  }

  lemma UntouchedStep(t: Tree, entries: seq<Move>, n: nat, f: map<Path, string>)
    requires Landed(t, entries) && |entries| == n + 1 && Untouched(t, entries[..n], 0, f)
    ensures entries[n].source in f && f[entries[n].source] == t.files[entries[n].source]
    ensures Untouched(t, entries, 0, (f - {entries[n].source})[entries[n].dest := f[entries[n].source]])
  {
    OneMore(entries, n);
    LastLands(t, entries, n);
    hide Landed;
    hide Leaves;
  }

  lemma CarriedStep(t: Tree, entries: seq<Move>, n: nat, f: map<Path, string>)
    requires Landed(t, entries) && |entries| == n + 1 && Carried(t, entries[..n], 0, f)
    requires entries[n].source in f && f[entries[n].source] == t.files[entries[n].source]
    ensures Carried(t, entries, 0, (f - {entries[n].source})[entries[n].dest := f[entries[n].source]])
  {
    LastLands(t, entries, n);
    hide Landed;
    assert forall i | 0 <= i < n :: entries[i] == entries[..n][i];
  }

  lemma NothingElseStep(t: Tree, entries: seq<Move>, n: nat, f: map<Path, string>)
    requires |entries| == n + 1 && NothingElse(t, entries[..n], 0, f) && entries[n].source in f
    ensures NothingElse(t, entries, 0, (f - {entries[n].source})[entries[n].dest := f[entries[n].source]])
  {
    OneMore(entries, n);
    hide Leaves;
    hide Arrives;
  }

  /** A directory made on the way to some destination. */
  predicate MadeFor(entries: seq<Move>, q: Path) {
    exists e | e in entries && e.dest != [] :: q in Prefixes(Parent(e.dest))
  }

  /** The tree while a batch is being renamed: its files as renamed so far, its
      directories the old ones and some made for destinations. */
  ghost predicate Underway(t: Tree, entries: seq<Move>, now: Tree) {
    && now.Valid() && Landed(t, entries) && now.files == Renamed(t.files, entries)
    && t.dirs <= now.dirs && forall q | q in now.dirs :: q in t.dirs || MadeFor(entries, q)
  }

  lemma UnderwayFacts(t: Tree, entries: seq<Move>, e: Move, now: Tree)
    requires Underway(t, entries, now) && e.source in t.files && forall o | o in entries :: o.source != e.source
    ensures e.source in now.files && e.source !in now.dirs
    ensures forall o | o in entries :: o.dest in now.files
    ensures e.dest in t.files && e.dest !in now.files ==> Leaves(entries, 0, e.dest)
  {
    RenamedAt(t, entries);
    hide Landed;
    assert !Leaves(entries, 0, e.source);
  }

  lemma ListedApart(t: Tree, entries: seq<Move>, e: Move)
    requires Listed(t, entries + [e])
    ensures e.source in t.files && e.dest != [] && forall o | o in entries :: o.source != e.source && o.dest != []
  {
    var more, n := entries + [e], |entries|;
    assert e == more[n] && e in more;
    forall o | o in entries ensures o.source != e.source && o.dest != [] {
      var i :| 0 <= i < n && entries[i] == o;
      assert more[i] == o && o in more;
    }
  }

  /** A rename onto a vacant path whose parents could be made extends the batch. */
  lemma LandedGrows(t: Tree, entries: seq<Move>, e: Move, now: Tree)
    requires Underway(t, entries, now) && Listed(t, entries + [e])
    requires !now.Exists(e.dest) && now.CanMake(Parent(e.dest))
    ensures Landed(t, entries + [e])
  {
    var more, n := entries + [e], |entries|;
    ListedApart(t, entries, e);
    UnderwayFacts(t, entries, e, now);
    forall j | 0 <= j <= n ensures !(more[n].source <= more[j].dest) {
      NotAhead(t, entries, e, now, j);
    }
    forall j | 0 <= j < |more| && more[j].dest in t.files ensures VacatedBefore(more, j) {
      VacatedStill(t, entries, e, j);
    }
    DestsApart(t, entries, e, now);
    hide Leaves;
    hide Renamed;
    hide Listed;
    hide VacatedBefore;
    hide Tree.Valid;
  }

  lemma DestsApart(t: Tree, entries: seq<Move>, e: Move, now: Tree)
    requires Landed(t, entries) && e.dest !in t.dirs && e.dest !in now.files
    requires forall o | o in entries :: o.dest in now.files
    ensures forall i, j | 0 <= i < j < |entries + [e]| :: (entries + [e])[i].dest != (entries + [e])[j].dest
    ensures forall o | o in entries + [e] :: o.dest !in t.dirs
  {
    assert forall i | 0 <= i < |entries| :: entries[i] in entries;
  }

  lemma VacatedStill(t: Tree, entries: seq<Move>, e: Move, j: nat)
    requires Landed(t, entries) && j <= |entries|
    requires e.dest in t.files ==> Leaves(entries, 0, e.dest)
    requires (entries + [e])[j].dest in t.files
    ensures VacatedBefore(entries + [e], j)
  {
    var more := entries + [e];
    if j < |entries| {
      assert VacatedBefore(entries, j);
      var i :| 0 <= i < j && entries[i].source == entries[j].dest;
      assert more[i].source == more[j].dest;
    } else {
      var i :| 0 <= i < |entries| && entries[i].source == e.dest;
      assert more[i].source == more[j].dest;
    }
  }

  /** A file still to be moved has no destination at it or below it. */
  lemma NotAhead(t: Tree, entries: seq<Move>, e: Move, now: Tree, j: nat)
    requires now.Valid() && e.source in now.files && e.dest != [] && j <= |entries|
    requires forall o | o in entries :: o.dest in now.files && o.dest != []
    requires !now.Exists(e.dest) && now.CanMake(Parent(e.dest))
    requires j < |entries| ==> entries[j].dest != e.source
    ensures !(e.source <= (entries + [e])[j].dest)
  {
    var d := (entries + [e])[j].dest;
    if j < |entries| {
      assert entries[j] in entries && now.Exists(d) && now.Roots(d);
      AboveDirs(now, Parent(d));
    }
    InPrefixes(e.source, d);
  }

  /** One rename: onto a vacant path if it succeeds, and without effect on the
      files if it does not; either way only directories above it are made. */
  ghost predicate OneRenamed(before: Tree, now: Tree, e: Move, ok: bool) {
    && e.dest != [] && before.dirs <= now.dirs <= before.dirs + Prefixes(Parent(e.dest))
    && if ok then !before.Exists(e.dest) && before.CanMake(Parent(e.dest)) && e.source in before.files &&
                  now.files == before.Replaced(e.source, e.dest).files
       else now.files == before.files
  }

  lemma RenamedDirs(before: Tree, now: Tree, e: Move, ok: bool)
    requires OneRenamed(before, now, e, ok)
    ensures before.dirs <= now.dirs
  {
  }

  lemma TakeOne<T>(s: seq<T>, i: nat)
    requires i < |s|
    ensures s[..i + 1] == s[..i] + [s[i]]
  {
  }

  lemma TakeNone<T>(s: seq<T>)
    ensures s[..0] == []
  {
  }

  lemma TakePrefix<T>(s: seq<T>, i: nat)
    requires i <= |s|
    ensures s[..i] <= s && (i == |s| ==> s[..i] == s)
  {
  }

  lemma UnderwayValid(t: Tree, entries: seq<Move>, now: Tree)
    requires Underway(t, entries, now)
    ensures now.Valid()
  {
  }

  lemma UnderwayNone(t: Tree)
    requires t.Valid()
    ensures Underway(t, [], t)
  {
  }

  /** One more entry renamed, with the directories above its destination made. */
  lemma UnderwayGrows(t: Tree, entries: seq<Move>, e: Move, before: Tree, now: Tree)
    requires Underway(t, entries, before) && Listed(t, entries + [e])
    requires now.Valid() && OneRenamed(before, now, e, true)
    ensures Underway(t, entries + [e], now)
  {
    LandedGrows(t, entries, e, before);
    hide Landed;
    hide Listed;
    assert (entries + [e])[..|entries|] == entries;
    assert now.files == Renamed(t.files, entries + [e]);
    DirsGrow(t, entries, e, before, now);
  }

  lemma DirsGrow(t: Tree, entries: seq<Move>, e: Move, before: Tree, now: Tree)
    requires e.dest != [] && before.dirs <= now.dirs <= before.dirs + Prefixes(Parent(e.dest))
    requires t.dirs <= before.dirs && forall q | q in before.dirs :: q in t.dirs || MadeFor(entries, q)
    ensures t.dirs <= now.dirs && forall q | q in now.dirs :: q in t.dirs || MadeFor(entries + [e], q)
  {
    forall q | q in now.dirs ensures q in t.dirs || MadeFor(entries + [e], q) {
      if q in before.dirs && q !in t.dirs {
        var o :| o in entries && o.dest != [] && q in Prefixes(Parent(o.dest));
        assert o in entries + [e];
      } else if q !in t.dirs {
        assert e in entries + [e];
      }
    }
  }

  lemma ReadyToMove(t: Tree, entries: seq<Move>, i: nat, now: Tree)
    requires i < |entries| && Listed(t, entries) && Underway(t, entries[..i], now)
    ensures Listed(t, entries[..i] + [entries[i]]) && entries[i].source in now.files && entries[i].dest != []
  {
    var more := entries[..i] + [entries[i]];
    assert forall e | e in more :: e in entries;
    ListedApart(t, entries[..i], entries[i]);
    UnderwayFacts(t, entries[..i], entries[i], now);
  }

  /** The files after renaming `done`, and no directory that was not there or
      made for some entry of the batch. */
  ghost predicate LandedIn(t: Tree, entries: seq<Move>, done: seq<Move>, now: Tree) {
    && Landed(t, done) && now.files == Renamed(t.files, done)
    && forall q | q in now.dirs :: q in t.dirs || MadeFor(entries, q)
  }

  lemma UnderwayEnds(t: Tree, entries: seq<Move>, now: Tree)
    requires Underway(t, entries, now)
    ensures LandedIn(t, entries, entries, now)
  {
  }

  lemma UnderwayDirs(t: Tree, entries: seq<Move>, i: nat, before: Tree, now: Tree)
    requires i < |entries| && Underway(t, entries[..i], before) && entries[i].dest != []
    requires OneRenamed(before, now, entries[i], false)
    ensures LandedIn(t, entries, entries[..i], now)
  {
    DirsGrow(t, entries[..i], entries[i], before, now);
    var some := entries[..i] + [entries[i]];
    forall q | MadeFor(some, q) ensures MadeFor(entries, q) {
      var e :| e in some && e.dest != [] && q in Prefixes(Parent(e.dest));
      assert e in entries;
    }
  }

  // ---- Rolling a batch back ----

  lemma BackValid(t: Tree, e: Move)
    requires t.Valid()
    ensures Back(t, e).Valid()
  {
    if Back(t, e) != t {
      MakingKeepsValid(t, Parent(e.source));
      InPrefixes(Parent(e.source), Parent(e.source));
      NotAbove(e.source);
      RenameKeepsValid(t.Made(Parent(e.source)), e.dest, e.source);
    }
  }

  lemma {:induction false} MakingKeepsValid(t: Tree, p: Path)
    requires t.Valid() && t.CanMake(p)
    ensures t.Made(p).Valid()
  {
    if p == [] {
      assert t.Made(p) == t;
    } else {
      MakingKeepsValid(t, Parent(p));
      InPrefixes(Parent(p), Parent(p));
      OneMoreDir(t.Made(Parent(p)), p);
      assert t.Made(p) == t.Made(Parent(p)).(dirs := t.Made(Parent(p)).dirs + {p});
    }
  }

  /** Part of a batch is rolled back, and nothing is in the way of the rest. */
  ghost predicate HalfBack(t: Tree, entries: seq<Move>, k: nat, now: Tree) {
    now.Valid() && HalfMoved(t, entries, k, now.files) && forall e | e in entries :: e.source !in now.dirs
  }

  /** What a clear batch that landed says about one of its entries. */
  lemma ClearEntry(t: Tree, entries: seq<Move>, k: nat)
    requires t.Valid() && Landed(t, entries) && Clear(entries, entries) && k < |entries|
    ensures entries[k].dest !in t.files && entries[k].source in t.files && entries[k].source != [] &&
              entries[k].dest != []
    ensures forall i | 0 <= i < |entries| :: entries[i].dest != entries[k].source
    ensures forall q | q in Prefixes(Parent(entries[k].source)) :: q in t.dirs
    ensures forall i | 0 <= i < |entries| && i != k ::
              entries[i].dest != entries[k].dest && entries[i].source != entries[k].source
  {
    var e := entries[k];
    assert e in entries;
    forall i | 0 <= i < |entries| ensures entries[i].dest != e.source && entries[i].source != e.dest {
      assert entries[i] in entries && !(e.source <= entries[i].dest) && !(entries[i].source <= e.dest);
    }
    assert e.dest in t.files ==> VacatedBefore(entries, k);
    assert t.Exists(e.source) && t.Roots(e.source);
    AboveDirs(t, Parent(e.source));
  }

  /** What is left and arrived at from one entry later. */
  lemma OneLess(entries: seq<Move>, k: nat)
    requires k < |entries|
    requires forall i | 0 <= i < |entries| && i != k ::
               entries[i].dest != entries[k].dest && entries[i].source != entries[k].source
    ensures forall p :: Leaves(entries, k + 1, p) <==> Leaves(entries, k, p) && p != entries[k].source
    ensures forall p :: Arrives(entries, k + 1, p) <==> Arrives(entries, k, p) && p != entries[k].dest
  {
    forall p | Leaves(entries, k, p) && p != entries[k].source ensures Leaves(entries, k + 1, p) {
      var i :| 0 <= i < |entries| && k <= i && entries[i].source == p;
    }
    forall p | Arrives(entries, k, p) && p != entries[k].dest ensures Arrives(entries, k + 1, p) {
      var i :| 0 <= i < |entries| && k <= i && entries[i].dest == p;
    }
  }

  lemma BackMoves(t: Tree, entries: seq<Move>, k: nat, now: Tree)
    requires t.Valid() && Landed(t, entries) && Clear(entries, entries) && k < |entries| && HalfBack(t, entries, k, now)
    ensures var e := entries[k];
            && e.source != [] && e.dest in now.files && now.files[e.dest] == t.files[e.source]
            && Back(now, e) == now.Made(Parent(e.source)).Replaced(e.dest, e.source)
  {
    var e := entries[k];
    ClearEntry(t, entries, k);
    assert e in entries && Leaves(entries, k, e.source);
    assert e.source !in now.files;
    forall q | q in Prefixes(Parent(e.source)) ensures q !in now.files {
      assert forall i | 0 <= i < |entries| :: entries[i] in entries && entries[i].dest !in t.dirs;
    }
  }

  lemma FilesBack(t: Tree, entries: seq<Move>, k: nat, f: map<Path, string>)
    requires t.Valid() && Landed(t, entries) && Clear(entries, entries) && k < |entries| && HalfMoved(t, entries, k, f)
    requires entries[k].dest in f && f[entries[k].dest] == t.files[entries[k].source]
    ensures HalfMoved(t, entries, k + 1, (f - {entries[k].dest})[entries[k].source := f[entries[k].dest]])
  {
    ClearEntry(t, entries, k);
    OneLess(entries, k);
    hide *;
    HalfMovedParts(t, entries, k, f);
    var e := entries[k];
    var after := (f - {e.dest})[e.source := f[e.dest]];
    UntouchedBack(t, entries, k, f);
    CarriedBack(t, entries, k, f);
    NothingElseBack(t, entries, k, f);
    HalfMovedParts(t, entries, k + 1, after);
  }

  lemma HalfMovedParts(t: Tree, entries: seq<Move>, k: nat, f: map<Path, string>)
    ensures HalfMoved(t, entries, k, f) <==>
              Untouched(t, entries, k, f) && Carried(t, entries, k, f) && NothingElse(t, entries, k, f)
  {
  }

  lemma UntouchedBack(t: Tree, entries: seq<Move>, k: nat, f: map<Path, string>)
    requires k < |entries| && Untouched(t, entries, k, f) && entries[k].dest !in t.files
    requires entries[k].dest in f && entries[k].source in t.files && f[entries[k].dest] == t.files[entries[k].source]
    requires forall p :: Leaves(entries, k + 1, p) <==> Leaves(entries, k, p) && p != entries[k].source
    ensures Untouched(t, entries, k + 1, (f - {entries[k].dest})[entries[k].source := f[entries[k].dest]])
  {
    hide Leaves;
  }

  lemma CarriedBack(t: Tree, entries: seq<Move>, k: nat, f: map<Path, string>)
    requires k < |entries| && Carried(t, entries, k, f) && entries[k].dest in f
    requires forall i | 0 <= i < |entries| && i != k ::
               entries[i].dest != entries[k].dest && entries[i].source != entries[k].source
    requires forall i | 0 <= i < |entries| :: entries[i].dest != entries[k].source
    ensures Carried(t, entries, k + 1, (f - {entries[k].dest})[entries[k].source := f[entries[k].dest]])
  {
  }

  lemma NothingElseBack(t: Tree, entries: seq<Move>, k: nat, f: map<Path, string>)
    requires k < |entries| && NothingElse(t, entries, k, f) && entries[k].dest in f && entries[k].source in t.files
    requires forall p :: Leaves(entries, k + 1, p) <==> Leaves(entries, k, p) && p != entries[k].source
    requires forall p :: Arrives(entries, k + 1, p) <==> Arrives(entries, k, p) && p != entries[k].dest
    ensures NothingElse(t, entries, k + 1, (f - {entries[k].dest})[entries[k].source := f[entries[k].dest]])
  {
    hide Leaves;
    hide Arrives;
    var after := (f - {entries[k].dest})[entries[k].source := f[entries[k].dest]];
    forall p | p in after ensures (p in t.files && !Leaves(entries, k + 1, p)) || Arrives(entries, k + 1, p) {
      if p != entries[k].source {
        assert p in f && p != entries[k].dest;
        assert (p in t.files && !Leaves(entries, k, p)) || Arrives(entries, k, p);
      }
    }
  }

  lemma BackStep(t: Tree, entries: seq<Move>, k: nat, now: Tree)
    requires t.Valid() && Landed(t, entries) && Clear(entries, entries) && k < |entries| && HalfBack(t, entries, k, now)
    ensures HalfBack(t, entries, k + 1, Back(now, entries[k]))
  {
    BackMoves(t, entries, k, now);
    BackValid(now, entries[k]);
    FilesBack(t, entries, k, now.files);
    ClearEntry(t, entries, k);
    hide HalfMoved;
    forall e | e in entries ensures e.source !in Back(now, entries[k]).dirs {
      assert e.source in t.files;
    }
  }

  lemma {:induction false} BackTo(t: Tree, entries: seq<Move>, k: nat, t1: Tree)
    requires t.Valid() && Landed(t, entries) && Clear(entries, entries) && k <= |entries| && HalfBack(t, entries, 0, t1)
    ensures HalfBack(t, entries, k, RolledBack(t1, entries[..k]))
  {
    hide HalfBack;
    if k > 0 {
      assert entries[..k][..k - 1] == entries[..k - 1];
      BackTo(t, entries, k - 1, t1);
      BackStep(t, entries, k - 1, RolledBack(t1, entries[..k - 1]));
    }
  }

  /** Rolling back a clear batch restores every file, and only those. */
  lemma RollbackRestores(t: Tree, entries: seq<Move>, t1: Tree)
    requires t.Valid() && Landed(t, entries) && Clear(entries, entries)
    requires t1.Valid() && t1.files == Renamed(t.files, entries) && forall e | e in entries :: e.source !in t1.dirs
    ensures RolledBack(t1, entries).files == t.files
  {
    RenamedAt(t, entries);
    assert HalfBack(t, entries, 0, t1);
    hide Renamed;
    hide Landed;
    hide Clear;
    hide HalfBack;
    BackTo(t, entries, |entries|, t1);
    TakePrefix(entries, |entries|);
    hide *;
    AllBack(t, entries, RolledBack(t1, entries));
  }

  lemma AllBack(t: Tree, entries: seq<Move>, now: Tree)
    requires HalfBack(t, entries, |entries|, now)
    ensures now.files == t.files
  {
    assert forall p :: !Leaves(entries, |entries|, p) && !Arrives(entries, |entries|, p);
  }

  /** If a destination lies at or below a path some entry left, some entry's own
      destination is new, and its old path is not free again. */
  lemma {:induction false} FirstBlocked(t: Tree, entries: seq<Move>, i: nat, j: nat) returns (m: nat, o: nat)
    requires Landed(t, entries) && i < |entries| && j < |entries| && entries[i].source <= entries[j].dest
    ensures m < o < |entries| && entries[m].source <= entries[o].dest && entries[m].dest !in t.files
    decreases i
  {
    if entries[i].dest in t.files {
      assert VacatedBefore(entries, i);
      var h :| 0 <= h < i && entries[h].source == entries[i].dest;
      m, o := FirstBlocked(t, entries, h, i);
    } else {
      m, o := i, j;
    }
  }

  lemma {:induction false} StaysPut(t1: Tree, entries: seq<Move>, i: nat, j: nat, k: nat)
    requires t1.Valid() && i < j < |entries| && k <= |entries| && entries[i].source <= entries[j].dest
    requires forall a, b | 0 <= a < b < |entries| :: entries[a].dest != entries[b].dest
    requires forall a | 0 <= a < |entries| :: entries[a].dest in t1.files
    ensures RolledBack(t1, entries[..k]).Valid()
    ensures forall a | 0 <= a < |entries| && (k <= a || a == i) :: entries[a].dest in RolledBack(t1, entries[..k]).files
  {
    if k > 0 {
      assert entries[..k][..k - 1] == entries[..k - 1];
      StaysPut(t1, entries, i, j, k - 1);
      var was := RolledBack(t1, entries[..k - 1]);
      BackValid(was, entries[k - 1]);
      if k - 1 == i {
        IsInTheWay(was, entries[i].source, entries[j].dest);
      }
    }
  }

  lemma IsInTheWay(t: Tree, p: Path, below: Path)
    requires t.Valid() && p <= below && below in t.files
    ensures t.Exists(p)
  {
    if p != below {
      assert t.Exists(below) && t.Roots(below);
      AboveDirs(t, Parent(below));
      InPrefixes(p, below);
    }
  }

  lemma RollbackStrands(t: Tree, entries: seq<Move>, t1: Tree)
    requires t.Valid() && Landed(t, entries) && !Clear(entries, entries)
    requires t1.Valid() && t1.files == Renamed(t.files, entries)
    ensures RolledBack(t1, entries).files != t.files
  {
    RenamedAt(t, entries);
    var e, o :| e in entries && o in entries && e.source <= o.dest;
    var i :| 0 <= i < |entries| && entries[i] == e;
    var j :| 0 <= j < |entries| && entries[j] == o;
    var m, n := FirstBlocked(t, entries, i, j);
    StaysPut(t1, entries, m, n, |entries|);
    TakePrefix(entries, |entries|);
    assert entries[m].dest in RolledBack(t1, entries).files;
  }

  /** Rolling back makes directories and removes none. */
  lemma {:induction false} DirsStay(t1: Tree, entries: seq<Move>)
    requires t1.Valid()
    ensures RolledBack(t1, entries).Valid() && t1.dirs <= RolledBack(t1, entries).dirs
    decreases |entries|
  {
    if entries != [] {
      var n := |entries| - 1;
      DirsStay(t1, entries[..n]);
      BackValid(RolledBack(t1, entries[..n]), entries[n]);
    }
  }

  /** Rolling back everything that landed restores the files exactly if no
      destination is at or below a path that an entry left, and no directory has
      taken the place of one. */
  lemma RollbackIff(t: Tree, done: seq<Move>, t1: Tree)
    requires t.Valid() && t1.Valid() && Landed(t, done) && t1.files == Renamed(t.files, done)
    ensures RolledBack(t1, done).files == t.files <==>
              Clear(done, done) && forall e | e in done :: e.source !in t1.dirs
  {
    DirsStay(t1, done);
    if !Clear(done, done) {
      RollbackStrands(t, done, t1);
    } else if forall e | e in done :: e.source !in t1.dirs {
      RollbackRestores(t, done, t1);
    }
  }

  /** If no destination existed beforehand, only one strictly below a path that
      was left, or a directory in the place of one, keeps a file from coming back. */
  lemma GuardedRollback(t: Tree, done: seq<Move>, t1: Tree)
    requires t.Valid() && t1.Valid() && Landed(t, done) && t1.files == Renamed(t.files, done)
    requires forall e | e in done :: !t.Exists(e.dest)
    ensures RolledBack(t1, done).files == t.files <==>
              (forall e, o | e in done && o in done :: !(e.source < o.dest)) &&
              forall e | e in done :: e.source !in t1.dirs
  {
    RollbackIff(t, done, t1);
    ClearWhenGuarded(t, done);
    hide *;
  }

  lemma ClearWhenGuarded(t: Tree, done: seq<Move>)
    requires Landed(t, done) && forall e | e in done :: !t.Exists(e.dest)
    ensures Clear(done, done) <==> forall e, o | e in done && o in done :: !(e.source < o.dest)
  {
    assert forall e | e in done :: e.source in t.files;
    hide VacatedBefore;
    forall e, o | e in done && o in done ensures e.source < o.dest <==> e.source <= o.dest {
      assert e.source != o.dest;
    }
  }

  /** When every directory made was made for an entry that landed, a clear batch
      has the places of its sources free. */
  lemma OwnDirsAreApart(t: Tree, done: seq<Move>, t1: Tree)
    requires t.Valid() && LandedIn(t, done, done, t1) && Clear(done, done)
    ensures forall e | e in done :: e.source !in t1.dirs
  {
    forall e | e in done ensures e.source !in t1.dirs {
      SourceNotMade(t, done, done, e);
    }
  }

  /** A clear batch has the places of the sources that were left free, whatever
      stopped it. */
  lemma ClearBatchIsApart(t: Tree, entries: seq<Move>, done: seq<Move>, t1: Tree)
    requires t.Valid() && done <= entries && LandedIn(t, entries, done, t1) && Clear(entries, entries)
    ensures Clear(done, done) && forall e | e in done :: e.source !in t1.dirs
  {
    assert forall e | e in done :: e in entries;
    forall e | e in done ensures e.source !in t1.dirs {
      SourceNotMade(t, entries, done, e);
    }
  }

  lemma SourceNotMade(t: Tree, entries: seq<Move>, done: seq<Move>, e: Move)
    requires t.Valid() && Landed(t, done) && Clear(done, entries) && e in done
    ensures e.source !in t.dirs && !MadeFor(entries, e.source)
  {
    forall o | o in entries && o.dest != [] ensures e.source !in Prefixes(Parent(o.dest)) {
      InPrefixes(e.source, Parent(o.dest));
      assert e.source <= Parent(o.dest) ==> e.source <= o.dest;
    }
  }

  /** A batch need not be clear to land, though no destination exists beforehand:
      the second index goes below the place that the first one left, and rolling
      back leaves the first at its destination. */
  lemma UnclearBatchLands()
    ensures var first, second := ["a", INDEX], ["b", INDEX];
            var t := Tree(map[first := "1", second := "2"], {[], ["a"], ["b"]});
            var batch := [Move(first, ["c", INDEX]), Move(second, ["a", INDEX, INDEX])];
            var t1 := Tree(map[["c", INDEX] := "1", ["a", INDEX, INDEX] := "2"], {[], ["a"], ["b"], ["c"], first});
            && t.Valid() && (forall e | e in batch :: !t.Exists(e.dest)) && Landed(t, batch) && !Clear(batch, batch)
            && LandedIn(t, batch, batch, t1) && RolledBack(t1, batch).files != t.files
  {
    var t := Tree(map[["a", INDEX] := "1", ["b", INDEX] := "2"], {[], ["a"], ["b"]});
    var e, o := Move(["a", INDEX], ["c", INDEX]), Move(["b", INDEX], ["a", INDEX, INDEX]);
    var t1 := Tree(map[e.dest := "1", o.dest := "2"], {[], ["a"], ["b"], ["c"], e.source});
    assert e.source[0] == "a" && e.dest[0] == "c" && o.source[0] == "b" && o.dest[0] == "a" && |o.dest| == 3;
    assert Parent(e.source) == ["a"] && Parent(o.source) == ["b"] && Parent(e.dest) == ["c"] &&
        Parent(o.dest) == e.source;
    assert Parent(["a"]) == Parent(["b"]) == Parent(["c"]) == [];
    PairLands(t, e, o);
    assert t1.files == RenamedPair(t.files, e, o);
    PairStrands(t, e, o, t1);
  }

  function RenamedPair(files: map<Path, string>, e: Move, o: Move): map<Path, string>
    requires e.source in files && o.source in files && o.source != e.source
  {
    files - {e.source, o.source} + map[e.dest := files[e.source], o.dest := files[o.source]]
  }

  /** Two entries with new, different destinations that no source still to be moved is above. */
  lemma PairLands(t: Tree, e: Move, o: Move)
    requires e.source in t.files && o.source in t.files && e.source != o.source && e.source != [] && o.source != []
    requires !t.Exists(e.dest) && !t.Exists(o.dest) && e.dest != o.dest && e.dest != [] && o.dest != []
    requires !(e.source <= e.dest) && !(o.source <= o.dest) && !(o.source <= e.dest)
    ensures Landed(t, [e, o]) && Renamed(t.files, [e, o]) == RenamedPair(t.files, e, o)
  {
    assert [e, o][..1] == [e] && [e][..0] == [];
    assert Renamed(t.files, [e]) == (t.files - {e.source})[e.dest := t.files[e.source]];
  }

  lemma PairStrands(t: Tree, e: Move, o: Move, t1: Tree)
    requires t.Valid() && Landed(t, [e, o]) && e.source < o.dest && e.dest != [] && o.dest != []
    requires t1.Valid() && t1.files == Renamed(t.files, [e, o])
    requires t1.dirs == t.dirs + {Parent(e.dest), Parent(o.dest)}
    ensures LandedIn(t, [e, o], [e, o], t1) && !Clear([e, o], [e, o]) && RolledBack(t1, [e, o]).files != t.files
  {
    var batch := [e, o];
    assert e in batch && o in batch && e.source <= o.dest;
    InPrefixes(Parent(e.dest), Parent(e.dest));
    InPrefixes(Parent(o.dest), Parent(o.dest));
    assert MadeFor(batch, Parent(e.dest)) && MadeFor(batch, Parent(o.dest));
    RollbackStrands(t, batch, t1);
  }

  /** Why a rename cannot even be tried: its destination exists, or a file
      stands where a directory above it belongs. */
  predicate Stuck(t: Tree, e: Move) {
    e.dest != [] ==> t.Exists(e.dest) || !t.CanMake(Parent(e.dest))
  }

  /** How carrying the reserved members ended: with them in place, or undone
      because a rename failed or because the repair of references was refused. */
  datatype Outcome = Carried(pruned: set<Path>) | Failed | Refused

  lemma OneLessDir(t: Tree, p: Path)
    requires t.Valid() && p != [] && t.Empty(p)
    ensures t.(dirs := t.dirs - {p}).Valid()
  {
    var after := t.(dirs := t.dirs - {p});
    forall q | after.Exists(q) ensures after.Roots(q) {
      assert t.Exists(q) && t.Roots(q) && q in t.files.Keys + t.dirs;
      assert q != [] && Parent(q) == p ==> p <= q && p != q;
    }
  }

  lemma ListedSources(t: Tree, entries: seq<Move>)
    requires Listed(t, entries)
    ensures forall e | e in entries :: e.source != []
  {
  }

  lemma RenamedOutcome(t: Tree, entries: seq<Move>, done: seq<Move>, now: Tree)
    requires Listed(t, entries) && done <= entries && LandedIn(t, entries, done, now)
    ensures Landed(t, done) && now.files == Renamed(t.files, done) && forall e | e in done :: e.source != []
    ensures Clear(done, entries) ==> Clear(done, done)
  {
    assert forall e | e in done :: e in entries;
  }

  /** Something is below the path. */
  predicate Occupied(t: Tree, p: Path) {
    exists q | q in t.files.Keys + t.dirs :: p < q
  }

  /** No directory above the path, short of the root, is empty. */
  predicate TidyAbove(t: Tree, source: Path) {
    forall p | p in t.dirs && p != [] && p < source :: Occupied(t, p)
  }

  lemma AllAbove(t: Tree, p: Path)
    requires t.Valid() && p in t.dirs
    ensures forall q | q <= p :: q in t.dirs
  {
    AboveDirs(t, p);
    forall q | q <= p ensures q in t.dirs {
      InPrefixes(q, p);
    }
  }

  predicate WentWith(entries: seq<Move>, p: Path) {
    exists e | e in entries :: p < e.source
  }

  /** While pruning at `directory`: what is still to do is that directory and,
      for the entry being pruned above, everything over it. */
  predicate TidyBut(t: Tree, source: Path, directory: Path, current: bool) {
    forall p | p in t.dirs && p != [] && p < source && (if current then !(p <= directory) else p != directory) ::
      Occupied(t, p)
  }

  lemma PrefixSplit(p: Path, d: Path)
    requires d != []
    ensures p <= d <==> p == d || p <= Parent(d)
  {
    assert p <= d && p != d ==> p == Parent(d)[..|p|];
  }

  /** Removing an empty directory leaves only its parent to look at. */
  lemma StillTidy(t: Tree, source: Path, d: Path)
    requires t.Valid() && d != [] && d in t.dirs && d < source && TidyBut(t, source, d, true)
    ensures TidyBut(t.(dirs := t.dirs - {d}), source, Parent(d), true)
  {
    var after := t.(dirs := t.dirs - {d});
    assert t.Exists(d) && t.Roots(d);
    forall p | p in after.dirs && p != [] && p < source && !(p <= Parent(d)) ensures Occupied(after, p) {
      PrefixSplit(p, d);
      var q :| q in t.files.Keys + t.dirs && p < q;
      assert q in after.files.Keys + after.dirs;
    }
  }

  lemma OtherTidy(t: Tree, source: Path, d: Path)
    requires t.Valid() && d != [] && d in t.dirs && TidyBut(t, source, d, false)
    ensures TidyBut(t.(dirs := t.dirs - {d}), source, Parent(d), false)
  {
    var after := t.(dirs := t.dirs - {d});
    assert t.Exists(d) && t.Roots(d);
    forall p | p in after.dirs && p != [] && p < source && p != Parent(d) ensures Occupied(after, p) {
      var q :| q in t.files.Keys + t.dirs && p < q;
      if q == d {
        assert p < Parent(d) && Parent(d) in after.files.Keys + after.dirs;
      } else {
        assert q in after.files.Keys + after.dirs;
      }
    }
  }

  /** Where the climb stops nothing above is empty: something is in the directory,
      or it went with another entry, whose climb has been above it. */
  lemma StopsTidy(t: Tree, source: Path, others: seq<Move>, d: Path)
    requires d < source && TidyBut(t, source, d, true) && forall e | e in others :: TidyBut(t, e.source, d, false)
    requires if d in t.dirs then Occupied(t, d) else WentWith(others, d)
    ensures TidyAbove(t, source) && forall e | e in others :: TidyAbove(t, e.source)
  {
    forall p | p in t.dirs && p != [] && p < source ensures Occupied(t, p) {
      if p < d {
        if d in t.dirs {
          assert d in t.files.Keys + t.dirs;
        } else {
          var e :| e in others && d < e.source;
          assert TidyBut(t, e.source, d, false);
        }
      }
    }
    forall e | e in others ensures TidyAbove(t, e.source) {
      assert TidyBut(t, e.source, d, false);
    }
  }

  /** The directories that held the members are still there once all have landed. */
  lemma SourcesHadParents(t: Tree, entries: seq<Move>, now: Tree)
    requires t.Valid() && Listed(t, entries) && t.dirs <= now.dirs
    ensures forall e | e in entries :: Parent(e.source) in now.dirs
  {
    assert forall e | e in entries :: t.Exists(e.source) && t.Roots(e.source);
  }

  class FileTree {
    var tree: Tree

    /** Makes a directory and its parents.  A file in the way makes it fail, and
        unless it is left `alone` so may anything, some parents having been made. */
    method MakeDirs(p: Path, alone: bool) returns (ok: bool)
      requires tree.Valid()
      modifies this
      ensures tree.Valid() && tree.files == old(tree.files)
      ensures old(tree.dirs) <= tree.dirs <= old(tree.dirs) + Prefixes(p)
      ensures ok ==> old(tree).CanMake(p) && tree == old(tree).Made(p)
      ensures !ok && alone ==> !old(tree).CanMake(p) && tree == old(tree)
      decreases |p|
    {
      if p in tree.dirs {
        AboveDirs(tree, p);
        return true;
      }
      if p in tree.files {
        InPrefixes(p, p);
        return false;
      }
      ok := MakeDirs(Parent(p), alone);
      if !ok {
        return;
      }
      var denied: bool := *;
      if denied && !alone {
        return false;
      }
      InPrefixes(Parent(p), Parent(p));
      OneMoreDir(tree, p);
      tree := tree.(dirs := tree.dirs + {p});
    }

    /** Renames a file.  A missing directory or one in the way stops it, and unless
        it is left alone anything may; a file in the way does not. */
    method Replace(source: Path, dest: Path, alone: bool) returns (ok: bool)
      requires tree.Valid() && source in tree.files && dest != []
      modifies this
      ensures tree.Valid()
      ensures ok ==> dest !in old(tree).dirs && tree == old(tree).Replaced(source, dest)
      ensures !ok ==> tree == old(tree)
      ensures !ok && alone ==> dest in old(tree).dirs || Parent(dest) !in old(tree).dirs
    {
      if dest in tree.dirs || Parent(dest) !in tree.dirs {
        return false;
      }
      var denied: bool := *;
      if denied && !alone {
        return false;
      }
      RenameKeepsValid(tree, source, dest);
      tree := tree.Replaced(source, dest);
      return true;
    }

    /** Moves one member back unless something is in its place. */
    method UnrenameOne(e: Move, alone: bool, ghost start: map<Path, string>)
      requires tree.Valid() && e.source != [] && Conserves(start, tree.files)
      modifies this
      ensures tree.Valid() && Conserves(start, tree.files)
      ensures alone ==> tree == Back(old(tree), e)
    {
      hide Conserves;
      if e.dest in tree.files && !tree.Exists(e.source) {
        InPrefixes(Parent(e.source), Parent(e.source));
        var made := MakeDirs(Parent(e.source), alone);
        if made {
          ghost var ready := tree;
          var moved := Replace(e.dest, e.source, alone);
          if moved {
            ConservesRename(start, ready.files, e.dest, e.source);
          }
          NotAbove(e.source);
        }
      }
    }

    /** Moves each member back, leaving those that cannot be. */
    method UnrenameReserved(entries: seq<Move>, alone: bool, ghost start: map<Path, string>)
      requires tree.Valid() && Conserves(start, tree.files) && forall e | e in entries :: e.source != []
      modifies this
      ensures tree.Valid() && Conserves(start, tree.files)
      ensures alone ==> tree == RolledBack(old(tree), entries)
    {
      hide Conserves;
      for i := 0 to |entries|
        invariant tree.Valid() && Conserves(start, tree.files)
        invariant alone ==> tree == RolledBack(old(tree), entries[..i])
      {
        assert entries[..i + 1][..i] == entries[..i];
        UnrenameOne(entries[i], alone, start);
      }
      assert entries[..|entries|] == entries;
    }

    /** Renames one member, refusing if anything is at the destination. */
    method RenameOne(e: Move, alone: bool, ghost start: map<Path, string>) returns (ok: bool)
      requires tree.Valid() && e.source in tree.files && e.dest != [] && Conserves(start, tree.files)
      modifies this
      ensures tree.Valid() && Conserves(start, tree.files)
      ensures OneRenamed(old(tree), tree, e, ok)
      ensures !ok && alone ==> tree == old(tree) && Stuck(tree, e)
    {
      hide Conserves;
      if tree.Exists(e.dest) {
        return false;
      }
      InPrefixes(Parent(e.dest), Parent(e.dest));
      NotAbove(e.dest);
      ok := MakeDirs(Parent(e.dest), alone);
      if !ok {
        return;
      }
      ghost var ready := tree;
      ok := Replace(e.source, e.dest, alone);
      if ok {
        ConservesRename(start, ready.files, e.source, e.dest);
      }
    }

    /** Takes a batch one entry further. */
    method RenameNext(entries: seq<Move>, i: nat, alone: bool, ghost start: Tree) returns (ok: bool)
      requires i < |entries| && Listed(start, entries) && Underway(start, entries[..i], tree)
      requires Conserves(start.files, tree.files)
      modifies this
      ensures Conserves(start.files, tree.files) && tree.Valid()
      ensures if ok then Underway(start, entries[..i + 1], tree) else LandedIn(start, entries, entries[..i], tree)
      ensures !ok && alone ==> Underway(start, entries[..i], tree) && Stuck(tree, entries[i])
      ensures old(tree).dirs <= tree.dirs
    {
      ghost var before := tree;
      UnderwayValid(start, entries[..i], tree);
      ReadyToMove(start, entries, i, tree);
      hide *;
      ok := RenameOne(entries[i], alone, start.files);
      RenamedDirs(before, tree, entries[i], ok);
      if ok {
        UnderwayGrows(start, entries[..i], entries[i], before, tree);
        TakeOne(entries, i);
      } else {
        UnderwayDirs(start, entries, i, before, tree);
      }
    }

    /** Renames each reserved member in turn, up to the first that fails.  Left
        alone, that one could not be tried, and every directory made was made for a
        member that was renamed. */
    method RenameReserved(entries: seq<Move>, alone: bool) returns (done: seq<Move>)
      requires tree.Valid() && Listed(tree, entries)
      modifies this
      ensures tree.Valid() && Conserves(old(tree).files, tree.files)
      ensures done <= entries && LandedIn(old(tree), entries, done, tree)
      ensures alone ==> LandedIn(old(tree), done, done, tree)
      ensures done != entries && alone ==> Stuck(tree, entries[|done|])
      ensures old(tree).dirs <= tree.dirs
    {
      var i := 0;
      ConservesSelf(tree.files);
      UnderwayNone(tree);
      TakeNone(entries);
      hide *;
      while i < |entries|
        invariant i <= |entries|
        invariant Conserves(old(tree).files, tree.files) && tree.Valid()
        invariant Underway(old(tree), entries[..i], tree) && old(tree).dirs <= tree.dirs
      {
        var ok := RenameNext(entries, i, alone, old(tree));
        if !ok {
          TakePrefix(entries, i);
          if alone {
            UnderwayEnds(old(tree), entries[..i], tree);
          }
          return entries[..i];
        }
        i := i + 1;
      }
      TakePrefix(entries, i);
      UnderwayEnds(old(tree), entries[..i], tree);
      return entries[..i];
    }

    /** Removes an empty directory; unless left alone, it may be kept. */
    method RemoveDir(p: Path, alone: bool) returns (ok: bool)
      requires tree.Valid() && p != []
      modifies this
      ensures tree.Valid()
      ensures tree == if ok then old(tree).(dirs := old(tree).dirs - {p}) else old(tree)
      ensures ok ==> p in old(tree).dirs && !Occupied(old(tree), p)
      ensures !ok && alone ==> p !in old(tree).dirs || Occupied(old(tree), p)
    {
      if p !in tree.dirs || !tree.Empty(p) {
        return false;
      }
      var kept: bool := *;
      if kept && !alone {
        return false;
      }
      OneLessDir(tree, p);
      tree := tree.(dirs := tree.dirs - {p});
      return true;
    }

    /** Removes what the moves emptied, from the innermost directory outwards:
        only empty directories above the sources, and left alone, it leaves no
        such directory empty. */
    method Prune(entries: seq<Move>, alone: bool) returns (pruned: set<Path>)
      requires tree.Valid() && forall e | e in entries :: e.source != []
      modifies this
      ensures tree.Valid() && tree == old(tree).(dirs := old(tree).dirs - pruned)
      ensures pruned <= old(tree).dirs && forall p | p in pruned :: exists e | e in entries :: p < e.source && p != []
      ensures alone && (forall e | e in entries :: Parent(e.source) in old(tree).dirs) ==>
                forall e | e in entries :: TidyAbove(tree, e.source)
    {
      pruned := {};
      ghost var known := alone && forall e | e in entries :: Parent(e.source) in tree.dirs;
      var i := |entries|;
      while i > 0
        invariant 0 <= i <= |entries|
        invariant tree.Valid() && tree == old(tree).(dirs := old(tree).dirs - pruned)
        invariant pruned <= old(tree).dirs
        invariant forall p | p in pruned :: exists e | e in entries[i..] :: p < e.source && p != []
        invariant known ==> forall e | e in entries[i..] :: TidyAbove(tree, e.source)
      {
        i := i - 1;
        assert entries[i..] == [entries[i]] + entries[i + 1..];
        var directory := Parent(entries[i].source);
        var going := true;
        if known {
          assert entries[i] in entries;
          AllAbove(old(tree), directory);
        }
        while going && directory != []
          invariant tree.Valid() && tree == old(tree).(dirs := old(tree).dirs - pruned)
          invariant directory < entries[i].source
          invariant pruned <= old(tree).dirs
          invariant forall p | p in pruned :: exists e | e in entries[i..] :: p < e.source && p != []
          invariant going ==> forall p | p in pruned && !(directory < p) :: WentWith(entries[i + 1..], p)
          invariant known && going ==> TidyBut(tree, entries[i].source, directory, true)
          invariant known && going ==>
                      forall e | e in entries[i + 1..] :: TidyBut(tree, e.source, directory, false)
          invariant known && !going ==> forall e | e in entries[i..] :: TidyAbove(tree, e.source)
          decreases |directory|, going
        {
          ghost var before := tree;
          going := RemoveDir(directory, alone);
          if going {
            if known {
              StillTidy(before, entries[i].source, directory);
              forall e | e in entries[i + 1..] ensures TidyBut(tree, e.source, Parent(directory), false) {
                OtherTidy(before, e.source, directory);
              }
            }
            pruned := pruned + {directory};
            directory := Parent(directory);
          } else if known {
            StopsTidy(tree, entries[i].source, entries[i + 1..], directory);
            assert forall e | e in entries[i..] :: e == entries[i] || e in entries[i + 1..];
          }
        }
        assert going ==> forall e | e in entries[i..] :: e == entries[i] || e in entries[i + 1..];
      }
      assert entries[0..] == entries;
    }

    /** The reserved half of a move: rename, prune, and repair, or roll back.  No
        outcome loses, overwrites or invents a file.  If the rollback is left alone
        (`aloneBack`) with the tree it starts from (`undone`), the files of an
        undone batch are as before exactly if no landed destination is at or below
        a path an entry left and no directory has taken the place of one; the
        second cannot be if the renaming was left alone too (`alone`), nor if no
        destination of the whole batch is at or below one of its sources. */
    method CarryReserved(entries: seq<Move>, repairOk: bool, alone: bool, aloneBack: bool)
      returns (outcome: Outcome, done: seq<Move>, ghost undone: Tree)
      requires tree.Valid() && Listed(tree, entries)
      modifies this
      ensures tree.Valid() && Conserves(old(tree).files, tree.files)
      ensures done <= entries && LandedIn(old(tree), entries, done, undone) && undone.Valid()
      ensures outcome.Carried? <==> done == entries && repairOk
      ensures outcome.Refused? <==> done == entries && !repairOk
      ensures outcome.Failed? && alone ==> LandedIn(old(tree), done, done, undone) && Stuck(undone, entries[|done|])
      ensures outcome.Carried? ==> tree.files == Renamed(old(tree).files, entries)
      ensures outcome.Carried? ==> tree == undone && outcome.pruned !! tree.dirs
      ensures outcome.Carried? ==> old(tree).dirs <= tree.dirs + outcome.pruned
      ensures outcome.Carried? ==> forall p | p in outcome.pruned :: exists e | e in entries :: p < e.source && p != []
      ensures outcome.Carried? && alone ==> forall e | e in entries :: TidyAbove(tree, e.source)
      ensures !outcome.Carried? && aloneBack ==> undone.dirs <= tree.dirs && tree == RolledBack(undone, done)
      ensures !outcome.Carried? && aloneBack ==>
                (tree.files == old(tree).files <==>
                   Clear(done, done) && forall e | e in done :: e.source !in undone.dirs)
      ensures !outcome.Carried? && aloneBack && alone ==> (tree.files == old(tree).files <==> Clear(done, done))
      ensures !outcome.Carried? && aloneBack && Clear(entries, entries) ==> tree.files == old(tree).files
    {
      ListedSources(tree, entries);
      done := RenameReserved(entries, alone);
      RenamedOutcome(old(tree), entries, done, tree);
      if Clear(entries, entries) {
        ClearBatchIsApart(old(tree), entries, done, tree);
      }
      undone := tree;
      if done == entries {
        SourcesHadParents(old(tree), entries, tree);
        var pruned := Prune(entries, alone);
        undone := tree;
        if repairOk {
          return Outcome.Carried(pruned), done, undone;
        }
      }
      RollbackIff(old(tree), done, undone);
      DirsStay(undone, done);
      if alone && Clear(done, done) {
        OwnDirsAreApart(old(tree), done, undone);
      }
      hide *;
      UnrenameReserved(done, aloneBack, old(tree).files);
      outcome := if done == entries then Refused else Failed;
    }
  }
}
