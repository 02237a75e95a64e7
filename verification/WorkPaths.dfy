/** The path grammar of work items (work_tracker_okf/paths.py) and the date-free
    basenames the migration derives (scripts/migrate_vault_work.py). */
module WorkPaths {
  import opened Paths

  datatype ItemType = Release | Epic | Feature | Bug | TechDebt | TestGap | Spike

  const SLASH := '/'
  const CHILDREN := "children"
  const ARCHIVE := "_archive"

  predicate IsWordChar(c: char) {
    'a' <= c <= 'z' || '0' <= c <= '9'
  }

  predicate IsWord(s: string) {
    s != "" && forall i | 0 <= i < |s| :: IsWordChar(s[i])
  }

  /** Lower-case words and digits joined by single dashes. */
  predicate IsKebab(s: string) {
    forall i | 0 <= i < |Split(s, '-')| :: IsWord(Split(s, '-')[i])
  }

  predicate IsBasename(s: string) {
    IsKebab(s) && s != CHILDREN && s != "index" && s != "references"
  }

  /** An item's place: under the archive or not, and the basenames from its
      top-level root down to itself. */
  datatype Location = Location(archived: bool, names: seq<string>) {
    predicate Valid() {
      |names| > 0 && forall i | 0 <= i < |names| :: IsBasename(names[i])
    }

    function Parent(): Option<Location> {
      if |names| > 1 then Some(Location(archived, names[..|names| - 1])) else None
    }
  }

  function Interleave(names: seq<string>): (parts: seq<string>)
    requires |names| > 0
    ensures |parts| > 0 && parts[0] == names[0]
  {
    if |names| == 1 then names else [names[0], CHILDREN] + Interleave(names[1..])
  }

  function Lane(archived: bool): seq<string> {
    if archived then ["work", ARCHIVE] else ["work"]
  }

  function PathOf(location: Location): string
    requires |location.names| > 0
  {
    Join(Lane(location.archived) + Interleave(location.names), SLASH)
  }

  function ParseNames(parts: seq<string>): (names: Option<seq<string>>)
    ensures names.Some? ==> |names.value| > 0 && forall i | 0 <= i < |names.value| :: IsBasename(names.value[i])
    ensures names.Some? ==> Interleave(names.value) == parts
  {
    if parts == [] || !IsBasename(parts[0]) then None
    else if |parts| == 1 then Some(parts)
    else if parts[1] != CHILDREN then None
    else
      match ParseNames(parts[2..])
      case None => None
      case Some(rest) => Some([parts[0]] + rest)
  }

  /** `parse_item_path`: `work/[_archive/]<name>(/children/<name>)*`. */
  function ParseItemPath(value: string): (location: Option<Location>)
    ensures location.Some? ==> location.value.Valid()
  {
    var parts := Split(value, SLASH);
    if parts[0] != "work" then None
    else
      var archived := |parts| > 1 && parts[1] == ARCHIVE;
      match ParseNames(parts[if archived then 2 else 1..])
      case None => None
      case Some(names) => Some(Location(archived, names))
  }

  // ----- Parsing and printing are inverse ---------------------------------------

  lemma {:induction false} KebabFree(s: string, c: char)
    requires IsKebab(s) && !IsWordChar(c) && c != '-'
    ensures c !in s
  {
    JoinSplit(s, '-');
    if c in s { JoinKeepsChars(Split(s, '-'), '-', c); }
  }

  lemma ArchiveIsNoBasename(s: string)
    requires IsBasename(s)
    ensures s != ARCHIVE && Free(s, SLASH)
  {
    KebabFree(s, '_');
    KebabFree(s, SLASH);
    assert ARCHIVE[0] == '_';
  }

  lemma {:induction false} ParseInterleave(names: seq<string>)
    requires |names| > 0 && forall i | 0 <= i < |names| :: IsBasename(names[i])
    ensures ParseNames(Interleave(names)) == Some(names)
    ensures AllFree(Interleave(names), SLASH)
  {
    ArchiveIsNoBasename(names[0]);
    if |names| > 1 {
      ParseInterleave(names[1..]);
      assert Interleave(names)[2..] == Interleave(names[1..]);
      assert [names[0]] + names[1..] == names;
    }
  }

  lemma PartsOfPath(location: Location)
    requires location.Valid()
    ensures Split(PathOf(location), SLASH) == Lane(location.archived) + Interleave(location.names)
  {
    ParseInterleave(location.names);
    SplitJoin(Lane(location.archived) + Interleave(location.names), SLASH);
  }

  lemma ParsePath(location: Location)
    requires location.Valid()
    ensures ParseItemPath(PathOf(location)) == Some(location)
  {
    PartsOfPath(location);
    ParseInterleave(location.names);
    ArchiveIsNoBasename(location.names[0]);
    var parts := Split(PathOf(location), SLASH);
    assert parts[|Lane(location.archived)|..] == Interleave(location.names);
  }

  lemma PathOfParsed(value: string)
    requires ParseItemPath(value).Some?
    ensures PathOf(ParseItemPath(value).value) == value
  {
    hide ParseNames;
    hide Interleave;
    hide IsBasename;
    JoinSplit(value, SLASH);
    var parts, archived := Split(value, SLASH), ParseItemPath(value).value.archived;
    var n := if archived then 2 else 1;
    assert parts == parts[..n] + parts[n..];
    assert Lane(archived) == parts[..n];
    assert Interleave(ParseItemPath(value).value.names) == parts[n..];
  }

  // ----- Directory containment is name-prefix containment ---------------------------

  /** `inner` names a path strictly inside the directory `outer`. */
  predicate StrictlyInside(inner: string, outer: string) {
    outer + [SLASH] <= inner
  }

  lemma {:induction false} InterleavePrefix(outer: seq<string>, inner: seq<string>, rest: seq<string>)
    requires |outer| > 0 && |inner| > 0 && |rest| > 0
    requires Interleave(outer) + rest == Interleave(inner)
    ensures outer < inner
  {
    assert inner[0] == (Interleave(outer) + rest)[0] == outer[0];
    if |outer| > 1 && |inner| > 1 {
      assert (Interleave(outer) + rest)[2..] == Interleave(outer[1..]) + rest;
      assert Interleave(inner)[2..] == Interleave(inner[1..]);
      InterleavePrefix(outer[1..], inner[1..], rest);
      assert outer == [outer[0]] + outer[1..] && inner == [inner[0]] + inner[1..];
    }
  }

  lemma {:induction false} InterleaveConcat(outer: seq<string>, more: seq<string>)
    requires |outer| > 0 && |more| > 0
    ensures Interleave(outer + more) == Interleave(outer) + [CHILDREN] + Interleave(more)
  {
    if |outer| == 1 {
      assert (outer + more)[1..] == more;
    } else {
      assert (outer + more)[1..] == outer[1..] + more;
      InterleaveConcat(outer[1..], more);
    }
  }

  lemma InsideIsPrefix(inner: Location, outer: Location)
    requires inner.Valid() && outer.Valid() && StrictlyInside(PathOf(inner), PathOf(outer))
    ensures inner.archived == outer.archived && outer.names < inner.names
  {
    var x, y := PathOf(inner), PathOf(outer);
    var t := x[|y| + 1..];
    assert x == y + [SLASH] + t;
    SplitAround(y, t, SLASH);
    PartsOfPath(inner);
    PartsOfPath(outer);
    ArchiveIsNoBasename(inner.names[0]);
    ArchiveIsNoBasename(outer.names[0]);
    SameLane(inner.archived, Interleave(inner.names), outer.archived, Interleave(outer.names), Split(t, SLASH));
    InterleavePrefix(outer.names, inner.names, Split(t, SLASH));
  }

  lemma SameLane(archived1: bool, a: seq<string>, archived2: bool, b: seq<string>, rest: seq<string>)
    requires |a| > 0 && |b| > 0 && a[0] != ARCHIVE && b[0] != ARCHIVE
    requires Lane(archived1) + a == (Lane(archived2) + b) + rest
    ensures archived1 == archived2 && a == b + rest
  {
    var l1, l2 := Lane(archived1), Lane(archived2);
    assert (l1 + a)[1] == if archived1 then ARCHIVE else a[0];
    assert ((l2 + b) + rest)[1] == if archived2 then ARCHIVE else b[0];
    assert (l1 + a)[|l1|..] == a && ((l2 + b) + rest)[|l2|..] == b + rest;
  }

  lemma PrefixIsInside(inner: Location, outer: Location)
    requires inner.Valid() && outer.Valid()
    requires inner.archived == outer.archived && outer.names < inner.names
    ensures StrictlyInside(PathOf(inner), PathOf(outer))
  {
    hide Interleave;
    hide Join;
    hide IsBasename;
    var more := inner.names[|outer.names|..];
    assert inner.names == outer.names + more;
    InterleaveConcat(outer.names, more);
    var lane, x, y := Lane(outer.archived), Interleave(outer.names), [CHILDREN] + Interleave(more);
    assert Interleave(inner.names) == x + y && lane + (x + y) == (lane + x) + y;
    JoinConcat(lane + x, y, SLASH);
  }

  lemma ContainmentIsPrefix(inner: Location, outer: Location)
    requires inner.Valid() && outer.Valid()
    ensures StrictlyInside(PathOf(inner), PathOf(outer)) <==>
            inner.archived == outer.archived && outer.names < inner.names
  {
    if StrictlyInside(PathOf(inner), PathOf(outer)) { InsideIsPrefix(inner, outer); }
    if inner.archived == outer.archived && outer.names < inner.names { PrefixIsInside(inner, outer); }
  }

  /** A parsed path has none of these characters and does not start with a slash. */
  lemma ParsedIsTame(value: string, c: char)
    requires ParseItemPath(value).Some? && c in {' ', '\t', '\n', '\r', '.'}
    ensures value != "" && value[0] != SLASH && c !in value
  {
    PathOfParsed(value);
    PathIsTame(ParseItemPath(value).value, c);
  }

  lemma PathIsTame(place: Location, c: char)
    requires place.Valid() && c in {' ', '\t', '\n', '\r', '.'}
    ensures PathOf(place) != "" && PathOf(place)[0] == 'w' && c !in PathOf(place)
  {
    var lane, rest := Lane(place.archived), Interleave(place.names);
    JoinConcat(lane, rest, SLASH);
    if c in Join(rest, SLASH) {
      JoinKeepsChars(rest, SLASH, c);
      var i :| 0 <= i < |rest| && c in rest[i];
      InterleavedIsFree(place.names, i, c);
    }
    LaneIsTame(place.archived, c);
    hide Join;
    hide Interleave;
    hide IsBasename;
    hide Lane;
  }

  lemma LaneIsTame(archived: bool, c: char)
    requires c in {' ', '\t', '\n', '\r', '.'}
    ensures var lane := Join(Lane(archived), SLASH); lane != "" && lane[0] == 'w' && c !in lane
  {
    if archived {
      assert Lane(true)[1..] == [ARCHIVE];
      assert Join(Lane(true), SLASH) == "work" + [SLASH] + ARCHIVE;
    }
  }

  lemma {:induction false} InterleavedIsFree(names: seq<string>, i: nat, c: char)
    requires |names| > 0 && (forall k | 0 <= k < |names| :: IsBasename(names[k])) && i < |Interleave(names)|
    requires c in {' ', '\t', '\n', '\r', '.'}
    ensures c !in Interleave(names)[i]
  {
    if |names| > 1 && i > 1 { InterleavedIsFree(names[1..], i - 2, c); }
    KebabFree(names[0], c);
  }

  // ----- Date-free basenames -----------------------------------------------------------

  function SlugPrefix(t: ItemType): string {
    match t
    case Release => "release"
    case Epic => "epic"
    case Feature => "feature"
    case Bug => "bug"
    case TechDebt => "tech-debt"
    case TestGap => "test-gap"
    case Spike => "spike"
  }

  predicate IsDigit(c: char) {
    '0' <= c <= '9'
  }

  /** `NNNN-NN-NN-` at the start. */
  predicate HasDatePrefix(s: string) {
    && |s| >= 11
    && (forall i | 0 <= i < 10 :: i == 4 || i == 7 || IsDigit(s[i]))
    && s[4] == '-' && s[7] == '-' && s[10] == '-'
  }

  function DropDate(s: string): string {
    if HasDatePrefix(s) then s[11..] else s
  }

  /** `_date_free_basename`, up to its final validity test. */
  function PrefixedBasename(basename: string, t: ItemType): string {
    var remainder := DropDate(basename);
    var prefix := SlugPrefix(t);
    if remainder == prefix || prefix + "-" <= remainder then remainder else prefix + "-" + remainder
  }

  function DateFreeBasename(basename: string, t: ItemType): Option<string> {
    var name := PrefixedBasename(basename, t);
    if IsKebab(name) then Some(name) else None
  }

  // ----- What names are, character by character -----------------------------------------------

  /** Lower-case letters, digits and dashes, no dash at either end and no two in a row. */
  predicate KebabShape(s: string) {
    && s != "" && (forall i | 0 <= i < |s| :: 'a' <= s[i] <= 'z' || '0' <= s[i] <= '9' || s[i] == '-')
    && s[0] != '-' && s[|s| - 1] != '-' && forall i | 0 <= i < |s| - 1 :: !(s[i] == '-' && s[i + 1] == '-')
  }

  lemma {:induction false} KebabIsShape(s: string)
    ensures IsKebab(s) <==> KebabShape(s)
    decreases |s|
  {
    SplitOne(s, '-');
    if k :| 0 <= k < |s| && s[k] == '-' {
      var a, b := s[..k], s[k + 1..];
      assert s == a + "-" + b;
      KebabJoin(a, b);
      KebabIsShape(a);
      KebabIsShape(b);
      ShapeJoin(a, b);
    } else {
      WordIsShape(s);
    }
  }

  lemma WordIsShape(s: string)
    requires forall k | 0 <= k < |s| :: s[k] != '-'
    ensures IsKebab(s) <==> KebabShape(s)
  {
    SplitOne(s, '-');
    var parts := Split(s, '-');
    assert parts == [s] && parts[0] == s;
    assert IsKebab(s) <==> IsWord(parts[0]);
    assert s != "" ==> s[0] in s && s[|s| - 1] in s;
  }

  lemma ShapeJoin(a: string, b: string)
    ensures KebabShape(a + "-" + b) <==> KebabShape(a) && KebabShape(b)
  {
    var s := a + "-" + b;
    assert s[|a|] == '-';
    assert forall i | 0 <= i < |a| :: s[i] == a[i];
    assert forall i | 0 <= i < |b| :: s[|a| + 1 + i] == b[i];
    if KebabShape(a) && KebabShape(b) {
      forall i | 0 <= i < |s| - 1 ensures !(s[i] == '-' && s[i + 1] == '-') {
        if i > |a| { assert s[i] == b[i - |a| - 1] && s[i + 1] == b[i - |a|]; }
      }
    }
    if KebabShape(s) {
      assert a != "" && b != "";
      assert s[|a| - 1] == a[|a| - 1] && s[|a| + 1] == b[0];
      forall i | 0 <= i < |b| - 1 ensures !(b[i] == '-' && b[i + 1] == '-') {
        assert b[i] == s[|a| + 1 + i] && b[i + 1] == s[|a| + 2 + i];
      }
    }
  }

  /** Ten characters of the form NNNN-NN-NN. */
  predicate IsDate(d: string) {
    |d| == 10 && forall i | 0 <= i < 10 :: if i == 4 || i == 7 then d[i] == '-' else '0' <= d[i] <= '9'
  }

  predicate StartsDated(s: string) {
    exists k | 0 <= k < |s| :: s[k] == '-' && IsDate(s[..k])
  }

  lemma DatedIff(s: string)
    ensures HasDatePrefix(s) <==> StartsDated(s)
  {
    if HasDatePrefix(s) { assert IsDate(s[..10]); }
    if k :| 0 <= k < |s| && s[k] == '-' && IsDate(s[..k]) {
      assert forall i | 0 <= i < 10 :: s[..k][i] == s[i];
    }
  }

  lemma DateDrops(d: string, r: string)
    requires IsDate(d)
    ensures DropDate(d + "-" + r) == r
  {
    var s := d + "-" + r;
    assert forall i | 0 <= i < 10 :: s[i] == d[i];
    assert s[10] == '-' && s[11..] == r;
  }

  /** A date in front of a name makes no difference to the planned one. */
  lemma DatedName(d: string, r: string, t: ItemType)
    requires IsDate(d) && !StartsDated(r)
    ensures DateFreeBasename(d + "-" + r, t) == DateFreeBasename(r, t)
  {
    DateDrops(d, r);
    DatedIff(r);
  }

  /** The type as names are prefixed with it. */
  predicate IsPrefixOf(t: ItemType, prefix: string) {
    (t, prefix) in {(Release, "release"), (Epic, "epic"), (Feature, "feature"), (Bug, "bug"),
                    (TechDebt, "tech-debt"), (TestGap, "test-gap"), (Spike, "spike")}
  }

  /** An undated name is planned as it is if it is the type's prefix or starts with
      it and a dash, and otherwise behind the prefix and a dash; it is refused if
      that is no name. */
  lemma UndatedName(r: string, t: ItemType, prefix: string)
    requires !StartsDated(r) && IsPrefixOf(t, prefix)
    ensures var name := if r == prefix || prefix + "-" <= r then r else prefix + "-" + r;
            DateFreeBasename(r, t) == if KebabShape(name) then Some(name) else None
  {
    DatedIff(r);
    KebabIsShape(PrefixedBasename(r, t));
  }

  lemma BasenameShape(s: string)
    ensures IsBasename(s) <==> KebabShape(s) && s !in {"children", "index", "references"}
  {
    KebabIsShape(s);
  }

  lemma {:induction false} KebabWord(s: string)
    requires IsWord(s)
    ensures IsKebab(s)
  {
    SplitOne(s, '-');
  }

  lemma KebabJoin(a: string, b: string)
    ensures IsKebab(a + "-" + b) <==> IsKebab(a) && IsKebab(b)
  {
    var x, y, z := Split(a, '-'), Split(b, '-'), Split(a + ['-'] + b, '-');
    SplitAround(a, b, '-');
    assert forall i | 0 <= i < |x| :: z[i] == x[i];
    assert forall i | 0 <= i < |y| :: z[|x| + i] == y[i];
  }

  lemma KebabDropDate(s: string)
    requires IsKebab(s)
    ensures IsKebab(DropDate(s))
  {
    if HasDatePrefix(s) {
      assert s == s[..10] + "-" + s[11..];
      KebabJoin(s[..10], s[11..]);
    }
  }

  lemma KebabPrefix(t: ItemType)
    ensures IsKebab(SlugPrefix(t))
  {
    match t
    case TechDebt => KebabWord("tech"); KebabWord("debt"); KebabJoin("tech", "debt");
      assert "tech-debt" == "tech" + "-" + "debt";
    case TestGap => KebabWord("test"); KebabWord("gap"); KebabJoin("test", "gap");
      assert "test-gap" == "test" + "-" + "gap";
    case _ => KebabWord(SlugPrefix(t));
  }

  /** For an item the grammar parses, the derived basename is always a valid one:
      the planner's basename refusal never fires on a parsed item. */
  lemma DateFreeBasenameValid(basename: string, t: ItemType)
    requires IsBasename(basename)
    ensures DateFreeBasename(basename, t) == Some(PrefixedBasename(basename, t))
    ensures IsBasename(PrefixedBasename(basename, t))
    ensures SlugPrefix(t) <= PrefixedBasename(basename, t)
  {
    KebabDropDate(basename);
    KebabPrefix(t);
    KebabJoin(SlugPrefix(t), DropDate(basename));
    var name, prefix := PrefixedBasename(basename, t), SlugPrefix(t);
    assert prefix == "release" || prefix == "epic" || prefix == "feature" || prefix == "bug" ||
           prefix == "tech-debt" || prefix == "test-gap" || prefix == "spike";
    assert prefix[0] == name[0] && prefix[1] == name[1] && prefix[2] == name[2];
  }
}
