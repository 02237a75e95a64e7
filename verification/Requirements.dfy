/** Reading a requirements file and everything it includes
    (code_graph_io/requirements.py): a depth-first walk over a possibly cyclic
    include graph, with a pre-seeded visited set. */
module Requirements {
  import opened Paths

  /** One logical line: an include with its resolved target, a pip option, or a
      requirement.  A requirement is empty if only an option tail was left. */
  datatype Line = Include(target: string) | OptionLine | Requirement(text: string)

  /** A file that was read, and whether its lines count as development ones. */
  datatype Visit = Visit(file: string, isDev: bool)

  /** The files on disk, an unreadable one being `None`; those inside the
      repository; and those whose name marks them as development files. */
  datatype Disk = Disk(files: map<string, Option<seq<Line>>>, inRepo: set<string>, devFiles: set<string>) {
    function LinesOf(file: string): seq<Line> {
      if file in files && files[file].Some? then files[file].value else []
    }

    /** An include is followed if its target is inside the repository and present. */
    predicate Follows(line: Line) {
      line.Include? && line.target in inRepo && line.target in files
    }

    predicate Includes(file: string, target: string) {
      exists line | line in LinesOf(file) :: Follows(line) && line.target == target
    }

    predicate Avoids(chain: seq<string>, skip: set<string>) {
      forall f | f in chain :: f !in skip
    }

    /** Each file of the chain includes the next one. */
    predicate Linked(chain: seq<string>) {
      |chain| > 1 ==> Includes(chain[0], chain[1]) && Linked(chain[1..])
    }

    /** A chain of followed includes from `root` to `file` that keeps out of `skip`. */
    predicate IsChain(chain: seq<string>, root: string, file: string, skip: set<string>) {
      |chain| > 0 && chain[0] == root && chain[|chain| - 1] == file && Avoids(chain, skip) && Linked(chain)
    }

    ghost predicate Reachable(root: string, file: string, skip: set<string>) {
      exists chain :: IsChain(chain, root, file, skip)
    }

    predicate PassesDev(chain: seq<string>) {
      |chain| > 1 && exists f | f in chain[1..] :: f in devFiles
    }

    /** Reachable over a chain that includes a development file on the way. */
    ghost predicate DevReachable(root: string, file: string, skip: set<string>) {
      exists chain :: IsChain(chain, root, file, skip) && PassesDev(chain)
    }
  }

  function Texts(lines: seq<Line>): seq<string> {
    if lines == [] then []
    else
      var last := lines[|lines| - 1];
      Texts(lines[..|lines| - 1]) + if last.Requirement? && last.text != "" then [last.text] else []
  }

  function Targets(lines: seq<Line>): seq<string> {
    if lines == [] then []
    else
      var last := lines[|lines| - 1];
      Targets(lines[..|lines| - 1]) + if last.Include? then [last.target] else []
  }

  function LineOf(text: string, targets: bool): Line {
    if targets then Include(text) else Requirement(text)
  }

  /** An include, or a requirement with something in it. */
  predicate Wanted(line: Line, targets: bool) {
    if targets then line.Include? else line.Requirement? && line.text != ""
  }

  /** The texts are those of all the wanted lines, which stand at these places in
      this order. */
  ghost predicate Picks(lines: seq<Line>, at: seq<nat>, texts: seq<string>, targets: bool) {
    && |at| == |texts| && (forall j, k | 0 <= j < k < |at| :: at[j] < at[k])
    && (forall j | 0 <= j < |at| :: at[j] < |lines| && lines[at[j]] == LineOf(texts[j], targets))
    && (forall i | 0 <= i < |lines| :: Wanted(lines[i], targets) <==> i in at)
  }

  function Collected(lines: seq<Line>, targets: bool): seq<string> {
    if targets then Targets(lines) else Texts(lines)
  }

  /** Every include and every requirement of a file is collected once, in order. */
  lemma {:induction false} PicksAll(lines: seq<Line>, targets: bool)
    ensures exists at :: Picks(lines, at, Collected(lines, targets), targets)
  {
    if lines == [] {
      assert Picks(lines, [], Collected(lines, targets), targets);
    } else {
      var n := |lines| - 1;
      PicksAll(lines[..n], targets);
      var at :| Picks(lines[..n], at, Collected(lines[..n], targets), targets);
      CollectedNext(lines, targets);
      PicksNext(lines, at, Collected(lines[..n], targets), targets);
      hide *;
      if !Wanted(lines[n], targets) {
        assert Picks(lines, at, Collected(lines, targets), targets);
      } else {
        assert Picks(lines, at + [n], Collected(lines, targets), targets);
      }
    }
  }

  lemma CollectedNext(lines: seq<Line>, targets: bool)
    requires lines != []
    ensures var last, before := lines[|lines| - 1], Collected(lines[..|lines| - 1], targets);
            Collected(lines, targets) ==
              if !Wanted(last, targets) then before else before + [if targets then last.target else last.text]
  {
  }

  lemma PicksNext(lines: seq<Line>, at: seq<nat>, texts: seq<string>, targets: bool)
    requires lines != [] && Picks(lines[..|lines| - 1], at, texts, targets)
    ensures var last := lines[|lines| - 1];
            if !Wanted(last, targets) then Picks(lines, at, texts, targets)
            else Picks(lines, at + [|lines| - 1], texts + [if targets then last.target else last.text], targets)
  {
    var n := |lines| - 1;
    assert forall i | 0 <= i < n :: lines[..n][i] == lines[i];
    assert n !in at;
    forall i | 0 <= i < n ensures Wanted(lines[i], targets) <==> i in at {
      assert Wanted(lines[..n][i], targets) <==> i in at;
    }
  }

  /** What is collected from a file, as a set: exactly its wanted lines. */
  lemma PicksHeld(lines: seq<Line>, text: string)
    ensures text in Targets(lines) <==> Include(text) in lines
    ensures text in Texts(lines) <==> text != "" && Requirement(text) in lines
  {
    PicksAll(lines, true);
    var at :| Picks(lines, at, Collected(lines, true), true);
    HeldIffPicked(lines, at, Targets(lines), true, text);
    PicksAll(lines, false);
    var from :| Picks(lines, from, Collected(lines, false), false);
    HeldIffPicked(lines, from, Texts(lines), false, text);
  }

  lemma HeldIffPicked(lines: seq<Line>, at: seq<nat>, texts: seq<string>, targets: bool, text: string)
    requires Picks(lines, at, texts, targets)
    ensures text in texts <==> Wanted(LineOf(text, targets), targets) && LineOf(text, targets) in lines
  {
    if text in texts {
      var j :| 0 <= j < |texts| && texts[j] == text;
      assert at[j] in at && lines[at[j]] == LineOf(text, targets);
      assert Wanted(lines[at[j]], targets);
    }
    if Wanted(LineOf(text, targets), targets) && LineOf(text, targets) in lines {
      var i :| 0 <= i < |lines| && lines[i] == LineOf(text, targets);
      assert i in at;
      var j :| 0 <= j < |at| && at[j] == i;
      assert texts[j] == text;
    }
  }

  /** The include targets of a file's lines, noted for the root only. */
  function OwnTargets(lines: seq<Line>, isRoot: bool): seq<string> {
    if isRoot then Targets(lines) else []
  }

  function OwnTexts(lines: seq<Line>, isRoot: bool): bool {
    isRoot && Texts(lines) != []
  }

  /** The requirement lines of the visited files with the given tag. */
  function AllTexts(disk: Disk, order: seq<Visit>, isDev: bool): multiset<string> {
    if order == [] then multiset{}
    else
      var last := order[|order| - 1];
      AllTexts(disk, order[..|order| - 1], isDev) +
      if last.isDev == isDev then multiset(Texts(disk.LinesOf(last.file))) else multiset{}
  }

  /** The file can be read and has the line. */
  predicate HasLine(disk: Disk, file: string, line: Line) {
    file in disk.files && disk.files[file].Some? && line in disk.files[file].value
  }

  /** Some file visited under the tag has the requirement. */
  predicate Collects(disk: Disk, order: seq<Visit>, isDev: bool, text: string) {
    text != "" && exists v | v in order :: v.isDev == isDev && HasLine(disk, v.file, Requirement(text))
  }

  lemma {:induction false} AllTextsHeld(disk: Disk, order: seq<Visit>, isDev: bool, text: string)
    ensures text in AllTexts(disk, order, isDev) <==> Collects(disk, order, isDev, text)
  {
    if order != [] {
      var rest, last := order[..|order| - 1], order[|order| - 1];
      AllTextsHeld(disk, rest, isDev, text);
      CollectsOneMore(disk, order, isDev, text);
      PicksHeld(disk.LinesOf(last.file), text);
      var more := multiset(Texts(disk.LinesOf(last.file)));
      assert text in more <==> text in Texts(disk.LinesOf(last.file));
      assert AllTexts(disk, order, isDev) ==
             AllTexts(disk, rest, isDev) + if last.isDev == isDev then more else multiset{};
    }
  }

  lemma CollectsOneMore(disk: Disk, order: seq<Visit>, isDev: bool, text: string)
    requires order != []
    ensures var rest, last := order[..|order| - 1], order[|order| - 1];
            Collects(disk, order, isDev, text) <==>
            Collects(disk, rest, isDev, text) ||
            (text != "" && last.isDev == isDev && HasLine(disk, last.file, Requirement(text)))
  {
    assert order == order[..|order| - 1] + [order[|order| - 1]];
  }

  /** A file includes another exactly if it can be read, has the line, and the
      target is inside the repository and on disk. */
  lemma IncludesMeaning(disk: Disk, file: string, target: string)
    ensures disk.Includes(file, target) <==>
              HasLine(disk, file, Include(target)) && target in disk.inRepo && target in disk.files.Keys
  {
    if HasLine(disk, file, Include(target)) {
      assert Include(target) in disk.LinesOf(file);
    }
  }

  lemma {:induction false} AllTextsConcat(disk: Disk, a: seq<Visit>, b: seq<Visit>, isDev: bool)
    ensures AllTexts(disk, a + b, isDev) == AllTexts(disk, a, isDev) + AllTexts(disk, b, isDev)
  {
    if b == [] {
      assert a + b == a;
    } else {
      assert (a + b)[..|a + b| - 1] == a + b[..|b| - 1];
      AllTextsConcat(disk, a, b[..|b| - 1], isDev);
    }
  }

  /** Everything followed from a finished file has been visited. */
  predicate FinishedIn(disk: Disk, file: string, visited: set<string>) {
    FollowedIn(disk, disk.LinesOf(file), visited)
  }

  predicate FollowedIn(disk: Disk, lines: seq<Line>, visited: set<string>) {
    forall line | line in lines && disk.Follows(line) :: line.target in visited
  }

  predicate Distinct(order: seq<Visit>) {
    forall i, j | 0 <= i < j < |order| :: order[i].file != order[j].file
  }

  function FilesOf(order: seq<Visit>): set<string> {
    set v | v in order :: v.file
  }

  lemma FilesOfConcat(a: seq<Visit>, b: seq<Visit>)
    ensures FilesOf(a + b) == FilesOf(a) + FilesOf(b)
  {
    assert forall v :: v in a + b <==> v in a || v in b;
  }

  /** How a file came to be visited below `from`: reachable from it around
      `skip`; tagged as development if `from` was or its own name asks for it,
      and only if `from` was or the name of some file on a way there asks for it. */
  ghost predicate Explained(disk: Disk, v: Visit, from: string, isDev: bool, skip: set<string>) {
    && v.file !in skip
    && disk.Reachable(from, v.file, skip)
    && (isDev || (v.file in disk.devFiles && v.file != from) ==> v.isDev)
    && (v.isDev ==> isDev || disk.DevReachable(from, v.file, skip))
  }

  lemma ChainGrows(disk: Disk, chain: seq<string>, from: string, mid: string, file: string,
                   skip: set<string>, more: set<string>)
    requires disk.IsChain(chain, mid, file, more) && skip <= more && from !in skip && disk.Includes(from, mid)
    ensures disk.IsChain([from] + chain, from, file, skip)
  {
    assert ([from] + chain)[1..] == chain;
  }

  /** A file explained below an include is explained below the including file. */
  lemma ExplainedAbove(disk: Disk, v: Visit, from: string, mid: string, isDev: bool, skip: set<string>,
                       more: set<string>)
    requires Explained(disk, v, mid, isDev || mid in disk.devFiles, more)
    requires skip <= more && from !in skip && disk.Includes(from, mid)
    ensures Explained(disk, v, from, isDev, skip)
  {
    var chain :| disk.IsChain(chain, mid, v.file, more);
    ChainGrows(disk, chain, from, mid, v.file, skip, more);
    assert ([from] + chain)[1..] == chain;
    if v.isDev && !isDev {
      if mid in disk.devFiles {
        assert mid in chain;
        assert disk.PassesDev([from] + chain);
      } else {
        var other :| disk.IsChain(other, mid, v.file, more) && disk.PassesDev(other);
        ChainGrows(disk, other, from, mid, v.file, skip, more);
        assert ([from] + other)[1..] == other;
        assert disk.PassesDev([from] + other);
      }
    }
  }

  /** The walk's record at one moment. */
  datatype Tally = Tally(visited: set<string>, runtime: seq<string>, development: seq<string>, order: seq<Visit>) {
    ghost predicate Valid() {
      Once(order, visited)
    }

    /** A requirement goes to the list of its file's tag. */
    function Take(line: Line, isDev: bool): Tally {
      if !line.Requirement? || line.text == "" then this
      else if isDev then this.(development := development + [line.text])
      else this.(runtime := runtime + [line.text])
    }
  }

  ghost predicate Once(order: seq<Visit>, visited: set<string>) {
    Distinct(order) && FilesOf(order) <= visited
  }

  function Tagged(lines: seq<Line>, tagged: bool): multiset<string> {
    if tagged then multiset(Texts(lines)) else multiset{}
  }

  /** Since `before` the files of `news` were read, and some more `lines` of a
      file with the given tag. */
  ghost predicate Advanced(disk: Disk, before: Tally, after: Tally, news: seq<Visit>, lines: seq<Line>, isDev: bool) {
    && after.order == before.order + news
    && after.visited == before.visited + FilesOf(news)
    && multiset(after.runtime) == multiset(before.runtime) + AllTexts(disk, news, false) + Tagged(lines, !isDev)
    && multiset(after.development) == multiset(before.development) + AllTexts(disk, news, true) + Tagged(lines, isDev)
  }

  /** Every file in `news` is finished, and explained by the walk from `from`. */
  ghost predicate AllExplained(disk: Disk, news: seq<Visit>, from: string, isDev: bool, skip: set<string>,
                               visited: set<string>)
  {
    forall v | v in news :: FinishedIn(disk, v.file, visited) && Explained(disk, v, from, isDev, skip)
  }

  lemma AdvancedAdds(disk: Disk, a: Tally, b: Tally, news: seq<Visit>, lines: seq<Line>, isDev: bool)
    ensures Advanced(disk, a, b, news, lines, isDev) <==>
              && b.order == a.order + news && b.visited == a.visited + FilesOf(news)
              && multiset(b.runtime) == multiset(a.runtime) + AllTexts(disk, news, false) + Tagged(lines, !isDev)
              && multiset(b.development) == multiset(a.development) + AllTexts(disk, news, true) + Tagged(lines, isDev)
  {
  }

  lemma AddUp(a: seq<string>, b: seq<string>, c: seq<string>, m: multiset<string>, n: multiset<string>,
              t: multiset<string>)
    requires multiset(b) == multiset(a) + m + t && multiset(c) == multiset(b) + n + multiset{}
    ensures multiset(c) == multiset(a) + (m + n) + t
  {
  }

  lemma AdvancedBelow(disk: Disk, a: Tally, b: Tally, c: Tally, news: seq<Visit>, below: seq<Visit>,
                      lines: seq<Line>, isDev: bool, tag: bool)
    requires Advanced(disk, a, b, news, lines, isDev) && Advanced(disk, b, c, below, [], tag)
    ensures Advanced(disk, a, c, news + below, lines, isDev)
  {
    assert Tagged([], true) == Tagged([], false) == multiset{};
    hide *;
    assert a.order + news + below == a.order + (news + below);
    AdvancedAdds(disk, a, b, news, lines, isDev);
    AdvancedAdds(disk, b, c, below, [], tag);
    AllTextsConcat(disk, news, below, false);
    AllTextsConcat(disk, news, below, true);
    FilesOfConcat(news, below);
    AddUp(a.runtime, b.runtime, c.runtime, AllTexts(disk, news, false), AllTexts(disk, below, false),
        Tagged(lines, !isDev));
    AddUp(a.development, b.development, c.development, AllTexts(disk, news, true), AllTexts(disk, below, true),
        Tagged(lines, isDev));
    AdvancedAdds(disk, a, c, news + below, lines, isDev);
  }

  lemma ExplainedBelow(disk: Disk, news: seq<Visit>, below: seq<Visit>, from: string, mid: string, isDev: bool,
                       skip: set<string>, met: set<string>, visited: set<string>)
    requires AllExplained(disk, news, from, isDev, skip, met) && skip <= met <= visited
    requires AllExplained(disk, below, mid, isDev || mid in disk.devFiles, met, visited)
    requires from !in skip && disk.Includes(from, mid)
    ensures AllExplained(disk, news + below, from, isDev, skip, visited)
  {
    hide Explained;
    forall v | v in below ensures Explained(disk, v, from, isDev, skip) {
      ExplainedAbove(disk, v, from, mid, isDev, skip, met);
    }
  }

  /** Reading a file starts by entering it and ends with all its lines told. */
  lemma Enters(disk: Disk, a: Tally, b: Tally, me: Visit)
    requires a.Valid() && me.file !in a.visited
    requires b == a.(visited := a.visited + {me.file}, order := a.order + [me])
    ensures b.Valid()
  {
    FilesOfConcat(a.order, [me]);
    assert forall v | v in a.order :: v.file in FilesOf(a.order);
  }

  lemma StartsValid(a: Tally)
    requires a.order == []
    ensures a.Valid()
  {
  }

  lemma Nothing(disk: Disk, a: Tally, file: string, isDev: bool, isRoot: bool, skip: set<string>)
    ensures Advanced(disk, a, a, [], [], isDev) && AllExplained(disk, [], file, isDev, skip, a.visited)
    ensures FollowedIn(disk, [], a.visited)
    ensures OwnTargets([], isRoot) == [] && !OwnTexts([], isRoot)
    ensures forall lines :: OwnTargets(lines, false) == [] && !OwnTexts(lines, false)
  {
  }

  lemma OneVisit(disk: Disk, me: Visit)
    ensures FilesOf([me]) == {me.file}
    ensures AllTexts(disk, [me], !me.isDev) == multiset{} &&
              AllTexts(disk, [me], me.isDev) == multiset(Texts(disk.LinesOf(me.file)))
    ensures Tagged(disk.LinesOf(me.file), true) == multiset(Texts(disk.LinesOf(me.file))) &&
              Tagged(disk.LinesOf(me.file), false) == multiset{}
    ensures Tagged([], true) == Tagged([], false) == multiset{}
  {
    assert [me][..0] == [];
  }

  lemma Leaves(disk: Disk, a: Tally, b: Tally, c: Tally, me: Visit, rest: seq<Visit>)
    requires b == a.(visited := a.visited + {me.file}, order := a.order + [me])
    requires Advanced(disk, b, c, rest, disk.LinesOf(me.file), me.isDev)
    ensures Advanced(disk, a, c, [me] + rest, [], me.isDev)
  {
    OneVisit(disk, me);
    hide *;
    AdvancedAdds(disk, b, c, rest, disk.LinesOf(me.file), me.isDev);
    AllTextsConcat(disk, [me], rest, false);
    AllTextsConcat(disk, [me], rest, true);
    FilesOfConcat([me], rest);
    assert a.order + [me] + rest == a.order + ([me] + rest);
    AdvancedAdds(disk, a, c, [me] + rest, [], me.isDev);
  }

  lemma ExplainedItself(disk: Disk, me: Visit, rest: seq<Visit>, skip: set<string>, visited: set<string>)
    requires me.file !in skip && FinishedIn(disk, me.file, visited)
    requires AllExplained(disk, rest, me.file, me.isDev, skip, visited)
    ensures AllExplained(disk, [me] + rest, me.file, me.isDev, skip, visited)
  {
    assert disk.IsChain([me.file], me.file, me.file, skip);
  }

  lemma TaggedStep(lines: seq<Line>, i: nat, b: Tally, isDev: bool)
    requires i < |lines|
    ensures var c := b.Take(lines[i], isDev);
            exists m: multiset<string>, n: multiset<string> :: Step(lines, i, b, c, isDev, m, n)
  {
    assert lines[..i + 1][..i] == lines[..i];
    var more: multiset<string> :=
      if lines[i].Requirement? && lines[i].text != "" then multiset{lines[i].text} else multiset{};
    assert Texts(lines[..i + 1]) == Texts(lines[..i]) +
             if lines[i].Requirement? && lines[i].text != "" then [lines[i].text] else [];
    if isDev {
      assert Step(lines, i, b, b.Take(lines[i], isDev), isDev, multiset{}, more);
    } else {
      assert Step(lines, i, b, b.Take(lines[i], isDev), isDev, more, multiset{});
    }
  }

  ghost predicate Step(lines: seq<Line>, i: nat, b: Tally, c: Tally, isDev: bool, m: multiset<string>,
                       n: multiset<string>)
    requires i < |lines|
  {
    && c.order == b.order && c.visited == b.visited
    && multiset(c.runtime) == multiset(b.runtime) + m && multiset(c.development) == multiset(b.development) + n
    && Tagged(lines[..i + 1], !isDev) == Tagged(lines[..i], !isDev) + m
    && Tagged(lines[..i + 1], isDev) == Tagged(lines[..i], isDev) + n
  }

  lemma StepAdds(lines: seq<Line>, i: nat, b: Tally, c: Tally, isDev: bool, m: multiset<string>, n: multiset<string>)
    requires i < |lines| && Step(lines, i, b, c, isDev, m, n)
    ensures c.order == b.order && c.visited == b.visited
    ensures multiset(c.runtime) == multiset(b.runtime) + m && multiset(c.development) == multiset(b.development) + n
    ensures Tagged(lines[..i + 1], !isDev) == Tagged(lines[..i], !isDev) + m
    ensures Tagged(lines[..i + 1], isDev) == Tagged(lines[..i], isDev) + n
  {
  }

  lemma AddMore(a: seq<string>, b: seq<string>, c: seq<string>, m: multiset<string>, t: multiset<string>,
                more: multiset<string>)
    requires multiset(b) == multiset(a) + m + t && multiset(c) == multiset(b) + more
    ensures multiset(c) == multiset(a) + m + (t + more)
  {
  }

  /** What one more line adds: its text, if it is a requirement, to the list of its tag. */
  lemma NextLine(disk: Disk, a: Tally, b: Tally, c: Tally, news: seq<Visit>, lines: seq<Line>, i: nat, isDev: bool)
    requires i < |lines| && Advanced(disk, a, b, news, lines[..i], isDev) && c == b.Take(lines[i], isDev)
    ensures Advanced(disk, a, c, news, lines[..i + 1], isDev)
  {
    TaggedStep(lines, i, b, isDev);
    var m: multiset<string>, n: multiset<string> :| Step(lines, i, b, c, isDev, m, n);
    StepAdds(lines, i, b, c, isDev, m, n);
    hide *;
    AdvancedAdds(disk, a, b, news, lines[..i], isDev);
    AddMore(a.runtime, b.runtime, c.runtime, AllTexts(disk, news, false), Tagged(lines[..i], !isDev), m);
    AddMore(a.development, b.development, c.development, AllTexts(disk, news, true), Tagged(lines[..i], isDev), n);
    AdvancedAdds(disk, a, c, news, lines[..i + 1], isDev);
  }

  lemma OneLine(line: Line)
    ensures Targets([line]) == if line.Include? then [line.target] else []
    ensures Texts([line]) == if line.Requirement? && line.text != "" then [line.text] else []
  {
    assert [line][..0] == [];
  }

  /** One more line: its include is a target, and followed once visited. */
  lemma LinesStep(disk: Disk, lines: seq<Line>, i: nat, isRoot: bool,
                  visited: set<string>, more: set<string>)
    requires i < |lines| && FollowedIn(disk, lines[..i], visited)
    requires visited <= more && (disk.Follows(lines[i]) ==> lines[i].target in more)
    ensures FollowedIn(disk, lines[..i + 1], more)
    ensures OwnTargets(lines[..i + 1], isRoot) == OwnTargets(lines[..i], isRoot) + OwnTargets([lines[i]], isRoot)
    ensures OwnTexts(lines[..i + 1], isRoot) == (OwnTexts(lines[..i], isRoot) || OwnTexts([lines[i]], isRoot))
  {
    OneLine(lines[i]);
    assert lines[..i + 1][..i] == lines[..i];
    assert forall line :: line in lines[..i + 1] <==> line in lines[..i] || line == lines[i];
  }

  class Reader {
    const disk: Disk
    const root: string
    var visited: set<string>
    var runtime: seq<string>
    var development: seq<string>
    var direct: seq<string>
    var own: bool
    ghost var order: seq<Visit>

    constructor (disk: Disk, root: string, skip: set<string>)
      ensures this.disk == disk && this.root == root
      ensures Record() == Tally(skip, [], [], []) && direct == [] && !own
    {
      this.disk, this.root, visited := disk, root, skip;
      runtime, development, direct, own, order := [], [], [], false, [];
    }

    ghost function Record(): Tally
      reads this
    {
      Tally(visited, runtime, development, order)
    }

    /** Files that the walk could still read. */
    ghost function Unread(): set<string>
      reads this
    {
      disk.files.Keys + {root} - visited
    }

    method TakeLine(line: Line, file: string, isDev: bool)
      modifies this`runtime, this`development, this`direct, this`own
      ensures Record() == old(Record()).Take(line, isDev)
      ensures direct == old(direct) + OwnTargets([line], file == root)
      ensures own == (old(own) || OwnTexts([line], file == root))
    {
      OneLine(line);
      match line
      case Include(target) =>
        if file == root {
          direct := direct + [target];
        }
      case OptionLine =>
      case Requirement(text) =>
        if text != "" {
          if isDev {
            development := development + [text];
          } else {
            runtime := runtime + [text];
          }
          if file == root {
            own := true;
          }
        }
    }

    /** Reads a file and everything below it that was not visited before. */
    method Walk(file: string, isDev: bool) returns (ghost news: seq<Visit>)
      requires Record().Valid() && (file == root || (file in disk.files && root in visited))
      modifies this
      decreases Unread()
      ensures Record().Valid() && old(visited) + {file} <= visited
      ensures Advanced(disk, old(Record()), Record(), news, [], isDev)
      ensures AllExplained(disk, news, file, isDev, old(visited), visited)
      ensures if file in old(visited) then news == [] else Visit(file, isDev) in news
      ensures var first := file == root && root !in old(visited);
              direct == old(direct) + OwnTargets(disk.LinesOf(file), first) &&
              own == (old(own) || OwnTexts(disk.LinesOf(file), first))
    {
      hide AllExplained;
      hide Advanced;
      hide Once;
      hide FollowedIn;
      hide OwnTargets;
      hide OwnTexts;
      news := [];
      Nothing(disk, Record(), file, isDev, file == root, visited);
      if file in visited {
        return;
      }
      ghost var me := Visit(file, isDev);
      visited := visited + {file};
      order := order + [me];
      Enters(disk, old(Record()), Record(), me);
      ghost var entered := Record();
      Nothing(disk, entered, file, isDev, file == root, old(visited));
      ghost var rest: seq<Visit> := [];
      var lines := disk.LinesOf(file);
      assert lines[..0] == [];
      for i := 0 to |lines|
        invariant Record().Valid() && old(visited) + {file} <= visited
        invariant Advanced(disk, entered, Record(), rest, lines[..i], isDev)
        invariant AllExplained(disk, rest, file, isDev, old(visited), visited)
        invariant FollowedIn(disk, lines[..i], visited)
        invariant direct == old(direct) + OwnTargets(lines[..i], file == root)
        invariant own == (old(own) || OwnTexts(lines[..i], file == root))
      {
        ghost var before := Record();
        TakeLine(lines[i], file, isDev);
        NextLine(disk, entered, before, Record(), rest, lines, i, isDev);
        if disk.Follows(lines[i]) {
          var target := lines[i].target;
          ghost var met := Record();
          ghost var tag := isDev || target in disk.devFiles;
          var below := Walk(target, isDev || target in disk.devFiles);
          AdvancedBelow(disk, entered, met, Record(), rest, below, lines[..i + 1], isDev, tag);
          ExplainedBelow(disk, rest, below, file, target, isDev, old(visited), met.visited, visited);
          rest := rest + below;
        }
        LinesStep(disk, lines, i, file == root, before.visited, visited);
      }
      assert lines[..|lines|] == lines;
      Leaves(disk, old(Record()), entered, Record(), me, rest);
      ExplainedItself(disk, me, rest, old(visited), visited);
      news := [me] + rest;
    }
  }

  datatype RequirementsRead = RequirementsRead(runtime: seq<string>, dev: seq<string>, own: bool,
                                               direct: seq<string>, visited: set<string>)

  /** A chain around `skip` stays in a visited set whose own files are finished. */
  lemma {:induction false} ChainStays(disk: Disk, chain: seq<string>, skip: set<string>, visited: set<string>)
    requires |chain| > 0 && chain[0] in visited && disk.Avoids(chain, skip) && disk.Linked(chain)
    requires forall f | f in visited && f !in skip :: FinishedIn(disk, f, visited)
    ensures chain[|chain| - 1] in visited
    decreases |chain|
  {
    if |chain| > 1 {
      assert FinishedIn(disk, chain[0], visited);
      ChainStays(disk, chain[1..], skip, visited);
    }
  }

  lemma VisitedIsReachable(disk: Disk, root: string, order: seq<Visit>, isDev: bool, skip: set<string>,
                           visited: set<string>)
    requires visited == skip + FilesOf(order) && root in visited
    requires AllExplained(disk, order, root, isDev, skip, visited)
    ensures forall f :: f in visited <==> f in skip || disk.Reachable(root, f, skip)
  {
    forall f | f in visited && f !in skip ensures disk.Reachable(root, f, skip) && FinishedIn(disk, f, visited) {
      var v :| v in order && v.file == f;
      assert Explained(disk, v, root, isDev, skip);
    }
    forall f | disk.Reachable(root, f, skip) ensures f in visited {
      var chain :| disk.IsChain(chain, root, f, skip);
      ChainStays(disk, chain, skip, visited);
    }
  }

  /** If everything is tagged as development, nothing is collected as runtime. */
  lemma {:induction false} NothingAtRuntime(disk: Disk, order: seq<Visit>)
    requires forall v | v in order :: v.isDev
    ensures AllTexts(disk, order, false) == multiset{}
  {
    if order != [] {
      NothingAtRuntime(disk, order[..|order| - 1]);
    }
  }

  lemma Concludes(disk: Disk, root: string, t: Tally, news: seq<Visit>, isDev: bool, skip: set<string>)
    requires Advanced(disk, Tally(skip, [], [], []), t, news, [], isDev) && t.Valid()
    requires AllExplained(disk, news, root, isDev, skip, t.visited) && root in t.visited
    ensures t.order == news && Distinct(news) && FilesOf(news) == t.visited - skip
    ensures multiset(t.runtime) == AllTexts(disk, news, false)
    ensures multiset(t.development) == AllTexts(disk, news, true)
    ensures isDev ==> t.runtime == []
    ensures forall f :: f in t.visited <==> f in skip || disk.Reachable(root, f, skip)
    ensures forall v | v in news :: Explained(disk, v, root, isDev, skip)
  {
    VisitedIsReachable(disk, root, news, isDev, skip, t.visited);
    assert Tagged([], true) == Tagged([], false) == multiset{};
    forall v | v in news ensures Explained(disk, v, root, isDev, skip) {}
    forall f ensures f in FilesOf(news) <==> f in t.visited && f !in skip {}
    if isDev {
      NothingAtRuntime(disk, news);
      assert |multiset(t.runtime)| == 0;
    }
  }

  lemma CollectsExactly(disk: Disk, order: seq<Visit>, isDev: bool, texts: seq<string>)
    requires multiset(texts) == AllTexts(disk, order, isDev)
    ensures forall text :: text in texts <==> Collects(disk, order, isDev, text)
  {
    forall text ensures text in texts <==> Collects(disk, order, isDev, text) {
      AllTextsHeld(disk, order, isDev, text);
      assert text in texts <==> text in multiset(texts);
    }
  }

  lemma OwnHeld(disk: Disk, root: string)
    ensures OwnTargets(disk.LinesOf(root), false) == [] && !OwnTexts(disk.LinesOf(root), false)
    ensures forall f :: f in OwnTargets(disk.LinesOf(root), true) <==> HasLine(disk, root, Include(f))
    ensures OwnTexts(disk.LinesOf(root), true) <==> exists text | text != "" :: HasLine(disk, root, Requirement(text))
  {
    var lines := disk.LinesOf(root);
    forall text ensures text in Targets(lines) <==> HasLine(disk, root, Include(text))
                ensures text in Texts(lines) <==> text != "" && HasLine(disk, root, Requirement(text)) {
      PicksHeld(lines, text);
    }
    if Texts(lines) != [] {
      assert Texts(lines)[0] in Texts(lines);
    }
  }

  /** Reads the root file and every file it includes.  The visited set is the
      skipped files and those reachable around them; each newly visited file's
      requirements are collected exactly once, under that file's tag. */
  method ReadRequirements(disk: Disk, root: string, dev: Option<bool>, skip: set<string>)
    returns (read: RequirementsRead, ghost order: seq<Visit>)
    ensures forall f :: f in read.visited <==> f in skip || disk.Reachable(root, f, skip)
    ensures Distinct(order) && FilesOf(order) == read.visited - skip
    ensures multiset(read.runtime) == AllTexts(disk, order, false)
    ensures multiset(read.dev) == AllTexts(disk, order, true)
    ensures forall v | v in order :: Explained(disk, v, root, dev.GetOr(root in disk.devFiles), skip)
    ensures dev == Some(true) ==> read.runtime == []
    ensures read.direct == OwnTargets(disk.LinesOf(root), root !in skip)
    ensures read.own == OwnTexts(disk.LinesOf(root), root !in skip)
    ensures forall text :: text in read.runtime <==> Collects(disk, order, false, text)
    ensures forall text :: text in read.dev <==> Collects(disk, order, true, text)
    ensures forall f :: f in read.direct <==> root !in skip && HasLine(disk, root, Include(f))
    ensures read.own <==> root !in skip && exists text | text != "" :: HasLine(disk, root, Requirement(text))
  {
    var reader := new Reader(disk, root, skip);
    var isDev := dev.GetOr(root in disk.devFiles);
    StartsValid(reader.Record());
    order := reader.Walk(root, isDev);
    Concludes(disk, root, reader.Record(), order, isDev, skip);
    OwnHeld(disk, root);
    hide *;
    CollectsExactly(disk, order, false, reader.runtime);
    CollectsExactly(disk, order, true, reader.development);
    read := RequirementsRead(reader.runtime, reader.development, reader.own, reader.direct, reader.visited);
  }
}
