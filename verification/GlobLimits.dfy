/** Exactly which globs keep their meaning when compiled (code_graph_io/_ignore.py),
    and what a list of them ignores. */
module GlobLimits {
  import opened Paths
  import opened Regexes
  import opened GlobSegments
  import opened GlobMeaning
  import opened Glob

  // ----- Patterns that some one-line path matches ----------------------------------

  /** Some one-line text matches the component: every literal, and every closed
      bracket, admits a character other than a newline. */
  ghost predicate HasText(seg: string, member: Membership)
    decreases |seg|
  {
    seg == "" ||
    var (frag, n) := NextFragment(seg);
    (frag.One? ==> exists c :: c != '\n' && Admits(frag.cls, c, member)) && HasText(seg[n..], member)
  }

  lemma {:induction false} TextOf(seg: string, member: Membership) returns (s: string)
    requires HasText(seg, member)
    ensures OneLine(s) && FullMatch(SegmentRegex(seg), s, member)
    decreases |seg|
  {
    if seg == "" {
      s := "";
    } else {
      var (frag, n) := NextFragment(seg);
      s := TextOf(seg[n..], member);
      var head := "";
      if frag.One? {
        var c :| c != '\n' && Admits(frag.cls, c, member);
        head := [c];
      }
      assert SegmentRegex(seg)[1..] == SegmentRegex(seg[n..]);
      FullMatchCons(SegmentRegex(seg), head, s, member);
      s := head + s;
    }
  }

  lemma {:induction false} TextShows(seg: string, s: string, member: Membership)
    requires OneLine(s) && FullMatch(SegmentRegex(seg), s, member)
    ensures HasText(seg, member)
    decreases |seg|
  {
    if seg != "" {
      var (frag, n) := NextFragment(seg);
      assert SegmentRegex(seg)[1..] == SegmentRegex(seg[n..]);
      var k := FullMatchUncons(SegmentRegex(seg), s, member);
      if frag.One? { assert s[..k][0] in s && Admits(frag.cls, s[..k][0], member); }
      TextShows(seg[n..], s[k..], member);
    }
  }

  ghost predicate AllHaveText(segs: seq<string>, member: Membership) {
    forall i | 0 <= i < |segs| :: HasText(segs[i], member)
  }

  /** A one-line text, after a slash if it is not empty, that a pattern matches. */
  lemma {:induction false} TailFor(segs: seq<string>, member: Membership) returns (t: string)
    requires AllHaveText(segs, member)
    ensures OneLine(t) && TailMatches(segs, t, member)
    ensures t == "" ==> forall i | 0 <= i < |segs| :: segs[i] == STAR_STAR
  {
    if segs == [] {
      t := "";
    } else {
      assert forall i | 0 <= i < |segs| - 1 :: segs[1..][i] == segs[i + 1];
      t := TailFor(segs[1..], member);
      if segs[0] != STAR_STAR {
        var s := TextOf(segs[0], member);
        SegmentRegexMeaning(segs[0], s, member);
        assert (s + t)[..|s|] == s && (s + t)[|s|..] == t;
        PlainAbsorbs(segs, s + t, |s|, member);
        assert ([SLASH] + (s + t))[1..] == s + t;
        t := [SLASH] + (s + t);
      } else if t == "" {
        NothingLeft(segs, member);
      } else {
        assert t[1..][0..] == t[1..];
        StarAbsorbs(segs, t[1..], 0, member);
      }
    }
  }

  lemma {:induction false} MatchedHaveText(segs: seq<string>, comps: seq<string>, member: Membership)
    requires GlobMatches(segs, comps, member) && AllFree(comps, '\n')
    ensures AllHaveText(segs, member)
  {
    if segs != [] {
      var j := GlobUncons(segs, comps, member);
      MatchedHaveText(segs[1..], comps[j..], member);
      if segs[0] == STAR_STAR {
        assert STAR_STAR[2..] == "" && HasText("", member);
      } else {
        var text := Join(comps[..j], SLASH);
        if !OneLine(text) { JoinKeepsChars(comps[..j], SLASH, '\n'); }
        SegmentRegexMeaning(segs[0], text, member);
        TextShows(segs[0], text, member);
      }
      assert forall i | 0 < i < |segs| :: segs[i] == segs[1..][i - 1];
    }
  }

  /** Some one-line path is meant exactly if every component has a one-line text. */
  lemma MeantIff(segs: seq<string>, member: Membership)
    requires segs != []
    ensures AllHaveText(segs, member) <==> exists path :: OneLine(path) && GlobMatches(segs, Split(path, SLASH), member)
  {
    if AllHaveText(segs, member) {
      var t := TailFor(segs, member);
      if t == "" {
        StarsMatchOne(segs, "x", member);
        SplitOne("x", SLASH);
        assert OneLine("x") && GlobMatches(segs, Split("x", SLASH), member);
      } else {
        assert OneLine(t[1..]) && GlobMatches(segs, Split(t[1..], SLASH), member);
      }
    }
    if path :| OneLine(path) && GlobMatches(segs, Split(path, SLASH), member) {
      forall i | 0 <= i < |Split(path, SLASH)| ensures Free(Split(path, SLASH)[i], '\n') {
        if '\n' in Split(path, SLASH)[i] { SplitKeepsChars(path, SLASH, i, '\n'); }
      }
      MatchedHaveText(segs, Split(path, SLASH), member);
    }
  }

  // ----- Patterns that end in two double stars --------------------------------------

  predicate EndsPlain(segs: seq<string>, upTo: seq<string>) {
    upTo != [] && |upTo| <= |segs| && upTo == segs[..|upTo|] && upTo[|upTo| - 1] != STAR_STAR
  }

  /** Everything up to a plain component is emitted as if it were the whole pattern. */
  lemma {:induction false} EmitCut(segs: seq<string>, upTo: seq<string>, i: nat, baked: bool)
    requires EndsPlain(segs, upTo) && i <= |upTo| <= |segs| && (i == |upTo| ==> !baked)
    ensures Emit(segs, i, baked) == Emit(upTo, i, baked) + Emit(segs, |upTo|, false)
    decreases |upTo| - i
  {
    hide *;
    if i < |upTo| {
      PieceUpTo(segs, upTo, i, baked);
      EmitCut(segs, upTo, i + 1, Baked(segs, i));
      EmitOnce(segs, i, baked);
      EmitOnce(upTo, i, baked);
      ConcatAssociates(Piece(segs, i, baked), Emit(upTo, i + 1, Baked(upTo, i)), Emit(segs, |upTo|, false));
    } else {
      EmitNothing(upTo, baked);
    }
  }

  lemma EmitOnce(segs: seq<string>, i: nat, baked: bool)
    requires i < |segs|
    ensures Emit(segs, i, baked) == Piece(segs, i, baked) + Emit(segs, i + 1, Baked(segs, i))
  {
  }

  lemma EmitNothing(segs: seq<string>, baked: bool)
    ensures Emit(segs, |segs|, baked) == []
  {
  }

  lemma PieceUpTo(segs: seq<string>, upTo: seq<string>, i: nat, baked: bool)
    requires EndsPlain(segs, upTo) && i < |upTo| <= |segs|
    ensures Piece(segs, i, baked) == Piece(upTo, i, baked) && Baked(segs, i) == Baked(upTo, i)
    ensures i == |upTo| - 1 ==> !Baked(segs, i)
  {
    hide SegmentRegex;
  }

  /** Double stars at the end of a pattern may stand for nothing. */
  lemma {:induction false} StarsMayBeEmpty(segs: seq<string>, m: nat, comps: seq<string>, member: Membership)
    requires m <= |segs| && forall i | m <= i < |segs| :: segs[i] == STAR_STAR
    requires GlobMatches(segs[..m], comps, member)
    ensures GlobMatches(segs, comps, member)
  {
    if m == 0 {
      NothingLeft(segs, member);
    } else {
      var j := GlobUncons(segs[..m], comps, member);
      assert segs[..m][1..] == segs[1..][..m - 1];
      StarsMayBeEmpty(segs[1..], m - 1, comps[j..], member);
      assert Consumes(segs, comps, j, member);
    }
  }

  /** The last component that is not a double star. */
  lemma {:induction false} LastPlain(segs: seq<string>, n: nat) returns (m: nat)
    requires n < |segs| && segs[n] != STAR_STAR
    ensures n <= m < |segs| && segs[m] != STAR_STAR && forall i | m < i < |segs| :: segs[i] == STAR_STAR
    decreases |segs| - n
  {
    if i :| n < i < |segs| && segs[i] != STAR_STAR {
      m := LastPlain(segs, i);
    } else {
      m := n;
    }
  }

  /** After its last plain component such a regex insists on a slash, so whatever
      it matches, a shorter path is meant as well. */
  lemma ShorterIsMeant(segs: seq<string>, m: nat, path: string, member: Membership) returns (k: nat)
    requires EndsDoubled(segs) && m < |segs| && segs[m] != STAR_STAR
    requires forall i | m < i < |segs| :: segs[i] == STAR_STAR
    requires FullMatch(Emit(segs, 0, false), path, member)
    ensures k < |path| && GlobMatches(segs, Split(path[..k], SLASH), member)
  {
    EmitCut(segs, segs[..m + 1], 0, false);
    k := FullMatchCut(Emit(segs[..m + 1], 0, false), Emit(segs, m + 1, false), path, member);
    EmitShape(segs, m + 1, false);
    FullMatchOne(One(Exactly(SLASH)), Body(segs, m + 1) + After(segs, m + 1), path[k..], member);
    EmitSound(segs[..m + 1], 0, false, path[..k], member);
    assert segs[..m + 1][0..] == segs[..m + 1];
    StarsMayBeEmpty(segs, m + 1, Split(path[..k], SLASH), member);
  }

  /** So a shortest path that is meant is missed. */
  lemma {:induction false} ShortestIsMissed(segs: seq<string>, m: nat, path: string, member: Membership)
    returns (missed: string)
    requires EndsDoubled(segs) && m < |segs| && segs[m] != STAR_STAR
    requires forall i | m < i < |segs| :: segs[i] == STAR_STAR
    requires OneLine(path) && GlobMatches(segs, Split(path, SLASH), member)
    ensures OneLine(missed) && GlobMatches(segs, Split(missed, SLASH), member)
    ensures !FullMatch(Emit(segs, 0, false), missed, member)
    decreases |path|
  {
    if FullMatch(Emit(segs, 0, false), path, member) {
      var k := ShorterIsMeant(segs, m, path, member);
      missed := ShortestIsMissed(segs, m, path[..k], member);
    } else {
      missed := path;
    }
  }

  lemma StarsEmit(segs: seq<string>, i: nat)
    requires i < |segs| && EndsDoubled(segs) && forall m | 0 <= m < |segs| :: segs[m] == STAR_STAR
    ensures Emit(segs, i, i > 0) ==
            if i == |segs| - 1 then [ANY_SUFFIX] else [ANY_PREFIX] + Emit(segs, i + 1, i + 1 > 0)
  {
    EmitShape(segs, i, i > 0);
    hide Emit;
  }

  lemma AnyPrefixTakes(out: seq<Regex>, s: string, member: Membership) returns (k: nat)
    requires FullMatch([ANY_PREFIX] + out, s, member)
    ensures k <= |s| && (k == 0 || s[k - 1] == SLASH) && FullMatch(out, s[k..], member)
  {
    k := FullMatchUncons([ANY_PREFIX] + out, s, member);
    assert ([ANY_PREFIX] + out)[1..] == out;
    AnyPrefixMeaning(s[..k], member);
  }

  lemma AnySuffixAlone(s: string, member: Membership)
    requires FullMatch([ANY_SUFFIX], s, member)
    ensures s == "" || SLASH in s
  {
    var k := FullMatchUncons([ANY_SUFFIX], s, member);
    assert s[..k] == s;
    AnySuffixMeaning(s, member);
  }

  lemma {:induction false} StarsNeedSlash(segs: seq<string>, i: nat, s: string, member: Membership)
    requires i < |segs| && EndsDoubled(segs) && forall m | 0 <= m < |segs| :: segs[m] == STAR_STAR
    requires FullMatch(Emit(segs, i, i > 0), s, member)
    ensures s == "" || SLASH in s
    decreases |segs| - i
  {
    StarsEmit(segs, i);
    hide *;
    if i == |segs| - 1 {
      AnySuffixAlone(s, member);
    } else {
      var k := AnyPrefixTakes(Emit(segs, i + 1, i + 1 > 0), s, member);
      StarsNeedSlash(segs, i + 1, s[k..], member);
    }
  }

  // ----- Such a pattern ignores no path as it is written --------------------------------

  /** Two slashes in a row, or one at either end, or nothing at all. */
  predicate HasEmptyPart(s: string) {
    "" in Split(s, SLASH)
  }

  lemma EmptyPartAfter(a: string, b: string)
    requires HasEmptyPart(b)
    ensures HasEmptyPart(a + [SLASH] + b)
  {
    SplitAround(a, b, SLASH);
    var parts := Split(b, SLASH);
    var k :| 0 <= k < |parts| && parts[k] == "";
    assert (Split(a, SLASH) + parts)[|Split(a, SLASH)| + k] == "";
  }

  lemma EmptyPartFrom(s: string, k: nat)
    requires k <= |s| && (k == 0 || s[k - 1] == SLASH) && HasEmptyPart(s[k..])
    ensures HasEmptyPart(s)
  {
    if k == 0 {
      assert s[0..] == s;
    } else {
      assert s == s[..k - 1] + [SLASH] + s[k..];
      EmptyPartAfter(s[..k - 1], s[k..]);
    }
  }

  lemma EmptyPartBeyond(s: string, k: nat)
    requires k < |s| && s[k..][0] == SLASH && HasEmptyPart(s[k..][1..])
    ensures HasEmptyPart(s)
  {
    assert s == s[..k] + [SLASH] + s[k..][1..];
    EmptyPartAfter(s[..k], s[k..][1..]);
  }

  /** A plain component is followed by a separator. */
  lemma AfterPlain(segs: seq<string>, i: nat)
    requires EndsDoubled(segs) && i <= |segs| - 2 && segs[i] != STAR_STAR
    ensures i + 1 <= |segs| - 2 && NeedsSeparator(segs, i + 1, false)
  {
  }

  lemma AnySuffixEmptyPart(s: string, member: Membership)
    requires FullMatch([ANY_SUFFIX], s, member)
    ensures HasEmptyPart(s)
  {
    var k := FullMatchUncons([ANY_SUFFIX], s, member);
    assert s[..k] == s;
    AnySuffixMeaning(s, member);
    assert Split(s, SLASH)[0] == "";
  }

  lemma {:induction false} DoubledEmptyPart(segs: seq<string>, i: nat, baked: bool, s: string, member: Membership)
    requires EndsDoubled(segs) && i <= |segs| - 2 && FullMatch(Emit(segs, i, baked), s, member)
    ensures if NeedsSeparator(segs, i, baked) then s != "" && s[0] == SLASH && HasEmptyPart(s[1..]) else HasEmptyPart(s)
    decreases |segs| - i, 1
  {
    EmitShape(segs, i, baked);
    hide Emit;
    hide Body;
    hide FullMatch;
    hide HasEmptyPart;
    if NeedsSeparator(segs, i, baked) {
      FullMatchOne(One(Exactly(SLASH)), Body(segs, i) + After(segs, i), s, member);
      BodyEmptyPart(segs, i, s[1..], member);
    } else {
      BodyEmptyPart(segs, i, s, member);
    }
  }

  lemma {:induction false} BodyEmptyPart(segs: seq<string>, i: nat, s: string, member: Membership)
    requires EndsDoubled(segs) && i <= |segs| - 2 && FullMatch(Body(segs, i) + After(segs, i), s, member)
    ensures HasEmptyPart(s)
    decreases |segs| - i, 0
  {
    hide *;
    if segs[i] != STAR_STAR {
      AfterPlain(segs, i);
      var k := PlainLeavesRest(segs, i, s, member);
      DoubledEmptyPart(segs, i + 1, false, s[k..], member);
      EmptyPartBeyond(s, k);
    } else {
      var k := StarLeavesRest(segs, i, s, member);
      if i == |segs| - 2 {
        LastStar(segs);
        AnySuffixEmptyPart(s[k..], member);
      } else {
        BakedIsEnough(segs, i);
        DoubledEmptyPart(segs, i + 1, true, s[k..], member);
      }
      EmptyPartFrom(s, k);
    }
  }

  lemma PlainLeavesRest(segs: seq<string>, i: nat, s: string, member: Membership) returns (k: nat)
    requires i < |segs| - 1 && segs[i] != STAR_STAR && FullMatch(Body(segs, i) + After(segs, i), s, member)
    ensures k <= |s| && FullMatch(Emit(segs, i + 1, false), s[k..], member)
  {
    k := FullMatchCut(Body(segs, i), After(segs, i), s, member);
  }

  lemma StarLeavesRest(segs: seq<string>, i: nat, s: string, member: Membership) returns (k: nat)
    requires i < |segs| - 1 && segs[i] == STAR_STAR && FullMatch(Body(segs, i) + After(segs, i), s, member)
    ensures k <= |s| && (k == 0 || s[k - 1] == SLASH) && FullMatch(Emit(segs, i + 1, true), s[k..], member)
  {
    k := AnyPrefixTakes(After(segs, i), s, member);
  }

  lemma LastStar(segs: seq<string>)
    requires EndsDoubled(segs)
    ensures Emit(segs, |segs| - 1, true) == [ANY_SUFFIX]
  {
    EmitShape(segs, |segs| - 1, true);
  }

  lemma BakedIsEnough(segs: seq<string>, i: nat)
    requires i < |segs| - 1
    ensures !NeedsSeparator(segs, i + 1, true)
  {
  }

  /** A pattern that ends in two double stars matches no path as paths are written,
      without an empty part. */
  lemma DoubledIgnoresNothing(pattern: string, path: string, member: Membership)
    requires EndsDoubled(Split(pattern, SLASH)) && !HasEmptyPart(path)
    ensures !FullMatch(Translated(pattern), path, member)
  {
    if FullMatch(Translated(pattern), path, member) {
      DoubledEmptyPart(Split(pattern, SLASH), 0, false, path, member);
    }
  }

  lemma {:induction false} StarsMatchOne(segs: seq<string>, c: string, member: Membership)
    requires segs != [] && forall m | 0 <= m < |segs| :: segs[m] == STAR_STAR
    ensures GlobMatches(segs, [c], member)
  {
    NothingLeft(segs[1..], member);
    assert [c][1..] == [];
    assert Consumes(segs, [c], 1, member);
  }

  /** A path such a pattern means to match and its regex misses, if it means any. */
  lemma DoubledStarMisses(pattern: string, member: Membership) returns (path: string)
    requires EndsDoubled(Split(pattern, SLASH)) && AllHaveText(Split(pattern, SLASH), member)
    ensures OneLine(path) && GlobMatches(Split(pattern, SLASH), Split(path, SLASH), member)
    ensures !FullMatch(Translated(pattern), path, member)
  {
    var segs := Split(pattern, SLASH);
    if n :| 0 <= n < |segs| && segs[n] != STAR_STAR {
      var m := LastPlain(segs, n);
      MeantIff(segs, member);
      path :| OneLine(path) && GlobMatches(segs, Split(path, SLASH), member);
      path := ShortestIsMissed(segs, m, path, member);
    } else {
      path := "x";
      StarsMatchOne(segs, path, member);
      SplitOne(path, SLASH);
      if FullMatch(Translated(pattern), path, member) { StarsNeedSlash(segs, 0, path, member); }
    }
  }

  ghost predicate PreservesMeaning(pattern: string, member: Membership) {
    forall path | OneLine(path) ::
      FullMatch(Translated(pattern), path, member) <==> GlobMatches(Split(pattern, SLASH), Split(path, SLASH), member)
  }

  /** Exactly when the compiler preserves the meaning of a pattern: unless it ends
      in two double stars and has a one-line text for every component. */
  lemma MeaningPreservedIff(pattern: string, member: Membership)
    ensures PreservesMeaning(pattern, member) <==>
              !(EndsDoubled(Split(pattern, SLASH)) && AllHaveText(Split(pattern, SLASH), member))
  {
    var segs := Split(pattern, SLASH);
    if !EndsDoubled(segs) {
      forall path | OneLine(path) { CompiledGlobExact(pattern, path, member); }
    } else if AllHaveText(segs, member) {
      var path := DoubledStarMisses(pattern, member);
    } else {
      MeantIff(segs, member);
      forall path | OneLine(path) ensures !FullMatch(Translated(pattern), path, member) {
        if FullMatch(Translated(pattern), path, member) { CompiledGlobSound(pattern, path, member); }
      }
    }
  }

  predicate BracketFree(seg: string) {
    '[' !in seg && Free(seg, SLASH) && OneLine(seg)
  }

  lemma {:induction false} BracketFreeHasText(seg: string, member: Membership)
    requires '[' !in seg && OneLine(seg)
    ensures HasText(seg, member)
    decreases |seg|
  {
    if seg != "" {
      var (frag, n) := NextFragment(seg);
      BracketFreeHasText(seg[n..], member);
      assert seg[0] in seg;
      if frag.One? {
        var c := if seg[0] == '?' then 'x' else seg[0];
        assert c != '\n' && Admits(frag.cls, c, member);
      }
    }
  }

  /** For a pattern without brackets on one line, the last two components decide. */
  lemma BracketFreePreservedIff(pattern: string, member: Membership)
    requires '[' !in pattern && OneLine(pattern)
    ensures PreservesMeaning(pattern, member) <==> !EndsDoubled(Split(pattern, SLASH))
  {
    var segs := Split(pattern, SLASH);
    forall i | 0 <= i < |segs| ensures HasText(segs[i], member) {
      forall c | c in segs[i] ensures c in pattern { SplitKeepsChars(pattern, SLASH, i, c); }
      BracketFreeHasText(segs[i], member);
    }
    MeaningPreservedIff(pattern, member);
  }

  /** Why paths are taken to be one line: `**` alone matches exactly those,
      although as a pattern it means every path. */
  lemma DoubleStarAlone(path: string, member: Membership)
    ensures GlobMatches(Split(STAR_STAR, SLASH), Split(path, SLASH), member)
    ensures FullMatch(Translated(STAR_STAR), path, member) <==> OneLine(path)
  {
    SplitOne(STAR_STAR, SLASH);
    AllStarsMatch([STAR_STAR], Split(path, SLASH), member);
    EmitShape([STAR_STAR], 0, false);
    var out := [Many(Dot)];
    assert out + [] == out && Translated(STAR_STAR) == out;
    if FullMatch(out, path, member) {
      var k := FullMatchUncons(out, path, member);
      assert path[..k] == path;
    }
    if OneLine(path) {
      assert Matches(Many(Dot), path, member);
      FullMatchCons(out, path, "", member);
      assert path + "" == path;
    }
  }

  // ----- Components are never crossed --------------------------------------------

  predicate Glued(seg: string) {
    exists i | 0 <= i < |seg| - 1 :: seg[i] == '*' && seg[i + 1] == '*'
  }

  lemma {:induction false} WildcardsStayInside(seg: string, s: string, member: Membership)
    requires BracketFree(seg) && !Glued(seg) && SegmentMatches(seg, s, member)
    ensures Free(s, SLASH)
    decreases |seg|
  {
    if seg != "" {
      assert seg[0] in seg && seg[1..] <= seg[1..];
      assert forall i | 0 <= i < |seg| - 1 :: seg[1..][i] == seg[i + 1];
      if seg[0] == '*' {
        var k := StarUncons(seg, s, member);
        WildcardsStayInside(seg[1..], s[k..], member);
        assert s == s[..k] + s[k..];
      } else {
        WildcardsStayInside(seg[1..], s[1..], member);
        assert s == [s[0]] + s[1..];
      }
    }
  }

  /** The reading the documentation gives: each component but a double star takes
      exactly one component of the path. */
  ghost predicate MatchesComponentwise(segs: seq<string>, comps: seq<string>, member: Membership)
    decreases |segs|, 1
  {
    if segs == [] then comps == []
    else if segs[0] == STAR_STAR then exists j :: StarTakes(segs[1..], comps, j, member)
    else comps != [] && SegmentMatches(segs[0], comps[0], member) && MatchesComponentwise(segs[1..], comps[1..], member)
  }

  ghost predicate StarTakes(rest: seq<string>, comps: seq<string>, j: int, member: Membership)
    decreases |rest|, 2
  {
    0 <= j <= |comps| && MatchesComponentwise(rest, comps[j..], member)
  }

  lemma {:induction false} JoinHasSlash(parts: seq<string>)
    requires |parts| > 1
    ensures SLASH in Join(parts, SLASH)
  {
    assert Join(parts, SLASH)[|parts[0]|] == SLASH;
  }

  lemma {:induction false} ComponentwiseMeaning(segs: seq<string>, comps: seq<string>, member: Membership)
    requires forall i | 0 <= i < |segs| :: segs[i] == STAR_STAR || (BracketFree(segs[i]) && !Glued(segs[i]))
    ensures GlobMatches(segs, comps, member) <==> MatchesComponentwise(segs, comps, member)
  {
    if segs != [] {
      forall j | 0 <= j <= |comps| {
        ComponentwiseMeaning(segs[1..], comps[j..], member);
      }
      if GlobMatches(segs, comps, member) {
        var j := GlobUncons(segs, comps, member);
        if segs[0] == STAR_STAR {
          assert StarTakes(segs[1..], comps, j, member);
        } else {
          WildcardsStayInside(segs[0], Join(comps[..j], SLASH), member);
          if j > 1 { JoinHasSlash(comps[..j]); }
        }
      }
      if MatchesComponentwise(segs, comps, member) {
        if segs[0] == STAR_STAR {
          var j := StarTakesSome(segs, comps, member);
          assert Consumes(segs, comps, j, member);
        } else {
          assert comps[..1] == [comps[0]];
          assert Consumes(segs, comps, 1, member);
        }
      }
    }
  }

  lemma StarTakesSome(segs: seq<string>, comps: seq<string>, member: Membership) returns (j: int)
    requires segs != [] && segs[0] == STAR_STAR && MatchesComponentwise(segs, comps, member)
    ensures StarTakes(segs[1..], comps, j, member)
  {
    j :| StarTakes(segs[1..], comps, j, member);
  }

  // ----- The compiled ignore list ---------------------------------------------------

  datatype IgnoreSpec = IgnoreSpec(compiled: seq<seq<Regex>>) {
    ghost predicate Ignores(relPath: string, member: Membership) {
      exists i | 0 <= i < |compiled| :: FullMatch(compiled[i], relPath, member)
    }
  }

  /** `compile_ignore`. */
  method CompileIgnore(patterns: seq<string>) returns (spec: IgnoreSpec)
    ensures |spec.compiled| == |patterns|
    ensures forall i | 0 <= i < |patterns| :: spec.compiled[i] == Translated(patterns[i])
  {
    var compiled := [];
    for i := 0 to |patterns|
      invariant |compiled| == i
      invariant forall j | 0 <= j < i :: compiled[j] == Translated(patterns[j])
    {
      var regex := Translate(patterns[i]);
      compiled := compiled + [regex];
    }
    spec := IgnoreSpec(compiled);
  }

  /** Whatever the list, an ignored path is meant by some pattern, and a one-line
      path is ignored if a pattern means it that does not end in two `**`; for
      paths without an empty part these are the only patterns that count. */
  lemma IgnoredIffSomePatternMatches(patterns: seq<string>, spec: IgnoreSpec, relPath: string, member: Membership)
    requires |spec.compiled| == |patterns|
    requires forall i | 0 <= i < |patterns| :: spec.compiled[i] == Translated(patterns[i])
    ensures spec.Ignores(relPath, member) ==> exists i | 0 <= i < |patterns| ::
              GlobMatches(Split(patterns[i], SLASH), Split(relPath, SLASH), member)
    ensures OneLine(relPath) ==> forall i | 0 <= i < |patterns| && !EndsDoubled(Split(patterns[i], SLASH)) ::
              GlobMatches(Split(patterns[i], SLASH), Split(relPath, SLASH), member) ==> spec.Ignores(relPath, member)
    ensures OneLine(relPath) && !HasEmptyPart(relPath) ==>
              (spec.Ignores(relPath, member) <==>
                  exists i | 0 <= i < |patterns| :: MeansAlone(patterns[i], relPath, member))
  {
    if spec.Ignores(relPath, member) {
      var i :| 0 <= i < |spec.compiled| && FullMatch(spec.compiled[i], relPath, member);
      CompiledGlobSound(patterns[i], relPath, member);
      if EndsDoubled(Split(patterns[i], SLASH)) && !HasEmptyPart(relPath) {
        DoubledIgnoresNothing(patterns[i], relPath, member);
      }
      assert !HasEmptyPart(relPath) ==> MeansAlone(patterns[i], relPath, member);
    }
    forall i | OneLine(relPath) && 0 <= i < |patterns| && MeansAlone(patterns[i], relPath, member)
      ensures spec.Ignores(relPath, member)
    {
      CompiledGlobExact(patterns[i], relPath, member);
      assert FullMatch(spec.compiled[i], relPath, member);
    }
    assert forall i | 0 <= i < |patterns| && !EndsDoubled(Split(patterns[i], SLASH)) ::
      GlobMatches(Split(patterns[i], SLASH), Split(relPath, SLASH), member) ==>
          MeansAlone(patterns[i], relPath, member);
  }

  /** The pattern means the path, and does not end in two double stars. */
  ghost predicate MeansAlone(pattern: string, path: string, member: Membership) {
    !EndsDoubled(Split(pattern, SLASH)) && GlobMatches(Split(pattern, SLASH), Split(path, SLASH), member)
  }

  /** With no such pattern, and no bracket or glued `**` in a component, a path is
      ignored exactly when some pattern matches it component by component. */
  lemma IgnoredComponentwise(patterns: seq<string>, spec: IgnoreSpec, relPath: string, member: Membership)
    requires OneLine(relPath) && |spec.compiled| == |patterns|
    requires forall i | 0 <= i < |patterns| :: spec.compiled[i] == Translated(patterns[i])
    requires forall i | 0 <= i < |patterns| :: !EndsDoubled(Split(patterns[i], SLASH))
    requires forall i, j | 0 <= i < |patterns| && 0 <= j < |Split(patterns[i], SLASH)| ::
               var seg := Split(patterns[i], SLASH)[j]; seg == STAR_STAR || (BracketFree(seg) && !Glued(seg))
    ensures spec.Ignores(relPath, member) <==> exists i | 0 <= i < |patterns| ::
              MatchesComponentwise(Split(patterns[i], SLASH), Split(relPath, SLASH), member)
  {
    forall i | 0 <= i < |patterns|
      ensures FullMatch(spec.compiled[i], relPath, member) <==>
              MatchesComponentwise(Split(patterns[i], SLASH), Split(relPath, SLASH), member)
    {
      CompiledGlobExact(patterns[i], relPath, member);
      ComponentwiseMeaning(Split(patterns[i], SLASH), Split(relPath, SLASH), member);
    }
  }
}
