/** The ignore-glob compiler of code_graph_io/_ignore.py: one pass over the
    components of a pathspec glob, with a flag that remembers whether the last
    `**` already supplied its slash; and what the compiled pattern matches. */
module Glob {
  import opened Paths
  import opened Regexes
  import opened GlobSegments
  import opened GlobMeaning

  const ANY_PREFIX := Optional(Cat(Many(Dot), One(Exactly(SLASH))))
  const ANY_SUFFIX := Optional(Cat(One(Exactly(SLASH)), Many(Dot)))

  /** The fragments of one component, without the separator in front of it. */
  function Body(segs: seq<string>, i: nat): seq<Regex>
    requires i < |segs|
  {
    if segs[i] != STAR_STAR then SegmentRegex(segs[i])
    else if i < |segs| - 1 then [ANY_PREFIX]
    else if i == 0 then [Many(Dot)]
    else [ANY_SUFFIX]
  }

  predicate IsTrailingStar(segs: seq<string>, i: nat)
    requires i < |segs|
  {
    0 < i == |segs| - 1 && segs[i] == STAR_STAR
  }

  predicate NeedsSeparator(segs: seq<string>, i: nat, baked: bool)
    requires i < |segs|
  {
    i != 0 && !baked && !IsTrailingStar(segs, i)
  }

  function Piece(segs: seq<string>, i: nat, baked: bool): seq<Regex>
    requires i < |segs|
  {
    (if NeedsSeparator(segs, i, baked) then [One(Exactly(SLASH))] else []) + Body(segs, i)
  }

  function Baked(segs: seq<string>, i: nat): bool
    requires i < |segs|
  {
    segs[i] == STAR_STAR && i < |segs| - 1
  }

  function Emit(segs: seq<string>, i: nat, baked: bool): seq<Regex>
    requires i <= |segs|
    decreases |segs| - i
  {
    if i == |segs| then [] else Piece(segs, i, baked) + Emit(segs, i + 1, Baked(segs, i))
  }

  function Translated(pattern: string): seq<Regex> {
    Emit(Split(pattern, SLASH), 0, false)
  }

  /** The loop body of `_translate`: what component `i` appends, and the new
      value of the flag. */
  method TranslateComponent(segments: seq<string>, i: nat, prevBakedSlash: bool)
    returns (piece: seq<Regex>, bakedSlash: bool)
    requires i < |segments|
    ensures piece == Piece(segments, i, prevBakedSlash) && bakedSlash == Baked(segments, i)
  {
    var lastIdx := |segments| - 1;
    piece := [];
    var seg := segments[i];
    if seg == "**" {
      if i == 0 && i == lastIdx {
        piece := [Many(Dot)];
        bakedSlash := false;
      } else if i == lastIdx {
        piece := [ANY_SUFFIX];
        bakedSlash := false;
      } else {
        if i != 0 && !prevBakedSlash {
          piece := [One(Exactly(SLASH))];
        }
        piece := piece + [ANY_PREFIX];
        bakedSlash := true;
      }
    } else {
      if i != 0 && !prevBakedSlash {
        piece := [One(Exactly(SLASH))];
      }
      var fragments := TranslateSegment(seg);
      piece := piece + fragments;
      bakedSlash := false;
    }
  }

  /** `_translate`: one pass over the components of the pattern. */
  method Translate(pattern: string) returns (out: seq<Regex>)
    ensures out == Translated(pattern)
  {
    var segments := Split(pattern, SLASH);
    out := [];
    var prevBakedSlash := false;
    for i := 0 to |segments|
      invariant out + Emit(segments, i, prevBakedSlash) == Translated(pattern)
    {
      EmitStep(segments, i, prevBakedSlash, out);
      var piece, baked := TranslateComponent(segments, i, prevBakedSlash);
      out := out + piece;
      prevBakedSlash := baked;
    }
  }

  lemma EmitStep(segs: seq<string>, i: nat, baked: bool, out: seq<Regex>)
    requires i < |segs|
    ensures out + Piece(segs, i, baked) + Emit(segs, i + 1, Baked(segs, i)) == out + Emit(segs, i, baked)
  {
  }

  predicate EndsDoubled(segs: seq<string>) {
    |segs| >= 2 && segs[|segs| - 1] == STAR_STAR && segs[|segs| - 2] == STAR_STAR
  }

  lemma AnyPrefixMeaning(s: string, member: Membership)
    ensures Matches(ANY_PREFIX, s, member) <==>
            s == "" || (s[|s| - 1] == SLASH && OneLine(s[..|s| - 1]))
  {
    hide Matches;
    OptionalMatch(ANY_PREFIX.inner, s, member);
    if s != "" && s[|s| - 1] == SLASH && OneLine(s[..|s| - 1]) {
      var k := |s| - 1;
      ManyDots(s[..k], member);
      OneSlash(s[k..], member);
      CatMatch(Many(Dot), One(Exactly(SLASH)), s, k, member);
    }
    if s != "" && Matches(ANY_PREFIX.inner, s, member) {
      var k := CatUncons(Many(Dot), One(Exactly(SLASH)), s, member);
      ManyDots(s[..k], member);
      OneSlash(s[k..], member);
      assert |s[k..]| == 1 && s[k..][0] == SLASH;
    }
  }

  lemma AnySuffixMeaning(s: string, member: Membership)
    ensures Matches(ANY_SUFFIX, s, member) <==> s == "" || (s[0] == SLASH && OneLine(s[1..]))
  {
    hide Matches;
    OptionalMatch(ANY_SUFFIX.inner, s, member);
    if s != "" && s[0] == SLASH && OneLine(s[1..]) {
      OneSlash(s[..1], member);
      ManyDots(s[1..], member);
      CatMatch(One(Exactly(SLASH)), Many(Dot), s, 1, member);
    }
    if s != "" && Matches(ANY_SUFFIX.inner, s, member) {
      var k := CatUncons(One(Exactly(SLASH)), Many(Dot), s, member);
      OneSlash(s[..k], member);
      ManyDots(s[k..], member);
      assert |s[..k]| == 1 && s[..k][0] == SLASH;
    }
  }

  /** What the fragments emitted from component `i` on should denote. */
  ghost predicate Meaning(segs: seq<string>, i: nat, baked: bool, s: string, member: Membership)
    requires i <= |segs|
  {
    if i == 0 || baked then GlobMatches(segs[i..], Split(s, SLASH), member)
    else TailMatches(segs[i..], s, member)
  }

  /** The positions and flags the loop of `_translate` passes through. */
  ghost predicate Reachable(segs: seq<string>, i: nat, baked: bool) {
    i <= |segs| && (i == 0 ==> |segs| > 0 && !baked) && (baked ==> 0 < i < |segs| && segs[i - 1] == STAR_STAR)
  }

  function After(segs: seq<string>, i: nat): seq<Regex>
    requires i < |segs|
  {
    Emit(segs, i + 1, Baked(segs, i))
  }

  lemma TrailingStarMeaning(s: string, member: Membership)
    ensures FullMatch([ANY_SUFFIX], s, member) ==> TailMatches([STAR_STAR], s, member)
    ensures OneLine(s) && TailMatches([STAR_STAR], s, member) ==> FullMatch([ANY_SUFFIX], s, member)
  {
    AnySuffixMeaning(s, member);
    AllStarsMatch([STAR_STAR], [], member);
    if s != "" { AllStarsMatch([STAR_STAR], Split(s[1..], SLASH), member); }
    if FullMatch([ANY_SUFFIX], s, member) {
      var k := FullMatchUncons([ANY_SUFFIX], s, member);
      assert s[..k] == s;
    }
    if Matches(ANY_SUFFIX, s, member) {
      FullMatchCons([ANY_SUFFIX], s, "", member);
      assert s + "" == s;
    }
  }

  lemma EmitShape(segs: seq<string>, i: nat, baked: bool)
    requires i < |segs|
    ensures Emit(segs, i, baked) ==
            if IsTrailingStar(segs, i) then [ANY_SUFFIX]
            else if NeedsSeparator(segs, i, baked) then [One(Exactly(SLASH))] + (Body(segs, i) + After(segs, i))
            else Body(segs, i) + After(segs, i)
  {
  }

  // The emitted fragments never match more than the pattern means ...

  lemma {:induction false} EmitSound(segs: seq<string>, i: nat, baked: bool, s: string, member: Membership)
    requires Reachable(segs, i, baked) && FullMatch(Emit(segs, i, baked), s, member)
    ensures Meaning(segs, i, baked, s, member)
    decreases |segs| - i, 1
  {
    if i < |segs| {
      EmitShape(segs, i, baked);
      if IsTrailingStar(segs, i) {
        assert segs[i..] == [STAR_STAR];
        TrailingStarMeaning(s, member);
        AllStarsMatch(segs[i..], Split(s, SLASH), member);
      } else if NeedsSeparator(segs, i, baked) {
        FullMatchOne(One(Exactly(SLASH)), Body(segs, i) + After(segs, i), s, member);
        BodySound(segs, i, s[1..], member);
      } else {
        BodySound(segs, i, s, member);
      }
    }
  }

  lemma {:induction false} BodySound(segs: seq<string>, i: nat, s: string, member: Membership)
    requires i < |segs| && !IsTrailingStar(segs, i)
    requires FullMatch(Body(segs, i) + After(segs, i), s, member)
    ensures GlobMatches(segs[i..], Split(s, SLASH), member)
    decreases |segs| - i, 0
  {
    var k := FullMatchCut(Body(segs, i), After(segs, i), s, member);
    assert segs[i..][1..] == segs[i + 1..];
    EmitSound(segs, i + 1, Baked(segs, i), s[k..], member);
    if segs[i] != STAR_STAR {
      SegmentRegexMeaning(segs[i], s[..k], member);
      PlainAbsorbs(segs[i..], s, k, member);
    } else if i == |segs| - 1 {
      AllStarsMatch(segs[i..], Split(s, SLASH), member);
    } else {
      var m := FullMatchUncons([ANY_PREFIX], s[..k], member);
      assert s[..k][..m] == s[..k];
      AnyPrefixMeaning(s[..k], member);
      StarAbsorbs(segs[i..], s, k, member);
    }
  }

  // ... and, unless the pattern ends in two double stars, never match less.

  lemma {:induction false} EmitComplete(segs: seq<string>, i: nat, baked: bool, s: string, member: Membership)
    requires Reachable(segs, i, baked) && OneLine(s) && !EndsDoubled(segs)
    requires Meaning(segs, i, baked, s, member)
    ensures FullMatch(Emit(segs, i, baked), s, member)
    decreases |segs| - i, 1
  {
    if i < |segs| {
      EmitShape(segs, i, baked);
      if IsTrailingStar(segs, i) {
        assert segs[i..] == [STAR_STAR];
        TrailingStarMeaning(s, member);
      } else if NeedsSeparator(segs, i, baked) {
        TailNotAbsent(segs, i, s, member);
        BodyComplete(segs, i, s[1..], member);
        FullMatchOne(One(Exactly(SLASH)), Body(segs, i) + After(segs, i), s, member);
      } else {
        BodyComplete(segs, i, s, member);
      }
    } else {
      assert segs[i..] == [];
    }
  }

  lemma NotAllStars(segs: seq<string>, i: nat)
    requires i < |segs| && !EndsDoubled(segs) && (i < |segs| - 1 || segs[i] != STAR_STAR)
    ensures exists m | 0 <= m < |segs[i..]| :: segs[i..][m] != STAR_STAR
  {
    if segs[i] == STAR_STAR {
      var n := |segs| - i;
      assert segs[i..][n - 1] == segs[|segs| - 1] && segs[i..][n - 2] == segs[|segs| - 2];
    } else {
      assert segs[i..][0] == segs[i];
    }
  }

  lemma TailNotAbsent(segs: seq<string>, i: nat, s: string, member: Membership)
    requires i < |segs| && !EndsDoubled(segs) && (i < |segs| - 1 || segs[i] != STAR_STAR)
    requires TailMatches(segs[i..], s, member)
    ensures s != "" && s[0] == SLASH && GlobMatches(segs[i..], Split(s[1..], SLASH), member)
  {
    NotAllStars(segs, i);
    NothingLeft(segs[i..], member);
  }

  lemma {:induction false} BodyComplete(segs: seq<string>, i: nat, s: string, member: Membership)
    requires i < |segs| && !IsTrailingStar(segs, i) && OneLine(s) && !EndsDoubled(segs)
    requires GlobMatches(segs[i..], Split(s, SLASH), member)
    ensures FullMatch(Body(segs, i) + After(segs, i), s, member)
    decreases |segs| - i, 0
  {
    var k := BodyTakes(segs, i, s, member);
    hide Matches;
    hide FullMatch;
    hide GlobMatches;
    hide Emit;
    hide Body;
    hide Split;
    hide Meaning;
    EmitComplete(segs, i + 1, Baked(segs, i), s[k..], member);
    FullMatchJoin(Body(segs, i), After(segs, i), s[..k], s[k..], member);
    assert s == s[..k] + s[k..];
  }

  lemma BodyTakes(segs: seq<string>, i: nat, s: string, member: Membership) returns (k: nat)
    requires i < |segs| && !IsTrailingStar(segs, i) && OneLine(s) && !EndsDoubled(segs)
    requires GlobMatches(segs[i..], Split(s, SLASH), member)
    ensures k <= |s| && FullMatch(Body(segs, i), s[..k], member)
    ensures Meaning(segs, i + 1, Baked(segs, i), s[k..], member)
  {
    assert segs[i..][1..] == segs[i + 1..] && segs[i..][0] == segs[i];
    if segs[i] != STAR_STAR {
      k := PlainLeaves(segs[i..], s, member);
      SegmentRegexMeaning(segs[i], s[..k], member);
    } else {
      if i == |segs| - 1 {
        k := |s|;
      } else {
        NothingLeft(segs[i + 1..], member);
        NotAllStars(segs, i + 1);
        k := StarLeaves(segs[i..], s, member);
        AnyPrefixMeaning(s[..k], member);
      }
      FullMatchCons(Body(segs, i), s[..k], "", member);
      assert s[..k] + "" == s[..k];
    }
  }

  /** Soundness, for every pattern and path: the compiled regex matches no path
      that the pattern's components do not. */
  lemma CompiledGlobSound(pattern: string, path: string, member: Membership)
    requires FullMatch(Translated(pattern), path, member)
    ensures GlobMatches(Split(pattern, SLASH), Split(path, SLASH), member)
  {
    EmitSound(Split(pattern, SLASH), 0, false, path, member);
  }

  /** The compiler preserves meaning on every pattern that does not end in two
      double stars. */
  lemma CompiledGlobExact(pattern: string, path: string, member: Membership)
    requires OneLine(path) && !EndsDoubled(Split(pattern, SLASH))
    ensures FullMatch(Translated(pattern), path, member) <==>
            GlobMatches(Split(pattern, SLASH), Split(path, SLASH), member)
  {
    if FullMatch(Translated(pattern), path, member) { CompiledGlobSound(pattern, path, member); }
    if GlobMatches(Split(pattern, SLASH), Split(path, SLASH), member) {
      EmitComplete(Split(pattern, SLASH), 0, false, path, member);
    }
  }
}
