/** What a whole glob means (code_graph_io/_ignore.py), component by component, and
    how its parts share out a path. */
module GlobMeaning {
  import opened Paths
  import opened Regexes
  import opened GlobSegments

  /** What a pattern means: its components, in order, consume the components of
      the path.  A standalone `**` consumes any number of whole components; every
      other component consumes a nonempty run whose text it matches. */
  ghost predicate GlobMatches(segs: seq<string>, comps: seq<string>, member: Membership)
    decreases |segs|, 1
  {
    if segs == [] then comps == [] else exists j :: Consumes(segs, comps, j, member)
  }

  ghost predicate Consumes(segs: seq<string>, comps: seq<string>, j: int, member: Membership)
    requires segs != []
    decreases |segs|, 0
  {
    && 0 <= j <= |comps|
    && (segs[0] == STAR_STAR || (j > 0 && SegmentMatches(segs[0], Join(comps[..j], SLASH), member)))
    && GlobMatches(segs[1..], comps[j..], member)
  }

  lemma GlobUncons(segs: seq<string>, comps: seq<string>, member: Membership) returns (j: nat)
    requires segs != [] && GlobMatches(segs, comps, member)
    ensures Consumes(segs, comps, j, member)
  {
    j :| Consumes(segs, comps, j, member);
  }

  /** No component after a double star can match an absent path, unless every
      one of them is a double star too. */
  lemma {:induction false} NothingLeft(segs: seq<string>, member: Membership)
    ensures GlobMatches(segs, [], member) <==> forall i | 0 <= i < |segs| :: segs[i] == STAR_STAR
  {
    if segs != [] {
      NothingLeft(segs[1..], member);
      if GlobMatches(segs, [], member) {
        var j := GlobUncons(segs, [], member);
      }
      if segs[0] == STAR_STAR && GlobMatches(segs[1..], [], member) {
        assert Consumes(segs, [], 0, member);
      }
    }
  }

  /** What may follow the text of a plain component: nothing, if the rest of the
      pattern can be absent, or a slash and then a path the rest matches. */
  ghost predicate TailMatches(rest: seq<string>, t: string, member: Membership) {
    if t == "" then GlobMatches(rest, [], member)
    else t[0] == SLASH && GlobMatches(rest, Split(t[1..], SLASH), member)
  }

  lemma StarAbsorbs(segs: seq<string>, s: string, k: nat, member: Membership)
    requires segs != [] && segs[0] == STAR_STAR && k <= |s|
    requires k == 0 || s[k - 1] == SLASH
    requires GlobMatches(segs[1..], Split(s[k..], SLASH), member)
    ensures GlobMatches(segs, Split(s, SLASH), member)
  {
    if k == 0 {
      assert s[0..] == s && Split(s, SLASH)[0..] == Split(s, SLASH);
      assert Consumes(segs, Split(s, SLASH), 0, member);
    } else {
      SplitAt(s, k - 1, SLASH);
      var j := |Split(s[..k - 1], SLASH)|;
      assert Split(s, SLASH)[j..] == Split(s[k..], SLASH);
      assert Consumes(segs, Split(s, SLASH), j, member);
    }
  }

  lemma StarLeaves(segs: seq<string>, s: string, member: Membership) returns (k: nat)
    requires segs != [] && segs[0] == STAR_STAR && !GlobMatches(segs[1..], [], member)
    requires GlobMatches(segs, Split(s, SLASH), member)
    ensures k <= |s| && (k == 0 || s[k - 1] == SLASH)
    ensures GlobMatches(segs[1..], Split(s[k..], SLASH), member)
  {
    var comps := Split(s, SLASH);
    var j := GlobUncons(segs, comps, member);
    assert comps[|comps|..] == [];
    if j == 0 {
      assert comps[0..] == comps && s[0..] == s;
      k := 0;
    } else {
      k := CutAt(s, j, SLASH);
      k := k + 1;
    }
  }

  lemma PlainAbsorbs(segs: seq<string>, s: string, k: nat, member: Membership)
    requires segs != [] && segs[0] != STAR_STAR && k <= |s|
    requires SegmentMatches(segs[0], s[..k], member) && TailMatches(segs[1..], s[k..], member)
    ensures GlobMatches(segs, Split(s, SLASH), member)
  {
    var comps := Split(s, SLASH);
    if k == |s| {
      JoinSplit(s, SLASH);
      assert s[..k] == s && comps[..|comps|] == comps && comps[|comps|..] == [];
      assert Consumes(segs, comps, |comps|, member);
    } else {
      SplitAt(s, k, SLASH);
      var j := |Split(s[..k], SLASH)|;
      assert comps[..j] == Split(s[..k], SLASH) && comps[j..] == Split(s[k + 1..], SLASH);
      assert s[k..][1..] == s[k + 1..];
      JoinSplit(s[..k], SLASH);
      assert Consumes(segs, comps, j, member);
    }
  }

  lemma PlainLeaves(segs: seq<string>, s: string, member: Membership) returns (k: nat)
    requires segs != [] && segs[0] != STAR_STAR && GlobMatches(segs, Split(s, SLASH), member)
    ensures k <= |s| && SegmentMatches(segs[0], s[..k], member) && TailMatches(segs[1..], s[k..], member)
  {
    var comps := Split(s, SLASH);
    var j := GlobUncons(segs, comps, member);
    if j == |comps| {
      JoinSplit(s, SLASH);
      k := |s|;
      assert s[..k] == s && comps[..j] == comps && comps[j..] == [];
    } else {
      k := CutAt(s, j, SLASH);
      assert s[k..][1..] == s[k + 1..];
    }
  }

  lemma {:induction false} AllStarsMatch(segs: seq<string>, comps: seq<string>, member: Membership)
    requires segs == [STAR_STAR]
    ensures GlobMatches(segs, comps, member)
  {
    assert comps[|comps|..] == [];
    assert Consumes(segs, comps, |comps|, member);
  }
}
