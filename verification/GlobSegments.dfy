/** One component of a glob (code_graph_io/_ignore.py): a scan that turns it into
    regular-expression fragments, and the proof that these denote what it means. */
module GlobSegments {
  import opened Paths
  import opened Regexes

  /** The first index at or after `from` that holds `c`. */
  function FindFrom(s: string, c: char, from: nat): (at: Option<nat>)
    ensures at.Some? ==> from <= at.value < |s| && s[at.value] == c && c !in s[from..at.value]
    ensures at.None? ==> forall k | from <= k < |s| :: s[k] != c
    decreases |s| - from
  {
    if from >= |s| then None
    else if s[from] == c then Some(from)
    else FindFrom(s, c, from + 1)
  }

  /** Where a bracket expression opened at `start` may first be closed: past a
      leading `!` and past a literal `]` standing first. */
  function BodyStart(s: string, start: nat): (j: nat)
    ensures start < j <= start + 3
  {
    var j := if start + 1 < |s| && s[start + 1] == '!' then start + 2 else start + 1;
    if j < |s| && s[j] == ']' then j + 1 else j
  }

  function ClosingBracket(s: string, start: nat): (end: Option<nat>)
    ensures end.Some? ==> start + 1 < end.value < |s|
  {
    FindFrom(s, ']', BodyStart(s, start))
  }

  /** A bracket fragment rides through with a leading `!` turned into `^`. */
  function ClassText(frag: string): string {
    if |frag| > 1 && frag[1] == '!' then "[^" + frag[2..] else frag
  }

  /** `_bracket_end`: the scan for the closing `]`. */
  method BracketEnd(pattern: string, start: nat) returns (end: Option<nat>)
    requires start < |pattern|
    ensures end == ClosingBracket(pattern, start)
  {
    var n := |pattern|;
    var j := start + 1;
    if j < n && pattern[j] == '!' {
      j := j + 1;
    }
    if j < n && pattern[j] == ']' {
      j := j + 1;
    }
    while j < n && pattern[j] != ']'
      invariant BodyStart(pattern, start) <= j
      invariant FindFrom(pattern, ']', j) == ClosingBracket(pattern, start)
    {
      j := j + 1;
    }
    end := if j < n then Some(j) else None;
  }

  /** What one pattern component means, read directly off its characters: `*` is
      any slash-free text, `?` one character other than a slash, a glued `**` any
      text on one line, a closed bracket one admitted character, and everything
      else itself. */
  ghost predicate SegmentMatches(seg: string, s: string, member: Membership)
    decreases |seg|, 0
  {
    if seg == "" then s == ""
    else if STAR_STAR <= seg then exists k :: AnyTextThen(seg[2..], s, k, member)
    else if seg[0] == '*' then exists k :: SlashFreeThen(seg[1..], s, k, member)
    else if seg[0] == '?' then
      s != "" && s[0] != SLASH && SegmentMatches(seg[1..], s[1..], member)
    else if seg[0] == '[' && ClosingBracket(seg, 0).Some? then
      var end := ClosingBracket(seg, 0).value;
      s != "" && member(ClassText(seg[..end + 1]), s[0]) && SegmentMatches(seg[end + 1..], s[1..], member)
    else
      s != "" && s[0] == seg[0] && SegmentMatches(seg[1..], s[1..], member)
  }

  ghost predicate AnyTextThen(seg: string, s: string, k: int, member: Membership)
    decreases |seg|, 1
  {
    0 <= k <= |s| && OneLine(s[..k]) && SegmentMatches(seg, s[k..], member)
  }

  ghost predicate SlashFreeThen(seg: string, s: string, k: int, member: Membership)
    decreases |seg|, 1
  {
    0 <= k <= |s| && Free(s[..k], SLASH) && SegmentMatches(seg, s[k..], member)
  }

  /** The fragments emitted for one component, and how much of it they consume. */
  function NextFragment(seg: string): (r: (Regex, nat))
    requires seg != ""
    ensures 0 < r.1 <= |seg|
  {
    if STAR_STAR <= seg then (Many(Dot), 2)
    else if seg[0] == '*' then (Many(NotSlash), 1)
    else if seg[0] == '?' then (One(NotSlash), 1)
    else if seg[0] == '[' && ClosingBracket(seg, 0).Some? then
      var end := ClosingBracket(seg, 0).value;
      (One(Bracket(ClassText(seg[..end + 1]))), end + 1)
    else (One(Exactly(seg[0])), 1)
  }

  function SegmentRegex(seg: string): seq<Regex>
    decreases |seg|
  {
    if seg == "" then []
    else var (frag, n) := NextFragment(seg); [frag] + SegmentRegex(seg[n..])
  }

  lemma {:induction false} FindFromSuffix(s: string, c: char, i: nat, from: nat)
    requires i <= from && i <= |s|
    ensures FindFrom(s, c, from) == match FindFrom(s[i..], c, from - i) case None => None case Some(j) => Some(i + j)
    decreases |s| - from
  {
    if from < |s| { FindFromSuffix(s, c, i, from + 1); }
  }

  lemma ClosingBracketSuffix(s: string, i: nat)
    requires i < |s|
    ensures ClosingBracket(s, i) ==
            match ClosingBracket(s[i..], 0) case None => None case Some(j) => Some(i + j)
  {
    FindFromSuffix(s, ']', i, BodyStart(s, i));
  }

  /** One step of `_translate_segment`: the fragment that starts at `i`, and
      where the scan goes on. */
  method TranslateNext(segment: string, i: nat) returns (frag: Regex, next: nat)
    requires i < |segment|
    ensures (frag, next - i) == NextFragment(segment[i..])
  {
    ghost var rest := segment[i..];
    var n, c := |segment|, segment[i];
    if c == '*' {
      if i + 1 < n && segment[i + 1] == '*' {
        frag, next := Many(Dot), i + 2;
      } else {
        assert !(STAR_STAR <= rest);
        frag, next := Many(NotSlash), i + 1;
      }
    } else if c == '?' {
      frag, next := One(NotSlash), i + 1;
    } else if c == '[' {
      var end := BracketEnd(segment, i);
      ClosingBracketSuffix(segment, i);
      if end == None {
        frag, next := One(Exactly(c)), i + 1;
      } else {
        var text := segment[i..end.value + 1];
        assert text == rest[..end.value - i + 1];
        if text[1] == '!' {
          text := "[^" + text[2..];
        }
        frag, next := One(Bracket(text)), end.value + 1;
      }
    } else {
      frag, next := One(Exactly(c)), i + 1;
    }
  }

  /** `_translate_segment`: the left-to-right scan of one component. */
  method TranslateSegment(segment: string) returns (out: seq<Regex>)
    ensures out == SegmentRegex(segment)
  {
    out := [];
    var i, n := 0, |segment|;
    while i < n
      invariant i <= n
      invariant out + SegmentRegex(segment[i..]) == SegmentRegex(segment)
    {
      var frag, next := TranslateNext(segment, i);
      SegmentRegexStep(segment, i, frag, next, out);
      out := out + [frag];
      i := next;
    }
    assert segment[n..] == "";
  }

  lemma SegmentRegexStep(segment: string, i: nat, frag: Regex, next: nat, out: seq<Regex>)
    requires i < |segment| && (frag, next - i) == NextFragment(segment[i..])
    ensures (out + [frag]) + SegmentRegex(segment[next..]) == out + SegmentRegex(segment[i..])
  {
    var rest := segment[i..];
    assert rest[next - i..] == segment[next..];
    ConcatAssociates(out, [frag], SegmentRegex(segment[next..]));
  }

  lemma ConcatAssociates<T>(a: seq<T>, b: seq<T>, c: seq<T>)
    ensures (a + b) + c == a + (b + c)
  {
  }

  lemma FullMatchOne(frag: Regex, out: seq<Regex>, s: string, member: Membership)
    requires frag.One?
    ensures FullMatch([frag] + out, s, member) <==>
            s != "" && Admits(frag.cls, s[0], member) && FullMatch(out, s[1..], member)
  {
    assert ([frag] + out)[1..] == out;
    if FullMatch([frag] + out, s, member) {
      var k := FullMatchUncons([frag] + out, s, member);
    }
    if s != "" && Admits(frag.cls, s[0], member) && FullMatch(out, s[1..], member) {
      assert s == s[..1] + s[1..];
      FullMatchCons([frag] + out, s[..1], s[1..], member);
    }
  }

  lemma StarUncons(seg: string, s: string, member: Membership) returns (k: nat)
    requires seg != "" && seg[0] == '*' && SegmentMatches(seg, s, member)
    ensures k <= |s| && SegmentMatches(seg[NextFragment(seg).1..], s[k..], member)
    ensures if STAR_STAR <= seg then OneLine(s[..k]) else Free(s[..k], SLASH)
  {
    if STAR_STAR <= seg {
      k :| AnyTextThen(seg[2..], s, k, member);
    } else {
      k :| SlashFreeThen(seg[1..], s, k, member);
    }
  }

  /** The fragments of a component denote exactly what the component means. */
  lemma {:induction false} SegmentRegexMeaning(seg: string, s: string, member: Membership)
    ensures FullMatch(SegmentRegex(seg), s, member) <==> SegmentMatches(seg, s, member)
    decreases |seg|
  {
    if seg != "" {
      var (frag, n) := NextFragment(seg);
      var out := SegmentRegex(seg[n..]);
      assert SegmentRegex(seg) == [frag] + out && ([frag] + out)[1..] == out;
      if frag.One? {
        FullMatchOne(frag, out, s, member);
        if s != "" { SegmentRegexMeaning(seg[n..], s[1..], member); }
      } else {
        forall k | 0 <= k <= |s| {
          SegmentRegexMeaning(seg[n..], s[k..], member);
        }
        if FullMatch([frag] + out, s, member) {
          var k := FullMatchUncons([frag] + out, s, member);
          assert if frag.cls == Dot then AnyTextThen(seg[n..], s, k, member) else SlashFreeThen(seg[n..], s, k, member);
        }
        if SegmentMatches(seg, s, member) {
          var k := StarUncons(seg, s, member);
          assert s == s[..k] + s[k..];
          FullMatchCons([frag] + out, s[..k], s[k..], member);
        }
      }
    }
  }
}
