/** The regular expressions that the glob compiler emits, a sequence of fragments
    at a time, and what they match. */
module Regexes {
  /** One-character classes the compiler emits.  `Dot` is the regex `.`, which in
      Python does not match a newline. */
  datatype CharClass = Dot | NotSlash | Exactly(c: char) | Bracket(text: string)

  /** The regex operators the compiler emits; `Many` is a starred class. */
  datatype Regex =
    | One(cls: CharClass)
    | Many(cls: CharClass)
    | Cat(left: Regex, right: Regex)
    | Optional(inner: Regex)

  /** What a bracket expression's text admits is a parameter throughout. */
  type Membership = (string, char) -> bool

  const SLASH := '/'
  const STAR_STAR := "**"

  predicate OneLine(s: string) {
    '\n' !in s
  }

  predicate Admits(cls: CharClass, c: char, member: Membership) {
    match cls
    case Dot => c != '\n'
    case NotSlash => c != SLASH
    case Exactly(d) => c == d
    case Bracket(text) => member(text, c)
  }

  ghost predicate Matches(r: Regex, s: string, member: Membership)
    decreases r
  {
    match r
    case One(cls) => |s| == 1 && Admits(cls, s[0], member)
    case Many(cls) => forall i | 0 <= i < |s| :: Admits(cls, s[i], member)
    case Cat(left, right) =>
      exists k | 0 <= k <= |s| :: Matches(left, s[..k], member) && Matches(right, s[k..], member)
    case Optional(inner) => s == "" || Matches(inner, s, member)
  }

  /** A fragment sequence denotes the concatenation of its fragments: this is
      what `fullmatch` asks of the joined regex. */
  ghost predicate FullMatch(out: seq<Regex>, s: string, member: Membership)
    decreases |out|, 1
  {
    if out == [] then s == "" else exists k :: FullMatchAt(out, s, k, member)
  }

  ghost predicate FullMatchAt(out: seq<Regex>, s: string, k: int, member: Membership)
    requires out != []
    decreases |out|, 0
  {
    0 <= k <= |s| && Matches(out[0], s[..k], member) && FullMatch(out[1..], s[k..], member)
  }

  lemma ManyDots(s: string, member: Membership)
    ensures Matches(Many(Dot), s, member) <==> OneLine(s)
  {
  }

  lemma OneSlash(s: string, member: Membership)
    ensures Matches(One(Exactly(SLASH)), s, member) <==> s == [SLASH]
  {
  }

  lemma CatMatch(left: Regex, right: Regex, s: string, k: nat, member: Membership)
    requires k <= |s| && Matches(left, s[..k], member) && Matches(right, s[k..], member)
    ensures Matches(Cat(left, right), s, member)
  {
  }

  lemma CatUncons(left: Regex, right: Regex, s: string, member: Membership) returns (k: nat)
    requires Matches(Cat(left, right), s, member)
    ensures k <= |s| && Matches(left, s[..k], member) && Matches(right, s[k..], member)
  {
    k :| 0 <= k <= |s| && Matches(left, s[..k], member) && Matches(right, s[k..], member);
  }

  lemma OptionalMatch(inner: Regex, s: string, member: Membership)
    ensures Matches(Optional(inner), s, member) <==> s == "" || Matches(inner, s, member)
  {
  }

  lemma FullMatchCons(out: seq<Regex>, x: string, y: string, member: Membership)
    requires out != [] && Matches(out[0], x, member) && FullMatch(out[1..], y, member)
    ensures FullMatch(out, x + y, member)
  {
    assert (x + y)[..|x|] == x && (x + y)[|x|..] == y;
    assert FullMatchAt(out, x + y, |x|, member);
  }

  lemma {:induction false} FullMatchJoin(a: seq<Regex>, b: seq<Regex>, x: string, y: string, member: Membership)
    requires FullMatch(a, x, member) && FullMatch(b, y, member)
    ensures FullMatch(a + b, x + y, member)
    decreases |a|
  {
    if a == [] {
      assert a + b == b && x + y == y;
    } else {
      var k := FullMatchUncons(a, x, member);
      FullMatchJoin(a[1..], b, x[k..], y, member);
      assert (a + b)[1..] == a[1..] + b;
      FullMatchCons(a + b, x[..k], x[k..] + y, member);
      assert x + y == x[..k] + (x[k..] + y);
    }
  }

  lemma FullMatchUncons(out: seq<Regex>, s: string, member: Membership) returns (k: nat)
    requires out != [] && FullMatch(out, s, member)
    ensures k <= |s| && Matches(out[0], s[..k], member) && FullMatch(out[1..], s[k..], member)
  {
    k :| FullMatchAt(out, s, k, member);
  }

  lemma {:induction false} FullMatchCut(a: seq<Regex>, b: seq<Regex>, s: string, member: Membership) returns (k: nat)
    requires FullMatch(a + b, s, member)
    ensures k <= |s| && FullMatch(a, s[..k], member) && FullMatch(b, s[k..], member)
  {
    if a == [] {
      assert a + b == b;
      k := 0;
    } else {
      assert (a + b)[1..] == a[1..] + b;
      var j := FullMatchUncons(a + b, s, member);
      var m := FullMatchCut(a[1..], b, s[j..], member);
      k := j + m;
      assert s[..k] == s[..j] + s[j..][..m] && s[k..] == s[j..][m..];
      FullMatchCons(a, s[..j], s[j..][..m], member);
    }
  }
}
