/** Separator-delimited strings: the split and join that paths, dotted keys and
    resource URIs all share.  Splitting the empty string yields one empty part,
    as it does in Python. */
module Paths {

  datatype Option<+T> = None | Some(value: T) {
    function GetOr(default: T): T {
      if Some? then value else default
    }
  }

  predicate Free(s: string, sep: char) {
    sep !in s
  }

  predicate AllFree(parts: seq<string>, sep: char) {
    forall i | 0 <= i < |parts| :: Free(parts[i], sep)
  }

  function Split(s: string, sep: char): (parts: seq<string>)
    ensures |parts| > 0
    ensures AllFree(parts, sep)
  {
    if s == "" then [""]
    else
      var rest := Split(s[1..], sep);
      if s[0] == sep then [""] + rest else [[s[0]] + rest[0]] + rest[1..]
  }

  function Join(parts: seq<string>, sep: char): string
    requires |parts| > 0
  {
    if |parts| == 1 then parts[0] else parts[0] + [sep] + Join(parts[1..], sep)
  }

  lemma {:induction false} JoinSplit(s: string, sep: char)
    ensures Join(Split(s, sep), sep) == s
  {
    if s != "" {
      JoinSplit(s[1..], sep);
      var rest := Split(s[1..], sep);
      if s[0] == sep {
        assert ([""] + rest)[1..] == rest;
      } else {
        var parts := [[s[0]] + rest[0]] + rest[1..];
        if |rest| > 1 { assert parts[1..] == rest[1..]; }
      }
    }
  }

  /** Prefixing one non-separator character extends the first part only. */
  lemma {:induction false} SplitFreePrefix(p: string, s: string, sep: char)
    requires Free(p, sep)
    ensures Split(p + s, sep) == [p + Split(s, sep)[0]] + Split(s, sep)[1..]
  {
    if p == "" {
      assert p + s == s;
      assert p + Split(s, sep)[0] == Split(s, sep)[0];
    } else {
      assert (p + s)[1..] == p[1..] + s;
      SplitFreePrefix(p[1..], s, sep);
      assert [p[0]] + (p[1..] + Split(s, sep)[0]) == p + Split(s, sep)[0];
    }
  }

  lemma {:induction false} SplitJoin(parts: seq<string>, sep: char)
    requires |parts| > 0 && AllFree(parts, sep)
    ensures Split(Join(parts, sep), sep) == parts
  {
    if |parts| == 1 {
      SplitFreePrefix(parts[0], "", sep);
      assert parts[0] + "" == parts[0];
    } else {
      SplitJoin(parts[1..], sep);
      var tail := [sep] + Join(parts[1..], sep);
      assert tail[1..] == Join(parts[1..], sep);
      assert parts[0] + [sep] + Join(parts[1..], sep) == parts[0] + tail;
      SplitFreePrefix(parts[0], tail, sep);
      assert Split(tail, sep) == [""] + parts[1..];
      assert parts[0] + "" == parts[0];
    }
  }

  lemma {:induction false} JoinConcat(a: seq<string>, b: seq<string>, sep: char)
    requires |a| > 0 && |b| > 0
    ensures Join(a + b, sep) == Join(a, sep) + [sep] + Join(b, sep)
  {
    if |a| == 1 {
      assert (a + b)[1..] == b;
    } else {
      assert (a + b)[1..] == a[1..] + b;
      JoinConcat(a[1..], b, sep);
      var x, y := Join(a[1..], sep), Join(b, sep);
      assert a[0] + [sep] + (x + [sep] + y) == (a[0] + [sep] + x) + [sep] + y;
    }
  }

  /** A separator at position k cuts the parts in two. */
  lemma {:induction false} SplitAround(a: string, b: string, sep: char)
    ensures Split(a + [sep] + b, sep) == Split(a, sep) + Split(b, sep)
  {
    JoinSplit(a, sep);
    JoinSplit(b, sep);
    JoinConcat(Split(a, sep), Split(b, sep), sep);
    SplitJoin(Split(a, sep) + Split(b, sep), sep);
  }

  lemma {:induction false} SplitAt(s: string, k: nat, sep: char)
    requires k < |s| && s[k] == sep
    ensures Split(s, sep) == Split(s[..k], sep) + Split(s[k + 1..], sep)
  {
    assert s == s[..k] + [sep] + s[k + 1..];
    SplitAround(s[..k], s[k + 1..], sep);
  }

  /** Every interior boundary between parts is a separator of the string. */
  lemma {:induction false} CutAt(s: string, j: nat, sep: char) returns (k: nat)
    requires 0 < j < |Split(s, sep)|
    ensures k < |s| && s[k] == sep
    ensures Join(Split(s, sep)[..j], sep) == s[..k]
    ensures Split(s[k + 1..], sep) == Split(s, sep)[j..]
  {
    var parts := Split(s, sep);
    var a, b := Join(parts[..j], sep), Join(parts[j..], sep);
    assert parts[..j] + parts[j..] == parts;
    JoinConcat(parts[..j], parts[j..], sep);
    JoinSplit(s, sep);
    k := |a|;
    assert s == a + [sep] + b;
    assert s[..k] == a && s[k + 1..] == b;
    SplitJoin(parts[j..], sep);
  }

  /** A string without the separator is its own single part. */
  lemma {:induction false} SplitOne(s: string, sep: char)
    ensures Free(s, sep) <==> |Split(s, sep)| == 1
    ensures Free(s, sep) ==> Split(s, sep) == [s]
  {
    if Free(s, sep) {
      SplitJoin([s], sep);
    } else {
      var k :| 0 <= k < |s| && s[k] == sep;
      SplitAt(s, k, sep);
    }
  }

  /** Splitting invents no characters. */
  lemma {:induction false} SplitKeepsChars(s: string, sep: char, i: nat, c: char)
    requires i < |Split(s, sep)| && c in Split(s, sep)[i]
    ensures c in s
  {
    if s != "" {
      var rest := Split(s[1..], sep);
      if s[0] == sep {
        if i > 0 { SplitKeepsChars(s[1..], sep, i - 1, c); }
      } else if i > 0 {
        SplitKeepsChars(s[1..], sep, i, c);
      } else if c != s[0] {
        assert c in rest[0];
        SplitKeepsChars(s[1..], sep, 0, c);
      }
    }
  }

  lemma {:induction false} JoinKeepsChars(parts: seq<string>, sep: char, c: char)
    requires |parts| > 0 && c in Join(parts, sep)
    ensures c == sep || exists i | 0 <= i < |parts| :: c in parts[i]
  {
    if |parts| > 1 && c != sep && c !in parts[0] {
      JoinKeepsChars(parts[1..], sep, c);
      var i :| 0 <= i < |parts[1..]| && c in parts[1..][i];
      assert parts[i + 1] == parts[1..][i];
    }
  }

  function FirstAt(s: string, c: char): (k: nat)
    requires c in s
    ensures k < |s| && s[k] == c && c !in s[..k]
  {
    if s[0] == c then 0 else
      assert s == [s[0]] + s[1..];
      1 + FirstAt(s[1..], c)
  }

  /** `split` with at most `n` cuts, from the left. */
  function SplitMax(s: string, sep: char, n: nat): (parts: seq<string>)
    ensures 0 < |parts| <= n + 1
  {
    if n == 0 || Free(s, sep) then [s]
    else
      var k := FirstAt(s, sep);
      [s[..k]] + SplitMax(s[k + 1..], sep, n - 1)
  }

  lemma FirstAtHead(head: string, rest: string, sep: char)
    requires Free(head, sep)
    ensures var s := head + [sep] + rest;
            sep in s && FirstAt(s, sep) == |head| && s[..|head|] == head && s[|head| + 1..] == rest
  {
    var s := head + [sep] + rest;
    assert s[|head|] == sep;
    assert forall j | 0 <= j < |head| :: s[j] == head[j] && s[j] != sep;
    var k := FirstAt(s, sep);
    assert forall j | 0 <= j < k :: s[..k][j] == s[j] && s[j] != sep;
  }

  lemma SplitMaxHead(head: string, rest: string, sep: char, n: nat)
    requires Free(head, sep) && n > 0
    ensures SplitMax(head + [sep] + rest, sep, n) == [head] + SplitMax(rest, sep, n - 1)
  {
    FirstAtHead(head, rest, sep);
  }
}
