/** Masking inline code and writing it (scripts/convert_wikilinks.py): a run of
    N backticks is closed by the next run of exactly N (section 6.1 of CommonMark). */
module CodeSpans {

  const MASK: char := '\0'

  datatype Run = Run(start: nat, end: nat) {
    function Width(): int {
      end - start
    }
  }

  /** A code span, from its opening run to its closing one. */
  datatype Span = Span(open: nat, close: nat) {
    predicate Holds(i: int) {
      open <= i <= close
    }
  }

  predicate Tick(line: string, k: int) {
    0 <= k < |line| && line[k] == '`'
  }

  /** A maximal stretch of backticks. */
  predicate IsRun(line: string, r: Run) {
    r.start < r.end <= |line| && (forall k | r.start <= k < r.end :: Tick(line, k))
    && !Tick(line, r.start - 1) && !Tick(line, r.end)
  }

  predicate Sorted(runs: seq<Run>) {
    forall i, j | 0 <= i < j < |runs| :: runs[i].end < runs[j].start
  }

  function TicksFrom(line: string, k: nat): (end: nat)
    requires k <= |line|
    ensures k <= end <= |line| && !Tick(line, end) && forall m | k <= m < end :: Tick(line, m)
    decreases |line| - k
  {
    if Tick(line, k) then TicksFrom(line, k + 1) else k
  }

  function RunsFrom(line: string, k: nat): (runs: seq<Run>)
    requires k <= |line| && !Tick(line, k - 1)
    ensures Sorted(runs) && forall r :: r in runs <==> IsRun(line, r) && k <= r.start
    decreases |line| - k
  {
    if k == |line| then []
    else if !Tick(line, k) then RunsFrom(line, k + 1)
    else
      var end := TicksFrom(line, k);
      var rest := if end == |line| then [] else RunsFrom(line, end + 1);
      [Run(k, end)] + rest
  }

  /** The backtick runs of a line, in order. */
  function Runs(line: string): (runs: seq<Run>)
    ensures Sorted(runs) && forall r :: r in runs <==> IsRun(line, r)
  {
    RunsFrom(line, 0)
  }

  predicate Within(spans: seq<Span>, i: int) {
    exists s | s in spans :: s.Holds(i)
  }

  /** Opened and closed by runs of one width, with none of that width between. */
  predicate Closes(runs: seq<Run>, s: Span) {
    && s.open < s.close < |runs| && runs[s.close].Width() == runs[s.open].Width()
    && forall j | s.open < j < s.close :: runs[j].Width() != runs[s.open].Width()
  }

  predicate Disjoint(spans: seq<Span>) {
    forall a, b | 0 <= a < b < |spans| :: spans[a].close < spans[b].open
  }

  predicate Unclosed(runs: seq<Run>, i: nat)
    requires i < |runs|
  {
    forall j | i < j < |runs| :: runs[j].Width() != runs[i].Width()
  }

  /** The pairing rule: spans are closed by the next run of their width and do
      not overlap, and a run outside all of them has no equal run after it. */
  predicate Pairs(runs: seq<Run>, spans: seq<Span>, upTo: nat)
    requires upTo <= |runs|
  {
    && Disjoint(spans)
    && (forall s | s in spans :: Closes(runs, s) && s.close < upTo)
    && (forall i: nat | i < upTo && !Within(spans, i) :: Unclosed(runs, i))
  }

  predicate Covered(runs: seq<Run>, spans: seq<Span>, k: int) {
    exists s | s in spans :: Covers(runs, s, k)
  }

  predicate Covers(runs: seq<Run>, s: Span, k: int) {
    s.open < |runs| && s.close < |runs| && runs[s.open].start <= k < runs[s.close].end
  }

  function MaskedChar(line: string, runs: seq<Run>, spans: seq<Span>, k: nat): char
    requires k < |line|
  {
    if Covered(runs, spans, k) then MASK else line[k]
  }

  /** The line with the code spans blanked and everything else kept in place. */
  predicate IsMasked(line: string, spans: seq<Span>, out: string) {
    && Pairs(Runs(line), spans, |Runs(line)|)
    && |out| == |line| && forall k: nat | k < |line| :: out[k] == MaskedChar(line, Runs(line), spans, k)
  }

  /** The masked line, whatever spans witness it: `MaskUnique` says there is one. */
  ghost predicate IsMaskOf(line: string, out: string) {
    exists spans :: IsMasked(line, spans, out)
  }

  /** The spans of a line are determined by the pairing rule. */
  lemma {:induction false} PairsUnique(runs: seq<Run>, spans: seq<Span>, other: seq<Span>, n: nat)
    requires Pairs(runs, spans, |runs|) && Pairs(runs, other, |runs|)
    requires n <= |spans| && n <= |other| && spans[..n] == other[..n]
    ensures spans == other
    decreases |spans| - n
  {
    if n < |spans| && n < |other| {
      NextAgrees(runs, spans, other, n);
      NextAgrees(runs, other, spans, n);
      assert spans[..n + 1] == spans[..n] + [spans[n]];
      assert other[..n + 1] == other[..n] + [other[n]];
      PairsUnique(runs, spans, other, n + 1);
    } else if n < |spans| {
      NextExists(runs, spans, other, n);
    } else if n < |other| {
      NextExists(runs, other, spans, n);
    }
  }

  lemma NextExists(runs: seq<Run>, spans: seq<Span>, other: seq<Span>, n: nat)
    requires Pairs(runs, spans, |runs|) && Pairs(runs, other, |runs|)
    requires n < |spans| && n <= |other| && spans[..n] == other[..n]
    ensures n < |other| && other[n].open <= spans[n].open
  {
    var s := spans[n];
    assert Closes(runs, s);
    assert !Unclosed(runs, s.open);
    assert Within(other, s.open);
    forall m | 0 <= m < n ensures !other[m].Holds(s.open) {
      assert other[m] == other[..n][m] == spans[..n][m] == spans[m];
    }
    var m :| 0 <= m < |other| && other[m].Holds(s.open);
    assert n == m || other[n].close < other[m].open;
  }

  lemma NextAgrees(runs: seq<Run>, spans: seq<Span>, other: seq<Span>, n: nat)
    requires Pairs(runs, spans, |runs|) && Pairs(runs, other, |runs|)
    requires n < |spans| && n < |other| && spans[..n] == other[..n]
    ensures spans[n] == other[n]
  {
    NextExists(runs, spans, other, n);
    NextExists(runs, other, spans, n);
    assert Closes(runs, spans[n]) && Closes(runs, other[n]);
  }

  /** A span's edges are edges of runs, so no run crosses them. */
  lemma CoverEdges(line: string, runs: seq<Run>, s: Span, k: nat)
    requires runs == Runs(line) && Closes(runs, s) && 0 < k && Covers(runs, s, k) != Covers(runs, s, k - 1)
    ensures Covers(runs, s, k) ==> !Tick(line, k - 1)
    ensures Covers(runs, s, k - 1) ==> !Tick(line, k)
  {
    assert runs[s.open] in runs && runs[s.close] in runs;
    assert IsRun(line, runs[s.open]) && IsRun(line, runs[s.close]);
  }

  /** A run that is still there after masking was there before, outside every span. */
  lemma RunSurvives(line: string, spans: seq<Span>, out: string, r: Run)
    requires IsMasked(line, spans, out) && IsRun(out, r)
    ensures IsRun(line, r) && forall k | r.start <= k < r.end :: !Covered(Runs(line), spans, k)
  {
    var runs := Runs(line);
    forall k | r.start <= k < r.end ensures Tick(line, k) && !Covered(runs, spans, k) {
      assert Tick(out, k) && out[k] == MaskedChar(line, runs, spans, k);
    }
    NoTickBeyond(line, spans, out, r);
  }

  lemma NoTickBeyond(line: string, spans: seq<Span>, out: string, r: Run)
    requires IsMasked(line, spans, out) && IsRun(out, r)
    requires forall k | r.start <= k < r.end :: Tick(line, k) && !Covered(Runs(line), spans, k)
    ensures !Tick(line, r.end) && !Tick(line, r.start - 1)
  {
    var runs := Runs(line);
    assert !Covered(runs, spans, r.end - 1) && !Covered(runs, spans, r.start);
    forall s | s in spans ensures !Covers(runs, s, r.end) {
      NotCoveredBy(runs, spans, s, r.end - 1);
      if Covers(runs, s, r.end) { CoverEdges(line, runs, s, r.end); }
    }
    forall s | s in spans ensures !Covers(runs, s, r.start - 1) {
      NotCoveredBy(runs, spans, s, r.start);
      if Covers(runs, s, r.start - 1) { CoverEdges(line, runs, s, r.start); }
    }
  }

  lemma NotCoveredBy(runs: seq<Run>, spans: seq<Span>, s: Span, k: int)
    requires !Covered(runs, spans, k) && s in spans
    ensures !Covers(runs, s, k)
  {
  }

  lemma AllWidthsDiffer(line: string, spans: seq<Span>, out: string)
    requires IsMasked(line, spans, out)
    ensures forall r, q | r in Runs(out) && q in Runs(out) && r != q :: r.Width() != q.Width()
  {
    forall r, q | r in Runs(out) && q in Runs(out) && r != q ensures r.Width() != q.Width() {
      WidthsDiffer(line, spans, out, r, q);
    }
  }

  lemma WidthsDiffer(line: string, spans: seq<Span>, out: string, r: Run, q: Run)
    requires IsMasked(line, spans, out) && IsRun(out, r) && IsRun(out, q) && r != q
    ensures r.Width() != q.Width()
  {
    var runs := Runs(line);
    RunSurvives(line, spans, out, r);
    RunSurvives(line, spans, out, q);
    var i :| 0 <= i < |runs| && runs[i] == r;
    var j :| 0 <= j < |runs| && runs[j] == q;
    OutsideSpans(line, spans, i);
    OutsideSpans(line, spans, j);
    assert Unclosed(runs, i) && Unclosed(runs, j);
  }

  lemma OutsideSpans(line: string, spans: seq<Span>, i: nat)
    requires Pairs(Runs(line), spans, |Runs(line)|) && i < |Runs(line)|
    requires !Covered(Runs(line), spans, Runs(line)[i].start)
    ensures !Within(spans, i)
  {
    var runs := Runs(line);
    forall s | s in spans ensures !s.Holds(i) {
      assert Closes(runs, s) && !Covers(runs, s, runs[i].start);
      assert runs[i] in runs && IsRun(line, runs[i]);
    }
  }

  lemma MaskedAgain(line: string, spans: seq<Span>, out: string, again: seq<Span>, twice: string)
    requires IsMasked(line, spans, out) && IsMasked(out, again, twice)
    ensures twice == out
  {
    NothingCloses(line, spans, out);
    assert forall s | s in again :: Closes(Runs(out), s);
    assert forall s :: s !in again;
    hide Runs;
    assert forall k: nat | k < |out| :: twice[k] == MaskedChar(out, Runs(out), again, k) == out[k];
  }

  lemma NothingCloses(line: string, spans: seq<Span>, out: string)
    requires IsMasked(line, spans, out)
    ensures forall s :: !Closes(Runs(out), s)
  {
    AllWidthsDiffer(line, spans, out);
    var runs := Runs(out);
    hide IsMasked;
    hide Runs;
    assert forall s: Span | s.open < s.close < |runs| :: runs[s.open] in runs && runs[s.close] in runs;
    assert forall s: Span | s.open < s.close < |runs| :: runs[s.open] != runs[s.close];
  }

  method Blank(chars: array<char>, start: nat, end: nat)
    requires start <= end <= chars.Length
    modifies chars
    ensures forall k: nat | k < chars.Length :: chars[k] == if start <= k < end then MASK else old(chars[k])
  {
    for k := start to end
      invariant forall m: nat | m < chars.Length :: chars[m] == if start <= m < k then MASK else old(chars[m])
    {
      chars[k] := MASK;
    }
  }

  method MaskInlineCode(line: string) returns (out: string)
    ensures IsMaskOf(line, out)
  {
    ghost var spans: seq<Span> := [];
    var runs := Runs(line);
    hide Runs;
    hide Pairs;
    hide Closes;
    hide Covered;
    hide Unclosed;
    NoSpans(line, runs);
    if runs == [] {
      assert IsMasked(line, spans, line);
      return line;
    }
    var chars := new char[|line|](k requires 0 <= k < |line| => line[k]);
    var i := 0;
    while i < |runs|
      invariant i <= |runs| && Pairs(runs, spans, i)
      invariant forall k: nat | k < |line| :: chars[k] == MaskedChar(line, runs, spans, k)
    {
      var start, width := runs[i].start, runs[i].Width();
      var j := i + 1;
      while j < |runs| && runs[j].Width() != width
        invariant i < j <= |runs|
        invariant forall m | i < m < j :: runs[m].Width() != width
      {
        j := j + 1;
      }
      if j < |runs| {
        assert runs[j] in runs && runs[i] in runs;
        ghost var before := chars[..];
        Blank(chars, start, runs[j].end);
        Closing(runs, i, j);
        SpanAdded(line, runs, spans, Span(i, j));
        spans := spans + [Span(i, j)];
        i := j + 1;
      } else {
        LeftOpen(runs, spans, i);
        i := i + 1;
      }
    }
    out := chars[..];
    assert IsMasked(line, spans, out);
  }

  /** A line has one masked form. */
  lemma MaskUnique(line: string, a: string, b: string)
    requires IsMaskOf(line, a) && IsMaskOf(line, b)
    ensures a == b
  {
    var s, t :| IsMasked(line, s, a) && IsMasked(line, t, b);
    PairsUnique(Runs(line), s, t, 0);
    assert forall k: nat | k < |line| :: a[k] == MaskedChar(line, Runs(line), s, k) == b[k];
  }

  /** Masking keeps the length, and a changed character is one of a closed span. */
  lemma MaskChanges(line: string, out: string, k: nat)
    requires IsMaskOf(line, out) && k < |line|
    ensures |out| == |line|
    ensures out[k] != line[k] ==> out[k] == '\0' && exists i, j | 0 <= i < j < |Runs(line)| ::
              Closes(Runs(line), Span(i, j)) && Covers(Runs(line), Span(i, j), k)
  {
    var spans :| IsMasked(line, spans, out);
    assert out[k] == MaskedChar(line, Runs(line), spans, k);
    if out[k] != line[k] {
      var s :| s in spans && Covers(Runs(line), s, k);
      assert Closes(Runs(line), s) && s == Span(s.open, s.close);
    }
  }

  /** The runs left by masking have pairwise distinct widths. */
  lemma WidthsDistinct(line: string, out: string)
    requires IsMaskOf(line, out)
    ensures forall r, q | r in Runs(out) && q in Runs(out) && r != q :: r.Width() != q.Width()
  {
    var spans :| IsMasked(line, spans, out);
    AllWidthsDiffer(line, spans, out);
  }

  /** Masking a masked line changes nothing. */
  lemma MaskIdempotent(line: string, out: string, twice: string)
    requires IsMaskOf(line, out) && IsMaskOf(out, twice)
    ensures twice == out
  {
    var s, t :| IsMasked(line, s, out) && IsMasked(out, t, twice);
    MaskedAgain(line, s, out, t, twice);
  }

  lemma NoSpans(line: string, runs: seq<Run>)
    ensures Pairs(runs, [], 0) && forall k: nat | k < |line| :: MaskedChar(line, runs, [], k) == line[k]
  {
  }

  lemma Closing(runs: seq<Run>, i: nat, j: nat)
    requires i < j < |runs| && runs[j].Width() == runs[i].Width()
    requires forall m | i < m < j :: runs[m].Width() != runs[i].Width()
    ensures Closes(runs, Span(i, j))
  {
  }

  lemma LeftOpen(runs: seq<Run>, spans: seq<Span>, i: nat)
    requires i < |runs| && Pairs(runs, spans, i)
    requires forall m | i < m < |runs| :: runs[m].Width() != runs[i].Width()
    ensures Pairs(runs, spans, i + 1)
  {
    assert Unclosed(runs, i);
  }

  lemma SpanAdded(line: string, runs: seq<Run>, spans: seq<Span>, s: Span)
    requires s.open <= s.close < |runs| && Pairs(runs, spans, s.open) && Closes(runs, s)
    ensures Pairs(runs, spans + [s], s.close + 1)
    ensures forall k: nat | k < |line| ::
              MaskedChar(line, runs, spans + [s], k) ==
                if Covers(runs, s, k) then MASK else MaskedChar(line, runs, spans, k)
  {
    var more := spans + [s];
    assert forall t :: t in more <==> t in spans || t == s;
    assert forall i :: Within(more, i) <==> Within(spans, i) || s.Holds(i);
    assert forall k :: Covered(runs, more, k) <==> Covered(runs, spans, k) || Covers(runs, s, k);
  }

  function Longest(runs: seq<Run>): (n: int)
    ensures n >= 0 && forall r | r in runs :: r.Width() <= n
  {
    if runs == [] then 0
    else
      var rest, last := Longest(runs[..|runs| - 1]), runs[|runs| - 1];
      if last.Width() > rest then last.Width() else rest
  }

  function Ticks(n: nat): string {
    seq(n, _ => '`')
  }

  /** Text as inline code: fenced one backtick wider than any run inside it,
      and padded if it would otherwise touch the fence. */
  function Delink(raw: string): string {
    Wrap(Ticks(Longest(Runs(raw)) + 1), Pad(raw), raw)
  }

  function Pad(raw: string): string {
    if Tick(raw, 0) || Tick(raw, |raw| - 1) then " " else ""
  }

  /** One more backtick than any run of the text has, on either side, and a space
      between if the text starts or ends with a backtick. */
  lemma DelinkMeaning(raw: string) returns (n: nat, pad: string)
    ensures Delink(raw) == Ticks(n) + pad + raw + pad + Ticks(n)
    ensures |Ticks(n)| == n && forall k | 0 <= k < n :: Ticks(n)[k] == '`'
    ensures n > 0 && (forall r | r in Runs(raw) :: r.end - r.start < n)
    ensures n == 1 || exists r :: r in Runs(raw) && r.end - r.start == n - 1
    ensures pad == if raw != "" && (raw[0] == '`' || raw[|raw| - 1] == '`') then " " else ""
  {
    n, pad := Longest(Runs(raw)) + 1, Pad(raw);
    LongestIsOne(Runs(raw));
  }

  lemma {:induction false} LongestIsOne(runs: seq<Run>)
    ensures Longest(runs) == 0 || exists r :: r in runs && r.end - r.start == Longest(runs)
  {
    if runs != [] { LongestIsOne(runs[..|runs| - 1]); }
  }

  function Wrap(fence: string, pad: string, raw: string): string {
    fence + pad + raw + pad + fence
  }

  /** `raw` stands in the line from `at`, between two fences of backticks. */
  predicate Fenced(line: string, raw: string, width: nat, at: nat) {
    && 0 < width <= at && |line| == 2 * at + |raw|
    && (forall k | 0 <= k < width :: Tick(line, k))
    && (forall k | |line| - width <= k < |line| :: Tick(line, k))
    && (forall k | width <= k < at :: !Tick(line, k))
    && (forall k | at + |raw| <= k < |line| - width :: !Tick(line, k))
    && (forall k | 0 <= k < |raw| :: Tick(raw, k) <==> Tick(line, at + k))
    && !Tick(line, width) && !Tick(line, |line| - width - 1)
  }

  lemma Wrapped(fence: string, pad: string, raw: string)
    ensures var line, at := Wrap(fence, pad, raw), |fence| + |pad|;
            && |line| == 2 * at + |raw|
            && (forall k | 0 <= k < |fence| :: line[k] == fence[k])
            && (forall k | |fence| <= k < at :: line[k] == pad[k - |fence|])
            && (forall k | 0 <= k < |raw| :: line[at + k] == raw[k])
            && (forall k | at + |raw| <= k < |line| - |fence| :: line[k] == pad[k - at - |raw|])
            && (forall k | |line| - |fence| <= k < |line| :: line[k] == fence[k - |line| + |fence|])
  {
  }

  /** A fence, padding if the text starts or ends with a backtick, the text, and back. */
  lemma Frames(fence: string, raw: string)
    requires raw != "" && fence != "" && forall k | 0 <= k < |fence| :: fence[k] == '`'
    ensures Fenced(Wrap(fence, Pad(raw), raw), raw, |fence|, |fence| + |Pad(raw)|)
  {
    Wrapped(fence, Pad(raw), raw);
    hide Wrap;
    var line, at := Wrap(fence, Pad(raw), raw), |fence| + |Pad(raw)|;
    assert line[at] == raw[0] && line[at + |raw| - 1] == raw[|raw| - 1];
  }

  ghost predicate OnlyFences(line: string, width: nat) {
    && 0 < width && 2 * width < |line|
    && IsRun(line, Run(0, width)) && IsRun(line, Run(|line| - width, |line|))
    && forall r | IsRun(line, r) :: r == Run(0, width) || r == Run(|line| - width, |line|) || r.Width() < width
  }

  lemma FencesAreWidest(line: string, raw: string, at: nat)
    requires raw != "" && Fenced(line, raw, Longest(Runs(raw)) + 1, at)
    ensures OnlyFences(line, Longest(Runs(raw)) + 1)
  {
    var width := Longest(Runs(raw)) + 1;
    var first, last := Run(0, width), Run(|line| - width, |line|);
    hide Longest;
    hide Runs;
    assert IsRun(line, first) && IsRun(line, last);
    forall r | IsRun(line, r) && r != first && r != last ensures r.Width() < width {
      RunsApart(line, r, first);
      RunsApart(line, r, last);
      RunInside(raw, line, at, width, r);
    }
  }

  lemma RunInside(raw: string, line: string, at: nat, width: nat, r: Run)
    requires Fenced(line, raw, width, at) && IsRun(line, r) && width < r.start && r.end < |line| - width
    ensures r.Width() <= Longest(Runs(raw))
  {
    hide Longest;
    hide Runs;
    assert Tick(line, r.start) && Tick(line, r.end - 1);
    assert at <= r.start && r.end <= at + |raw|;
    var inner := Run(r.start - at, r.end - at);
    forall k | inner.start <= k < inner.end ensures Tick(raw, k) {
      assert Tick(line, at + k);
    }
    assert !Tick(raw, inner.end) by {
      assert !Tick(line, at + inner.end);
    }
    assert !Tick(raw, inner.start - 1) by {
      assert !Tick(line, at + (inner.start - 1));
    }
    assert inner in Runs(raw);
  }

  /** Two different runs of a line do not overlap. */
  lemma RunsApart(line: string, r: Run, q: Run)
    requires IsRun(line, r) && IsRun(line, q) && r != q
    ensures r.end < q.start || q.end < r.start
  {
  }

  predicate AllMasked(out: string) {
    forall k | 0 <= k < |out| :: out[k] == '\0'
  }

  lemma FencedIsMasked(line: string, width: nat, spans: seq<Span>, out: string)
    requires OnlyFences(line, width) && IsMasked(line, spans, out)
    ensures AllMasked(out)
  {
    var runs := Runs(line);
    FirstAndLast(line, runs, width);
    hide Runs;
    hide OnlyFences;
    SpansAll(runs, width, spans);
    var s :| s in spans && s == Span(0, |runs| - 1);
    forall k: nat | k < |line| ensures out[k] == MASK {
      assert Covers(runs, s, k);
      assert out[k] == MaskedChar(line, runs, spans, k);
    }
  }

  lemma SpansAll(runs: seq<Run>, width: nat, spans: seq<Span>)
    requires |runs| > 1 && runs[0].Width() == width == runs[|runs| - 1].Width()
    requires forall j | 0 < j < |runs| - 1 :: runs[j].Width() < width
    requires Pairs(runs, spans, |runs|)
    ensures Span(0, |runs| - 1) in spans
  {
    assert !Unclosed(runs, 0);
    var s :| s in spans && s.Holds(0);
    assert Closes(runs, s);
  }

  lemma FirstAndLast(line: string, runs: seq<Run>, width: nat)
    requires OnlyFences(line, width) && runs == Runs(line)
    ensures |runs| > 1 && runs[0] == Run(0, width) && runs[|runs| - 1] == Run(|line| - width, |line|)
    ensures forall j | 0 < j < |runs| - 1 :: runs[j].Width() < width
  {
    var first, last := Run(0, width), Run(|line| - width, |line|);
    assert first in runs && last in runs;
    forall r | r in runs ensures r.start <= r.end <= |line| && (r == first || r == last || r.Width() < width) {
      assert IsRun(line, r);
    }
    hide Runs;
    hide OnlyFences;
    Extremes(runs, first, last, |line|);
    assert Sorted(runs);
    forall j | 0 < j < |runs| - 1 ensures runs[j].Width() < width {
      assert runs[0].end < runs[j].start && runs[j].end < runs[|runs| - 1].start;
      assert runs[j] in runs;
    }
  }

  lemma Extremes(runs: seq<Run>, first: Run, last: Run, end: nat)
    requires Sorted(runs) && first in runs && first.start == 0
    requires last in runs && last.end == end && forall r | r in runs :: r.start <= r.end <= end
    ensures runs[0] == first && runs[|runs| - 1] == last
  {
    assert runs[0] in runs && runs[|runs| - 1] in runs;
    var i :| 0 <= i < |runs| && runs[i] == first;
    var m :| 0 <= m < |runs| && runs[m] == last;
  }

  lemma TwoTicks(spans: seq<Span>, out: string)
    requires IsMasked("``", spans, out)
    ensures out == "``"
  {
    var line := "``";
    var runs := Runs(line);
    assert Tick(line, 0) && Tick(line, 1);
    assert forall r | IsRun(line, r) :: r == Run(0, 2);
    assert forall j | 0 <= j < |runs| :: runs[j] in runs && IsRun(line, runs[j]);
    assert |runs| <= 1;
    assert forall s :: !Closes(runs, s);
    assert forall s :: s !in spans;
    assert out[0] == MaskedChar(line, runs, spans, 0) && out[1] == MaskedChar(line, runs, spans, 1);
  }

  lemma CodeIsMasked(raw: string, spans: seq<Span>, out: string)
    requires raw != "" && IsMasked(Delink(raw), spans, out)
    ensures AllMasked(out)
  {
    hide IsMasked;
    hide AllMasked;
    hide Fenced;
    hide Wrap;
    hide Runs;
    hide Longest;
    var width := Longest(Runs(raw)) + 1;
    var line := Wrap(Ticks(width), Pad(raw), raw);
    assert line == Delink(raw);
    Frames(Ticks(width), raw);
    FencesAreWidest(line, raw, width + |Pad(raw)|);
    FencedIsMasked(line, width, spans, out);
  }

  /** Masking text written as inline code blanks every character of it, exactly
      when there was any text: for an empty one the two fences are one run. */
  lemma DelinkMasksAll(raw: string, out: string)
    requires IsMaskOf(Delink(raw), out)
    ensures AllMasked(out) <==> raw != ""
  {
    var spans :| IsMasked(Delink(raw), spans, out);
    if raw == "" {
      EmptyCode();
      TwoTicks(spans, out);
      assert out[0] != MASK;
    } else {
      CodeIsMasked(raw, spans, out);
    }
  }

  lemma EmptyCode()
    ensures Delink("") == "``"
  {
    assert Runs("") == [];
    assert Ticks(1) == "`";
  }
}
