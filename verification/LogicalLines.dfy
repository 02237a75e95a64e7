/** Joining continued lines of a requirements file (code_graph_io/requirements.py),
    before comments and blank lines are dropped. */
module LogicalLines {

  predicate Continued(raw: string) {
    raw != "" && raw[|raw| - 1] == '\\'
  }

  /** A line without its continuation mark. */
  function Content(raw: string): string {
    if Continued(raw) then raw[..|raw| - 1] else raw
  }

  /** A line is continued exactly if it is some text and a backslash, and then its
      content is that text; otherwise it is the line. */
  lemma ContinuedMeaning(raw: string)
    ensures Continued(raw) <==> exists front :: raw == front + "\\"
    ensures forall front :: raw == front + "\\" ==> Content(raw) == front
    ensures (forall front :: raw != front + "\\") ==> Content(raw) == raw
  {
    if Continued(raw) { assert raw == raw[..|raw| - 1] + "\\"; }
  }

  /** The logical lines that have ended, and the text still pending. */
  datatype Joined = Joined(ended: seq<string>, pending: string) {
    function Then(raw: string): Joined {
      if Continued(raw) then Joined(ended, pending + Content(raw)) else Joined(ended + [pending + raw], "")
    }
  }

  function Join(raws: seq<string>): Joined {
    if raws == [] then Joined([], "") else Join(raws[..|raws| - 1]).Then(raws[|raws| - 1])
  }

  function NonBlank(parts: seq<string>, clean: string -> string): seq<string> {
    if parts == [] then []
    else
      var last := clean(parts[|parts| - 1]);
      NonBlank(parts[..|parts| - 1], clean) + if last != "" then [last] else []
  }

  /** Whatever is pending at the end of the file is one more line. */
  method ReadLogicalLines(raws: seq<string>, clean: string -> string) returns (lines: seq<string>)
    ensures lines == NonBlank(Join(raws).ended + [Join(raws).pending], clean)
  {
    lines := [];
    var pending := "";
    for i := 0 to |raws|
      invariant pending == Join(raws[..i]).pending
      invariant lines == NonBlank(Join(raws[..i]).ended, clean)
    {
      var raw := raws[i];
      NextLine(raws, i, clean);
      if Continued(raw) {
        pending := pending + raw[..|raw| - 1];
      } else {
        var line := clean(pending + raw);
        pending := "";
        if line != "" {
          lines := lines + [line];
        }
      }
    }
    assert raws[..|raws|] == raws;
    NonBlankPush(Join(raws).ended, pending, clean);
    var tail := clean(pending);
    if tail != "" {
      lines := lines + [tail];
    }
  }

  lemma NonBlankPush(parts: seq<string>, s: string, clean: string -> string)
    ensures NonBlank(parts + [s], clean) == NonBlank(parts, clean) + if clean(s) != "" then [clean(s)] else []
  {
    assert (parts + [s])[..|parts|] == parts;
  }

  lemma NextLine(raws: seq<string>, i: nat, clean: string -> string)
    requires i < |raws|
    ensures Join(raws[..i + 1]) == Join(raws[..i]).Then(raws[i])
    ensures !Continued(raws[i]) ==>
              var line := Join(raws[..i]).pending + raws[i];
              NonBlank(Join(raws[..i + 1]).ended, clean) ==
                NonBlank(Join(raws[..i]).ended, clean) + if clean(line) != "" then [clean(line)] else []
  {
    assert raws[..i + 1][..i] == raws[..i];
    NonBlankPush(Join(raws[..i]).ended, Join(raws[..i]).pending + raws[i], clean);
  }

  function Flat(parts: seq<string>): string {
    if parts == [] then "" else Flat(parts[..|parts| - 1]) + parts[|parts| - 1]
  }

  /** The text of the file without its continuation marks and line ends. */
  function Text(raws: seq<string>): string {
    if raws == [] then "" else Text(raws[..|raws| - 1]) + Content(raws[|raws| - 1])
  }

  function Endings(raws: seq<string>): nat {
    if raws == [] then 0 else Endings(raws[..|raws| - 1]) + if Continued(raws[|raws| - 1]) then 0 else 1
  }

  /** Joining loses and reorders no text, and ends one line at each line that is
      not continued; only a continued last line leaves something pending. */
  lemma {:induction false} JoinConserves(raws: seq<string>)
    ensures Flat(Join(raws).ended) + Join(raws).pending == Text(raws)
    ensures |Join(raws).ended| == Endings(raws)
    ensures Join(raws).pending != "" ==> raws != [] && Continued(raws[|raws| - 1])
  {
    if raws != [] {
      JoinConserves(raws[..|raws| - 1]);
      ThenConserves(Join(raws[..|raws| - 1]), raws[|raws| - 1]);
    }
  }

  lemma ThenConserves(j: Joined, raw: string)
    ensures Flat(j.Then(raw).ended) + j.Then(raw).pending == Flat(j.ended) + j.pending + Content(raw)
  {
    var whole := j.ended + [j.pending + raw];
    assert whole[..|j.ended|] == j.ended && whole[|whole| - 1] == j.pending + raw;
    assert Flat(whole) == Flat(j.ended) + (j.pending + raw);
    hide Flat;
    assert Flat(j.ended) + (j.pending + raw) == (Flat(j.ended) + j.pending) + raw;
    assert Flat(j.ended) + (j.pending + Content(raw)) == (Flat(j.ended) + j.pending) + Content(raw);
  }
}
