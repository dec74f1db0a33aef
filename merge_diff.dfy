/** The merge-mode diff: the lines of the merge candidate that the running
    configuration does not already hold, in candidate order, joined with
    newlines. */
module MergeDiff {
  import opened Text

  /** A candidate line is reported when it is not empty, is not one of the
      running lines verbatim, and is not a comment (first character `!`). */
  predicate Reported(line: string, running: seq<string>) {
    line != "" && line !in running && line[0] != '!'
  }

  /** The reported lines of `candidate`, in order. */
  function DiffLines(candidate: seq<string>, running: seq<string>): (d: seq<string>)
    ensures |d| <= |candidate|
    ensures forall i :: 0 <= i < |d| ==> Reported(d[i], running)
  {
    if candidate == [] then []
    else if Reported(candidate[0], running) then [candidate[0]] + DiffLines(candidate[1..], running)
    else DiffLines(candidate[1..], running)
  }

  /** The filter commutes with concatenation: it keeps the candidate's order. */
  lemma {:induction false} DiffLinesAppend(a: seq<string>, b: seq<string>, running: seq<string>)
    ensures DiffLines(a + b, running) == DiffLines(a, running) + DiffLines(b, running)
  {
    if a == [] {
      assert a + b == b;
    } else {
      assert (a + b)[0] == a[0] && (a + b)[1..] == a[1..] + b;
      DiffLinesAppend(a[1..], b, running);
    }
  }

  /** A line is in the diff exactly when it is a reported candidate line. */
  lemma {:induction false} DiffLinesMembership(candidate: seq<string>, running: seq<string>, line: string)
    ensures line in DiffLines(candidate, running) <==> line in candidate && Reported(line, running)
  {
    if candidate != [] {
      DiffLinesMembership(candidate[1..], running, line);
      assert candidate == [candidate[0]] + candidate[1..];
    }
  }

  /** Each reported line appears in the diff as often as in the candidate;
      every other line not at all. */
  lemma {:induction false} DiffLinesCount(candidate: seq<string>, running: seq<string>, line: string)
    ensures multiset(DiffLines(candidate, running))[line] ==
      if Reported(line, running) then multiset(candidate)[line] else 0
  {
    if candidate != [] {
      DiffLinesCount(candidate[1..], running, line);
      assert candidate == [candidate[0]] + candidate[1..];
    }
  }

  /** A candidate the running configuration already holds gives no diff. */
  lemma {:induction false} NothingNewNoDiff(candidate: seq<string>, running: seq<string>)
    requires forall i :: 0 <= i < |candidate| ==> candidate[i] in running
    ensures DiffLines(candidate, running) == []
  {
    if candidate != [] {
      assert candidate[0] in running;
      NothingNewNoDiff(candidate[1..], running);
    }
  }

  /** `_get_merge_diff`, given the merge candidate and the text of the
      running configuration. */
  method GetMergeDiff(candidate: string, running: string) returns (diff: string)
    ensures diff == JoinLines(DiffLines(SplitLines(candidate), SplitLines(running)))
  {
    var runningLines := SplitLines(running);
    var lines := SplitLines(candidate);
    var kept: seq<string> := [];
    var i := 0;
    while i < |lines|
      invariant 0 <= i <= |lines|
      invariant kept == DiffLines(lines[..i], runningLines)
    {
      var line := lines[i];
      assert lines[..i + 1] == lines[..i] + [line];
      DiffLinesAppend(lines[..i], [line], runningLines);
      if line !in runningLines && line != "" {
        if line[0] != '!' {
          kept := kept + [line];
        }
      }
      i := i + 1;
    }
    assert lines[..i] == lines;
    diff := JoinLines(kept);
  }

  /** The diff splits back into exactly its lines: no reported line holds a newline. */
  lemma DiffSplitsBack(candidate: string, running: string)
    requires DiffLines(SplitLines(candidate), SplitLines(running)) != []
    ensures SplitNewlines(JoinLines(DiffLines(SplitLines(candidate), SplitLines(running))))
      == DiffLines(SplitLines(candidate), SplitLines(running))
  {
    var d := DiffLines(SplitLines(candidate), SplitLines(running));
    forall i | 0 <= i < |d| ensures '\n' !in d[i] {
      DiffLinesMembership(SplitLines(candidate), SplitLines(running), d[i]);
      var ls := SplitLines(candidate);
      var k :| 0 <= k < |ls| && ls[k] == d[i];
    }
    SplitJoinNewlines(d);
  }
}
