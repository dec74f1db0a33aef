/** The sectioning engine: split multi-entity command output at the lines the
    separator matches, drop what precedes the first such line, and give one
    string per separator line holding that line and the text up to the next
    one. The separators the driver uses match whole lines, so the engine is
    modelled on the lines of the output with the separator as a line
    predicate. */
module Sections {
  import opened Text
  import opened Results

  datatype SectionError =
    | NoSeparator        // "Unexpected output data": the separator matched nowhere
    | UnpairedFragments  // "Unexpected output data": an odd number of fragments after the preamble

  /** The separator of `display interface`: a line that mentions
      "current state" and does not start with "Line protocol". */
  predicate InterfaceHeader(line: string) {
    Contains(line, "current state") && !("Line protocol" <= line)
  }

  function CountHeaders(hdr: string -> bool, ls: seq<string>): nat {
    if ls == [] then 0 else (if hdr(ls[0]) then 1 else 0) + CountHeaders(hdr, ls[1..])
  }

  /** The result of `re.split` with a capturing separator over the lines
      `ls` of the output: the text before the first separator line, then for
      each separator line the line itself and the text up to the next one. */
  function Fragments(hdr: string -> bool, ls: seq<string>): (fs: seq<string>)
    requires |ls| >= 1
    ensures |fs| == 1 + 2 * CountHeaders(hdr, ls)
  {
    if |ls| == 1 then
      (if hdr(ls[0]) then ["", ls[0], ""] else [ls[0]])
    else
      var f := Fragments(hdr, ls[1..]);
      if hdr(ls[0]) then ["", ls[0], "\n" + f[0]] + f[1..] else [ls[0] + "\n" + f[0]] + f[1..]
  }

  /** `[line + next(it, '') for line in it]`: glue each fragment to the one
      after it. */
  function Pair(fs: seq<string>): (r: seq<string>)
    ensures |r| == (|fs| + 1) / 2
  {
    if fs == [] then []
    else if |fs| == 1 then [fs[0]]
    else [fs[0] + fs[1]] + Pair(fs[2..])
  }

  /** `_separate_section(separator, content)`. */
  function SeparateSection(hdr: string -> bool, content: string): (r: Result<seq<string>, SectionError>)
    ensures content == "" ==> r == Ok([])
    ensures r.Err? <==> content != "" && CountHeaders(hdr, SplitNewlines(content)) == 0
    ensures r.Err? ==> r.error == NoSeparator
    ensures r.Ok? ==> |r.value| == if content == "" then 0 else CountHeaders(hdr, SplitNewlines(content))
  {
    if content == "" then Ok([])
    else
      var parts := Fragments(hdr, SplitNewlines(content));
      if |parts| == 1 then Err(NoSeparator)
      else
        var rest := parts[1..];
        if |rest| % 2 != 0 then Err(UnpairedFragments)
        else Ok(Pair(rest))
  }

  // ---------------------------------------------------------------------
  // An independent description of the sections.

  /** The lines before the first separator line. */
  function Preamble(hdr: string -> bool, ls: seq<string>): (p: seq<string>)
    ensures p <= ls
    ensures forall i :: 0 <= i < |p| ==> !hdr(p[i])
    ensures |p| < |ls| ==> hdr(ls[|p|])
  {
    if ls == [] || hdr(ls[0]) then [] else [ls[0]] + Preamble(hdr, ls[1..])
  }

  /** Lines each followed by a newline. */
  function Terminated(ls: seq<string>): string {
    if ls == [] then "" else ls[0] + "\n" + Terminated(ls[1..])
  }

  /** The section a separator line `h` opens, `rest` being the lines after
      it: `h` and the lines up to the next separator line, ending with a
      newline when another section follows, and all the remaining text when
      none does. */
  function Section(hdr: string -> bool, h: string, rest: seq<string>): string {
    if CountHeaders(hdr, rest) > 0 then Terminated([h] + Preamble(hdr, rest)) else JoinLines([h] + rest)
  }

  /** One section per separator line, in order. */
  function Sections(hdr: string -> bool, ls: seq<string>): seq<string> {
    if ls == [] then []
    else if hdr(ls[0]) then [Section(hdr, ls[0], ls[1..])] + Sections(hdr, ls[1..])
    else Sections(hdr, ls[1..])
  }

  /** When the output is not empty and has a separator line, the engine
      returns exactly the sections of its lines. */
  lemma SeparateSectionIsSections(hdr: string -> bool, content: string)
    requires content != "" && CountHeaders(hdr, SplitNewlines(content)) > 0
    ensures SeparateSection(hdr, content) == Ok(Sections(hdr, SplitNewlines(content)))
  {
    PairFragments(hdr, SplitNewlines(content));
  }

  /** The preamble followed by the sections, rejoined, is the output again. */
  lemma SeparateSectionRejoins(hdr: string -> bool, content: string)
    requires content != "" && SeparateSection(hdr, content).Ok?
    ensures content == Terminated(Preamble(hdr, SplitNewlines(content))) + Concat(SeparateSection(hdr, content).value)
  {
    {
      var ls := SplitNewlines(content);
      var fs := Fragments(hdr, ls);
      JoinSplitNewlines(content);
      ConcatFragments(hdr, ls);
      FragmentsHead(hdr, ls);
      ConcatPair(fs[1..]);
      assert fs == [fs[0]] + fs[1..];
      ConcatAppend([fs[0]], fs[1..]);
    }
  }

  /** As many sections as separator lines. */
  lemma {:induction false} SectionsCount(hdr: string -> bool, ls: seq<string>)
    ensures |Sections(hdr, ls)| == CountHeaders(hdr, ls)
  {
    if ls != [] {
      SectionsCount(hdr, ls[1..]);
    }
  }

  // ---------------------------------------------------------------------
  // Proofs.

  lemma {:induction false} FragmentsHead(hdr: string -> bool, ls: seq<string>)
    requires |ls| >= 1
    ensures Fragments(hdr, ls)[0] ==
      if CountHeaders(hdr, ls) > 0 then Terminated(Preamble(hdr, ls)) else JoinLines(ls)
  {
    if |ls| > 1 && !hdr(ls[0]) {
      FragmentsHead(hdr, ls[1..]);
    }
  }

  lemma {:induction false} PairFragments(hdr: string -> bool, ls: seq<string>)
    requires |ls| >= 1 && CountHeaders(hdr, ls) > 0
    ensures Pair(Fragments(hdr, ls)[1..]) == Sections(hdr, ls)
    decreases |ls|, 1
  {
    if |ls| == 1 {
      assert hdr(ls[0]) by { assert CountHeaders(hdr, ls[1..]) == 0; }
      assert Fragments(hdr, ls)[1..] == [ls[0], ""];
      assert Pair([ls[0], ""]) == [ls[0] + ""] + Pair([]);
      assert ls[0] + "" == ls[0];
      assert ls[1..] == [] && [ls[0]] + ls[1..] == [ls[0]];
      assert Section(hdr, ls[0], ls[1..]) == ls[0];
    } else if hdr(ls[0]) {
      PairFragmentsAtHeader(hdr, ls);
    } else {
      assert Fragments(hdr, ls)[1..] == Fragments(hdr, ls[1..])[1..];
      PairFragments(hdr, ls[1..]);
    }
  }

  lemma {:induction false} PairFragmentsAtHeader(hdr: string -> bool, ls: seq<string>)
    requires |ls| > 1 && hdr(ls[0])
    ensures Pair(Fragments(hdr, ls)[1..]) == Sections(hdr, ls)
    decreases |ls|, 0
  {
    var rest := ls[1..];
    var f := Fragments(hdr, rest);
    var g := [ls[0], "\n" + f[0]] + f[1..];
    assert Fragments(hdr, ls)[1..] == g;
    assert g[2..] == f[1..];
    assert Pair(g) == [ls[0] + ("\n" + f[0])] + Pair(f[1..]);
    FragmentsHead(hdr, rest);
    if CountHeaders(hdr, rest) > 0 {
      PairFragments(hdr, rest);
      var pre := Preamble(hdr, rest);
      assert ([ls[0]] + pre)[0] == ls[0] && ([ls[0]] + pre)[1..] == pre;
      assert Section(hdr, ls[0], rest) == ls[0] + "\n" + Terminated(pre);
      assert ls[0] + ("\n" + f[0]) == ls[0] + "\n" + f[0];
      assert Sections(hdr, ls) == [Section(hdr, ls[0], rest)] + Sections(hdr, rest);
    } else {
      NoSections(hdr, rest);
      assert f[1..] == [];
      assert f[0] == JoinLines(rest);
      var whole := [ls[0]] + rest;
      assert whole[0] == ls[0] && whole[1..] == rest && |whole| > 1;
      assert JoinLines(whole) == ls[0] + "\n" + JoinLines(rest);
      assert Section(hdr, ls[0], rest) == JoinLines(whole);
      assert ls[0] + ("\n" + f[0]) == ls[0] + "\n" + f[0];
      assert Pair(f[1..]) == [];
      assert Sections(hdr, ls) == [Section(hdr, ls[0], rest)] + Sections(hdr, rest);
    }
  }

  lemma {:induction false} NoSections(hdr: string -> bool, ls: seq<string>)
    requires CountHeaders(hdr, ls) == 0
    ensures Sections(hdr, ls) == []
  {
    if ls != [] {
      NoSections(hdr, ls[1..]);
    }
  }

  lemma {:induction false} ConcatFragments(hdr: string -> bool, ls: seq<string>)
    requires |ls| >= 1
    ensures Concat(Fragments(hdr, ls)) == JoinLines(ls)
  {
    if |ls| == 1 {
      if hdr(ls[0]) {
        ConcatThree("", ls[0], "");
      } else {
        assert Concat([ls[0]]) == ls[0] + Concat([]);
      }
    } else {
      ConcatFragments(hdr, ls[1..]);
      ConcatFragmentsStep(hdr, ls);
    }
  }

  /** One line in front of at least one more: its fragments concatenate to
      the line, a newline, and what the rest concatenates to. */
  lemma ConcatFragmentsStep(hdr: string -> bool, ls: seq<string>)
    requires |ls| > 1
    ensures Concat(Fragments(hdr, ls)) == ls[0] + "\n" + Concat(Fragments(hdr, ls[1..]))
  {
    var f := Fragments(hdr, ls[1..]);
    var rest := Concat(f[1..]);
    assert Concat(f) == f[0] + rest;
    var front := if hdr(ls[0]) then ["", ls[0], "\n" + f[0]] else [ls[0] + "\n" + f[0]];
    assert Fragments(hdr, ls) == front + f[1..];
    ConcatAppend(front, f[1..]);
    if hdr(ls[0]) {
      ConcatThree("", ls[0], "\n" + f[0]);
      assert "" + ls[0] == ls[0];
      Associate(ls[0], "\n", f[0]);
    } else {
      var z := ls[0] + "\n" + f[0];
      assert Concat([z]) == z + Concat([]);
      assert z + [] == z;
    }
    assert Concat(front) == ls[0] + "\n" + f[0];
    Associate(ls[0] + "\n", f[0], rest);
  }

  lemma Associate(a: string, b: string, c: string)
    ensures a + b + c == a + (b + c)
  {
  }

  lemma ConcatThree(a: string, b: string, c: string)
    ensures Concat([a, b, c]) == a + b + c
  {
    var three := [a, b, c];
    assert three[1..] == [b, c] && three[1..][1..] == [c] && three[1..][1..][1..] == [];
    assert Concat([c]) == c + Concat([]);
  }

  lemma {:induction false} ConcatPair(fs: seq<string>)
    ensures Concat(Pair(fs)) == Concat(fs)
  {
    if |fs| >= 2 {
      ConcatPair(fs[2..]);
      assert fs[1..][1..] == fs[2..];
    }
  }
}
