/** Character and string primitives that the driver relies on from Python:
    the `\d` and `\s` regex classes, `int()` on a digit string, `str()` of a
    natural number, `str.lower()`, `in` on strings, `"\n".join`,
    `str.split('\n')` and `str.splitlines()`. */
module Text {

  /** `\d`, restricted to the ASCII digits. */
  predicate IsDigit(c: char) {
    '0' <= c <= '9'
  }

  predicate AllDigits(s: string) {
    forall i :: 0 <= i < |s| ==> IsDigit(s[i])
  }

  predicate NoDigits(s: string) {
    forall i :: 0 <= i < |s| ==> !IsDigit(s[i])
  }

  /** `\s` on a Python `str`: the characters Python treats as whitespace. */
  predicate IsSpace(c: char) {
    c == ' ' || '\t' <= c <= '\r' || '\U{1c}' <= c <= '\U{1f}' || c == '\U{85}' || c == '\U{a0}'
    || c == '\U{1680}' || '\U{2000}' <= c <= '\U{200a}' || c == '\U{2028}' || c == '\U{2029}'
    || c == '\U{202f}' || c == '\U{205f}' || c == '\U{3000}'
  }

  /** The characters at which `str.splitlines()` ends a line. */
  predicate IsLineBreak(c: char) {
    '\n' <= c <= '\r' || '\U{1c}' <= c <= '\U{1e}' || c == '\U{85}' || c == '\U{2028}' || c == '\U{2029}'
  }

  function DigitValue(c: char): (d: nat)
    requires IsDigit(c)
    ensures d < 10
  {
    (c as int) - ('0' as int)
  }

  function DigitChar(d: nat): (c: char)
    requires d < 10
    ensures IsDigit(c) && DigitValue(c) == d
  {
    ('0' as int + d) as char
  }

  /** `int(s)` for a non-empty run of ASCII digits (and 0 for the empty run). */
  function DigitsValue(s: string): nat
    requires AllDigits(s)
  {
    if s == [] then 0 else DigitsValue(s[..|s| - 1]) * 10 + DigitValue(s[|s| - 1])
  }

  /** `str(n)`: the decimal digits of `n` without leading zeros. */
  function NatStr(n: nat): (r: string)
    ensures r != [] && AllDigits(r)
    ensures r[0] == '0' ==> n == 0 && |r| == 1
  {
    if n < 10 then [DigitChar(n)] else NatStr(n / 10) + [DigitChar(n % 10)]
  }

  lemma {:induction false} DigitsValueOfNatStr(n: nat)
    ensures DigitsValue(NatStr(n)) == n
  {
    if n >= 10 {
      var s := NatStr(n);
      assert s[..|s| - 1] == NatStr(n / 10);
      DigitsValueOfNatStr(n / 10);
    }
  }

  function LowerChar(c: char): char {
    if 'A' <= c <= 'Z' then (c as int - 'A' as int + 'a' as int) as char else c
  }

  /** `s.lower()` on the ASCII letters. */
  function Lower(s: string): (r: string)
    ensures |r| == |s|
    ensures forall i :: 0 <= i < |s| ==> r[i] == LowerChar(s[i])
  {
    if s == [] then [] else [LowerChar(s[0])] + Lower(s[1..])
  }

  /** `p in s` for strings: `p` occurs in `s` as a contiguous piece. */
  predicate Contains(s: string, p: string)
    decreases |s|
  {
    p <= s || (s != [] && Contains(s[1..], p))
  }

  lemma {:induction false} ContainsAt(s: string, p: string, i: nat)
    requires i + |p| <= |s| && s[i..i + |p|] == p
    ensures Contains(s, p)
  {
    if i > 0 {
      assert s[1..][i - 1..i - 1 + |p|] == s[i..i + |p|];
      ContainsAt(s[1..], p, i - 1);
    }
  }

  lemma {:induction false} ContainsWitness(s: string, p: string) returns (i: nat)
    requires Contains(s, p)
    ensures i + |p| <= |s| && s[i..i + |p|] == p
    decreases |s|
  {
    if p <= s {
      i := 0;
    } else {
      var j := ContainsWitness(s[1..], p);
      i := j + 1;
      assert s[i..i + |p|] == s[1..][j..j + |p|];
    }
  }

  /** `Contains` agrees with the positional reading of `p in s`. */
  lemma ContainsOccurs(s: string, p: string)
    ensures Contains(s, p) <==> exists i, j :: 0 <= i <= j <= |s| && s[i..j] == p
  {
    if Contains(s, p) {
      var i := ContainsWitness(s, p);
      assert s[i..i + |p|] == p;
    }
    if exists i, j :: 0 <= i <= j <= |s| && s[i..j] == p {
      var i, j :| 0 <= i <= j <= |s| && s[i..j] == p;
      ContainsAt(s, p, i);
    }
  }

  /** `s.strip()`: `s` without its leading and trailing whitespace. */
  function Strip(s: string): (r: string)
    ensures |r| <= |s|
    ensures r == [] || (!IsSpace(r[0]) && !IsSpace(r[|r| - 1]))
    ensures r == [] <==> forall i :: 0 <= i < |s| ==> IsSpace(s[i])
  {
    StripRight(StripLeft(s))
  }

  /** What `strip()` returns is a contiguous piece of the text, after the
      leading whitespace, with only whitespace around it. */
  lemma {:induction false} StripMiddle(s: string)
    ensures var a := |s| - |StripLeft(s)|;
      a + |Strip(s)| <= |s| && s[a..a + |Strip(s)|] == Strip(s) && SpaceOutside(s, a, a + |Strip(s)|)
  {
    StripSlice(s);
    StripSurround(s);
  }

  /** The piece `Strip` returns sits in `s` right after the leading whitespace. */
  lemma {:induction false} StripSlice(s: string)
    ensures var a := |s| - |StripLeft(s)|; a + |Strip(s)| <= |s| && s[a..a + |Strip(s)|] == Strip(s)
  {
    var l := StripLeft(s);
    var r := StripRight(l);
    MiddlePiece(s, l, r);
  }

  /** Around that piece `s` holds only whitespace. */
  lemma {:induction false} StripSurround(s: string)
    ensures var a := |s| - |StripLeft(s)|; a + |Strip(s)| <= |s| && SpaceOutside(s, a, a + |Strip(s)|)
  {
    var l := StripLeft(s);
    var r := StripRight(l);
    MiddlePiece(s, l, r);
  }

  /** A suffix `l` of `s` after whitespace, and a prefix `r` of `l` before
      whitespace, make `r` a middle piece of `s` with only whitespace around it. */
  lemma {:induction false} MiddlePiece(s: string, l: string, r: string)
    requires |l| <= |s| && l == s[|s| - |l|..] && forall i :: 0 <= i < |s| - |l| ==> IsSpace(s[i])
    requires |r| <= |l| && r == l[..|r|] && forall i :: |r| <= i < |l| ==> IsSpace(l[i])
    ensures var a := |s| - |l|; s[a..a + |r|] == r && SpaceOutside(s, a, a + |r|)
  {
    var a := |s| - |l|;
    var b := a + |r|;
    assert s[a..b] == l[..|r|];
    forall i | b <= i < |s|
      ensures IsSpace(s[i])
    {
      assert s[i] == l[i - a];
    }
  }

  /** Everything in `s` before position `a` and from position `b` on is whitespace. */
  predicate SpaceOutside(s: string, a: int, b: int) {
    (forall i :: 0 <= i < a && i < |s| ==> IsSpace(s[i]))
    && (forall i :: b <= i < |s| && 0 <= i ==> IsSpace(s[i]))
  }

  function StripLeft(s: string): (r: string)
    ensures |r| <= |s| && r == s[|s| - |r|..]
    ensures r == [] || !IsSpace(r[0])
    ensures forall i :: 0 <= i < |s| - |r| ==> IsSpace(s[i])
  {
    if s != [] && IsSpace(s[0]) then StripLeft(s[1..]) else s
  }

  function StripRight(s: string): (r: string)
    ensures |r| <= |s| && r == s[..|r|]
    ensures r == [] || !IsSpace(r[|r| - 1])
    ensures forall i :: |r| <= i < |s| ==> IsSpace(s[i])
  {
    if s != [] && IsSpace(s[|s| - 1]) then StripRight(s[..|s| - 1]) else s
  }

  /** `sep.join` for the newline separator. */
  function JoinLines(ls: seq<string>): string {
    if ls == [] then "" else if |ls| == 1 then ls[0] else ls[0] + "\n" + JoinLines(ls[1..])
  }

  /** Concatenation of a list of strings, `"".join`. */
  function Concat(ss: seq<string>): string {
    if ss == [] then "" else ss[0] + Concat(ss[1..])
  }

  lemma {:induction false} ConcatAppend(a: seq<string>, b: seq<string>)
    ensures Concat(a + b) == Concat(a) + Concat(b)
  {
    if a == [] {
      assert a + b == b;
    } else {
      assert (a + b)[0] == a[0];
      assert (a + b)[1..] == a[1..] + b;
      ConcatAppend(a[1..], b);
      calc {
        Concat(a + b);
        a[0] + Concat(a[1..] + b);
        a[0] + (Concat(a[1..]) + Concat(b));
        (a[0] + Concat(a[1..])) + Concat(b);
      }
    }
  }

  /** `s.split('\n')`: never empty, one element more than there are newlines. */
  function SplitNewlines(s: string): (ls: seq<string>)
    ensures |ls| >= 1
    ensures forall i :: 0 <= i < |ls| ==> '\n' !in ls[i]
  {
    if s == [] then [""]
    else
      var r := SplitNewlines(s[1..]);
      if s[0] == '\n' then [""] + r else [[s[0]] + r[0]] + r[1..]
  }

  /** Splitting at the newlines and joining with newlines gives the text back. */
  lemma {:induction false} JoinSplitNewlines(s: string)
    ensures JoinLines(SplitNewlines(s)) == s
  {
    if s != [] {
      var r := SplitNewlines(s[1..]);
      JoinSplitNewlines(s[1..]);
      if s[0] == '\n' {
        assert SplitNewlines(s) == [""] + r;
      } else if |r| == 1 {
        assert SplitNewlines(s) == [[s[0]] + r[0]];
      } else {
        assert SplitNewlines(s) == [[s[0]] + r[0]] + r[1..];
        assert JoinLines(r) == r[0] + "\n" + JoinLines(r[1..]);
      }
    }
  }

  /** ...and the other way round: lines without newlines survive a join and a split. */
  lemma {:induction false} SplitJoinNewlines(ls: seq<string>)
    requires |ls| >= 1
    requires forall i :: 0 <= i < |ls| ==> '\n' !in ls[i]
    ensures SplitNewlines(JoinLines(ls)) == ls
    decreases |ls|, |ls[0]|
  {
    if ls[0] == [] {
      if |ls| > 1 {
        SplitJoinNewlines(ls[1..]);
        assert JoinLines(ls) == "\n" + JoinLines(ls[1..]);
        assert JoinLines(ls)[1..] == JoinLines(ls[1..]);
      }
    } else {
      var tl := [ls[0][1..]] + ls[1..];
      assert ls[0][0] in ls[0];
      forall i | 0 <= i < |tl| ensures '\n' !in tl[i] {
        if i == 0 {
          assert forall c :: c in ls[0][1..] ==> c in ls[0];
        } else {
          assert tl[i] == ls[i];
        }
      }
      SplitJoinNewlines(tl);
      if |ls| == 1 {
        assert JoinLines(ls) == ls[0];
        assert JoinLines(tl) == ls[0][1..];
        assert JoinLines(ls)[1..] == JoinLines(tl);
      } else {
        assert tl[1..] == ls[1..];
        assert JoinLines(ls) == ls[0] + "\n" + JoinLines(ls[1..]);
        assert JoinLines(tl) == ls[0][1..] + "\n" + JoinLines(ls[1..]);
        assert JoinLines(ls)[1..] == JoinLines(tl);
      }
      assert [ls[0][0]] + ls[0][1..] == ls[0];
    }
  }

  /** The first line of a non-empty text and what follows its line break
      (`\r\n` counts as one break, as in `str.splitlines()`). */
  function FirstLine(s: string): (p: (string, string))
    requires s != []
    ensures |p.1| < |s|
    ensures forall i :: 0 <= i < |p.0| ==> !IsLineBreak(p.0[i])
  {
    if IsLineBreak(s[0]) then
      ("", if s[0] == '\r' && |s| > 1 && s[1] == '\n' then s[2..] else s[1..])
    else if |s| == 1 then
      (s, "")
    else
      var p := FirstLine(s[1..]);
      ([s[0]] + p.0, p.1)
  }

  /** `s.splitlines()`: no trailing empty line, no line breaks inside a line. */
  function SplitLines(s: string): (ls: seq<string>)
    ensures forall i, j :: 0 <= i < |ls| && 0 <= j < |ls[i]| ==> !IsLineBreak(ls[i][j])
    decreases |s|
  {
    if s == [] then [] else [FirstLine(s).0] + SplitLines(FirstLine(s).1)
  }

  /** On text whose only line breaks are `\n`, `splitlines()` is `split('\n')`
      without the empty piece after a final newline. */
  lemma {:induction false} SplitLinesOnNewlines(s: string)
    requires forall i :: 0 <= i < |s| && IsLineBreak(s[i]) ==> s[i] == '\n'
    ensures LinesAgree(s)
    decreases |s|
  {
    if s == [] {
      return;
    }
    assert forall i :: 0 <= i < |s| - 1 ==> s[1..][i] == s[i + 1];
    SplitLinesOnNewlines(s[1..]);
    assert IsLineBreak(s[0]) ==> s[0] == '\n';
    if s[0] == '\n' {
      AgreeAfterNewline(s);
    } else if |s| == 1 {
      AgreeSingle(s);
    } else if s[1] == '\n' {
      AgreeBeforeNewline(s);
    } else {
      AgreeCons(s);
    }
  }

  predicate LinesAgree(s: string) {
    var ls := SplitNewlines(s);
    SplitLines(s) == if s == [] || s[|s| - 1] == '\n' then ls[..|ls| - 1] else ls
  }

  lemma AgreeAfterNewline(s: string)
    requires s != [] && s[0] == '\n' && LinesAgree(s[1..])
    ensures LinesAgree(s)
  {
    var r := SplitNewlines(s[1..]);
    assert FirstLine(s) == ("", s[1..]);
    assert SplitNewlines(s) == [""] + r;
    if s[1..] != [] {
      assert s[1..][|s[1..]| - 1] == s[|s| - 1];
    }
  }

  lemma AgreeSingle(s: string)
    requires |s| == 1 && s[0] != '\n' && !IsLineBreak(s[0])
    ensures LinesAgree(s)
  {
    assert FirstLine(s) == (s, "");
    assert s[1..] == [];
    var r := SplitNewlines(s[1..]);
    assert r == [""];
    assert SplitNewlines(s) == [[s[0]] + r[0]] + r[1..];
    assert [s[0]] + r[0] == s;
    assert SplitLines(s) == [s] + SplitLines("");
  }

  lemma AgreeBeforeNewline(s: string)
    requires |s| > 1 && !IsLineBreak(s[0]) && s[1] == '\n' && LinesAgree(s[1..])
    ensures LinesAgree(s)
  {
    var r := SplitNewlines(s[1..]);
    assert s[1..][0] == s[1] && IsLineBreak(s[1]);
    assert s[1..][1..] == s[2..];
    assert FirstLine(s[1..]) == ("", s[2..]);
    assert [s[0]] + "" == [s[0]];
    assert FirstLine(s) == ([s[0]] + "", s[2..]);
    assert r == [""] + SplitNewlines(s[2..]);
    assert SplitNewlines(s) == [[s[0]]] + r[1..];
    assert s[1..][|s[1..]| - 1] == s[|s| - 1];
    var tail := SplitLines(s[1..]);
    assert tail == [""] + SplitLines(s[2..]);
    assert SplitLines(s) == [[s[0]]] + tail[1..];
    var ls := SplitNewlines(s);
    if s[|s| - 1] == '\n' {
      assert tail == r[..|r| - 1];
      assert ls[..|ls| - 1] == [[s[0]]] + r[1..|r| - 1];
    } else {
      assert tail == r;
    }
  }

  lemma AgreeCons(s: string)
    requires |s| > 1 && !IsLineBreak(s[0]) && !IsLineBreak(s[1]) && s[0] != '\n' && LinesAgree(s[1..])
    ensures LinesAgree(s)
  {
    var r := SplitNewlines(s[1..]);
    SplitLinesCons(s);
    var tail := SplitLines(s[1..]);
    var ls := SplitNewlines(s);
    assert ls == [[s[0]] + r[0]] + r[1..];
    assert s[1..][|s[1..]| - 1] == s[|s| - 1];
    if s[|s| - 1] == '\n' {
      assert tail == r[..|r| - 1];
      assert ls[..|ls| - 1] == [[s[0]] + r[0]] + r[1..|r| - 1];
    }
  }

  /** Two ordinary characters at the front: the first joins the first line of the rest. */
  lemma SplitLinesCons(s: string)
    requires |s| > 1 && !IsLineBreak(s[0]) && !IsLineBreak(s[1])
    ensures SplitLines(s[1..]) != []
    ensures SplitLines(s) == [[s[0]] + SplitLines(s[1..])[0]] + SplitLines(s[1..])[1..]
  {
    var t := FirstLine(s[1..]);
    assert FirstLine(s) == ([s[0]] + t.0, t.1);
    assert SplitLines(s[1..]) == [t.0] + SplitLines(t.1);
  }
}
