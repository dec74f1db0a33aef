/** The uptime decoder: free text such as "uptime is 2 weeks, 1 day, 3 hours"
    to a number of seconds. Each unit's count is taken from the first
    `<digits><whitespace><unit>` occurrence in the text; a unit that does not
    occur counts 0. */
module Uptime {
  import opened Text

  const HOUR_SECONDS: nat := 3600
  const DAY_SECONDS: nat := 24 * HOUR_SECONDS
  const WEEK_SECONDS: nat := 7 * DAY_SECONDS
  const YEAR_SECONDS: nat := 365 * DAY_SECONDS

  /** Length of the run of digits that `s` starts with (`\d+` taken greedily). */
  function DigitRun(s: string): (n: nat)
    ensures n <= |s|
    ensures forall i :: 0 <= i < n ==> IsDigit(s[i])
    ensures n < |s| ==> !IsDigit(s[n])
  {
    if s != [] && IsDigit(s[0]) then 1 + DigitRun(s[1..]) else 0
  }

  /** The pattern `(\d+)\s<unit>` matches at the start of `s`. The unit is
      matched as a prefix of what follows, so `day` also matches `days`. */
  predicate MatchHere(s: string, unit: string) {
    var n := DigitRun(s);
    0 < n < |s| && IsSpace(s[n]) && unit <= s[n + 1..]
  }

  /** The number captured by a match at the start of `s`. */
  function LeadingNumber(s: string): nat {
    DigitsValue(s[..DigitRun(s)])
  }

  /** `int(re.search(r"(\d+)\s<unit>", s).group(1))`, or 0 when the search
      finds nothing: the leftmost position at which the pattern matches
      decides. */
  function FirstCount(s: string, unit: string): nat {
    if MatchHere(s, unit) then LeadingNumber(s)
    else if s == [] then 0
    else FirstCount(s[1..], unit)
  }

  /** `_parse_uptime`. */
  function ParseUptime(s: string): int {
    FirstCount(s, "year") * YEAR_SECONDS + FirstCount(s, "week") * WEEK_SECONDS
    + FirstCount(s, "day") * DAY_SECONDS + FirstCount(s, "hour") * 3600
    + FirstCount(s, "minute") * 60 + FirstCount(s, "second")
  }

  /** The count is the number at the leftmost position where the pattern matches. */
  lemma {:induction false} FirstCountIsLeftmost(s: string, unit: string, i: nat)
    requires i <= |s| && MatchHere(s[i..], unit)
    requires forall k :: 0 <= k < i ==> !MatchHere(s[k..], unit)
    ensures FirstCount(s, unit) == LeadingNumber(s[i..])
  {
    if i > 0 {
      assert s[0..] == s && !MatchHere(s, unit);
      forall k | 0 <= k < i - 1 ensures !MatchHere(s[1..][k..], unit) {
        assert s[1..][k..] == s[k + 1..];
      }
      assert s[1..][i - 1..] == s[i..];
      FirstCountIsLeftmost(s[1..], unit, i - 1);
    } else {
      assert s[0..] == s;
    }
  }

  /** A positive count was read at a position where the pattern matches. */
  lemma {:induction false} FirstCountFound(s: string, unit: string)
    requires FirstCount(s, unit) > 0
    ensures exists k :: 0 <= k < |s| && MatchHere(s[k..], unit) && FirstCount(s, unit) == LeadingNumber(s[k..])
  {
    if MatchHere(s, unit) {
      assert s[0..] == s;
    } else {
      FirstCountFound(s[1..], unit);
      var k :| 0 <= k < |s| - 1 && MatchHere(s[1..][k..], unit) && FirstCount(s[1..], unit) == LeadingNumber(s[1..][k..]);
      assert s[1..][k..] == s[k + 1..];
    }
  }

  /** A unit the pattern finds nowhere counts 0. */
  lemma {:induction false} FirstCountAbsent(s: string, unit: string)
    requires forall k :: 0 <= k <= |s| ==> !MatchHere(s[k..], unit)
    ensures FirstCount(s, unit) == 0
  {
    assert s[0..] == s;
    if s != [] {
      forall k | 0 <= k <= |s| - 1 ensures !MatchHere(s[1..][k..], unit) {
        assert s[1..][k..] == s[k + 1..];
      }
      FirstCountAbsent(s[1..], unit);
    }
  }

  /** Text in which the pattern matches for no unit decodes to 0 seconds. */
  lemma NoUnitsMeansZero(s: string)
    requires forall k, u :: 0 <= k <= |s| && u in UnitWords ==> !MatchHere(s[k..], u)
    ensures ParseUptime(s) == 0
  {
    FirstCountAbsent(s, "year");
    FirstCountAbsent(s, "week");
    FirstCountAbsent(s, "day");
    FirstCountAbsent(s, "hour");
    FirstCountAbsent(s, "minute");
    FirstCountAbsent(s, "second");
  }

  const UnitWords: set<string> := {"year", "week", "day", "hour", "minute", "second"}

  // ---------------------------------------------------------------------
  // An independent reading of uptime text: a list of "<count> <unit>" fields.

  datatype Unit = Year | Week | Day | Hour | Minute | Second

  function UnitWord(u: Unit): (w: string)
    ensures w in UnitWords
  {
    match u
    case Year => "year"
    case Week => "week"
    case Day => "day"
    case Hour => "hour"
    case Minute => "minute"
    case Second => "second"
  }

  function UnitSeconds(u: Unit): nat {
    match u
    case Year => YEAR_SECONDS
    case Week => WEEK_SECONDS
    case Day => DAY_SECONDS
    case Hour => HOUR_SECONDS
    case Minute => 60
    case Second => 1
  }

  datatype Field = Field(count: nat, unit: Unit)

  /** The unit word as a device prints it: singular for 1, plural otherwise. */
  function FieldWord(f: Field): string {
    UnitWord(f.unit) + if f.count == 1 then "" else "s"
  }

  /** Fields written out as "<count> <unit>", separated by ", ". */
  function Render(fs: seq<Field>): string {
    if fs == [] then ""
    else NatStr(fs[0].count) + " " + FieldWord(fs[0]) + (if |fs| == 1 then "" else ", " + Render(fs[1..]))
  }

  /** Each unit appears in at most one field. */
  predicate DistinctUnits(fs: seq<Field>) {
    forall i, j :: 0 <= i < j < |fs| ==> fs[i].unit != fs[j].unit
  }

  /** The count given for a unit, 0 when no field names it. */
  function CountFor(fs: seq<Field>, u: Unit): nat {
    if fs == [] then 0 else if fs[0].unit == u then fs[0].count else CountFor(fs[1..], u)
  }

  /** What the fields denote: the sum of count times unit length. */
  function Seconds(fs: seq<Field>): nat {
    if fs == [] then 0 else fs[0].count * UnitSeconds(fs[0].unit) + Seconds(fs[1..])
  }

  /** Text before the fields that cannot start a match: each digit in it is
      followed, still inside it, by a character that is not whitespace
      (as in "H3C S5560X uptime is "). */
  predicate QuietPrefix(pre: string) {
    forall k :: 0 <= k < |pre| && IsDigit(pre[k]) ==> k + 1 < |pre| && !IsSpace(pre[k + 1])
  }

  /** Decoding rendered fields gives back the duration they denote, in any
      order, for any subset of the units, behind any quiet prefix. */
  lemma DecodeRendered(pre: string, fs: seq<Field>)
    requires QuietPrefix(pre) && DistinctUnits(fs)
    ensures ParseUptime(pre + Render(fs)) == Seconds(fs)
  {
    var s := pre + Render(fs);
    forall u: Unit ensures FirstCount(s, UnitWord(u)) == CountFor(fs, u) {
      SkipQuietPrefix(pre, Render(fs), UnitWord(u));
      RenderedCount(fs, u);
    }
    assert FirstCount(s, "year") == CountFor(fs, Year) by { assert UnitWord(Year) == "year"; }
    assert FirstCount(s, "week") == CountFor(fs, Week) by { assert UnitWord(Week) == "week"; }
    assert FirstCount(s, "day") == CountFor(fs, Day) by { assert UnitWord(Day) == "day"; }
    assert FirstCount(s, "hour") == CountFor(fs, Hour) by { assert UnitWord(Hour) == "hour"; }
    assert FirstCount(s, "minute") == CountFor(fs, Minute) by { assert UnitWord(Minute) == "minute"; }
    assert FirstCount(s, "second") == CountFor(fs, Second) by { assert UnitWord(Second) == "second"; }
    SecondsByUnit(fs);
  }

  // ---------------------------------------------------------------------
  // Proof of DecodeRendered.

  lemma {:induction false} SecondsByUnit(fs: seq<Field>)
    requires DistinctUnits(fs)
    ensures Seconds(fs) == CountFor(fs, Year) * YEAR_SECONDS + CountFor(fs, Week) * WEEK_SECONDS
      + CountFor(fs, Day) * DAY_SECONDS + CountFor(fs, Hour) * 3600
      + CountFor(fs, Minute) * 60 + CountFor(fs, Second)
  {
    if fs != [] {
      SecondsByUnit(fs[1..]);
      NotCounted(fs[1..], fs[0].unit);
    }
  }

  lemma {:induction false} NotCounted(fs: seq<Field>, u: Unit)
    requires forall i :: 0 <= i < |fs| ==> fs[i].unit != u
    ensures CountFor(fs, u) == 0
  {
    if fs != [] {
      NotCounted(fs[1..], u);
    }
  }

  lemma {:induction false} DigitRunOfDigits(ds: string, rest: string)
    requires AllDigits(ds)
    requires rest == [] || !IsDigit(rest[0])
    ensures DigitRun(ds + rest) == |ds|
  {
    if ds != [] {
      assert (ds + rest)[1..] == ds[1..] + rest;
      DigitRunOfDigits(ds[1..], rest);
    } else {
      assert ds + rest == rest;
    }
  }

  /** Characters that are not digits never start a match and are stepped over. */
  lemma {:induction false} SkipNonDigits(t: string, rest: string, unit: string)
    requires NoDigits(t)
    ensures FirstCount(t + rest, unit) == FirstCount(rest, unit)
  {
    if t == [] {
      assert t + rest == rest;
    } else {
      assert (t + rest)[0] == t[0] && (t + rest)[1..] == t[1..] + rest;
      SkipNonDigits(t[1..], rest, unit);
    }
  }

  lemma {:induction false} SkipQuietPrefix(pre: string, rest: string, unit: string)
    requires QuietPrefix(pre)
    ensures FirstCount(pre + rest, unit) == FirstCount(rest, unit)
  {
    if pre == [] {
      assert pre + rest == rest;
    } else {
      var s := pre + rest;
      assert s[1..] == pre[1..] + rest;
      if IsDigit(pre[0]) {
        QuietRun(pre, rest);
      }
      assert !MatchHere(s, unit);
      SkipQuietPrefix(pre[1..], rest, unit);
    }
  }

  /** A digit run starting in a quiet prefix ends inside it, on a character
      that is not whitespace. */
  lemma {:induction false} QuietRun(pre: string, rest: string)
    requires QuietPrefix(pre) && pre != [] && IsDigit(pre[0])
    ensures DigitRun(pre + rest) < |pre| && !IsSpace(pre[DigitRun(pre + rest)])
  {
    var s := pre + rest;
    assert s[0] == pre[0] && s[1..] == pre[1..] + rest;
    assert 1 < |pre| && !IsSpace(pre[1]);
    if IsDigit(pre[1]) {
      QuietRun(pre[1..], rest);
    } else {
      assert s[1..][0] == pre[1];
    }
  }

  /** A field for another unit is stepped over as a whole. */
  lemma {:induction false} SkipField(ds: string, w: string, rest: string, unit: string)
    requires ds != [] && AllDigits(ds)
    requires w != [] && NoDigits(w)
    requires unit != [] && unit[0] != w[0]
    ensures FirstCount(ds + " " + w + rest, unit) == FirstCount(rest, unit)
  {
    var s := ds + " " + w + rest;
    DigitRunOfDigits(ds, " " + w + rest);
    assert s == ds + (" " + w + rest);
    assert s[|ds|] == ' ' && s[|ds| + 1..] == w + rest;
    assert !MatchHere(s, unit);
    assert s[1..] == ds[1..] + " " + w + rest;
    if |ds| == 1 {
      assert s[1..] == (" " + w) + rest;
      SkipNonDigits(" " + w, rest, unit);
    } else {
      SkipField(ds[1..], w, rest, unit);
    }
  }

  /** A field for the unit itself is where the count comes from. */
  lemma HitField(n: nat, w: string, rest: string, unit: string)
    requires unit <= w
    ensures FirstCount(NatStr(n) + " " + w + rest, unit) == n
  {
    var ds := NatStr(n);
    var s := ds + " " + w + rest;
    assert s == ds + (" " + w + rest);
    DigitRunOfDigits(ds, " " + w + rest);
    assert s[|ds|] == ' ' && s[|ds| + 1..] == w + rest;
    assert s[..|ds|] == ds;
    DigitsValueOfNatStr(n);
  }

  lemma {:induction false} RenderedCount(fs: seq<Field>, u: Unit)
    requires DistinctUnits(fs)
    ensures FirstCount(Render(fs), UnitWord(u)) == CountFor(fs, u)
  {
    if fs == [] {
      assert !MatchHere("", UnitWord(u));
    } else {
      var f := fs[0];
      var tail := if |fs| == 1 then "" else ", " + Render(fs[1..]);
      assert Render(fs) == NatStr(f.count) + " " + FieldWord(f) + tail;
      if f.unit == u {
        HitField(f.count, FieldWord(f), tail, UnitWord(u));
      } else {
        assert UnitWord(u)[0] != FieldWord(f)[0] by { FirstLetters(u, f.unit); }
        assert NoDigits(FieldWord(f)) by { WordsHaveNoDigits(f); }
        SkipField(NatStr(f.count), FieldWord(f), tail, UnitWord(u));
        if |fs| == 1 {
          assert !MatchHere("", UnitWord(u));
        } else {
          assert tail == ", " + Render(fs[1..]);
          SkipNonDigits(", ", Render(fs[1..]), UnitWord(u));
          RenderedCount(fs[1..], u);
        }
      }
    }
  }

  lemma FirstLetters(u: Unit, v: Unit)
    requires u != v
    ensures UnitWord(u)[0] != UnitWord(v)[0]
  {
  }

  lemma WordsHaveNoDigits(f: Field)
    ensures FieldWord(f) != [] && NoDigits(FieldWord(f))
  {
  }
}
