/** Field and counter extraction for `get_interfaces` and
    `get_interfaces_counters`. What each field pattern finds in a section is
    an input (the regex engine is not modelled); the rules applied to those
    matches are modelled: mandatory fields, sentinels for absent optional
    fields, positional rx/tx pairing, and the dictionary the sections are
    collected into. */
module Extraction {
  import opened Text
  import opened Results
  import opened Sections

  datatype ExtractError =
    | BadOutput(cause: SectionError)  // the sectioning engine failed
    | UnexpectedInterfaceFormat       // a mandatory field pattern found nothing
    | BadMacAddress                   // the MAC-address normaliser rejected the matched text

  // ---------------------------------------------------------------------
  // Collecting per-section records into a dictionary.

  /** The loop over the sections: each yields a (name, record) pair or an
      error, the first error is raised, and `interfaces.update` lets a later
      section overwrite an earlier one of the same name. */
  function Collect<R>(rs: seq<Result<(string, R), ExtractError>>): (r: Result<map<string, R>, ExtractError>)
    ensures r.Ok? <==> forall i :: 0 <= i < |rs| ==> rs[i].Ok?
  {
    if rs == [] then Ok(map[])
    else
      var init := Collect(rs[..|rs| - 1]);
      assert forall i :: 0 <= i < |rs| - 1 ==> rs[..|rs| - 1][i] == rs[i];
      if init.Err? then init
      else if rs[|rs| - 1].Err? then Err(rs[|rs| - 1].error)
      else Ok(init.value[rs[|rs| - 1].value.0 := rs[|rs| - 1].value.1])
  }

  /** The error raised is the one of the first section that fails. */
  lemma {:induction false} CollectFirstError<R>(rs: seq<Result<(string, R), ExtractError>>) returns (i: nat)
    requires Collect(rs).Err?
    ensures i < |rs| && rs[i] == Err(Collect(rs).error)
    ensures forall j :: 0 <= j < i ==> rs[j].Ok?
  {
    var init := rs[..|rs| - 1];
    assert forall j :: 0 <= j < |init| ==> init[j] == rs[j];
    if Collect(init).Err? {
      i := CollectFirstError(init);
    } else {
      i := |rs| - 1;
    }
  }

  /** The dictionary has exactly the names of the sections as keys. */
  lemma {:induction false} CollectKeys<R>(rs: seq<Result<(string, R), ExtractError>>, k: string)
    requires Collect(rs).Ok?
    ensures k in Collect(rs).value <==> exists i :: 0 <= i < |rs| && rs[i].value.0 == k
  {
    if rs != [] {
      var init := rs[..|rs| - 1];
      assert forall j :: 0 <= j < |init| ==> init[j] == rs[j];
      CollectKeys(init, k);
      if k in Collect(rs).value && k != rs[|rs| - 1].value.0 {
        var i :| 0 <= i < |init| && init[i].value.0 == k;
        assert rs[i].value.0 == k;
      }
      if exists i :: 0 <= i < |rs| && rs[i].value.0 == k {
        var i :| 0 <= i < |rs| && rs[i].value.0 == k;
        if i < |init| {
          assert init[i].value.0 == k;
        }
      }
    }
  }

  /** The record kept under a name is the one of the last section with that name. */
  lemma {:induction false} CollectKeepsLast<R>(rs: seq<Result<(string, R), ExtractError>>, i: nat)
    requires Collect(rs).Ok? && i < |rs|
    requires forall j :: i < j < |rs| ==> rs[j].value.0 != rs[i].value.0
    ensures rs[i].value.0 in Collect(rs).value && Collect(rs).value[rs[i].value.0] == rs[i].value.1
  {
    var init := rs[..|rs| - 1];
    if i < |rs| - 1 {
      assert forall j :: 0 <= j < |init| ==> init[j] == rs[j];
      CollectKeepsLast(init, i);
    }
  }

  /** One entry per section, in order. */
  function Entries<R>(secs: seq<string>, entry: string -> Result<(string, R), ExtractError>)
    : (rs: seq<Result<(string, R), ExtractError>>)
    ensures |rs| == |secs|
    ensures forall i :: 0 <= i < |secs| ==> rs[i] == entry(Strip(secs[i]))
  {
    if secs == [] then [] else [entry(Strip(secs[0]))] + Entries(secs[1..], entry)
  }

  /** The loop both getters share: empty output gives an empty dictionary,
      output without an interface header line raises, and otherwise every
      stripped section is turned into an entry. */
  function CollectSections<R>(output: string, entry: string -> Result<(string, R), ExtractError>)
    : (r: Result<map<string, R>, ExtractError>)
    ensures output == "" ==> r == Ok(map[])
    ensures SeparateSection(InterfaceHeader, output).Err? ==> r == Err(BadOutput(NoSeparator))
    ensures SeparateSection(InterfaceHeader, output).Ok? ==>
      var secs := SeparateSection(InterfaceHeader, output).value;
      (r.Ok? <==> forall i :: 0 <= i < |secs| ==> entry(Strip(secs[i])).Ok?)
  {
    if output == "" then Ok(map[])
    else
      var ss := SeparateSection(InterfaceHeader, output);
      if ss.Err? then Err(BadOutput(ss.error))
      else
        var rs := Entries(ss.value, entry);
        Collect(rs)
  }

  /** The dictionary built from the sections holds one key per section
      name, and under each name the entry of the last section with it. */
  lemma CollectSectionsContents<R>(output: string, entry: string -> Result<(string, R), ExtractError>, i: nat)
    requires output != "" && SeparateSection(InterfaceHeader, output).Ok?
    requires CollectSections(output, entry).Ok?
    requires var secs := SeparateSection(InterfaceHeader, output).value;
      i < |secs| && forall j :: i < j < |secs| ==> entry(Strip(secs[j])).value.0 != entry(Strip(secs[i])).value.0
    ensures var secs := SeparateSection(InterfaceHeader, output).value;
      var e := entry(Strip(secs[i])).value;
      e.0 in CollectSections(output, entry).value && CollectSections(output, entry).value[e.0] == e.1
  {
    var secs := SeparateSection(InterfaceHeader, output).value;
    CollectKeepsLast(Entries(secs, entry), i);
  }

  lemma CollectSectionsKeys<R>(output: string, entry: string -> Result<(string, R), ExtractError>, k: string)
    requires output != "" && SeparateSection(InterfaceHeader, output).Ok?
    requires CollectSections(output, entry).Ok?
    ensures var secs := SeparateSection(InterfaceHeader, output).value;
      k in CollectSections(output, entry).value <==>
      exists i :: 0 <= i < |secs| && entry(Strip(secs[i])).value.0 == k
  {
    var secs := SeparateSection(InterfaceHeader, output).value;
    var rs := Entries(secs, entry);
    CollectKeys(rs, k);
    if exists i :: 0 <= i < |rs| && rs[i].value.0 == k {
      var i :| 0 <= i < |rs| && rs[i].value.0 == k;
      assert entry(Strip(secs[i])).value.0 == k;
    }
  }

  // ---------------------------------------------------------------------
  // get_interfaces

  /** What the patterns of `get_interfaces` found in one (stripped) section. */
  datatype InterfaceMatches = InterfaceMatches(
    nameState: Option<(string, string)>, // intf_name, intf_state; mandatory
    protocol: Option<string>,            // the "Line protocol current state" value; mandatory
    mac: Option<string>,                 // "Hardware address is"
    speed: Option<string>,               // "Speed"
    description: Option<string>)         // "Description"

  /** A speed: the number when the matched text is all digits, the text itself otherwise. */
  datatype Speed = SpeedValue(n: int) | SpeedWord(w: string)

  datatype Interface = Interface(
    description: string,
    isEnabled: bool,
    isUp: bool,
    lastFlapped: real,
    macAddress: string,
    speed: Speed)

  /** `str.isdigit()`. */
  predicate IsDigitString(t: string) {
    t != [] && AllDigits(t)
  }

  /** The speed field: -1 when the pattern found nothing. */
  function SpeedOf(m: Option<string>): (sp: Speed)
    ensures m.None? ==> sp == SpeedValue(-1)
    ensures m.Some? ==> (sp.SpeedValue? <==> IsDigitString(m.value))
    ensures m.Some? && sp.SpeedWord? ==> sp.w == m.value
  {
    match m
    case None => SpeedValue(-1)
    case Some(t) => if IsDigitString(t) then SpeedValue(DigitsValue(t)) else SpeedWord(t)
  }

  /** A speed the device prints as a decimal number is read back as that number. */
  lemma SpeedOfNumber(n: nat)
    ensures SpeedOf(Some(NatStr(n))) == SpeedValue(n)
  {
    DigitsValueOfNatStr(n);
  }

  /** A state counts as up when it contains "up" in any letter case. */
  predicate MentionsUp(state: string) {
    Contains(Lower(state), "up")
  }

  /** The driver library's MAC-address normaliser: the address in its
      canonical form, or `None` where the library raises. */
  type MacFormat = string -> Option<string>

  /** A section yields a record: both mandatory fields were found, and a
      matched MAC address is one the normaliser accepts. */
  predicate InterfaceParses(m: InterfaceMatches, macFormat: MacFormat) {
    m.nameState.Some? && m.protocol.Some? && (m.mac.Some? ==> macFormat(m.mac.value).Some?)
  }

  /** One section of `display interface` to a (name, record) pair. */
  function InterfaceOf(m: InterfaceMatches, macFormat: MacFormat): (r: Result<(string, Interface), ExtractError>)
    ensures r.Ok? <==> InterfaceParses(m, macFormat)
    ensures r.Err? ==> (r.error == UnexpectedInterfaceFormat <==> m.nameState.None? || m.protocol.None?)
    ensures r.Err? ==> r.error == UnexpectedInterfaceFormat || r.error == BadMacAddress
    ensures r.Ok? ==> r.value.0 == m.nameState.value.0
    ensures r.Ok? ==> r.value.1.lastFlapped == -1.0
    ensures r.Ok? ==> (r.value.1.isEnabled <==> MentionsUp(m.nameState.value.1))
    ensures r.Ok? ==> (r.value.1.isUp <==> MentionsUp(m.protocol.value))
    ensures r.Ok? && m.mac.None? ==> r.value.1.macAddress == ""
    ensures r.Ok? && m.mac.Some? ==> r.value.1.macAddress == macFormat(m.mac.value).value
    ensures r.Ok? && m.description.None? ==> r.value.1.description == ""
    ensures r.Ok? && m.description.Some? ==> r.value.1.description == m.description.value
    ensures r.Ok? ==> r.value.1.speed == SpeedOf(m.speed)
  {
    if m.nameState.None? || m.protocol.None? then Err(UnexpectedInterfaceFormat)
    else if m.mac.Some? && macFormat(m.mac.value).None? then Err(BadMacAddress)
    else
      var mac := if m.mac.Some? then macFormat(m.mac.value).value else "";
      var desc := if m.description.Some? then m.description.value else "";
      Ok((m.nameState.value.0,
          Interface(desc, MentionsUp(m.nameState.value.1), MentionsUp(m.protocol.value), -1.0, mac, SpeedOf(m.speed))))
  }

  /** `get_interfaces` over the text of `display interface`; `search` stands
      for the field patterns applied to a stripped section. */
  function GetInterfaces(output: string, search: string -> InterfaceMatches, macFormat: MacFormat)
    : (r: Result<map<string, Interface>, ExtractError>)
    ensures output == "" ==> r == Ok(map[])
    ensures SeparateSection(InterfaceHeader, output).Err? ==> r == Err(BadOutput(NoSeparator))
    ensures SeparateSection(InterfaceHeader, output).Ok? ==>
      var secs := SeparateSection(InterfaceHeader, output).value;
      (r.Ok? <==> forall i :: 0 <= i < |secs| ==> InterfaceParses(search(Strip(secs[i])), macFormat))
  {
    CollectSections(output, InterfaceEntry(search, macFormat))
  }

  function InterfaceEntry(search: string -> InterfaceMatches, macFormat: MacFormat)
    : string -> Result<(string, Interface), ExtractError>
  {
    t => InterfaceOf(search(t), macFormat)
  }

  /** The interfaces returned are exactly those named by the sections. */
  lemma GetInterfacesKeys(output: string, search: string -> InterfaceMatches, macFormat: MacFormat, name: string)
    requires output != "" && SeparateSection(InterfaceHeader, output).Ok?
    requires GetInterfaces(output, search, macFormat).Ok?
    ensures var secs := SeparateSection(InterfaceHeader, output).value;
      name in GetInterfaces(output, search, macFormat).value <==>
      exists i :: 0 <= i < |secs| && search(Strip(secs[i])).nameState.value.0 == name
  {
    var secs := SeparateSection(InterfaceHeader, output).value;
    var entry := InterfaceEntry(search, macFormat);
    CollectSectionsKeys(output, entry, name);
    assert forall i :: 0 <= i < |secs| ==> entry(Strip(secs[i])).value.0 == search(Strip(secs[i])).nameState.value.0;
  }

  /** Each interface holds the record of the last section with its name. */
  lemma GetInterfacesRecord(output: string, search: string -> InterfaceMatches, macFormat: MacFormat, i: nat)
    requires output != "" && SeparateSection(InterfaceHeader, output).Ok?
    requires GetInterfaces(output, search, macFormat).Ok?
    requires var secs := SeparateSection(InterfaceHeader, output).value;
      i < |secs| && forall j :: i < j < |secs| ==>
        search(Strip(secs[j])).nameState.value.0 != search(Strip(secs[i])).nameState.value.0
    ensures var secs := SeparateSection(InterfaceHeader, output).value;
      var m := search(Strip(secs[i]));
      m.nameState.value.0 in GetInterfaces(output, search, macFormat).value
      && GetInterfaces(output, search, macFormat).value[m.nameState.value.0] == InterfaceOf(m, macFormat).value.1
  {
    CollectSectionsContents(output, InterfaceEntry(search, macFormat), i);
  }

  // ---------------------------------------------------------------------
  // get_interfaces_counters

  /** What a `findall` with two alternative groups yields: one tuple per
      match, each alternative either empty or a run of digits. */
  predicate WellFormedMatches(ms: seq<seq<string>>) {
    forall i, j :: 0 <= i < |ms| && 0 <= j < |ms[i]| ==> AllDigits(ms[i][j])
  }

  /** `process_counts`: the number in the first non-empty alternative, 0 when all are empty. */
  function ProcessCounts(tup: seq<string>): nat
    requires forall j :: 0 <= j < |tup| ==> AllDigits(tup[j])
  {
    if tup == [] then 0 else if tup[0] != "" then DigitsValue(tup[0]) else ProcessCounts(tup[1..])
  }

  lemma {:induction false} ProcessCountsFirstNonEmpty(tup: seq<string>, i: nat)
    requires forall j :: 0 <= j < |tup| ==> AllDigits(tup[j])
    requires i < |tup| && tup[i] != "" && forall j :: 0 <= j < i ==> tup[j] == ""
    ensures ProcessCounts(tup) == DigitsValue(tup[i])
  {
    if i > 0 {
      ProcessCountsFirstNonEmpty(tup[1..], i - 1);
    }
  }

  lemma {:induction false} ProcessCountsAllEmpty(tup: seq<string>)
    requires forall j :: 0 <= j < |tup| ==> tup[j] == ""
    ensures ProcessCounts(tup) == 0
  {
    if tup != [] {
      ProcessCountsAllEmpty(tup[1..]);
    }
  }

  /** What the counter patterns found in one (stripped) section. */
  datatype CounterMatches = CounterMatches(
    name: Option<string>,  // intf_name; mandatory
    errors: seq<seq<string>>,
    discards: seq<seq<string>>,
    unicast: seq<seq<string>>,
    multicast: seq<seq<string>>,
    broadcast: seq<seq<string>>,
    rxOctets: seq<seq<string>>,
    txOctets: seq<seq<string>>)

  predicate WellFormedCounters(m: CounterMatches) {
    WellFormedMatches(m.errors) && WellFormedMatches(m.discards) && WellFormedMatches(m.unicast)
    && WellFormedMatches(m.multicast) && WellFormedMatches(m.broadcast)
    && WellFormedMatches(m.rxOctets) && WellFormedMatches(m.txOctets)
  }

  datatype Counters = Counters(
    txErrors: nat, rxErrors: nat,
    txDiscards: nat, rxDiscards: nat,
    txOctets: nat, rxOctets: nat,
    txUnicast: nat, rxUnicast: nat,
    txMulticast: nat, rxMulticast: nat,
    txBroadcast: nat, rxBroadcast: nat)

  /** The count of the first match, 0 when there is none. */
  function First(ms: seq<seq<string>>): nat
    requires WellFormedMatches(ms)
  {
    if ms == [] then 0 else ProcessCounts(ms[0])
  }

  /** The count of the `i`-th match when there are exactly two, 0 otherwise. */
  function OfPair(ms: seq<seq<string>>, i: nat): nat
    requires WellFormedMatches(ms) && i < 2
  {
    if |ms| == 2 then ProcessCounts(ms[i]) else 0
  }

  function CountersOf(m: CounterMatches): (c: Counters)
    requires WellFormedCounters(m)
  {
    Counters(
      OfPair(m.errors, 1), First(m.errors),
      OfPair(m.discards, 1), OfPair(m.discards, 0),
      First(m.txOctets), First(m.rxOctets),
      OfPair(m.unicast, 1), OfPair(m.unicast, 0),
      OfPair(m.multicast, 1), OfPair(m.multicast, 0),
      OfPair(m.broadcast, 1), OfPair(m.broadcast, 0))
  }

  /** The positional reading of the counters: with exactly two matches the
      first is inbound and the second outbound; with any other number both
      directions stay 0. Errors are read inbound from the first match
      whenever there is one; octets only ever from the first match. */
  lemma CountersArePositional(m: CounterMatches)
    requires WellFormedCounters(m)
    ensures var c := CountersOf(m);
      && (|m.discards| == 2 ==> c.rxDiscards == ProcessCounts(m.discards[0]) && c.txDiscards == ProcessCounts(m.discards[1]))
      && (|m.discards| != 2 ==> c.rxDiscards == 0 && c.txDiscards == 0)
      && (|m.unicast| == 2 ==> c.rxUnicast == ProcessCounts(m.unicast[0]) && c.txUnicast == ProcessCounts(m.unicast[1]))
      && (|m.unicast| != 2 ==> c.rxUnicast == 0 && c.txUnicast == 0)
      && (|m.multicast| == 2 ==> c.rxMulticast == ProcessCounts(m.multicast[0]) && c.txMulticast == ProcessCounts(m.multicast[1]))
      && (|m.multicast| != 2 ==> c.rxMulticast == 0 && c.txMulticast == 0)
      && (|m.broadcast| == 2 ==> c.rxBroadcast == ProcessCounts(m.broadcast[0]) && c.txBroadcast == ProcessCounts(m.broadcast[1]))
      && (|m.broadcast| != 2 ==> c.rxBroadcast == 0 && c.txBroadcast == 0)
      && (|m.errors| > 0 ==> c.rxErrors == ProcessCounts(m.errors[0])) && (m.errors == [] ==> c.rxErrors == 0)
      && (c.txErrors == if |m.errors| == 2 then ProcessCounts(m.errors[1]) else 0)
      && (c.rxOctets == if m.rxOctets == [] then 0 else ProcessCounts(m.rxOctets[0]))
      && (c.txOctets == if m.txOctets == [] then 0 else ProcessCounts(m.txOctets[0]))
  {
  }

  /** A section in which no counter pattern matched has every counter at 0. */
  lemma NoMatchesNoCounts(m: CounterMatches)
    requires m.errors == [] && m.discards == [] && m.unicast == [] && m.multicast == []
    requires m.broadcast == [] && m.rxOctets == [] && m.txOctets == []
    ensures CountersOf(m) == Counters(0, 0, 0, 0, 0, 0, 0, 0, 0, 0, 0, 0)
  {
  }

  function CounterEntryOf(m: CounterMatches): (r: Result<(string, Counters), ExtractError>)
    requires WellFormedCounters(m)
    ensures r.Err? <==> m.name.None?
    ensures r.Err? ==> r.error == UnexpectedInterfaceFormat
    ensures r.Ok? ==> r.value.0 == m.name.value
  {
    if m.name.None? then Err(UnexpectedInterfaceFormat) else Ok((m.name.value, CountersOf(m)))
  }

  /** `get_interfaces_counters` over the text of `display interface`. */
  function GetInterfacesCounters(output: string, search: string -> CounterMatches)
    : (r: Result<map<string, Counters>, ExtractError>)
    requires forall t :: WellFormedCounters(search(t))
    ensures output == "" ==> r == Ok(map[])
    ensures SeparateSection(InterfaceHeader, output).Err? ==> r == Err(BadOutput(NoSeparator))
    ensures SeparateSection(InterfaceHeader, output).Ok? ==>
      var secs := SeparateSection(InterfaceHeader, output).value;
      (r.Ok? <==> forall i :: 0 <= i < |secs| ==> search(Strip(secs[i])).name.Some?)
  {
    CollectSections(output, CounterEntry(search))
  }

  function CounterEntry(search: string -> CounterMatches): string -> Result<(string, Counters), ExtractError>
    requires forall t :: WellFormedCounters(search(t))
  {
    t => CounterEntryOf(search(t))
  }

  /** The counters returned are exactly those of the named sections. */
  lemma GetInterfacesCountersKeys(output: string, search: string -> CounterMatches, name: string)
    requires forall t :: WellFormedCounters(search(t))
    requires output != "" && SeparateSection(InterfaceHeader, output).Ok?
    requires GetInterfacesCounters(output, search).Ok?
    ensures var secs := SeparateSection(InterfaceHeader, output).value;
      name in GetInterfacesCounters(output, search).value <==>
      exists i :: 0 <= i < |secs| && search(Strip(secs[i])).name.value == name
  {
    var secs := SeparateSection(InterfaceHeader, output).value;
    var entry := CounterEntry(search);
    CollectSectionsKeys(output, entry, name);
    assert forall i :: 0 <= i < |secs| ==> entry(Strip(secs[i])).value.0 == search(Strip(secs[i])).name.value;
  }

  /** Each interface holds the counters of the last section with its name. */
  lemma GetInterfacesCountersRecord(output: string, search: string -> CounterMatches, i: nat)
    requires forall t :: WellFormedCounters(search(t))
    requires output != "" && SeparateSection(InterfaceHeader, output).Ok?
    requires GetInterfacesCounters(output, search).Ok?
    requires var secs := SeparateSection(InterfaceHeader, output).value;
      i < |secs| && forall j :: i < j < |secs| ==> search(Strip(secs[j])).name.value != search(Strip(secs[i])).name.value
    ensures var secs := SeparateSection(InterfaceHeader, output).value;
      var m := search(Strip(secs[i]));
      m.name.value in GetInterfacesCounters(output, search).value
      && GetInterfacesCounters(output, search).value[m.name.value] == CountersOf(m)
  {
    CollectSectionsContents(output, CounterEntry(search), i);
  }
}
