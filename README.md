# H3C Comware driver core, modelled in Dafny

This project models the parsing and configuration core of the NAPALM driver
for H3C Comware switches (`CMWDriver`). It proves properties of that model.
There are five parts:

- **Uptime decoder** (`Uptime`, `uptime.dfy`). Device uptime text such as
  `uptime is 2 weeks, 1 day, 3 hours, 12 minutes` becomes seconds. Each unit
  takes the number of the first `<digits><whitespace><unit>` occurrence.
  The unit word is matched case-sensitively and as a prefix, so `day` also
  matches `days`. A unit that does not occur counts 0. An independent reading
  of uptime text as a list of `<count> <unit>` fields is given, and the
  decoder is proved to invert its rendering.
- **Sectioning engine** (`Sections`, `sections.dfy`). Multi-interface command
  output is split at the header lines. A header line mentions
  `current state` and does not start with `Line protocol`. The text before
  the first header is dropped, and each header is glued to the text up to
  the next header. The model follows the fragments `re.split` produces and
  the pairing comprehension. It is proved equal to a direct description of
  the sections, and the sections rejoin to the output minus its preamble.
- **Field and counter extraction** (`Extraction`, `extraction.dfy`).
  `get_interfaces` and `get_interfaces_counters` take what each field
  pattern found in a section as an input. Modelled from there:
  - mandatory fields raise when missing, optional fields fall back to
    sentinels;
  - `process_counts` and the positional rx/tx pairing of the counters;
  - the dictionary the sections are collected into, where a later section
    overwrites an earlier one of the same name.
- **Merge diff** (`MergeDiff`, `merge_diff.dfy`). `_get_merge_diff` keeps, in
  order, the candidate lines that are non-empty, not among the running
  lines, and do not start with `!`. It is a loop proved against a filter
  function, and the filter's properties are proved as lemmas.
- **Configuration lifecycle** (`Lifecycle`, `lifecycle.dfy`). `Driver` is a
  class with the fields `loaded`, `changed`, `replace`, `merge_candidate`,
  `backup_file` and `replace_file`, and with commit, compare, discard and
  rollback methods. It talks to a `Device` object. Every command the device
  receives is appended to its log. Its reply, and whether the session is in
  configuration mode, are arbitrary functions of the command history.
  Success is decided as the driver decides it:
  - `successfully` in the save replies;
  - `succeeded` or `finished` in the load replies;
  - no case-insensitive `error` in the merge output.

`text.dfy` holds the string primitives the driver borrows from Python
(`\d`, `\s`, `int()`, `str()`, `lower()`, `in`, `split('\n')`,
`splitlines()`, `strip()`, `"\n".join`). `result.dfy` holds the `Result`
and `Option` types used for raised errors and failed regex searches.

## Model

| member | source | states |
|---|---|---|
| Uptime.ParseUptime | napalm_h3c_cmw/h3c_cmw.py:1092-1117 | `_parse_uptime`: six first-match counts weighted by `YEAR_SECONDS`, `WEEK_SECONDS`, `DAY_SECONDS`, 3600, 60 and 1; it has no contract of its own, and what it computes is stated by `Uptime.DecodeRendered` and `Uptime.NoUnitsMeansZero` |
| Uptime.MatchHere | napalm_h3c_cmw/h3c_cmw.py:1096-1113 | the pattern `(\d+)\s<unit>` anchored at one position: a non-empty digit run, one whitespace character, then the unit word as a prefix; it has no contract of its own and is what `Uptime.FirstCountIsLeftmost` and `Uptime.FirstCountFound` speak about |
| Uptime.FirstCount | napalm_h3c_cmw/h3c_cmw.py:1096-1113 | `re.search` of one unit pattern with its `int()` and the 0 default; it has no contract of its own, and its properties are `Uptime.FirstCountIsLeftmost`, `Uptime.FirstCountFound` and `Uptime.FirstCountAbsent` |
| Uptime.FirstCountFound | napalm_h3c_cmw/h3c_cmw.py:1096-1098 | a positive count was read at a position where the unit pattern matches |
| Uptime.FirstCountIsLeftmost | napalm_h3c_cmw/h3c_cmw.py:1096-1098 | a unit's count is the number at the leftmost position where `(\d+)\s<unit>` matches |
| Uptime.FirstCountAbsent | napalm_h3c_cmw/h3c_cmw.py:1094-1098 | a unit the pattern finds nowhere counts 0 |
| Uptime.NoUnitsMeansZero | napalm_h3c_cmw/h3c_cmw.py:1094-1117 | text in which no unit pattern matches decodes to 0 seconds |
| Uptime.DecodeRendered | napalm_h3c_cmw/h3c_cmw.py:1092-1117 | decoding any rendering of distinct `<count> <unit>` fields, behind a prefix with no number followed by a space, yields `years*YEAR_SECONDS + weeks*WEEK_SECONDS + days*DAY_SECONDS + hours*3600 + minutes*60 + seconds` for the fields' counts, in any field order |
| Uptime.DigitRun | napalm_h3c_cmw/h3c_cmw.py:1096 | `\d+` takes the whole run of digits: every character before the end is a digit and the next one is not |
| Text.DigitsValueOfNatStr | napalm_h3c_cmw/h3c_cmw.py:1098 | `int()` of the decimal digits of a number is that number |
| Sections.SeparateSection | napalm_h3c_cmw/h3c_cmw.py:891-918 | empty output gives `[]`; the result is an error exactly when non-empty output has no header line, and that error is "no separator"; otherwise there is one section per header line |
| Sections.SeparateSectionIsSections | napalm_h3c_cmw/h3c_cmw.py:896-917 | for output with a header line, the engine returns exactly the sections: each header line with the lines up to the next header, newline-terminated, and the last one with all the remaining text |
| Sections.SeparateSectionRejoins | napalm_h3c_cmw/h3c_cmw.py:896-917 | the dropped preamble followed by the concatenated sections is the output again |
| Sections.SectionsCount | napalm_h3c_cmw/h3c_cmw.py:907-917 | there are as many sections as header lines |
| Sections.Fragments | napalm_h3c_cmw/h3c_cmw.py:896 | splitting with a capturing separator yields one fragment more than twice the number of header lines |
| Sections.Pair | napalm_h3c_cmw/h3c_cmw.py:911-915 | gluing fragments in twos yields half as many strings, rounding up |
| Text.JoinSplitNewlines | napalm_h3c_cmw/h3c_cmw.py:896 | joining the lines of a text with newlines gives the text back |
| Text.SplitLinesOnNewlines | napalm_h3c_cmw/h3c_cmw.py:1055-1056 | on text whose only line breaks are newlines, `splitlines()` is `split('\n')` without the empty piece after a final newline |
| Text.Strip | napalm_h3c_cmw/h3c_cmw.py:365 | `strip()` returns no longer text, with no whitespace at either end of the result, and the empty string exactly when the text is all whitespace |
| Text.StripMiddle | napalm_h3c_cmw/h3c_cmw.py:365 | the result of `strip()` is the slice of the text starting right after the leading whitespace, and everything before and after that slice is whitespace |
| Text.StripSlice | napalm_h3c_cmw/h3c_cmw.py:365 | the result of `strip()` equals the slice of the text that starts after the leading whitespace |
| Text.StripSurround | napalm_h3c_cmw/h3c_cmw.py:365 | everything in the text outside that slice is whitespace |
| Text.ContainsOccurs | napalm_h3c_cmw/h3c_cmw.py:374 | the substring test `p in s` holds exactly when `p` occurs in `s` at some position |
| Extraction.InterfaceOf | napalm_h3c_cmw/h3c_cmw.py:366-406 | a section raises "unexpected interface format" exactly when the name/state or the line-protocol match is missing, and otherwise raises only when the MAC normaliser rejects a matched address; a record has the matched name, `is_enabled` and `is_up` exactly when state and protocol contain `up` in any case, `last_flapped` -1.0, the normalised MAC or `""`, the matched description or `""`, and the speed read by `SpeedOf` |
| Extraction.SpeedOf | napalm_h3c_cmw/h3c_cmw.py:385-390 | an absent speed is -1; a matched speed becomes a number exactly when it is all digits, and is kept as text otherwise |
| Extraction.SpeedOfNumber | napalm_h3c_cmw/h3c_cmw.py:389-390 | a speed printed as a decimal number is read back as that number |
| Extraction.GetInterfaces | napalm_h3c_cmw/h3c_cmw.py:351-406 | empty output gives `{}`; output without a header line raises; otherwise the call succeeds exactly when every stripped section has both mandatory matches and a MAC address the normaliser accepts, if it has one |
| Extraction.GetInterfacesKeys | napalm_h3c_cmw/h3c_cmw.py:364-406 | the interfaces returned are exactly the names of the sections |
| Extraction.GetInterfacesRecord | napalm_h3c_cmw/h3c_cmw.py:398-406 | each interface holds the record of the last section with its name |
| Extraction.CollectSections | napalm_h3c_cmw/h3c_cmw.py:363-406 | the section loop both getters share: empty output gives `{}`; output without a header line raises; otherwise it succeeds exactly when every stripped section yields a record; with `Extraction.CollectSectionsKeys` and `Extraction.CollectSectionsContents`, the keys are the sections' names and each holds the last record of its name |
| Extraction.CollectSectionsKeys | napalm_h3c_cmw/h3c_cmw.py:398-406 | the keys collected are exactly the names the sections yield |
| Extraction.CollectSectionsContents | napalm_h3c_cmw/h3c_cmw.py:398-406 | a name holds the record of the last section that yields it |
| Extraction.Collect | napalm_h3c_cmw/h3c_cmw.py:364-406 | collecting the sections succeeds exactly when every section does |
| Extraction.CollectFirstError | napalm_h3c_cmw/h3c_cmw.py:368-371 | the error raised is the one of the first section that fails |
| Extraction.ProcessCounts | napalm_h3c_cmw/h3c_cmw.py:497-502 | `process_counts`; it has no contract of its own, and `Extraction.ProcessCountsFirstNonEmpty` and `Extraction.ProcessCountsAllEmpty` state what it returns |
| Extraction.ProcessCountsFirstNonEmpty | napalm_h3c_cmw/h3c_cmw.py:497-502 | `process_counts` is the number in the first non-empty alternative |
| Extraction.ProcessCountsAllEmpty | napalm_h3c_cmw/h3c_cmw.py:497-502 | `process_counts` is 0 when every alternative is empty |
| Extraction.CountersOf | napalm_h3c_cmw/h3c_cmw.py:528-575 | the twelve counters of one section; it has no contract of its own, and `Extraction.CountersArePositional` and `Extraction.NoMatchesNoCounts` state how each counter is read |
| Extraction.CountersArePositional | napalm_h3c_cmw/h3c_cmw.py:543-575 | discards, unicast, multicast and broadcast take rx from the first and tx from the second match only when there are exactly two matches, and stay 0 otherwise; `rx_errors` comes from the first match when there is one, `tx_errors` from the second only when there are exactly two; octets come from the first match only |
| Extraction.NoMatchesNoCounts | napalm_h3c_cmw/h3c_cmw.py:528-541 | a section in which no counter pattern matched has every counter at 0 |
| Extraction.CounterEntryOf | napalm_h3c_cmw/h3c_cmw.py:522-527 | a section raises exactly when its name/state match is missing, and is otherwise keyed by the interface name |
| Extraction.GetInterfacesCounters | napalm_h3c_cmw/h3c_cmw.py:505-576 | empty output gives `{}`; output without a header line raises; otherwise the call succeeds exactly when every stripped section names its interface |
| Extraction.GetInterfacesCountersKeys | napalm_h3c_cmw/h3c_cmw.py:519-579 | the counters returned are keyed by exactly the names of the sections |
| Extraction.GetInterfacesCountersRecord | napalm_h3c_cmw/h3c_cmw.py:577-579 | each interface holds the counters of the last section with its name |
| MergeDiff.GetMergeDiff | napalm_h3c_cmw/h3c_cmw.py:1052-1060 | the diff is the reported candidate lines, in candidate order, joined with newlines |
| MergeDiff.DiffLines | napalm_h3c_cmw/h3c_cmw.py:1056-1059 | every line of the diff is non-empty, not a running line, and does not start with `!` |
| MergeDiff.DiffLinesMembership | napalm_h3c_cmw/h3c_cmw.py:1056-1059 | a line is in the diff exactly when it is a candidate line that is non-empty, not among the running lines, and does not start with `!` |
| MergeDiff.DiffLinesCount | napalm_h3c_cmw/h3c_cmw.py:1056-1059 | a reported line occurs in the diff as often as in the candidate, any other line not at all |
| MergeDiff.DiffLinesAppend | napalm_h3c_cmw/h3c_cmw.py:1056-1059 | the diff of two candidate parts is the diff of the first followed by the diff of the second, so candidate order is kept |
| MergeDiff.NothingNewNoDiff | napalm_h3c_cmw/h3c_cmw.py:1052-1060 | a candidate whose lines the running configuration all holds gives an empty diff |
| MergeDiff.DiffSplitsBack | napalm_h3c_cmw/h3c_cmw.py:1060 | a non-empty diff splits at its newlines back into exactly its lines |
| Lifecycle.NonEmpty | napalm_h3c_cmw/h3c_cmw.py:1027 | the merge commands are at most as many as the candidate lines, and each is a non-empty candidate line |
| Lifecycle.NonEmptyMembership | napalm_h3c_cmw/h3c_cmw.py:1027 | a line is sent as a merge command exactly when it is a non-empty candidate line |
| Lifecycle.LastComponent | napalm_h3c_cmw/h3c_cmw.py:592 | the last path component contains no slash, ends the path, and is preceded by a slash unless it is the whole path |
| Lifecycle.LastComponentOfName | napalm_h3c_cmw/h3c_cmw.py:592 | a path without a slash is its own last component |
| Lifecycle.BackupName | napalm_h3c_cmw/h3c_cmw.py:587 | the backup name starts with `config_` and ends with `.cfg` |
| Lifecycle.Device.SendCommand | napalm_h3c_cmw/h3c_cmw.py:921-922 | a command is appended to the device log and answered from the history before it |
| Lifecycle.SavedAtExtends | napalm_h3c_cmw/h3c_cmw.py:583-631 | a backup save the device reported as successful stays on record as more commands are sent |
| Lifecycle.SavedExtends | napalm_h3c_cmw/h3c_cmw.py:583-631 | the same, for a save anywhere in the log |
| Lifecycle.LoadShape | napalm_h3c_cmw/h3c_cmw.py:935-941 | a load sends the load command and `y`, and a second `y` exactly when the device asks to clear information |
| Lifecycle.MergeOutcome | napalm_h3c_cmw/h3c_cmw.py:1026-1050 | the merge commits exactly when the session is in configuration mode after the candidate lines and no reply mentions `error` in any case; `commit` is sent after the candidate lines exactly then; outside configuration mode nothing is sent after the candidate lines; a failure is a rejected merge or "not in configuration mode" |
| Lifecycle.CommitBacksUpFirst | napalm_h3c_cmw/h3c_cmw.py:586-590 | a commit first looks the backup up with `dir`, then saves it before anything else is sent; it fails at the backup exactly when that save is not reported successful, and then sends nothing more |
| Lifecycle.CommitOutcome | napalm_h3c_cmw/h3c_cmw.py:591-601 | the change is made exactly when the commit ends in success or in a failed final save; after a change the last thing sent is the final save, and the commit succeeds exactly when the device reports that save successful; a load failure happens only in replace mode, a merge failure only in merge mode |
| Lifecycle.CommitCases | napalm_h3c_cmw/h3c_cmw.py:585-601 | what a commit sends and returns, case by case: only the backup step when the backup save fails; then the apply step; and the final save only once the apply step succeeded |
| Lifecycle.RollbackOutcome | napalm_h3c_cmw/h3c_cmw.py:626-631 | a rollback fails as a load exactly when the load of the backup is not reported successful, and then sends nothing after the load; it succeeds exactly when the load and the save after it both succeed |
| Lifecycle.Driver.constructor | napalm_h3c_cmw/h3c_cmw.py:97-102 | a new driver has nothing loaded, nothing changed, merge mode, and empty buffer and file names |
| Lifecycle.Driver.SaveConfig | napalm_h3c_cmw/h3c_cmw.py:924-933 | sends `save <file>` and `y`, and succeeds exactly when the two replies together contain `successfully` |
| Lifecycle.Driver.LoadConfig | napalm_h3c_cmw/h3c_cmw.py:935-946 | sends `rollback configuration to file <file>` and `y`, a second `y` exactly when the replies ask to clear information, and succeeds exactly when the replies contain `succeeded` or `finished` |
| Lifecycle.Driver.CheckFileExists | napalm_h3c_cmw/h3c_cmw.py:991-996 | sends `dir <file>` and reports the file present exactly when the reply lacks `No file found` |
| Lifecycle.Driver.DeleteFile | napalm_h3c_cmw/h3c_cmw.py:920-922 | sends `delete /unreserved /quiet <file>` |
| Lifecycle.Driver.SendAll | napalm_h3c_cmw/h3c_cmw.py:1032-1033 | sends the commands in order and gathers their replies |
| Lifecycle.Driver.SendMerge | napalm_h3c_cmw/h3c_cmw.py:1027-1033 | sends `system-view` and the non-empty candidate lines, and gathers every reply |
| Lifecycle.Driver.CommitMerge | napalm_h3c_cmw/h3c_cmw.py:1026-1050 | sends exactly the merge exchange and returns the merge outcome, whose properties `Lifecycle.MergeOutcome` states |
| Lifecycle.Driver.Apply | napalm_h3c_cmw/h3c_cmw.py:591-595 | sends the load of the replace file's last path component in replace mode, and the merge exchange otherwise; returns that step's outcome; empties the merge buffer only after a successful merge; no other field changes |
| Lifecycle.Driver.Backup | napalm_h3c_cmw/h3c_cmw.py:587-590 | sends `dir`, a `delete` exactly when the file was found, then the save of the backup; succeeds exactly when that save is reported successful, and then the save is on record |
| Lifecycle.Driver.Change | napalm_h3c_cmw/h3c_cmw.py:591-599 | runs the apply step; only after it succeeds does it set `changed`, clear `loaded` and send the final save, whose reply decides between success and a failed final save |
| Lifecycle.Driver.CommitConfig | napalm_h3c_cmw/h3c_cmw.py:583-603 | with nothing loaded it fails with "No config loaded." and changes nothing; otherwise it names the backup from the timestamp, sends exactly the commit exchange and returns its outcome (properties in `Lifecycle.CommitBacksUpFirst` and `Lifecycle.CommitOutcome`); `loaded` is cleared, `changed` set and the merge buffer emptied in merge mode exactly when the backup was saved and the apply step succeeded; it keeps the rollback invariant unless the backup save fails |
| Lifecycle.Driver.CompareConfig | napalm_h3c_cmw/h3c_cmw.py:606-614 | with nothing loaded it returns `""` and sends nothing; in merge mode it returns the merge diff against the running configuration; in replace mode it returns the device's diff against the replace file's last path component |
| Lifecycle.Driver.DiscardConfig | napalm_h3c_cmw/h3c_cmw.py:617-623 | always leaves nothing loaded; it empties the merge buffer only when something was loaded, and deletes the replace file only when something was loaded in replace mode |
| Lifecycle.Driver.Rollback | napalm_h3c_cmw/h3c_cmw.py:626-631 | without a change it does nothing; otherwise it sends exactly the load of the backup, then a save once the load succeeded, and returns that outcome (properties in `Lifecycle.RollbackOutcome`); `changed` stays set exactly when the load is not reported successful; it keeps the invariant that a change names a backup whose save the device reported successful |

## Left out

- Transport and session handling (`open`, `close`, `is_alive`, `cli`, netmiko, telnetlib, sockets) is not modelled. A command's reply is an arbitrary function of the command history, and the prompt patterns (`expect_string`, `max_loops`) are not modelled.
- Exceptions raised by the transport itself, such as timeouts while waiting for a prompt, are not modelled. A failure is only what the driver detects in the replies.
- The file transfer in `_replace_candidate` (SFTP through paramiko), `_create_tmp_file` (temporary files, uuid), the MD5 helpers and `_verify_remote_file_exists` are not modelled. They are file-system, network and hashing work.
- `_enough_space` is not modelled. It is the bare comparison `file_size > flash_size` (h3c_cmw.py:1068-1073), and its only caller, `_replace_candidate`, is left out with the file transfer. Its flash size would come from `_get_flash_size`, which as written wraps the `map` of numbers in a one-element list and multiplies the map itself, so it raises instead of returning a size.
- Nothing in the driver sets `loaded` or `replace`, or fills the merge buffer; there is no load-candidate operation. The lifecycle methods therefore work from any state of the fields.
- `datetime.now()` is not modelled. The formatted timestamp that names the backup is a parameter of `CommitConfig`.
- Lifecycle.Driver.CommitConfig: when the backup save fails after an earlier commit, `backup_file` already names the new, unsaved backup, as in the source (line 587 assigns it before the save at line 590). The rollback invariant `Valid` is therefore promised only when the backup save does not fail.
- Error messages are not modelled. `commit_config` wraps every failure in `CommitError(str(e))`; the model returns which step failed (`Fault`) in place of the message text.
- The regex engine is not modelled:
  - the sectioning separator is the line predicate `Sections.InterfaceHeader`;
  - what the field patterns of `get_interfaces` and `get_interfaces_counters` found in a section is an input function of the stripped section text;
  - `napalm.base.helpers.mac`, a library helper, is an input function too. It returns `None` where the helper raises, and `get_interfaces` then fails with `BadMacAddress`.
- `\d` and `lower()` cover ASCII only; Python also accepts other Unicode digits and letters there.
- `Uptime.DecodeRendered` is stated for text with a quiet prefix before the fields. The decoder itself (`Uptime.ParseUptime`) is modelled for every input.
- The other getters (`get_facts`, `get_interfaces_ip`, `get_lldp_neighbors`, `get_arp_table`, `get_mac_address_table`, `get_config`, `ping`) are not modelled. They are thin regex call sites, and `ping` works on floats. `get_config` is reduced to the reply to `display current-configuration`, which `CompareConfig` uses.
- The stub methods that only pass or return constants are not modelled.
- The uptime unit is matched case-sensitively, as the code does it; an uptime written as `2 Weeks` is not counted.
- `_get_merge_diff` tests `line[0].strip() != '!'`. Stripping a single whitespace character leaves the empty string, so the test is exactly "the first character is not `!`", which is how `MergeDiff.Reported` states it.
