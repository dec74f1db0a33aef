/** The configuration lifecycle of the driver: commit, compare, discard and
    rollback over the fields `loaded`, `changed`, `replace`,
    `merge_candidate`, `backup_file` and `replace_file`, talking to a device
    through commands and replies. */
module Lifecycle {
  import opened Text
  import MergeDiff

  /** The device as the driver sees it: every command gets a reply that may
      depend on everything sent before, and whether the session is in
      configuration mode also depends on that history. */
  /** The device's answer to a command, given every command sent before it. */
  type Respond = (seq<string>, string) -> string

  /** Whether the session is in configuration mode after a history of commands. */
  type ModeTest = seq<string> -> bool

  class Device {
    const respond: Respond
    const inConfigMode: ModeTest
    /** The commands sent so far, oldest first. */
    var log: seq<string>

    constructor (respond: Respond, inConfigMode: ModeTest)
      ensures this.respond == respond && this.inConfigMode == inConfigMode && log == []
    {
      this.respond := respond;
      this.inConfigMode := inConfigMode;
      log := [];
    }

    /** `send_command`: the reply to `command`, which is appended to the log. */
    method SendCommand(command: string) returns (reply: string)
      modifies this
      ensures log == old(log) + [command]
      ensures reply == respond(old(log), command)
    {
      reply := respond(log, command);
      log := log + [command];
    }

    /** `check_config_mode`. */
    predicate CheckConfigMode()
      reads this
    {
      inConfigMode(log)
    }
  }

  // ---------------------------------------------------------------------
  // What the driver looks for in the replies.

  predicate SaveSucceeded(reply: string) {
    Contains(reply, "successfully")
  }

  predicate LoadSucceeded(reply: string) {
    Contains(reply, "succeeded") || Contains(reply, "finished")
  }

  /** The case-insensitive search for "error" over the merge output. */
  predicate MentionsError(output: string) {
    Contains(Lower(output), "error")
  }

  /** The concatenated replies to `commands` sent one after the other after `history`. */
  function Replies(respond: Respond, history: seq<string>, commands: seq<string>): string {
    if commands == [] then ""
    else
      var init := commands[..|commands| - 1];
      Replies(respond, history, init) + respond(history + init, commands[|commands| - 1])
  }

  /** The merge commands: the non-empty lines of the merge candidate. */
  function NonEmpty(lines: seq<string>): (r: seq<string>)
    ensures |r| <= |lines|
    ensures forall i :: 0 <= i < |r| ==> r[i] != "" && r[i] in lines
  {
    if lines == [] then []
    else if lines[0] != "" then [lines[0]] + NonEmpty(lines[1..])
    else NonEmpty(lines[1..])
  }

  /** A line is a merge command exactly when it is a non-empty candidate line. */
  lemma {:induction false} NonEmptyMembership(lines: seq<string>, line: string)
    ensures line in NonEmpty(lines) <==> line in lines && line != ""
  {
    if lines != [] {
      NonEmptyMembership(lines[1..], line);
      assert lines == [lines[0]] + lines[1..];
    }
  }

  /** The last component of a slash-separated path, `path.split('/')[-1]`. */
  function LastComponent(path: string): (r: string)
    ensures |r| <= |path| && r == path[|path| - |r|..]
    ensures '/' !in r
    ensures |r| < |path| ==> path[|path| - |r| - 1] == '/'
  {
    if path == [] then ""
    else if path[|path| - 1] == '/' then ""
    else LastComponent(path[..|path| - 1]) + [path[|path| - 1]]
  }

  /** A path without a slash is its own last component. */
  lemma {:induction false} LastComponentOfName(name: string)
    requires '/' !in name
    ensures LastComponent(name) == name
  {
    if name != [] {
      assert name[..|name| - 1] + [name[|name| - 1]] == name;
      assert forall c :: c in name[..|name| - 1] ==> c in name;
      LastComponentOfName(name[..|name| - 1]);
    }
  }

  /** The name of the backup `commit_config` saves, from the timestamp
      `%Y%m%d_%H%M` of the commit. */
  function BackupName(timestamp: string): (name: string)
    ensures "config_" <= name && |name| == |timestamp| + 11
    ensures name[|name| - 4..] == ".cfg"
  {
    "config_" + timestamp + ".cfg"
  }

  predicate IsBackupName(name: string) {
    |name| >= 11 && "config_" <= name && name[|name| - 4..] == ".cfg"
  }

  // ---------------------------------------------------------------------
  // The exchanges of the driver's helpers: what each one sends and whether
  // it succeeds, as functions of the device's replies and of the history
  // the exchange starts from.

  /** `_save_config(file)` sends the save and its confirmation. */
  function SaveCommands(file: string): seq<string> {
    ["save " + file, "y"]
  }

  /** The save succeeds when its two replies together contain `successfully`. */
  predicate SaveOk(respond: Respond, history: seq<string>, file: string) {
    var c := "save " + file;
    SaveSucceeded(respond(history, c) + respond(history + [c], "y"))
  }

  /** The replies to the load command and its first confirmation. */
  function LoadReplies(respond: Respond, history: seq<string>, file: string): string {
    var c := "rollback configuration to file " + file;
    respond(history, c) + respond(history + [c], "y")
  }

  /** The device asks for a second confirmation before clearing information. */
  predicate AsksToClear(respond: Respond, history: seq<string>, file: string) {
    Contains(LoadReplies(respond, history, file), "clear the information")
  }

  /** `_load_config(file)` sends the load command and one or two confirmations. */
  function LoadCommands(respond: Respond, history: seq<string>, file: string): seq<string> {
    var c := "rollback configuration to file " + file;
    if AsksToClear(respond, history, file) then [c, "y", "y"] else [c, "y"]
  }

  /** The load succeeds when its replies contain `succeeded` or `finished`. */
  predicate LoadOk(respond: Respond, history: seq<string>, file: string) {
    var c := "rollback configuration to file " + file;
    var r := LoadReplies(respond, history, file);
    LoadSucceeded(if AsksToClear(respond, history, file) then r + respond(history + [c, "y"], "y") else r)
  }

  /** `_commit_merge` first enters system view and sends the non-empty candidate lines. */
  function MergeCommands(candidate: string): seq<string> {
    ["system-view"] + NonEmpty(SplitLines(candidate))
  }

  /** Everything the device answers to those commands. */
  function MergeOutput(respond: Respond, history: seq<string>, candidate: string): string {
    respond(history, "system-view") + Replies(respond, history + ["system-view"], NonEmpty(SplitLines(candidate)))
  }

  /** The outcome of the merge: outside configuration mode it fails, an
      output mentioning an error is rejected, and otherwise it commits. */
  function MergeStatus(respond: Respond, inConfigMode: ModeTest, history: seq<string>, candidate: string): Status {
    if !inConfigMode(history + MergeCommands(candidate)) then Failed(NotInConfigMode)
    else if MentionsError(MergeOutput(respond, history, candidate)) then Failed(ApplyRejected)
    else Done
  }

  /** What the merge sends after the candidate lines: nothing outside
      configuration mode; `return` (and `n` when the device reports
      uncommitted configurations) on an error; else `commit` and `return`. */
  function MergeClosing(respond: Respond, inConfigMode: ModeTest, history: seq<string>, candidate: string): seq<string> {
    var sent := history + MergeCommands(candidate);
    if !inConfigMode(sent) then []
    else if MentionsError(MergeOutput(respond, history, candidate)) then
      if Contains(respond(sent, "return"), "Uncommitted configurations") then ["return", "n"] else ["return"]
    else ["commit", "return"]
  }

  function MergeExchange(respond: Respond, inConfigMode: ModeTest, history: seq<string>, candidate: string): seq<string> {
    MergeCommands(candidate) + MergeClosing(respond, inConfigMode, history, candidate)
  }

  /** The apply step of `commit_config`: load the replace file by its last
      path component, or commit the merge candidate. */
  function ApplyExchange(respond: Respond, inConfigMode: ModeTest, history: seq<string>,
                         replace: bool, replaceFile: string, candidate: string): seq<string> {
    if replace then LoadCommands(respond, history, LastComponent(replaceFile))
    else MergeExchange(respond, inConfigMode, history, candidate)
  }

  function ApplyStatus(respond: Respond, inConfigMode: ModeTest, history: seq<string>,
                       replace: bool, replaceFile: string, candidate: string): Status {
    if replace then
      if LoadOk(respond, history, LastComponent(replaceFile)) then Done else Failed(LoadFailed)
    else MergeStatus(respond, inConfigMode, history, candidate)
  }

  /** `_check_file_exists`: the file is there unless the reply to `dir` says otherwise. */
  predicate FileFound(respond: Respond, history: seq<string>, file: string) {
    !Contains(respond(history, "dir " + file), "No file found")
  }

  /** The backup step looks the file up and deletes a file of the same name. */
  function BackupPrelude(respond: Respond, history: seq<string>, file: string): seq<string> {
    ["dir " + file] + if FileFound(respond, history, file) then ["delete /unreserved /quiet " + file] else []
  }

  /** The backup step: the prelude, then the save of the backup. */
  function BackupExchange(respond: Respond, history: seq<string>, file: string): seq<string> {
    BackupPrelude(respond, history, file) + SaveCommands(file)
  }

  predicate BackupOk(respond: Respond, history: seq<string>, file: string) {
    SaveOk(respond, history + BackupPrelude(respond, history, file), file)
  }

  /** The commit reaches the change: the backup was saved and the apply step succeeded. */
  predicate Applied(respond: Respond, inConfigMode: ModeTest, history: seq<string>, backup: string,
                    replace: bool, replaceFile: string, candidate: string) {
    BackupOk(respond, history, backup)
    && var h := history + BackupExchange(respond, history, backup);
       ApplyStatus(respond, inConfigMode, h, replace, replaceFile, candidate) == Done
  }

  /** Everything `commit_config` sends when a configuration is loaded: the
      backup step; the apply step once the backup is saved; the final save
      once the apply step succeeded. */
  function CommitExchange(respond: Respond, inConfigMode: ModeTest, history: seq<string>, backup: string,
                          replace: bool, replaceFile: string, candidate: string): seq<string> {
    var b := BackupExchange(respond, history, backup);
    if !BackupOk(respond, history, backup) then b
    else
      var a := ApplyExchange(respond, inConfigMode, history + b, replace, replaceFile, candidate);
      if ApplyStatus(respond, inConfigMode, history + b, replace, replaceFile, candidate) != Done then b + a
      else b + a + SaveCommands("")
  }

  /** The outcome of `commit_config` when a configuration is loaded. */
  function CommitStatus(respond: Respond, inConfigMode: ModeTest, history: seq<string>, backup: string,
                        replace: bool, replaceFile: string, candidate: string): Status {
    var b := BackupExchange(respond, history, backup);
    if !BackupOk(respond, history, backup) then Failed(BackupSaveFailed)
    else
      var s := ApplyStatus(respond, inConfigMode, history + b, replace, replaceFile, candidate);
      if s != Done then s
      else
        var a := ApplyExchange(respond, inConfigMode, history + b, replace, replaceFile, candidate);
        if SaveOk(respond, history + b + a, "") then Done else Failed(FinalSaveFailed)
  }

  /** Everything `rollback` sends after a change: the load of the backup,
      then a save once the load succeeded. */
  function RollbackExchange(respond: Respond, history: seq<string>, backup: string): seq<string> {
    LoadCommands(respond, history, backup) + if LoadOk(respond, history, backup) then SaveCommands("") else []
  }

  function RollbackStatus(respond: Respond, history: seq<string>, backup: string): Status {
    if !LoadOk(respond, history, backup) then Failed(LoadFailed)
    else if SaveOk(respond, history + LoadCommands(respond, history, backup), "") then Done
    else Failed(FinalSaveFailed)
  }

  /** `file` was saved, and the device reported success, at position `k` of `log`. */
  predicate SavedAt(respond: Respond, log: seq<string>, k: nat, file: string) {
    k + 2 <= |log| && log[k..k + 2] == SaveCommands(file) && SaveOk(respond, log[..k], file)
  }

  /** `file` was saved with a success reply somewhere in `log`. */
  predicate Saved(respond: Respond, log: seq<string>, file: string) {
    exists k :: 0 <= k < |log| && SavedAt(respond, log, k, file)
  }

  // ---------------------------------------------------------------------
  // Properties of the exchanges.

  /** A save recorded in a log stays recorded as the log grows. */
  lemma SavedAtExtends(respond: Respond, log: seq<string>, more: seq<string>, k: nat, file: string)
    requires SavedAt(respond, log, k, file)
    ensures SavedAt(respond, log + more, k, file)
  {
    assert (log + more)[..k] == log[..k];
    assert (log + more)[k..k + 2] == log[k..k + 2];
  }

  lemma SavedExtends(respond: Respond, log: seq<string>, more: seq<string>, file: string)
    requires Saved(respond, log, file)
    ensures Saved(respond, log + more, file)
  {
    var k :| 0 <= k < |log| && SavedAt(respond, log, k, file);
    SavedAtExtends(respond, log, more, k, file);
  }

  lemma Regroup(h: seq<string>, b: seq<string>, a: seq<string>, f: seq<string>)
    ensures h + b + a + f == h + (b + a + f)
  {
  }

  /** The load sends the load command and a confirmation, and a second
      confirmation exactly when the device asks to clear information. */
  lemma LoadShape(respond: Respond, history: seq<string>, file: string)
    ensures var l := LoadCommands(respond, history, file);
      && l[..2] == ["rollback configuration to file " + file, "y"]
      && (|l| == 3 <==> AsksToClear(respond, history, file))
      && (|l| == 2 || l[2] == "y")
  {
  }

  /** The merge commits exactly when the session is in configuration mode
      after the candidate lines and nothing answered mentions an error;
      `commit` is sent after the candidate lines only then, and outside
      configuration mode nothing more is sent. */
  lemma MergeOutcome(respond: Respond, inConfigMode: ModeTest, history: seq<string>, candidate: string)
    ensures var x := MergeExchange(respond, inConfigMode, history, candidate);
      var sent := MergeCommands(candidate);
      var st := MergeStatus(respond, inConfigMode, history, candidate);
      && sent <= x
      && (st == Done <==> inConfigMode(history + sent) && !MentionsError(MergeOutput(respond, history, candidate)))
      && (st == Done <==> "commit" in x[|sent|..])
      && (st == Failed(NotInConfigMode) <==> x == sent)
      && (st.Failed? ==> st.fault == NotInConfigMode || st.fault == ApplyRejected)
  {
    var x := MergeExchange(respond, inConfigMode, history, candidate);
    assert x[|MergeCommands(candidate)|..] == MergeClosing(respond, inConfigMode, history, candidate);
  }

  /** The backup is looked up, and saved, before anything else is sent;
      when its save fails nothing else is sent and the commit fails with
      that fault alone. */
  lemma CommitBacksUpFirst(respond: Respond, inConfigMode: ModeTest, history: seq<string>,
                                              backup: string, replace: bool, replaceFile: string, candidate: string)
    ensures var x := CommitExchange(respond, inConfigMode, history, backup, replace, replaceFile, candidate);
      var st := CommitStatus(respond, inConfigMode, history, backup, replace, replaceFile, candidate);
      var p := BackupPrelude(respond, history, backup);
      && x[0] == "dir " + backup
      && |p| + 2 <= |x| && x[|p|..|p| + 2] == SaveCommands(backup)
      && (st == Failed(BackupSaveFailed) <==> !BackupOk(respond, history, backup))
      && (st == Failed(BackupSaveFailed) ==> x == BackupExchange(respond, history, backup))
  {
    var b := BackupExchange(respond, history, backup);
    var p := BackupPrelude(respond, history, backup);
    var x := CommitExchange(respond, inConfigMode, history, backup, replace, replaceFile, candidate);
    assert b <= x;
    assert x[|p|..|p| + 2] == b[|p|..|p| + 2];
    var st := CommitStatus(respond, inConfigMode, history, backup, replace, replaceFile, candidate);
    if BackupOk(respond, history, backup) {
      var s := ApplyStatus(respond, inConfigMode, history + b, replace, replaceFile, candidate);
      assert s == Done || s.fault in {LoadFailed, NotInConfigMode, ApplyRejected} by {
        if !replace {
          MergeOutcome(respond, inConfigMode, history + b, candidate);
        }
      }
    }
  }

  /** The commit reaches the change exactly when it ends in success or in a
      failed final save; it succeeds exactly when the final save after the
      change succeeds, which is then the last thing sent. A failed apply
      step fails as a load in replace mode and as a merge otherwise. */
  lemma CommitOutcome(respond: Respond, inConfigMode: ModeTest, history: seq<string>,
                                         backup: string, replace: bool, replaceFile: string, candidate: string)
    ensures var x := CommitExchange(respond, inConfigMode, history, backup, replace, replaceFile, candidate);
      var st := CommitStatus(respond, inConfigMode, history, backup, replace, replaceFile, candidate);
      var applied := Applied(respond, inConfigMode, history, backup, replace, replaceFile, candidate);
      && (applied <==> st == Done || st == Failed(FinalSaveFailed))
      && (applied ==> |x| >= 2 && x[|x| - 2..] == SaveCommands("")
                      && (st == Done <==> SaveOk(respond, history + x[..|x| - 2], "")))
      && (st == Failed(LoadFailed) ==> replace)
      && (st == Failed(ApplyRejected) || st == Failed(NotInConfigMode) ==> !replace)
  {
    var b := BackupExchange(respond, history, backup);
    var x := CommitExchange(respond, inConfigMode, history, backup, replace, replaceFile, candidate);
    if BackupOk(respond, history, backup) {
      var a := ApplyExchange(respond, inConfigMode, history + b, replace, replaceFile, candidate);
      var s := ApplyStatus(respond, inConfigMode, history + b, replace, replaceFile, candidate);
      if !replace {
        MergeOutcome(respond, inConfigMode, history + b, candidate);
      }
      if s == Done {
        assert x[..|x| - 2] == b + a;
        assert history + (b + a) == history + b + a;
      }
    }
  }

  /** `CommitExchange` and `CommitStatus` case by case. */
  lemma CommitCases(respond: Respond, inConfigMode: ModeTest, history: seq<string>,
                    backup: string, replace: bool, replaceFile: string, candidate: string)
    ensures var b := BackupExchange(respond, history, backup);
      var x := CommitExchange(respond, inConfigMode, history, backup, replace, replaceFile, candidate);
      var st := CommitStatus(respond, inConfigMode, history, backup, replace, replaceFile, candidate);
      var a := ApplyExchange(respond, inConfigMode, history + b, replace, replaceFile, candidate);
      var s := ApplyStatus(respond, inConfigMode, history + b, replace, replaceFile, candidate);
      && (!BackupOk(respond, history, backup) ==> x == b && st == Failed(BackupSaveFailed))
      && (BackupOk(respond, history, backup) ==>
            && x == b + a + (if s == Done then SaveCommands("") else [])
            && st == (if s != Done then s else if SaveOk(respond, history + b + a, "") then Done else Failed(FinalSaveFailed)))
  {
  }

  /** The rollback fails as a load exactly when the load of the backup
      fails, and then sends nothing after it; it succeeds exactly when the
      load and the save after it both succeed. */
  lemma RollbackOutcome(respond: Respond, history: seq<string>, backup: string)
    ensures var x := RollbackExchange(respond, history, backup);
      var st := RollbackStatus(respond, history, backup);
      var l := LoadCommands(respond, history, backup);
      && l <= x
      && (st == Failed(LoadFailed) <==> !LoadOk(respond, history, backup))
      && (st == Failed(LoadFailed) <==> x == l)
      && (st == Done <==> LoadOk(respond, history, backup) && SaveOk(respond, history + l, ""))
  {
  }

  // ---------------------------------------------------------------------
  // The driver.

  datatype Fault =
    | NoConfigLoaded    // "No config loaded."
    | BackupSaveFailed  // the save of the backup before the change
    | LoadFailed        // the rollback to the replace file or to the backup
    | ApplyRejected     // "Error while applying config!"
    | NotInConfigMode   // "Not in configuration mode."
    | FinalSaveFailed   // the save after the change

  datatype Status = Done | Failed(fault: Fault)

  class Driver {
    var loaded: bool
    var changed: bool
    var replace: bool
    var mergeCandidate: string
    var backupFile: string
    var replaceFile: string
    const device: Device

    /** The state just after construction. */
    constructor (device: Device)
      ensures this.device == device
      ensures !loaded && !changed && !replace
      ensures mergeCandidate == "" && backupFile == "" && replaceFile == ""
      ensures Valid()
    {
      this.device := device;
      loaded := false;
      changed := false;
      backupFile := "";
      replace := false;
      mergeCandidate := "";
      replaceFile := "";
    }

    /** A committed change can be rolled back: the backup it names was
        saved on the device, which reported success. */
    predicate Valid()
      reads this, device
    {
      changed ==> IsBackupName(backupFile) && Saved(device.respond, device.log, backupFile)
    }

    /** `_save_config(filename)`. */
    method SaveConfig(filename: string) returns (ok: bool)
      modifies device
      ensures device.log == old(device.log) + SaveCommands(filename)
      ensures ok == SaveOk(device.respond, old(device.log), filename)
    {
      var saveLog := device.SendCommand("save " + filename);
      var confirm := device.SendCommand("y");
      saveLog := saveLog + confirm;
      ok := SaveSucceeded(saveLog);
    }

    /** `_load_config(config_file)`. */
    method LoadConfig(configFile: string) returns (ok: bool)
      modifies device
      ensures device.log == old(device.log) + LoadCommands(device.respond, old(device.log), configFile)
      ensures ok == LoadOk(device.respond, old(device.log), configFile)
    {
      ghost var h := device.log;
      var command := "rollback configuration to file " + configFile;
      var result := device.SendCommand(command);
      var confirm := device.SendCommand("y");
      assert device.log == h + [command, "y"];
      result := result + confirm;
      if Contains(result, "clear the information") {
        confirm := device.SendCommand("y");
        assert device.log == h + [command, "y", "y"];
        result := result + confirm;
      }
      ok := LoadSucceeded(result);
    }

    /** `_check_file_exists`. */
    method CheckFileExists(file: string) returns (exists_: bool)
      modifies device
      ensures device.log == old(device.log) + ["dir " + file]
      ensures exists_ == FileFound(device.respond, old(device.log), file)
    {
      var output := device.SendCommand("dir " + file);
      exists_ := !Contains(output, "No file found");
    }

    /** `_delete_file`. */
    method DeleteFile(file: string)
      modifies device
      ensures device.log == old(device.log) + ["delete /unreserved /quiet " + file]
    {
      var _ := device.SendCommand("delete /unreserved /quiet " + file);
    }

    /** The loop of `_commit_merge` that sends the commands one by one and
        gathers the replies. */
    method SendAll(commands: seq<string>) returns (output: string)
      modifies device
      ensures device.log == old(device.log) + commands
      ensures output == Replies(device.respond, old(device.log), commands)
    {
      output := "";
      var i := 0;
      while i < |commands|
        invariant 0 <= i <= |commands|
        invariant device.log == old(device.log) + commands[..i]
        invariant output == Replies(device.respond, old(device.log), commands[..i])
      {
        var reply := device.SendCommand(commands[i]);
        assert commands[..i + 1][..i] == commands[..i];
        output := output + reply;
        i := i + 1;
      }
      assert commands[..i] == commands;
    }

    /** The first half of `_commit_merge`: system view, then the non-empty
        candidate lines, gathering every reply. */
    method SendMerge() returns (output: string)
      modifies device
      ensures device.log == old(device.log) + MergeCommands(mergeCandidate)
      ensures output == MergeOutput(device.respond, old(device.log), mergeCandidate)
    {
      var commands := NonEmpty(SplitLines(mergeCandidate));
      output := device.SendCommand("system-view");
      var replies := SendAll(commands);
      output := output + replies;
    }

    /** `_commit_merge`. */
    method CommitMerge() returns (st: Status)
      modifies device
      ensures device.log == old(device.log) + MergeExchange(device.respond, device.inConfigMode, old(device.log), mergeCandidate)
      ensures st == MergeStatus(device.respond, device.inConfigMode, old(device.log), mergeCandidate)
    {
      ghost var h := device.log;
      var output := SendMerge();
      ghost var sent := device.log;
      ghost var closing := MergeClosing(device.respond, device.inConfigMode, h, mergeCandidate);
      ghost var status := MergeStatus(device.respond, device.inConfigMode, h, mergeCandidate);
      if device.CheckConfigMode() {
        assert device.inConfigMode(h + MergeCommands(mergeCandidate));
        if MentionsError(output) {
          var returnLog := device.SendCommand("return");
          if Contains(returnLog, "Uncommitted configurations") {
            var discard := device.SendCommand("n");
            assert device.log == sent + closing;
          } else {
            assert device.log == sent + closing;
          }
          st := Failed(ApplyRejected);
          assert st == status;
        } else {
          var _ := device.SendCommand("commit");
          var _ := device.SendCommand("return");
          assert device.log == sent + closing;
          st := Done;
          assert st == status;
        }
      } else {
        assert closing == [];
        st := Failed(NotInConfigMode);
        assert st == status;
      }
    }

    /** The apply step of `commit_config`; a successful merge empties the
        merge buffer. */
    method Apply() returns (st: Status)
      modifies this, device
      ensures loaded == old(loaded) && changed == old(changed) && replace == old(replace)
      ensures backupFile == old(backupFile) && replaceFile == old(replaceFile)
      ensures device.log == old(device.log) +
        ApplyExchange(device.respond, device.inConfigMode, old(device.log), replace, replaceFile, old(mergeCandidate))
      ensures st == ApplyStatus(device.respond, device.inConfigMode, old(device.log), replace, replaceFile, old(mergeCandidate))
      ensures mergeCandidate == if st == Done && !replace then "" else old(mergeCandidate)
    {
      if replace {
        var ok := LoadConfig(LastComponent(replaceFile));
        st := if ok then Done else Failed(LoadFailed);
      } else {
        st := CommitMerge();
        if st == Done {
          mergeCandidate := "";
        }
      }
    }

    /** The backup step of `commit_config`. */
    method Backup(file: string) returns (ok: bool)
      modifies device
      ensures device.log == old(device.log) + BackupExchange(device.respond, old(device.log), file)
      ensures ok == BackupOk(device.respond, old(device.log), file)
      ensures ok ==> Saved(device.respond, device.log, file)
    {
      ghost var h := device.log;
      var present := CheckFileExists(file);
      if present {
        DeleteFile(file);
      }
      ghost var k := |device.log|;
      assert device.log == h + BackupPrelude(device.respond, h, file);
      ok := SaveConfig(file);
      assert device.log[..k] == h + BackupPrelude(device.respond, h, file);
      assert ok ==> SavedAt(device.respond, device.log, k, file);
    }

    /** The part of `commit_config` after the backup: apply, record the
        change, save. */
    method Change() returns (st: Status)
      modifies this, device
      ensures replace == old(replace) && replaceFile == old(replaceFile) && backupFile == old(backupFile)
      ensures var h := old(device.log);
        var a := ApplyExchange(device.respond, device.inConfigMode, h, replace, replaceFile, old(mergeCandidate));
        var s := ApplyStatus(device.respond, device.inConfigMode, h, replace, replaceFile, old(mergeCandidate));
        && device.log == h + a + (if s == Done then SaveCommands("") else [])
        && st == (if s != Done then s else if SaveOk(device.respond, h + a, "") then Done else Failed(FinalSaveFailed))
        && loaded == (old(loaded) && s != Done)
        && changed == (old(changed) || s == Done)
        && mergeCandidate == if s == Done && !replace then "" else old(mergeCandidate)
    {
      var applied := Apply();
      if applied.Failed? {
        return applied;
      }
      changed := true;
      loaded := false;
      var ok := SaveConfig("");
      if !ok {
        return Failed(FinalSaveFailed);
      }
      return Done;
    }

    /** `commit_config`; `timestamp` stands for the clock reading that
        names the backup. */
    method CommitConfig(timestamp: string) returns (st: Status)
      modifies this, device
      ensures replace == old(replace) && replaceFile == old(replaceFile)
      ensures !old(loaded) ==> st == Failed(NoConfigLoaded) && unchanged(this) && unchanged(device)
      ensures old(loaded) ==>
        var b := BackupName(timestamp);
        var h := old(device.log);
        var applied := Applied(device.respond, device.inConfigMode, h, b, replace, replaceFile, old(mergeCandidate));
        && backupFile == b
        && device.log == h + CommitExchange(device.respond, device.inConfigMode, h, b, replace, replaceFile, old(mergeCandidate))
        && st == CommitStatus(device.respond, device.inConfigMode, h, b, replace, replaceFile, old(mergeCandidate))
        && loaded == !applied
        && changed == (old(changed) || applied)
        && mergeCandidate == if applied && !replace then "" else old(mergeCandidate)
      ensures old(Valid()) && st != Failed(BackupSaveFailed) ==> Valid()
    {
      if !loaded {
        return Failed(NoConfigLoaded);
      }
      ghost var h := device.log;
      backupFile := BackupName(timestamp);
      CommitCases(device.respond, device.inConfigMode, h, backupFile, replace, replaceFile, mergeCandidate);
      var ok := Backup(backupFile);
      if !ok {
        return Failed(BackupSaveFailed);
      }
      ghost var hb := device.log;
      ghost var b := BackupExchange(device.respond, h, backupFile);
      ghost var a := ApplyExchange(device.respond, device.inConfigMode, hb, replace, replaceFile, mergeCandidate);
      ghost var s := ApplyStatus(device.respond, device.inConfigMode, hb, replace, replaceFile, mergeCandidate);
      assert hb == h + b;
      assert Saved(device.respond, hb, backupFile);
      ghost var f := if s == Done then SaveCommands("") else [];
      st := Change();
      assert device.log == hb + a + f;
      Regroup(h, b, a, f);
      SavedExtends(device.respond, hb, device.log[|hb|..], backupFile);
      assert hb + device.log[|hb|..] == device.log;
    }

    /** `compare_config`: nothing when nothing is loaded, the merge diff
        against the running configuration in merge mode, and the device's
        own diff against the replace file in replace mode. */
    method CompareConfig() returns (diff: string)
      modifies device
      ensures !loaded ==> diff == "" && device.log == old(device.log)
      ensures loaded && !replace ==>
        var c := "display current-configuration";
        && device.log == old(device.log) + [c]
        && diff == JoinLines(MergeDiff.DiffLines(SplitLines(mergeCandidate),
                                                 SplitLines(device.respond(old(device.log), c))))
      ensures loaded && replace ==>
        var c := "display configuration changes running file " + LastComponent(replaceFile);
        device.log == old(device.log) + [c] && diff == device.respond(old(device.log), c)
      ensures old(Valid()) ==> Valid()
    {
      if !loaded {
        return "";
      }
      ghost var h := device.log;
      if !replace {
        var running := device.SendCommand("display current-configuration");
        diff := MergeDiff.GetMergeDiff(mergeCandidate, running);
      } else {
        diff := device.SendCommand("display configuration changes running file " + LastComponent(replaceFile));
      }
      if changed && old(Valid()) {
        SavedExtends(device.respond, h, device.log[|h|..], backupFile);
        assert h + device.log[|h|..] == device.log;
      }
    }

    /** `discard_config`. */
    method DiscardConfig()
      modifies this, device
      ensures !loaded
      ensures mergeCandidate == if old(loaded) then "" else old(mergeCandidate)
      ensures changed == old(changed) && replace == old(replace)
      ensures backupFile == old(backupFile) && replaceFile == old(replaceFile)
      ensures device.log == old(device.log) +
        if old(loaded) && replace then ["delete /unreserved /quiet " + replaceFile] else []
      ensures old(Valid()) ==> Valid()
    {
      ghost var h := device.log;
      if loaded {
        mergeCandidate := "";
      }
      if loaded && replace {
        DeleteFile(replaceFile);
      }
      loaded := false;
      if changed && old(Valid()) {
        SavedExtends(device.respond, h, device.log[|h|..], backupFile);
        assert h + device.log[|h|..] == device.log;
      }
    }

    /** `rollback`: reload the backup of the last commit and save it. */
    method Rollback() returns (st: Status)
      modifies this, device
      ensures loaded == old(loaded) && replace == old(replace) && mergeCandidate == old(mergeCandidate)
      ensures backupFile == old(backupFile) && replaceFile == old(replaceFile)
      ensures !old(changed) ==> st == Done && !changed && device.log == old(device.log)
      ensures old(changed) ==>
        var h := old(device.log);
        && device.log == h + RollbackExchange(device.respond, h, backupFile)
        && st == RollbackStatus(device.respond, h, backupFile)
        && (changed <==> !LoadOk(device.respond, h, backupFile))
      ensures old(Valid()) ==> Valid()
    {
      if !changed {
        return Done;
      }
      ghost var h := device.log;
      var ok := LoadConfig(backupFile);
      if !ok {
        if old(Valid()) {
          SavedExtends(device.respond, h, device.log[|h|..], backupFile);
          assert h + device.log[|h|..] == device.log;
        }
        return Failed(LoadFailed);
      }
      changed := false;
      ok := SaveConfig("");
      if !ok {
        return Failed(FinalSaveFailed);
      }
      return Done;
    }
  }
}
