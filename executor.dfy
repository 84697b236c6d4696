/**
 * The command line of src/executor.rs: the `make` argument vector for a
 * target, its display form, and the dry-run branch of `execute_target`.
 * Spawning `make` itself is not part of this model.
 */
module Executor {
  import opened Wrappers
  import opened Text
  import opened Files

  /** `ExecuteOptions`. */
  datatype ExecuteOptions = ExecuteOptions(dryRun: bool, printCmd: bool, cwd: Option<Path>, makefile: Option<Path>)

  /** What `execute_target` does: show the command and stop, or hand over to `run_make_command`. */
  datatype Execution =
    | DryRun(shown: string)                              // "Would run: <cmd>", then a default exit status
    | Spawn(announced: Option<string>, target: string)   // "Running: <cmd>" when asked, then `run_make_command`

  /** The `make` argument vector for a target: `make`, then `-f <makefile>` when one is given, then the target. */
  function CommandLine(target: string, makefile: Option<Path>): (args: seq<string>)
    ensures |args| == (if makefile.Some? then 4 else 2)
    ensures args[0] == "make" && args[|args| - 1] == target
    ensures makefile.Some? ==> args[1] == "-f" && args[2] == makefile.value
  {
    if makefile.Some? then ["make", "-f", makefile.value, target] else ["make", target]
  }

  /** `build_command`, which pushes the arguments one by one. */
  method BuildCommand(target: string, options: ExecuteOptions) returns (args: seq<string>)
    ensures args == CommandLine(target, options.makefile)
  {
    args := ["make"];
    if options.makefile.Some? {
      args := args + ["-f"];
      args := args + [options.makefile.value];
    }
    args := args + [target];
  }

  /** `format_command`: the arguments separated by single spaces. */
  function FormatCommand(cmd: seq<string>): (s: string)
    ensures |cmd| >= 1 ==> |s| == SumLengths(cmd) + |cmd| - 1
  {
    if |cmd| >= 1 then
      JoinLength(cmd, " ");
      Join(cmd, " ")
    else
      []
  }

  /** The displayed command splits back into the arguments when none of them holds a space. */
  lemma {:induction false} FormatCommandSplits(cmd: seq<string>)
    requires |cmd| >= 1
    requires forall k :: 0 <= k < |cmd| ==> ' ' !in cmd[k]
    ensures Split(FormatCommand(cmd), ' ') == cmd
  {
    SplitJoin(cmd, ' ');
  }

  /** The shown command of a target without a makefile is "make <target>". */
  lemma {:induction false} FormatSimpleCommand(target: string)
    ensures FormatCommand(CommandLine(target, None)) == "make " + target
  {
    var cmd := CommandLine(target, None);
    assert cmd[1..] == [target];
    assert Join(cmd[1..], " ") == target;
    assert "make" + " " == "make ";
  }

  /**
   * `execute_target`: with `dry_run` the command is only shown and `make`
   * is never run; otherwise it is shown when `print_cmd` asks for it and
   * `run_make_command` takes over.
   */
  method ExecuteTarget(target: string, options: ExecuteOptions) returns (e: Execution)
    ensures options.dryRun ==> e == DryRun(FormatCommand(CommandLine(target, options.makefile)))
    ensures !options.dryRun ==> e.Spawn? && e.target == target
    ensures !options.dryRun ==> (e.announced.Some? <==> options.printCmd)
    ensures e.Spawn? && e.announced.Some? ==> e.announced.value == FormatCommand(CommandLine(target, options.makefile))
  {
    var cmd := BuildCommand(target, options);
    var cmdStr := FormatCommand(cmd);
    if options.dryRun {
      return DryRun(cmdStr);
    }
    var shown := if options.printCmd then Some(cmdStr) else None;
    return Spawn(shown, target);
  }
}
