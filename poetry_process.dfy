/**
 * Finding and running the `poetry` executable: which executable is used, how
 * a finished process is turned into output or an exception, and the
 * commands `setupPoetry` issues.
 */
module PoetryProcess {
  import opened Wrappers
  import opened Packaging

  /** The executable name searched for in `$PATH`. */
  function ExecutableName(isWindows: bool): (r: string)
    ensures r == "poetry.exe" <==> isWindows
    ensures r == "poetry" <==> !isWindows
  {
    if isWindows then "poetry.exe" else "poetry"
  }

  /** `detectPoetryExecutable`: the host's `$PATH` search for the executable name. */
  function DetectPoetryExecutable(isWindows: bool, findInPath: string -> Option<string>): Option<string>
  {
    findInPath(ExecutableName(isWindows))
  }

  /** `getPoetryExecutable`: the configured path when there is one, `$PATH` detection otherwise. */
  function GetPoetryExecutable(configured: Option<string>, isWindows: bool, findInPath: string -> Option<string>): Option<string>
  {
    if configured.Some? then configured else DetectPoetryExecutable(isWindows, findInPath)
  }

  /**
   * A configured path wins over detection and is used as it is, even when
   * the search would find another one; without it the search for
   * `poetry.exe` (Windows) or `poetry` decides.
   */
  lemma ExecutablePrecedence(configured: Option<string>, isWindows: bool, findInPath: string -> Option<string>)
    ensures configured.Some? ==> GetPoetryExecutable(configured, isWindows, findInPath) == configured
    ensures configured.None? ==>
      GetPoetryExecutable(configured, isWindows, findInPath) == findInPath(if isWindows then "poetry.exe" else "poetry")
    ensures GetPoetryExecutable(configured, isWindows, findInPath).None? <==>
      configured.None? && findInPath(ExecutableName(isWindows)).None?
  {
  }

  /** How a started process finished. */
  datatype ProcessResult = ProcessResult(cancelled: bool, exitCode: int, stdout: string, stderr: string)

  /**
   * The host's process runner: the result of running a command line in a
   * working directory (with or without a progress indicator).
   */
  type ProcessRunner = (string, seq<string>) -> ProcessResult

  /** How `runPoetry` reads a finished process: cancellation first, then a non-zero exit code. */
  function Classify(result: ProcessResult): Result<string, Failure>
  {
    if result.cancelled then Err(Canceled)
    else if result.exitCode != 0 then Err(ExecutionFailed(result.exitCode, result.stdout, result.stderr))
    else Ok(result.stdout)
  }

  /**
   * `runPoetry(projectPath, args)`: no executable is a "Cannot find Poetry"
   * error; otherwise the executable followed by the arguments runs in the
   * project directory, and its result is classified.
   */
  function RunPoetry(executable: Option<string>, projectPath: string, args: seq<string>, run: ProcessRunner): Result<string, Failure>
  {
    if executable.None? then Err(PoetryNotFound)
    else Classify(run(projectPath, [executable.value] + args))
  }

  /**
   * Without an executable nothing runs; otherwise the process started is
   * the executable followed by the arguments, in the project directory. A
   * cancelled run is a cancellation whatever its exit code; the output is
   * returned, unchanged, exactly when the run was neither cancelled nor
   * failed; a failure carries the exit code and both streams.
   */
  lemma RunPoetryClassification(executable: Option<string>, projectPath: string, args: seq<string>, run: ProcessRunner)
    ensures executable.None? ==> RunPoetry(executable, projectPath, args, run) == Err(PoetryNotFound)
    ensures executable.Some? ==>
      var e := executable.value;
      var result := run(projectPath, [e] + args);
      && (result.cancelled ==> RunPoetry(executable, projectPath, args, run) == Err(Canceled))
      && (RunPoetry(executable, projectPath, args, run).Ok? <==> !result.cancelled && result.exitCode == 0)
      && (RunPoetry(executable, projectPath, args, run).Ok? ==> RunPoetry(executable, projectPath, args, run).value == result.stdout)
      && (!result.cancelled && result.exitCode != 0 ==>
            RunPoetry(executable, projectPath, args, run) == Err(ExecutionFailed(result.exitCode, result.stdout, result.stderr)))
      && (RunPoetry(executable, projectPath, args, run).Err? && RunPoetry(executable, projectPath, args, run).error.ExecutionFailed? ==>
            RunPoetry(executable, projectPath, args, run).error == ExecutionFailed(result.exitCode, result.stdout, result.stderr) &&
            result.exitCode != 0 && !result.cancelled)
  {
  }

  /**
   * `runPoetry(sdk, args)`: an SDK with no associated project path fails
   * before anything is looked up; otherwise it runs in that path.
   */
  function RunPoetryForSdk(associatedModulePath: Option<string>, executable: Option<string>, args: seq<string>, run: ProcessRunner): (r: Result<string, Failure>)
    ensures r == Err(NoAssociatedProject) <==> associatedModulePath.None?
    ensures r == Err(PoetryNotFound) <==> associatedModulePath.Some? && executable.None?
    ensures r.Ok? <==>
      && associatedModulePath.Some? && executable.Some?
      && var result := run(associatedModulePath.value, [executable.value] + args);
      && !result.cancelled && result.exitCode == 0
    ensures r.Ok? ==> r.value == run(associatedModulePath.value, [executable.value] + args).stdout
    ensures associatedModulePath.Some? ==> r == RunPoetry(executable, associatedModulePath.value, args, run)
    ensures associatedModulePath.Some? && executable.Some? ==>
      var result := run(associatedModulePath.value, [executable.value] + args);
      && (result.cancelled ==> r == Err(Canceled))
      && (!result.cancelled && result.exitCode != 0 ==> r == Err(ExecutionFailed(result.exitCode, result.stdout, result.stderr)))
  {
    if associatedModulePath.None? then Err(NoAssociatedProject)
    else
      RunPoetryClassification(executable, associatedModulePath.value, args, run);
      RunPoetry(executable, associatedModulePath.value, args, run)
  }

  /** The `poetry` argument vectors `setupPoetry` issues, in order. */
  function SetupPlan(python: Option<string>, installPackages: bool, init: bool): seq<seq<string>>
  {
    var first := if init then [["init", "-n"]] else [];
    var middle :=
      if installPackages then (if python.Some? then [["env", "use", python.value]] else []) + [["install"]]
      else if python.Some? then [["env", "use", python.value]]
      else [["run", "python", "-V"]];
    first + middle + [["env", "info", "-p"]]
  }

  /**
   * The plan always ends with `env info -p`; it starts with `init -n`
   * exactly when asked to; `install` is issued exactly when packages are to
   * be installed, `env use python` exactly when an interpreter is given, and
   * `run python -V` exactly when neither holds.
   */
  lemma SetupPlanShape(python: Option<string>, installPackages: bool, init: bool, p: string)
    ensures var plan := SetupPlan(python, installPackages, init);
      && 2 <= |plan| <= 4
      && plan[|plan| - 1] == ["env", "info", "-p"]
      && (plan[0] == ["init", "-n"] <==> init)
      && (["install"] in plan <==> installPackages)
      && (["env", "use", p] in plan <==> python == Some(p))
      && (["run", "python", "-V"] in plan <==> !installPackages && python.None?)
  {
    var plan := SetupPlan(python, installPackages, init);
    var first := if init then [["init", "-n"]] else [];
    var middle :=
      if installPackages then (if python.Some? then [["env", "use", python.value]] else []) + [["install"]]
      else if python.Some? then [["env", "use", python.value]]
      else [["run", "python", "-V"]];
    assert plan == first + middle + [["env", "info", "-p"]];
    assert forall c :: c in plan <==> c in first || c in middle || c == ["env", "info", "-p"];
    // argument vectors of different lengths or first words are different
    assert ["env", "info", "-p"] != ["env", "use", p] by { assert ["env", "info", "-p"][1] != ["env", "use", p][1]; }
    assert ["init", "-n"] != ["env", "use", p] by { assert ["init", "-n"][0] != ["env", "use", p][0]; }
    assert ["init", "-n"] != ["run", "python", "-V"];
    if !init {
      assert plan[0] in middle;
      if installPackages && python.Some? {
        assert plan[0] == ["env", "use", python.value];
        assert ["env", "use", python.value][0] != ["init", "-n"][0];
      }
    }
  }

  /**
   * `setupPoetry`: issues the plan's commands one after another; a command
   * that throws stops the sequence and its exception propagates; otherwise
   * the output of `env info -p` is returned. `respond(i)` is what the i-th
   * command issued answers.
   */
  method SetupPoetry(python: Option<string>, installPackages: bool, init: bool, respond: nat -> Result<string, Failure>)
      returns (r: Result<string, Failure>, issued: seq<seq<string>>)
    ensures var plan := SetupPlan(python, installPackages, init);
      && 1 <= |issued| <= |plan| && issued == plan[..|issued|]
      && (forall i :: 0 <= i < |issued| - 1 ==> respond(i).Ok?)
      && r == respond(|issued| - 1)
      && (|issued| < |plan| ==> r.Err?)
  {
    ghost var plan := SetupPlan(python, installPackages, init);
    issued := [];
    if init {
      r, issued := Issue(["init", "-n"], issued, respond);
      if r.Err? {
        return;
      }
    }
    if installPackages {
      if python.Some? {
        r, issued := Issue(["env", "use", python.value], issued, respond);
        if r.Err? {
          return;
        }
      }
      r, issued := Issue(["install"], issued, respond);
    } else if python.Some? {
      r, issued := Issue(["env", "use", python.value], issued, respond);
    } else {
      r, issued := Issue(["run", "python", "-V"], issued, respond);
    }
    if r.Err? {
      return;
    }
    r, issued := Issue(["env", "info", "-p"], issued, respond);
  }

  /** One `runPoetry` call: the command is issued and its answer is the next response. */
  method Issue(args: seq<string>, issued: seq<seq<string>>, respond: nat -> Result<string, Failure>)
      returns (r: Result<string, Failure>, issued': seq<seq<string>>)
    ensures issued' == issued + [args] && r == respond(|issued|)
  {
    r := respond(|issued|);
    issued' := issued + [args];
  }
}
