/**
 * The Poetry package manager of one SDK: the argument vectors of install and
 * uninstall, and the cached `packages`/`requirements` fields that
 * `refreshAndGetPackages` keeps.
 */
module PackageManager {
  import opened Wrappers
  import opened Seqs
  import opened Packaging
  import opened DryRun

  /**
   * The arguments of `poetry install`: "install", then the install options
   * of every requirement in order (none when the list is null), then the
   * extra arguments.
   */
  function InstallArgs(requirements: Option<seq<Requirement>>, extraArgs: seq<string>,
                       installOptions: Requirement -> seq<string>): seq<string>
  {
    var options := match requirements
      case None => []
      case Some(reqs) => FlatMap(installOptions, reqs);
    ["install"] + options + extraArgs
  }

  /**
   * The arguments start with "install" and end with the extra arguments; the
   * part in between holds an argument exactly when some requirement's
   * install options hold it, and a null list installs like an empty one.
   */
  lemma InstallArgsShape(requirements: Option<seq<Requirement>>, extraArgs: seq<string>,
                         installOptions: Requirement -> seq<string>, x: string)
    ensures var r := InstallArgs(requirements, extraArgs, installOptions);
      && |r| >= 1 + |extraArgs| && r[0] == "install" && r[|r| - |extraArgs|..] == extraArgs
      && (x in r[1..|r| - |extraArgs|] <==>
            requirements.Some? && exists i :: 0 <= i < |requirements.value| && x in installOptions(requirements.value[i]))
    ensures InstallArgs(Some([]), extraArgs, installOptions) == InstallArgs(None, extraArgs, installOptions)
  {
    var r := InstallArgs(requirements, extraArgs, installOptions);
    match requirements
    case None =>
      assert r[1..|r| - |extraArgs|] == [];
    case Some(reqs) =>
      assert r[1..|r| - |extraArgs|] == FlatMap(installOptions, reqs);
      FlatMapMember(installOptions, reqs, x);
  }

  /**
   * Between "install" and the extra arguments stand the install options of
   * each requirement, whole, one requirement after another in list order.
   */
  lemma InstallArgsInOrder(reqs: seq<Requirement>, extraArgs: seq<string>, installOptions: Requirement -> seq<string>)
    ensures var r := InstallArgs(Some(reqs), extraArgs, installOptions);
      && |r| == 1 + |FlatMap(installOptions, reqs)| + |extraArgs|
      && forall i :: 0 <= i < |reqs| ==>
           var lo := 1 + |FlatMap(installOptions, reqs[..i])|;
           lo + |installOptions(reqs[i])| <= |r| - |extraArgs| && r[lo..lo + |installOptions(reqs[i])|] == installOptions(reqs[i])
  {
    var r := InstallArgs(Some(reqs), extraArgs, installOptions);
    var options := FlatMap(installOptions, reqs);
    assert r == ["install"] + options + extraArgs;
    forall i | 0 <= i < |reqs|
      ensures var lo := 1 + |FlatMap(installOptions, reqs[..i])|;
        lo + |installOptions(reqs[i])| <= |r| - |extraArgs| && r[lo..lo + |installOptions(reqs[i])|] == installOptions(reqs[i])
    {
      FlatMapSlice(installOptions, reqs, i);
      var lo := |FlatMap(installOptions, reqs[..i])|;
      SliceOfMiddle("install", options, extraArgs, lo, lo + |installOptions(reqs[i])|);
    }
  }

  /** The names of the packages, in order. */
  function Names(pkgs: seq<Package>): (r: seq<string>)
    ensures |r| == |pkgs| && forall i :: 0 <= i < |pkgs| ==> r[i] == pkgs[i].name
  {
    if |pkgs| == 0 then [] else Names(pkgs[..|pkgs| - 1]) + [pkgs[|pkgs| - 1].name]
  }

  /** The arguments of `pipenv uninstall`: "uninstall" and then each package name, in the order given. */
  function UninstallArgs(pkgs: seq<Package>): (r: seq<string>)
    ensures |r| == |pkgs| + 1 && r[0] == "uninstall"
    ensures forall i :: 0 <= i < |pkgs| ==> r[i + 1] == pkgs[i].name
  {
    ["uninstall"] + Names(pkgs)
  }

  /** The dry run that `refreshAndGetPackages` issues. */
  const DryRunCommand := Command(Poetry, ["install", "--dry-run"])

  /** The two cached fields of a manager; `None` is Kotlin `null`. */
  datatype ManagerState = ManagerState(packages: Option<seq<Package>>, requirements: Option<seq<Requirement>>)

  /** What one call of `refreshAndGetPackages` leaves behind, returns and runs. */
  datatype RefreshStep = RefreshStep(state: ManagerState, result: Result<seq<Package>, Failure>, issued: seq<Command>)

  /**
   * `refreshAndGetPackages` as a function of the cached fields, the forcing
   * flag and what the dry run answers (its output, or what it throws).
   * `parse` is the host's requirement parser.
   */
  function Refresh(st: ManagerState, alwaysRefresh: bool, dryRun: Result<string, Failure>,
                   parse: string -> seq<Requirement>): RefreshStep
  {
    if !alwaysRefresh && st.packages.Some? then RefreshStep(st, Ok(st.packages.value), [])
    else
      match dryRun
      case Err(e) =>
        // only an ExecutionException is caught, and it empties the list
        var packages := if IsExecutionException(e) then Some([]) else None;
        RefreshStep(ManagerState(packages, st.requirements), Err(e), [DryRunCommand])
      case Ok(output) =>
        match ParseDryRun(output, parse)
        case Err(e) => RefreshStep(ManagerState(None, st.requirements), Err(e), [DryRunCommand])
        case Ok((pkgs, reqs)) => RefreshStep(ManagerState(Some(pkgs), Some(reqs)), Ok(pkgs), [DryRunCommand])
  }

  /** Unforced, with a list cached: nothing runs, nothing changes, and the cached list is returned. */
  lemma RefreshUsesCache(st: ManagerState, dryRun: Result<string, Failure>, parse: string -> seq<Requirement>)
    requires st.packages.Some?
    ensures Refresh(st, false, dryRun, parse) == RefreshStep(st, Ok(st.packages.value), [])
  {
  }

  /** Forced, or with nothing cached: the dry run is the one command issued. */
  lemma RefreshRunsDryRun(st: ManagerState, alwaysRefresh: bool, dryRun: Result<string, Failure>,
                          parse: string -> seq<Requirement>)
    requires alwaysRefresh || st.packages.None?
    ensures Refresh(st, alwaysRefresh, dryRun, parse).issued == [DryRunCommand]
  {
  }

  /**
   * When the dry run throws an execution error, the package list becomes
   * empty, the requirements are untouched and the error propagates.
   */
  lemma RefreshRunFailure(st: ManagerState, alwaysRefresh: bool, e: Failure, parse: string -> seq<Requirement>)
    requires alwaysRefresh || st.packages.None?
    requires IsExecutionException(e)
    ensures var step := Refresh(st, alwaysRefresh, Err(e), parse);
      step.state == ManagerState(Some([]), st.requirements) && step.result == Err(e)
  {
  }

  /**
   * When the dry run answers, both fields become the parsed lists and the
   * packages are returned; when its output has a malformed line, the package
   * list stays null, the requirements are untouched and the index error
   * propagates.
   */
  lemma RefreshParsed(st: ManagerState, alwaysRefresh: bool, output: string, parse: string -> seq<Requirement>)
    requires alwaysRefresh || st.packages.None?
    ensures var step := Refresh(st, alwaysRefresh, Ok(output), parse);
      match ParseDryRun(output, parse)
      case Ok((pkgs, reqs)) => step.state == ManagerState(Some(pkgs), Some(reqs)) && step.result == Ok(pkgs)
      case Err(_) => step.state == ManagerState(None, st.requirements) && step.result == Err(IndexOutOfBounds)
  {
  }

  /**
   * A successful refresh returns exactly the list it caches, so an unforced
   * refresh right after it runs nothing, whatever the dry run would answer,
   * and returns the same list.
   */
  lemma RefreshThenCached(st: ManagerState, alwaysRefresh: bool, dryRun: Result<string, Failure>,
                          dryRun2: Result<string, Failure>, parse: string -> seq<Requirement>)
    requires Refresh(st, alwaysRefresh, dryRun, parse).result.Ok?
    ensures var first := Refresh(st, alwaysRefresh, dryRun, parse);
      var second := Refresh(first.state, false, dryRun2, parse);
      && first.state.packages == Some(first.result.value)
      && second.issued == [] && second.state == first.state && second.result == first.result
  {
  }

  /** The requirements field changes only when a dry run has been parsed successfully. */
  lemma RefreshKeepsRequirements(st: ManagerState, alwaysRefresh: bool, dryRun: Result<string, Failure>,
                                 parse: string -> seq<Requirement>)
    ensures var step := Refresh(st, alwaysRefresh, dryRun, parse);
      step.state.requirements != st.requirements ==> step.result.Ok? && step.issued == [DryRunCommand]
  {
  }

  /**
   * `toRequirements`: each package gives what the host parses out of its
   * name followed by its normalised version.
   */
  function ToRequirements(pkgs: seq<Package>, parse: string -> seq<Requirement>): seq<Requirement>
  {
    FlatMap((p: Package) => parse(RequirementText(p.name, Some(p.version))), pkgs)
  }

  /** A requirement comes out of `toRequirements` exactly when the host parses it out of some package's text. */
  lemma ToRequirementsMember(pkgs: seq<Package>, parse: string -> seq<Requirement>, q: Requirement)
    ensures q in ToRequirements(pkgs, parse) <==>
      exists i :: 0 <= i < |pkgs| && q in parse(pkgs[i].name + GetVersion(pkgs[i].version))
  {
    var f := (p: Package) => parse(RequirementText(p.name, Some(p.version)));
    assert ToRequirements(pkgs, parse) == FlatMap(f, pkgs);
    FlatMapMember(f, pkgs, q);
    forall i | 0 <= i < |pkgs|
      ensures f(pkgs[i]) == parse(pkgs[i].name + GetVersion(pkgs[i].version))
    {
      assert RequirementText(pkgs[i].name, Some(pkgs[i].version)) == pkgs[i].name + GetVersion(pkgs[i].version);
    }
  }

  /** `getDependents`: the Poetry manager reports no dependents for any package. */
  function GetDependents(pkg: Package): Result<set<Package>, Failure>
  {
    Ok({})
  }

  /**
   * `PyPoetryPackageManager`: the SDK it serves (by its key) and the two
   * cached lists, both null until the first refresh.
   */
  class PoetryPackageManager {
    const sdkKey: string
    var packages: Option<seq<Package>>
    var requirements: Option<seq<Requirement>>

    constructor (sdkKey: string)
      ensures this.sdkKey == sdkKey && packages == None && requirements == None
    {
      this.sdkKey := sdkKey;
      packages := None;
      requirements := None;
    }

    /** The cached fields as a value. */
    function State(): ManagerState
      reads this
    {
      ManagerState(packages, requirements)
    }

    /**
     * `refreshAndGetPackages`: clears the package list, issues the dry run,
     * sets the list to empty if the run throws an execution error, and
     * otherwise stores both parsed lists; skipped entirely when not forced
     * and a list is cached.
     */
    method RefreshAndGetPackages(alwaysRefresh: bool, dryRun: Result<string, Failure>, parse: string -> seq<Requirement>)
        returns (r: Result<seq<Package>, Failure>, issued: seq<Command>)
      modifies this
      ensures var step := Refresh(old(State()), alwaysRefresh, dryRun, parse);
        State() == step.state && r == step.result && issued == step.issued
    {
      issued := [];
      if alwaysRefresh || packages.None? {
        packages := None;
        issued := issued + [DryRunCommand];
        match dryRun {
          case Err(e) =>
            if IsExecutionException(e) {
              packages := Some([]);
            }
            return Err(e), issued;
          case Ok(output) =>
            var parsed := ParsePoetryInstallDryRun(output, parse);
            match parsed {
              case Err(e) =>
                return Err(e), issued;
              case Ok(lists) =>
                packages := Some(lists.0);
                requirements := Some(lists.1);
            }
        }
      }
      r := Ok(if packages.Some? then packages.value else []);
    }

    /**
     * `install(requirements, extraArgs)`: runs `poetry install` with the
     * install arguments and, in a `finally`, the forced refresh. An error of
     * the refresh replaces the install's own, as a throwing `finally` does.
     */
    method Install(requirements: Option<seq<Requirement>>, extraArgs: seq<string>,
                   installOptions: Requirement -> seq<string>, installResult: Result<string, Failure>,
                   dryRun: Result<string, Failure>, parse: string -> seq<Requirement>)
        returns (o: Outcome, issued: seq<Command>)
      modifies this
      ensures var step := Refresh(old(State()), true, dryRun, parse);
        && State() == step.state
        && issued == [Command(Poetry, InstallArgs(requirements, extraArgs, installOptions)), DryRunCommand]
        && o == (if step.result.Err? then Threw(step.result.error)
                 else if installResult.Err? then Threw(installResult.error)
                 else Done)
    {
      issued := [Command(Poetry, InstallArgs(requirements, extraArgs, installOptions))];
      var refreshed, more := RefreshAndGetPackages(true, dryRun, parse);
      issued := issued + more;
      if refreshed.Err? {
        o := Threw(refreshed.error);
      } else if installResult.Err? {
        o := Threw(installResult.error);
      } else {
        o := Done;
      }
    }

    /** `install(requirementString)`: installs what the host parses out of the text, with no extra arguments. */
    method InstallRequirementString(requirementString: string, installOptions: Requirement -> seq<string>,
                                    installResult: Result<string, Failure>, dryRun: Result<string, Failure>,
                                    parse: string -> seq<Requirement>)
        returns (o: Outcome, issued: seq<Command>)
      modifies this
      ensures var step := Refresh(old(State()), true, dryRun, parse);
        && State() == step.state
        && issued == [Command(Poetry, InstallArgs(Some(parse(requirementString)), [], installOptions)), DryRunCommand]
        && o == (if step.result.Err? then Threw(step.result.error)
                 else if installResult.Err? then Threw(installResult.error)
                 else Done)
    {
      o, issued := Install(Some(parse(requirementString)), [], installOptions, installResult, dryRun, parse);
    }

    /**
     * `uninstall(packages)`: runs `pipenv uninstall` with the package names
     * and, in a `finally`, the forced refresh, whose error wins.
     */
    method Uninstall(pkgs: seq<Package>, uninstallResult: Result<string, Failure>,
                     dryRun: Result<string, Failure>, parse: string -> seq<Requirement>)
        returns (o: Outcome, issued: seq<Command>)
      modifies this
      ensures var step := Refresh(old(State()), true, dryRun, parse);
        && State() == step.state
        && issued == [Command(Pipenv, UninstallArgs(pkgs)), DryRunCommand]
        && o == (if step.result.Err? then Threw(step.result.error)
                 else if uninstallResult.Err? then Threw(uninstallResult.error)
                 else Done)
    {
      issued := [Command(Pipenv, UninstallArgs(pkgs))];
      var refreshed, more := RefreshAndGetPackages(true, dryRun, parse);
      issued := issued + more;
      if refreshed.Err? {
        o := Threw(refreshed.error);
      } else if uninstallResult.Err? {
        o := Threw(uninstallResult.error);
      } else {
        o := Done;
      }
    }
  }
}
