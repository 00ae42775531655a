/**
 * The background packaging tasks behind the package list UI: the install
 * loop and its exception list, the dependents check that guards
 * uninstalling, and the texts of the finished notifications.
 */
module PackagingTasks {
  import opened Wrappers
  import opened Text
  import opened Seqs
  import opened Packaging
  import PackageManager

  /** A failure that ends the install loop: a cancellation, or an exception the loop does not catch. */
  predicate StopsLoop(o: Outcome)
  {
    o.Threw? && (o.failure == Canceled || !IsExecutionException(o.failure))
  }

  /** The `ExecutionException`s among the first `n` install outcomes, in order; these are what the task records. */
  function RecordedFailures(outcomes: nat -> Outcome, n: nat): seq<Failure>
  {
    if n == 0 then []
    else
      var init := RecordedFailures(outcomes, n - 1);
      var o := outcomes(n - 1);
      if o.Threw? && IsExecutionException(o.failure) then init + [o.failure] else init
  }

  /** No more exceptions are recorded than installs were attempted. */
  lemma {:induction false} RecordedFailuresBound(outcomes: nat -> Outcome, n: nat)
    ensures |RecordedFailures(outcomes, n)| <= n
  {
    if n > 0 {
      RecordedFailuresBound(outcomes, n - 1);
    }
  }

  /** Every recorded exception is the failure of one of the attempts, and every caught failure is recorded. */
  lemma {:induction false} RecordedFailuresMember(outcomes: nat -> Outcome, n: nat, f: Failure)
    ensures f in RecordedFailures(outcomes, n) <==>
      IsExecutionException(f) && exists k :: 0 <= k < n && outcomes(k) == Threw(f)
  {
    if n > 0 {
      RecordedFailuresMember(outcomes, n - 1, f);
      if outcomes(n - 1) == Threw(f) && IsExecutionException(f) {
        assert f in RecordedFailures(outcomes, n);
      }
    }
  }

  /**
   * What a run of the task did: the `install` calls made (the requirement
   * list of each), the exceptions recorded, whether `refresh` ran, and the
   * exception that escaped the task, if any.
   */
  datatype TaskRun = TaskRun(calls: seq<Option<seq<Requirement>>>, exceptions: seq<Failure>, refreshed: bool,
                             escaped: Option<Failure>)

  /**
   * `InstallTask.runTask`: one `install` of everything when the requirement
   * list is null, otherwise one `install` per requirement in order; a
   * cancellation is recorded and ends the loop, any other execution error
   * is recorded and the loop goes on; `refresh` follows. `installOutcome(k)`
   * is what the k-th `install` call does.
   */
  method RunInstallTask(requirements: Option<seq<Requirement>>, installOutcome: nat -> Outcome)
      returns (run: TaskRun)
    ensures requirements.None? ==>
      && run.calls == [None]
      && run.exceptions == RecordedFailures(installOutcome, 1)
      && run.escaped == (if StopsLoop(installOutcome(0)) && installOutcome(0).failure != Canceled then Some(installOutcome(0).failure) else None)
    ensures requirements.Some? ==>
      var reqs := requirements.value;
      var n := |run.calls|;
      && n <= |reqs|
      && (forall k :: 0 <= k < n ==> run.calls[k] == Some([reqs[k]]))
      && (forall k :: 0 <= k < n - 1 ==> !StopsLoop(installOutcome(k)))
      && (n < |reqs| ==> n > 0 && StopsLoop(installOutcome(n - 1)))
      && run.exceptions == RecordedFailures(installOutcome, n)
      && run.escaped == (if n > 0 && StopsLoop(installOutcome(n - 1)) && installOutcome(n - 1).failure != Canceled
                         then Some(installOutcome(n - 1).failure) else None)
    ensures run.refreshed <==> run.escaped.None?
  {
    var exceptions: seq<Failure> := [];
    var calls: seq<Option<seq<Requirement>>> := [];
    if requirements.None? {
      calls := calls + [None];
      var o := installOutcome(0);
      if o.Threw? {
        if !IsExecutionException(o.failure) {
          return TaskRun(calls, exceptions, false, Some(o.failure));
        }
        exceptions := exceptions + [o.failure];
      }
    } else {
      var reqs := requirements.value;
      var size := |reqs|;
      var i := 0;
      while i < size
        invariant 0 <= i <= size && |calls| == i
        invariant forall k :: 0 <= k < i ==> calls[k] == Some([reqs[k]])
        invariant forall k :: 0 <= k < i ==> !StopsLoop(installOutcome(k))
        invariant exceptions == RecordedFailures(installOutcome, i)
      {
        var requirement := reqs[i];
        calls := calls + [Some([requirement])];
        var o := installOutcome(i);
        if o.Threw? {
          if o.failure == Canceled {
            exceptions := exceptions + [o.failure];
            break;
          } else if !IsExecutionException(o.failure) {
            return TaskRun(calls, exceptions, false, Some(o.failure));
          }
          exceptions := exceptions + [o.failure];
        }
        i := i + 1;
      }
    }
    // manager.refresh()
    run := TaskRun(calls, exceptions, true, None);
  }

  /** The notification title of a successful install. */
  const InstallSuccessTitle := "Packages installed successfully"

  /** The notification title of a failed install. */
  const InstallFailureTitle := "Install packages failed"

  /**
   * `successDescription` of the install task: the host's
   * `requirementsToString` of the requirements installed one by one, or
   * "Installed all requirements" for a null list.
   */
  function InstallSuccessDescription(requirements: Option<seq<Requirement>>, requirementsToString: seq<Requirement> -> string): string
  {
    if requirements.Some? then "Installed packages: " + requirementsToString(requirements.value)
    else "Installed all requirements"
  }

  /** The two descriptions can never be confused: a listing always starts with "Installed packages: ". */
  lemma InstallSuccessDescriptionSpec(requirements: Option<seq<Requirement>>, requirementsToString: seq<Requirement> -> string)
    ensures StartsWith(InstallSuccessDescription(requirements, requirementsToString), "Installed packages: ") <==> requirements.Some?
    ensures requirements.None? ==> InstallSuccessDescription(requirements, requirementsToString) == "Installed all requirements"
  {
    var d := InstallSuccessDescription(requirements, requirementsToString);
    if requirements.None? {
      assert d[10] == 'a' && "Installed packages: "[10] == 'p';
    } else {
      assert d[..|"Installed packages: "|] == "Installed packages: ";
    }
  }

  /** `successDescription` of the uninstall task: the package names, quoted, separated by ", ". */
  function UninstallSuccessDescription(pkgs: seq<Package>): string
  {
    "Uninstalled packages: " + Join(QuotedNames(pkgs), ", ")
  }

  /** The names of the packages, each between single quotes. */
  function QuotedNames(pkgs: seq<Package>): (r: seq<string>)
    ensures |r| == |pkgs| && forall i :: 0 <= i < |pkgs| ==> r[i] == "'" + pkgs[i].name + "'"
  {
    if |pkgs| == 0 then [] else QuotedNames(pkgs[..|pkgs| - 1]) + ["'" + pkgs[|pkgs| - 1].name + "'"]
  }

  /**
   * The description names no package for an empty selection, one package
   * alone between quotes, and each further package after ", ", in
   * selection order.
   */
  lemma {:induction false} UninstallSuccessDescriptionSpec(pkgs: seq<Package>)
    ensures |pkgs| == 0 ==> UninstallSuccessDescription(pkgs) == "Uninstalled packages: "
    ensures |pkgs| == 1 ==> UninstallSuccessDescription(pkgs) == "Uninstalled packages: '" + pkgs[0].name + "'"
    ensures |pkgs| >= 2 ==>
      UninstallSuccessDescription(pkgs) == UninstallSuccessDescription(pkgs[..|pkgs| - 1]) + ", '" + pkgs[|pkgs| - 1].name + "'"
  {
    if |pkgs| >= 2 {
      var init, name := pkgs[..|pkgs| - 1], pkgs[|pkgs| - 1].name;
      QuotedNamesSnoc(pkgs);
      JoinSnoc(QuotedNames(init), "'" + name + "'", ", ");
      var j := Join(QuotedNames(init), ", ");
      assert "Uninstalled packages: " + (j + ", " + ("'" + name + "'")) == "Uninstalled packages: " + j + ", '" + name + "'";
    }
  }

  /** The quoted names of one more package end with that package's name between quotes. */
  lemma QuotedNamesSnoc(pkgs: seq<Package>)
    requires |pkgs| >= 1
    ensures QuotedNames(pkgs) == QuotedNames(pkgs[..|pkgs| - 1]) + ["'" + pkgs[|pkgs| - 1].name + "'"]
  {
  }

  /**
   * What a run of the uninstall task did: the packages of its one
   * `uninstall` call, the exceptions recorded, whether `refresh` ran, and
   * the exception that escaped the task, if any.
   */
  datatype UninstallRun = UninstallRun(uninstalled: seq<Package>, exceptions: seq<Failure>, refreshed: bool,
                                       escaped: Option<Failure>)

  /**
   * `UninstallTask.runTask`: one `uninstall` of the selected packages; its
   * execution error is the one exception; `refresh` runs in a `finally`,
   * even when another exception escapes.
   */
  function UninstallTaskRun(pkgs: seq<Package>, uninstallOutcome: Outcome): (r: UninstallRun)
    ensures r.uninstalled == pkgs
    ensures r.refreshed && |r.exceptions| <= 1
    ensures r.exceptions == (if uninstallOutcome.Threw? && IsExecutionException(uninstallOutcome.failure) then [uninstallOutcome.failure] else [])
    ensures r.escaped == (if uninstallOutcome.Threw? && !IsExecutionException(uninstallOutcome.failure) then Some(uninstallOutcome.failure) else None)
  {
    match uninstallOutcome
    case Done => UninstallRun(pkgs, [], true, None)
    case Threw(f) => if IsExecutionException(f) then UninstallRun(pkgs, [f], true, None) else UninstallRun(pkgs, [], true, Some(f))
  }

  /** The notification a finished task shows: success, failure with the host's error description, or none. */
  datatype Notice = Success(title: string, description: string) | Failed(title: string, content: string) | NoNotice

  /**
   * `taskFinished`: success when nothing was recorded; otherwise a failure
   * notice when the host can describe the exceptions, and none when it
   * cannot.
   */
  function TaskFinished(taskTitle: string, exceptions: seq<Failure>, successTitle: string, successDescription: string,
                        failureTitle: string, errorDescription: Option<string>): (r: Notice)
    ensures r.Success? <==> |exceptions| == 0
    ensures r.NoNotice? <==> |exceptions| > 0 && errorDescription.None?
    ensures r.Success? ==> r == Success(successTitle, successDescription)
    ensures r.Failed? ==> r == Failed(failureTitle, taskTitle + ": error occurred. <a href=\"xxx\">Details...</a>")
  {
    if |exceptions| == 0 then Success(successTitle, successDescription)
    else if errorDescription.Some? then Failed(failureTitle, taskTitle + ": error occurred. <a href=\"xxx\">Details...</a>")
    else NoNotice
  }

  /** What `collectDependents` gives: the map from package name to dependents, or what it throws. */
  datatype Dependents = DependentsMap(m: map<string, set<Package>>) | DependentsThrew(failure: Failure) | NullPackage

  /**
   * `collectDependents` as a function of the selected packages: package by
   * package, a null entry throws, a failing `getDependents` throws, and a
   * package with a dependent outside the selection is entered under its name
   * with all of its dependents.
   */
  function CollectDependentsOf(pkgs: seq<Option<Package>>, selected: seq<Option<Package>>,
                               getDependents: Package -> Result<set<Package>, Failure>): Dependents
  {
    if |pkgs| == 0 then DependentsMap(map[])
    else match CollectDependentsOf(pkgs[..|pkgs| - 1], selected, getDependents)
      case DependentsMap(m) =>
        (match pkgs[|pkgs| - 1]
         case None => NullPackage
         case Some(pkg) =>
           match getDependents(pkg)
           case Err(f) => DependentsThrew(f)
           case Ok(dependents) =>
             if exists d :: d in dependents && Some(d) !in selected then DependentsMap(m[pkg.name := dependents])
             else DependentsMap(m))
      case other => other
  }

  /**
   * Without errors, a name has an entry only for a selected package with a
   * dependent outside the selection, and the entry holds all of that
   * package's dependents.
   */
  lemma {:induction false} CollectDependentsSpec(pkgs: seq<Option<Package>>, selected: seq<Option<Package>>,
                                                 getDependents: Package -> Result<set<Package>, Failure>, name: string)
    requires CollectDependentsOf(pkgs, selected, getDependents).DependentsMap?
    ensures var m := CollectDependentsOf(pkgs, selected, getDependents).m;
      name in m ==>
        exists i :: 0 <= i < |pkgs| && pkgs[i].Some? && pkgs[i].value.name == name &&
          getDependents(pkgs[i].value) == Ok(m[name]) && exists d :: d in m[name] && Some(d) !in selected
  {
    if |pkgs| > 0 {
      var init := pkgs[..|pkgs| - 1];
      CollectDependentsSpec(init, selected, getDependents, name);
      var m := CollectDependentsOf(pkgs, selected, getDependents).m;
      var m0 := CollectDependentsOf(init, selected, getDependents).m;
      var last := pkgs[|pkgs| - 1];
      if name in m && (name !in m0 || m[name] != m0[name] || last.value.name == name) {
        if last.value.name == name && getDependents(last.value) == Ok(m[name]) && exists d :: d in m[name] && Some(d) !in selected {
        } else {
          var i :| 0 <= i < |init| && init[i].Some? && init[i].value.name == name &&
            getDependents(init[i].value) == Ok(m0[name]) && exists d :: d in m0[name] && Some(d) !in selected;
          assert pkgs[i] == init[i];
        }
      } else if name in m {
        var i :| 0 <= i < |init| && init[i].Some? && init[i].value.name == name &&
          getDependents(init[i].value) == Ok(m0[name]) && exists d :: d in m0[name] && Some(d) !in selected;
        assert pkgs[i] == init[i];
      }
    }
  }

  /** Conversely, every selected package with a dependent outside the selection has an entry under its name. */
  lemma {:induction false} CollectDependentsComplete(pkgs: seq<Option<Package>>, selected: seq<Option<Package>>,
                                                     getDependents: Package -> Result<set<Package>, Failure>, i: nat, d: Package)
    requires CollectDependentsOf(pkgs, selected, getDependents).DependentsMap?
    requires i < |pkgs| && pkgs[i].Some? && getDependents(pkgs[i].value).Ok?
    requires d in getDependents(pkgs[i].value).value && Some(d) !in selected
    ensures pkgs[i].value.name in CollectDependentsOf(pkgs, selected, getDependents).m
  {
    var init := pkgs[..|pkgs| - 1];
    if i < |init| {
      assert init[i] == pkgs[i];
      CollectDependentsComplete(init, selected, getDependents, i, d);
    }
  }

  /**
   * `collectDependents`: the loop over the selected packages and, for each,
   * over its dependents.
   */
  method CollectDependents(pkgs: seq<Option<Package>>, getDependents: Package -> Result<set<Package>, Failure>)
      returns (r: Dependents)
    ensures r == CollectDependentsOf(pkgs, pkgs, getDependents)
  {
    var dependentPackages: map<string, set<Package>> := map[];
    for i := 0 to |pkgs|
      invariant CollectDependentsOf(pkgs[..i], pkgs, getDependents) == DependentsMap(dependentPackages)
    {
      assert pkgs[..i + 1][..i] == pkgs[..i];
      if pkgs[i].None? {
        CollectDependentsStops(pkgs, pkgs, getDependents, i + 1);
        return NullPackage;
      }
      var pkg := pkgs[i].value;
      var result := getDependents(pkg);
      if result.Err? {
        CollectDependentsStops(pkgs, pkgs, getDependents, i + 1);
        return DependentsThrew(result.error);
      }
      var dependents := result.value;
      ghost var before := dependentPackages;
      var rest := dependents;
      while rest != {}
        invariant rest <= dependents
        invariant dependentPackages ==
          if exists d :: d in dependents - rest && Some(d) !in pkgs then before[pkg.name := dependents] else before
        decreases |rest|
      {
        var dependent :| dependent in rest;
        if Some(dependent) !in pkgs {
          dependentPackages := dependentPackages[pkg.name := dependents];
        }
        rest := rest - {dependent};
      }
      assert dependents - rest == dependents;
    }
    assert pkgs[..|pkgs|] == pkgs;
    r := DependentsMap(dependentPackages);
  }

  /** Once a prefix of the packages throws, the whole list throws the same. */
  lemma {:induction false} CollectDependentsStops(pkgs: seq<Option<Package>>, selected: seq<Option<Package>>,
                                                  getDependents: Package -> Result<set<Package>, Failure>, k: nat)
    requires k <= |pkgs| && !CollectDependentsOf(pkgs[..k], selected, getDependents).DependentsMap?
    ensures CollectDependentsOf(pkgs, selected, getDependents) == CollectDependentsOf(pkgs[..k], selected, getDependents)
    decreases |pkgs| - k
  {
    if k < |pkgs| {
      assert pkgs[..k + 1][..k] == pkgs[..k];
      CollectDependentsStops(pkgs, selected, getDependents, k + 1);
    } else {
      assert pkgs[..k] == pkgs;
    }
  }

  /** `Messages.YES`. */
  const Yes := 0

  /**
   * What `uninstall` decides: start the task with the non-null packages,
   * give up, fail on a null package, or let another exception out.
   */
  datatype UninstallDecision = Proceed(pkgs: seq<Package>) | Abort | NullPointer | Escaped(failure: Failure)

  /** The entry holds a package. */
  predicate IsPresent(o: Option<Package>)
  {
    o.Some?
  }

  /** `filterIsInstance<PyPackage>()`: the non-null packages, in order, repeats kept. */
  function NonNull(pkgs: seq<Option<Package>>): (r: seq<Package>)
    ensures forall p :: p in r <==> Some(p) in pkgs
    ensures |r| == |Filter(IsPresent, pkgs)| && forall i :: 0 <= i < |r| ==> Filter(IsPresent, pkgs)[i] == Some(r[i])
  {
    if |pkgs| == 0 then []
    else
      var init := NonNull(pkgs[..|pkgs| - 1]);
      assert pkgs == pkgs[..|pkgs| - 1] + [pkgs[|pkgs| - 1]];
      match pkgs[|pkgs| - 1]
      case None => init
      case Some(p) => init + [p]
  }

  /**
   * `uninstall` with `checkDependents`: the answer starts as YES and is the
   * user's `answer` to the dialog only when some dependents were found;
   * anything but YES aborts, and an execution error while loading the
   * dependents lets the uninstall go ahead.
   */
  function Uninstall(pkgs: seq<Option<Package>>, getDependents: Package -> Result<set<Package>, Failure>, answer: int): UninstallDecision
  {
    match CollectDependentsOf(pkgs, pkgs, getDependents)
    case NullPackage => NullPointer
    case DependentsThrew(f) => if IsExecutionException(f) then Proceed(NonNull(pkgs)) else Escaped(f)
    case DependentsMap(m) =>
      var warning := if |m| == 0 then Yes else answer;
      if warning != Yes then Abort else Proceed(NonNull(pkgs))
  }

  /**
   * Uninstalling proceeds with the non-null packages when there are no
   * dependents, when the user answers YES, or when loading the dependents
   * throws an execution error; it is aborted when the user answers anything
   * else to a dialog; a null package or any other exception escapes.
   */
  lemma UninstallDecisionSpec(pkgs: seq<Option<Package>>, getDependents: Package -> Result<set<Package>, Failure>, answer: int)
    ensures var c := CollectDependentsOf(pkgs, pkgs, getDependents);
      && (c.DependentsMap? && |c.m| == 0 ==> Uninstall(pkgs, getDependents, answer) == Proceed(NonNull(pkgs)))
      && (c.DependentsMap? && answer == Yes ==> Uninstall(pkgs, getDependents, answer) == Proceed(NonNull(pkgs)))
      && (c.DependentsThrew? && IsExecutionException(c.failure) ==> Uninstall(pkgs, getDependents, answer) == Proceed(NonNull(pkgs)))
      && (c.DependentsMap? && |c.m| > 0 && answer != Yes ==> Uninstall(pkgs, getDependents, answer) == Abort)
      && (c.NullPackage? <==> Uninstall(pkgs, getDependents, answer) == NullPointer)
      && (c.DependentsThrew? && !IsExecutionException(c.failure) ==> Uninstall(pkgs, getDependents, answer) == Escaped(c.failure))
      && (Uninstall(pkgs, getDependents, answer).Proceed? ==> Uninstall(pkgs, getDependents, answer).pkgs == NonNull(pkgs))
  {
  }

  /** The Poetry manager reports no dependents, so the dependents map is empty. */
  lemma {:induction false} PoetryHasNoDependents(pkgs: seq<Option<Package>>, selected: seq<Option<Package>>)
    requires forall i :: 0 <= i < |pkgs| ==> pkgs[i].Some?
    ensures CollectDependentsOf(pkgs, selected, PackageManager.GetDependents) == DependentsMap(map[])
  {
    if |pkgs| > 0 {
      var init := pkgs[..|pkgs| - 1];
      forall i | 0 <= i < |init| ensures init[i].Some? { assert init[i] == pkgs[i]; }
      PoetryHasNoDependents(init, selected);
    }
  }

  /** Hence, with the Poetry manager, uninstalling selected packages always goes ahead without a dialog. */
  lemma PoetryUninstallProceeds(pkgs: seq<Option<Package>>, answer: int)
    requires forall i :: 0 <= i < |pkgs| ==> pkgs[i].Some?
    ensures Uninstall(pkgs, PackageManager.GetDependents, answer) == Proceed(NonNull(pkgs))
  {
    PoetryHasNoDependents(pkgs, pkgs);
  }
}
