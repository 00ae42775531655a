# Poetry for PyCharm — a Dafny model of the plugin's core

This project models the core of the Poetry plugin for PyCharm. The plugin
drives the `poetry` command-line tool on behalf of the IDE:

- **Package manager.** Each Python SDK has one package manager. It caches the
  packages and requirements that `poetry install --dry-run` reports. It
  builds the argument vectors for `poetry install` and for `uninstall`, and
  refreshes its cache after every change.
- **SDK registry.** One application-wide table holds the package manager of
  each SDK, under the SDK's key.
- **Poetry helpers.** These cover:
  - recognising a `pyproject.toml` that has a `tool.poetry` table, and the
    per-module cache of that answer;
  - finding the `poetry` executable;
  - telling the outcomes of a `poetry` run apart;
  - the command sequence of `setupPoetry`;
  - reading `poetry.lock`;
  - the "poetry.lock is out of date" notification.
- **Packaging tasks.** These are background tasks. The install task runs one
  `install` per requirement and collects the exceptions. A dependents check
  guards uninstalling. Each task ends with a notification.
- **Requirements inspection.** It reports the requirements that neither the
  environment nor the module's own `*.egg-info` / `*.dist-info` directories
  satisfy.
- **Unresolved-reference rules.** These are the plugin's own rules for
  reporting an unresolved import: ignore patterns, the legacy ignore entry,
  and the mapping from severity to highlight type.

Kotlin's `null` is `Option.None`. A thrown exception is a `Result.Err` (or an
`Outcome.Threw`) whose `Failure` names the exception class. Calls into the
IDE and into Python tooling become function parameters:

- requirement parsing, `parse`;
- requirement matching, `matches`;
- install options, `installOptions`;
- the `$PATH` search, `findInPath`;
- starting a process in a working directory, `run`;
- `requirementsToString`;
- the answers of processes the plugin starts (`dryRun`, `respond`,
  `installOutcome`).

Every result of the model is stated as a function of those parameters.

`uninstall` starts **pipenv** (`runPipEnv`, PyPoetryPackageManager.kt:63),
not `poetry`, and the model's `Command` records the tool for that reason.

Modules:

| module | file | models |
|---|---|---|
| `Wrappers` | `wrappers.dfy` | nullable values, thrown exceptions |
| `Text`, `Seqs` | `text.dfy`, `seqs.dfy` | the Kotlin string and list operations the core uses |
| `Packaging` | `packaging.dfy` | packages, requirements, failures |
| `DryRun` | `dry_run.dfy` | `parsePoetryInstallDryRun`, `getVersion` |
| `PackageManager` | `package_manager.dfy` | `PyPoetryPackageManager` |
| `ManagerRegistry` | `manager_registry.dfy` | `PyPoetryPackageManagersImpl` |
| `Toml`, `PyProject` | `toml.dfy`, `pyproject.dfy` | parsed TOML, `getPyProjectTomlForPoetry`, `Module.pyProjectToml` and its cache |
| `PoetryProcess` | `poetry_process.dfy` | executable lookup, `runPoetry`, `setupPoetry` |
| `PoetryLock` | `poetry_lock.dfy` | `parsePoetryLock`, `getPoetryLockRequirements` |
| `LockNotification` | `lock_notification.dfy` | `notifyPyProjectTomlChanged` |
| `PackagingTasks` | `packaging_tasks.dfy` | `PoetryPackageManagerUI` and its tasks |
| `RequirementsInspection` | `requirements_inspection.dfy` | the inspection's `Visitor` |
| `UnresolvedReferences` | `unresolved_references.dfy` | `registerUnresolvedReferenceProblem` |

## Model

| member | source | states |
|---|---|---|
| Text.JoinSplit | src/com/koxudaxi/poetry/PyPoetryPackageManager.kt:154 | splitting a line on ' ' loses nothing: joining the parts with ' ' gives the line back |
| Text.SplitPiecesLackDelimiter | src/com/koxudaxi/poetry/PyPoetryPackageManager.kt:154 | no part of a split holds the delimiter |
| Text.LinesHaveNoBreaks | src/com/koxudaxi/poetry/PyPoetryPackageManager.kt:162 | `lineSequence` gives lines with neither '\n' nor '\r' in them |
| Text.LinesWithoutCarriageReturn | src/com/koxudaxi/poetry/PyPoetryPackageManager.kt:162 | without '\r', the lines are the split on '\n' |
| Text.JoinSnoc | src/com/koxudaxi/poetry/PoetryPackageManagerUI.kt:268 | `StringUtil.join` of one more part is the join so far, the separator, then that part |
| Text.JoinSplitAtMost | src/com/koxudaxi/poetry/PoetryPackageRequirementsInspection.kt:104 | `split("-", limit = 3)` loses nothing: joining the parts with '-' gives the name back |
| Text.SplitAtMostSeveral | src/com/koxudaxi/poetry/PoetryPackageRequirementsInspection.kt:104-105 | a limited split has at least two parts exactly when the delimiter occurs |
| Text.TrimEmptyIffBlank | src/com/koxudaxi/poetry/PoetryPackageRequirementsInspection.kt:88 | `trim { it <= ' ' }` is empty exactly when every character is at most ' ' |
| Seqs.DistinctSpec | src/com/koxudaxi/poetry/PyPoetryPackageManager.kt:172 | `distinct()` has no duplicates, the same elements as its input, and keeps first occurrences in order |
| Seqs.DistinctIdempotent | src/com/koxudaxi/poetry/PyPoetryPackageManager.kt:172 | applying `distinct()` twice gives what applying it once gives |
| Seqs.FlatMapMember | src/com/koxudaxi/poetry/PyPoetryPackageManager.kt:146 | an element is in a `flatMap` exactly when one element's image holds it |
| Seqs.FilterSpec | src/com/koxudaxi/poetry/PoetryPackageRequirementsInspection.kt:121-125 | the kept elements are those of the input meeting the predicate, each as often as in the input, in the input's order |
| DryRun.GetVersionSpec | src/com/koxudaxi/poetry/PyPoetryPackageManager.kt:136-138 | "==" is prefixed exactly to versions starting with a digit; the result never starts with a digit; applying it twice is applying it once |
| DryRun.RemoveParens | src/com/koxudaxi/poetry/PyPoetryPackageManager.kt:155 | the result holds no '(' or ')' and is the input filtered to every other character, each kept in place |
| DryRun.ParsePoetryInstallDryRun | src/com/koxudaxi/poetry/PyPoetryPackageManager.kt:152-173 | the loop over the output's lines computes the dry-run parse of the whole text |
| DryRun.DryRunListsDistinct | src/com/koxudaxi/poetry/PyPoetryPackageManager.kt:172 | both returned lists are free of duplicates |
| DryRun.DryRunMembership | src/com/koxudaxi/poetry/PyPoetryPackageManager.kt:159-172 | a package is returned exactly when an "Already installed" line names it; a requirement exactly when the host parses it out of an "Installing" line's text |
| DryRun.IrrelevantLine | src/com/koxudaxi/poetry/PyPoetryPackageManager.kt:161-170 | a line not ending with ')' or with neither keyword changes nothing, wherever it stands |
| DryRun.AlreadyInstalledWins | src/com/koxudaxi/poetry/PyPoetryPackageManager.kt:165-167 | a line with "Already installed" adds the package named by tokens 4 and 5, even when it also says "Installing" |
| DryRun.AppendInstalledLine | src/com/koxudaxi/poetry/PyPoetryPackageManager.kt:167 | one more "Already installed" line adds its package to the distinct package list and leaves the requirements alone |
| DryRun.InstallingLineText | src/com/koxudaxi/poetry/PyPoetryPackageManager.kt:168 | an "Installing" line gives the text of token 4 followed by the normalised token 5 |
| DryRun.AppendInstallingLine | src/com/koxudaxi/poetry/PyPoetryPackageManager.kt:168 | one more "Installing" line adds the parsed requirements to the distinct requirement list and leaves the packages alone |
| DryRun.BrokenLineFails | src/com/koxudaxi/poetry/PyPoetryPackageManager.kt:153-156 | a kept line with fewer than six tokens makes the whole parse throw an index error, wherever it stands |
| PackageManager.InstallArgsShape | src/com/koxudaxi/poetry/PyPoetryPackageManager.kt:47-50 | the arguments start with "install", end with the extra arguments, and hold in between exactly the requirements' install options; a null list acts like an empty one |
| PackageManager.InstallArgsInOrder | src/com/koxudaxi/poetry/PyPoetryPackageManager.kt:47-50 | between "install" and the extra arguments stand each requirement's install options, whole, one after another in list order |
| PackageManager.UninstallArgs | src/com/koxudaxi/poetry/PyPoetryPackageManager.kt:60-61 | "uninstall" followed by every package name, in order |
| PackageManager.RefreshUsesCache | src/com/koxudaxi/poetry/PyPoetryPackageManager.kt:91-109 | an unforced refresh with a cached list runs nothing, changes nothing and returns that list |
| PackageManager.RefreshRunsDryRun | src/com/koxudaxi/poetry/PyPoetryPackageManager.kt:91-94 | a forced refresh, or one with nothing cached, issues exactly `poetry install --dry-run` |
| PackageManager.RefreshRunFailure | src/com/koxudaxi/poetry/PyPoetryPackageManager.kt:93-98 | an execution error of the dry run empties the package list, keeps the requirements and propagates |
| PackageManager.RefreshParsed | src/com/koxudaxi/poetry/PyPoetryPackageManager.kt:92-101 | a parsed dry run sets both fields and returns the packages; a malformed line leaves the package list null and the requirements untouched |
| PackageManager.RefreshThenCached | src/com/koxudaxi/poetry/PyPoetryPackageManager.kt:90-110 | a successful refresh caches what it returns, so the next unforced refresh runs nothing and returns the same |
| PackageManager.RefreshKeepsRequirements | src/com/koxudaxi/poetry/PyPoetryPackageManager.kt:90-110 | the requirements field changes only after a successful dry run |
| PackageManager.ToRequirementsMember | src/com/koxudaxi/poetry/PyPoetryPackageManager.kt:140-147 | a requirement comes out exactly when the host parses it out of some package's name plus normalised version |
| PackageManager.PoetryPackageManager.constructor | src/com/koxudaxi/poetry/PyPoetryPackageManager.kt:26-30 | a new manager has both caches null |
| PackageManager.PoetryPackageManager.RefreshAndGetPackages | src/com/koxudaxi/poetry/PyPoetryPackageManager.kt:90-110 | the new fields, the result and the command issued are those of the refresh function on the old fields |
| PackageManager.PoetryPackageManager.Install | src/com/koxudaxi/poetry/PyPoetryPackageManager.kt:46-57 | runs `poetry install` with the install arguments, then the forced refresh; the refresh's error wins over the install's |
| PackageManager.PoetryPackageManager.InstallRequirementString | src/com/koxudaxi/poetry/PyPoetryPackageManager.kt:42-44 | installs the parsed requirements with no extra arguments |
| PackageManager.PoetryPackageManager.Uninstall | src/com/koxudaxi/poetry/PyPoetryPackageManager.kt:59-68 | runs `pipenv uninstall` with the names, then the forced refresh, whose error wins |
| ManagerRegistry.PoetryPackageManagers.constructor | src/com/koxudaxi/poetry/PyPoetryPackageManagersImpl.kt:13 | the table starts empty |
| ManagerRegistry.PoetryPackageManagers.ForSdk | src/com/koxudaxi/poetry/PyPoetryPackageManagersImpl.kt:17-20 | returns the manager stored under the key, or stores and returns a new one with empty caches; other entries are untouched; every manager sits under its own SDK's key |
| ManagerRegistry.PoetryPackageManagers.ClearCache | src/com/koxudaxi/poetry/PyPoetryPackageManagersImpl.kt:31-34 | removes exactly the key's entry |
| ManagerRegistry.ForSdkScenario | src/com/koxudaxi/poetry/PyPoetryPackageManagersImpl.kt:17-34 | two lookups give the same manager; after clearing, a new one; other keys keep theirs |
| PyProject.PyProjectTomlSpec | src/com/koxudaxi/poetry/poetry.kt:76-84 | the file's stamp, with the file exactly when its content parses and has a `tool.poetry` table; any parse error gives null |
| PyProject.PoetryTableRecognised | src/com/koxudaxi/poetry/poetry.kt:79 | a document with a `poetry` table inside a `tool` table is recognised |
| PyProject.CacheKeyInjective | src/com/koxudaxi/poetry/poetry.kt:93 | module names without '/' and absolute paths never share a cache key |
| PyProject.CacheMiss | src/com/koxudaxi/poetry/poetry.kt:94 | a first lookup computes, stores and returns the file's answer |
| PyProject.CacheHit | src/com/koxudaxi/poetry/poetry.kt:95-96 | an entry with the file's current stamp is returned and the cache is unchanged |
| PyProject.CacheStaleReturnsOld | src/com/koxudaxi/poetry/poetry.kt:97 | a stale entry is replaced, but the lookup returns the replaced entry's answer |
| PyProject.CacheSettles | src/com/koxudaxi/poetry/poetry.kt:94-98 | once an entry has the file's stamp, a second lookup hits the cache |
| PyProject.CacheLookupStaleAnswer | src/com/koxudaxi/poetry/poetry.kt:97 | a file that was a Poetry project at stamp 1 and is not one at stamp 2 is still returned |
| PyProject.CacheLookupCorrectedSound | src/com/koxudaxi/poetry/poetry.kt:94-98 | the corrected lookup always returns the file's own answer, leaves an entry that agrees with the file, and keeps every other entry |
| PyProject.PyProjectTomlCache.PyProjectToml | src/com/koxudaxi/poetry/poetry.kt:89-101 | the getter as written: the cache and result are those of the lookup function; no file means null and no change |
| PyProject.PyProjectTomlCache.PyProjectTomlCorrected | src/com/koxudaxi/poetry/poetry.kt:89-101 | the getter with the fresh answer returned on a stamp mismatch |
| PoetryProcess.ExecutableName | src/com/koxudaxi/poetry/poetry.kt:120-123 | "poetry.exe" exactly on Windows, "poetry" exactly elsewhere |
| PoetryProcess.ExecutablePrecedence | src/com/koxudaxi/poetry/poetry.kt:119-131 | a configured path wins over the `$PATH` search; there is no executable exactly when neither gives one |
| PoetryProcess.RunPoetryClassification | src/com/koxudaxi/poetry/poetry.kt:208-236 | no executable is "Cannot find Poetry"; otherwise the process started is the executable followed by the arguments, in the project directory; cancellation beats the exit code; the output is returned unchanged exactly when the run was not cancelled and exited 0; a run not cancelled with a non-zero exit code gives exactly the execution failure with that exit code and both streams |
| PoetryProcess.RunPoetryForSdk | src/com/koxudaxi/poetry/poetry.kt:198-203 | the no-project error exactly when the SDK has no associated path; "Cannot find Poetry" exactly when it has one but no executable exists; success exactly when both exist and the run in that path is neither cancelled nor failed, with the run's output; a cancelled run there is the cancellation, a non-zero exit the execution failure with its exit code and streams; with a path, the result is `runPoetry` in that path |
| PoetryProcess.SetupPlanShape | src/com/koxudaxi/poetry/poetry.kt:174-187 | ends with `env info -p`; `init -n` first exactly when asked; `install` exactly when installing; `env use p` exactly for interpreter p; `run python -V` exactly when neither |
| PoetryProcess.SetupPoetry | src/com/koxudaxi/poetry/poetry.kt:174-187 | issues a prefix of the plan; every command before the last answered; the result is the last answer; stopping early means an error |
| PoetryLock.ToMapSpec | src/com/koxudaxi/poetry/poetry.kt:460 | `toMap()` holds each name once, in first-occurrence order, with the version of its last occurrence |
| PoetryLock.TableEntriesSpec | src/com/koxudaxi/poetry/poetry.kt:454-459 | the entries are the tables' names and versions, in order, exactly when every table has a string name; otherwise a cast error |
| PoetryLock.ParsePoetryLockNoData | src/com/koxudaxi/poetry/poetry.kt:448-468 | null for an absent, empty or non-array `package`, for a nameless table and for the three swallowed exception kinds; every other exception propagates |
| PoetryLock.LockRoundTrip | src/com/koxudaxi/poetry/poetry.kt:452-460 | tables with distinct string names give one entry each, in order, with their string versions |
| PoetryLock.ToMapDistinct | src/com/koxudaxi/poetry/poetry.kt:460 | without repeated names `toMap()` keeps the list |
| PoetryLock.LockRequirementsSpec | src/com/koxudaxi/poetry/poetry.kt:416-433 | null exactly when the lock gives no data; otherwise a requirement is present exactly when the host parses it out of some entry's name plus normalised version |
| LockNotification.LockTitle | src/com/koxudaxi/poetry/poetry.kt:369-373 | "poetry.lock is not found" exactly without a lock file, "poetry.lock is out of date" exactly with one |
| LockNotification.LinkAction | src/com/koxudaxi/poetry/poetry.kt:379-384 | only `#lock` and `#update` start a command: `poetry lock` or `poetry update`, with their titles |
| LockNotification.NotifySuppression | src/com/koxudaxi/poetry/poetry.kt:367-391 | a notification is shown exactly when none is active; afterwards one is, so a second change shows nothing |
| LockNotification.ModuleNotifications.NotifyPyProjectTomlChanged | src/com/koxudaxi/poetry/poetry.kt:367-391 | the flag and the title shown follow the notification function |
| LockNotification.ModuleNotifications.Expired | src/com/koxudaxi/poetry/poetry.kt:387-389 | expiry clears the flag |
| LockNotification.ModuleNotifications.LinkFollowed | src/com/koxudaxi/poetry/poetry.kt:375-384 | following a link clears the flag and starts that link's command |
| RequirementsInspection.MetadataPackageSpec | src/com/koxudaxi/poetry/PoetryPackageRequirementsInspection.kt:100-107 | only `egg-info`/`dist-info` children give a package, and they do exactly when the name without extension holds a '-' |
| RequirementsInspection.MetadataPackageOfName | src/com/koxudaxi/poetry/PoetryPackageRequirementsInspection.kt:104-106 | `name-version[-rest].egg-info` gives exactly that name and version |
| RequirementsInspection.ModulePackagesMember | src/com/koxudaxi/poetry/PoetryPackageRequirementsInspection.kt:99-111 | a package is found exactly when some child of some source root gives it |
| RequirementsInspection.CollectPackagesInModule | src/com/koxudaxi/poetry/PoetryPackageRequirementsInspection.kt:99-111 | the nested loop computes the module's packages, root by root and child by child |
| RequirementsInspection.UnsatisfiedSpec | src/com/koxudaxi/poetry/PoetryPackageRequirementsInspection.kt:113-127 | a requirement is reported exactly when it is not ignored and matched by neither package list, as often as it is listed; the report keeps the requirements' order; null lists report nothing |
| RequirementsInspection.FindUnsatisfiedRequirements | src/com/koxudaxi/poetry/PoetryPackageRequirementsInspection.kt:113-127 | the loop computes the unsatisfied requirements against the module's own packages |
| RequirementsInspection.UnsatisfiedMessagePlural | src/com/koxudaxi/poetry/PoetryPackageRequirementsInspection.kt:138-142 | "requirements … are" exactly for more than one requirement, "requirement … is" otherwise |
| RequirementsInspection.CheckPackagesHaveBeenInstalled | src/com/koxudaxi/poetry/PoetryPackageRequirementsInspection.kt:129-152 | a problem is registered exactly when no packaging task runs, the SDK is a Poetry SDK with a `pyproject.toml`, and something is unsatisfied; it carries the message and the install quick fix |
| RequirementsInspection.ChecksPlainTextFileSpec | src/com/koxudaxi/poetry/PoetryPackageRequirementsInspection.kt:85-92 | the module's requirements file is checked exactly when it holds a character above ' ' |
| UnresolvedReferences.WildcardPattern | src/com/koxudaxi/poetry/PoetryUnresolvedReferencesVisitor.kt:139-143 | `prefix.*` matches exactly the names starting with `prefix`, so `foo.*` also matches `foobar` |
| UnresolvedReferences.ExactPattern | src/com/koxudaxi/poetry/PoetryUnresolvedReferencesVisitor.kt:144-146 | a pattern without the wildcard matches only the equal name |
| UnresolvedReferences.HighlightForSpec | src/com/koxudaxi/poetry/PoetryUnresolvedReferencesVisitor.kt:207-218 | WARNING gives GENERIC_ERROR_OR_WARNING, ERROR gives GENERIC_ERROR, every other severity LIKE_UNKNOWN_SYMBOL |
| UnresolvedReferences.RegistrationSpec | src/com/koxudaxi/poetry/PoetryUnresolvedReferencesVisitor.kt:115-228 | a problem is registered exactly when the name is non-empty, not ignored, the PSI checks go on, it is no substitution chunk and a fix exists; its description, highlight and fixes |
| UnresolvedReferences.EmptyNameRegistersNothing | src/com/koxudaxi/poetry/PoetryUnresolvedReferencesVisitor.kt:131-133 | a null or empty name registers nothing |
| UnresolvedReferences.WildcardSuppresses | src/com/koxudaxi/poetry/PoetryUnresolvedReferencesVisitor.kt:135-149 | a matching wildcard pattern on any canonical name suppresses the problem |
| UnresolvedReferences.LegacyNameSuppresses | src/com/koxudaxi/poetry/PoetryUnresolvedReferencesVisitor.kt:150-153 | an ignore entry equal to the reference name suppresses the problem |
| UnresolvedReferences.NullIgnoreListCrashes | src/com/koxudaxi/poetry/PoetryUnresolvedReferencesVisitor.kt:137-153 | a reference an empty list lets through makes a null list throw |
| UnresolvedReferences.RegistrationCorrectedSound | src/com/koxudaxi/poetry/PoetryUnresolvedReferencesVisitor.kt:137-153 | the corrected rule never throws, agrees on non-null lists and treats null as empty |
| UnresolvedReferences.RegisterUnresolvedReferenceProblem | src/com/koxudaxi/poetry/PoetryUnresolvedReferencesVisitor.kt:115-228 | the method's early returns and nested ignore loops compute the registration rule |
| PackagingTasks.RecordedFailuresBound | src/com/koxudaxi/poetry/PoetryPackageManagerUI.kt:177-211 | no more exceptions are recorded than installs attempted |
| PackagingTasks.RecordedFailuresMember | src/com/koxudaxi/poetry/PoetryPackageManagerUI.kt:182-207 | an exception is recorded exactly when it is an execution error some attempt threw |
| PackagingTasks.RunInstallTask | src/com/koxudaxi/poetry/PoetryPackageManagerUI.kt:176-212 | one install for a null list, otherwise one per requirement in order until a cancellation or an escaping exception; the recorded exceptions; refresh runs exactly when nothing escapes |
| PackagingTasks.InstallSuccessDescriptionSpec | src/com/koxudaxi/poetry/PoetryPackageManagerUI.kt:217-218 | "Installed packages: " starts the description exactly when a list was given; otherwise "Installed all requirements" |
| PackagingTasks.QuotedNames | src/com/koxudaxi/poetry/PoetryPackageManagerUI.kt:268 | every name between single quotes, in order |
| PackagingTasks.UninstallSuccessDescriptionSpec | src/com/koxudaxi/poetry/PoetryPackageManagerUI.kt:266-270 | no package named for an empty selection, one named alone between quotes, and each further one after ", ", in selection order |
| PackagingTasks.UninstallTaskRun | src/com/koxudaxi/poetry/PoetryPackageManagerUI.kt:250-261 | one `uninstall` of exactly the selected packages; refresh always runs; the execution error is the one recorded exception; any other escapes |
| PackagingTasks.TaskFinished | src/com/koxudaxi/poetry/PoetryPackageManagerUI.kt:135-158 | success, with the task's success title and description, exactly when nothing was recorded; no notice exactly when the host cannot describe the failures; a failure notice has the failure title and links its details |
| PackagingTasks.CollectDependentsSpec | src/com/koxudaxi/poetry/PoetryPackageManagerUI.kt:281-295 | a name has an entry only for a selected package with a dependent outside the selection, holding all its dependents |
| PackagingTasks.CollectDependentsComplete | src/com/koxudaxi/poetry/PoetryPackageManagerUI.kt:284-292 | every selected package with an outside dependent has an entry |
| PackagingTasks.CollectDependents | src/com/koxudaxi/poetry/PoetryPackageManagerUI.kt:281-295 | the nested loops compute the dependents map, or the first null package or exception |
| PackagingTasks.NonNull | src/com/koxudaxi/poetry/PoetryPackageManagerUI.kt:73 | `filterIsInstance` keeps exactly the non-null packages, in order and with repeats: position by position the filtered list of present entries |
| PackagingTasks.UninstallDecisionSpec | src/com/koxudaxi/poetry/PoetryPackageManagerUI.kt:69-113 | proceeds without dependents, on YES, or when loading dependents fails with an execution error; aborts on any other answer; a null package or another exception escapes |
| PackagingTasks.PoetryHasNoDependents | src/com/koxudaxi/poetry/PyPoetryPackageManager.kt:123-126 | with the Poetry manager the dependents map is empty |
| PackagingTasks.PoetryUninstallProceeds | src/com/koxudaxi/poetry/PoetryPackageManagerUI.kt:69-74 | with the Poetry manager, uninstalling non-null packages always proceeds, whatever the answer |

## Left out

- Threads and visibility: `@Volatile` and `@Synchronized` are not modelled, and calls are sequential.
- The SDK-path listener that the constructor registers (`runOnChangeUnderInterpreterPaths`), `refresh()` (a file-system refresh plus `setupSdkPaths`) and the `baseDir` refreshes in `finally` blocks. These are IDE side effects with no value the core reads back. A task's "refresh ran" is a flag.
- The `packagesRefreshed` message-bus notification and its per-module suppression key in `refreshAndGetPackages`. This is IDE messaging; the model keeps the cached fields and the result.
- `installManagement`, `hasManagement`, `createVirtualEnv` and `InstallManagementTask`: these are constants or unconditional throws with nothing to prove.
- `setupPoetrySdkUnderProgress`, `detectAndSetupPoetry`, `UsePoetryQuickFix`, `PoetryInstallQuickFix`, `PyProjectTomlWatcher`'s editor plumbing, `runPoetryInBackground` and `isPoetry`. These are SDK creation, IDE dialogs and listeners. Their Poetry calls appear as booleans or runner answers in the model.
- Requirement parsing, `req.match`, `installOptions`, `requirementsToString` and the `toErrorDescription` text are host code. They are function parameters, and their own behaviour is not part of this model.
- The TOML library is not modelled. Its parse results and exceptions are the `TomlParse` value. A document that cannot be read (a null text) is one of its exceptions.
- `it["name"] as String` on a missing name: the model treats it as a cast error, and `parsePoetryLock` then returns null. That matches a Kotlin runtime where a null cast throws `TypeCastException`, a `ClassCastException`. With a runtime that throws `NullPointerException` instead, the exception would propagate.
- Process execution, progress indicators and the capture of output streams are not modelled. A run is its `ProcessResult` or the runner's answer.
- The dialog texts of `checkDependents` are not modelled; the model keeps only the user's answer.
- The indicator texts and fractions of the install loop are UI only.
- The PSI and type-inference checks inside `registerUnresolvedReferenceProblem` (comparison operators, control flow, module members, `try` imports, `__qualname__`, slots, auto-import fixes) are one `PsiOutcome` value: go on, possibly downgraded to a weak warning, or return. The rest of the visitor file (`visitPyElement`, import analysis, `ignoreUnresolved`) is not part of this model.
- The inspection's SDK lookup, its `isPoetry` test and its `pyProjectToml` test are booleans. The source roots and their children are lists of names.
- Modification stamps and exit codes are unbounded integers. The source's `Long` and `Int` widths never wrap in practice.
- PackagingTasks.RunInstallTask: does not track the fresh manager's cache changes, because each `install` outcome is a parameter.

## Findings

| source | as written | input that shows it | evidently intended | confidence | as-written member | corrected member |
|---|---|---|---|---|---|---|
| src/com/koxudaxi/poetry/poetry.kt:97 | on a stamp mismatch the getter returns `put(...)?.second`, which is the replaced entry's answer | the cache holds stamp 1 for a file that had `tool.poetry`; the file is now stamp 2 without it; the getter still returns the file (and returns null for a file that just became a Poetry project) | return the answer just computed for the current file | medium, not executed | PyProject.CacheLookupStaleAnswer | PyProject.CacheLookupCorrectedSound |
| src/com/koxudaxi/poetry/PoetryUnresolvedReferencesVisitor.kt:151 | the loop at line 137 guards against a null ignore list, then line 151 dereferences it with `!!` | a null list and a reference "requests" with an install fix throw a `NullPointerException`, where an empty list would register the problem | treat a null list as an empty one | low (the callers shown pass non-null lists), not executed | UnresolvedReferences.NullIgnoreListCrashes | UnresolvedReferences.RegistrationCorrectedSound |
