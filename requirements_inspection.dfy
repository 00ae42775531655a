/**
 * The inspection that reports requirements the Poetry environment does not
 * satisfy: the packages found in a module's own metadata directories, the
 * filter over the requirements, and the message.
 */
module RequirementsInspection {
  import opened Wrappers
  import opened Text
  import opened Seqs
  import opened Packaging

  /** `VirtualFile.extension`: the text after the last '.', or nothing when the name has none. */
  function Extension(name: string): Option<string>
  {
    match LastIndexOf(name, '.')
    case None => None
    case Some(i) => Some(name[i + 1..])
  }

  /** `VirtualFile.nameWithoutExtension`: the text before the last '.', or the whole name. */
  function NameWithoutExtension(name: string): string
  {
    match LastIndexOf(name, '.')
    case None => name
    case Some(i) => name[..i]
  }

  /** The extensions of package metadata directories. */
  predicate IsMetadataExtension(ext: Option<string>)
  {
    ext == Some("egg-info") || ext == Some("dist-info")
  }

  /**
   * The package a child of a source root stands for: a metadata directory's
   * name without extension, split on '-' into at most three parts, names
   * the package with part 0 and its version with part 1.
   */
  function MetadataPackage(fileName: string): Option<Package>
  {
    if !IsMetadataExtension(Extension(fileName)) then None
    else
      var parts := SplitAtMost(NameWithoutExtension(fileName), '-', 3);
      if |parts| >= 2 then Some(Package(parts[0], parts[1])) else None
  }

  /**
   * Only `egg-info` and `dist-info` children give a package, and one of those
   * gives a package exactly when its name without extension holds a '-'.
   */
  lemma MetadataPackageSpec(fileName: string)
    ensures MetadataPackage(fileName).Some? <==>
      IsMetadataExtension(Extension(fileName)) && '-' in NameWithoutExtension(fileName)
  {
    SplitAtMostSeveral(NameWithoutExtension(fileName), '-', 3);
  }

  /**
   * A directory named `name-version[-rest].egg-info` (or `.dist-info`), with
   * no '-' in the name or the version, gives exactly that name and version.
   */
  lemma MetadataPackageOfName(name: string, version: string, rest: string, ext: string)
    requires ext == "egg-info" || ext == "dist-info"
    requires '-' !in name && '-' !in version
    requires rest == "" || rest[0] == '-'
    ensures MetadataPackage(name + "-" + version + rest + "." + ext) == Some(Package(name, version))
  {
    var stem := name + "-" + version + rest;
    ExtensionOf(stem, ext);
    StemParts(name, version, rest);
  }

  lemma ExtensionOf(stem: string, ext: string)
    requires '.' !in ext
    ensures NameWithoutExtension(stem + "." + ext) == stem && Extension(stem + "." + ext) == Some(ext)
  {
    LastIndexOfBefore(stem, '.', ext);
    assert stem + "." + ext == stem + ['.'] + ext;
    assert (stem + "." + ext)[..|stem|] == stem;
    assert (stem + "." + ext)[|stem| + 1..] == ext;
  }

  lemma StemParts(name: string, version: string, rest: string)
    requires '-' !in name && '-' !in version
    requires rest == "" || rest[0] == '-'
    ensures var parts := SplitAtMost(name + "-" + version + rest, '-', 3);
      |parts| >= 2 && parts[0] == name && parts[1] == version
  {
    var stem := name + "-" + version + rest;
    assert stem == name + ['-'] + (version + rest);
    SplitAtMostFirst(name, '-', version + rest, 3);
    if rest == "" {
      assert version + rest == version;
      SplitAtMostNone(version, '-', 2);
    } else {
      assert version + rest == version + ['-'] + rest[1..];
      SplitAtMostFirst(version, '-', rest[1..], 2);
    }
  }

  /** The packages one child gives: none or one. */
  function ChildPackages(fileName: string): seq<Package>
  {
    match MetadataPackage(fileName)
    case None => []
    case Some(p) => [p]
  }

  /** The packages the children of one source root give, in order. */
  function RootPackages(children: seq<string>): seq<Package>
  {
    FlatMap(ChildPackages, children)
  }

  /** The packages the source roots of a module give, root by root and child by child. */
  function ModulePackages(sourceRoots: seq<seq<string>>): seq<Package>
  {
    FlatMap(RootPackages, sourceRoots)
  }

  /** A package is found in the module exactly when some child of some source root gives it. */
  lemma ModulePackagesMember(sourceRoots: seq<seq<string>>, p: Package)
    ensures p in ModulePackages(sourceRoots) <==>
      exists i, j :: 0 <= i < |sourceRoots| && 0 <= j < |sourceRoots[i]| && MetadataPackage(sourceRoots[i][j]) == Some(p)
  {
    FlatMapMember(RootPackages, sourceRoots, p);
    forall i | 0 <= i < |sourceRoots|
      ensures p in RootPackages(sourceRoots[i]) <==>
        exists j :: 0 <= j < |sourceRoots[i]| && MetadataPackage(sourceRoots[i][j]) == Some(p)
    {
      FlatMapMember(ChildPackages, sourceRoots[i], p);
    }
  }

  /**
   * `collectPackagesInModule`: for every source root and every child of it
   * (the children's names), the package a metadata directory gives.
   */
  method CollectPackagesInModule(sourceRoots: seq<seq<string>>) returns (result: seq<Package>)
    ensures result == ModulePackages(sourceRoots)
  {
    result := [];
    for i := 0 to |sourceRoots|
      invariant result == ModulePackages(sourceRoots[..i])
    {
      var children := sourceRoots[i];
      ghost var before := result;
      for j := 0 to |children|
        invariant result == before + RootPackages(children[..j])
      {
        var p := MetadataPackage(children[j]);
        if p.Some? {
          result := result + [p.value];
        }
        FlatMapPrefixStep(ChildPackages, children, j);
      }
      assert children[..|children|] == children;
      FlatMapPrefixStep(RootPackages, sourceRoots, i);
    }
    assert sourceRoots[..|sourceRoots|] == sourceRoots;
  }

  /**
   * The condition for reporting a requirement: its name is not ignored, and
   * the host's matcher finds it neither among the installed packages nor
   * among the module's own.
   */
  predicate IsUnsatisfied(req: Requirement, ignored: set<string>, packages: seq<Package>, packagesInModule: seq<Package>,
                          matches: (Requirement, seq<Package>) -> bool)
  {
    req.name !in ignored && !matches(req, packages) && !matches(req, packagesInModule)
  }

  /**
   * What `findUnsatisfiedRequirements` reports: nothing before the first
   * refresh (no package list); otherwise the requirements (none when null)
   * that are unsatisfied.
   */
  function Unsatisfied(requirements: Option<seq<Requirement>>, packages: Option<seq<Package>>,
                       packagesInModule: seq<Package>, ignored: set<string>,
                       matches: (Requirement, seq<Package>) -> bool): seq<Requirement>
  {
    if packages.None? then []
    else
      var reqs := if requirements.Some? then requirements.value else [];
      Filter((req: Requirement) => IsUnsatisfied(req, ignored, packages.value, packagesInModule, matches), reqs)
  }

  /**
   * A requirement is reported exactly when it is unsatisfied; the report is
   * the requirements' order with some left out; a null requirement list, or
   * a null package list, reports nothing.
   */
  lemma UnsatisfiedSpec(requirements: seq<Requirement>, packages: seq<Package>, packagesInModule: seq<Package>,
                        ignored: set<string>, matches: (Requirement, seq<Package>) -> bool, req: Requirement)
    ensures var r := Unsatisfied(Some(requirements), Some(packages), packagesInModule, ignored, matches);
      && (req in r <==> req in requirements && IsUnsatisfied(req, ignored, packages, packagesInModule, matches))
      && IsSubsequence(r, requirements)
      && multiset(r)[req] == if IsUnsatisfied(req, ignored, packages, packagesInModule, matches) then multiset(requirements)[req] else 0
    ensures Unsatisfied(None, Some(packages), packagesInModule, ignored, matches) == []
    ensures Unsatisfied(Some(requirements), None, packagesInModule, ignored, matches) == []
  {
    var r := Unsatisfied(Some(requirements), Some(packages), packagesInModule, ignored, matches);
    FilterSpec((req: Requirement) => IsUnsatisfied(req, ignored, packages, packagesInModule, matches), requirements);
    if req in requirements && IsUnsatisfied(req, ignored, packages, packagesInModule, matches) {
      var i :| 0 <= i < |requirements| && requirements[i] == req;
    }
    if req in r {
      var i :| 0 <= i < |r| && r[i] == req;
    }
  }

  /**
   * `findUnsatisfiedRequirements`: reads the manager's two lists, returns
   * early without a package list, collects the module's own packages, and
   * appends each requirement that is unsatisfied.
   */
  method FindUnsatisfiedRequirements(requirements: Option<seq<Requirement>>, packages: Option<seq<Package>>,
                                     sourceRoots: seq<seq<string>>, ignored: set<string>,
                                     matches: (Requirement, seq<Package>) -> bool)
      returns (unsatisfied: seq<Requirement>)
    ensures unsatisfied == Unsatisfied(requirements, packages, ModulePackages(sourceRoots), ignored, matches)
  {
    var reqs := if requirements.Some? then requirements.value else [];
    if packages.None? {
      return [];
    }
    var installed := packages.value;
    var packagesInModule := CollectPackagesInModule(sourceRoots);
    ghost var keep := (req: Requirement) => IsUnsatisfied(req, ignored, installed, packagesInModule, matches);
    unsatisfied := [];
    for i := 0 to |reqs|
      invariant unsatisfied == Filter(keep, reqs[..i])
    {
      var req := reqs[i];
      if req.name !in ignored && !matches(req, installed) && !matches(req, packagesInModule) {
        unsatisfied := unsatisfied + [req];
      }
      assert reqs[..i + 1][..i] == reqs[..i];
    }
    assert reqs[..|reqs|] == reqs;
  }

  /**
   * The message: "Package requirement", an "s" and "are" when more than one
   * requirement is unsatisfied, and "is" otherwise; `listing` is the host's
   * `requirementsToString` of them.
   */
  function UnsatisfiedMessage(count: nat, listing: string): string
  {
    var plural := count > 1;
    "Package requirement" + (if plural then "s" else "") + " " + listing + " " + (if plural then "are" else "is") + " not satisfied"
  }

  /** The plural forms are used exactly when more than one requirement is unsatisfied. */
  lemma UnsatisfiedMessagePlural(count: nat, listing: string)
    ensures StartsWith(UnsatisfiedMessage(count, listing), "Package requirements ") <==> count > 1
    ensures EndsWith(UnsatisfiedMessage(count, listing), " are not satisfied") <==> count > 1
    ensures count <= 1 ==> UnsatisfiedMessage(count, listing) == "Package requirement " + listing + " is not satisfied"
  {
    var m := UnsatisfiedMessage(count, listing);
    if count <= 1 {
      var tail := " is not satisfied";
      assert m == ("Package requirement " + listing) + tail;
      assert m[|m| - |tail|] == ' ' && " are not satisfied"[1] == 'a';
      assert m[19] == ' ' && "Package requirements "[19] == 's';
    } else {
      var tail := " are not satisfied";
      assert m == ("Package requirements " + listing) + tail;
    }
  }

  /** The highlight type the inspection registers its problem with. */
  const GenericErrorOrWarning := "GENERIC_ERROR_OR_WARNING"

  /** A problem the inspection registers: its message, its highlight type and its one quick fix, the Poetry install. */
  datatype Problem = Problem(message: string, highlight: string, quickFix: string)

  /**
   * `checkPackagesHaveBeenInstalled`: nothing while packaging tasks run, for
   * a project without an SDK, for a non-Poetry SDK, for a module without a
   * Poetry `pyproject.toml`, or when nothing is unsatisfied; otherwise one
   * problem naming the unsatisfied requirements.
   */
  function CheckPackagesHaveBeenInstalled(runningPackagingTasks: bool, hasSdk: bool, isPoetry: bool,
                                          hasPyProjectToml: bool, unsatisfied: seq<Requirement>,
                                          requirementsToString: seq<Requirement> -> string): (r: Option<Problem>)
    ensures r.Some? <==> !runningPackagingTasks && hasSdk && isPoetry && hasPyProjectToml && |unsatisfied| > 0
    ensures r.Some? ==> r.value == Problem(UnsatisfiedMessage(|unsatisfied|, requirementsToString(unsatisfied)),
                                           GenericErrorOrWarning, "PoetryInstallQuickFix")
  {
    if runningPackagingTasks || !hasSdk || !isPoetry || !hasPyProjectToml || |unsatisfied| == 0 then None
    else Some(Problem(UnsatisfiedMessage(|unsatisfied|, requirementsToString(unsatisfied)),
                      GenericErrorOrWarning, "PoetryInstallQuickFix"))
  }

  /** `visitPlainTextFile`: the module's `requirements.txt` is checked only when its trimmed text is not empty. */
  function ChecksPlainTextFile(isModuleRequirementsTxt: bool, text: string): bool
  {
    isModuleRequirementsTxt && Trim(text) != ""
  }

  /** The requirements file is checked exactly when it holds a character above the space. */
  lemma ChecksPlainTextFileSpec(isModuleRequirementsTxt: bool, text: string)
    ensures ChecksPlainTextFile(isModuleRequirementsTxt, text) <==>
      isModuleRequirementsTxt && exists i :: 0 <= i < |text| && text[i] > ' '
  {
    TrimEmptyIffBlank(text);
  }
}
