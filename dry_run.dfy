/**
 * Parsing the text printed by `poetry install --dry-run` into the packages
 * already installed and the requirements still to install.
 */
module DryRun {
  import opened Wrappers
  import opened Text
  import opened Seqs
  import opened Packaging

  /** The version text begins with an ASCII digit (regex `^[0-9]`). */
  predicate StartsWithDigit(v: string)
  {
    |v| > 0 && '0' <= v[0] <= '9'
  }

  /** `getVersion`: a bare version number becomes an exact pin `==version`. */
  function GetVersion(v: string): string
  {
    if StartsWithDigit(v) then "==" + v else v
  }

  /**
   * The pin is added exactly when the version starts with a digit, and
   * otherwise the text is kept as it is; the result never starts with a
   * digit, so normalising twice changes nothing.
   */
  lemma GetVersionSpec(v: string)
    ensures GetVersion(v) == "==" + v <==> StartsWithDigit(v)
    ensures !StartsWithDigit(v) ==> GetVersion(v) == v
    ensures !StartsWithDigit(GetVersion(v))
    ensures GetVersion(GetVersion(v)) == GetVersion(v)
  {
    if !StartsWithDigit(v) {
      assert |"==" + v| != |v|;
    }
  }

  /** The requirement text for a package: its name followed by its normalised version, if any. */
  function RequirementText(name: string, version: Option<string>): string
  {
    match version
    case None => name
    case Some(v) => name + GetVersion(v)
  }

  /** Neither an opening nor a closing parenthesis. */
  predicate NotParen(c: char)
  {
    c != '(' && c != ')'
  }

  /**
   * `replace(Regex("[()]"), "")`: every parenthesis removed, every other
   * character kept in place. Written as its own recursion, so that agreeing
   * with `Filter(NotParen, s)` is a proved fact rather than the definition.
   */
  function RemoveParens(s: string): (r: string)
    ensures '(' !in r && ')' !in r
    ensures r == Filter(NotParen, s)
    decreases |s|
  {
    if |s| == 0 then ""
    else
      var init := RemoveParens(s[..|s| - 1]);
      var c := s[|s| - 1];
      if c == '(' || c == ')' then init
      else
        assert (init + [c])[..|init|] == init;
        init + [c]
  }

  /** What one line of the dry-run output does to the two lists being collected. */
  datatype LineEffect =
    | Skipped                          // does not end with ')'
    | Broken                           // ends with ')' but has fewer than six tokens
    | AddPackage(pkg: Package)         // "Already installed"
    | AddRequirementText(text: string) // "Installing"
    | NoEffect                         // neither keyword

  /** The effect of one line, from its last character, its space-separated tokens 4 and 5 and its keywords. */
  function LineEffectOf(line: string): LineEffect
  {
    if !EndsWith(line, ")") then Skipped
    else
      var tokens := Split(line, ' ');
      if |tokens| < 6 then Broken
      else
        var name := tokens[4];
        var version := RemoveParens(tokens[5]);
        if Contains(line, "Already installed") then AddPackage(Package(name, version))
        else if Contains(line, "Installing") then AddRequirementText(name + GetVersion(version))
        else NoEffect
  }

  /** The package a line adds: one for an "Already installed" line, none otherwise. */
  function LinePackages(line: string): seq<Package>
  {
    match LineEffectOf(line)
    case AddPackage(p) => [p]
    case _ => []
  }

  /** The requirement text a line adds: one for an "Installing" line, none otherwise. */
  function LineTexts(line: string): seq<string>
  {
    match LineEffectOf(line)
    case AddRequirementText(text) => [text]
    case _ => []
  }

  /** The packages collected from `lines`, in order, before de-duplication. */
  function PackagesOf(lines: seq<string>): seq<Package>
  {
    FlatMap(LinePackages, lines)
  }

  /** The requirement texts collected from `lines`, in order. */
  function RequirementTextsOf(lines: seq<string>): seq<string>
  {
    FlatMap(LineTexts, lines)
  }

  /** Some line makes `getNameAndVersion` index past the end of its tokens. */
  predicate AnyBroken(lines: seq<string>)
  {
    exists i :: 0 <= i < |lines| && LineEffectOf(lines[i]).Broken?
  }

  /** The parse of a sequence of output lines: both lists de-duplicated, or the index failure. */
  function ParseLines(lines: seq<string>, parse: string -> seq<Requirement>): Result<(seq<Package>, seq<Requirement>), Failure>
  {
    if AnyBroken(lines) then Err(IndexOutOfBounds)
    else Ok((Distinct(PackagesOf(lines)), Distinct(FlatMap(parse, RequirementTextsOf(lines)))))
  }

  /** `parsePoetryInstallDryRun`, as a function of the whole output text. */
  function ParseDryRun(input: string, parse: string -> seq<Requirement>): Result<(seq<Package>, seq<Requirement>), Failure>
  {
    ParseLines(Lines(input), parse)
  }

  /**
   * `parsePoetryInstallDryRun`: walks the lines, appending to the package
   * list and the requirement list what each line adds (`getNameAndVersion`
   * and the keyword test are `LineEffectOf`), then de-duplicates both.
   * `parse` is the host's `parseRequirements(text)`.
   */
  method ParsePoetryInstallDryRun(input: string, parse: string -> seq<Requirement>)
      returns (r: Result<(seq<Package>, seq<Requirement>), Failure>)
    ensures r == ParseDryRun(input, parse)
  {
    var lines := Lines(input);
    var pyPackages: seq<Package> := [];
    var pyRequirements: seq<Requirement> := [];
    for i := 0 to |lines|
      invariant pyPackages == PackagesOf(lines[..i])
      invariant pyRequirements == FlatMap(parse, RequirementTextsOf(lines[..i]))
      invariant !AnyBroken(lines[..i])
    {
      var line := lines[i];
      LineStep(lines, i, parse);
      match LineEffectOf(line) {
        case Broken =>
          return Err(IndexOutOfBounds);
        case AddPackage(p) =>
          pyPackages := pyPackages + [p];
        case AddRequirementText(text) =>
          pyRequirements := pyRequirements + parse(text);
        case _ =>
      }
    }
    assert lines[..|lines|] == lines;
    r := Ok((Distinct(pyPackages), Distinct(pyRequirements)));
  }

  /** One more line appends what it adds to both collected lists, and a broken line breaks the whole parse. */
  lemma LineStep(lines: seq<string>, i: nat, parse: string -> seq<Requirement>)
    requires i < |lines|
    ensures PackagesOf(lines[..i + 1]) == PackagesOf(lines[..i]) + LinePackages(lines[i])
    ensures FlatMap(parse, RequirementTextsOf(lines[..i + 1])) ==
      FlatMap(parse, RequirementTextsOf(lines[..i])) + FlatMap(parse, LineTexts(lines[i]))
    ensures LineEffectOf(lines[i]).AddPackage? ==> LinePackages(lines[i]) == [LineEffectOf(lines[i]).pkg]
    ensures LineEffectOf(lines[i]).AddRequirementText? ==>
      FlatMap(parse, LineTexts(lines[i])) == parse(LineEffectOf(lines[i]).text)
    ensures !LineEffectOf(lines[i]).AddPackage? ==> LinePackages(lines[i]) == []
    ensures !LineEffectOf(lines[i]).AddRequirementText? ==> FlatMap(parse, LineTexts(lines[i])) == []
    ensures LineEffectOf(lines[i]).Broken? ==> AnyBroken(lines)
    ensures !LineEffectOf(lines[i]).Broken? && !AnyBroken(lines[..i]) ==> !AnyBroken(lines[..i + 1])
  {
    var line := lines[i];
    var done, next := lines[..i], lines[..i + 1];
    FlatMapPrefixStep(LinePackages, lines, i);
    FlatMapPrefixStep(LineTexts, lines, i);
    FlatMapAppend(parse, RequirementTextsOf(done), LineTexts(line));
    if LineEffectOf(line).AddRequirementText? {
      var text := LineEffectOf(line).text;
      assert LineTexts(line) == [text];
      assert [text][..0] == [];
    }
    if !LineEffectOf(line).Broken? && !AnyBroken(done) {
      forall k | 0 <= k < |next| ensures !LineEffectOf(next[k]).Broken? {
        if k < i { assert next[k] == done[k]; }
      }
    }
  }

  /**
   * Both lists of a successful parse are free of duplicates and keep the
   * order in which their elements first appear in the collected lists.
   */
  lemma DryRunListsDistinct(lines: seq<string>, parse: string -> seq<Requirement>)
    requires ParseLines(lines, parse).Ok?
    ensures var (pkgs, reqs) := ParseLines(lines, parse).value;
      && (forall p :: p in pkgs <==> p in PackagesOf(lines))
      && (forall q :: q in reqs <==> q in FlatMap(parse, RequirementTextsOf(lines)))
      && NoDuplicates(pkgs) && NoDuplicates(reqs)
      && (forall i, j :: 0 <= i < j < |pkgs| ==>
            FirstIndex(PackagesOf(lines), pkgs[i]) < FirstIndex(PackagesOf(lines), pkgs[j]))
      && (forall i, j :: 0 <= i < j < |reqs| ==>
            FirstIndex(FlatMap(parse, RequirementTextsOf(lines)), reqs[i]) < FirstIndex(FlatMap(parse, RequirementTextsOf(lines)), reqs[j]))
  {
    DistinctSpec(PackagesOf(lines));
    DistinctSpec(FlatMap(parse, RequirementTextsOf(lines)));
  }

  /**
   * A package is reported installed exactly when some line says it is
   * "Already installed"; a requirement is reported to install exactly when
   * the host parses it out of the text of some "Installing" line.
   */
  lemma DryRunMembership(lines: seq<string>, parse: string -> seq<Requirement>, p: Package, q: Requirement)
    requires ParseLines(lines, parse).Ok?
    ensures p in ParseLines(lines, parse).value.0 <==>
      exists i :: 0 <= i < |lines| && LineEffectOf(lines[i]) == AddPackage(p)
    ensures q in ParseLines(lines, parse).value.1 <==>
      exists i, t :: 0 <= i < |lines| && LineEffectOf(lines[i]) == AddRequirementText(t) && q in parse(t)
  {
    DistinctSpec(PackagesOf(lines));
    DistinctSpec(FlatMap(parse, RequirementTextsOf(lines)));
    PackagesOfMember(lines, p);
    RequirementsOfMember(lines, parse, q);
  }

  /** A package is collected exactly when some line adds it. */
  lemma PackagesOfMember(lines: seq<string>, p: Package)
    ensures p in PackagesOf(lines) <==> exists i :: 0 <= i < |lines| && LineEffectOf(lines[i]) == AddPackage(p)
  {
    FlatMapMember(LinePackages, lines, p);
  }

  /** A requirement is collected exactly when the host parses it out of the text some line adds. */
  lemma RequirementsOfMember(lines: seq<string>, parse: string -> seq<Requirement>, q: Requirement)
    ensures q in FlatMap(parse, RequirementTextsOf(lines)) <==>
      exists i, t :: 0 <= i < |lines| && LineEffectOf(lines[i]) == AddRequirementText(t) && q in parse(t)
  {
    var texts := RequirementTextsOf(lines);
    FlatMapMember(parse, texts, q);
    if exists k :: 0 <= k < |texts| && q in parse(texts[k]) {
      var k :| 0 <= k < |texts| && q in parse(texts[k]);
      FlatMapMember(LineTexts, lines, texts[k]);
      var i :| 0 <= i < |lines| && texts[k] in LineTexts(lines[i]);
      assert LineEffectOf(lines[i]) == AddRequirementText(texts[k]);
    }
    if exists i, t :: 0 <= i < |lines| && LineEffectOf(lines[i]) == AddRequirementText(t) && q in parse(t) {
      var i, t :| 0 <= i < |lines| && LineEffectOf(lines[i]) == AddRequirementText(t) && q in parse(t);
      assert t in LineTexts(lines[i]);
      FlatMapMember(LineTexts, lines, t);
      var k := FirstIndex(texts, t);
    }
  }

  /**
   * Inserting a line that does not end with ')', or a well-formed line with
   * neither keyword, anywhere in the output changes nothing.
   */
  lemma IrrelevantLine(a: seq<string>, line: string, b: seq<string>, parse: string -> seq<Requirement>)
    requires LineEffectOf(line).Skipped? || LineEffectOf(line).NoEffect?
    ensures ParseLines(a + [line] + b, parse) == ParseLines(a + b, parse)
  {
    FlatMapInsertEmpty(LinePackages, a, line, b);
    FlatMapInsertEmpty(LineTexts, a, line, b);
    InsertKeepsBroken(a, line, b);
  }

  lemma InsertKeepsBroken(a: seq<string>, line: string, b: seq<string>)
    requires !LineEffectOf(line).Broken?
    ensures AnyBroken(a + [line] + b) <==> AnyBroken(a + b)
  {
    var x, y := a + [line] + b, a + b;
    if AnyBroken(x) {
      var i :| 0 <= i < |x| && LineEffectOf(x[i]).Broken?;
      if i < |a| { assert y[i] == x[i]; } else { assert i > |a| && y[i - 1] == x[i]; }
    }
    if AnyBroken(y) {
      var i :| 0 <= i < |y| && LineEffectOf(y[i]).Broken?;
      if i < |a| { assert x[i] == y[i]; } else { assert x[i + 1] == y[i]; }
    }
  }

  /**
   * A line that ends with ')', has six tokens and mentions "Already
   * installed" adds the package named by tokens 4 and 5, even when it also
   * says "Installing".
   */
  lemma AlreadyInstalledWins(line: string)
    requires EndsWith(line, ")") && |Split(line, ' ')| >= 6
    requires Contains(line, "Already installed")
    ensures LineEffectOf(line) == AddPackage(Package(Split(line, ' ')[4], RemoveParens(Split(line, ' ')[5])))
  {
  }

  /** Appending an "Already installed" line adds its package, and no requirement, to a successful parse. */
  lemma AppendInstalledLine(a: seq<string>, line: string, p: Package, parse: string -> seq<Requirement>)
    requires LineEffectOf(line) == AddPackage(p)
    requires ParseLines(a, parse).Ok?
    ensures ParseLines(a + [line], parse).Ok?
    ensures ParseLines(a + [line], parse).value.0 == Distinct(PackagesOf(a) + [p])
    ensures ParseLines(a + [line], parse).value.1 == ParseLines(a, parse).value.1
  {
    assert LinePackages(line) == [p] && LineTexts(line) == [];
    var x := a + [line];
    assert x[..|x| - 1] == a;
    assert a + [line] + [] == x && a + [] == a;
    InsertKeepsBroken(a, line, []);
    FlatMapInsertEmpty(LineTexts, a, line, []);
    FlatMapAppend(LinePackages, a, [line]);
    assert [line][..0] == [];
  }

  /** A kept line with six tokens that says "Installing" but not "Already installed" adds `name + getVersion(version)`. */
  lemma InstallingLineText(line: string)
    requires EndsWith(line, ")") && |Split(line, ' ')| >= 6
    requires !Contains(line, "Already installed") && Contains(line, "Installing")
    ensures LineEffectOf(line) == AddRequirementText(Split(line, ' ')[4] + GetVersion(RemoveParens(Split(line, ' ')[5])))
  {
  }

  /** Appending an "Installing" line adds what the host parses out of its text, and no package, to a successful parse. */
  lemma AppendInstallingLine(a: seq<string>, line: string, t: string, parse: string -> seq<Requirement>)
    requires LineEffectOf(line) == AddRequirementText(t)
    requires ParseLines(a, parse).Ok?
    ensures ParseLines(a + [line], parse).Ok?
    ensures ParseLines(a + [line], parse).value.0 == ParseLines(a, parse).value.0
    ensures ParseLines(a + [line], parse).value.1 == Distinct(FlatMap(parse, RequirementTextsOf(a)) + parse(t))
  {
    assert LinePackages(line) == [] && LineTexts(line) == [t];
    InsertKeepsBroken(a, line, []);
    assert a + [line] + [] == a + [line] && a + [] == a;
    FlatMapInsertEmpty(LinePackages, a, line, []);
    FlatMapAppend(LineTexts, a, [line]);
    assert [line][..0] == [];
    FlatMapAppend(parse, RequirementTextsOf(a), [t]);
    assert [t][..0] == [];
  }

  /** A kept line with fewer than six tokens anywhere in the output makes the whole parse fail. */
  lemma BrokenLineFails(a: seq<string>, line: string, b: seq<string>, parse: string -> seq<Requirement>)
    requires EndsWith(line, ")") && |Split(line, ' ')| < 6
    ensures ParseLines(a + [line] + b, parse) == Err(IndexOutOfBounds)
  {
    assert (a + [line] + b)[|a|] == line;
  }
}
