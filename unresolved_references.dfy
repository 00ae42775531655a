/**
 * The plugin's own rules in reporting an unresolved reference: ignore
 * patterns on canonical names, the legacy ignore match on the reference
 * name, the early returns, and the severity → highlight mapping. The PSI
 * and type queries in between are an abstract outcome.
 */
module UnresolvedReferences {
  import opened Wrappers
  import opened Text

  /** `PyNames.END_WILDCARD`. */
  const EndWildcard := ".*"

  /**
   * One ignore pattern against one canonical name: a pattern ending with
   * ".*" matches every name starting with the rest of the pattern, any
   * other pattern only the name equal to it.
   */
  predicate PatternSuppresses(ignored: string, canonicalName: string)
  {
    if EndsWith(ignored, EndWildcard) then StartsWith(canonicalName, ignored[..|ignored| - |EndWildcard|])
    else canonicalName == ignored
  }

  /** A wildcard pattern `prefix.*` matches exactly the names starting with `prefix`, so `foo.*` also matches `foobar`. */
  lemma WildcardPattern(prefix: string, canonicalName: string)
    ensures PatternSuppresses(prefix + EndWildcard, canonicalName) <==> StartsWith(canonicalName, prefix)
    ensures PatternSuppresses("foo.*", "foobar") && PatternSuppresses("foo.*", "foo.bar") && !PatternSuppresses("foo.*", "fo")
  {
    var p := prefix + EndWildcard;
    assert EndsWith(p, EndWildcard) by { assert p[|p| - |EndWildcard|..] == EndWildcard; }
    assert p[..|p| - |EndWildcard|] == prefix;
    assert EndsWith("foo.*", EndWildcard) by { assert "foo.*"[3..] == EndWildcard; }
    assert "foo.*"[..3] == "foo";
  }

  /** A pattern without the wildcard matches only the name equal to it. */
  lemma ExactPattern(ignored: string, canonicalName: string)
    requires !EndsWith(ignored, EndWildcard)
    ensures PatternSuppresses(ignored, canonicalName) <==> canonicalName == ignored
  {
  }

  /** Some pattern of `ignored` matches `canonicalName`. */
  predicate AnyPatternSuppresses(ignored: seq<string>, canonicalName: string)
  {
    exists j :: 0 <= j < |ignored| && PatternSuppresses(ignored[j], canonicalName)
  }

  /** Some pattern matches some canonical name of the reference. */
  predicate CanonicallyIgnored(canonicalNames: seq<string>, ignored: seq<string>)
  {
    exists i :: 0 <= i < |canonicalNames| && AnyPatternSuppresses(ignored, canonicalNames[i])
  }

  /** The host severities the visitor is called with. */
  datatype Severity = Error | Warning | WeakWarning | Information

  /** The problem highlight types. */
  datatype HighlightType = GenericErrorOrWarning | GenericError | LikeUnknownSymbol

  /** The `when` on the severity: WARNING and ERROR have their own highlight types, every other severity is LIKE_UNKNOWN_SYMBOL. */
  function HighlightFor(s: Severity): HighlightType
  {
    if s == Warning then GenericErrorOrWarning
    else if s == Error then GenericError
    else LikeUnknownSymbol
  }

  /** Each highlight type comes from exactly the severities named. */
  lemma HighlightForSpec(s: Severity)
    ensures HighlightFor(s) == GenericErrorOrWarning <==> s == Warning
    ensures HighlightFor(s) == GenericError <==> s == Error
    ensures HighlightFor(s) == LikeUnknownSymbol <==> s == WeakWarning || s == Information
  {
  }

  /**
   * What the PSI and type checks between the ignore test and the highlight
   * decide: one of their early returns, or going on, possibly downgraded to
   * a weak warning (an import inside `try` or `if`), with the auto-import
   * fixes they collected.
   */
  datatype PsiOutcome = PsiReturns | PsiGoesOn(weakWarning: bool, autoImportFixes: seq<string>)

  /** The reference as the visitor sees it. */
  datatype Reference = Reference(
    isDocStringTypeReference: bool,
    refName: Option<string>,
    canonicalNames: seq<string>,
    psi: PsiOutcome,
    installFixes: seq<string>,       // getInstallPackageQuickFixes
    isSubstitutionChunkReference: bool)

  /** What `registerUnresolvedReferenceProblem` does. */
  datatype Registration =
    | NotRegistered
    | Registered(description: string, highlight: HighlightType, fixes: seq<string>)
    | NullPointer   // `ignoredIdentifiers!!` on a null list

  /** The description of every registered problem. */
  const Description := "Poetry does not manage this package"

  /** `registerUnresolvedReferenceProblem` as written, `ignoredIdentifiers` null being `None`. */
  function RegistrationOf(ref: Reference, severity: Severity, ignoredIdentifiers: Option<seq<string>>): Registration
  {
    if ref.isDocStringTypeReference then NotRegistered
    else if ref.refName.None? || ref.refName.value == "" then NotRegistered
    else if ignoredIdentifiers.Some? && CanonicallyIgnored(ref.canonicalNames, ignoredIdentifiers.value) then NotRegistered
    else if ignoredIdentifiers.None? then NullPointer
    else if ref.refName.value in ignoredIdentifiers.value then NotRegistered
    else match ref.psi
      case PsiReturns => NotRegistered
      case PsiGoesOn(weak, autoImportFixes) =>
        var fixes := autoImportFixes + ref.installFixes;
        if ref.isSubstitutionChunkReference || |fixes| == 0 then NotRegistered
        else Registered(Description, HighlightFor(if weak then WeakWarning else severity), fixes)
  }

  /**
   * A problem is registered exactly when the reference has a non-empty
   * name that no pattern and no legacy entry ignores, the PSI checks go on,
   * it is no substitution chunk and some fix exists; it then carries the
   * fixed description, the highlight of the (possibly downgraded) severity
   * and the auto-import fixes followed by the install fixes.
   */
  lemma RegistrationSpec(ref: Reference, severity: Severity, ignored: seq<string>)
    ensures RegistrationOf(ref, severity, Some(ignored)).Registered? <==>
      && !ref.isDocStringTypeReference && ref.refName.Some? && ref.refName.value != ""
      && !CanonicallyIgnored(ref.canonicalNames, ignored) && ref.refName.value !in ignored
      && ref.psi.PsiGoesOn? && !ref.isSubstitutionChunkReference
      && |ref.psi.autoImportFixes + ref.installFixes| > 0
    ensures RegistrationOf(ref, severity, Some(ignored)).Registered? ==>
      RegistrationOf(ref, severity, Some(ignored)) ==
        Registered(Description, HighlightFor(if ref.psi.weakWarning then WeakWarning else severity),
                   ref.psi.autoImportFixes + ref.installFixes)
    ensures !RegistrationOf(ref, severity, Some(ignored)).NullPointer?
  {
  }

  /** A null or empty reference name registers nothing, whatever the ignore list. */
  lemma EmptyNameRegistersNothing(ref: Reference, severity: Severity, ignoredIdentifiers: Option<seq<string>>)
    requires !ref.isDocStringTypeReference
    requires ref.refName.None? || ref.refName == Some("")
    ensures RegistrationOf(ref, severity, ignoredIdentifiers) == NotRegistered
  {
  }

  /** A wildcard pattern whose prefix starts one canonical name suppresses the reference. */
  lemma WildcardSuppresses(ref: Reference, severity: Severity, ignored: seq<string>, i: nat, j: nat, prefix: string)
    requires i < |ref.canonicalNames| && j < |ignored|
    requires ignored[j] == prefix + EndWildcard && StartsWith(ref.canonicalNames[i], prefix)
    ensures !RegistrationOf(ref, severity, Some(ignored)).Registered?
  {
    WildcardPattern(prefix, ref.canonicalNames[i]);
  }

  /** The legacy match: an ignore entry equal to the reference name suppresses it. */
  lemma LegacyNameSuppresses(ref: Reference, severity: Severity, ignored: seq<string>)
    requires ref.refName.Some? && ref.refName.value in ignored
    ensures RegistrationOf(ref, severity, Some(ignored)) == NotRegistered
  {
  }

  /**
   * As written, a null ignore list crashes on the legacy test: a reference
   * that an empty list lets through to registration makes a null list
   * throw instead.
   */
  lemma NullIgnoreListCrashes()
    ensures var ref := Reference(false, Some("requests"), ["requests"], PsiGoesOn(false, []), ["install requests"], false);
      && RegistrationOf(ref, Warning, None) == NullPointer
      && RegistrationOf(ref, Warning, Some([])) == Registered(Description, GenericErrorOrWarning, ["install requests"])
  {
    var ref := Reference(false, Some("requests"), ["requests"], PsiGoesOn(false, []), ["install requests"], false);
    assert [] + ref.installFixes == ["install requests"];
  }

  /** The same steps with a null ignore list read as an empty one, as the canonical-name loop already does. */
  function RegistrationCorrected(ref: Reference, severity: Severity, ignoredIdentifiers: Option<seq<string>>): Registration
  {
    RegistrationOf(ref, severity, Some(if ignoredIdentifiers.Some? then ignoredIdentifiers.value else []))
  }

  /**
   * The corrected rule never throws, agrees with the written one on every
   * non-null list, and registers for a null list exactly what it registers
   * for an empty one.
   */
  lemma RegistrationCorrectedSound(ref: Reference, severity: Severity, ignoredIdentifiers: Option<seq<string>>)
    ensures !RegistrationCorrected(ref, severity, ignoredIdentifiers).NullPointer?
    ensures ignoredIdentifiers.Some? ==>
      RegistrationCorrected(ref, severity, ignoredIdentifiers) == RegistrationOf(ref, severity, ignoredIdentifiers)
    ensures RegistrationCorrected(ref, severity, None) == RegistrationOf(ref, severity, Some([]))
  {
    RegistrationSpec(ref, severity, if ignoredIdentifiers.Some? then ignoredIdentifiers.value else []);
  }

  /**
   * `registerUnresolvedReferenceProblem`: the early returns, the nested loop
   * over canonical names and ignore patterns, the legacy test, the severity
   * downgrade and the fix list, step by step.
   */
  method RegisterUnresolvedReferenceProblem(ref: Reference, severity: Severity, ignoredIdentifiers: Option<seq<string>>)
      returns (r: Registration)
    ensures r == RegistrationOf(ref, severity, ignoredIdentifiers)
  {
    if ref.isDocStringTypeReference {
      return NotRegistered;
    }
    var mSeverity := severity;
    if ref.refName.None? || ref.refName.value == "" {
      return NotRegistered;
    }
    var refName := ref.refName.value;
    var names := ref.canonicalNames;
    for i := 0 to |names|
      invariant ignoredIdentifiers.Some? ==>
        forall k :: 0 <= k < i ==> !AnyPatternSuppresses(ignoredIdentifiers.value, names[k])
    {
      var canonicalName := names[i];
      if ignoredIdentifiers.Some? {
        var patterns := ignoredIdentifiers.value;
        for j := 0 to |patterns|
          invariant forall k :: 0 <= k < j ==> !PatternSuppresses(patterns[k], canonicalName)
        {
          var ignored := patterns[j];
          if EndsWith(ignored, EndWildcard) {
            var prefix := ignored[..|ignored| - |EndWildcard|];
            if StartsWith(canonicalName, prefix) {
              return NotRegistered;
            }
          } else if canonicalName == ignored {
            return NotRegistered;
          }
        }
      }
    }
    if ignoredIdentifiers.None? {
      return NullPointer;
    }
    if refName in ignoredIdentifiers.value {
      return NotRegistered;
    }
    var fixes: seq<string> := [];
    match ref.psi {
      case PsiReturns =>
        return NotRegistered;
      case PsiGoesOn(weak, autoImportFixes) =>
        if weak {
          mSeverity := WeakWarning;
        }
        fixes := fixes + autoImportFixes;
    }
    var highlightType := if mSeverity == Warning then GenericErrorOrWarning
      else if mSeverity == Error then GenericError
      else LikeUnknownSymbol;
    fixes := fixes + ref.installFixes;
    if ref.isSubstitutionChunkReference {
      return NotRegistered;
    }
    if |fixes| == 0 {
      return NotRegistered;
    }
    r := Registered(Description, highlightType, fixes);
  }
}
