/** The host's packaging entities as the plugin sees them. */
module Packaging {
  import opened Wrappers

  /** A concrete installed or resolvable package (`PyPackage` with no location and no requirements). */
  datatype Package = Package(name: string, version: string)

  /**
   * A requirement (`PyRequirement`). The host parses and matches requirements;
   * the model keeps only the name, which the plugin reads, and the rest of
   * the parsed constraint as an opaque text.
   */
  datatype Requirement = Requirement(name: string, versionSpecs: string)

  /** What a call into the Poetry or pipenv runner can throw. */
  datatype Failure =
    | Canceled                                                    // RunCanceledByUserException
    | ExecutionFailed(exitCode: int, stdout: string, stderr: string) // PyExecutionException "Error Running Poetry"
    | PoetryNotFound                                              // PyExecutionException "Cannot find Poetry"
    | NoAssociatedProject                                         // PyExecutionException, no project for the SDK
    | IndexOutOfBounds                                            // a dry-run line with fewer than six tokens

  /** The failures that are `ExecutionException`s; the others escape `catch (e: ExecutionException)`. */
  predicate IsExecutionException(f: Failure)
  {
    !f.IndexOutOfBounds?
  }

  /** Which command-line tool a runner call starts. */
  datatype Tool = Poetry | Pipenv

  /** One command-line invocation: the tool and its argument vector. */
  datatype Command = Command(tool: Tool, args: seq<string>)

  /** The outcome of a call that returns nothing (Kotlin `Unit`) or throws. */
  datatype Outcome = Done | Threw(failure: Failure)
}
