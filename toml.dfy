/**
 * Parsed TOML, as the plugin reads it through the TOML library: the library
 * itself is not modelled, only the values it produces and the exceptions it
 * throws.
 */
module Toml {
  import opened Wrappers

  /** A TOML value; everything the plugin never inspects (numbers, dates, booleans) is `TOther`. */
  datatype TomlValue =
    | TString(s: string)
    | TTable(entries: map<string, TomlValue>)
    | TArray(items: seq<TomlValue>)
    | TOther

  /** The exception classes the plugin tells apart. */
  datatype ErrorKind = IllegalArgument | TomlInvalidType | ClassCast | OtherError

  /** What parsing a document yields: its top-level table, or the exception thrown while reading it. */
  datatype TomlParse = Parsed(root: map<string, TomlValue>) | ParseThrew(kind: ErrorKind)

  /** The document holds a `tool.poetry` table: a table `poetry` inside a top-level table `tool`. */
  predicate HasPoetryTable(root: map<string, TomlValue>)
  {
    && "tool" in root && root["tool"].TTable?
    && "poetry" in root["tool"].entries && root["tool"].entries["poetry"].TTable?
  }

  /**
   * `getArrayOrEmpty(key)`: the array under `key`, the empty array when the
   * key is absent, and a `TomlInvalidTypeException` when it holds anything else.
   */
  function ArrayOrEmpty(root: map<string, TomlValue>, key: string): Result<seq<TomlValue>, ErrorKind>
  {
    if key !in root then Ok([])
    else match root[key]
      case TArray(items) => Ok(items)
      case _ => Err(TomlInvalidType)
  }
}
