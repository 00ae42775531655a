/**
 * Recognising a Poetry `pyproject.toml`, and the per-module cache of that
 * answer keyed by module name and file path and validated by the file's
 * modification stamp.
 */
module PyProject {
  import opened Wrappers
  import opened Text
  import opened Toml

  /**
   * A `pyproject.toml` as the plugin sees it: its path, its current
   * modification stamp, and what reading and parsing its content yields.
   */
  datatype VFile = VFile(path: string, stamp: int, content: TomlParse)

  /** What is cached per module: the stamp the file had, and the file when it was a Poetry project then. */
  type Entry = (int, Option<VFile>)

  /**
   * `getPyProjectTomlForPoetry`: the file's stamp, paired with the file
   * itself when its content parses to a document with a `tool.poetry` table.
   */
  function GetPyProjectTomlForPoetry(file: VFile): Entry
  {
    var found := match file.content
      case ParseThrew(_) => None   // any Throwable is caught
      case Parsed(root) => if HasPoetryTable(root) then Some(file) else None;
    (file.stamp, found)
  }

  /**
   * The stamp always comes first; the file comes second exactly when its
   * content parses and has a `tool.poetry` table, and nothing otherwise,
   * a parse error included.
   */
  lemma PyProjectTomlSpec(file: VFile)
    ensures GetPyProjectTomlForPoetry(file).0 == file.stamp
    ensures GetPyProjectTomlForPoetry(file).1 == Some(file) <==>
      file.content.Parsed? && HasPoetryTable(file.content.root)
    ensures GetPyProjectTomlForPoetry(file).1 != Some(file) ==> GetPyProjectTomlForPoetry(file).1 == None
  {
  }

  /** A document whose `tool` entry is a table holding a `poetry` table is recognised, whatever else it holds. */
  lemma PoetryTableRecognised(path: string, stamp: int, root: map<string, TomlValue>, poetry: map<string, TomlValue>)
    requires "tool" in root && root["tool"].TTable? && root["tool"].entries.Keys >= {"poetry"}
    requires root["tool"].entries["poetry"] == TTable(poetry)
    ensures GetPyProjectTomlForPoetry(VFile(path, stamp, Parsed(root))) == (stamp, Some(VFile(path, stamp, Parsed(root))))
  {
  }

  /** The cache key: the module name followed by the file path. */
  function CacheKey(moduleName: string, path: string): string
  {
    moduleName + path
  }

  /**
   * Module names without '/' and absolute paths never share a key: the key's
   * first '/' ends the module name.
   */
  lemma CacheKeyInjective(m1: string, p1: string, m2: string, p2: string)
    requires '/' !in m1 && '/' !in m2
    requires |p1| > 0 && p1[0] == '/' && |p2| > 0 && p2[0] == '/'
    requires CacheKey(m1, p1) == CacheKey(m2, p2)
    ensures m1 == m2 && p1 == p2
  {
    var k := CacheKey(m1, p1);
    FirstSlashEndsModuleName(m1, p1);
    FirstSlashEndsModuleName(m2, p2);
    assert m1 == k[..|m1|] == m2;
    assert p1 == k[|m1|..] == p2;
  }

  /** In a key built from a name without '/' and an absolute path, the first '/' comes right after the name. */
  lemma FirstSlashEndsModuleName(m: string, p: string)
    requires '/' !in m && |p| > 0 && p[0] == '/'
    ensures IndexOf(CacheKey(m, p), '/') == Some(|m|)
  {
    var k := CacheKey(m, p);
    assert k[|m|] == '/' && k[..|m|] == m;
    var r := IndexOf(k, '/');
    assert r.Some? && r.value <= |m| by { assert '/' in k; }
  }

  /** The cache entries after one lookup and the file the lookup returns. */
  datatype Lookup = Lookup(entries: map<string, Entry>, result: Option<VFile>)

  /**
   * The `pyProjectToml` getter as written: the entry is computed and stored
   * if absent; a stored stamp equal to the file's stamp gives the stored
   * answer; otherwise a fresh entry is stored and the answer of the entry it
   * replaced (what `put` returns) is given back.
   */
  function CacheLookup(entries: map<string, Entry>, key: string, file: VFile): Lookup
  {
    var recomputed := GetPyProjectTomlForPoetry(file);
    var stored := if key in entries then entries[key] else recomputed;
    var entries' := entries[key := stored];
    if file.stamp == stored.0 then Lookup(entries', stored.1)
    else Lookup(entries'[key := recomputed], entries'[key].1)
  }

  /** The same getter with the fresh entry's answer returned on a stamp mismatch. */
  function CacheLookupCorrected(entries: map<string, Entry>, key: string, file: VFile): Lookup
  {
    var recomputed := GetPyProjectTomlForPoetry(file);
    if key in entries && entries[key].0 == file.stamp then Lookup(entries, entries[key].1)
    else Lookup(entries[key := recomputed], recomputed.1)
  }

  /** A first lookup computes, stores and returns the answer for the file. */
  lemma CacheMiss(entries: map<string, Entry>, key: string, file: VFile)
    requires key !in entries
    ensures CacheLookup(entries, key, file) == Lookup(entries[key := GetPyProjectTomlForPoetry(file)], GetPyProjectTomlForPoetry(file).1)
  {
  }

  /** A stored entry with the file's current stamp is returned without re-reading the file. */
  lemma CacheHit(entries: map<string, Entry>, key: string, file: VFile)
    requires key in entries && entries[key].0 == file.stamp
    ensures CacheLookup(entries, key, file) == Lookup(entries, entries[key].1)
  {
    assert entries[key := entries[key]] == entries;
  }

  /**
   * On a stamp mismatch the entry is replaced by a recomputed one, but the answer
   * returned is the replaced entry's; every other entry is kept.
   */
  lemma CacheStaleReturnsOld(entries: map<string, Entry>, key: string, file: VFile)
    requires key in entries && entries[key].0 != file.stamp
    ensures CacheLookup(entries, key, file) == Lookup(entries[key := GetPyProjectTomlForPoetry(file)], entries[key].1)
  {
  }

  /** Right after a lookup, a second lookup of the same file hits the cache and gives the file's own answer. */
  lemma CacheSettles(entries: map<string, Entry>, key: string, file: VFile)
    ensures var first := CacheLookup(entries, key, file);
      key in first.entries && first.entries[key].0 == file.stamp ==>
      CacheLookup(first.entries, key, file) == Lookup(first.entries, first.entries[key].1)
  {
  }

  /** An entry agrees with the file: when its stamp is the file's, its answer is the file's answer. */
  predicate EntryAgrees(e: Entry, file: VFile)
  {
    e.0 == file.stamp ==> e.1 == GetPyProjectTomlForPoetry(file).1
  }

  /**
   * The getter as written can return an answer the file does not have: an
   * entry stored for a Poetry file at stamp 1, looked up after the file was
   * rewritten without a `tool.poetry` table at stamp 2, still gives the file.
   */
  lemma CacheLookupStaleAnswer()
    ensures var before := VFile("/p/pyproject.toml", 1, Parsed(map["tool" := TTable(map["poetry" := TTable(map[])])]));
      var now := VFile("/p/pyproject.toml", 2, Parsed(map[]));
      var entries := map["m/p/pyproject.toml" := GetPyProjectTomlForPoetry(before)];
      && EntryAgrees(entries["m/p/pyproject.toml"], now)
      && CacheLookup(entries, "m/p/pyproject.toml", now).result == Some(before)
      && GetPyProjectTomlForPoetry(now).1 == None
  {
    var before := VFile("/p/pyproject.toml", 1, Parsed(map["tool" := TTable(map["poetry" := TTable(map[])])]));
    assert HasPoetryTable(before.content.root);
  }

  /**
   * The corrected getter always returns the file's own answer, provided the
   * stored entry agrees with the file, and leaves an entry that agrees.
   */
  lemma CacheLookupCorrectedSound(entries: map<string, Entry>, key: string, file: VFile)
    requires key in entries ==> EntryAgrees(entries[key], file)
    ensures var l := CacheLookupCorrected(entries, key, file);
      && l.result == GetPyProjectTomlForPoetry(file).1
      && key in l.entries && EntryAgrees(l.entries[key], file)
      && forall k :: k in entries && k != key ==> k in l.entries && l.entries[k] == entries[k]
  {
  }

  /** The `pyProjectTomlCache` map, shared by every module. */
  class PyProjectTomlCache {
    var entries: map<string, Entry>

    constructor ()
      ensures entries == map[]
    {
      entries := map[];
    }

    /**
     * `Module.pyProjectToml` as written, for a module whose base directory
     * holds `file` (without one, or without the file, the getter gives null
     * and touches nothing).
     */
    method PyProjectToml(moduleName: string, file: Option<VFile>) returns (r: Option<VFile>)
      modifies this
      ensures file.None? ==> r == None && entries == old(entries)
      ensures file.Some? ==>
        var l := CacheLookup(old(entries), CacheKey(moduleName, file.value.path), file.value);
        entries == l.entries && r == l.result
    {
      if file.None? {
        return None;
      }
      var virtualFile := file.value;
      var key := CacheKey(moduleName, virtualFile.path);
      if key !in entries {
        entries := entries[key := GetPyProjectTomlForPoetry(virtualFile)];
      }
      var pair := entries[key];
      if virtualFile.stamp == pair.0 {
        r := pair.1;
      } else {
        var previous := entries[key];
        entries := entries[key := GetPyProjectTomlForPoetry(virtualFile)];
        r := previous.1;
      }
    }

    /** The getter with the fresh answer returned on a stamp mismatch. */
    method PyProjectTomlCorrected(moduleName: string, file: Option<VFile>) returns (r: Option<VFile>)
      modifies this
      ensures file.None? ==> r == None && entries == old(entries)
      ensures file.Some? ==>
        var l := CacheLookupCorrected(old(entries), CacheKey(moduleName, file.value.path), file.value);
        entries == l.entries && r == l.result
    {
      if file.None? {
        return None;
      }
      var virtualFile := file.value;
      var key := CacheKey(moduleName, virtualFile.path);
      if key in entries && entries[key].0 == virtualFile.stamp {
        r := entries[key].1;
      } else {
        var recomputed := GetPyProjectTomlForPoetry(virtualFile);
        entries := entries[key := recomputed];
        r := recomputed.1;
      }
    }
  }
}
