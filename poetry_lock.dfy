/**
 * Reading `poetry.lock`: its `[[package]]` tables become a name → version
 * map, and that map becomes requirement texts.
 */
module PoetryLock {
  import opened Wrappers
  import opened Seqs
  import opened Toml
  import opened Packaging
  import opened DryRun

  /** A lock entry: the package name and its version when the lock states one as a string. */
  type LockEntry = (string, Option<string>)

  /**
   * The keys of an association list, in order. As the result of `toMap`,
   * a list with no repeated key stands for a Kotlin `LinkedHashMap`.
   */
  function Keys(m: seq<LockEntry>): (r: seq<string>)
    ensures |r| == |m| && forall i :: 0 <= i < |m| ==> r[i] == m[i].0
  {
    if |m| == 0 then [] else Keys(m[..|m| - 1]) + [m[|m| - 1].0]
  }

  /** `put` on a `LinkedHashMap`: an existing key keeps its place and takes the new value; a new key goes last. */
  function Put(m: seq<LockEntry>, k: string, v: Option<string>): (r: seq<LockEntry>)
    ensures k in Keys(m) ==> Keys(r) == Keys(m)
    ensures k !in Keys(m) ==> Keys(r) == Keys(m) + [k]
  {
    if |m| == 0 then [(k, v)]
    else
      var init := Put(m[..|m| - 1], k, v);
      var last := m[|m| - 1];
      if k in Keys(m[..|m| - 1]) then
        assert Keys(m) == Keys(m[..|m| - 1]) + [last.0];
        if last.0 == k then init + [(k, v)] else init + [last]
      else if last.0 == k then m[..|m| - 1] + [(k, v)]
      else
        assert k !in Keys(m) by { assert Keys(m) == Keys(m[..|m| - 1]) + [last.0]; }
        m + [(k, v)]
  }

  /** Kotlin `toMap()` on a list of pairs, entry by entry. */
  function ToMap(pairs: seq<LockEntry>): seq<LockEntry>
  {
    if |pairs| == 0 then [] else Put(ToMap(pairs[..|pairs| - 1]), pairs[|pairs| - 1].0, pairs[|pairs| - 1].1)
  }

  /** The value the list gives `k`. */
  function Get(m: seq<LockEntry>, k: string): Option<Option<string>>
  {
    if |m| == 0 then None
    else if m[|m| - 1].0 == k then Some(m[|m| - 1].1)
    else Get(m[..|m| - 1], k)
  }

  /**
   * `toMap()` holds every name once, in the order of first occurrence, and
   * maps each to the version of its last occurrence.
   */
  lemma {:induction false} ToMapSpec(pairs: seq<LockEntry>)
    ensures Keys(ToMap(pairs)) == Distinct(Keys(pairs))
    ensures forall k | k in Keys(pairs) :: Get(ToMap(pairs), k) == Get(pairs, k)
    ensures forall k | k !in Keys(pairs) :: Get(ToMap(pairs), k) == None
  {
    if |pairs| > 0 {
      var init, last := pairs[..|pairs| - 1], pairs[|pairs| - 1];
      ToMapSpec(init);
      assert Keys(pairs) == Keys(init) + [last.0];
      assert Keys(pairs)[..|Keys(pairs)| - 1] == Keys(init);
      DistinctSpec(Keys(init));
      var m := ToMap(init);
      forall k ensures Get(Put(m, last.0, last.1), k) == (if k == last.0 then Some(last.1) else Get(m, k)) {
        GetPut(m, last.0, last.1, k);
      }
    }
  }

  lemma {:induction false} GetPut(m: seq<LockEntry>, k: string, v: Option<string>, j: string)
    ensures Get(Put(m, k, v), j) == (if j == k then Some(v) else Get(m, j))
    decreases |m|
  {
    if |m| > 0 {
      var init, last := m[..|m| - 1], m[|m| - 1];
      assert m == init + [last];
      GetSnoc(init, last, j);
      if k in Keys(init) {
        GetPut(init, k, v, j);
        var x := if last.0 == k then (k, v) else last;
        assert Put(m, k, v) == Put(init, k, v) + [x];
        GetSnoc(Put(init, k, v), x, j);
      } else if last.0 == k {
        assert Put(m, k, v) == init + [(k, v)];
        GetSnoc(init, (k, v), j);
      } else {
        assert Put(m, k, v) == m + [(k, v)];
        GetSnoc(m, (k, v), j);
      }
    }
  }

  /** An entry appended last answers for its own key and leaves every other key to the list before it. */
  lemma GetSnoc(m: seq<LockEntry>, e: LockEntry, j: string)
    ensures Get(m + [e], j) == if e.0 == j then Some(e.1) else Get(m, j)
  {
    assert (m + [e])[..|m|] == m;
  }

  lemma {:induction false} GetMissing(m: seq<LockEntry>, k: string)
    ensures Get(m, k).Some? <==> k in Keys(m)
    decreases |m|
  {
    if |m| > 0 {
      GetMissing(m[..|m| - 1], k);
      assert Keys(m) == Keys(m[..|m| - 1]) + [m[|m| - 1].0];
    }
  }

  /** The entry a `[[package]]` table gives, or the `ClassCastException` of a name that is not a string. */
  function TableEntry(t: map<string, TomlValue>): Result<LockEntry, ErrorKind>
  {
    if "name" !in t || !t["name"].TString? then Err(ClassCast)
    else Ok((t["name"].s, if "version" in t && t["version"].TString? then Some(t["version"].s) else None))
  }

  /** `filterIsInstance(TomlTable)` followed by the `map`: the entries of the tables, in order, or the first cast error. */
  function TableEntries(items: seq<TomlValue>): Result<seq<LockEntry>, ErrorKind>
  {
    if |items| == 0 then Ok([])
    else match TableEntries(items[..|items| - 1])
      case Err(e) => Err(e)
      case Ok(init) =>
        match items[|items| - 1]
        case TTable(t) =>
          (match TableEntry(t)
           case Err(e) => Err(e)
           case Ok(entry) => Ok(init + [entry]))
        case _ => Ok(init)
  }

  /** Which exceptions `parsePoetryLock` turns into "no lock data". */
  predicate Swallowed(kind: ErrorKind)
  {
    kind == IllegalArgument || kind == TomlInvalidType || kind == ClassCast
  }

  /**
   * `parsePoetryLock`: `Ok(None)` is the null result, `Err` an exception that
   * propagates, `Ok(Some(m))` the lock's name → version map.
   */
  function ParsePoetryLock(doc: TomlParse): Result<Option<seq<LockEntry>>, ErrorKind>
  {
    var attempt: Result<Option<seq<LockEntry>>, ErrorKind> :=
      match doc
      case ParseThrew(kind) => Err(kind)
      case Parsed(root) =>
        match ArrayOrEmpty(root, "package")
        case Err(e) => Err(e)
        case Ok(packages) =>
          if |packages| == 0 then Ok(None)
          else match TableEntries(packages)
            case Err(e) => Err(e)
            case Ok(pairs) => Ok(Some(ToMap(pairs)));
    match attempt
    case Err(kind) => if Swallowed(kind) then Ok(None) else Err(kind)
    case Ok(lock) => Ok(lock)
  }

  /** The tables of `items`, in order, skipping everything else. */
  function Tables(items: seq<TomlValue>): seq<map<string, TomlValue>>
  {
    if |items| == 0 then []
    else
      var init := Tables(items[..|items| - 1]);
      if items[|items| - 1].TTable? then init + [items[|items| - 1].entries] else init
  }

  /** The entries are those of the tables, exactly when every table names its package with a string. */
  lemma {:induction false} TableEntriesSpec(items: seq<TomlValue>)
    ensures TableEntries(items).Ok? <==> forall t | t in Tables(items) :: TableEntry(t).Ok?
    ensures TableEntries(items).Ok? ==>
      |TableEntries(items).value| == |Tables(items)| &&
      forall i :: 0 <= i < |Tables(items)| ==> TableEntries(items).value[i] == TableEntry(Tables(items)[i]).value
    ensures TableEntries(items).Err? ==> TableEntries(items).error == ClassCast
  {
    if |items| > 0 {
      TableEntriesSpec(items[..|items| - 1]);
    }
  }

  /**
   * The null result comes from: no `package` array, an empty one, one that is
   * not an array, a table whose name is missing or not a string, or a parse
   * error of the three swallowed kinds; every other parse error propagates.
   */
  lemma ParsePoetryLockNoData(doc: TomlParse)
    ensures ParsePoetryLock(doc).Err? <==> doc.ParseThrew? && !Swallowed(doc.kind)
    ensures doc.ParseThrew? && Swallowed(doc.kind) ==> ParsePoetryLock(doc) == Ok(None)
    ensures doc.ParseThrew? && !Swallowed(doc.kind) ==> ParsePoetryLock(doc) == Err(doc.kind)
    ensures doc.Parsed? ==>
      (ParsePoetryLock(doc) == Ok(None) <==>
        var root := doc.root;
        "package" !in root || !root["package"].TArray? || |root["package"].items| == 0 ||
        TableEntries(root["package"].items).Err?)
  {
    if doc.Parsed? && "package" in doc.root && doc.root["package"].TArray? {
      TableEntriesSpec(doc.root["package"].items);
    }
  }

  /**
   * Tables with pairwise distinct string names give one map entry each, in
   * table order, with the table's version when it is a string.
   */
  lemma LockRoundTrip(root: map<string, TomlValue>)
    requires "package" in root && root["package"].TArray? && |root["package"].items| > 0
    requires var tables := Tables(root["package"].items);
      forall i :: 0 <= i < |tables| ==> "name" in tables[i] && tables[i]["name"].TString?
    requires var tables := Tables(root["package"].items);
      forall i, j :: 0 <= i < j < |tables| ==> tables[i]["name"] != tables[j]["name"]
    ensures var tables := Tables(root["package"].items);
      var r := ParsePoetryLock(Parsed(root));
      && r.Ok? && r.value.Some? && |r.value.value| == |tables|
      && forall i :: 0 <= i < |tables| ==>
           r.value.value[i] == (tables[i]["name"].s,
             if "version" in tables[i] && tables[i]["version"].TString? then Some(tables[i]["version"].s) else None)
  {
    var items := root["package"].items;
    var tables: seq<map<string, TomlValue>> := Tables(items);
    NamedTablesEntries(items);
    var pairs: seq<LockEntry> := TableEntries(items).value;
    ToMapDistinct(pairs);
    assert ParsePoetryLock(Parsed(root)) == Ok(Some(pairs));
    forall i | 0 <= i < |tables|
      ensures pairs[i] == (tables[i]["name"].s,
        if "version" in tables[i] && tables[i]["version"].TString? then Some(tables[i]["version"].s) else None)
    {
      assert pairs[i] == TableEntry(tables[i]).value;
    }
  }

  /** Tables that all carry distinct string names give one entry each, with no key repeated. */
  lemma NamedTablesEntries(items: seq<TomlValue>)
    requires forall i :: 0 <= i < |Tables(items)| ==> "name" in Tables(items)[i] && Tables(items)[i]["name"].TString?
    requires forall i, j :: 0 <= i < j < |Tables(items)| ==> Tables(items)[i]["name"] != Tables(items)[j]["name"]
    ensures TableEntries(items).Ok? && |TableEntries(items).value| == |Tables(items)|
    ensures forall i :: 0 <= i < |Tables(items)| ==> TableEntries(items).value[i] == TableEntry(Tables(items)[i]).value
    ensures NoDuplicates(Keys(TableEntries(items).value))
  {
    var tables := Tables(items);
    TableEntriesSpec(items);
    assert TableEntries(items).Ok? by {
      forall t | t in tables ensures TableEntry(t).Ok? {
        var i :| 0 <= i < |tables| && tables[i] == t;
      }
    }
    var pairs := TableEntries(items).value;
    forall i, j | 0 <= i < j < |pairs| ensures Keys(pairs)[i] != Keys(pairs)[j] {
      assert Keys(pairs)[i] == tables[i]["name"].s;
      assert Keys(pairs)[j] == tables[j]["name"].s;
    }
  }

  /** With no repeated key, `toMap()` keeps the list as it is. */
  lemma {:induction false} ToMapDistinct(pairs: seq<LockEntry>)
    requires NoDuplicates(Keys(pairs))
    ensures ToMap(pairs) == pairs
  {
    if |pairs| > 0 {
      var init, last := pairs[..|pairs| - 1], pairs[|pairs| - 1];
      LastKeyIsNew(pairs);
      ToMapDistinct(init);
      PutNew(init, last.0, last.1);
      assert init + [last] == pairs;
    }
  }

  /** Without repeated keys, the prefix has none either and the last key is new to it. */
  lemma LastKeyIsNew(pairs: seq<LockEntry>)
    requires |pairs| > 0 && NoDuplicates(Keys(pairs))
    ensures NoDuplicates(Keys(pairs[..|pairs| - 1])) && pairs[|pairs| - 1].0 !in Keys(pairs[..|pairs| - 1])
  {
    var n := |pairs| - 1;
    var ks := Keys(pairs);
    assert ks == Keys(pairs[..n]) + [pairs[n].0];
    assert ks[..n] == Keys(pairs[..n]);
    NoDuplicatesInit(ks);
  }

  /** A key not yet present goes last. */
  lemma PutNew(m: seq<LockEntry>, k: string, v: Option<string>)
    requires k !in Keys(m)
    ensures Put(m, k, v) == m + [(k, v)]
  {
    if |m| > 0 {
      assert Keys(m) == Keys(m[..|m| - 1]) + [m[|m| - 1].0];
    }
  }

  /** The requirement text of a lock entry: its name, followed by its normalised version when it has one. */
  function EntryRequirements(parse: string -> seq<Requirement>): LockEntry -> seq<Requirement>
  {
    (e: LockEntry) => parse(RequirementText(e.0, e.1))
  }

  /**
   * `getPoetryLockRequirements`: null when the lock gives no data, otherwise
   * what the host parses out of each entry's requirement text, in map order.
   */
  function GetPoetryLockRequirements(doc: TomlParse, parse: string -> seq<Requirement>): Result<Option<seq<Requirement>>, ErrorKind>
  {
    match ParsePoetryLock(doc)
    case Err(kind) => Err(kind)
    case Ok(None) => Ok(None)
    case Ok(Some(lock)) => Ok(Some(FlatMap(EntryRequirements(parse), lock)))
  }

  /**
   * The result is null exactly when the lock gives no data; otherwise a
   * requirement is in it exactly when the host parses it out of `name` or
   * `name + getVersion(version)` for some entry of the lock.
   */
  lemma LockRequirementsSpec(doc: TomlParse, parse: string -> seq<Requirement>, q: Requirement)
    ensures GetPoetryLockRequirements(doc, parse) == Ok(None) <==> ParsePoetryLock(doc) == Ok(None)
    ensures GetPoetryLockRequirements(doc, parse).Err? <==> ParsePoetryLock(doc).Err?
    ensures ParsePoetryLock(doc).Ok? && ParsePoetryLock(doc).value.Some? ==>
      var lock := ParsePoetryLock(doc).value.value;
      (q in GetPoetryLockRequirements(doc, parse).value.value <==>
        exists i :: 0 <= i < |lock| &&
          q in parse(if lock[i].1.Some? then lock[i].0 + GetVersion(lock[i].1.value) else lock[i].0))
  {
    if ParsePoetryLock(doc).Ok? && ParsePoetryLock(doc).value.Some? {
      var lock := ParsePoetryLock(doc).value.value;
      FlatMapMember(EntryRequirements(parse), lock, q);
      forall i | 0 <= i < |lock|
        ensures EntryRequirements(parse)(lock[i]) ==
          parse(if lock[i].1.Some? then lock[i].0 + GetVersion(lock[i].1.value) else lock[i].0)
      {
        assert EntryRequirements(parse)(lock[i]) == parse(RequirementText(lock[i].0, lock[i].1));
      }
    }
  }
}
