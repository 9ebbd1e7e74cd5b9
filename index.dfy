/** The index builder of `src/bin/index/main.rs`: choosing where the registry comes
    from (a live `nix-env` evaluation, optionally cached to a file, or a cached file),
    replacing the previous index file, creating the `packages` table and inserting one
    row per registry entry inside a transaction that is committed only when every
    insert succeeded.

    The filesystem is the `files` field of a `Host` object; `nix-env`, the JSON text
    parser and `into_rippkgs_package` (not part of this model) are parameters. */
module Index {
  import opened Wrappers
  import opened Sql
  import opened Packages
  import J = Json
  import opened RegistryData

  /** The six fields the insert loop destructures from `into_rippkgs_package`'s result. */
  datatype IndexRecord = IndexRecord(
    attribute: string,
    name: Option<string>,
    version: Option<string>,
    storePath: Option<string>,
    description: Option<string>,
    longDescription: Option<string>)

  /** `info.into_rippkgs_package(attr)`. */
  type Normalize = (string, PackageInfo) -> IndexRecord

  // ---------------------------------------------------------------------------
  // The INSERT statement

  /** The column list of the INSERT, in its order. */
  const InsertColumns: seq<string> := ["attribute", "name", "version", "storePath", "description", "long_description"]

  /** The values bound to the six `?` placeholders, in order. */
  function InsertParams(rec: IndexRecord): seq<Value> {
    [ Text(rec.attribute), OptText(rec.name), OptText(rec.version), OptText(rec.storePath),
      OptText(rec.description), OptText(rec.longDescription) ]
  }

  /** The row one insert stores: each placeholder's value under its column. */
  function RowOf(rec: IndexRecord): Row {
    map[ "attribute" := Text(rec.attribute), "name" := OptText(rec.name), "version" := OptText(rec.version),
         "storePath" := OptText(rec.storePath), "description" := OptText(rec.description),
         "long_description" := OptText(rec.longDescription) ]
  }

  /** The package a stored record reads back as. */
  function AsPackage(rec: IndexRecord): Package {
    Package(rec.attribute, rec.name, rec.version, rec.storePath, rec.description, rec.longDescription, None, None)
  }

  /** The INSERT names exactly the schema's columns, placeholder `i` fills column `i`,
      and each record field lands in the column of the same name. */
  lemma InsertMatchesSchema(rec: IndexRecord)
    ensures (set i | 0 <= i < |InsertColumns| :: InsertColumns[i]) == ColumnNames(PackagesTable)
    ensures |InsertParams(rec)| == |InsertColumns|
    ensures forall i :: 0 <= i < |InsertColumns| ==> RowOf(rec)[InsertColumns[i]] == InsertParams(rec)[i]
    ensures RowOf(rec).Keys == ColumnNames(PackagesTable)
    ensures StoredRow(RowOf(rec), rec.attribute)
  {
    InsertColumnSet();
    PackagesColumns();
    InsertParamsInColumns(rec);
    RowOfKeys(rec);
  }

  lemma InsertColumnSet()
    ensures (set i | 0 <= i < |InsertColumns| :: InsertColumns[i]) ==
            {"attribute", "name", "version", "storePath", "description", "long_description"}
  {
    var cols := InsertColumns;
    assert cols[0] == "attribute" && cols[1] == "name" && cols[2] == "version";
    assert cols[3] == "storePath" && cols[4] == "description" && cols[5] == "long_description";
  }

  lemma InsertParamsInColumns(rec: IndexRecord)
    ensures |InsertParams(rec)| == |InsertColumns|
    ensures forall i :: 0 <= i < |InsertColumns| ==> RowOf(rec)[InsertColumns[i]] == InsertParams(rec)[i]
  {
    var cols, params, row := InsertColumns, InsertParams(rec), RowOf(rec);
    assert row[cols[0]] == params[0] && row[cols[1]] == params[1] && row[cols[2]] == params[2];
    assert row[cols[3]] == params[3] && row[cols[4]] == params[4] && row[cols[5]] == params[5];
  }

  lemma RowOfKeys(rec: IndexRecord)
    ensures RowOf(rec).Keys == {"attribute", "name", "version", "storePath", "description", "long_description"}
    ensures RowOf(rec)["attribute"] == Text(rec.attribute)
  {
  }

  /** A stored record decodes back to itself, with no score and `present` unset, in a
      release build and with the corrected decoder; the debug decoder as written finds
      no `score` column in it. */
  lemma StoredRecordRoundTrip(rec: IndexRecord, debugBuild: bool)
    ensures DecodeRow(RowOf(rec), false) == Ok(AsPackage(rec))
    ensures DecodeRowCorrected(RowOf(rec), debugBuild) == Ok(AsPackage(rec))
    ensures DecodeRow(RowOf(rec), true) == Err(InvalidColumnName("score"))
  {
    var row := RowOf(rec);
    assert GetText(row, "attribute") == Ok(rec.attribute);
    assert GetOptText(row, "storePath") == Ok(rec.storePath);
    assert GetOptText(row, "name") == Ok(rec.name);
    assert GetOptText(row, "version") == Ok(rec.version);
    assert GetOptText(row, "description") == Ok(rec.description);
    assert GetOptText(row, "long_description") == Ok(rec.longDescription);
    assert "score" !in row;
  }

  // ---------------------------------------------------------------------------
  // The insert loop, inside the transaction

  /** One `execute` of the INSERT: the primary key must be new. */
  function InsertRow(t: Table, rec: IndexRecord): Result<Table, Error> {
    if rec.attribute in t then Err(UniqueViolation(rec.attribute)) else Ok(t[rec.attribute := RowOf(rec)])
  }

  /** `try_for_each`: the inserts in order, stopping at the first that fails. */
  function InsertEach(t: Table, recs: seq<IndexRecord>): Result<Table, Error>
    decreases |recs|
  {
    if |recs| == 0 then Ok(t)
    else
      var next :- InsertRow(t, recs[0]);
      InsertEach(next, recs[1..])
  }

  predicate DistinctAttributes(recs: seq<IndexRecord>) {
    forall i, j :: 0 <= i < j < |recs| ==> recs[i].attribute != recs[j].attribute
  }

  function Attributes(recs: seq<IndexRecord>): set<string> {
    set i | 0 <= i < |recs| :: recs[i].attribute
  }

  method InsertAll(t: Table, recs: seq<IndexRecord>) returns (r: Result<Table, Error>)
    ensures r == InsertEach(t, recs)
  {
    var cur := t;
    var i := 0;
    while i < |recs|
      invariant 0 <= i <= |recs|
      invariant InsertEach(t, recs) == InsertEach(cur, recs[i..])
    {
      var rec := recs[i];
      assert recs[i..][0] == rec && recs[i..][1..] == recs[i + 1..];
      if rec.attribute in cur {
        return Err(UniqueViolation(rec.attribute));
      }
      cur := cur[rec.attribute := RowOf(rec)];
      i := i + 1;
    }
    return Ok(cur);
  }

  /** The records' attributes are pairwise distinct and none is a key of `t`. */
  predicate Insertable(t: Table, recs: seq<IndexRecord>) {
    DistinctAttributes(recs) && forall i :: 0 <= i < |recs| ==> recs[i].attribute !in t
  }

  lemma InsertableStep(t: Table, recs: seq<IndexRecord>)
    requires |recs| > 0 && recs[0].attribute !in t
    ensures Insertable(t, recs) <==> Insertable(t[recs[0].attribute := RowOf(recs[0])], recs[1..])
  {
    var rest := recs[1..];
    var next := t[recs[0].attribute := RowOf(recs[0])];
    assert forall i :: 0 < i < |recs| ==> recs[i] == rest[i - 1];
    if Insertable(next, rest) {
      forall i, j | 0 <= i < j < |recs| ensures recs[i].attribute != recs[j].attribute {
        if i > 0 { assert rest[i - 1].attribute != rest[j - 1].attribute; }
        else { assert rest[j - 1].attribute !in next; }
      }
    }
  }

  /** All the inserts succeed exactly when the attributes are new and pairwise distinct. */
  lemma {:induction false} InsertEachOk(t: Table, recs: seq<IndexRecord>)
    ensures InsertEach(t, recs).Ok? <==> Insertable(t, recs)
    decreases |recs|
  {
    if |recs| > 0 && recs[0].attribute !in t {
      InsertableStep(t, recs);
      InsertEachOk(t[recs[0].attribute := RowOf(recs[0])], recs[1..]);
    }
  }

  lemma AttributesStep(recs: seq<IndexRecord>)
    requires |recs| > 0
    ensures Attributes(recs) == {recs[0].attribute} + Attributes(recs[1..])
  {
    var rest := recs[1..];
    forall a | a in Attributes(recs) ensures a in {recs[0].attribute} + Attributes(rest) {
      var i :| 0 <= i < |recs| && recs[i].attribute == a;
      if i > 0 { assert rest[i - 1].attribute == a; }
    }
    forall a | a in Attributes(rest) ensures a in Attributes(recs) {
      var i :| 0 <= i < |rest| && rest[i].attribute == a;
      assert recs[i + 1].attribute == a;
    }
  }

  /** After all the inserts succeed the table holds the old rows and one row per record
      under its attribute, and nothing else. */
  lemma {:induction false} InsertEachContents(t: Table, recs: seq<IndexRecord>)
    requires InsertEach(t, recs).Ok?
    ensures InsertEach(t, recs).value.Keys == t.Keys + Attributes(recs)
    ensures forall k :: k in t ==> InsertEach(t, recs).value[k] == t[k]
    ensures forall i :: 0 <= i < |recs| ==> InsertEach(t, recs).value[recs[i].attribute] == RowOf(recs[i])
    decreases |recs|
  {
    if |recs| > 0 {
      var rec := recs[0];
      var rest := recs[1..];
      var next := t[rec.attribute := RowOf(rec)];
      InsertEachContents(next, rest);
      AttributesStep(recs);
      InsertEachOk(t, recs);
      var u := InsertEach(t, recs).value;
      forall i | 0 <= i < |recs| ensures u[recs[i].attribute] == RowOf(recs[i]) {
        if i > 0 { assert recs[i] == rest[i - 1]; }
      }
    }
  }

  /** The first record whose attribute is already taken (by the old table or an
      earlier record) stops the loop with a primary-key conflict on that attribute. */
  lemma {:induction false} InsertStopsAtFirstConflict(t: Table, recs: seq<IndexRecord>, i: nat)
    requires i < |recs|
    requires DistinctAttributes(recs[..i]) && forall k :: 0 <= k < i ==> recs[k].attribute !in t
    requires recs[i].attribute in t || exists k :: 0 <= k < i && recs[k].attribute == recs[i].attribute
    ensures InsertEach(t, recs) == Err(UniqueViolation(recs[i].attribute))
    decreases i
  {
    if i > 0 {
      var rec := recs[0];
      var next := t[rec.attribute := RowOf(rec)];
      var rest := recs[1..];
      assert forall k :: 0 < k < |recs| ==> recs[k] == rest[k - 1];
      assert DistinctAttributes(rest[..i - 1]) by {
        forall a, b | 0 <= a < b < i - 1 ensures rest[a].attribute != rest[b].attribute {
          assert recs[..i][a + 1] == rest[a] && recs[..i][b + 1] == rest[b];
        }
      }
      forall k | 0 <= k < i - 1 ensures rest[k].attribute !in next {
        assert recs[..i][0] == rec && recs[..i][k + 1] == rest[k];
      }
      if recs[i].attribute !in t {
        var k :| 0 <= k < i && recs[k].attribute == recs[i].attribute;
        if k > 0 {
          assert rest[k - 1].attribute == rest[i - 1].attribute;
        }
      }
      InsertStopsAtFirstConflict(next, rest, i - 1);
    }
  }

  // ---------------------------------------------------------------------------
  // From the registry to the rows

  /** `keys` lists every key of the registry exactly once: one iteration order of the
      `HashMap`. */
  predicate Enumerates(keys: seq<string>, registry: map<string, PackageInfo>) {
    && (forall i :: 0 <= i < |keys| ==> keys[i] in registry)
    && (forall k :: k in registry ==> k in keys)
    && (forall i, j :: 0 <= i < j < |keys| ==> keys[i] != keys[j])
  }

  function Records(registry: map<string, PackageInfo>, keys: seq<string>, normalize: Normalize): (recs: seq<IndexRecord>)
    requires forall i :: 0 <= i < |keys| ==> keys[i] in registry
    ensures |recs| == |keys|
  {
    seq(|keys|, i requires 0 <= i < |keys| => normalize(keys[i], registry[keys[i]]))
  }

  /** Every finite map's keys can be listed. */
  lemma {:induction false} KeysEnumerable(registry: map<string, PackageInfo>)
    ensures exists keys :: Enumerates(keys, registry)
    decreases |registry.Keys|
  {
    if |registry| == 0 {
      assert Enumerates([], registry);
    } else {
      var k :| k in registry;
      var smaller := registry - {k};
      assert |smaller.Keys| < |registry.Keys| by {
        assert smaller.Keys == registry.Keys - {k};
      }
      KeysEnumerable(smaller);
      var keys :| Enumerates(keys, smaller);
      var all := [k] + keys;
      assert forall i :: 0 < i < |all| ==> all[i] == keys[i - 1];
      assert Enumerates(all, registry);
    }
  }

  /** Building succeeds, in whatever order the registry is walked, exactly when the
      normalised records have pairwise distinct attributes; the table then holds one
      well-formed row per registry key, under that record's attribute. */
  lemma BuiltTable(registry: map<string, PackageInfo>, keys: seq<string>, normalize: Normalize)
    requires Enumerates(keys, registry)
    ensures var recs := Records(registry, keys, normalize);
            && (InsertEach(map[], recs).Ok? <==> DistinctAttributes(recs))
            && (InsertEach(map[], recs).Ok? ==>
                  var t := InsertEach(map[], recs).value;
                  && WellFormedTable(t)
                  && t.Keys == Attributes(recs)
                  && forall k :: k in registry ==>
                       normalize(k, registry[k]).attribute in t &&
                       t[normalize(k, registry[k]).attribute] == RowOf(normalize(k, registry[k])))
  {
    var recs := Records(registry, keys, normalize);
    InsertEachOk(map[], recs);
    if InsertEach(map[], recs).Ok? {
      FreshTable(recs);
      var t := InsertEach(map[], recs).value;
      forall k | k in registry
        ensures normalize(k, registry[k]).attribute in t
        ensures t[normalize(k, registry[k]).attribute] == RowOf(normalize(k, registry[k]))
      {
        var i :| 0 <= i < |keys| && keys[i] == k;
        assert recs[i] == normalize(k, registry[k]);
      }
    }
  }

  /** Inserting into the freshly created table gives a well-formed table with one row
      per record. */
  lemma {:induction false} FreshTable(recs: seq<IndexRecord>)
    requires InsertEach(map[], recs).Ok?
    ensures WellFormedTable(InsertEach(map[], recs).value)
    ensures InsertEach(map[], recs).value.Keys == Attributes(recs)
    ensures forall i :: 0 <= i < |recs| ==>
              recs[i].attribute in InsertEach(map[], recs).value &&
              InsertEach(map[], recs).value[recs[i].attribute] == RowOf(recs[i])
  {
    InsertEachContents(map[], recs);
    var t := InsertEach(map[], recs).value;
    assert t.Keys == Attributes(recs);
    forall k | k in t ensures StoredRow(t[k], k) {
      var i :| 0 <= i < |recs| && recs[i].attribute == k;
      InsertMatchesSchema(recs[i]);
    }
  }

  /** When every record keeps its registry key as its attribute, building always
      succeeds, and each key's row reads back as its record in a release build and
      with the corrected decoder, while the debug decoder as written rejects it. */
  lemma KeyedRecordsAlwaysBuild(registry: map<string, PackageInfo>, keys: seq<string>, normalize: Normalize,
                                key: string, debugBuild: bool)
    requires Enumerates(keys, registry)
    requires forall k :: k in registry ==> normalize(k, registry[k]).attribute == k
    requires key in registry
    ensures InsertEach(map[], Records(registry, keys, normalize)).Ok?
    ensures var t := InsertEach(map[], Records(registry, keys, normalize)).value;
            && key in t
            && DecodeRow(t[key], false) == Ok(AsPackage(normalize(key, registry[key])))
            && DecodeRow(t[key], true) == Err(InvalidColumnName("score"))
            && DecodeRowCorrected(t[key], debugBuild) == Ok(AsPackage(normalize(key, registry[key])))
  {
    var recs := Records(registry, keys, normalize);
    assert forall i :: 0 <= i < |keys| ==> recs[i].attribute == keys[i];
    BuiltTable(registry, keys, normalize);
    var i :| 0 <= i < |keys| && keys[i] == key;
    assert key in Attributes(recs) by { assert recs[i].attribute == key; }
    StoredRecordRoundTrip(normalize(key, registry[key]), debugBuild);
  }

  // ---------------------------------------------------------------------------
  // Getting the registry

  datatype Opts = Opts(
    output: string,
    nixpkgs: Option<string>,
    registry: Option<string>,
    nixpkgsConfig: Option<string>)

  datatype IoErrorKind = NotFound | PermissionDenied

  datatype ProcessOutput = ProcessOutput(success: bool, stdout: seq<bv8>, stderr: seq<bv8>)

  /** Run `nix-env` with the given arguments and capture its output; spawning can fail. */
  type NixEnv = seq<string> -> Result<ProcessOutput, IoErrorKind>

  /** Parse JSON text into a value; `None` for text that is not JSON. */
  type JsonParser = seq<bv8> -> Option<J.Json>

  datatype Cause =
    | Io(kind: IoErrorKind)
    | Storage(error: Error)
    | Syntax
    | Decode(decodeError: J.DecodeError)
    | Message(text: string)

  /** How the program fails: an error it returns, with its contexts outermost first, or
      the panic on a failed evaluation, which prints the captured stderr. */
  datatype IndexError =
    | Failed(contexts: seq<string>, cause: Cause)
    | NixEnvFailed(stderr: seq<bv8>)

  const NixEnvPrefixLength := 7

  /** The `nix-env` argument vector, built by pushing onto the fixed prefix. */
  method NixEnvArgs(nixpkgs: string, config: Option<string>) returns (args: seq<string>)
    ensures |args| == if config.Some? then NixEnvPrefixLength + 3 else NixEnvPrefixLength
    ensures args[..NixEnvPrefixLength] == ["--json", "-f", "<nixpkgs>", "-I", "nixpkgs=" + nixpkgs, "-qa", "--meta"]
    ensures config.Some? ==> args[NixEnvPrefixLength..] == ["--arg", "config", config.value]
    ensures "--arg" in args <==> config.Some?
    ensures args == NixEnvArgsOf(nixpkgs, config)
  {
    var nixpkgsVar := "nixpkgs=" + nixpkgs;
    args := ["--json", "-f", "<nixpkgs>", "-I", nixpkgsVar, "-qa", "--meta"];
    assert "--arg" !in args by {
      assert "--arg"[2] != "--json"[2] && "--arg"[2] != "--meta"[2];
      assert nixpkgsVar[0] == 'n';
    }
    if config.Some? {
      args := args + ["--arg"];
      args := args + ["config"];
      args := args + [config.value];
    }
  }

  /** The largest count one `write(2)` call transfers on Linux. */
  const MaxWrite := 0x7fff_f000

  /** What one `write` call of `data` leaves in a freshly truncated file. */
  function WrittenByOneCall(data: seq<bv8>): seq<bv8> {
    if |data| <= MaxWrite then data else data[..MaxWrite]
  }

  /** A single `write` stores everything up to the cap and silently drops the rest. */
  lemma OneWriteTruncates(data: seq<bv8>)
    ensures |data| <= MaxWrite ==> WrittenByOneCall(data) == data
    ensures |data| > MaxWrite ==> WrittenByOneCall(data) != data && WrittenByOneCall(data) == data[..MaxWrite]
  {
  }

  /** The registry from text: parsed, then decoded. */
  function DecodeRegistryText(bytes: seq<bv8>, parse: JsonParser): Result<map<string, PackageInfo>, IndexError> {
    match parse(bytes)
    case None => Err(Failed(["unable to read registry JSON"], Syntax))
    case Some(j) =>
      match DecodeRegistry(j)
      case Ok(m) => Ok(m)
      case Err(e) => Err(Failed(["unable to read registry JSON"], Decode(e)))
  }

  // ---------------------------------------------------------------------------
  // The filesystem and the program

  /** A file holds bytes or an SQLite database (the `packages` table, if created). */
  datatype FileContent = Bytes(data: seq<bv8>) | Database(packages: Option<Table>)

  class Host {
    var files: map<string, FileContent>
    /** Paths this process may not open or remove. */
    const denied: set<string>

    constructor (initial: map<string, FileContent>, deny: set<string>)
      ensures files == initial && denied == deny
    {
      files := initial;
      denied := deny;
    }

    /** `std::fs::remove_file`. */
    method RemoveFile(path: string) returns (r: Result<(), IoErrorKind>)
      modifies this
      ensures path !in old(files) ==> r == Err(NotFound) && files == old(files)
      ensures path in old(files) && path in denied ==> r == Err(PermissionDenied) && files == old(files)
      ensures path in old(files) && path !in denied ==> r == Ok(()) && files == old(files) - {path}
    {
      if path !in files {
        return Err(NotFound);
      }
      if path in denied {
        return Err(PermissionDenied);
      }
      files := files - {path};
      return Ok(());
    }

    /** Removing the previous index: a missing file is fine, any other error aborts. */
    method RemoveStaleIndex(output: string) returns (r: Result<(), IndexError>)
      modifies this
      ensures r.Ok? <==> output !in old(files) || output !in denied
      ensures r.Ok? ==> files == old(files) - {output}
      ensures r.Err? ==> r.error == Failed(["unable to remove previous index db"], Io(PermissionDenied)) && files == old(files)
    {
      var removed := RemoveFile(output);
      match removed
      case Ok(_) => return Ok(());
      case Err(NotFound) => return Ok(());
      case Err(kind) => return Err(Failed(["unable to remove previous index db"], Io(kind)));
    }

    /** `open_with_flags(path, CREATE | READ_WRITE)`: a missing or empty file becomes an
        empty database; a file of other bytes is not a database. */
    method OpenDatabase(path: string) returns (r: Result<(), Error>)
      modifies this
      ensures r.Ok? <==> path !in denied && (path !in old(files) || old(files)[path].Database? || old(files)[path] == Bytes([]))
      ensures r.Ok? && (path !in old(files) || old(files)[path] == Bytes([])) ==> files == old(files)[path := Database(None)]
      ensures r.Ok? && path in old(files) && old(files)[path].Database? ==> files == old(files)
      ensures r.Err? ==> files == old(files) && r.error == (if path in denied then CannotOpen else NotADatabase)
    {
      if path in denied {
        return Err(CannotOpen);
      }
      if path !in files || files[path] == Bytes([]) {
        files := files[path := Database(None)];
        return Ok(());
      }
      if files[path].Bytes? {
        return Err(NotADatabase);
      }
      return Ok(());
    }

    /** `conn.execute(Package::create_table(), [])`. */
    method CreateTable(path: string) returns (r: Result<(), Error>)
      requires path in files && files[path].Database?
      modifies this
      ensures r.Ok? <==> old(files)[path].packages.None?
      ensures r.Ok? ==> files == old(files)[path := Database(Some(map[]))]
      ensures r.Err? ==> r.error == TableExists("packages") && files == old(files)
    {
      if files[path].packages.Some? {
        return Err(TableExists("packages"));
      }
      files := files[path := Database(Some(map[]))];
      return Ok(());
    }

    /** The transaction: the inserts run on a copy of the table that replaces the file's
        table only on commit; an early return drops the transaction, rolling it back. */
    method InsertTransaction(path: string, recs: seq<IndexRecord>) returns (r: Result<(), Error>)
      requires path in files && files[path].Database? && files[path].packages.Some?
      modifies this
      ensures var t := old(files)[path].packages.value;
              match InsertEach(t, recs)
              case Ok(t') => r == Ok(()) && files == old(files)[path := Database(Some(t'))]
              case Err(e) => r == Err(e) && files == old(files)
    {
      var t := files[path].packages.value;
      var inserted := InsertAll(t, recs);
      match inserted
      case Err(e) => return Err(e);
      case Ok(t') =>
        files := files[path := Database(Some(t'))];
        return Ok(());
    }

    /** Writing the cache: open for writing, creating and truncating, then one `write`. */
    method WriteCache(path: string, data: seq<bv8>) returns (r: Result<(), IndexError>)
      modifies this
      ensures r.Ok? <==> path !in denied
      ensures r.Ok? ==> files == old(files)[path := Bytes(WrittenByOneCall(data))]
      ensures r.Err? ==> r.error == Failed(["couldn't open registry file"], Io(PermissionDenied)) && files == old(files)
    {
      if path in denied {
        return Err(Failed(["couldn't open registry file"], Io(PermissionDenied)));
      }
      files := files[path := Bytes([])];
      files := files[path := Bytes(WrittenByOneCall(data))];
      return Ok(());
    }

    /** Reading the cached registry file. */
    method ReadCache(path: string, parse: JsonParser) returns (r: Result<map<string, PackageInfo>, IndexError>)
      ensures r == ReadCacheResult(files, denied, path, parse)
      ensures path in denied ==> r == Err(Failed(["couldn't open registry file"], Io(PermissionDenied)))
      ensures path !in denied && path !in files ==> r == Err(Failed(["couldn't open registry file"], Io(NotFound)))
      ensures path !in denied && path in files && files[path].Bytes? ==> r == DecodeRegistryText(files[path].data, parse)
      ensures path !in denied && path in files && files[path].Database? ==> r == Err(Failed(["unable to read registry JSON"], Syntax))
    {
      if path in denied {
        return Err(Failed(["couldn't open registry file"], Io(PermissionDenied)));
      }
      if path !in files {
        return Err(Failed(["couldn't open registry file"], Io(NotFound)));
      }
      match files[path]
      case Bytes(data) => r := DecodeRegistryText(data, parse);
      case Database(_) => r := Err(Failed(["unable to read registry JSON"], Syntax));
    }

    /** `get_registry`: evaluate nixpkgs when it is given, caching the output when a
        registry file is given too; otherwise read the registry file; otherwise fail. */
    method GetRegistry(opts: Opts, nixEnv: NixEnv, parse: JsonParser) returns (r: Result<map<string, PackageInfo>, IndexError>)
      modifies this
      ensures r == RegistryResult(opts, nixEnv, parse, old(files), denied)
      ensures files == RegistryFiles(opts, nixEnv, old(files), denied)
      ensures opts.nixpkgs.None? && opts.registry.None? ==>
                r == Err(Failed([], Message("expected nixpkgs location or cached registry"))) && files == old(files)
      ensures opts.nixpkgs.None? ==> files == old(files)
      ensures opts.nixpkgs.Some? ==>
                var args := NixEnvArgsOf(opts.nixpkgs.value, opts.nixpkgsConfig);
                match nixEnv(args)
                case Err(kind) =>
                  r == Err(Failed(["failed to get nixpkgs packages from " + opts.nixpkgs.value], Io(kind))) && files == old(files)
                case Ok(out) =>
                  if !out.success then r == Err(NixEnvFailed(out.stderr)) && files == old(files)
                  else if opts.registry.None? then r == DecodeRegistryText(out.stdout, parse) && files == old(files)
                  else if opts.registry.value in denied then
                    r == Err(Failed(["couldn't open registry file"], Io(PermissionDenied))) && files == old(files)
                  else
                    r == DecodeRegistryText(out.stdout, parse) &&
                    files == old(files)[opts.registry.value := Bytes(WrittenByOneCall(out.stdout))]
    {
      if opts.nixpkgs.Some? {
        var args := NixEnvArgs(opts.nixpkgs.value, opts.nixpkgsConfig);
        var spawned := nixEnv(args);
        if spawned.Err? {
          return Err(Failed(["failed to get nixpkgs packages from " + opts.nixpkgs.value], Io(spawned.error)));
        }
        var out := spawned.value;
        if !out.success {
          return Err(NixEnvFailed(out.stderr));
        }
        if opts.registry.Some? {
          var written := WriteCache(opts.registry.value, out.stdout);
          if written.Err? {
            return Err(written.error);
          }
        }
        r := DecodeRegistryText(out.stdout, parse);
      } else if opts.registry.Some? {
        r := ReadCache(opts.registry.value, parse);
      } else {
        r := Err(Failed([], Message("expected nixpkgs location or cached registry")));
      }
    }

    /** The rest of `main` once the registry is in hand: replace the index file, create
        the table, insert every record in one transaction. */
    method BuildIndex(output: string, recs: seq<IndexRecord>) returns (r: Result<(), IndexError>)
      modifies this
      ensures output in old(files) && output in denied ==>
                r == Err(Failed(["unable to remove previous index db"], Io(PermissionDenied))) && files == old(files)
      ensures output !in old(files) && output in denied ==>
                r == Err(Failed(["unable to connect to index database"], Storage(CannotOpen))) && files == old(files)
      ensures output !in denied ==>
                match InsertEach(map[], recs)
                case Ok(t) => r == Ok(()) && files == old(files)[output := Database(Some(t))]
                case Err(e) =>
                  r == Err(Failed(["could not insert package into database"], Storage(e))) &&
                  files == old(files)[output := Database(Some(map[]))]
    {
      var removed := RemoveStaleIndex(output);
      if removed.Err? {
        return Err(removed.error);
      }
      var connected := OpenDatabase(output);
      if connected.Err? {
        return Err(Failed(["unable to connect to index database"], Storage(connected.error)));
      }
      // The file was just created, so the table cannot exist yet and
      // "unable to create table in database" is not reachable.
      var created := CreateTable(output);
      assert created.Ok?;
      var inserted := InsertTransaction(output, recs);
      if inserted.Err? {
        return Err(Failed(["could not insert package into database"], Storage(inserted.error)));
      }
      return Ok(());
    }

    /** `main`: the registry, then the index built from it, walking the registry in some
        order of its keys and normalising each entry. */
    method Run(opts: Opts, nixEnv: NixEnv, parse: JsonParser, normalize: Normalize) returns (r: Result<(), IndexError>)
      modifies this
      ensures match RegistryResult(opts, nixEnv, parse, old(files), denied)
              case Err(Failed(contexts, cause)) =>
                r == Err(Failed(["unable to get nixpkgs registry"] + contexts, cause)) &&
                files == RegistryFiles(opts, nixEnv, old(files), denied)
              case Err(NixEnvFailed(stderr)) =>
                r == Err(NixEnvFailed(stderr)) && files == RegistryFiles(opts, nixEnv, old(files), denied)
              case Ok(registry) =>
                exists keys: seq<string> ::
                  && Enumerates(keys, registry)
                  && (r.Ok? <==> opts.output !in denied && InsertEach(map[], Records(registry, keys, normalize)).Ok?)
                  && (r.Ok? ==> files == RegistryFiles(opts, nixEnv, old(files), denied)[opts.output :=
                                  Database(Some(InsertEach(map[], Records(registry, keys, normalize)).value))])
    {
      var got := GetRegistry(opts, nixEnv, parse);
      ghost var afterRegistry := files;
      if got.Err? {
        match got.error
        case Failed(contexts, cause) => return Err(Failed(["unable to get nixpkgs registry"] + contexts, cause));
        case NixEnvFailed(stderr) => return Err(NixEnvFailed(stderr));
      }
      var registry := got.value;
      KeysEnumerable(registry);
      var keys :| Enumerates(keys, registry);
      var recs := Records(registry, keys, normalize);
      r := BuildIndex(opts.output, recs);
      assert Enumerates(keys, registry)
        && (r.Ok? <==> opts.output !in denied && InsertEach(map[], recs).Ok?)
        && (r.Ok? ==> files == afterRegistry[opts.output := Database(Some(InsertEach(map[], recs).value))]);
    }
  }

  /** What reading the cached registry file gives: a missing or unreadable file fails to
      open, bytes are parsed and decoded, and a database file is not JSON. */
  function ReadCacheResult(files: map<string, FileContent>, denied: set<string>, path: string,
                           parse: JsonParser): Result<map<string, PackageInfo>, IndexError> {
    if path in denied then Err(Failed(["couldn't open registry file"], Io(PermissionDenied)))
    else if path !in files then Err(Failed(["couldn't open registry file"], Io(NotFound)))
    else match files[path]
      case Bytes(data) => DecodeRegistryText(data, parse)
      case Database(_) => Err(Failed(["unable to read registry JSON"], Syntax))
  }

  /** The registry `get_registry` obtains: from evaluation when `nixpkgs` is given (a
      cache file that cannot be opened failing the call), otherwise from the cache file,
      otherwise nothing. */
  function RegistryResult(opts: Opts, nixEnv: NixEnv, parse: JsonParser, files: map<string, FileContent>,
                          denied: set<string>): Result<map<string, PackageInfo>, IndexError> {
    if opts.nixpkgs.Some? then
      match nixEnv(NixEnvArgsOf(opts.nixpkgs.value, opts.nixpkgsConfig))
      case Err(kind) => Err(Failed(["failed to get nixpkgs packages from " + opts.nixpkgs.value], Io(kind)))
      case Ok(out) =>
        if !out.success then Err(NixEnvFailed(out.stderr))
        else if opts.registry.Some? && opts.registry.value in denied then
          Err(Failed(["couldn't open registry file"], Io(PermissionDenied)))
        else DecodeRegistryText(out.stdout, parse)
    else if opts.registry.Some? then ReadCacheResult(files, denied, opts.registry.value, parse)
    else Err(Failed([], Message("expected nixpkgs location or cached registry")))
  }

  /** The files once `get_registry` returns: the evaluation's output written to the cache
      file when both are given and the file can be opened, otherwise no change. */
  function RegistryFiles(opts: Opts, nixEnv: NixEnv, files: map<string, FileContent>,
                         denied: set<string>): map<string, FileContent> {
    if opts.nixpkgs.Some? && opts.registry.Some? && opts.registry.value !in denied then
      match nixEnv(NixEnvArgsOf(opts.nixpkgs.value, opts.nixpkgsConfig))
      case Ok(out) => if out.success then files[opts.registry.value := Bytes(WrittenByOneCall(out.stdout))] else files
      case Err(_) => files
    else files
  }

  /** The argument vector as a value: the fixed prefix, then the config argument when
      one is given. */
  function NixEnvArgsOf(nixpkgs: string, config: Option<string>): seq<string> {
    ["--json", "-f", "<nixpkgs>", "-I", "nixpkgs=" + nixpkgs, "-qa", "--meta"] +
    (if config.Some? then ["--arg", "config", config.value] else [])
  }
}
