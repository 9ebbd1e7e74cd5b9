# rippkgs, modelled in Dafny

rippkgs indexes the package set of nixpkgs into an SQLite database and searches it.
The indexer (`rippkgs-index`) does four things:

- It gets the registry, either by running `nix-env -qa --meta --json` (optionally caching the output to a file) or by reading a cached registry file.
- It decodes the registry JSON into `PackageInfo` records.
- It replaces the previous index file.
- It inserts one row per package into a `packages` table, inside a single transaction.

The searcher (`rippkgs`) looks up a package by its exact attribute, or runs a fuzzy search. The fuzzy search ranks every package with a `fuzzy_score` SQL function. It keeps only packages with a store path, optionally only those whose path is built. It returns the best `num_results`.

The model is split into modules:

| module | file | what it holds |
|---|---|---|
| `Wrappers` | `wrappers.dfy` | `Option` and `Result` |
| `Ints` | `ints.dfy` | the `i64` range |
| `Json` | `json.dfy` | a parsed JSON value and the decoding rules serde's derived `Deserialize` follows |
| `RegistryData` | `registry_data.dfy` | `PackageInfo`, `PackageMeta` and `OneOrList`, with their decoders and serde's camelCase rule |
| `Sql` | `sql.dfy` | SQLite values, rows and tables, the errors that reach the program, rusqlite's `FromSql` reads |
| `Packages` | `packages.dfy` | the `Package` record, the table schema, the row decoder, and JSON (de)serialisation |
| `Fuzzy` | `fuzzy.dfy` | `scalar_fuzzy_score` and the fuzzy `search` |
| `Exact` | `exact.dfy` | the exact `search` |
| `Index` | `index.dfy` | the insert statement and loop, and `get_registry` and `main` as methods of a `Host` class whose `files` map is the filesystem |

Foreign code is passed in as function parameters:

- the fuzzy matcher (`SkimMatcherV2`), as `Matcher`;
- `Path::exists`;
- running `nix-env`, as `NixEnv`;
- the JSON text parser;
- `into_rippkgs_package`, as `Normalize`.

SQLite's `ORDER BY score DESC` is a precondition on the order in which the cursor lists the table's keys (`Fuzzy.RankedOrder`). The `HashMap` iteration order of the registry is an arbitrary listing of its keys (`Index.Enumerates`).

Where the intended behaviour and the code differ, the model follows the code:

- The short-circuit `choice == pattern` is case-sensitive, although the matcher ignores case.
- The exact search does not check the store path.
- Neither search sets `present`.
- Rows of equal score come in no particular order.
- `Package` serialises its fields under their snake_case Rust names. Only `PackageInfo` and `PackageMeta` are renamed to camelCase.
- The previous index file is removed before the new one is built. A build whose inserts fail therefore leaves a database with an empty `packages` table, not the old index.
- The insert loop destructures a record of six fields, without `score` and `present` (`src/bin/index/main.rs:86-93`). That is not the eight-field `Package` of `src/lib.rs`, so the value `into_rippkgs_package` returns is modelled as its own record, `Index.IndexRecord`.

## Model

| member | source | states |
|---|---|---|
| `Json.Field` | src/bin/index/data.rs:5-12 | A struct field lookup gives `None` exactly when the key is absent. A value found is a member under that key. Any failure is a duplicate-field error. |
| `Json.FieldRejectsRepeatedKey` | src/bin/index/data.rs:5-12 | A struct field lookup fails exactly when the key occurs at two positions of the object. |
| `Json.DecodeI64` | src/lib.rs:17 | Only a number in the 64-bit signed range decodes as `i64`, and it decodes to itself. |
| `Json.DecodeItemsSpec` | src/bin/index/data.rs:36 | A `Vec` decodes exactly when every array item does, item by item in order. |
| `Json.DecodeEntriesSpec` | src/bin/index/data.rs:11 | A `HashMap` decodes exactly when every member value does. Its keys are the object's keys, and each key holds its last occurrence's value. |
| `Json.FieldOfDistinctKeys` | src/bin/index/data.rs:5-12 | In an object without repeated keys every field lookup succeeds. |
| `Json.FieldIgnoresOtherKeys` | src/bin/index/data.rs:5-12 | A member under another key, at any position in the object, does not change a field's lookup. |
| `RegistryData.CamelCaseOfWord` | src/bin/index/data.rs:6 | A one-word lower-case field name is its own camelCase key. |
| `RegistryData.CamelCaseOfTwoWords` | src/bin/index/data.rs:6 | For two words joined by `_`, camelCase drops the `_` and capitalises the second word. |
| `RegistryData.CamelCaseStorePaths` | src/bin/index/data.rs:11 | `store_paths` is read from the key `storePaths`. |
| `RegistryData.CamelCaseLongDescription` | src/bin/index/data.rs:25 | `long_description` is read from the key `longDescription`. |
| `RegistryData.InfoKeysAreCamelCase` | src/bin/index/data.rs:6-12 | Each key `PackageInfo` decodes from is the camelCase form of its field name. |
| `RegistryData.MetaKeysAreCamelCase` | src/bin/index/data.rs:15-30 | Each key `PackageMeta` decodes from is the camelCase form of its field name. |
| `RegistryData.OneOrListDecoding` | src/bin/index/data.rs:32-54 | A string decodes as `One`. An array of strings, the empty one included, decodes as `List` with the same strings. Nothing else decodes. |
| `RegistryData.UnknownKeysIgnored` | src/bin/index/data.rs:5-12 | An extra member with an unknown key, at any position in the object, leaves a `PackageInfo`'s decoding unchanged. |
| `RegistryData.UnknownMetaKeysIgnored` | src/bin/index/data.rs:14-30 | An extra member with an unknown key, at any position in the object, leaves a `PackageMeta`'s decoding unchanged. |
| `RegistryData.MetaOfFields` | src/bin/index/data.rs:14-30 | A `PackageMeta` is built exactly when all nine field reads succeed, and it holds their values. |
| `RegistryData.AbsentMetaFieldsDefault` | src/bin/index/data.rs:17-29 | An absent `broken`, `insecure`, `unfree` or `unsupported` reads as `false`. An absent `available`, `description`, `homepage`, `license` or `longDescription` reads as `None`. |
| `RegistryData.EmptyMeta` | src/bin/index/data.rs:14-30 | An empty object decodes as a `PackageMeta` with every flag false and every option `None`. |
| `RegistryData.StorePathsExample` | src/bin/index/data.rs:56-65 | `{"storePaths": {"out": "hi"}}` decodes to store paths `{out: hi}`, with every other field `None`. |
| `RegistryData.SnakeCaseKeyIgnored` | src/bin/index/data.rs:6-11 | The Rust name `store_paths` is not a key, so it is ignored as unknown. |
| `RegistryData.RegistryDecoding` | src/bin/index/main.rs:192 | The registry decodes exactly when every member decodes as a `PackageInfo`. It then has one entry per member key. |
| `Packages.PackagesColumns` | src/lib.rs:23-37 | The table has the six columns `attribute`, `name`, `version`, `storePath`, `description`, `long_description`, with the primary key `attribute` among them. |
| `Packages.DecodeRowSpec` | src/lib.rs:42-65 | Decoding succeeds exactly when every column read converts. Each column is then copied to its field, `present` is `None`, and `score` is the `score` column in debug builds and `None` in release builds. |
| `Packages.DecodeReadsSchemaColumns` | src/lib.rs:42-48 | A release build reads exactly the schema's columns: other columns do not matter, and a missing schema column fails the decode. |
| `Packages.StoredRowsDecode` | src/lib.rs:42-65 | In a release build, every stored row whose columns are TEXT or NULL decodes to the package with that attribute. |
| `Packages.DebugDecodeOfStoredRowFails` | src/lib.rs:50-54 | In a debug build, a stored row without a `score` column fails with `InvalidColumnName("score")`. The corrected decoder accepts it. |
| `Packages.DecodeRowCorrected` | src/lib.rs:39-67 | It agrees with the decoder whenever the row has a `score` column, and always in release builds. |
| `Packages.FieldOfMembers` | src/lib.rs:5-20 | In the serialised object, looking a field up finds that field's encoding, or nothing when it is `None`. |
| `Packages.SerializeOmitsNone` | src/lib.rs:3-21 | `attribute` is always the first member. Each optional field is found as its encoding when `Some`, and is absent when `None`. |
| `Packages.SerializeKeys` | src/lib.rs:3-21 | Serialisation always emits `attribute`, and emits each optional field exactly when it is `Some`. |
| `Packages.SerializeRoundTrip` | src/lib.rs:3-21 | Deserialising a serialised `Package` gives the same package back. |
| `Packages.FromMembersOfFields` | src/lib.rs:3-21 | An object whose members hold a package's field encodings deserialises to that package. |
| `Fuzzy.ScalarFuzzyScore` | src/bin/search/fuzzy.rs:66-79 | Both arguments must be TEXT, or the call fails on the first that is not. An equal name scores `i64::MAX`. Otherwise the score is the matcher's, or 0 when it finds no match. |
| `Fuzzy.ExactMatchScoresHighest` | src/bin/search/fuzzy.rs:74-76 | A name equal to the query scores `i64::MAX`, and no name scores higher. |
| `Fuzzy.EqualityIsCaseSensitive` | src/bin/search/fuzzy.rs:68-78 | `"Zsh"` against `"zsh"` skips the short-circuit and gets the matcher's score, which is 0 when the matcher finds nothing. |
| `Fuzzy.JoinStorePath` | src/bin/search/fuzzy.rs:57 | Joining an absolute store path to `/nix/store/` gives the path itself. A relative one is appended to the root. |
| `Fuzzy.UnfilteredKeep` | src/bin/search/fuzzy.rs:39-55 | Without `filter_built`, a decoded package passes exactly when it has a store path. An error passes whether or not `filter_built` is set. |
| `Fuzzy.CursorScores` | src/bin/search/fuzzy.rs:28 | The query's `fuzzy_score(name, ?1)` gives the row's rank when the name is TEXT, and fails on its first argument otherwise. |
| `Fuzzy.FilteredKeeps` | src/bin/search/fuzzy.rs:38-58 | Everything the filter lets through passes it and comes from the cursor. |
| `Fuzzy.FilteredPosition` | src/bin/search/fuzzy.rs:38-58 | The filter keeps order: a passing item comes right after the passing items before it. |
| `Fuzzy.CollectOk` | src/bin/search/fuzzy.rs:60 | Collecting succeeds exactly when no item is an error, and then yields every value in order. |
| `Fuzzy.CollectFirstError` | src/bin/search/fuzzy.rs:60 | Collecting reports the first error. |
| `Fuzzy.PipelineOk` | src/bin/search/fuzzy.rs:38-60 | On success the result is exactly the first `num_results` passing items, or all of them when fewer pass, in cursor order. |
| `Fuzzy.PipelineError` | src/bin/search/fuzzy.rs:39-42 | An error among the first `num_results` passing items makes the whole result that error, if only packages come before it. |
| `Fuzzy.PipelineIgnoresTail` | src/bin/search/fuzzy.rs:59 | Once `num_results` items have passed, the rest of the cursor is never looked at, so a later error is never seen. |
| `Fuzzy.PassingItemReturned` | src/bin/search/fuzzy.rs:38-59 | On success, every passing item reached before the limit is returned, at the position given by the passing items before it. |
| `Fuzzy.RunPipeline` | src/bin/search/fuzzy.rs:35-63 | The cursor walk pulls items until it has kept `num_results` packages or an error passes the filter. Its result is the filter/take/collect pipeline's. |
| `Fuzzy.Search` | src/bin/search/fuzzy.rs:11-64 | The search equals its specification. A missing table fails at "preparing query", and a pipeline error is reported under "parsing results". |
| `Fuzzy.CursorItems` | src/bin/search/fuzzy.rs:28-36 | The cursor yields packages in non-increasing rank. Each has a name, `present` unset, and its rank as `score` in debug builds. |
| `Fuzzy.FilteredRanked` | src/bin/search/fuzzy.rs:38-58 | Filtering keeps the rank order. |
| `Fuzzy.SearchResultsPass` | src/bin/search/fuzzy.rs:44-59 | Every package returned has a store path, and that path exists when `filter_built` is set. There are at most `num_results` packages, and each has `present` unset and, in debug builds, its rank as `score`. |
| `Fuzzy.SearchResultsRanked` | src/bin/search/fuzzy.rs:28-30 | The packages returned come highest score first. |
| `Fuzzy.ExactMatchRanksFirst` | src/bin/search/fuzzy.rs:30 | Every package returned before one named exactly as the query scores `i64::MAX`. |
| `Fuzzy.NonTextNameFails` | src/bin/search/fuzzy.rs:28-30 | A row whose name is not TEXT fails the search with a function-parameter error whenever at least one item is pulled. With a limit of 0 the result is empty. |
| `Fuzzy.ZeroLimitIsEmpty` | src/bin/search/fuzzy.rs:59 | With `num_results` 0, no item is pulled and the result is empty. |
| `Fuzzy.MissingTableFails` | src/bin/search/fuzzy.rs:25-33 | Without the table, the statement fails to prepare. |
| `Exact.SearchAsWritten` | src/bin/search/exact.rs:6-18 | As written, a found row gives the row decoded by `Package::try_from`, and a decode error is an error under "executing query". No row gives `Ok(None)`, never an error, and a missing table is an error under "executing query". |
| `Exact.Search` | src/bin/search/exact.rs:6-18 | The corrected search (see Findings): as written, except that a found row is decoded by the corrected decoder. |
| `Exact.DecodeNeverReportsNoRows` | src/bin/search/exact.rs:13-17 | A decode error never poses as "no rows". |
| `Exact.FoundAttributeIsQuery` | src/bin/search/exact.rs:7-14 | For the search as written and for the corrected search alike, at most one package is returned, and its attribute is the query. |
| `Exact.StoredRowFound` | src/bin/search/exact.rs:7-14 | The search as written finds a stored row in a release build, even when it has no store path. The corrected search finds it in either build. |
| `Exact.AsWrittenDebugSearchFails` | src/bin/search/exact.rs:7-16 | As written, a debug build fails with `InvalidColumnName("score")` on every stored row it finds. The corrected search returns the row. |
| `Exact.ReleaseSearchUnchanged` | src/bin/search/exact.rs:6-18 | In release builds the search as written and the corrected search agree. |
| `Index.InsertMatchesSchema` | src/bin/index/main.rs:76-77 | The INSERT names exactly the schema's columns. Placeholder `i` fills column `i`, and the stored row is a well-formed row under its attribute. |
| `Index.StoredRecordRoundTrip` | src/bin/index/main.rs:94-102 | An inserted record decodes back to itself, with no `score` and `present` unset. |
| `Index.InsertAll` | src/bin/index/main.rs:82-106 | The insert loop stops at the first failing row. Its result is the rows inserted one by one. |
| `Index.InsertEachOk` | src/bin/index/main.rs:82-106 | Every insert succeeds exactly when the attributes are new and pairwise distinct. |
| `Index.InsertEachContents` | src/bin/index/main.rs:82-106 | After success, the table holds the old rows plus exactly one row per record, under its attribute. |
| `Index.InsertStopsAtFirstConflict` | src/bin/index/main.rs:85-105 | The first record whose attribute is taken ends the loop with a primary-key conflict on that attribute. |
| `Index.FreshTable` | src/bin/index/main.rs:66-106 | Filling the freshly created table gives a well-formed table with one row per record. |
| `Index.BuiltTable` | src/bin/index/main.rs:82-106 | In any iteration order, the build succeeds exactly when the normalised attributes are distinct. The table then holds each registry entry's row under its attribute. |
| `Index.KeyedRecordsAlwaysBuild` | src/bin/index/main.rs:82-106 | When records keep their registry key as their attribute, the build always succeeds. Every key's record reads back through the release decoder and the corrected decoder. The debug decoder as written rejects it for lack of a `score` column. |
| `Index.NixEnvArgs` | src/bin/index/main.rs:127-147 | The arguments are the fixed seven-element prefix, with `-I nixpkgs=<nixpkgs>`. They are followed by `--arg config <cfg>` exactly when a config is given. The pushes build exactly that vector. |
| `Index.OneWriteTruncates` | src/bin/index/main.rs:175 | One write call stores all the data up to 0x7ffff000 bytes. Beyond that it stores exactly the first 0x7ffff000 bytes, so the file is not the data. |
| `Index.Host.RemoveFile` | src/bin/index/main.rs:52 | Removing a missing file is NotFound, a denied one is PermissionDenied, and otherwise only the file is gone. |
| `Index.Host.RemoveStaleIndex` | src/bin/index/main.rs:52-56 | NotFound is tolerated. Any other removal error aborts with the files unchanged. |
| `Index.Host.OpenDatabase` | src/bin/index/main.rs:58-64 | Opening creates an empty database in place of a missing or empty file. It keeps an existing database and fails on other bytes or a denied path. |
| `Index.Host.CreateTable` | src/bin/index/main.rs:66-67 | Creating the table gives an empty `packages` table, and fails when the table exists. |
| `Index.Host.InsertTransaction` | src/bin/index/main.rs:70-109 | All the rows are committed when every insert succeeds. Otherwise nothing changes. |
| `Index.Host.WriteCache` | src/bin/index/main.rs:168-177 | The cache file is created or truncated, then holds what one write call stores. A denied path fails and changes nothing. |
| `Index.Host.ReadCache` | src/bin/index/main.rs:180-186 | A readable cache file is parsed and decoded. A missing or denied one fails with "couldn't open registry file". A database file is a JSON syntax error. |
| `Index.Host.GetRegistry` | src/bin/index/main.rs:119-199 | With `nixpkgs`, the registry comes from evaluation with the arguments built above. A spawn failure or a non-zero exit writes no cache, and the cache is written only when `registry` is also given. Without `nixpkgs`, the result is exactly what reading the registry file gives. With neither, the call fails with "expected nixpkgs location or cached registry". Afterwards the files are `RegistryFiles`: the evaluation's output, as one write call stores it, is in the cache file when evaluation succeeded and the cache file could be opened; otherwise nothing changed. |
| `Index.Host.BuildIndex` | src/bin/index/main.rs:52-109 | A removal error or an open error aborts with the files unchanged. Otherwise the index file holds every inserted row, or an empty table when an insert failed. |
| `Index.Host.Run` | src/bin/index/main.rs:47-117 | A failure to get the registry is returned under "unable to get nixpkgs registry". Otherwise, for some iteration order of the registry obtained, the run succeeds exactly when the output path is writable and the normalised attributes are distinct. On success the files are those `get_registry` left, with the index file holding that registry's rows. A failure to get the registry leaves the files as `get_registry` left them. |

## Left out

- Timing and progress: `Instant` and the `println!` calls that report elapsed seconds are left out.
- Command-line parsing: `clap` is left out. `Opts` is given directly.
- `create_scalar_function` failing: it is assumed to succeed.
- Storage faults: disk full, I/O errors, a failing `commit` or a failing `transaction()` are left out. The only insert failure modelled is a primary-key conflict.
- Process details: the exit status is a boolean; signals and exit codes are not modelled. The panic on a failed evaluation is the `NixEnvFailed` outcome, which carries the raw stderr bytes; it is not decoded lossily as UTF-8.
- JSON text parsing: the parser is a parameter. Reading the registry while parsing it, as `from_reader` does, is modelled as reading the whole file first.
- Numbers: JSON numbers are integers only. Floating-point numbers are not modelled, and neither are SQLite `REAL` values beyond their type.
- serde's sequence form of structs: a struct encoded as a JSON array is not modelled.
- Which error serde reports first: when several fields are wrong, the model reports the first in declaration order, while serde reports the first in input order. Whether decoding succeeds, and its result, are the same either way.
- Index.Host.Run: how the files look after a run that fails while building the index is stated by `BuildIndex`, not by `Run`.
- Fuzzy.NonTextNameFails: the failing `fuzzy_score` call is reported as `InvalidFunctionParameterType(0)`. rusqlite passes that error back to SQLite as the function's error result, so the program receives an SQLite failure with that error's message. rusqlite is not part of this model.
- Fuzzy.Search: SQLite's row order is a precondition (`RankedOrder`), not computed.
- Index.Host.OpenDatabase: a file of non-database bytes is rejected when it is opened, whereas SQLite rejects it at the first statement. The program removes the file first, so this path is not reached.
- `src/bin/search/main.rs` is not part of this model: it holds argument parsing, the default database path, opening the connection and table or JSON rendering.
- `src/bin/search/data.rs` is not part of this model: the searches use `rippkgs::Package`, not the record it declares.
- `rippkgs/src/main.rs` is not part of this model: it is an asynchronous prototype whose query text is not shown.
- `rippkgs-index/src/main.rs` is not part of this model: it repeats the argument building of `src/bin/index/main.rs`, adding `--out-path`.
- `rippkgs-db` is not part of this model: it only declares entity structs.
- The matcher's algorithm (`SkimMatcherV2`) and `into_rippkgs_package` are not part of this model. Only their results are used.

## Findings

| source | as written | input that shows it | evidently intended | confidence | as-written member | corrected member |
|---|---|---|---|---|---|---|
| src/lib.rs:50-54 | In debug builds the decoder reads a `score` column. The exact search's `SELECT * FROM packages WHERE attribute = ?1` (src/bin/search/exact.rs:7) selects no such column, so in a debug build every exact search that finds its row fails with `InvalidColumnName("score")`. | A debug build, and a database holding the row `attribute = "hello"`, searched with the query `"hello"`. | `score` is read only when the query computes it; an exact search returns the row. | not executed | `Exact.AsWrittenDebugSearchFails` | `Packages.DecodeRowCorrected` |
