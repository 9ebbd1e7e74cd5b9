/** The canonical package record of `src/lib.rs`, the `packages` table it is stored
    in, its decoding from a result row, and its serde (de)serialisation, where every
    `None` field is left out of the output. */
module Packages {
  import opened Wrappers
  import opened Ints
  import opened Sql
  import J = Json

  datatype Package = Package(
    attribute: string,
    name: Option<string>,
    version: Option<string>,
    storePath: Option<string>,
    description: Option<string>,
    longDescription: Option<string>,
    score: Option<Int64>,
    present: Option<bool>)

  // ---------------------------------------------------------------------------
  // The schema created by `Package::create_table`

  datatype Column = Column(name: string, notNull: bool)

  datatype TableSchema = TableSchema(name: string, columns: seq<Column>, primaryKey: string)

  const PackagesTable := TableSchema(
    "packages",
    [ Column("attribute", true),
      Column("name", false),
      Column("version", false),
      Column("storePath", false),
      Column("description", false),
      Column("long_description", false) ],
    "attribute")

  function ColumnNames(schema: TableSchema): set<string> {
    set i | 0 <= i < |schema.columns| :: schema.columns[i].name
  }

  /** The schema's columns, written out. */
  lemma PackagesColumns()
    ensures ColumnNames(PackagesTable) == {"attribute", "name", "version", "storePath", "description", "long_description"}
    ensures PackagesTable.primaryKey in ColumnNames(PackagesTable)
  {
    var cols := PackagesTable.columns;
    assert cols[0].name == "attribute" && cols[1].name == "name" && cols[2].name == "version";
    assert cols[3].name == "storePath" && cols[4].name == "description" && cols[5].name == "long_description";
  }

  /** A row of `SELECT * FROM packages` stored under primary key `key`: exactly the
      schema's columns, the NOT NULL key column holding the key as TEXT. */
  predicate StoredRow(row: Row, key: string) {
    row.Keys == ColumnNames(PackagesTable) && "attribute" in row && row["attribute"] == Text(key)
  }

  predicate WellFormedTable(t: Table) {
    forall k :: k in t ==> StoredRow(t[k], k)
  }

  // ---------------------------------------------------------------------------
  // `TryFrom<&Row> for Package`

  /** Columns are read in the order of the source, the first failing read failing the
      whole decode; `score` is read only in debug builds and `present` is never set. */
  function DecodeRow(row: Row, debugBuild: bool): Result<Package, Error> {
    var attribute :- GetText(row, "attribute");
    var storePath :- GetOptText(row, "storePath");
    var name :- GetOptText(row, "name");
    var version :- GetOptText(row, "version");
    var description :- GetOptText(row, "description");
    var longDescription :- GetOptText(row, "long_description");
    var score :- if debugBuild then GetOptInt(row, "score") else Ok(None);
    Ok(Package(attribute, name, version, storePath, description, longDescription, score, None))
  }

  predicate TextOrNull(row: Row, column: string) {
    column in row && (row[column].Null? || row[column].Text?)
  }

  function TextValue(v: Value): Option<string> {
    if v.Text? then Some(v.s) else None
  }

  function IntValue(v: Value): Option<Int64> {
    if v.Integer? then Some(v.i) else None
  }

  /** Every column the decoder reads is present with a type it converts. */
  predicate Decodable(row: Row, debugBuild: bool) {
    && "attribute" in row && row["attribute"].Text?
    && TextOrNull(row, "storePath")
    && TextOrNull(row, "name")
    && TextOrNull(row, "version")
    && TextOrNull(row, "description")
    && TextOrNull(row, "long_description")
    && (debugBuild ==> "score" in row && (row["score"].Null? || row["score"].Integer?))
  }

  /** Decoding succeeds exactly when every read does, and then copies each column into
      the field of the same name; `present` stays `None`; `score` is `None` in release
      builds and the `score` column in debug builds. */
  lemma DecodeRowSpec(row: Row, debugBuild: bool)
    ensures DecodeRow(row, debugBuild).Ok? <==> Decodable(row, debugBuild)
    ensures DecodeRow(row, debugBuild).Ok? ==>
      var p := DecodeRow(row, debugBuild).value;
      && p.attribute == row["attribute"].s
      && p.storePath == TextValue(row["storePath"])
      && p.name == TextValue(row["name"])
      && p.version == TextValue(row["version"])
      && p.description == TextValue(row["description"])
      && p.longDescription == TextValue(row["long_description"])
      && p.present == None
      && p.score == (if debugBuild then IntValue(row["score"]) else None)
  {
  }

  /** In a release build the decoder reads exactly the schema's columns: columns outside
      the schema do not matter, and a row missing any schema column fails to decode. */
  lemma DecodeReadsSchemaColumns(row: Row, column: string)
    requires column in ColumnNames(PackagesTable)
    ensures DecodeRow(row, false) == DecodeRow(map c | c in row && c in ColumnNames(PackagesTable) :: row[c], false)
    ensures DecodeRow(row - {column}, false).Err?
  {
    PackagesColumns();
  }

  /** Every stored row whose nullable columns hold TEXT or NULL decodes in a release build. */
  lemma StoredRowsDecode(row: Row, key: string)
    requires StoredRow(row, key)
    requires forall c :: c in row ==> row[c].Null? || row[c].Text?
    ensures DecodeRow(row, false).Ok? && DecodeRow(row, false).value.attribute == key
  {
    PackagesColumns();
  }

  /** The decoder as evidently intended: in debug builds `score` is read when the query
      computes it and is `None` otherwise, as in release builds. */
  function DecodeRowCorrected(row: Row, debugBuild: bool): (r: Result<Package, Error>)
    ensures "score" in row ==> r == DecodeRow(row, debugBuild)
    ensures !debugBuild ==> r == DecodeRow(row, debugBuild)
    ensures "score" !in row ==> r == DecodeRow(row, false)
  {
    var attribute :- GetText(row, "attribute");
    var storePath :- GetOptText(row, "storePath");
    var name :- GetOptText(row, "name");
    var version :- GetOptText(row, "version");
    var description :- GetOptText(row, "description");
    var longDescription :- GetOptText(row, "long_description");
    var score :- if debugBuild && "score" in row then GetOptInt(row, "score") else Ok(None);
    Ok(Package(attribute, name, version, storePath, description, longDescription, score, None))
  }

  /** As written, a debug build cannot decode a stored row: `SELECT * FROM packages`
      has no `score` column, so the read of `score` fails. */
  lemma DebugDecodeOfStoredRowFails(row: Row, key: string)
    requires StoredRow(row, key)
    requires forall c :: c in row ==> row[c].Null? || row[c].Text?
    ensures DecodeRow(row, true) == Err(InvalidColumnName("score"))
    ensures DecodeRowCorrected(row, true).Ok? && DecodeRowCorrected(row, true).value.attribute == key
  {
    PackagesColumns();
  }

  // ---------------------------------------------------------------------------
  // serde: `Serialize` with `skip_serializing_if = "Option::is_none"`, and `Deserialize`

  /** The members of an object built from fields in order, each field that is `None`
      left out. */
  function Members(fields: seq<(string, Option<J.Json>)>): seq<(string, J.Json)>
    decreases |fields|
  {
    if |fields| == 0 then []
    else
      (if fields[0].1.Some? then [(fields[0].0, fields[0].1.value)] else []) + Members(fields[1..])
  }

  function Encode<T>(o: Option<T>, encode: T -> J.Json): Option<J.Json> {
    match o
    case Some(v) => Some(encode(v))
    case None => None
  }

  function StrJson(s: string): J.Json { J.Str(s) }
  function IntJson(i: Int64): J.Json { J.Number(i) }
  function BoolJson(b: bool): J.Json { J.Bool(b) }

  function SerializedFields(p: Package): seq<(string, Option<J.Json>)> {
    [ ("attribute", Some(J.Str(p.attribute))),
      ("name", Encode(p.name, StrJson)),
      ("version", Encode(p.version, StrJson)),
      ("store_path", Encode(p.storePath, StrJson)),
      ("description", Encode(p.description, StrJson)),
      ("long_description", Encode(p.longDescription, StrJson)),
      ("score", Encode(p.score, IntJson)),
      ("present", Encode(p.present, BoolJson)) ]
  }

  /** Members in declaration order, under the Rust field names (no renaming). */
  function ToJson(p: Package): J.Json {
    J.Object(Members(SerializedFields(p)))
  }

  function FromJson(j: J.Json): Result<Package, J.DecodeError> {
    match j
    case Object(e) => FromMembers(e)
    case _ => Err(J.InvalidType("struct Package"))
  }

  function FromMembers(e: seq<(string, J.Json)>): Result<Package, J.DecodeError> {
    var attribute :- J.RequiredField(e, "attribute", J.DecodeString);
    var name :- J.OptionalField(e, "name", J.DecodeString);
    var version :- J.OptionalField(e, "version", J.DecodeString);
    var storePath :- J.OptionalField(e, "store_path", J.DecodeString);
    var description :- J.OptionalField(e, "description", J.DecodeString);
    var longDescription :- J.OptionalField(e, "long_description", J.DecodeString);
    var score :- J.OptionalField(e, "score", J.DecodeI64);
    var present :- J.OptionalField(e, "present", J.DecodeBool);
    Ok(Package(attribute, name, version, storePath, description, longDescription, score, present))
  }

  predicate DistinctFieldKeys(fields: seq<(string, Option<J.Json>)>) {
    forall i, j :: 0 <= i < j < |fields| ==> fields[i].0 != fields[j].0
  }

  /** A key that no field has is not a key of the built object. */
  lemma {:induction false} MembersLackKey(fields: seq<(string, Option<J.Json>)>, key: string)
    requires forall i :: 0 <= i < |fields| ==> fields[i].0 != key
    ensures !J.HasKey(Members(fields), key)
    decreases |fields|
  {
    if |fields| > 0 {
      var rest := fields[1..];
      assert forall i :: 0 <= i < |rest| ==> rest[i] == fields[i + 1];
      MembersLackKey(rest, key);
      var m := Members(fields);
      if fields[0].1.Some? {
        assert m == [(fields[0].0, fields[0].1.value)] + Members(rest);
        forall k | 0 <= k < |m| ensures m[k].0 != key {
          if k > 0 { assert m[k] == Members(rest)[k - 1]; }
        }
      } else {
        assert m == Members(rest);
      }
    }
  }

  /** Looking a field's key up in the built object finds exactly that field's value. */
  lemma {:induction false} FieldOfMembers(fields: seq<(string, Option<J.Json>)>, i: nat)
    requires DistinctFieldKeys(fields)
    requires i < |fields|
    ensures J.Field(Members(fields), fields[i].0) == Ok(fields[i].1)
    decreases |fields|
  {
    var key := fields[i].0;
    var rest := fields[1..];
    assert DistinctFieldKeys(rest) by {
      forall a, b | 0 <= a < b < |rest| ensures rest[a].0 != rest[b].0 {
        assert rest[a] == fields[a + 1] && rest[b] == fields[b + 1];
      }
    }
    if i == 0 {
      assert forall j :: 0 <= j < |rest| ==> rest[j] == fields[j + 1];
      MembersLackKey(rest, key);
    } else {
      assert rest[i - 1] == fields[i];
      FieldOfMembers(rest, i - 1);
      assert fields[0].0 != key;
      var m := Members(fields);
      if fields[0].1.Some? {
        assert m[0].0 != key && m[1..] == Members(rest);
      } else {
        assert m == Members(rest);
      }
    }
  }

  /** `attribute` is always the first member; every optional field is a member exactly
      when it is `Some`, holding the encoding of its value. */
  lemma SerializeOmitsNone(p: Package)
    ensures ToJson(p).Object? && |ToJson(p).entries| > 0
    ensures ToJson(p).entries[0] == ("attribute", J.Str(p.attribute))
    ensures J.Field(ToJson(p).entries, "attribute") == Ok(Some(J.Str(p.attribute)))
    ensures J.Field(ToJson(p).entries, "name") == Ok(Encode(p.name, StrJson))
    ensures J.Field(ToJson(p).entries, "version") == Ok(Encode(p.version, StrJson))
    ensures J.Field(ToJson(p).entries, "store_path") == Ok(Encode(p.storePath, StrJson))
    ensures J.Field(ToJson(p).entries, "description") == Ok(Encode(p.description, StrJson))
    ensures J.Field(ToJson(p).entries, "long_description") == Ok(Encode(p.longDescription, StrJson))
    ensures J.Field(ToJson(p).entries, "score") == Ok(Encode(p.score, IntJson))
    ensures J.Field(ToJson(p).entries, "present") == Ok(Encode(p.present, BoolJson))
  {
    var fields := SerializedFields(p);
    assert DistinctFieldKeys(fields);
    FieldOfMembers(fields, 0);
    FieldOfMembers(fields, 1);
    FieldOfMembers(fields, 2);
    FieldOfMembers(fields, 3);
    FieldOfMembers(fields, 4);
    FieldOfMembers(fields, 5);
    FieldOfMembers(fields, 6);
    FieldOfMembers(fields, 7);
  }

  /** A member is emitted exactly when its field is `Some`. */
  lemma SerializeKeys(p: Package)
    ensures J.HasKey(ToJson(p).entries, "attribute")
    ensures J.HasKey(ToJson(p).entries, "name") <==> p.name.Some?
    ensures J.HasKey(ToJson(p).entries, "version") <==> p.version.Some?
    ensures J.HasKey(ToJson(p).entries, "store_path") <==> p.storePath.Some?
    ensures J.HasKey(ToJson(p).entries, "description") <==> p.description.Some?
    ensures J.HasKey(ToJson(p).entries, "long_description") <==> p.longDescription.Some?
    ensures J.HasKey(ToJson(p).entries, "score") <==> p.score.Some?
    ensures J.HasKey(ToJson(p).entries, "present") <==> p.present.Some?
  {
    SerializeOmitsNone(p);
  }

  /** Deserialising what was serialised gives back the same record. */
  lemma SerializeRoundTrip(p: Package)
    ensures FromJson(ToJson(p)) == Ok(p)
  {
    SerializeOmitsNone(p);
    FromMembersOfFields(ToJson(p).entries, p);
  }

  /** An object whose members hold the encodings of a record's fields decodes to it. */
  lemma FromMembersOfFields(e: seq<(string, J.Json)>, p: Package)
    requires J.Field(e, "attribute") == Ok(Some(J.Str(p.attribute)))
    requires J.Field(e, "name") == Ok(Encode(p.name, StrJson))
    requires J.Field(e, "version") == Ok(Encode(p.version, StrJson))
    requires J.Field(e, "store_path") == Ok(Encode(p.storePath, StrJson))
    requires J.Field(e, "description") == Ok(Encode(p.description, StrJson))
    requires J.Field(e, "long_description") == Ok(Encode(p.longDescription, StrJson))
    requires J.Field(e, "score") == Ok(Encode(p.score, IntJson))
    requires J.Field(e, "present") == Ok(Encode(p.present, BoolJson))
    ensures FromMembers(e) == Ok(p)
  {
    OptionalOfEncoded(e, "name", p.name, StrJson, J.DecodeString);
    OptionalOfEncoded(e, "version", p.version, StrJson, J.DecodeString);
    OptionalOfEncoded(e, "store_path", p.storePath, StrJson, J.DecodeString);
    OptionalOfEncoded(e, "description", p.description, StrJson, J.DecodeString);
    OptionalOfEncoded(e, "long_description", p.longDescription, StrJson, J.DecodeString);
    OptionalOfEncoded(e, "score", p.score, IntJson, J.DecodeI64);
    OptionalOfEncoded(e, "present", p.present, BoolJson, J.DecodeBool);
  }

  /** An optional member holding the encoding of a value decodes back to that value. */
  lemma OptionalOfEncoded<T>(e: seq<(string, J.Json)>, key: string, o: Option<T>,
                             encode: T -> J.Json, decode: J.Json -> Result<T, J.DecodeError>)
    requires J.Field(e, key) == Ok(Encode(o, encode))
    requires o.Some? ==> !encode(o.value).Null? && decode(encode(o.value)) == Ok(o.value)
    ensures J.OptionalField(e, key, decode) == Ok(o)
  {
  }
}
