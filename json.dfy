/** A parsed JSON value and the decoding rules that serde's derived `Deserialize`
    applies to it: struct fields looked up by key (unknown keys ignored, a key given
    twice rejected), `Option<T>` fields that are absent or `null` read as `None`,
    `#[serde(default)]` flags read as `false` when absent, `Vec<T>` from an array and
    `HashMap<String, T>` from an object (a repeated key keeps its last value).
    Parsing JSON text into this value is not part of the model. */
module Json {
  import opened Wrappers
  import opened Ints

  datatype Json =
    | Null
    | Bool(b: bool)
    | Number(n: int)
    | Str(s: string)
    | Array(items: seq<Json>)
    | Object(entries: seq<(string, Json)>)

  datatype DecodeError =
    | InvalidType(expected: string)
    | MissingField(field: string)
    | DuplicateField(field: string)
    | NoVariantMatched(enumName: string)

  predicate HasKey(entries: seq<(string, Json)>, key: string) {
    exists i :: 0 <= i < |entries| && entries[i].0 == key
  }

  /** `key` occurs at two different positions of the object. */
  predicate Repeated(entries: seq<(string, Json)>, key: string) {
    exists i, j :: 0 <= i < j < |entries| && entries[i].0 == key && entries[j].0 == key
  }

  /** An object repeats a key exactly when its head is that key and the tail has it
      too, or the tail repeats it. */
  lemma RepeatedStep(entries: seq<(string, Json)>, key: string)
    requires |entries| > 0
    ensures Repeated(entries, key) <==>
            (entries[0].0 == key && HasKey(entries[1..], key)) || Repeated(entries[1..], key)
  {
    var tail := entries[1..];
    assert forall i :: 0 < i < |entries| ==> entries[i] == tail[i - 1];
    if Repeated(entries, key) {
      var i, j :| 0 <= i < j < |entries| && entries[i].0 == key && entries[j].0 == key;
      if i == 0 {
        assert tail[j - 1].0 == key;
      } else {
        assert tail[i - 1].0 == key && tail[j - 1].0 == key;
      }
    }
    if entries[0].0 == key && HasKey(tail, key) {
      var j :| 0 <= j < |tail| && tail[j].0 == key;
      assert entries[0].0 == key && entries[j + 1].0 == key;
    }
    if Repeated(tail, key) {
      var i, j :| 0 <= i < j < |tail| && tail[i].0 == key && tail[j].0 == key;
      assert entries[i + 1].0 == key && entries[j + 1].0 == key;
    }
  }

  /** The value a derived struct visitor sees for field `key`: `None` when the key is
      absent, the value when the key occurs once, a duplicate-field error otherwise. */
  function Field(entries: seq<(string, Json)>, key: string): (r: Result<Option<Json>, DecodeError>)
    ensures r == Ok(None) <==> !HasKey(entries, key)
    ensures r.Ok? && r.value.Some? ==> (key, r.value.value) in entries
    ensures r.Err? ==> r.error == DuplicateField(key)
  {
    if |entries| == 0 then Ok(None)
    else
      if entries[0].0 == key then
        if HasKey(entries[1..], key) then Err(DuplicateField(key)) else Ok(Some(entries[0].1))
      else
        assert forall i :: 0 < i < |entries| ==> entries[i] == entries[1..][i - 1];
        assert HasKey(entries[1..], key) ==> HasKey(entries, key) by {
          if HasKey(entries[1..], key) {
            var i :| 0 <= i < |entries[1..]| && entries[1..][i].0 == key;
            assert entries[i + 1].0 == key;
          }
        }
        Field(entries[1..], key)
  }

  /** A field lookup fails exactly when the key is given twice. */
  lemma {:induction false} FieldRejectsRepeatedKey(entries: seq<(string, Json)>, key: string)
    ensures Field(entries, key).Err? <==> Repeated(entries, key)
    decreases |entries|
  {
    if |entries| > 0 {
      RepeatedStep(entries, key);
      FieldRejectsRepeatedKey(entries[1..], key);
    }
  }

  function DecodeString(j: Json): (r: Result<string, DecodeError>)
    ensures r.Ok? <==> j.Str?
    ensures r.Ok? ==> r.value == j.s
  {
    match j
    case Str(s) => Ok(s)
    case _ => Err(InvalidType("a string"))
  }

  function DecodeBool(j: Json): (r: Result<bool, DecodeError>)
    ensures r.Ok? <==> j.Bool?
    ensures r.Ok? ==> r.value == j.b
  {
    match j
    case Bool(b) => Ok(b)
    case _ => Err(InvalidType("a boolean"))
  }

  /** `i64`: a number within the 64-bit signed range. */
  function DecodeI64(j: Json): (r: Result<Int64, DecodeError>)
    ensures r.Ok? <==> j.Number? && I64Min <= j.n <= I64Max
    ensures r.Ok? ==> r.value == j.n
  {
    match j
    case Number(n) => if I64Min <= n <= I64Max then Ok(n) else Err(InvalidType("i64"))
    case _ => Err(InvalidType("i64"))
  }

  /** `serde_json::Value`: every JSON value is accepted as it is. */
  function DecodeValue(j: Json): Result<Json, DecodeError> {
    Ok(j)
  }

  /** An `Option<T>` field: absent or `null` is `None`, anything else decodes as `T`. */
  function OptionalField<T>(entries: seq<(string, Json)>, key: string, decode: Json -> Result<T, DecodeError>)
    : Result<Option<T>, DecodeError>
  {
    var field :- Field(entries, key);
    match field
    case None => Ok(None)
    case Some(Null) => Ok(None)
    case Some(j) =>
      var v :- decode(j);
      Ok(Some(v))
  }

  /** A `#[serde(default)] bool` field: absent is `false`; `null` is not a boolean. */
  function DefaultBoolField(entries: seq<(string, Json)>, key: string): Result<bool, DecodeError> {
    var field :- Field(entries, key);
    match field
    case None => Ok(false)
    case Some(j) => DecodeBool(j)
  }

  /** A field with neither `Option` nor a default: absence is an error. */
  function RequiredField<T>(entries: seq<(string, Json)>, key: string, decode: Json -> Result<T, DecodeError>)
    : Result<T, DecodeError>
  {
    var field :- Field(entries, key);
    match field
    case None => Err(MissingField(key))
    case Some(j) => decode(j)
  }

  /** `Vec<T>` from the items of an array, failing at the first item that does not decode. */
  function DecodeItems<T>(items: seq<Json>, decode: Json -> Result<T, DecodeError>): Result<seq<T>, DecodeError>
    decreases |items|
  {
    if |items| == 0 then Ok([])
    else
      var init :- DecodeItems(items[..|items| - 1], decode);
      var last :- decode(items[|items| - 1]);
      Ok(init + [last])
  }

  /** `HashMap<String, T>` from the members of an object, in order, failing at the first
      member whose value does not decode; a later member overwrites an earlier one. */
  function DecodeEntries<T>(entries: seq<(string, Json)>, decode: Json -> Result<T, DecodeError>)
    : Result<map<string, T>, DecodeError>
    decreases |entries|
  {
    if |entries| == 0 then Ok(map[])
    else
      var init :- DecodeEntries(entries[..|entries| - 1], decode);
      var last :- decode(entries[|entries| - 1].1);
      Ok(init[entries[|entries| - 1].0 := last])
  }

  function DecodeStringMap(j: Json): Result<map<string, string>, DecodeError> {
    match j
    case Object(entries) => DecodeEntries(entries, DecodeString)
    case _ => Err(InvalidType("a map"))
  }

  function DecodeStringList(j: Json): Result<seq<string>, DecodeError> {
    match j
    case Array(items) => DecodeItems(items, DecodeString)
    case _ => Err(InvalidType("a sequence"))
  }

  /** The keys of an object, as a set. */
  function Keys(entries: seq<(string, Json)>): set<string> {
    set i | 0 <= i < |entries| :: entries[i].0
  }

  /** An array decodes exactly when every item does, and then item by item. */
  lemma {:induction false} DecodeItemsSpec<T>(items: seq<Json>, decode: Json -> Result<T, DecodeError>)
    ensures DecodeItems(items, decode).Ok? <==> forall i :: 0 <= i < |items| ==> decode(items[i]).Ok?
    ensures DecodeItems(items, decode).Ok? ==>
              |DecodeItems(items, decode).value| == |items| &&
              forall i :: 0 <= i < |items| ==> DecodeItems(items, decode).value[i] == decode(items[i]).value
    decreases |items|
  {
    if |items| > 0 {
      var init := items[..|items| - 1];
      DecodeItemsSpec(init, decode);
      assert forall i :: 0 <= i < |init| ==> init[i] == items[i];
    }
  }

  /** An object decodes as a map exactly when every member's value decodes; the map's
      keys are the object's keys and each key holds the value of its LAST occurrence. */
  lemma {:induction false} DecodeEntriesSpec<T>(entries: seq<(string, Json)>, decode: Json -> Result<T, DecodeError>)
    ensures DecodeEntries(entries, decode).Ok? <==> forall i :: 0 <= i < |entries| ==> decode(entries[i].1).Ok?
    ensures DecodeEntries(entries, decode).Ok? ==> DecodeEntries(entries, decode).value.Keys == Keys(entries)
    ensures DecodeEntries(entries, decode).Ok? ==>
              forall i :: 0 <= i < |entries| && (forall j :: i < j < |entries| ==> entries[j].0 != entries[i].0) ==>
                DecodeEntries(entries, decode).value[entries[i].0] == decode(entries[i].1).value
    decreases |entries|
  {
    if |entries| > 0 {
      var n := |entries| - 1;
      var init := entries[..n];
      DecodeEntriesSpec(init, decode);
      assert forall i :: 0 <= i < |init| ==> init[i] == entries[i];
      assert Keys(entries) == Keys(init) + {entries[n].0} by {
        forall k | k in Keys(entries) ensures k in Keys(init) + {entries[n].0} {
          var i :| 0 <= i < |entries| && entries[i].0 == k;
          if i < n { assert init[i].0 == k; }
        }
        forall k | k in Keys(init) ensures k in Keys(entries) {
          var i :| 0 <= i < |init| && init[i].0 == k;
          assert entries[i].0 == k;
        }
      }
    }
  }

  /** A key occurring once: the field sees exactly the value stored under it. */
  lemma FieldOfSingleKey(e: seq<(string, Json)>, i: nat, key: string)
    requires i < |e| && e[i].0 == key
    requires forall j :: 0 <= j < |e| && j != i ==> e[j].0 != key
    ensures Field(e, key) == Ok(Some(e[i].1))
  {
    var r := Field(e, key);
    assert HasKey(e, key);
    if r.Err? {
      FieldNotDuplicate(e, i, key);
    }
    assert r.Ok? && r.value.Some?;
    var k :| 0 <= k < |e| && e[k] == (key, r.value.value);
    assert k == i;
  }

  lemma {:induction false} FieldNotDuplicate(e: seq<(string, Json)>, i: nat, key: string)
    requires i < |e| && e[i].0 == key
    requires forall j :: 0 <= j < |e| && j != i ==> e[j].0 != key
    ensures Field(e, key).Ok?
  {
    if e[0].0 == key {
      assert i == 0;
      assert !HasKey(e[1..], key) by {
        forall j | 0 <= j < |e[1..]| ensures e[1..][j].0 != key {
          assert e[1..][j] == e[j + 1];
        }
      }
    } else {
      forall j | 0 <= j < |e[1..]| && j != i - 1 ensures e[1..][j].0 != key {
        assert e[1..][j] == e[j + 1];
      }
      FieldNotDuplicate(e[1..], i - 1, key);
    }
  }

  /** A member under another key says nothing about `key`. */
  lemma HasKeyIgnoresOtherKeys(e1: seq<(string, Json)>, e2: seq<(string, Json)>, k: string, v: Json, key: string)
    requires k != key
    ensures HasKey(e1 + [(k, v)] + e2, key) <==> HasKey(e1 + e2, key)
  {
    var withK, without := e1 + [(k, v)] + e2, e1 + e2;
    if HasKey(withK, key) {
      var i :| 0 <= i < |withK| && withK[i].0 == key;
      if i < |e1| {
        assert without[i] == e1[i];
      } else {
        assert i > |e1| && without[i - 1] == withK[i];
      }
    }
    if HasKey(without, key) {
      var i :| 0 <= i < |without| && without[i].0 == key;
      if i < |e1| {
        assert withK[i] == e1[i];
      } else {
        assert withK[i + 1] == without[i];
      }
    }
  }

  /** serde ignores members whose key is not one of the record's fields, wherever in
      the object they stand. */
  lemma {:induction false} FieldIgnoresOtherKeys(e1: seq<(string, Json)>, e2: seq<(string, Json)>, k: string,
                                                 v: Json, key: string)
    requires k != key
    ensures Field(e1 + [(k, v)] + e2, key) == Field(e1 + e2, key)
    decreases |e1|
  {
    if |e1| == 0 {
      assert e1 + [(k, v)] + e2 == [(k, v)] + e2 && e1 + e2 == e2;
      assert ([(k, v)] + e2)[1..] == e2;
    } else {
      var withK, without := e1 + [(k, v)] + e2, e1 + e2;
      assert withK[0] == e1[0] && without[0] == e1[0];
      assert withK[1..] == e1[1..] + [(k, v)] + e2;
      assert without[1..] == e1[1..] + e2;
      FieldIgnoresOtherKeys(e1[1..], e2, k, v, key);
      HasKeyIgnoresOtherKeys(e1[1..], e2, k, v, key);
    }
  }

  predicate DistinctKeys(entries: seq<(string, Json)>) {
    forall i, j :: 0 <= i < j < |entries| ==> entries[i].0 != entries[j].0
  }

  /** In an object without repeated keys every field lookup succeeds. */
  lemma {:induction false} FieldOfDistinctKeys(e: seq<(string, Json)>, key: string)
    requires DistinctKeys(e)
    ensures Field(e, key).Ok?
  {
    if HasKey(e, key) {
      var i :| 0 <= i < |e| && e[i].0 == key;
      FieldNotDuplicate(e, i, key);
    }
  }
}
