/** The raw registry records of `src/bin/index/data.rs` and the rules serde's derived
    `Deserialize` decodes them by: `#[serde(rename_all = "camelCase")]` keys, `Option`
    fields that default to `None`, `#[serde(default)]` flags that default to `false`,
    and the `#[serde(untagged)]` one-or-list enumeration. */
module RegistryData {
  import opened Wrappers
  import opened Json

  /** `#[serde(untagged)] enum OneOrList<T> { One(T), List(Vec<T>) }`. */
  datatype OneOrList<T> = One(value: T) | List(items: seq<T>)

  datatype PackageMeta = PackageMeta(
    available: Option<bool>,
    broken: bool,
    description: Option<string>,
    homepage: Option<OneOrList<string>>,
    insecure: bool,
    license: Option<Json>,
    longDescription: Option<string>,
    unfree: bool,
    unsupported: bool)

  datatype PackageInfo = PackageInfo(
    pname: Option<string>,
    version: Option<string>,
    meta: Option<PackageMeta>,
    storePaths: Option<map<string, string>>)

  // ---------------------------------------------------------------------------
  // serde's `camelCase` renaming of a snake_case field name

  function AsciiUpper(c: char): char {
    if 'a' <= c <= 'z' then (c as int - 32) as char else c
  }

  function AsciiLower(c: char): char {
    if 'A' <= c <= 'Z' then (c as int + 32) as char else c
  }

  /** serde's PascalCase field rule: each `_` is dropped and the character after it
      (and the very first character) is upper-cased. */
  function PascalCase(field: string, capitalize: bool): string
    decreases |field|
  {
    if |field| == 0 then ""
    else if field[0] == '_' then PascalCase(field[1..], true)
    else if capitalize then [AsciiUpper(field[0])] + PascalCase(field[1..], false)
    else [field[0]] + PascalCase(field[1..], false)
  }

  /** serde's camelCase field rule: the PascalCase name with its first character lower-cased. */
  function CamelCase(field: string): string {
    var pascal := PascalCase(field, true);
    if |pascal| == 0 then "" else [AsciiLower(pascal[0])] + pascal[1..]
  }

  predicate LowerAlpha(s: string) {
    forall i :: 0 <= i < |s| ==> 'a' <= s[i] <= 'z'
  }

  /** Without underscores the PascalCase rule only touches the first character. */
  lemma {:induction false} PascalCaseOfWord(field: string, capitalize: bool)
    requires LowerAlpha(field)
    ensures |PascalCase(field, capitalize)| == |field|
    ensures |field| > 0 ==> PascalCase(field, capitalize)[1..] == field[1..]
    ensures |field| > 0 ==> PascalCase(field, capitalize)[0] == if capitalize then AsciiUpper(field[0]) else field[0]
    decreases |field|
  {
    if |field| > 0 {
      PascalCaseOfWord(field[1..], false);
      if |field| > 1 {
        assert PascalCase(field[1..], false) == field[1..] by {
          assert PascalCase(field[1..], false) == [field[1]] + PascalCase(field[2..], false);
          assert field[1..] == [field[1]] + field[2..];
          PascalCaseOfWord(field[2..], false);
          if |field| > 2 {
            assert PascalCase(field[2..], false) == [field[2..][0]] + field[2..][1..];
          }
        }
      }
    }
  }

  /** A one-word lower-case field name is its own camelCase key. */
  lemma CamelCaseOfWord(field: string)
    requires LowerAlpha(field)
    ensures CamelCase(field) == field
  {
    PascalCaseOfWord(field, true);
    if |field| > 0 {
      assert field == [field[0]] + field[1..];
    }
  }

  /** An underscore splits the name: the word before it keeps its case rule and the
      word after it starts a capitalised segment. */
  lemma {:induction false} PascalCaseAtUnderscore(first: string, rest: string, capitalize: bool)
    requires '_' !in first
    ensures PascalCase(first + "_" + rest, capitalize) == PascalCase(first, capitalize) + PascalCase(rest, true)
    decreases |first|
  {
    if |first| == 0 {
      assert first + "_" + rest == "_" + rest;
      assert ("_" + rest)[1..] == rest;
    } else {
      assert (first + "_" + rest)[1..] == first[1..] + "_" + rest;
      assert (first + "_" + rest)[0] == first[0];
      PascalCaseAtUnderscore(first[1..], rest, false);
    }
  }

  /** camelCase of two lower-case words joined by an underscore. */
  lemma CamelCaseOfTwoWords(first: string, second: string)
    requires LowerAlpha(first) && LowerAlpha(second) && |first| > 0 && |second| > 0
    ensures CamelCase(first + "_" + second) == first + [AsciiUpper(second[0])] + second[1..]
  {
    var p1, p2 := [AsciiUpper(first[0])] + first[1..], [AsciiUpper(second[0])] + second[1..];
    PascalCaseOfTwoWords(first, second);
    CamelCaseOfPascal(first + "_" + second, p1 + p2);
    assert (p1 + p2)[0] == AsciiUpper(first[0]);
    assert (p1 + p2)[1..] == first[1..] + p2;
    assert AsciiLower(AsciiUpper(first[0])) == first[0];
    assert first == [first[0]] + first[1..];
  }

  /** The camelCase name from a known non-empty PascalCase name. */
  lemma CamelCaseOfPascal(field: string, pascal: string)
    requires PascalCase(field, true) == pascal && |pascal| > 0
    ensures CamelCase(field) == [AsciiLower(pascal[0])] + pascal[1..]
  {
  }

  /** PascalCase of two lower-case words joined by an underscore: both words capitalised. */
  lemma PascalCaseOfTwoWords(first: string, second: string)
    requires LowerAlpha(first) && LowerAlpha(second) && |first| > 0 && |second| > 0
    ensures PascalCase(first + "_" + second, true) ==
            [AsciiUpper(first[0])] + first[1..] + ([AsciiUpper(second[0])] + second[1..])
  {
    assert '_' !in first by {
      forall i | 0 <= i < |first| ensures first[i] != '_' { }
    }
    PascalCaseAtUnderscore(first, second, true);
    PascalCaseOfWord(first, true);
    PascalCaseOfWord(second, true);
    var p1, p2 := PascalCase(first, true), PascalCase(second, true);
    assert p1 == [p1[0]] + p1[1..];
    assert p2 == [p2[0]] + p2[1..];
  }

  /** A two-word key, given by its words, and the camelCase name it maps to. */
  lemma CamelCaseOfKey(key: string, first: string, second: string, expected: string)
    requires LowerAlpha(first) && LowerAlpha(second) && |first| > 0 && |second| > 0
    requires key == first + "_" + second
    requires expected == first + [AsciiUpper(second[0])] + second[1..]
    ensures CamelCase(key) == expected
  {
    CamelCaseOfTwoWords(first, second);
  }

  lemma CamelCaseStorePaths()
    ensures CamelCase("store_paths") == "storePaths"
  {
    CamelCaseOfKey("store_paths", "store", "paths", "storePaths");
  }

  lemma CamelCaseLongDescription()
    ensures CamelCase("long_description") == "longDescription"
  {
    CamelCaseOfKey("long_description", "long", "description", "longDescription");
  }

  // ---------------------------------------------------------------------------
  // JSON keys of the two records

  const PnameKey := "pname"
  const VersionKey := "version"
  const MetaKey := "meta"
  const StorePathsKey := "storePaths"

  const AvailableKey := "available"
  const BrokenKey := "broken"
  const DescriptionKey := "description"
  const HomepageKey := "homepage"
  const InsecureKey := "insecure"
  const LicenseKey := "license"
  const LongDescriptionKey := "longDescription"
  const UnfreeKey := "unfree"
  const UnsupportedKey := "unsupported"

  function InfoKeys(): set<string> {
    {PnameKey, VersionKey, MetaKey, StorePathsKey}
  }

  function MetaKeys(): set<string> {
    {AvailableKey, BrokenKey, DescriptionKey, HomepageKey, InsecureKey, LicenseKey,
     LongDescriptionKey, UnfreeKey, UnsupportedKey}
  }

  /** The keys serde looks for are the camelCase renderings of the Rust field names. */
  lemma InfoKeysAreCamelCase()
    ensures PnameKey == CamelCase("pname") && VersionKey == CamelCase("version")
    ensures MetaKey == CamelCase("meta") && StorePathsKey == CamelCase("store_paths")
  {
    var words := ["pname", "version", "meta"];
    forall i | 0 <= i < |words| ensures CamelCase(words[i]) == words[i] {
      assert LowerAlpha(words[i]);
      CamelCaseOfWord(words[i]);
    }
    assert CamelCase(words[0]) == words[0];
    assert CamelCase(words[1]) == words[1];
    assert CamelCase(words[2]) == words[2];
    CamelCaseStorePaths();
  }

  lemma MetaKeysAreCamelCase()
    ensures AvailableKey == CamelCase("available") && BrokenKey == CamelCase("broken")
    ensures DescriptionKey == CamelCase("description") && HomepageKey == CamelCase("homepage")
    ensures InsecureKey == CamelCase("insecure") && LicenseKey == CamelCase("license")
    ensures LongDescriptionKey == CamelCase("long_description") && UnfreeKey == CamelCase("unfree")
    ensures UnsupportedKey == CamelCase("unsupported")
  {
    MetaWordKeys();
    CamelCaseLongDescription();
  }

  lemma MetaWordKeys()
    ensures AvailableKey == CamelCase("available") && BrokenKey == CamelCase("broken")
    ensures DescriptionKey == CamelCase("description") && HomepageKey == CamelCase("homepage")
    ensures InsecureKey == CamelCase("insecure") && LicenseKey == CamelCase("license")
    ensures UnfreeKey == CamelCase("unfree") && UnsupportedKey == CamelCase("unsupported")
  {
    var words := ["available", "broken", "description", "homepage", "insecure", "license", "unfree", "unsupported"];
    forall i | 0 <= i < |words| ensures CamelCase(words[i]) == words[i] {
      assert LowerAlpha(words[i]);
      CamelCaseOfWord(words[i]);
    }
    assert CamelCase(words[0]) == words[0];
    assert CamelCase(words[1]) == words[1];
    assert CamelCase(words[2]) == words[2];
    assert CamelCase(words[3]) == words[3];
    assert CamelCase(words[4]) == words[4];
    assert CamelCase(words[5]) == words[5];
    assert CamelCase(words[6]) == words[6];
    assert CamelCase(words[7]) == words[7];
  }

  // ---------------------------------------------------------------------------
  // Decoding

  /** The untagged enumeration: `One` is tried first, then `List`; when neither
      variant accepts the value serde reports that no variant matched. */
  function DecodeOneOrList(j: Json): Result<OneOrList<string>, DecodeError> {
    match DecodeString(j)
    case Ok(s) => Ok(One(s))
    case Err(_) =>
      match DecodeStringList(j)
      case Ok(items) => Ok(List(items))
      case Err(_) => Err(NoVariantMatched("OneOrList"))
  }

  function DecodePackageMeta(j: Json): Result<PackageMeta, DecodeError> {
    match j
    case Object(e) =>
      MetaOfFields(
        OptionalField(e, AvailableKey, DecodeBool), DefaultBoolField(e, BrokenKey),
        OptionalField(e, DescriptionKey, DecodeString), OptionalField(e, HomepageKey, DecodeOneOrList),
        DefaultBoolField(e, InsecureKey), OptionalField(e, LicenseKey, DecodeValue),
        OptionalField(e, LongDescriptionKey, DecodeString), DefaultBoolField(e, UnfreeKey),
        DefaultBoolField(e, UnsupportedKey))
    case _ => Err(InvalidType("struct PackageMeta"))
  }

  /** The visitor's result from its field reads, in declaration order: the first that
      failed, or the record. */
  function MetaOfFields(available: Result<Option<bool>, DecodeError>, broken: Result<bool, DecodeError>,
                        description: Result<Option<string>, DecodeError>,
                        homepage: Result<Option<OneOrList<string>>, DecodeError>,
                        insecure: Result<bool, DecodeError>, license: Result<Option<Json>, DecodeError>,
                        longDescription: Result<Option<string>, DecodeError>, unfree: Result<bool, DecodeError>,
                        unsupported: Result<bool, DecodeError>): (r: Result<PackageMeta, DecodeError>)
    ensures r.Ok? <==> available.Ok? && broken.Ok? && description.Ok? && homepage.Ok? && insecure.Ok? &&
                       license.Ok? && longDescription.Ok? && unfree.Ok? && unsupported.Ok?
    ensures r.Ok? ==> r.value == PackageMeta(available.value, broken.value, description.value, homepage.value,
                                             insecure.value, license.value, longDescription.value,
                                             unfree.value, unsupported.value)
  {
    var available :- available;
    var broken :- broken;
    var description :- description;
    var homepage :- homepage;
    var insecure :- insecure;
    var license :- license;
    var longDescription :- longDescription;
    var unfree :- unfree;
    var unsupported :- unsupported;
    Ok(PackageMeta(available, broken, description, homepage, insecure, license, longDescription, unfree, unsupported))
  }

  function DecodePackageInfo(j: Json): Result<PackageInfo, DecodeError> {
    match j
    case Object(e) =>
      var pname :- OptionalField(e, PnameKey, DecodeString);
      var version :- OptionalField(e, VersionKey, DecodeString);
      var meta :- OptionalField(e, MetaKey, DecodePackageMeta);
      var storePaths :- OptionalField(e, StorePathsKey, DecodeStringMap);
      Ok(PackageInfo(pname, version, meta, storePaths))
    case _ => Err(InvalidType("struct PackageInfo"))
  }

  /** The registry: `HashMap<String, PackageInfo>`. */
  function DecodeRegistry(j: Json): Result<map<string, PackageInfo>, DecodeError> {
    match j
    case Object(e) => DecodeEntries(e, DecodePackageInfo)
    case _ => Err(InvalidType("a map"))
  }

  // ---------------------------------------------------------------------------
  // Properties

  /** A string is `One`, an array of strings (the empty one included) is `List` with the
      same strings in order, and nothing else decodes. */
  lemma OneOrListDecoding(j: Json)
    ensures DecodeOneOrList(j).Ok? <==> j.Str? || (j.Array? && forall i :: 0 <= i < |j.items| ==> j.items[i].Str?)
    ensures j.Str? ==> DecodeOneOrList(j) == Ok(One(j.s))
    ensures j.Array? && DecodeOneOrList(j).Ok? ==>
              DecodeOneOrList(j).value.List? &&
              |DecodeOneOrList(j).value.items| == |j.items| &&
              forall i :: 0 <= i < |j.items| ==> DecodeOneOrList(j).value.items[i] == j.items[i].s
    ensures DecodeOneOrList(Array([])) == Ok(List([]))
  {
    if j.Array? {
      DecodeItemsSpec(j.items, DecodeString);
    }
  }

  /** An unknown member anywhere in a package object does not change its decoding. */
  lemma UnknownKeysIgnored(e1: seq<(string, Json)>, e2: seq<(string, Json)>, k: string, v: Json)
    requires k !in InfoKeys()
    ensures DecodePackageInfo(Object(e1 + [(k, v)] + e2)) == DecodePackageInfo(Object(e1 + e2))
  {
    OptionalFieldIgnoresOtherKeys(e1, e2, k, v, PnameKey, DecodeString);
    OptionalFieldIgnoresOtherKeys(e1, e2, k, v, VersionKey, DecodeString);
    OptionalFieldIgnoresOtherKeys(e1, e2, k, v, MetaKey, DecodePackageMeta);
    OptionalFieldIgnoresOtherKeys(e1, e2, k, v, StorePathsKey, DecodeStringMap);
  }

  /** An unknown member anywhere in a `meta` object does not change its decoding. */
  lemma UnknownMetaKeysIgnored(e1: seq<(string, Json)>, e2: seq<(string, Json)>, k: string, v: Json)
    requires k !in MetaKeys()
    ensures DecodePackageMeta(Object(e1 + [(k, v)] + e2)) == DecodePackageMeta(Object(e1 + e2))
  {
    OptionalFieldIgnoresOtherKeys(e1, e2, k, v, AvailableKey, DecodeBool);
    DefaultBoolFieldIgnoresOtherKeys(e1, e2, k, v, BrokenKey);
    OptionalFieldIgnoresOtherKeys(e1, e2, k, v, DescriptionKey, DecodeString);
    OptionalFieldIgnoresOtherKeys(e1, e2, k, v, HomepageKey, DecodeOneOrList);
    DefaultBoolFieldIgnoresOtherKeys(e1, e2, k, v, InsecureKey);
    OptionalFieldIgnoresOtherKeys(e1, e2, k, v, LicenseKey, DecodeValue);
    OptionalFieldIgnoresOtherKeys(e1, e2, k, v, LongDescriptionKey, DecodeString);
    DefaultBoolFieldIgnoresOtherKeys(e1, e2, k, v, UnfreeKey);
    DefaultBoolFieldIgnoresOtherKeys(e1, e2, k, v, UnsupportedKey);
  }

  lemma DefaultBoolFieldIgnoresOtherKeys(e1: seq<(string, Json)>, e2: seq<(string, Json)>, k: string, v: Json,
                                         key: string)
    requires k != key
    ensures DefaultBoolField(e1 + [(k, v)] + e2, key) == DefaultBoolField(e1 + e2, key)
  {
    FieldIgnoresOtherKeys(e1, e2, k, v, key);
  }

  lemma OptionalFieldIgnoresOtherKeys<T>(e1: seq<(string, Json)>, e2: seq<(string, Json)>, k: string, v: Json,
                                         key: string, decode: Json -> Result<T, DecodeError>)
    requires k != key
    ensures OptionalField(e1 + [(k, v)] + e2, key, decode) == OptionalField(e1 + e2, key, decode)
  {
    FieldIgnoresOtherKeys(e1, e2, k, v, key);
  }

  /** An absent flag decodes to `false` and an absent optional member to `None`. */
  lemma AbsentMetaFieldsDefault(e: seq<(string, Json)>)
    ensures var r := DecodePackageMeta(Object(e));
      r.Ok? ==>
        (!HasKey(e, "available") ==> r.value.available == None) &&
        (!HasKey(e, "broken") ==> !r.value.broken) &&
        (!HasKey(e, "description") ==> r.value.description == None) &&
        (!HasKey(e, "homepage") ==> r.value.homepage == None) &&
        (!HasKey(e, "insecure") ==> !r.value.insecure) &&
        (!HasKey(e, "license") ==> r.value.license == None) &&
        (!HasKey(e, "longDescription") ==> r.value.longDescription == None) &&
        (!HasKey(e, "unfree") ==> !r.value.unfree) &&
        (!HasKey(e, "unsupported") ==> !r.value.unsupported)
  {
    AbsentOptionalField(e, AvailableKey, DecodeBool);
    AbsentDefaultBoolField(e, BrokenKey);
    AbsentOptionalField(e, DescriptionKey, DecodeString);
    AbsentOptionalField(e, HomepageKey, DecodeOneOrList);
    AbsentDefaultBoolField(e, InsecureKey);
    AbsentOptionalField(e, LicenseKey, DecodeValue);
    AbsentOptionalField(e, LongDescriptionKey, DecodeString);
    AbsentDefaultBoolField(e, UnfreeKey);
    AbsentDefaultBoolField(e, UnsupportedKey);
  }

  lemma AbsentOptionalField<T>(e: seq<(string, Json)>, key: string, decode: Json -> Result<T, DecodeError>)
    ensures !HasKey(e, key) ==> OptionalField(e, key, decode) == Ok(None)
  {
  }

  lemma AbsentDefaultBoolField(e: seq<(string, Json)>, key: string)
    ensures !HasKey(e, key) ==> DefaultBoolField(e, key) == Ok(false)
  {
  }

  /** An empty meta object decodes, with every flag false and every optional member `None`. */
  lemma EmptyMeta()
    ensures DecodePackageMeta(Object([])) == Ok(PackageMeta(None, false, None, None, false, None, None, false, false))
  {
  }

  /** The `store_paths` test: one `out` entry, every other field `None`. */
  lemma StorePathsExample()
    ensures DecodePackageInfo(Object([("storePaths", Object([("out", Str("hi"))]))]))
         == Ok(PackageInfo(None, None, None, Some(map["out" := "hi"])))
  {
    var e := [("storePaths", Object([("out", Str("hi"))]))];
    FieldOfSingleKey(e, 0, "storePaths");
    assert DecodeStringMap(Object([("out", Str("hi"))])) == Ok(map["out" := "hi"]) by {
      assert [("out", Str("hi"))][..0] == [];
    }
  }

  /** The snake_case Rust name is not a key: `store_paths` is ignored as unknown. */
  lemma SnakeCaseKeyIgnored(v: Json)
    ensures DecodePackageInfo(Object([("store_paths", v)])) == Ok(PackageInfo(None, None, None, None))
  {
    UnknownKeysIgnored([], [], "store_paths", v);
    assert [] + [("store_paths", v)] + [] == [("store_paths", v)];
  }

  /** A registry decodes exactly when every member decodes as a package, and then has
      one entry per member key. */
  lemma RegistryDecoding(e: seq<(string, Json)>)
    ensures DecodeRegistry(Object(e)).Ok? <==> forall i :: 0 <= i < |e| ==> DecodePackageInfo(e[i].1).Ok?
    ensures DecodeRegistry(Object(e)).Ok? ==> DecodeRegistry(Object(e)).value.Keys == Keys(e)
  {
    DecodeEntriesSpec(e, DecodePackageInfo);
  }
}
