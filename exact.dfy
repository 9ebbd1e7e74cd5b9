/** The exact search of `src/bin/search/exact.rs`: a point lookup of the row whose
    `attribute` is the query, mapped three ways: a decoded row, no row, or an error. */
module Exact {
  import opened Wrappers
  import opened Sql
  import opened Packages

  /** `query_row("SELECT * FROM packages WHERE attribute = ?1", ...)` with the given row
      decoder: a database without the table fails to prepare, a missing row is
      `QueryReturnedNoRows`, a present row is decoded. */
  function QueryRow(db: Db, query: string, decode: Row -> Result<Package, Error>): Result<Package, Error> {
    match db.packages
    case None => Err(NoSuchTable("packages"))
    case Some(t) => if query in t then decode(t[query]) else Err(QueryReturnedNoRows)
  }

  /** The `match` on the lookup's result. */
  function MapResult(res: Result<Package, Error>): Result<Option<Package>, Failure> {
    match res
    case Ok(p) => Ok(Some(p))
    case Err(QueryReturnedNoRows) => Ok(None)
    case Err(e) => Err(Failure("executing query", e))
  }

  /** `exact::search` exactly as written, decoding with `Package::try_from`: a found row
      is returned decoded, no row is `None` and not an error, anything else is an error
      in context. */
  function SearchAsWritten(db: Db, query: string, debugBuild: bool): (r: Result<Option<Package>, Failure>)
    ensures db.packages.None? ==> r == Err(Failure("executing query", NoSuchTable("packages")))
    ensures db.packages.Some? && query !in db.packages.value ==> r == Ok(None)
    ensures db.packages.Some? && query in db.packages.value ==>
              match DecodeRow(db.packages.value[query], debugBuild)
              case Ok(p) => r == Ok(Some(p))
              case Err(e) => r == Err(Failure("executing query", e))
    ensures r == Ok(None) <==> db.packages.Some? && query !in db.packages.value
  {
    DecodeNeverReportsNoRows(db, query, debugBuild);
    MapResult(QueryRow(db, query, row => DecodeRow(row, debugBuild)))
  }

  /** `exact::search` with the corrected decoder: a found row is returned decoded, no row
      is `None` and not an error, anything else is an error in context. */
  function Search(db: Db, query: string, debugBuild: bool): (r: Result<Option<Package>, Failure>)
    ensures db.packages.None? ==> r == Err(Failure("executing query", NoSuchTable("packages")))
    ensures db.packages.Some? && query !in db.packages.value ==> r == Ok(None)
    ensures db.packages.Some? && query in db.packages.value ==>
              match DecodeRowCorrected(db.packages.value[query], debugBuild)
              case Ok(p) => r == Ok(Some(p))
              case Err(e) => r == Err(Failure("executing query", e))
    ensures r == Ok(None) <==> db.packages.Some? && query !in db.packages.value
  {
    DecodeNeverReportsNoRows(db, query, debugBuild);
    MapResult(QueryRow(db, query, row => DecodeRowCorrected(row, debugBuild)))
  }

  /** Decoding never produces `QueryReturnedNoRows`, so a decode error is never mistaken
      for a missing row. */
  lemma DecodeNeverReportsNoRows(db: Db, query: string, debugBuild: bool)
    ensures db.packages.Some? && query in db.packages.value ==>
              DecodeRowCorrected(db.packages.value[query], debugBuild) != Err(QueryReturnedNoRows) &&
              DecodeRow(db.packages.value[query], debugBuild) != Err(QueryReturnedNoRows)
  {
  }

  /** At most one package comes back, and its attribute is the query. */
  lemma FoundAttributeIsQuery(db: Db, query: string, debugBuild: bool)
    requires db.packages.Some? && WellFormedTable(db.packages.value)
    ensures SearchAsWritten(db, query, debugBuild).Ok? && SearchAsWritten(db, query, debugBuild).value.Some? ==>
              SearchAsWritten(db, query, debugBuild).value.value.attribute == query
    ensures Search(db, query, debugBuild).Ok? && Search(db, query, debugBuild).value.Some? ==>
              Search(db, query, debugBuild).value.value.attribute == query
  {
    if query in db.packages.value {
      var row := db.packages.value[query];
      DecodeRowSpec(row, false);
      DecodeRowSpec(row, true);
    }
  }

  /** A stored row is found by the search as written in a release build, and by the
      corrected search in either build; one without a store path is returned all the
      same: there is no store-path check. */
  lemma StoredRowFound(db: Db, query: string, debugBuild: bool)
    requires db.packages.Some? && WellFormedTable(db.packages.value) && query in db.packages.value
    requires forall c :: c in db.packages.value[query] ==> db.packages.value[query][c].Null? || db.packages.value[query][c].Text?
    ensures Search(db, query, debugBuild).Ok? && Search(db, query, debugBuild).value.Some?
    ensures var p := Search(db, query, debugBuild).value.value;
            && p.attribute == query
            && p.storePath == TextValue(db.packages.value[query]["storePath"])
            && p.score == None && p.present == None
    ensures SearchAsWritten(db, query, false) == Search(db, query, debugBuild)
  {
    var row := db.packages.value[query];
    StoredRowsDecode(row, query);
    DecodeRowSpec(row, false);
    PackagesColumns();
    assert "score" !in row;
    assert DecodeRowCorrected(row, debugBuild) == DecodeRow(row, false);
    assert Search(db, query, debugBuild) == Ok(Some(DecodeRow(row, false).value));
  }

  /** As written, a debug build fails on every stored row it finds (the decoder reads a
      `score` column the query does not select); a release build behaves as corrected. */
  lemma AsWrittenDebugSearchFails(db: Db, query: string)
    requires db.packages.Some? && WellFormedTable(db.packages.value) && query in db.packages.value
    requires forall c :: c in db.packages.value[query] ==> db.packages.value[query][c].Null? || db.packages.value[query][c].Text?
    ensures SearchAsWritten(db, query, true) == Err(Failure("executing query", InvalidColumnName("score")))
    ensures Search(db, query, true).Ok? && Search(db, query, true).value.Some?
  {
    DebugDecodeOfStoredRowFails(db.packages.value[query], query);
  }

  /** In release builds the corrected search is the search as written. */
  lemma ReleaseSearchUnchanged(db: Db, query: string)
    ensures SearchAsWritten(db, query, false) == Search(db, query, false)
  {
  }
}
