/** The fuzzy search of `src/bin/search/fuzzy.rs`: the `fuzzy_score` SQL function, the
    ranked row cursor of `SELECT *, fuzzy_score(name, ?1) as score FROM packages ORDER BY
    score DESC`, and the filter / take / collect pipeline that turns the cursor into
    at most `num_results` packages.

    The matcher (`SkimMatcherV2`, case-insensitive) and `Path::exists` are foreign and
    are parameters. SQLite's choice of row order is a parameter too: a listing of the
    table's keys that is sorted by score, highest first, as `ORDER BY score DESC`
    guarantees; rows of equal score may come in any order. */
module Fuzzy {
  import opened Wrappers
  import opened Ints
  import opened Sql
  import opened Packages

  /** `fuzzy_match(choice, pattern)` of the matcher: a score, or `None` for no match. */
  type Matcher = (string, string) -> Option<Int64>

  // ---------------------------------------------------------------------------
  // `scalar_fuzzy_score`

  /** `ctx.get::<String>(index)`: only a TEXT argument converts. */
  function ArgText(v: Value, index: nat): Result<string, Error> {
    match v
    case Text(s) => Ok(s)
    case _ => Err(InvalidFunctionParameterType(index))
  }

  /** The score of a name against the query; the equality test is exact and so
      case-sensitive, although the matcher ignores case. */
  function NameScore(choice: string, pattern: string, matcher: Matcher): Int64 {
    if choice == pattern then I64Max else matcher(choice, pattern).GetOr(0)
  }

  /** The SQL function: both arguments must be TEXT; a name equal to the query scores
      `i64::MAX`; otherwise the matcher's score, or 0 when it finds no match. */
  function ScalarFuzzyScore(choice: Value, pattern: Value, matcher: Matcher): (r: Result<Int64, Error>)
    ensures r.Ok? <==> choice.Text? && pattern.Text?
    ensures !choice.Text? ==> r == Err(InvalidFunctionParameterType(0))
    ensures choice.Text? && !pattern.Text? ==> r == Err(InvalidFunctionParameterType(1))
    ensures r.Ok? && choice.s == pattern.s ==> r.value == I64Max
    ensures r.Ok? && choice.s != pattern.s && matcher(choice.s, pattern.s).None? ==> r.value == 0
    ensures r.Ok? && choice.s != pattern.s && matcher(choice.s, pattern.s).Some? ==>
              r.value == matcher(choice.s, pattern.s).value
  {
    var c :- ArgText(choice, 0);
    var p :- ArgText(pattern, 1);
    Ok(NameScore(c, p, matcher))
  }

  /** A name equal to the query has a score no other name exceeds. */
  lemma ExactMatchScoresHighest(choice: string, query: string, matcher: Matcher)
    ensures NameScore(query, query, matcher) == I64Max
    ensures NameScore(choice, query, matcher) <= NameScore(query, query, matcher)
  {
  }

  /** The equality short-circuit does not ignore case: "Zsh" against "zsh" is scored by
      the matcher, and is 0 when the matcher finds nothing. */
  lemma EqualityIsCaseSensitive(matcher: Matcher)
    ensures NameScore("Zsh", "zsh", matcher) == matcher("Zsh", "zsh").GetOr(0)
    ensures matcher("Zsh", "zsh").None? ==> NameScore("Zsh", "zsh", matcher) == 0
  {
    assert "Zsh"[0] != "zsh"[0];
  }

  // ---------------------------------------------------------------------------
  // The ranked cursor

  /** The `name` column of a row (a column the row lacks reads as NULL). */
  function NameOf(row: Row): Value {
    if "name" in row then row["name"] else Null
  }

  /** The value of `fuzzy_score(name, ?1)` for a row whose name is TEXT. */
  function RowScore(row: Row, pattern: string, matcher: Matcher): Int64 {
    match NameOf(row)
    case Text(s) => NameScore(s, pattern, matcher)
    case _ => 0
  }

  /** The cursor's scoring is the SQL function's: `fuzzy_score(name, ?1)` gives
      `RowScore` on a TEXT name and fails on its first argument otherwise, the
      failure the cursor yields. */
  lemma CursorScores(row: Row, pattern: string, matcher: Matcher)
    ensures NameOf(row).Text? ==> ScalarFuzzyScore(NameOf(row), Text(pattern), matcher) == Ok(RowScore(row, pattern, matcher))
    ensures !NameOf(row).Text? ==> ScalarFuzzyScore(NameOf(row), Text(pattern), matcher) == Err(InvalidFunctionParameterType(0))
  {
  }

  /** `order` lists every key of `t` exactly once, highest score first. */
  predicate RankedOrder(order: seq<string>, t: Table, pattern: string, matcher: Matcher) {
    && (forall i :: 0 <= i < |order| ==> order[i] in t)
    && (forall k :: k in t ==> k in order)
    && (forall i, j :: 0 <= i < j < |order| ==> order[i] != order[j])
    && (forall i, j :: 0 <= i < j < |order| ==>
          RowScore(t[order[i]], pattern, matcher) >= RowScore(t[order[j]], pattern, matcher))
  }

  /** A row of the query: the stored columns and the computed `score`. */
  function ScoredRow(row: Row, score: Int64): Row {
    row["score" := Integer(score)]
  }

  predicate NameIsText(t: Table) {
    forall k :: k in t ==> NameOf(t[k]).Text?
  }

  /** What the mapped cursor yields, item by item. Sorting needs every row's score
      before the first row comes out, so a row whose name is not TEXT makes the very
      first step fail; otherwise each row, in score order, decoded with `Package::try_from`. */
  function Cursor(t: Table, order: seq<string>, pattern: string, matcher: Matcher, debugBuild: bool)
    : seq<Result<Package, Error>>
    requires forall i :: 0 <= i < |order| ==> order[i] in t
  {
    if !NameIsText(t) then [Err(InvalidFunctionParameterType(0))]
    else seq(|order|, i requires 0 <= i < |order| =>
               DecodeRow(ScoredRow(t[order[i]], RowScore(t[order[i]], pattern, matcher)), debugBuild))
  }

  // ---------------------------------------------------------------------------
  // filter, take, collect

  const StoreRoot := "/nix/store/"

  /** `PathBuf::from(base).join(path)`: an absolute `path` replaces the base; otherwise
      it is appended, with a separator only when the base does not end in one. */
  function JoinPath(base: string, path: string): string {
    if |path| > 0 && path[0] == '/' then path
    else if |base| == 0 || base[|base| - 1] == '/' then base + path
    else base + "/" + path
  }

  /** The stored paths are absolute, so the joined path is the store path itself; a
      relative one is looked up under the store root. */
  lemma JoinStorePath(path: string)
    ensures |path| > 0 && path[0] == '/' ==> JoinPath(StoreRoot, path) == path
    ensures (|path| == 0 || path[0] != '/') ==> JoinPath(StoreRoot, path) == StoreRoot + path
  {
  }

  /** The filter closure: an error is always let through; a package without a store
      path never is; with `filter_built`, only a package whose store path exists. */
  predicate Keep(item: Result<Package, Error>, filterBuilt: bool, pathExists: string -> bool) {
    match item
    case Err(_) => true
    case Ok(p) => p.storePath.Some? && (!filterBuilt || pathExists(JoinPath(StoreRoot, p.storePath.value)))
  }

  /** Without `filter_built`, a decoded package passes exactly when it has a store path;
      an error passes whatever `filter_built` says. */
  lemma UnfilteredKeep(p: Package, e: Error, filterBuilt: bool, pathExists: string -> bool)
    ensures Keep(Ok(p), false, pathExists) <==> p.storePath.Some?
    ensures Keep(Err(e), filterBuilt, pathExists)
  {
  }

  function Filtered(items: seq<Result<Package, Error>>, filterBuilt: bool, pathExists: string -> bool)
    : seq<Result<Package, Error>>
    decreases |items|
  {
    if |items| == 0 then []
    else (if Keep(items[0], filterBuilt, pathExists) then [items[0]] else []) + Filtered(items[1..], filterBuilt, pathExists)
  }

  /** `take(n)`. */
  function Take<T>(s: seq<T>, n: nat): seq<T> {
    if |s| <= n then s else s[..n]
  }

  /** `collect::<Result<Vec<_>, _>>()`: the first error, or every value. */
  function Collect(items: seq<Result<Package, Error>>): Result<seq<Package>, Error>
    decreases |items|
  {
    if |items| == 0 then Ok([])
    else
      match items[0]
      case Err(e) => Err(e)
      case Ok(p) =>
        var rest :- Collect(items[1..]);
        Ok([p] + rest)
  }

  /** The pipeline applied to the cursor's items. */
  function Pipeline(items: seq<Result<Package, Error>>, filterBuilt: bool, pathExists: string -> bool, n: nat)
    : Result<seq<Package>, Error>
  {
    Collect(Take(Filtered(items, filterBuilt, pathExists), n))
  }

  /** `fuzzy::search` as a function of the database: a database without the table
      fails to prepare the statement; a pipeline error is reported as a parse error. */
  function SearchSpec(db: Db, query: string, n: U32, filterBuilt: bool, pathExists: string -> bool,
                      matcher: Matcher, order: seq<string>, debugBuild: bool): Result<seq<Package>, Failure>
    requires db.packages.Some? ==> forall i :: 0 <= i < |order| ==> order[i] in db.packages.value
  {
    match db.packages
    case None => Err(Failure("preparing query", NoSuchTable("packages")))
    case Some(t) =>
      match Pipeline(Cursor(t, order, query, matcher, debugBuild), filterBuilt, pathExists, n)
      case Ok(ps) => Ok(ps)
      case Err(e) => Err(Failure("parsing results", e))
  }

  // ---------------------------------------------------------------------------
  // Facts about the pipeline

  /** Everything the filter lets through passes it and comes from the input. */
  lemma {:induction false} FilteredKeeps(items: seq<Result<Package, Error>>, filterBuilt: bool, pathExists: string -> bool)
    ensures forall j :: 0 <= j < |Filtered(items, filterBuilt, pathExists)| ==>
              Keep(Filtered(items, filterBuilt, pathExists)[j], filterBuilt, pathExists) &&
              Filtered(items, filterBuilt, pathExists)[j] in items
    ensures |Filtered(items, filterBuilt, pathExists)| <= |items|
    decreases |items|
  {
    if |items| > 0 {
      FilteredKeeps(items[1..], filterBuilt, pathExists);
      var f := Filtered(items, filterBuilt, pathExists);
      var rest := Filtered(items[1..], filterBuilt, pathExists);
      forall j | 0 <= j < |f|
        ensures Keep(f[j], filterBuilt, pathExists) && f[j] in items
      {
        if Keep(items[0], filterBuilt, pathExists) {
          if j > 0 { assert f[j] == rest[j - 1]; }
        } else {
          assert f[j] == rest[j];
        }
      }
    }
  }

  lemma {:induction false} FilteredAppend(a: seq<Result<Package, Error>>, b: seq<Result<Package, Error>>,
                                          filterBuilt: bool, pathExists: string -> bool)
    ensures Filtered(a + b, filterBuilt, pathExists) == Filtered(a, filterBuilt, pathExists) + Filtered(b, filterBuilt, pathExists)
    decreases |a|
  {
    if |a| == 0 {
      assert a + b == b;
    } else {
      var head: seq<Result<Package, Error>> := if Keep(a[0], filterBuilt, pathExists) then [a[0]] else [];
      assert (a + b)[0] == a[0];
      assert (a + b)[1..] == a[1..] + b;
      FilteredAppend(a[1..], b, filterBuilt, pathExists);
      assert Filtered(a + b, filterBuilt, pathExists) == head + Filtered(a[1..] + b, filterBuilt, pathExists);
      assert Filtered(a, filterBuilt, pathExists) == head + Filtered(a[1..], filterBuilt, pathExists);
      assert head + (Filtered(a[1..], filterBuilt, pathExists) + Filtered(b, filterBuilt, pathExists))
          == (head + Filtered(a[1..], filterBuilt, pathExists)) + Filtered(b, filterBuilt, pathExists);
    }
  }

  /** A passing item `i` sits in the filtered stream right after the passing items
      before it. */
  lemma FilteredPosition(items: seq<Result<Package, Error>>, filterBuilt: bool, pathExists: string -> bool, i: nat)
    requires i < |items| && Keep(items[i], filterBuilt, pathExists)
    ensures |Filtered(items[..i], filterBuilt, pathExists)| < |Filtered(items, filterBuilt, pathExists)|
    ensures Filtered(items, filterBuilt, pathExists)[|Filtered(items[..i], filterBuilt, pathExists)|] == items[i]
  {
    assert items == items[..i] + ([items[i]] + items[i + 1..]);
    FilteredAppend(items[..i], [items[i]] + items[i + 1..], filterBuilt, pathExists);
    FilteredAppend([items[i]], items[i + 1..], filterBuilt, pathExists);
    assert Filtered([items[i]], filterBuilt, pathExists) == [items[i]] by {
      assert [items[i]][1..] == [];
    }
  }

  /** Collecting succeeds exactly when no item is an error, and then yields every value
      in order. */
  lemma {:induction false} CollectOk(items: seq<Result<Package, Error>>)
    ensures Collect(items).Ok? <==> forall j :: 0 <= j < |items| ==> items[j].Ok?
    ensures Collect(items).Ok? ==>
              |Collect(items).value| == |items| &&
              forall j :: 0 <= j < |items| ==> items[j] == Ok(Collect(items).value[j])
    decreases |items|
  {
    if |items| > 0 {
      CollectOk(items[1..]);
      assert forall j :: 0 < j < |items| ==> items[j] == items[1..][j - 1];
    }
  }

  /** Collecting stops at the first error and reports it. */
  lemma {:induction false} CollectFirstError(items: seq<Result<Package, Error>>, j: nat)
    requires j < |items| && items[j].Err?
    requires forall k :: 0 <= k < j ==> items[k].Ok?
    ensures Collect(items) == Err(items[j].error)
    decreases j
  {
    if j > 0 {
      CollectFirstError(items[1..], j - 1);
    }
  }

  /** On success the pipeline returns exactly the first `n` passing items (all of them
      when fewer pass), in cursor order. */
  lemma PipelineOk(items: seq<Result<Package, Error>>, filterBuilt: bool, pathExists: string -> bool, n: nat)
    requires Pipeline(items, filterBuilt, pathExists, n).Ok?
    ensures var ps := Pipeline(items, filterBuilt, pathExists, n).value;
            var f := Filtered(items, filterBuilt, pathExists);
            && |ps| <= n
            && |ps| == (if |f| <= n then |f| else n)
            && (forall j :: 0 <= j < |ps| ==> f[j] == Ok(ps[j]))
            && (forall j :: 0 <= j < |ps| ==> Ok(ps[j]) in items && Keep(Ok(ps[j]), filterBuilt, pathExists))
  {
    var f := Filtered(items, filterBuilt, pathExists);
    FilteredKeeps(items, filterBuilt, pathExists);
    CollectOk(Take(f, n));
  }

  /** An error among the first `n` passing items, with only packages before it, is the
      pipeline's result. */
  lemma PipelineError(items: seq<Result<Package, Error>>, filterBuilt: bool, pathExists: string -> bool, n: nat, j: nat)
    requires j < n && j < |Filtered(items, filterBuilt, pathExists)|
    requires Filtered(items, filterBuilt, pathExists)[j].Err?
    requires forall k :: 0 <= k < j ==> Filtered(items, filterBuilt, pathExists)[k].Ok?
    ensures Pipeline(items, filterBuilt, pathExists, n) == Err(Filtered(items, filterBuilt, pathExists)[j].error)
  {
    var f := Filtered(items, filterBuilt, pathExists);
    CollectFirstError(Take(f, n), j);
  }

  /** Once `n` items have passed, nothing after them is looked at: an error further on
      is never seen. */
  lemma PipelineIgnoresTail(prefix: seq<Result<Package, Error>>, rest: seq<Result<Package, Error>>,
                            filterBuilt: bool, pathExists: string -> bool, n: nat)
    requires |Filtered(prefix, filterBuilt, pathExists)| >= n
    ensures Pipeline(prefix + rest, filterBuilt, pathExists, n) == Pipeline(prefix, filterBuilt, pathExists, n)
  {
    FilteredAppend(prefix, rest, filterBuilt, pathExists);
    var f := Filtered(prefix, filterBuilt, pathExists);
    var g := Filtered(rest, filterBuilt, pathExists);
    assert Take(f + g, n) == Take(f, n) by {
      if |f + g| <= n {
        assert g == [] && f + g == f;
      } else if |f| <= n {
        assert (f + g)[..n] == f;
      } else {
        assert (f + g)[..n] == f[..n];
      }
    }
  }

  /** A passing item reached before the limit is among the results, at the position
      given by the passing items before it. */
  lemma PassingItemReturned(items: seq<Result<Package, Error>>, filterBuilt: bool, pathExists: string -> bool, n: nat, i: nat)
    requires Pipeline(items, filterBuilt, pathExists, n).Ok?
    requires i < |items| && Keep(items[i], filterBuilt, pathExists)
    requires |Filtered(items[..i], filterBuilt, pathExists)| < n
    ensures |Filtered(items[..i], filterBuilt, pathExists)| < |Pipeline(items, filterBuilt, pathExists, n).value|
    ensures items[i] == Ok(Pipeline(items, filterBuilt, pathExists, n).value[|Filtered(items[..i], filterBuilt, pathExists)|])
  {
    FilteredPosition(items, filterBuilt, pathExists, i);
    PipelineOk(items, filterBuilt, pathExists, n);
  }

  // ---------------------------------------------------------------------------
  // `search`

  /** The passing items among the first `i + 1` are those among the first `i`, and
      item `i` when it passes. */
  lemma FilteredStep(items: seq<Result<Package, Error>>, filterBuilt: bool, pathExists: string -> bool, i: nat)
    requires i < |items|
    ensures Filtered(items[..i + 1], filterBuilt, pathExists)
            == Filtered(items[..i], filterBuilt, pathExists) +
               (if Keep(items[i], filterBuilt, pathExists) then [items[i]] else [])
  {
    assert items[..i + 1] == items[..i] + [items[i]];
    FilteredAppend(items[..i], [items[i]], filterBuilt, pathExists);
    assert [items[i]][1..] == [];
  }

  lemma CollectSnoc(s: seq<Result<Package, Error>>, ps: seq<Package>, p: Package)
    requires Collect(s) == Ok(ps)
    ensures Collect(s + [Ok(p)]) == Ok(ps + [p])
  {
    var t := s + [Ok(p)];
    CollectOk(s);
    assert forall j :: 0 <= j < |s| ==> t[j] == s[j];
    CollectOk(t);
    var v := Collect(t).value;
    assert v == ps + [p] by {
      forall j | 0 <= j < |v| ensures v[j] == (ps + [p])[j] {
        assert t[j] == Ok(v[j]);
      }
    }
  }

  /** A passing error reached before the limit, with only packages before it, ends the
      pipeline with that error. */
  lemma PipelineStopsAt(items: seq<Result<Package, Error>>, filterBuilt: bool, pathExists: string -> bool, n: nat, i: nat)
    requires i < |items| && items[i].Err?
    requires |Filtered(items[..i], filterBuilt, pathExists)| < n
    requires Collect(Filtered(items[..i], filterBuilt, pathExists)).Ok?
    ensures Pipeline(items, filterBuilt, pathExists, n) == Err(items[i].error)
  {
    var before := Filtered(items[..i], filterBuilt, pathExists);
    CollectOk(before);
    FilteredPosition(items, filterBuilt, pathExists, i);
    assert items == items[..i] + items[i..];
    FilteredAppend(items[..i], items[i..], filterBuilt, pathExists);
    var f := Filtered(items, filterBuilt, pathExists);
    assert forall k :: 0 <= k < |before| ==> f[k] == before[k];
    PipelineError(items, filterBuilt, pathExists, n, |before|);
  }

  /** The cursor walk: pull items until `n` packages are kept or an error passes the
      filter. */
  method RunPipeline(items: seq<Result<Package, Error>>, filterBuilt: bool, pathExists: string -> bool, n: nat)
    returns (r: Result<seq<Package>, Error>)
    ensures r == Pipeline(items, filterBuilt, pathExists, n)
  {
    var kept: seq<Package> := [];
    var i := 0;
    while i < |items| && |kept| < n
      invariant 0 <= i <= |items|
      invariant |kept| <= n
      invariant |Filtered(items[..i], filterBuilt, pathExists)| == |kept|
      invariant Collect(Filtered(items[..i], filterBuilt, pathExists)) == Ok(kept)
    {
      var item := items[i];
      FilteredStep(items, filterBuilt, pathExists, i);
      if Keep(item, filterBuilt, pathExists) {
        if item.Err? {
          PipelineStopsAt(items, filterBuilt, pathExists, n, i);
          return Err(item.error);
        }
        CollectSnoc(Filtered(items[..i], filterBuilt, pathExists), kept, item.value);
        assert Filtered(items[..i + 1], filterBuilt, pathExists)
            == Filtered(items[..i], filterBuilt, pathExists) + [Ok(item.value)];
        kept := kept + [item.value];
      } else {
        var before := Filtered(items[..i], filterBuilt, pathExists);
        assert before + [] == before;
      }
      i := i + 1;
    }
    if i == |items| {
      assert items[..i] == items;
    } else {
      assert items == items[..i] + items[i..];
      PipelineIgnoresTail(items[..i], items[i..], filterBuilt, pathExists, n);
    }
    return Ok(kept);
  }

  method Search(db: Db, query: string, n: U32, filterBuilt: bool, pathExists: string -> bool,
                matcher: Matcher, order: seq<string>, debugBuild: bool) returns (r: Result<seq<Package>, Failure>)
    requires db.packages.Some? ==> RankedOrder(order, db.packages.value, query, matcher)
    ensures r == SearchSpec(db, query, n, filterBuilt, pathExists, matcher, order, debugBuild)
  {
    if db.packages.None? {
      return Err(Failure("preparing query", NoSuchTable("packages")));
    }
    var items := Cursor(db.packages.value, order, query, matcher, debugBuild);
    var collected := RunPipeline(items, filterBuilt, pathExists, n);
    match collected
    case Ok(ps) => return Ok(ps);
    case Err(e) => return Err(Failure("parsing results", e));
  }

  // ---------------------------------------------------------------------------
  // Facts about `search`

  /** The rank of a returned package: the score of its name. */
  function Rank(p: Package, query: string, matcher: Matcher): Int64 {
    NameScore(p.name.GetOr(""), query, matcher)
  }

  /** What every package the cursor yields satisfies when no row's name is NULL. */
  predicate Decoded(p: Package, query: string, matcher: Matcher, debugBuild: bool) {
    && p.name.Some?
    && p.present == None
    && p.score == (if debugBuild then Some(Rank(p, query, matcher)) else None)
  }

  /** The packages the cursor yields, in order, have non-increasing rank. */
  predicate RankedItems(items: seq<Result<Package, Error>>, query: string, matcher: Matcher) {
    forall i, j :: 0 <= i < j < |items| && items[i].Ok? && items[j].Ok? ==>
      Rank(items[i].value, query, matcher) >= Rank(items[j].value, query, matcher)
  }

  lemma CursorItems(t: Table, order: seq<string>, query: string, matcher: Matcher, debugBuild: bool)
    requires RankedOrder(order, t, query, matcher)
    ensures var items := Cursor(t, order, query, matcher, debugBuild);
            && RankedItems(items, query, matcher)
            && forall i :: 0 <= i < |items| && items[i].Ok? ==> Decoded(items[i].value, query, matcher, debugBuild)
  {
    var items := Cursor(t, order, query, matcher, debugBuild);
    if NameIsText(t) {
      forall i | 0 <= i < |items| && items[i].Ok?
        ensures Decoded(items[i].value, query, matcher, debugBuild)
        ensures Rank(items[i].value, query, matcher) == RowScore(t[order[i]], query, matcher)
      {
        var row := t[order[i]];
        DecodeRowSpec(ScoredRow(row, RowScore(row, query, matcher)), debugBuild);
      }
    }
  }

  lemma {:induction false} FilteredRanked(items: seq<Result<Package, Error>>, filterBuilt: bool, pathExists: string -> bool,
                                          query: string, matcher: Matcher)
    requires RankedItems(items, query, matcher)
    ensures RankedItems(Filtered(items, filterBuilt, pathExists), query, matcher)
    decreases |items|
  {
    if |items| > 0 {
      var tail := items[1..];
      RankedTail(items, query, matcher);
      FilteredRanked(tail, filterBuilt, pathExists, query, matcher);
      FilteredKeeps(tail, filterBuilt, pathExists);
      var rest := Filtered(tail, filterBuilt, pathExists);
      if Keep(items[0], filterBuilt, pathExists) {
        assert Filtered(items, filterBuilt, pathExists) == [items[0]] + rest;
        RankedCons(items[0], rest, query, matcher);
      } else {
        assert Filtered(items, filterBuilt, pathExists) == rest;
      }
    }
  }

  /** A ranked sequence stays ranked without its head, and its head outranks every item after it. */
  lemma RankedTail(items: seq<Result<Package, Error>>, query: string, matcher: Matcher)
    requires |items| > 0 && RankedItems(items, query, matcher)
    ensures RankedItems(items[1..], query, matcher)
    ensures items[0].Ok? ==> forall y :: y in items[1..] && y.Ok? ==>
              Rank(items[0].value, query, matcher) >= Rank(y.value, query, matcher)
  {
    var tail := items[1..];
    forall i, j | 0 <= i < j < |tail| && tail[i].Ok? && tail[j].Ok?
      ensures Rank(tail[i].value, query, matcher) >= Rank(tail[j].value, query, matcher)
    {
      assert tail[i] == items[i + 1] && tail[j] == items[j + 1];
    }
    if items[0].Ok? {
      forall y | y in tail && y.Ok? ensures Rank(items[0].value, query, matcher) >= Rank(y.value, query, matcher) {
        var k :| 0 <= k < |tail| && tail[k] == y;
        assert items[k + 1] == y;
      }
    }
  }

  /** An item that outranks every item of a ranked sequence can head it. */
  lemma RankedCons(x: Result<Package, Error>, rest: seq<Result<Package, Error>>, query: string, matcher: Matcher)
    requires RankedItems(rest, query, matcher)
    requires x.Ok? ==> forall y :: y in rest && y.Ok? ==> Rank(x.value, query, matcher) >= Rank(y.value, query, matcher)
    ensures RankedItems([x] + rest, query, matcher)
  {
    var f := [x] + rest;
    forall i, j | 0 <= i < j < |f| && f[i].Ok? && f[j].Ok?
      ensures Rank(f[i].value, query, matcher) >= Rank(f[j].value, query, matcher)
    {
      assert f[j] == rest[j - 1];
      if i > 0 {
        assert f[i] == rest[i - 1];
      } else {
        assert f[j] in rest;
      }
    }
  }

  /** On success every returned package has a store path that exists when `filter_built`
      asks for it, has a name, has `present` unset and, in debug builds, carries its
      rank as `score`; there are at most `num_results` of them. */
  lemma SearchResultsPass(db: Db, query: string, n: U32, filterBuilt: bool, pathExists: string -> bool,
                          matcher: Matcher, order: seq<string>, debugBuild: bool)
    requires db.packages.Some? ==> RankedOrder(order, db.packages.value, query, matcher)
    requires SearchSpec(db, query, n, filterBuilt, pathExists, matcher, order, debugBuild).Ok?
    ensures var ps := SearchSpec(db, query, n, filterBuilt, pathExists, matcher, order, debugBuild).value;
            && |ps| <= n
            && forall j :: 0 <= j < |ps| ==>
                 && ps[j].storePath.Some?
                 && (filterBuilt ==> pathExists(JoinPath(StoreRoot, ps[j].storePath.value)))
                 && Decoded(ps[j], query, matcher, debugBuild)
  {
    var t := db.packages.value;
    var items := Cursor(t, order, query, matcher, debugBuild);
    CursorItems(t, order, query, matcher, debugBuild);
    PipelineOk(items, filterBuilt, pathExists, n);
  }

  /** On success the packages come highest rank first. */
  lemma SearchResultsRanked(db: Db, query: string, n: U32, filterBuilt: bool, pathExists: string -> bool,
                            matcher: Matcher, order: seq<string>, debugBuild: bool)
    requires db.packages.Some? ==> RankedOrder(order, db.packages.value, query, matcher)
    requires SearchSpec(db, query, n, filterBuilt, pathExists, matcher, order, debugBuild).Ok?
    ensures var ps := SearchSpec(db, query, n, filterBuilt, pathExists, matcher, order, debugBuild).value;
            forall i, j :: 0 <= i < j < |ps| ==> Rank(ps[i], query, matcher) >= Rank(ps[j], query, matcher)
  {
    var t := db.packages.value;
    var items := Cursor(t, order, query, matcher, debugBuild);
    CursorItems(t, order, query, matcher, debugBuild);
    FilteredRanked(items, filterBuilt, pathExists, query, matcher);
    PipelineOk(items, filterBuilt, pathExists, n);
    var ps := SearchSpec(db, query, n, filterBuilt, pathExists, matcher, order, debugBuild).value;
    var f := Filtered(items, filterBuilt, pathExists);
    forall i, j | 0 <= i < j < |ps| ensures Rank(ps[i], query, matcher) >= Rank(ps[j], query, matcher) {
      assert f[i] == Ok(ps[i]) && f[j] == Ok(ps[j]);
    }
  }

  /** A returned package named exactly as the query is preceded only by packages that
      are exact matches too. */
  lemma ExactMatchRanksFirst(db: Db, query: string, n: U32, filterBuilt: bool, pathExists: string -> bool,
                             matcher: Matcher, order: seq<string>, debugBuild: bool, j: nat)
    requires db.packages.Some? ==> RankedOrder(order, db.packages.value, query, matcher)
    requires SearchSpec(db, query, n, filterBuilt, pathExists, matcher, order, debugBuild).Ok?
    requires j < |SearchSpec(db, query, n, filterBuilt, pathExists, matcher, order, debugBuild).value|
    requires SearchSpec(db, query, n, filterBuilt, pathExists, matcher, order, debugBuild).value[j].name == Some(query)
    ensures var ps := SearchSpec(db, query, n, filterBuilt, pathExists, matcher, order, debugBuild).value;
            forall i :: 0 <= i < j ==> Rank(ps[i], query, matcher) == I64Max
  {
    SearchResultsRanked(db, query, n, filterBuilt, pathExists, matcher, order, debugBuild);
  }

  /** A row whose name is not TEXT fails the whole search as soon as one item is
      pulled, whatever the filter; with a limit of 0 no item is pulled and the result
      is empty. */
  lemma NonTextNameFails(db: Db, query: string, n: U32, filterBuilt: bool, pathExists: string -> bool,
                         matcher: Matcher, order: seq<string>, debugBuild: bool, k: string)
    requires db.packages.Some? && RankedOrder(order, db.packages.value, query, matcher)
    requires k in db.packages.value && !NameOf(db.packages.value[k]).Text?
    ensures n > 0 ==> SearchSpec(db, query, n, filterBuilt, pathExists, matcher, order, debugBuild)
                      == Err(Failure("parsing results", InvalidFunctionParameterType(0)))
    ensures n == 0 ==> SearchSpec(db, query, n, filterBuilt, pathExists, matcher, order, debugBuild) == Ok([])
  {
    var items := Cursor(db.packages.value, order, query, matcher, debugBuild);
    var failed: seq<Result<Package, Error>> := [Err(InvalidFunctionParameterType(0))];
    assert items == failed;
    assert failed[1..] == [];
  }

  /** A limit of 0 never pulls an item, so it never fails once the table exists. */
  lemma ZeroLimitIsEmpty(db: Db, query: string, filterBuilt: bool, pathExists: string -> bool,
                         matcher: Matcher, order: seq<string>, debugBuild: bool)
    requires db.packages.Some? && RankedOrder(order, db.packages.value, query, matcher)
    ensures SearchSpec(db, query, 0, filterBuilt, pathExists, matcher, order, debugBuild) == Ok([])
  {
  }

  /** Without the table the statement cannot be prepared. */
  lemma MissingTableFails(query: string, n: U32, filterBuilt: bool, pathExists: string -> bool,
                          matcher: Matcher, order: seq<string>, debugBuild: bool)
    ensures SearchSpec(Db(None), query, n, filterBuilt, pathExists, matcher, order, debugBuild)
            == Err(Failure("preparing query", NoSuchTable("packages")))
  {
  }
}
