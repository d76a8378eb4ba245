/**
 * Index reconstruction of the MySQL connection (`indexes`): a `SHOW KEYS`
 * catalog query is built for the table, and the rows it returns are folded
 * into an ordered list of index definitions. A new definition is started
 * whenever the case-converted key name differs from the previous row's; every
 * row then adds one column name and one prefix length to the last definition.
 *
 * The case converters of the base connection are parameters: `forJdbc` stands
 * for `caseConvertIdentifierForJdbc` and `forRails` for
 * `caseConvertIdentifierForRails`. Running the query is the parameter
 * `executeQuery`, the catalog as a function from query text to rows.
 */
module MySQLIndexes {
  import opened Wrappers
  import opened JdbcTypes

  /** One row of `SHOW KEYS`: `subPart` is None when the driver reported SQL NULL. */
  datatype Row = Row(keyName: string, columnName: string, subPart: Option<int32>, nonUnique: bool)

  /** The host's `IndexDefinition` record. */
  datatype IndexDef = IndexDef(tableName: string, indexName: string, unique: bool,
                               columns: seq<string>, lengths: seq<Option<int32>>)

  /** The loop's state: the definitions so far and the key name of the last row seen. */
  datatype FoldState = FoldState(indexes: seq<IndexDef>, currentKeyName: Option<string>)

  // ---------------------------------------------------------------------------
  // The catalog query

  const ShowKeysPrefix: string := "SHOW KEYS FROM "
  const NonPrimaryFilter: string := " WHERE key_name != 'PRIMARY'"

  /** `schema.table` when a schema is given, the bare table name otherwise. */
  function QualifiedName(schema: Option<string>, table: string): string {
    match schema
    case None => table
    case Some(s) => s + "." + table
  }

  function ShowKeysQuery(schema: Option<string>, table: string): string {
    ShowKeysPrefix + QualifiedName(schema, table) + NonPrimaryFilter
  }

  /** The query text, built by successive appends as the connection's StringBuilder does. */
  method BuildShowKeysQuery(jdbcSchemaName: Option<string>, jdbcTableName: string) returns (query: string)
    ensures query == ShowKeysQuery(jdbcSchemaName, jdbcTableName)
  {
    query := ShowKeysPrefix;
    if jdbcSchemaName.Some? {
      query := query + jdbcSchemaName.value;
      query := query + ".";
    }
    query := query + jdbcTableName;
    query := query + NonPrimaryFilter;
  }

  /** The position of the first '.' in `s`, if any. */
  function FirstDot(s: string): (r: Option<nat>)
    ensures r.None? ==> '.' !in s
    ensures r.Some? ==> r.value < |s| && s[r.value] == '.' && '.' !in s[..r.value]
  {
    if s == [] then None
    else if s[0] == '.' then Some(0)
    else match FirstDot(s[1..])
      case None => None
      case Some(i) => assert s[..i + 1] == [s[0]] + s[1..][..i]; Some(i + 1)
  }

  /** Reads back which schema and table a `SHOW KEYS` query names. */
  function ParseShowKeysQuery(query: string): Option<(Option<string>, string)> {
    if |query| < |ShowKeysPrefix| + |NonPrimaryFilter|
       || query[..|ShowKeysPrefix|] != ShowKeysPrefix
       || query[|query| - |NonPrimaryFilter|..] != NonPrimaryFilter
    then None
    else
      var target := query[|ShowKeysPrefix|..|query| - |NonPrimaryFilter|];
      match FirstDot(target)
      case None => Some((None, target))
      case Some(i) => Some((Some(target[..i]), target[i + 1..]))
  }

  /**
   * The query always keeps the primary key out and names exactly the table
   * (and schema) it was built for: when the names carry no '.' of their own,
   * both can be read back from the text.
   */
  lemma ShowKeysQueryRoundTrip(schema: Option<string>, table: string)
    requires schema.None? ==> '.' !in table
    requires schema.Some? ==> '.' !in schema.value
    ensures ParseShowKeysQuery(ShowKeysQuery(schema, table)) == Some((schema, table))
  {
    var q := ShowKeysQuery(schema, table);
    var target := QualifiedName(schema, table);
    assert q[..|ShowKeysPrefix|] == ShowKeysPrefix;
    assert q[|q| - |NonPrimaryFilter|..] == NonPrimaryFilter;
    assert q[|ShowKeysPrefix|..|q| - |NonPrimaryFilter|] == target;
    match schema
    case None =>
    case Some(s) =>
      assert target[|s|] == '.';
      assert target[..|s|] == s;
      assert FirstDot(target) == Some(|s|);
      assert target[|s| + 1..] == table;
  }

  // ---------------------------------------------------------------------------
  // Folding the catalog rows: the specification

  /** The definition a row opens: named and flagged by that row, with no columns yet. */
  function OpenDef(row: Row, rubyTableName: string, forRails: string -> string): IndexDef {
    IndexDef(rubyTableName, forRails(row.keyName), !row.nonUnique, [], [])
  }

  /** A definition with the row's column name and prefix length pushed onto it. */
  function AddColumn(d: IndexDef, row: Row, forRails: string -> string): IndexDef {
    d.(columns := d.columns + [forRails(row.columnName)], lengths := d.lengths + [row.subPart])
  }

  /** The definitions with the row's column added to the last one. */
  function LastAdd(defs: seq<IndexDef>, row: Row, forRails: string -> string): seq<IndexDef>
    requires defs != []
  {
    defs[..|defs| - 1] + [AddColumn(defs[|defs| - 1], row, forRails)]
  }

  /**
   * One iteration of the `while (keySet.next())` loop. A row whose key differs
   * from the current one opens a definition and its column goes there; any
   * other row adds its column to the last definition when there is one (the
   * `lastIndexDef != null` guard).
   */
  function Step(st: FoldState, row: Row, rubyTableName: string, forRails: string -> string): FoldState {
    var keyName := forRails(row.keyName);
    if st.currentKeyName != Some(keyName) then
      FoldState(st.indexes + [AddColumn(OpenDef(row, rubyTableName, forRails), row, forRails)], Some(keyName))
    else if st.indexes == [] then
      st
    else
      FoldState(LastAdd(st.indexes, row, forRails), st.currentKeyName)
  }

  /**
   * The loop's state after the given rows. After every row the list is
   * non-empty, so the `lastIndexDef != null` guard always holds, and the
   * current key name is that row's.
   */
  function Fold(rows: seq<Row>, rubyTableName: string, forRails: string -> string): (st: FoldState)
    ensures rows == [] ==> st.indexes == [] && st.currentKeyName == None
    ensures rows != [] ==> st.indexes != [] && st.currentKeyName == Some(forRails(rows[|rows| - 1].keyName))
    decreases |rows|
  {
    if rows == [] then FoldState([], None)
    else Step(Fold(rows[..|rows| - 1], rubyTableName, forRails), rows[|rows| - 1], rubyTableName, forRails)
  }

  /**
   * The last row either opens a definition of its own (it is the first row,
   * or its key differs from the previous row's) or adds its column to the
   * previous last definition.
   */
  lemma FoldLastRow(rows: seq<Row>, rubyTableName: string, forRails: string -> string)
    requires rows != []
    ensures |rows| == 1 || forRails(rows[|rows| - 2].keyName) != forRails(rows[|rows| - 1].keyName) ==>
              Fold(rows, rubyTableName, forRails).indexes
              == Fold(rows[..|rows| - 1], rubyTableName, forRails).indexes
                 + [AddColumn(OpenDef(rows[|rows| - 1], rubyTableName, forRails), rows[|rows| - 1], forRails)]
    ensures |rows| > 1 && forRails(rows[|rows| - 2].keyName) == forRails(rows[|rows| - 1].keyName) ==>
              Fold(rows[..|rows| - 1], rubyTableName, forRails).indexes != [] &&
              Fold(rows, rubyTableName, forRails).indexes
              == LastAdd(Fold(rows[..|rows| - 1], rubyTableName, forRails).indexes, rows[|rows| - 1], forRails)
  {
  }

  // ---------------------------------------------------------------------------
  // Folding the catalog rows: the loop

  /**
   * The row-grouping loop of `indexes`, over the rows the query returned: one
   * definition per maximal run of equal converted key names, and every row's
   * column and length in row order.
   */
  method CollectIndexes(rows: seq<Row>, rubyTableName: string, forRails: string -> string)
    returns (indexes: seq<IndexDef>)
    ensures indexes == Fold(rows, rubyTableName, forRails).indexes
    ensures DefsMatchRuns(indexes, RunStarts(KeyNames(rows, forRails)), rows, rubyTableName, forRails)
    ensures AllColumns(indexes) == ColumnNames(rows, forRails) && AllLengths(indexes) == SubParts(rows)
    ensures forall d :: d in indexes ==>
              |d.columns| == |d.lengths| && |d.columns| > 0 && d.tableName == rubyTableName
  {
    indexes := [];
    var currentKeyName: Option<string> := None;
    var i := 0;
    while i < |rows|
      invariant 0 <= i <= |rows|
      invariant FoldState(indexes, currentKeyName) == Fold(rows[..i], rubyTableName, forRails)
    {
      var row := rows[i];
      var keyName := forRails(row.keyName);
      if currentKeyName != Some(keyName) {
        currentKeyName := Some(keyName);
        var nonUnique := row.nonUnique;
        indexes := indexes + [IndexDef(rubyTableName, keyName, !nonUnique, [], [])];
      }
      if indexes != [] {
        var lastIndexDef := indexes[|indexes| - 1];
        var columnName := forRails(row.columnName);
        lastIndexDef := lastIndexDef.(columns := lastIndexDef.columns + [columnName],
                                      lengths := lastIndexDef.lengths + [row.subPart]);
        indexes := indexes[..|indexes| - 1] + [lastIndexDef];
      }
      assert rows[..i + 1][..i] == rows[..i];
      i := i + 1;
    }
    assert rows[..i] == rows;
    FoldMatchesRuns(rows, rubyTableName, forRails);
    FoldKeepsRowOrder(rows, rubyTableName, forRails);
    FoldDefinitionsWellFormed(rows, rubyTableName, forRails);
  }

  /**
   * `indexes`: converts the names for JDBC, builds the `SHOW KEYS` query, runs
   * it and groups the rows. Every definition carries the table name as
   * converted for JDBC.
   */
  method Indexes(tableName: string, schemaName: Option<string>, forJdbc: string -> string,
                 forRails: string -> string, executeQuery: string -> seq<Row>)
    returns (indexes: seq<IndexDef>)
    ensures indexes == Fold(executeQuery(ShowKeysQuery(MapOption(schemaName, forJdbc), forJdbc(tableName))),
                            forJdbc(tableName), forRails).indexes
    ensures forall d :: d in indexes ==> d.tableName == forJdbc(tableName)
  {
    var jdbcTableName := forJdbc(tableName);
    var jdbcSchemaName := MapOption(schemaName, forJdbc);
    var rubyTableName := forJdbc(tableName);
    var query := BuildShowKeysQuery(jdbcSchemaName, jdbcTableName);
    var keySet := executeQuery(query);
    indexes := CollectIndexes(keySet, rubyTableName, forRails);
  }

  // ---------------------------------------------------------------------------
  // What the fold computes: one definition per maximal run of equal key names

  /** The key names of the rows, as converted for Rails. */
  function KeyNames(rows: seq<Row>, forRails: string -> string): (keys: seq<string>)
    ensures |keys| == |rows|
  {
    seq(|rows|, i requires 0 <= i < |rows| => forRails(rows[i].keyName))
  }

  function ColumnNames(rows: seq<Row>, forRails: string -> string): (cols: seq<string>)
    ensures |cols| == |rows|
  {
    seq(|rows|, i requires 0 <= i < |rows| => forRails(rows[i].columnName))
  }

  function SubParts(rows: seq<Row>): (lengths: seq<Option<int32>>)
    ensures |lengths| == |rows|
  {
    seq(|rows|, i requires 0 <= i < |rows| => rows[i].subPart)
  }

  /** Row `i` begins a run: it is the first row or its key differs from the previous row's. */
  predicate StartsRun(keys: seq<string>, i: nat)
    requires i < |keys|
  {
    i == 0 || keys[i] != keys[i - 1]
  }

  /** The positions at which the maximal runs of equal keys begin, in order. */
  function RunStarts(keys: seq<string>): seq<nat>
    decreases |keys|
  {
    if keys == [] then []
    else
      var n := |keys| - 1;
      RunStarts(keys[..n]) + (if StartsRun(keys, n) then [n] else [])
  }

  /** The end (exclusive) of the `j`-th run of a sequence of `n` keys. */
  function RunEnd(starts: seq<nat>, j: nat, n: nat): nat
    requires j < |starts|
  {
    if j + 1 < |starts| then starts[j + 1] else n
  }

  /** The definition a run of rows becomes: named and flagged by its first row. */
  function RunDef(run: seq<Row>, rubyTableName: string, forRails: string -> string): IndexDef
    requires run != []
  {
    IndexDef(rubyTableName, forRails(run[0].keyName), !run[0].nonUnique,
             ColumnNames(run, forRails), SubParts(run))
  }

  /** `RunStarts` lists, in increasing order, exactly the positions where a run begins. */
  lemma {:induction false} RunStartsSpec(keys: seq<string>)
    ensures forall j :: 0 <= j < |RunStarts(keys)| ==>
              RunStarts(keys)[j] < |keys| && StartsRun(keys, RunStarts(keys)[j])
    ensures forall j, k :: 0 <= j < k < |RunStarts(keys)| ==> RunStarts(keys)[j] < RunStarts(keys)[k]
    ensures forall i :: 0 <= i < |keys| && StartsRun(keys, i) ==> i in RunStarts(keys)
    ensures keys != [] ==> |RunStarts(keys)| > 0 && RunStarts(keys)[0] == 0
  {
    if keys != [] {
      var n := |keys| - 1;
      var init := keys[..n];
      RunStartsSpec(init);
      var prev := RunStarts(init);
      var starts := RunStarts(keys);
      assert StartsRun(keys, n) ==> starts == prev + [n];
      assert !StartsRun(keys, n) ==> starts == prev;
      forall j | 0 <= j < |starts| ensures starts[j] < |keys| && StartsRun(keys, starts[j]) {
        if j < |prev| {
          assert starts[j] == prev[j] && StartsRun(init, prev[j]);
        }
      }
      forall j, k | 0 <= j < k < |starts| ensures starts[j] < starts[k] {
        if k < |prev| {
          assert starts[j] == prev[j] && starts[k] == prev[k];
        } else {
          assert starts[j] == prev[j] < n;
        }
      }
      forall i | 0 <= i < |keys| && StartsRun(keys, i) ensures i in starts {
        if i < n {
          assert StartsRun(init, i);
        }
      }
      if n == 0 {
        assert starts == [0];
      } else {
        assert starts[0] == prev[0];
      }
    }
  }

  /** Every row of a run carries the key of the run's first row. */
  lemma {:induction false} RunHasOneKey(keys: seq<string>, j: nat, i: nat)
    requires j < |RunStarts(keys)|
    requires RunStarts(keys)[j] <= i < RunEnd(RunStarts(keys), j, |keys|)
    ensures i < |keys| && keys[i] == keys[RunStarts(keys)[j]]
    decreases i
  {
    var starts := RunStarts(keys);
    RunStartsSpec(keys);
    if j + 1 < |starts| {
      assert starts[j + 1] < |keys|;
    }
    if i > starts[j] {
      RunHasOneKey(keys, j, i - 1);
      assert !StartsRun(keys, i);
    }
  }

  /** The column names and prefix lengths of rows with one more row appended. */
  lemma RowListsAppend(rows: seq<Row>, row: Row, rows': seq<Row>, forRails: string -> string)
    requires rows' == rows + [row]
    ensures ColumnNames(rows', forRails) == ColumnNames(rows, forRails) + [forRails(row.columnName)]
    ensures SubParts(rows') == SubParts(rows) + [row.subPart]
  {
  }

  /** Appending a row to a run extends that run's definition by the row's column. */
  lemma RunDefAppend(run: seq<Row>, row: Row, rubyTableName: string, forRails: string -> string)
    requires run != []
    ensures RunDef(run + [row], rubyTableName, forRails) == AddColumn(RunDef(run, rubyTableName, forRails), row, forRails)
  {
  }

  /** The `j`-th definition is built from exactly the rows of the `j`-th run. */
  ghost predicate DefMatchesRun(defs: seq<IndexDef>, starts: seq<nat>, rows: seq<Row>, j: nat,
                                rubyTableName: string, forRails: string -> string)
    requires j < |defs| == |starts|
  {
    starts[j] < RunEnd(starts, j, |rows|) <= |rows| &&
    defs[j] == RunDef(rows[starts[j]..RunEnd(starts, j, |rows|)], rubyTableName, forRails)
  }

  /** There is one definition per run, each built from the rows of its run. */
  ghost predicate DefsMatchRuns(defs: seq<IndexDef>, starts: seq<nat>, rows: seq<Row>,
                                rubyTableName: string, forRails: string -> string)
  {
    |defs| == |starts| &&
    forall j :: 0 <= j < |starts| ==> DefMatchesRun(defs, starts, rows, j, rubyTableName, forRails)
  }

  /** A row that begins a run adds a definition of its own and leaves the others alone. */
  lemma NewRunKeepsMatch(defs: seq<IndexDef>, starts: seq<nat>, rows: seq<Row>, row: Row,
                         defs': seq<IndexDef>, starts': seq<nat>, rows': seq<Row>,
                         rubyTableName: string, forRails: string -> string)
    requires DefsMatchRuns(defs, starts, rows, rubyTableName, forRails)
    requires defs' == defs + [AddColumn(OpenDef(row, rubyTableName, forRails), row, forRails)]
    requires starts' == starts + [|rows|] && rows' == rows + [row]
    ensures DefsMatchRuns(defs', starts', rows', rubyTableName, forRails)
  {
    var t, f := rubyTableName, forRails;
    assert ColumnNames([row], f) == [f(row.columnName)];
    assert SubParts([row]) == [row.subPart];
    forall j | 0 <= j < |starts'|
      ensures DefMatchesRun(defs', starts', rows', j, t, f)
    {
      if j < |starts| {
        assert DefMatchesRun(defs, starts, rows, j, t, f);
        assert RunEnd(starts', j, |rows'|) == RunEnd(starts, j, |rows|);
        assert rows'[starts'[j]..RunEnd(starts', j, |rows'|)] == rows[starts[j]..RunEnd(starts, j, |rows|)];
      } else {
        assert rows'[starts'[j]..RunEnd(starts', j, |rows'|)] == [row];
      }
    }
  }

  /** A row that continues the last run adds its column to the last definition only. */
  lemma SameRunKeepsMatch(defs: seq<IndexDef>, starts: seq<nat>, rows: seq<Row>, row: Row,
                          defs': seq<IndexDef>, rows': seq<Row>,
                          rubyTableName: string, forRails: string -> string)
    requires DefsMatchRuns(defs, starts, rows, rubyTableName, forRails)
    requires starts != []
    requires defs' == LastAdd(defs, row, forRails)
    requires rows' == rows + [row]
    ensures DefsMatchRuns(defs', starts, rows', rubyTableName, forRails)
  {
    var t, f := rubyTableName, forRails;
    var m := |defs|;
    forall j | 0 <= j < |starts|
      ensures DefMatchesRun(defs', starts, rows', j, t, f)
    {
      assert DefMatchesRun(defs, starts, rows, j, t, f);
      if j < m - 1 {
        assert rows'[starts[j]..RunEnd(starts, j, |rows'|)] == rows[starts[j]..RunEnd(starts, j, |rows|)];
      } else {
        var run := rows[starts[j]..|rows|];
        assert rows'[starts[j]..RunEnd(starts, j, |rows'|)] == run + [row];
        RunDefAppend(run, row, t, f);
      }
    }
  }

  /** The run starts of all rows but the last, and the last row's effect on them. */
  lemma RunStartsLastRow(rows: seq<Row>, forRails: string -> string)
    requires rows != []
    ensures |rows| == 1 || forRails(rows[|rows| - 2].keyName) != forRails(rows[|rows| - 1].keyName) ==>
              RunStarts(KeyNames(rows, forRails)) == RunStarts(KeyNames(rows[..|rows| - 1], forRails)) + [|rows| - 1]
    ensures |rows| > 1 && forRails(rows[|rows| - 2].keyName) == forRails(rows[|rows| - 1].keyName) ==>
              RunStarts(KeyNames(rows[..|rows| - 1], forRails)) != [] &&
              RunStarts(KeyNames(rows, forRails)) == RunStarts(KeyNames(rows[..|rows| - 1], forRails))
  {
    var n := |rows| - 1;
    var keys := KeyNames(rows, forRails);
    assert KeyNames(rows[..n], forRails) == keys[..n];
    RunStartsSpec(keys[..n]);
  }

  /** One more row keeps definitions and runs in step, whether it opens a run or continues one. */
  lemma RowKeepsMatch(defs: seq<IndexDef>, starts: seq<nat>, rows: seq<Row>, row: Row,
                      defs': seq<IndexDef>, starts': seq<nat>, rows': seq<Row>, opens: bool,
                      rubyTableName: string, forRails: string -> string)
    requires DefsMatchRuns(defs, starts, rows, rubyTableName, forRails)
    requires rows' == rows + [row]
    requires opens ==> defs' == defs + [AddColumn(OpenDef(row, rubyTableName, forRails), row, forRails)]
                       && starts' == starts + [|rows|]
    requires !opens ==> starts != [] && starts' == starts && defs != [] && defs' == LastAdd(defs, row, forRails)
    ensures DefsMatchRuns(defs', starts', rows', rubyTableName, forRails)
  {
    if opens {
      NewRunKeepsMatch(defs, starts, rows, row, defs', starts', rows', rubyTableName, forRails);
    } else {
      SameRunKeepsMatch(defs, starts, rows, row, defs', rows', rubyTableName, forRails);
    }
  }

  /**
   * The fold yields one definition per maximal run of rows with equal
   * converted key names, in row order: the `j`-th definition is built from
   * exactly the rows of the `j`-th run. A key name that comes back after a
   * different one begins a new run, so it gets a second definition.
   */
  lemma {:induction false} FoldMatchesRuns(rows: seq<Row>, rubyTableName: string, forRails: string -> string)
    ensures DefsMatchRuns(Fold(rows, rubyTableName, forRails).indexes, RunStarts(KeyNames(rows, forRails)),
                          rows, rubyTableName, forRails)
  {
    if rows != [] {
      var t, f := rubyTableName, forRails;
      var n := |rows| - 1;
      var prev, row := rows[..n], rows[n];
      FoldMatchesRuns(prev, t, f);
      FoldLastRow(rows, t, f);
      RunStartsLastRow(rows, f);
      var opens := |rows| == 1 || f(rows[|rows| - 2].keyName) != f(rows[|rows| - 1].keyName);
      RowKeepsMatch(Fold(prev, t, f).indexes, RunStarts(KeyNames(prev, f)), prev, row,
                    Fold(rows, t, f).indexes, RunStarts(KeyNames(rows, f)), rows, opens, t, f);
    }
  }

  /** Each definition is named by the converted key of the first row of its run. */
  lemma FoldNamesRunKeys(rows: seq<Row>, rubyTableName: string, forRails: string -> string)
    ensures var defs := Fold(rows, rubyTableName, forRails).indexes;
            var starts := RunStarts(KeyNames(rows, forRails));
            |defs| == |starts| &&
            forall j :: 0 <= j < |defs| ==> starts[j] < |rows| && defs[j].indexName == KeyNames(rows, forRails)[starts[j]]
  {
    var defs := Fold(rows, rubyTableName, forRails).indexes;
    var starts := RunStarts(KeyNames(rows, forRails));
    FoldMatchesRuns(rows, rubyTableName, forRails);
    forall j | 0 <= j < |defs| ensures starts[j] < |rows| && defs[j].indexName == KeyNames(rows, forRails)[starts[j]] {
      assert DefMatchesRun(defs, starts, rows, j, rubyTableName, forRails);
    }
  }

  /** A key never comes back once a different key has followed it: each index's rows come together. */
  predicate KeysGrouped(keys: seq<string>) {
    forall i, j, k :: 0 <= i < j < k < |keys| && keys[i] == keys[k] ==> keys[j] == keys[i]
  }

  /**
   * When the catalog returns each index's rows together, no two definitions
   * share a name: there is one definition per distinct index name.
   */
  lemma GroupedKeysGiveDistinctNames(rows: seq<Row>, rubyTableName: string, forRails: string -> string)
    requires KeysGrouped(KeyNames(rows, forRails))
    ensures var defs := Fold(rows, rubyTableName, forRails).indexes;
            forall j, k :: 0 <= j < k < |defs| ==> defs[j].indexName != defs[k].indexName
  {
    var defs := Fold(rows, rubyTableName, forRails).indexes;
    var keys := KeyNames(rows, forRails);
    var starts := RunStarts(keys);
    FoldNamesRunKeys(rows, rubyTableName, forRails);
    RunStartsSpec(keys);
    forall j, k | 0 <= j < k < |defs| ensures defs[j].indexName != defs[k].indexName {
      var a, b := starts[j], starts[k];
      assert a < b && StartsRun(keys, b);
      assert keys[b] != keys[b - 1];
    }
  }

  /**
   * Conversely, distinct names need grouped rows: when a key comes back after a
   * different one, two definitions carry the same name.
   */
  lemma DistinctNamesNeedGroupedKeys(rows: seq<Row>, rubyTableName: string, forRails: string -> string)
    requires var defs := Fold(rows, rubyTableName, forRails).indexes;
             forall j, k :: 0 <= j < k < |defs| ==> defs[j].indexName != defs[k].indexName
    ensures KeysGrouped(KeyNames(rows, forRails))
  {
    var defs := Fold(rows, rubyTableName, forRails).indexes;
    var keys := KeyNames(rows, forRails);
    var starts := RunStarts(keys);
    FoldNamesRunKeys(rows, rubyTableName, forRails);
    forall i, j, k | 0 <= i < j < k < |keys| && keys[i] == keys[k] ensures keys[j] == keys[i] {
      RowInSomeRun(keys, i);
      var a :| 0 <= a < |starts| && starts[a] <= i < RunEnd(starts, a, |keys|);
      RowInSomeRun(keys, k);
      var b :| 0 <= b < |starts| && starts[b] <= k < RunEnd(starts, b, |keys|);
      RunHasOneKey(keys, a, i);
      RunHasOneKey(keys, b, k);
      assert defs[a].indexName == defs[b].indexName;
      RunHasOneKey(keys, a, j);
    }
  }

  /** Every row lies in some run. */
  lemma {:induction false} RowInSomeRun(keys: seq<string>, i: nat)
    requires i < |keys|
    ensures exists j :: 0 <= j < |RunStarts(keys)| &&
              RunStarts(keys)[j] <= i < RunEnd(RunStarts(keys), j, |keys|)
  {
    var starts := RunStarts(keys);
    RunStartsSpec(keys);
    if StartsRun(keys, i) {
      var j :| 0 <= j < |starts| && starts[j] == i;
      assert j + 1 < |starts| ==> starts[j] < starts[j + 1];
      assert starts[j] <= i < RunEnd(starts, j, |keys|);
    } else {
      RowInSomeRun(keys, i - 1);
      var j :| 0 <= j < |starts| && starts[j] <= i - 1 < RunEnd(starts, j, |keys|);
      assert starts[j] <= i < RunEnd(starts, j, |keys|);
    }
  }

  /** The names of the definitions are exactly the rows' converted key names. */
  lemma FoldNamesAreKeys(rows: seq<Row>, rubyTableName: string, forRails: string -> string)
    ensures (set d | d in Fold(rows, rubyTableName, forRails).indexes :: d.indexName)
            == (set i | 0 <= i < |rows| :: forRails(rows[i].keyName))
  {
    var defs := Fold(rows, rubyTableName, forRails).indexes;
    var keys := KeyNames(rows, forRails);
    var starts := RunStarts(keys);
    FoldNamesRunKeys(rows, rubyTableName, forRails);
    var names := set d | d in defs :: d.indexName;
    var rowKeys := set i | 0 <= i < |rows| :: forRails(rows[i].keyName);
    forall x | x in names ensures x in rowKeys {
      var d :| d in defs && d.indexName == x;
      var j :| 0 <= j < |defs| && defs[j] == d;
      assert x == forRails(rows[starts[j]].keyName);
    }
    forall x | x in rowKeys ensures x in names {
      var i :| 0 <= i < |rows| && forRails(rows[i].keyName) == x;
      RowInSomeRun(keys, i);
      var j :| 0 <= j < |starts| && starts[j] <= i < RunEnd(starts, j, |keys|);
      RunHasOneKey(keys, j, i);
      assert defs[j] in defs;
    }
  }

  // ---------------------------------------------------------------------------
  // Columns and lengths

  /** All column names of the definitions, definition after definition. */
  function AllColumns(defs: seq<IndexDef>): seq<string> {
    if defs == [] then [] else AllColumns(defs[..|defs| - 1]) + defs[|defs| - 1].columns
  }

  /** All prefix lengths of the definitions, definition after definition. */
  function AllLengths(defs: seq<IndexDef>): seq<Option<int32>> {
    if defs == [] then [] else AllLengths(defs[..|defs| - 1]) + defs[|defs| - 1].lengths
  }

  /**
   * Every row contributes exactly one column and one length, in row order: read
   * definition after definition, the columns are the rows' converted column
   * names and the lengths their `sub_part` values (None exactly for SQL NULL).
   * So the total number of columns is the number of rows.
   */
  lemma {:induction false} FoldKeepsRowOrder(rows: seq<Row>, rubyTableName: string, forRails: string -> string)
    ensures AllColumns(Fold(rows, rubyTableName, forRails).indexes) == ColumnNames(rows, forRails)
    ensures AllLengths(Fold(rows, rubyTableName, forRails).indexes) == SubParts(rows)
    ensures |AllColumns(Fold(rows, rubyTableName, forRails).indexes)| == |rows|
  {
    if rows != [] {
      var t, f := rubyTableName, forRails;
      var n := |rows| - 1;
      var prev, row := rows[..n], rows[n];
      FoldKeepsRowOrder(prev, t, f);
      FoldLastRow(rows, t, f);
      var defs0, defs := Fold(prev, t, f).indexes, Fold(rows, t, f).indexes;
      RowListsAppend(prev, row, rows, f);
      if n == 0 || f(rows[n - 1].keyName) != f(row.keyName) {
        FlattenAfterOpen(defs0, defs, row, t, f);
      } else {
        FlattenAfterAdd(defs0, defs, row, f);
      }
    }
  }

  /** Opening a definition for a row appends that row's column and length to the flattened lists. */
  lemma FlattenAfterOpen(defs0: seq<IndexDef>, defs: seq<IndexDef>, row: Row, rubyTableName: string, forRails: string -> string)
    requires defs == defs0 + [AddColumn(OpenDef(row, rubyTableName, forRails), row, forRails)]
    ensures AllColumns(defs) == AllColumns(defs0) + [forRails(row.columnName)]
    ensures AllLengths(defs) == AllLengths(defs0) + [row.subPart]
  {
  }

  /** Adding a row's column to the last definition appends it to the flattened lists. */
  lemma FlattenAfterAdd(defs0: seq<IndexDef>, defs: seq<IndexDef>, row: Row, forRails: string -> string)
    requires defs0 != []
    requires defs == LastAdd(defs0, row, forRails)
    ensures AllColumns(defs) == AllColumns(defs0) + [forRails(row.columnName)]
    ensures AllLengths(defs) == AllLengths(defs0) + [row.subPart]
  {
  }

  /**
   * Every definition pairs each column with one length, holds at least one
   * column and carries the table name it was built for.
   */
  lemma {:induction false} FoldDefinitionsWellFormed(rows: seq<Row>, rubyTableName: string, forRails: string -> string)
    ensures forall d :: d in Fold(rows, rubyTableName, forRails).indexes ==>
              |d.columns| == |d.lengths| && |d.columns| > 0 && d.tableName == rubyTableName
  {
    if rows != [] {
      var t, f := rubyTableName, forRails;
      var n := |rows| - 1;
      FoldDefinitionsWellFormed(rows[..n], t, f);
      FoldLastRow(rows, t, f);
      var defs0 := Fold(rows[..n], t, f).indexes;
      if defs0 != [] {
        assert defs0[|defs0| - 1] in defs0;
        forall d | d in defs0[..|defs0| - 1] ensures d in defs0 { }
      }
    }
  }

  /** Two rows of one index, the second without a prefix length, make one unique definition. */
  lemma TwoRowIndexExample(t: string, f: string -> string, k: string, c1: string, c2: string)
    ensures Fold([Row(k, c1, Some(5), false), Row(k, c2, None, false)], t, f).indexes
            == [IndexDef(t, f(k), true, [f(c1), f(c2)], [Some(5), None])]
  {
    var rows := [Row(k, c1, Some(5), false), Row(k, c2, None, false)];
    assert rows[..1] == [rows[0]];
    var st1 := Fold(rows[..1], t, f);
    assert st1 == Step(FoldState([], None), rows[0], t, f);
    assert st1.indexes == [AddColumn(OpenDef(rows[0], t, f), rows[0], f)];
    assert Fold(rows, t, f) == Step(st1, rows[1], t, f);
    var d := Fold(rows, t, f).indexes;
    assert d == [AddColumn(st1.indexes[0], rows[1], f)];
    assert d[0].columns == [] + [f(c1)] + [f(c2)] == [f(c1), f(c2)];
    assert d[0].lengths == [] + [Some(5)] + [None] == [Some(5), None];
  }

  /**
   * The query text does not quote identifiers, so a dotted table name without
   * a schema gives the same query as the schema and table it seems to name.
   */
  lemma ShowKeysQueryAmbiguous()
    ensures ShowKeysQuery(None, "a.b") == ShowKeysQuery(Some("a"), "b")
  {
  }

  /** A key name that reappears after a different one opens a second definition. */
  lemma NoDeduplication(t: string, f: string -> string, a: string, b: string)
    requires f(a) != f(b)
    ensures var defs := Fold([Row(a, "x", None, true), Row(b, "y", None, true), Row(a, "z", None, true)], t, f).indexes;
            |defs| == 3 && defs[0].indexName == defs[2].indexName == f(a) && defs[1].indexName == f(b)
  {
    var rows := [Row(a, "x", None, true), Row(b, "y", None, true), Row(a, "z", None, true)];
    assert rows[..2] == [rows[0], rows[1]];
    assert rows[..2][..1] == [rows[0]];
    var st1 := Fold(rows[..2][..1], t, f);
    assert |st1.indexes| == 1 && st1.currentKeyName == Some(f(a));
    var st2 := Fold(rows[..2], t, f);
    assert st2 == Step(st1, rows[1], t, f);
    assert |st2.indexes| == 2 && st2.currentKeyName == Some(f(b));
    assert Fold(rows, t, f) == Step(st2, rows[2], t, f);
  }
}
