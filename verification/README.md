# MySQL JDBC connection: value marshalling and index reconstruction

This project models the MySQL-specific part of the JRuby JDBC adapter's
connection class (`MySQLRubyJdbcConnection`) and proves properties of it in Dafny.
The model covers three operations:

- **`jdbcToRuby`** (`MySQLValues.JdbcToRuby`). A BOOLEAN or BIT column becomes
  Ruby `nil` when the driver reports SQL NULL. Otherwise it becomes the integer
  `1` or `0`, never a Ruby boolean. Every other JDBC type code goes to the
  generic decoder of the base connection.
- **`unmarshalKeysOrUpdateCount`** (`MySQLValues.KeysOrUpdateCount`). The
  decoded generated key is returned when it is not `nil`. Otherwise the
  statement's update count is returned as a Ruby integer.
- **`indexes`** (`MySQLIndexes.Indexes`). The table and schema names are
  converted to the JDBC case. A `SHOW KEYS FROM [schema.]table WHERE key_name !=
  'PRIMARY'` query is built by successive appends (`BuildShowKeysQuery`). Its
  rows are then folded into `IndexDefinition` records (`CollectIndexes`, a
  `while` loop over the rows). A row whose case-converted key name differs from
  the previous row's opens a new definition. Its `unique` flag is the negation
  of that row's `non_unique`. Every row then pushes its converted column name
  and its `sub_part` length (nil for SQL NULL) onto the last definition.

The loop is proved against `Fold`, a recursive left fold over the rows. `Fold`
in turn is characterised by an independent description: `RunStarts` lists the
positions where the converted key name changes. `FoldMatchesRuns` proves that
the `j`-th definition is built from exactly the rows of the `j`-th maximal run.

The collaborators the class delegates to are parameters of the model:

- the two identifier case converters (`forJdbc`, `forRails`)
- the generic decoder (`genericToRuby`)
- the result set's boolean read (`getBoolean`, with `wasNull` folded into an `Option`)
- the decoded generated key
- the statement's update count
- the catalog query's result (`executeQuery`)

## Model

| member | source | states |
|---|---|---|
| `MySQLValues.JdbcToRuby` | src/java/arjdbc/mysql/MySQLRubyJdbcConnection.java:74-81 | for BOOLEAN/BIT: nil exactly when the read was SQL NULL, otherwise Fixnum 1 for true and 0 for false, never a Ruby boolean; every other type code gives exactly the generic decoder's result |
| `MySQLValues.BooleanMarshalRoundTrip` | src/java/arjdbc/mysql/MySQLRubyJdbcConnection.java:76-78 | for BOOLEAN/BIT the SQL value (NULL, true, false) can be read back from the Ruby value, so the override loses nothing |
| `MySQLValues.KeysOrUpdateCount` | src/java/arjdbc/mysql/MySQLRubyJdbcConnection.java:66-71 | the result is never nil; it is the key when the key is not nil, and the update count as a Ruby integer when it is |
| `MySQLIndexes.BuildShowKeysQuery` | src/java/arjdbc/mysql/MySQLRubyJdbcConnection.java:109-114 | the appended text is `SHOW KEYS FROM ` then `schema.` only when a schema is present, then the table, then ` WHERE key_name != 'PRIMARY'` |
| `MySQLIndexes.ShowKeysQueryRoundTrip` | src/java/arjdbc/mysql/MySQLRubyJdbcConnection.java:109-114 | the query can be read back: the schema and table it names are exactly the ones it was built from, provided the schema (when given) has no '.', and the table has no '.' when no schema is given |
| `MySQLIndexes.ShowKeysQueryAmbiguous` | src/java/arjdbc/mysql/MySQLRubyJdbcConnection.java:110-113 | identifiers are appended unquoted, so table `a.b` without a schema gives the same query as schema `a` with table `b` |
| `MySQLIndexes.Fold` | src/java/arjdbc/mysql/MySQLRubyJdbcConnection.java:116-156 | no rows give no definitions; after any row the list is non-empty (so the `lastIndexDef != null` guard always holds) and the current key name is that row's converted key |
| `MySQLIndexes.FoldLastRow` | src/java/arjdbc/mysql/MySQLRubyJdbcConnection.java:126-155 | a row whose key differs from the previous row's (or the first row) appends a new definition holding only its column; any other row adds its column and length to the last definition and leaves the others unchanged |
| `MySQLIndexes.CollectIndexes` | src/java/arjdbc/mysql/MySQLRubyJdbcConnection.java:116-158 | the loop's list equals the fold; one definition per maximal run of equal converted keys; columns and lengths in row order; each definition has as many lengths as columns, at least one column, and the given table name |
| `MySQLIndexes.Indexes` | src/java/arjdbc/mysql/MySQLRubyJdbcConnection.java:100-158 | the result is the fold of the rows the `SHOW KEYS` query for the JDBC-cased names returns, and every definition carries the table name as converted for JDBC |
| `MySQLIndexes.RunStartsSpec` | src/java/arjdbc/mysql/MySQLRubyJdbcConnection.java:124-130 | the run starts are strictly increasing, begin at 0, and are exactly the rows whose converted key differs from the previous row's |
| `MySQLIndexes.RunHasOneKey` | src/java/arjdbc/mysql/MySQLRubyJdbcConnection.java:127-130 | every row of a run has the converted key of the run's first row, so a run never mixes two indexes |
| `MySQLIndexes.FoldMatchesRuns` | src/java/arjdbc/mysql/MySQLRubyJdbcConnection.java:124-155 | there are exactly as many definitions as maximal runs, in order of first appearance; the j-th is named by its run's first key, `unique` is the negation of that first row's `non_unique`, and its columns and lengths are those of the run's rows |
| `MySQLIndexes.GroupedKeysGiveDistinctNames` | src/java/arjdbc/mysql/MySQLRubyJdbcConnection.java:124-143 | when the catalog returns each index's rows together (a converted key never comes back after a different one), no two definitions share a name |
| `MySQLIndexes.DistinctNamesNeedGroupedKeys` | src/java/arjdbc/mysql/MySQLRubyJdbcConnection.java:124-143 | conversely, when no two definitions share a name, the converted keys came back grouped: a key that returns after a different one always leaves two definitions with the same name |
| `MySQLIndexes.FoldNamesAreKeys` | src/java/arjdbc/mysql/MySQLRubyJdbcConnection.java:127-143 | the set of definition names is exactly the set of the rows' converted key names: no key is lost, none is invented |
| `MySQLIndexes.FoldKeepsRowOrder` | src/java/arjdbc/mysql/MySQLRubyJdbcConnection.java:145-155 | read definition after definition, the columns are the rows' converted column names and the lengths their `sub_part` values (None exactly for SQL NULL); the total column count is the row count |
| `MySQLIndexes.FoldDefinitionsWellFormed` | src/java/arjdbc/mysql/MySQLRubyJdbcConnection.java:134-155 | every definition has as many lengths as columns, at least one column, and the table name it was built with |
| `MySQLIndexes.TwoRowIndexExample` | src/java/arjdbc/mysql/MySQLRubyJdbcConnection.java:126-155 | two rows of one index `(k, c1, 5, unique)` and `(k, c2, NULL, unique)` give one unique definition with columns `[c1, c2]` and lengths `[5, nil]` |
| `MySQLIndexes.NoDeduplication` | src/java/arjdbc/mysql/MySQLRubyJdbcConnection.java:127-143 | keys `a, b, a` with distinct converted names give three definitions, the first and third both named after `a`: a key that returns after another is not merged |

## Left out

- JRuby class registration and the allocator (lines 83-94) are host-runtime plumbing and are not modelled.
- `doExecute` (lines 60-63) is a bare driver call with `RETURN_GENERATED_KEYS` and is not modelled.
- `withConnection`, `prepareStatement`/`executeQuery` and the `finally` that closes the statement and result set (lines 98, 121-122, 160-163) are JDBC I/O. The rows are the result of the parameter `executeQuery`, and resource release is not modelled.
- `SQLException`s thrown by the driver while reading rows or generated keys are not modelled. The model covers runs that complete.
- `caseConvertIdentifierForJdbc` and `caseConvertIdentifierForRails` live in the base class, which is not part of this model. They are arbitrary functions `forJdbc` and `forRails` on non-null strings.
- A null schema name is modelled as `None`. `Indexes` assumes it stays null after `caseConvertIdentifierForJdbc`, which is defined in the base class. `BuildShowKeysQuery` takes the converted schema directly and covers both cases.
- `super.jdbcToRuby`, `unmarshalIdResult` and `getIndexDefinition` belong to the base class. The first is the parameter `genericToRuby`, the second's result is the `key` input, and `IndexDefinition.new` becomes the `IndexDef` record.
- Null strings from the catalog are not modelled; names are non-null strings. What a null `key_name` does depends on `caseConvertIdentifierForRails` (line 127), which is not part of this model; if it comes back null, `keyName.equals` (line 129) throws. A null `column_name` is read at line 147 and reaches `RubyString.newUnicodeString` at line 152.
- The Ruby `columns`/`lengths` arrays are pushed in place on the last `IndexDefinition` object. The model replaces the last record of the list with an extended copy, and this in-place update is not captured.
- Aliasing is not captured. Every definition holds the same `rubyTableName` Ruby string object (lines 105-107, 135), and Ruby strings are mutable, so a change to one definition's table name shows in all of them. The `IndexDef` records only hold equal string values.
- The exclusion of `PRIMARY` is done by the database through the query's `WHERE` clause. It appears only in the query text; the fold itself does not filter rows.
- Index names are not de-duplicated: grouping relies on the catalog returning each index's rows together. A key name that comes back after a different one opens a second definition (`NoDeduplication`). The model follows the code and does not assume the catalog's ordering. Names are distinct if and only if the converted keys come back grouped (`GroupedKeysGiveDistinctNames` and `DistinctNamesNeedGroupedKeys`).
- The query does not quote identifiers (`ShowKeysQueryAmbiguous`). A dotted name or a reserved word used as a table name is not read back as intended by the database. The model follows the code.
- The key-or-count result is a single Ruby value, not a tagged one. A generated key equal to the update count cannot be told apart from "no key". The model follows the code.
