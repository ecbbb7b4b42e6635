# An in-memory relational engine, modelled in Dafny

This project models the core of a small Java database: records, tables,
result tables, the schema catalog and the query facade.

- **Record** is a positional vector of string values.
- **Table** is an ordered list of column names plus an ordered list of
  records. It keeps two invariants: every record has one field per column,
  and the value at position 0 of each record is its primary key, unique
  in the table.
- **ResultTable** is the table a projection returns. It checks only the
  arity of a row, deletes rows by position, and lets any column be dropped.
- **Schema** is the catalog that maps a table name to its column list. It
  keeps a counter of the tables it holds.
- **Query** looks up a table by name and then:
  - projects the requested columns (`select`)
  - inserts one row or a batch of rows
  - deletes a row by primary key
  - adds, drops or renames a column

The database is the facade's map from table name to `Table`. Every facade
operation assumes `Query.Valid()`: every table in the map is valid, and no
two names share a table object or a record object. Only under that
assumption do the operations promise that the tables they do not name keep
their contents. Each mutating operation also ensures that the objects the
named table owns afterwards are its old objects or new ones. So a caller
may change the same table again.

Each mutable Java object becomes a Dafny `class` whose methods change its
fields in place:

- `Record.values` is a `seq<string>`.
- `Table.rows` is a `seq<Record>` of distinct record objects.
- `Schema.tables` is a `map`.

Every table operation is also given as a pure transition of an abstract
value, `TableState(columns, rows)` (or `Catalog` for the schema). The
invariants, error cases and round trips are proved about these
transitions. Each method is proved to move its object from `old(State())`
to the transition's result.

Files, one module each:

| file | module | source |
|---|---|---|
| errors.dfy | `Errors` | the failure kinds, `Result` and `Outcome` |
| lists.dfy | `Lists` | `indexOf` and `remove(int)` of `java.util.List` |
| records.dfy | `Records` | src/db/Record.java, and the per-record loops of Table |
| tables.dfy | `Tables` | src/db/Table.java |
| result_tables.dfy | `ResultTables` | src/db/ResultTable.java |
| schemas.dfy | `Schemas` | src/db/Schema.java |
| queries.dfy | `Queries` | src/db/Query.java |

Each Java exception becomes one `Error` kind:

| Error | raised when |
|---|---|
| `NoSuchTable` | the table name is unknown |
| `NoSuchColumn` | the column name is unknown |
| `NoSuchRow` | no row has that key |
| `AlreadyExists` | the table or column already exists |
| `ArityMismatch` | a row has the wrong number of values |
| `DuplicateKey` | the primary key is already taken |
| `PrimaryKeyColumn` | someone tries to delete the column at position 0 |
| `OutOfRange` | a list index is invalid |

## Model

| member | source | states |
|---|---|---|
| Lists.IndexOf | src/db/Table.java:155 | the first position of x, or -1 exactly when x is absent |
| Lists.RemoveAt | src/db/Table.java:159 | one element shorter; earlier elements kept, later ones shifted down by one |
| Records.Record.constructor | src/db/Record.java:138-140 | the record holds exactly the given values |
| Records.Record.GetValue | src/db/Record.java:58-66 | succeeds exactly for an index inside the record and returns that value; fails with OutOfRange otherwise |
| Records.Record.GetValues | src/db/Record.java:74-76 | the values in order |
| Records.Record.SetValue | src/db/Record.java:85-93 | in range: only that position changes and the size is kept; out of range: fails and nothing changes |
| Records.Record.AddField | src/db/Record.java:100-102 | size grows by one, the new last value is the argument, earlier values unchanged |
| Records.Record.RemoveField | src/db/Record.java:110-118 | in range: that position is removed and later values shift left; out of range: fails and nothing changes |
| Records.Record.NoFields | src/db/Record.java:126-128 | the number of stored values |
| Records.AppendEach | src/db/Table.java:140-142 | every row keeps its fields and gains the value at its end |
| Records.RemoveEach | src/db/Table.java:161-163 | every row loses exactly the field at the index |
| Records.AddFieldToEach | src/db/Table.java:140-142 | after the loop every record's values are its old values plus the new field |
| Records.RemoveFieldFromEach | src/db/ResultTable.java:63-65 | after the loop every record's values are its old values without the field at the index |
| Records.ValuesOf | src/db/Table.java:120-126 | the records' values, row by row, in order |
| Tables.KeyIndex | src/db/Table.java:203-207 | the position of the first row whose key matches, or the row count when none does |
| Tables.AddedColumn | src/db/Table.java:136-144 | addColumn appends the name to the columns and keeps the row count |
| Tables.DeletedColumn | src/db/Table.java:153-169 | deleteColumn fails only with PrimaryKeyColumn or OutOfRange. On success one column goes and the row count is kept |
| Tables.RenamedColumn | src/db/Table.java:178-187 | renameColumn succeeds exactly when the old name is present. The first occurrence becomes the new name; the column count and rows are kept. Otherwise NoSuchColumn |
| Tables.AddedRow | src/db/Table.java:195-212 | addRow fails with ArityMismatch exactly when the value count differs from the column count. Success appends the values as the last row and keeps the earlier rows |
| Tables.DeletedRow | src/db/Table.java:220-231 | deleteRow removes one row and keeps the columns; otherwise NoSuchRow |
| Tables.AddedColumnKeepsInv | src/db/Table.java:136-144 | addColumn appends the name, keeps every existing field, puts the default last in every row, and keeps both table invariants |
| Tables.DeletedColumnKeepsInv | src/db/Table.java:153-169 | deleteColumn succeeds exactly for a present column other than position 0. Position 0 gives PrimaryKeyColumn and an absent name gives OutOfRange (both directions). Success keeps the invariants |
| Tables.RenameRoundTrip | src/db/Table.java:178-187 | renaming a→b with b fresh, then b→a, gives back the table |
| Tables.RenamedColumnEffect | src/db/Table.java:178-187 | renameColumn fails exactly when the old name is absent. Otherwise it replaces only the first occurrence, and keeps the column count and all rows |
| Tables.AddedRowKeepsInv | src/db/Table.java:195-212 | addRow succeeds exactly when the arity is right, a key exists and no row has it. DuplicateKey happens exactly when some row has the key. Success appends the row and keeps both invariants |
| Tables.DeletedRowKeepsInv | src/db/Table.java:220-231 | deleteRow succeeds exactly when some row has the key. It then removes one row, keeps the invariants, and leaves no row with that key |
| Tables.AddThenDeleteRow | src/db/Table.java:195-231 | deleting the key of a row just added gives back the table |
| Tables.AddThenDeleteColumn | src/db/Table.java:136-169 | adding a fresh non-key column and deleting it gives back the table |
| Tables.AddThenDeleteKeyColumn | src/db/Table.java:157-167 | on a table with no columns, the added column becomes position 0 and cannot be deleted |
| Tables.Table.constructor | src/db/Table.java:245-248 | the given columns, no rows, invariants hold |
| Tables.Table.GetColumns | src/db/Table.java:98-100 | the column names in order |
| Tables.Table.GetRecords | src/db/Table.java:108-110 | distinct record objects whose values are the rows, in insertion order |
| Tables.Table.GetRows | src/db/Table.java:118-128 | the rows' values in insertion order |
| Tables.Table.NoRecords | src/db/Table.java:239-241 | the number of rows |
| Tables.Table.AddColumn | src/db/Table.java:136-144 | the new state is AddedColumn of the old one; the invariants are kept |
| Tables.Table.DeleteColumn | src/db/Table.java:153-169 | the outcome and new state are DeletedColumn of the old state; a failure changes nothing |
| Tables.Table.RenameColumn | src/db/Table.java:178-187 | the outcome and new state are RenamedColumn of the old state |
| Tables.Table.AddRow | src/db/Table.java:195-212 | the outcome and new state are AddedRow of the old state; the key scan is a loop over the records |
| Tables.Table.DeleteRow | src/db/Table.java:220-231 | the outcome and new state are DeletedRow of the old state; the key scan is a loop over the records |
| ResultTables.AppendedRow | src/db/ResultTable.java:85-94 | addRow succeeds exactly on the right arity and appends the values after the kept rows; otherwise ArityMismatch |
| ResultTables.RemovedRowAt | src/db/ResultTable.java:75-77 | deleteRow(n) succeeds exactly for 0 <= n < row count and removes one row; otherwise OutOfRange |
| ResultTables.DroppedColumn | src/db/ResultTable.java:54-67 | deleteColumn succeeds exactly for a present column, removing one column and keeping the row count; otherwise NoSuchColumn |
| ResultTables.AppendedRowKeepsFit | src/db/ResultTable.java:85-94 | addRow succeeds exactly on the right arity, else ArityMismatch. Success appends at the end and every row stays the width of the columns |
| ResultTables.DuplicateKeysAccepted | src/db/ResultTable.java:85-94 | a row whose first value is already taken is accepted here, where a base table refuses it |
| ResultTables.RemovedRowAtShifts | src/db/ResultTable.java:75-77 | deleteRow(n) succeeds exactly for 0 <= n < row count. It removes row n, shifts later rows down, and drops the count by one |
| ResultTables.DroppedColumnKeepsFit | src/db/ResultTable.java:54-67 | deleteColumn succeeds exactly for a present column. Each row loses the field at that column's first position, and the arity invariant holds |
| ResultTables.DroppedKeyColumn | src/db/ResultTable.java:60-65 | the column at position 0 can be dropped; every row then loses its first field |
| ResultTables.ResultTable.constructor | src/db/ResultTable.java:98-100 | the given columns, no rows |
| ResultTables.ResultTable.GetColumns | src/db/Table.java:98-100 | the column names in order |
| ResultTables.ResultTable.GetRows | src/db/Table.java:118-128 | the rows' values in order |
| ResultTables.ResultTable.NoRecords | src/db/Table.java:239-241 | the number of rows |
| ResultTables.ResultTable.AddRow | src/db/ResultTable.java:85-94 | the outcome and new state are AppendedRow of the old state |
| ResultTables.ResultTable.DeleteRow | src/db/ResultTable.java:75-77 | the outcome and new state are RemovedRowAt of the old state |
| ResultTables.ResultTable.DeleteColumn | src/db/ResultTable.java:54-67 | the outcome and new state are DroppedColumn of the old state |
| Schemas.CreatedTable | src/db/Schema.java:40-50 | createTable succeeds exactly on a new name, adding exactly that name with the given columns; otherwise AlreadyExists |
| Schemas.DroppedTable | src/db/Schema.java:58-68 | dropTable succeeds exactly on a present name and removes exactly that name; otherwise NoSuchTable |
| Schemas.DroppedColumn | src/db/Schema.java:77-94 | dropColumn succeeds exactly when the table has the column, keeping the table names and shortening that list by one. Otherwise NoSuchTable is checked before NoSuchColumn |
| Schemas.AddedColumn | src/db/Schema.java:103-119 | addColumn succeeds exactly when the table lacks the column. It keeps the table names and that list's entries, and appends the column. Otherwise NoSuchTable is checked before AlreadyExists |
| Schemas.RenamedColumn | src/db/Schema.java:128-147 | renameColumn succeeds exactly when the table has the old name. It keeps the table names and the list length, and the first occurrence becomes the new name. Otherwise NoSuchTable is checked before NoSuchColumn |
| Schemas.TableCountChanges | src/db/Schema.java:40-68 | createTable succeeds exactly on a new name and dropTable exactly on a present one. Each changes the number of entries by exactly one |
| Schemas.ColumnChangesStayInTable | src/db/Schema.java:77-147 | the column operations keep the set of table names and every other table's columns |
| Schemas.CreateThenDrop | src/db/Schema.java:40-68 | creating a table under a new name and dropping it gives back the catalog |
| Schemas.AddThenDropColumn | src/db/Schema.java:77-119 | adding a column a table lacks and dropping it gives back the catalog |
| Schemas.RenameColumnRoundTrip | src/db/Schema.java:128-147 | renaming a→b with b not in the table, then b→a, gives back the catalog |
| Schemas.Schema.constructor | src/db/Schema.java:197-200 | an empty catalog with a counter of 0 |
| Schemas.Schema.CreateTable | src/db/Schema.java:40-50 | the outcome and catalog are CreatedTable of the old catalog; the counter keeps matching the number of tables |
| Schemas.Schema.DropTable | src/db/Schema.java:58-68 | the outcome and catalog are DroppedTable of the old catalog; the counter keeps matching the number of tables |
| Schemas.Schema.DropColumn | src/db/Schema.java:77-94 | the outcome and catalog are DroppedColumn of the old catalog; the counter is unchanged |
| Schemas.Schema.AddColumn | src/db/Schema.java:103-119 | the outcome and catalog are AddedColumn of the old catalog; the counter is unchanged |
| Schemas.Schema.RenameColumn | src/db/Schema.java:128-147 | the outcome and catalog are RenamedColumn of the old catalog; the counter is unchanged |
| Schemas.Schema.Table | src/db/Schema.java:156-165 | that table's columns in order; NoSuchTable exactly when the name is unknown |
| Schemas.Schema.All | src/db/Schema.java:175-193 | the copy has exactly the catalog's names, each with the same column list |
| Queries.Selected | src/db/Query.java:114-123 | the documented select: the requested names as columns and one row per base row; otherwise NoSuchColumn |
| Queries.SelectedShape | src/db/Query.java:114-123 | select fails exactly when a requested name is not a column (NoSuchColumn). Otherwise the columns are the requested names (duplicates included), there is one row per base row, and field i of row k is base row k at the first position of name i |
| Queries.SelectAllColumns | src/db/Query.java:114-123 | selecting all columns in order, when their names are distinct, gives back the table |
| Queries.InsertAll | src/db/Query.java:203-211 | a prefix of the batch is appended in order. Pass exactly when the whole batch went in; on a failure the next row is the one addRow refused, with that error |
| Queries.InsertEach | src/db/Query.java:207-209 | the loop's outcome and the table's new state are InsertAll of the old state |
| Queries.InsertAllKeepsInv | src/db/Query.java:203-211 | a batch insert keeps both table invariants |
| Queries.SharedBufferRows | src/db/Query.java:64-83 | resultRows as written: one entry per record, and all entries equal, because the one buffer is shared |
| Queries.SelectAsWritten | src/db/Query.java:93-123 | select as written: when it succeeds, the requested names are the columns and there is one row per base row |
| Queries.SelectAsWrittenFails | src/db/Query.java:64-104 | the select as written fails with DuplicateKey on any table of two or more rows when at least one column is requested, while the documented select succeeds |
| Queries.BaseTableRejectsRepeatedFirstField | src/db/Query.java:93-104 | even with one buffer per record, a base-table result refuses a projection whose first field repeats between two rows |
| Queries.Query.constructor | src/db/Query.java:223-225 | the facade is bound to the given database |
| Queries.Query.OnlyOneTableChanged | src/db/Query.java:152-215 | a change confined to one table's objects keeps the facade valid and every other table's state |
| Queries.Query.GetTable | src/db/Query.java:116 | the named table, or NoSuchTable exactly when the name is unknown |
| Queries.Query.ColumnIndices | src/db/Query.java:30-53 | one index per requested name, each the first position of that name among the columns; NoSuchColumn exactly when some name is absent |
| Queries.Query.ResultRows | src/db/Query.java:64-83 | one projected row per record, in order: the documented projection |
| Queries.Query.BuildResultTable | src/db/Query.java:93-104 | a fresh valid result table holding exactly the given columns and rows. ArityMismatch exactly when some row has the wrong width |
| Queries.Query.Select | src/db/Query.java:114-123 | the result is Selected of the base table, a fresh object, and the base table is unchanged. The errors are NoSuchTable, then NoSuchColumn |
| Queries.Query.Add | src/db/Query.java:152-155 | the named table becomes AddedColumn of its old state; every other table is unchanged |
| Queries.Query.DropColumn | src/db/Query.java:164-167 | the named table follows DeletedColumn; every other table is unchanged |
| Queries.Query.Rename | src/db/Query.java:177-180 | the named table follows RenamedColumn; every other table is unchanged |
| Queries.Query.Insert | src/db/Query.java:190-192 | the named table follows AddedRow; every other table is unchanged |
| Queries.Query.InsertBatch | src/db/Query.java:203-211 | the named table follows InsertAll (rows in order, stopping at the first refusal, the earlier rows kept); every other table is unchanged |
| Queries.Query.Delete | src/db/Query.java:213-215 | the named table follows DeletedRow; every other table is unchanged |

## Left out

- src/db/DataFile.java and src/db/Files.java are not part of this model. They handle serialization to files and directory listing, which is I/O.
- src/db/Database.java is not part of this model. The database is the `Query` facade's map from table name to `Table`; a missing name fails with `NoSuchTable`.
- src/db/Printer.java and src/Demo.java are not part of this model. They handle console output and a driver program.
- The test methods and `main` methods are left out. They only inform the properties stated.
- Exception messages are left out: each failure is reduced to an `Error` kind.
- Java object identity of returned arrays is left out. `getColumns`, `getRows`, `getValues` and `all` return values (sequences and maps), not fresh arrays.
- `Serializable`, packages and visibility modifiers are left out.
- Schema and tables are not kept in sync. The query methods change tables without touching the catalog, and no property relating the two is claimed.
- Schemas.Schema.CreateTable: does not model the 32-bit wrap-around of `noTables`, because the counter is an unbounded integer here.
- `ResultTable` is its own class over the same two fields, not a subclass of `Table`. So the inherited `addColumn`, `renameColumn` and `deleteRow(String)` are not offered on it. The source's subclass also reads `Table`'s private fields, which Java would refuse; the model simply gives it those fields.
- Tables.Table.AddColumn: `Table.addColumn` calls `addField()` with no argument, but `Record.addField` needs one. The model takes the default value that `Query.add` passes.
- Tables.KeyIndex: a stored row with no fields would make `getValue(0)` throw. KeyIndex skips such a row instead. The table invariant rules out such rows, so this never matters for a valid table.

## Findings

| source | as written | input that shows it | evidently intended | confidence | as-written member | corrected member |
|---|---|---|---|---|---|---|
| src/db/Query.java:71-78 | one `row` buffer is allocated before the loop and added to the result for every record, so every result row is the last record's projection; inserted into a base table, the second copy is refused as a duplicate key | a table with columns [id, name] and rows [1, a], [2, b]; `select(["id"])` | one projected row per record, as the method's documentation says | not executed | Queries.SelectAsWrittenFails | Queries.Query.ResultRows |
| src/db/Query.java:96-99 | the result is a base `Table`, whose `addRow` refuses two rows with the same first field | a table with columns [id, city] and rows [1, x], [2, x]; `select(["city"])` | a `ResultTable`, whose `addRow` checks only arity | not executed | Queries.BaseTableRejectsRepeatedFirstField | Queries.Query.BuildResultTable |
