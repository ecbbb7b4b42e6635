/** The query facade: projection, inserts, deletes and column changes,
    each applied to a table looked up by name (src/db/Query.java). The
    database is the name-to-table map the facade is bound to; a name that is
    not in it fails with NoSuchTable. */
module Queries {
  import opened Errors
  import opened Lists
  import opened Records
  import opened Tables
  import opened ResultTables

  // ----- Projection ----- //

  /** Every index is a position of a row of the given width. */
  ghost predicate InRange(indices: seq<int>, width: int) {
    forall i :: 0 <= i < |indices| ==> 0 <= indices[i] < width
  }

  /** For each requested name, the first position of that name among the columns. */
  function Indices(columns: seq<string>, names: seq<string>): (r: seq<int>)
    ensures |r| == |names|
  {
    seq(|names|, i requires 0 <= i < |names| => IndexOf(columns, names[i]))
  }

  /** One row cut down to the given positions, in the given order. */
  function ProjectRow(row: seq<string>, indices: seq<int>): seq<string>
    requires InRange(indices, |row|)
  {
    seq(|indices|, i requires 0 <= i < |indices| => row[indices[i]])
  }

  /** Every row cut down to the given positions, each into a row of its own. */
  function Project(rows: seq<seq<string>>, indices: seq<int>): seq<seq<string>>
    requires forall k :: 0 <= k < |rows| ==> InRange(indices, |rows[k]|)
  {
    seq(|rows|, k requires 0 <= k < |rows| => ProjectRow(rows[k], indices))
  }

  /** Every requested name is a column. */
  predicate AllColumns(columns: seq<string>, names: seq<string>) {
    forall i | 0 <= i < |names| :: names[i] in columns
  }

  /** select as documented: one result row per base row, holding the
      requested columns in the requested order. */
  function Selected(t: TableState, names: seq<string>): (r: Result<TableState>)
    requires RowsFit(t)
    ensures r.Ok? ==> r.value.columns == names && |r.value.rows| == |t.rows|
    ensures r.Err? ==> r.error == NoSuchColumn
  {
    if AllColumns(t.columns, names) then
      Ok(TableState(names, Project(t.rows, Indices(t.columns, names))))
    else Err(NoSuchColumn)
  }

  /** select fails exactly on a requested name that is not a column; otherwise
      its columns are the requested names, duplicates included, and field i of
      result row k is base row k at the first position of name i. */
  lemma {:induction false} SelectedShape(t: TableState, names: seq<string>)
    requires RowsFit(t)
    ensures Selected(t, names).Ok? <==> forall i :: 0 <= i < |names| ==> names[i] in t.columns
    ensures Selected(t, names).Err? ==> Selected(t, names).error == NoSuchColumn
    ensures Selected(t, names).Ok? ==>
      var r := Selected(t, names).value;
      && r.columns == names
      && |r.rows| == |t.rows|
      && RowsFit(r)
      && forall k, i :: 0 <= k < |t.rows| && 0 <= i < |names| ==>
           r.rows[k][i] == t.rows[k][IndexOf(t.columns, names[i])]
  {
    if AllColumns(t.columns, names) {
      var r := Selected(t, names).value;
      forall k, i | 0 <= k < |t.rows| && 0 <= i < |names|
        ensures r.rows[k][i] == t.rows[k][IndexOf(t.columns, names[i])]
      {
        assert r.rows[k] == ProjectRow(t.rows[k], Indices(t.columns, names));
      }
    }
  }

  /** Selecting every column, in order, of a table whose column names are all
      different gives back the table itself. */
  lemma {:induction false} SelectAllColumns(t: TableState)
    requires RowsFit(t) && Distinct(t.columns)
    ensures Selected(t, t.columns) == Ok(t)
  {
    var idx := Indices(t.columns, t.columns);
    forall i | 0 <= i < |t.columns| ensures idx[i] == i {
      IndexOfDistinct(t.columns, i);
    }
    var rows := Project(t.rows, idx);
    forall k | 0 <= k < |t.rows| ensures rows[k] == t.rows[k] {
      assert rows[k] == ProjectRow(t.rows[k], idx);
    }
    assert rows == t.rows;
  }

  // ----- Batch insert ----- //

  /** The end of a batch insert: the table reached, how many rows went in,
      and how it ended. */
  datatype Batch = Batch(state: TableState, inserted: nat, outcome: Outcome)

  /** insert(tableName, valSet): the rows go in one after the other through
      addRow; the first failure stops the batch and keeps the rows before it. */
  function InsertAll(t: TableState, batch: seq<seq<string>>): (b: Batch)
    ensures b.inserted <= |batch|
    ensures b.state == TableState(t.columns, t.rows + batch[..b.inserted])
    ensures b.outcome.Pass? <==> b.inserted == |batch|
    ensures b.outcome.Fail? ==> AddedRow(b.state, batch[b.inserted]) == Err(b.outcome.error)
    decreases |batch|
  {
    if batch == [] then Batch(t, 0, Pass)
    else
      match AddedRow(t, batch[0])
      case Err(e) => Batch(t, 0, Fail(e))
      case Ok(next) =>
        var b := InsertAll(next, batch[1..]);
        assert batch[..b.inserted + 1] == [batch[0]] + batch[1..][..b.inserted];
        Batch(b.state, b.inserted + 1, b.outcome)
  }

  /** One step of a batch: the row at position i either stops the batch with
      addRow's error or leaves the rest of the batch to run on the grown table. */
  lemma InsertAllStep(t: TableState, batch: seq<seq<string>>, i: nat)
    requires i < |batch|
    ensures AddedRow(t, batch[i]).Err? ==>
      InsertAll(t, batch[i..]) == Batch(t, 0, Fail(AddedRow(t, batch[i]).error))
    ensures AddedRow(t, batch[i]).Ok? ==>
      && InsertAll(t, batch[i..]).state == InsertAll(AddedRow(t, batch[i]).value, batch[i + 1..]).state
      && InsertAll(t, batch[i..]).outcome == InsertAll(AddedRow(t, batch[i]).value, batch[i + 1..]).outcome
  {
    assert batch[i..][0] == batch[i] && batch[i..][1..] == batch[i + 1..];
  }

  /** The loop of insert(tableName, valSet): addRow on each row in turn,
      stopping at the first failure. */
  method InsertEach(table: Table, valSet: seq<seq<string>>) returns (r: Outcome)
    requires table.Valid()
    modifies table
    ensures table.Valid() && fresh(table.Repr() - old(table.Repr()))
    ensures r == InsertAll(old(table.State()), valSet).outcome
    ensures table.State() == InsertAll(old(table.State()), valSet).state
  {
    ghost var start := table.State();
    var i := 0;
    while i < |valSet|
      invariant 0 <= i <= |valSet|
      invariant table.Valid() && fresh(table.Repr() - old(table.Repr()))
      invariant InsertAll(start, valSet).state == InsertAll(table.State(), valSet[i..]).state
      invariant InsertAll(start, valSet).outcome == InsertAll(table.State(), valSet[i..]).outcome
    {
      ghost var before := table.State();
      var added := table.AddRow(valSet[i]);
      InsertAllStep(before, valSet, i);
      if added.Fail? {
        return added;
      }
      i := i + 1;
    }
    assert valSet[i..] == [];
    r := Pass;
  }

  /** A batch keeps both table invariants. */
  lemma {:induction false} InsertAllKeepsInv(t: TableState, batch: seq<seq<string>>)
    requires Inv(t)
    ensures Inv(InsertAll(t, batch).state)
    decreases |batch|
  {
    if batch != [] {
      AddedRowKeepsInv(t, batch[0]);
      if AddedRow(t, batch[0]).Ok? {
        InsertAllKeepsInv(AddedRow(t, batch[0]).value, batch[1..]);
      }
    }
  }

  // ----- select as written ----- //

  /** resultRows as written: a single row buffer is filled for each record and
      the same buffer is added every time, so every entry shows the last
      record's projection. */
  function SharedBufferRows(rows: seq<seq<string>>, indices: seq<int>): (r: seq<seq<string>>)
    requires forall k :: 0 <= k < |rows| ==> InRange(indices, |rows[k]|)
    ensures |r| == |rows|
    ensures forall j, k :: 0 <= j < k < |r| ==> r[j] == r[k]
  {
    if rows == [] then []
    else seq(|rows|, k requires 0 <= k < |rows| => ProjectRow(rows[|rows| - 1], indices))
  }

  /** select as written: the shared-buffer rows go into a base table, whose
      addRow insists on unique first values. */
  function SelectAsWritten(t: TableState, names: seq<string>): (r: Result<TableState>)
    requires RowsFit(t)
    ensures r.Ok? ==> r.value.columns == names && |r.value.rows| == |t.rows|
  {
    if !AllColumns(t.columns, names) then Err(NoSuchColumn)
    else
      var b := InsertAll(TableState(names, []), SharedBufferRows(t.rows, Indices(t.columns, names)));
      if b.outcome.Pass? then Ok(b.state) else Err(b.outcome.error)
  }

  /** As written, a select of at least one column over two or more rows always
      fails with a duplicate key, where the documented select succeeds. */
  lemma {:induction false} SelectAsWrittenFails(t: TableState, names: seq<string>)
    requires Inv(t) && |t.rows| >= 2 && names != []
    requires forall i :: 0 <= i < |names| ==> names[i] in t.columns
    ensures Selected(t, names).Ok?
    ensures SelectAsWritten(t, names) == Err(DuplicateKey)
  {
    var idx := Indices(t.columns, names);
    var rows := SharedBufferRows(t.rows, idx);
    var p := ProjectRow(t.rows[|t.rows| - 1], idx);
    assert rows[0] == p && rows[1] == p && |p| == |names|;
    var t0 := TableState(names, []);
    var t1 := TableState(names, [p]);
    assert t0.rows + [p] == [p];
    assert AddedRow(t0, rows[0]) == Ok(t1);
    assert KeyIndex(t1.rows, p[0]) == 0;
    assert AddedRow(t1, rows[1..][0]) == Err(DuplicateKey);
    assert InsertAll(t1, rows[1..]) == Batch(t1, 0, Fail(DuplicateKey));
  }

  /** Even with one row per record, a base table as the result type refuses a
      projection in which two rows share their first field: the first two rows
      of the table repeating the value of the first requested column is enough. */
  lemma {:induction false} BaseTableRejectsRepeatedFirstField(t: TableState, names: seq<string>)
    requires Inv(t) && |t.rows| >= 2 && names != []
    requires forall i :: 0 <= i < |names| ==> names[i] in t.columns
    requires t.rows[0][IndexOf(t.columns, names[0])] == t.rows[1][IndexOf(t.columns, names[0])]
    ensures Selected(t, names).Ok?
    ensures InsertAll(TableState(names, []), Selected(t, names).value.rows).outcome == Fail(DuplicateKey)
  {
    var rows := Selected(t, names).value.rows;
    var idx := Indices(t.columns, names);
    assert rows[0] == ProjectRow(t.rows[0], idx) && rows[1] == ProjectRow(t.rows[1], idx);
    var t0 := TableState(names, []);
    var t1 := TableState(names, [rows[0]]);
    assert |rows[0]| == |names| && |rows[1]| == |names|;
    assert t0.rows + [rows[0]] == [rows[0]];
    assert AddedRow(t0, rows[0]) == Ok(t1);
    assert KeyIndex(t1.rows, rows[1][0]) == 0;
    assert AddedRow(t1, rows[1..][0]) == Err(DuplicateKey);
    assert InsertAll(t1, rows[1..]) == Batch(t1, 0, Fail(DuplicateKey));
  }

  // ----- The query object ----- //

  class Query {
    const db: map<string, Table>

    /** A query facade bound to a database's tables. */
    constructor (database: map<string, Table>)
      ensures db == database
    {
      db := database;
    }

    /** The table objects of the database. */
    ghost function TableObjects(): set<object> {
      set n | n in db :: db[n]
    }

    /** Every record of every table of the database. */
    ghost function RecordObjects(): (s: set<Record>)
      reads TableObjects()
      ensures forall n, r :: n in db && r in db[n].rows ==> r in s
    {
      set n, r: Record | n in db && r in db[n].rows :: r
    }

    /** The objects one named table owns (none for an unknown name). */
    ghost function TableRepr(name: string): set<object>
      reads TableObjects()
    {
      if name in db then db[name].Repr() else {}
    }

    /** Every table is valid and no two names share a table or a record. */
    ghost predicate Valid()
      reads TableObjects(), RecordObjects()
    {
      && (forall n :: n in db ==> db[n].Valid())
      && (forall m, n :: m in db && n in db && m != n ==> db[m].Repr() !! db[n].Repr())
    }

    /** A change confined to the objects of one table keeps the facade's
        invariant and leaves every other table as it was. */
    twostate lemma OnlyOneTableChanged(name: string)
      requires old(Valid()) && name in db
      requires db[name].Valid() && fresh(db[name].Repr() - old(db[name].Repr()))
      requires forall n :: n in db && n != name ==> unchanged(db[n]) && unchanged(db[n].rows)
      ensures Valid()
      ensures forall n :: n in db && n != name ==> db[n].State() == old(db[n].State())
    {
      forall n | n in db && n != name
        ensures db[n].Valid() && db[n].State() == old(db[n].State()) && db[n].Repr() == old(db[n].Repr())
      {
        assert old(db[n].Valid());
      }
      forall m, n | m in db && n in db && m != n
        ensures db[m].Repr() !! db[n].Repr()
      {
        assert old(db[m].Repr() !! db[n].Repr());
      }
    }

    /** The database lookup. */
    function GetTable(name: string): (r: Result<Table>)
      ensures r.Ok? <==> name in db
      ensures r.Ok? ==> r.value == db[name]
      ensures r.Err? ==> r.error == NoSuchTable
    {
      if name in db then Ok(db[name]) else Err(NoSuchTable)
    }

    /** For each requested name, its first position among the table's columns. */
    method ColumnIndices(table: Table, selectCols: seq<string>) returns (r: Result<seq<int>>)
      requires table.Valid()
      ensures r.Ok? <==> forall i :: 0 <= i < |selectCols| ==> selectCols[i] in table.columns
      ensures r.Ok? ==> |r.value| == |selectCols|
      ensures r.Ok? ==> forall i :: 0 <= i < |selectCols| ==>
        0 <= r.value[i] < |table.columns| && table.columns[r.value[i]] == selectCols[i] &&
        forall j :: 0 <= j < r.value[i] ==> table.columns[j] != selectCols[i]
      ensures r.Ok? ==> r.value == Indices(table.columns, selectCols)
      ensures r.Err? ==> r.error == NoSuchColumn
    {
      var noCols := |selectCols|;
      var indices := new int[noCols];
      var columns := table.GetColumns();
      for i := 0 to noCols
        invariant forall j :: 0 <= j < i ==> selectCols[j] in columns && indices[j] == IndexOf(columns, selectCols[j])
      {
        var selectCol := selectCols[i];
        if selectCol in columns {
          indices[i] := IndexOf(columns, selectCol);
        } else {
          return Err(NoSuchColumn);
        }
      }
      r := Ok(indices[..]);
    }

    /** For each record, a fresh row holding the requested fields in the
        requested order. The source reuses one buffer for every record; this
        is the per-record projection its documentation describes. */
    method ResultRows(table: Table, columnIndices: seq<int>) returns (r: seq<seq<string>>)
      requires table.Valid() && InRange(columnIndices, |table.columns|)
      ensures r == Project(table.State().rows, columnIndices)
    {
      var rows := table.GetRecords();
      ghost var base := table.State().rows;
      var result: seq<seq<string>> := [];
      var noCols := |columnIndices|;
      var k := 0;
      while k < |rows|
        invariant 0 <= k <= |rows| && |result| == k
        invariant |rows| == |base|
        invariant forall j :: 0 <= j < |base| ==> InRange(columnIndices, |base[j]|)
        invariant forall j :: 0 <= j < |rows| ==> rows[j].values == base[j]
        invariant forall j :: 0 <= j < k ==> result[j] == ProjectRow(base[j], columnIndices)
      {
        var record := rows[k];
        var row := new string[noCols];
        for i := 0 to noCols
          invariant forall j :: 0 <= j < |rows| ==> rows[j].values == base[j]
          invariant forall j :: 0 <= j < i ==> row[j] == base[k][columnIndices[j]]
        {
          var field := columnIndices[i];
          var value := record.GetValue(field);
          row[i] := value.value;
        }
        result := result + [row[..]];
        k := k + 1;
      }
      r := result;
    }

    /** A result table with the given columns holding the given rows in
        order; a row of the wrong width fails. The source builds a base Table
        here, which also refuses repeated first values; a projection needs the
        result table's arity-only check. */
    method BuildResultTable(rows: seq<seq<string>>, columns: seq<string>) returns (r: Result<ResultTable>)
      ensures r.Ok? <==> forall k :: 0 <= k < |rows| ==> |rows[k]| == |columns|
      ensures r.Err? ==> r.error == ArityMismatch
      ensures r.Ok? ==> fresh(r.value.Repr()) && r.value.Valid()
      ensures r.Ok? ==> r.value.State() == TableState(columns, rows)
    {
      var table := new ResultTable(columns);
      var k := 0;
      while k < |rows|
        invariant 0 <= k <= |rows|
        invariant fresh(table.Repr()) && table.Valid()
        invariant table.State().columns == columns && table.State().rows == rows[..k]
      {
        ghost var before := table.State();
        var added := table.AddRow(rows[k]);
        if added.Fail? {
          assert !(forall j :: 0 <= j < |rows| ==> |rows[j]| == |columns|) by {
            assert |rows[k]| != |columns|;
          }
          return Err(ArityMismatch);
        }
        assert table.State().rows == before.rows + [rows[k]];
        assert rows[..k + 1] == rows[..k] + [rows[k]] by {
          assert rows[..k + 1][..k] == rows[..k];
        }
        k := k + 1;
      }
      assert rows[..k] == rows;
      assert forall j :: 0 <= j < |rows| ==> |rows[j]| == |columns| by {
        assert RowsFit(table.State());
      }
      r := Ok(table);
    }

    /** The requested columns of every row of the named table, as a new
        result table; the base table is not changed. */
    method Select(tableName: string, columns: seq<string>) returns (r: Result<ResultTable>)
      requires Valid()
      ensures r.Ok? <==> tableName in db && forall i :: 0 <= i < |columns| ==> columns[i] in db[tableName].columns
      ensures r.Err? ==> r.error == if tableName in db then NoSuchColumn else NoSuchTable
      ensures r.Ok? ==> fresh(r.value.Repr()) && r.value.Valid()
      ensures r.Ok? ==> Selected(db[tableName].State(), columns) == Ok(r.value.State())
    {
      var found := GetTable(tableName);
      if found.Err? {
        return Err(found.error);
      }
      var selectTable := found.value;
      var indices := ColumnIndices(selectTable, columns);
      if indices.Err? {
        return Err(indices.error);
      }
      var result := ResultRows(selectTable, indices.value);
      SelectedShape(selectTable.State(), columns);
      r := BuildResultTable(result, columns);
    }

    method Add(tableName: string, column: string, value: string) returns (r: Outcome)
      requires Valid()
      modifies TableRepr(tableName)
      ensures Valid()
      ensures r == if tableName in db then Pass else Fail(NoSuchTable)
      ensures tableName in db ==>
        db[tableName].State() == AddedColumn(old(db[tableName].State()), column, value)
      ensures tableName in db ==> fresh(TableRepr(tableName) - old(TableRepr(tableName)))
      ensures forall n :: n in db && n != tableName ==> db[n].State() == old(db[n].State())
    {
      var found := GetTable(tableName);
      if found.Err? {
        return Fail(found.error);
      }
      found.value.AddColumn(column, value);
      OnlyOneTableChanged(tableName);
      r := Pass;
    }

    method DropColumn(tableName: string, column: string) returns (r: Outcome)
      requires Valid()
      modifies TableRepr(tableName)
      ensures Valid()
      ensures tableName !in db ==> r == Fail(NoSuchTable)
      ensures tableName in db ==>
        && r == DeletedColumn(old(db[tableName].State()), column).ToOutcome()
        && db[tableName].State() == DeletedColumn(old(db[tableName].State()), column).GetOr(old(db[tableName].State()))
      ensures tableName in db ==> fresh(TableRepr(tableName) - old(TableRepr(tableName)))
      ensures forall n :: n in db && n != tableName ==> db[n].State() == old(db[n].State())
    {
      var found := GetTable(tableName);
      if found.Err? {
        return Fail(found.error);
      }
      r := found.value.DeleteColumn(column);
      OnlyOneTableChanged(tableName);
    }

    method Rename(tableName: string, oldName: string, newName: string) returns (r: Outcome)
      requires Valid()
      modifies TableRepr(tableName)
      ensures Valid()
      ensures tableName !in db ==> r == Fail(NoSuchTable)
      ensures tableName in db ==>
        && r == RenamedColumn(old(db[tableName].State()), oldName, newName).ToOutcome()
        && db[tableName].State() == RenamedColumn(old(db[tableName].State()), oldName, newName).GetOr(old(db[tableName].State()))
      ensures tableName in db ==> fresh(TableRepr(tableName) - old(TableRepr(tableName)))
      ensures forall n :: n in db && n != tableName ==> db[n].State() == old(db[n].State())
    {
      var found := GetTable(tableName);
      if found.Err? {
        return Fail(found.error);
      }
      r := found.value.RenameColumn(oldName, newName);
      OnlyOneTableChanged(tableName);
    }

    method Insert(tableName: string, values: seq<string>) returns (r: Outcome)
      requires Valid()
      modifies TableRepr(tableName)
      ensures Valid()
      ensures tableName !in db ==> r == Fail(NoSuchTable)
      ensures tableName in db ==>
        && r == AddedRow(old(db[tableName].State()), values).ToOutcome()
        && db[tableName].State() == AddedRow(old(db[tableName].State()), values).GetOr(old(db[tableName].State()))
      ensures tableName in db ==> fresh(TableRepr(tableName) - old(TableRepr(tableName)))
      ensures forall n :: n in db && n != tableName ==> db[n].State() == old(db[n].State())
    {
      var found := GetTable(tableName);
      if found.Err? {
        return Fail(found.error);
      }
      r := found.value.AddRow(values);
      OnlyOneTableChanged(tableName);
    }

    method InsertBatch(tableName: string, valSet: seq<seq<string>>) returns (r: Outcome)
      requires Valid()
      modifies TableRepr(tableName)
      ensures Valid()
      ensures tableName !in db ==> r == Fail(NoSuchTable)
      ensures tableName in db ==>
        && r == InsertAll(old(db[tableName].State()), valSet).outcome
        && db[tableName].State() == InsertAll(old(db[tableName].State()), valSet).state
      ensures tableName in db ==> fresh(TableRepr(tableName) - old(TableRepr(tableName)))
      ensures forall n :: n in db && n != tableName ==> db[n].State() == old(db[n].State())
    {
      var found := GetTable(tableName);
      if found.Err? {
        return Fail(found.error);
      }
      r := InsertEach(found.value, valSet);
      OnlyOneTableChanged(tableName);
    }

    method Delete(tableName: string, primaryKey: string) returns (r: Outcome)
      requires Valid()
      modifies TableRepr(tableName)
      ensures Valid()
      ensures tableName !in db ==> r == Fail(NoSuchTable)
      ensures tableName in db ==>
        && r == DeletedRow(old(db[tableName].State()), primaryKey).ToOutcome()
        && db[tableName].State() == DeletedRow(old(db[tableName].State()), primaryKey).GetOr(old(db[tableName].State()))
      ensures tableName in db ==> fresh(TableRepr(tableName) - old(TableRepr(tableName)))
      ensures forall n :: n in db && n != tableName ==> db[n].State() == old(db[n].State())
    {
      var found := GetTable(tableName);
      if found.Err? {
        return Fail(found.error);
      }
      r := found.value.DeleteRow(primaryKey);
      OnlyOneTableChanged(tableName);
    }
  }
}
