/** A base table: an ordered column list and an ordered list of records, with
    one field per column in every record and a unique primary key at
    position 0 (src/db/Table.java). */
module Tables {
  import opened Errors
  import opened Lists
  import opened Records

  /** The abstract value of a table: its column names and the values of its
      rows, both in order. */
  datatype TableState = TableState(columns: seq<string>, rows: seq<seq<string>>)

  /** Every row has exactly one field per column. */
  ghost predicate RowsFit(t: TableState) {
    forall k :: 0 <= k < |t.rows| ==> |t.rows[k]| == |t.columns|
  }

  /** Every row has a primary key, and no two rows share one. */
  ghost predicate KeysUnique(rows: seq<seq<string>>) {
    && (forall k :: 0 <= k < |rows| ==> rows[k] != [])
    && (forall i, j :: 0 <= i < j < |rows| ==> rows[i][0] != rows[j][0])
  }

  /** The two invariants of a base table. */
  ghost predicate Inv(t: TableState) {
    RowsFit(t) && KeysUnique(t.rows)
  }

  /** Position of the first row whose primary key is key, or |rows| when no row
      has it: the linear scans of addRow and deleteRow. */
  function KeyIndex(rows: seq<seq<string>>, key: string): (i: nat)
    ensures i <= |rows|
    ensures i < |rows| ==> rows[i] != [] && rows[i][0] == key
    ensures forall j :: 0 <= j < i ==> !(rows[j] != [] && rows[j][0] == key)
    decreases |rows|
  {
    if rows == [] then 0
    else if rows[0] != [] && rows[0][0] == key then 0
    else 1 + KeyIndex(rows[1..], key)
  }

  // ----- The operations, as transitions of the abstract value ----- //

  /** addColumn: the name is appended and every row gets the default value as
      its new last field. No check that the name is new. */
  function AddedColumn(t: TableState, name: string, default: string): (r: TableState)
    ensures r.columns == t.columns + [name] && |r.rows| == |t.rows|
  {
    TableState(t.columns + [name], AppendEach(t.rows, default))
  }

  /** deleteColumn: the first column of that name goes, with the field at the
      same position in every row. Position 0 is refused; an absent name makes
      the list removal fail on index -1. */
  function DeletedColumn(t: TableState, name: string): (r: Result<TableState>)
    requires RowsFit(t)
    ensures r.Ok? ==> |r.value.columns| == |t.columns| - 1 && |r.value.rows| == |t.rows|
    ensures r.Err? ==> r.error == PrimaryKeyColumn || r.error == OutOfRange
  {
    var k := IndexOf(t.columns, name);
    if k == 0 then Err(PrimaryKeyColumn)
    else if k < 0 then Err(OutOfRange)
    else Ok(TableState(RemoveAt(t.columns, k), RemoveEach(t.rows, k)))
  }

  /** renameColumn: the first column named oldName is renamed; the rows are untouched. */
  function RenamedColumn(t: TableState, oldName: string, newName: string): (r: Result<TableState>)
    ensures r.Ok? <==> oldName in t.columns
    ensures r.Ok? ==> |r.value.columns| == |t.columns| && r.value.rows == t.rows
    ensures r.Ok? ==> r.value.columns[IndexOf(t.columns, oldName)] == newName
    ensures r.Err? ==> r.error == NoSuchColumn
  {
    if oldName in t.columns then
      Ok(TableState(t.columns[IndexOf(t.columns, oldName) := newName], t.rows))
    else Err(NoSuchColumn)
  }

  /** addRow: the value count must match the column count, the key (values[0])
      must exist and must not be taken; the row goes at the end. */
  function AddedRow(t: TableState, values: seq<string>): (r: Result<TableState>)
    ensures r.Ok? ==> r.value.columns == t.columns && |r.value.rows| == |t.rows| + 1
    ensures r.Ok? ==> r.value.rows[..|t.rows|] == t.rows && r.value.rows[|t.rows|] == values
    ensures r == Err(ArityMismatch) <==> |values| != |t.columns|
  {
    if |values| != |t.columns| then Err(ArityMismatch)
    else if |values| == 0 then Err(OutOfRange)
    else if KeyIndex(t.rows, values[0]) < |t.rows| then Err(DuplicateKey)
    else Ok(TableState(t.columns, t.rows + [values]))
  }

  /** deleteRow: the first row whose primary key is key goes. */
  function DeletedRow(t: TableState, key: string): (r: Result<TableState>)
    ensures r.Ok? ==> r.value.columns == t.columns && |r.value.rows| == |t.rows| - 1
    ensures r.Err? ==> r.error == NoSuchRow
  {
    var i := KeyIndex(t.rows, key);
    if i == |t.rows| then Err(NoSuchRow)
    else Ok(TableState(t.columns, RemoveAt(t.rows, i)))
  }

  // ----- Properties of the operations ----- //

  /** addColumn keeps both invariants; each row keeps its fields and ends with the default. */
  lemma {:induction false} AddedColumnKeepsInv(t: TableState, name: string, default: string)
    requires Inv(t)
    ensures Inv(AddedColumn(t, name, default))
    ensures AddedColumn(t, name, default).columns == t.columns + [name]
    ensures forall k, j :: 0 <= k < |t.rows| && 0 <= j < |t.columns| ==>
      AddedColumn(t, name, default).rows[k][j] == t.rows[k][j]
    ensures forall k :: 0 <= k < |t.rows| ==>
      AddedColumn(t, name, default).rows[k][|t.columns|] == default
  {
    var r := AddedColumn(t, name, default);
    forall k, j | 0 <= k < |t.rows| && 0 <= j < |t.columns|
      ensures r.rows[k][j] == t.rows[k][j]
    {
      assert r.rows[k][..|t.rows[k]|] == t.rows[k];
      assert r.rows[k][j] == r.rows[k][..|t.rows[k]|][j];
    }
    forall k | 0 <= k < |r.rows| ensures r.rows[k] != [] && r.rows[k][0] == t.rows[k][0] {
      assert t.rows[k] != [];
      assert r.rows[k][0] == r.rows[k][..|t.rows[k]|][0];
    }
  }

  /** deleteColumn succeeds exactly for a column present at a position other
      than 0, and then keeps both invariants; the refusals are told apart. */
  lemma {:induction false} DeletedColumnKeepsInv(t: TableState, name: string)
    requires Inv(t)
    ensures DeletedColumn(t, name).Ok? <==> name in t.columns && t.columns[0] != name
    ensures DeletedColumn(t, name) == Err(PrimaryKeyColumn) <==> t.columns != [] && t.columns[0] == name
    ensures DeletedColumn(t, name) == Err(OutOfRange) <==> name !in t.columns
    ensures DeletedColumn(t, name).Ok? ==> Inv(DeletedColumn(t, name).value)
  {
    var k := IndexOf(t.columns, name);
    if 0 < k {
      var r := DeletedColumn(t, name).value;
      forall i | 0 <= i < |r.rows| ensures r.rows[i] != [] && r.rows[i][0] == t.rows[i][0] {
        assert |t.rows[i]| == |t.columns| > k;
      }
    }
  }

  /** Renaming a present column to a fresh name and back restores the table. */
  lemma {:induction false} RenameRoundTrip(t: TableState, a: string, b: string)
    requires a in t.columns && b !in t.columns
    ensures RenamedColumn(t, a, b).Ok?
    ensures RenamedColumn(RenamedColumn(t, a, b).value, b, a) == Ok(t)
  {
    var k := IndexOf(t.columns, a);
    var c := t.columns[k := b];
    assert c[k] == b;
    assert IndexOf(c, b) == k by {
      forall j | 0 <= j < |c| && j != k ensures c[j] != b {
        assert c[j] == t.columns[j];
      }
    }
    assert c[k := a] == t.columns;
  }

  /** renameColumn changes only the first column of the old name, keeping the
      column count and every row; it fails exactly when the name is absent. */
  lemma RenamedColumnEffect(t: TableState, oldName: string, newName: string)
    requires Inv(t)
    ensures RenamedColumn(t, oldName, newName).Ok? <==> oldName in t.columns
    ensures RenamedColumn(t, oldName, newName).Ok? ==>
      var r := RenamedColumn(t, oldName, newName).value;
      var k := IndexOf(t.columns, oldName);
      && |r.columns| == |t.columns| && r.columns[k] == newName
      && (forall j :: 0 <= j < |t.columns| && j != k ==> r.columns[j] == t.columns[j])
      && r.rows == t.rows && Inv(r)
  {
  }

  /** addRow succeeds exactly when the arity is right, there is a key and no
      stored row has it; then the row is appended and both invariants hold. */
  lemma {:induction false} AddedRowKeepsInv(t: TableState, values: seq<string>)
    requires Inv(t)
    ensures AddedRow(t, values).Ok? <==>
      && |values| == |t.columns| && |values| > 0
      && forall k :: 0 <= k < |t.rows| ==> t.rows[k][0] != values[0]
    ensures AddedRow(t, values) == Err(DuplicateKey) <==>
      && |values| == |t.columns| && |values| > 0
      && exists k :: 0 <= k < |t.rows| && t.rows[k][0] == values[0]
    ensures AddedRow(t, values).Ok? ==>
      && AddedRow(t, values).value == TableState(t.columns, t.rows + [values])
      && Inv(AddedRow(t, values).value)
  {
    if |values| == |t.columns| && |values| > 0 {
      var i := KeyIndex(t.rows, values[0]);
      if i < |t.rows| {
        assert t.rows[i][0] == values[0];
      } else {
        assert forall k :: 0 <= k < |t.rows| ==> t.rows[k][0] != values[0] by {
          forall k | 0 <= k < |t.rows| ensures t.rows[k][0] != values[0] {
            assert t.rows[k] != [];
          }
        }
      }
    }
  }

  /** deleteRow succeeds exactly when some row has the key; it then removes that
      one row, keeps the others in order, and no row with the key remains. */
  lemma {:induction false} DeletedRowKeepsInv(t: TableState, key: string)
    requires Inv(t)
    ensures DeletedRow(t, key).Ok? <==> exists k :: 0 <= k < |t.rows| && t.rows[k][0] == key
    ensures DeletedRow(t, key).Ok? ==>
      var r := DeletedRow(t, key).value;
      && r.columns == t.columns
      && |r.rows| == |t.rows| - 1
      && Inv(r)
      && forall k :: 0 <= k < |r.rows| ==> r.rows[k][0] != key
  {
    var i := KeyIndex(t.rows, key);
    if i < |t.rows| {
      var r := DeletedRow(t, key).value;
      forall k | 0 <= k < |r.rows| ensures r.rows[k][0] != key {
        if k < i {
          assert r.rows[k] == t.rows[k];
        } else {
          assert r.rows[k] == t.rows[k + 1];
          assert t.rows[i][0] != t.rows[k + 1][0];
        }
      }
    } else {
      forall k | 0 <= k < |t.rows| ensures t.rows[k][0] != key {
        assert t.rows[k] != [];
      }
    }
  }

  /** Deleting the key of a row just added restores the table. */
  lemma {:induction false} AddThenDeleteRow(t: TableState, values: seq<string>)
    requires Inv(t) && AddedRow(t, values).Ok?
    ensures DeletedRow(AddedRow(t, values).value, values[0]) == Ok(t)
  {
    var rows := t.rows + [values];
    var i := KeyIndex(rows, values[0]);
    assert KeyIndex(t.rows, values[0]) == |t.rows|;
    assert forall j :: 0 <= j < |t.rows| ==> rows[j] == t.rows[j];
    assert rows[|t.rows|] == values;
    assert i == |t.rows|;
    assert RemoveAt(rows, i) == t.rows;
  }

  /** Adding a fresh column and deleting it again restores the table, provided
      the table already had a column (otherwise the new one is the key). */
  lemma {:induction false} AddThenDeleteColumn(t: TableState, name: string, default: string)
    requires RowsFit(t) && |t.columns| > 0 && name !in t.columns
    ensures DeletedColumn(AddedColumn(t, name, default), name) == Ok(t)
  {
    var a := AddedColumn(t, name, default);
    var n := |t.columns|;
    assert IndexOf(a.columns, name) == n by {
      forall j | 0 <= j < n ensures a.columns[j] != name {
        assert a.columns[j] == t.columns[j];
      }
    }
    assert RemoveAt(a.columns, n) == t.columns;
    var rows := RemoveEach(a.rows, n);
    forall k | 0 <= k < |t.rows| ensures rows[k] == t.rows[k] {
      assert a.rows[k] == t.rows[k] + [default];
      assert RemoveAt(a.rows[k], n) == t.rows[k];
    }
    assert rows == t.rows;
  }

  /** On a table without columns the added column becomes the key, and deleting
      it is refused. */
  lemma AddThenDeleteKeyColumn(t: TableState, name: string, default: string)
    requires RowsFit(t) && t.columns == []
    ensures DeletedColumn(AddedColumn(t, name, default), name) == Err(PrimaryKeyColumn)
  {
  }

  // ----- The table object ----- //

  class Table {
    var columns: seq<string>
    var rows: seq<Record>

    /** The table object and its records. */
    ghost function Repr(): set<object>
      reads this
    {
      {this} + set r: Record | r in rows
    }

    /** The table's abstract value. */
    ghost function State(): TableState
      reads this, rows
    {
      TableState(columns, Values(rows))
    }

    /** Distinct record objects, one field per column, unique primary keys. */
    ghost predicate Valid()
      reads this, rows
    {
      Distinct(rows) && Inv(State())
    }

    /** A table with the given columns and no rows. */
    constructor (newColumns: seq<string>)
      ensures Valid() && fresh(Repr())
      ensures State() == TableState(newColumns, [])
    {
      columns := newColumns;
      rows := [];
    }

    /** The column names, in order. */
    method GetColumns() returns (r: seq<string>)
      requires Valid()
      ensures r == State().columns
    {
      r := columns;
    }

    /** The record objects, in insertion order. */
    method GetRecords() returns (r: seq<Record>)
      requires Valid()
      ensures |r| == |State().rows|
      ensures forall k :: 0 <= k < |r| ==> r[k].values == State().rows[k]
      ensures Distinct(r)
    {
      r := rows;
    }

    /** The rows' values, in insertion order. */
    method GetRows() returns (r: seq<seq<string>>)
      requires Valid()
      ensures r == State().rows
    {
      r := ValuesOf(rows);
    }

    /** The number of rows. */
    method NoRecords() returns (n: int)
      requires Valid()
      ensures n == |State().rows|
    {
      n := |rows|;
    }

    method AddColumn(name: string, default: string)
      requires Valid()
      modifies this, rows
      ensures Valid() && rows == old(rows)
      ensures State() == AddedColumn(old(State()), name, default)
    {
      ghost var before := State();
      AddedColumnKeepsInv(before, name, default);
      columns := columns + [name];
      assert Values(rows) == before.rows;
      AddFieldToEach(rows, default);
    }

    method DeleteColumn(name: string) returns (r: Outcome)
      requires Valid()
      modifies this, rows
      ensures Valid() && rows == old(rows)
      ensures r == DeletedColumn(old(State()), name).ToOutcome()
      ensures State() == DeletedColumn(old(State()), name).GetOr(old(State()))
    {
      DeletedColumnKeepsInv(State(), name);
      var fieldIndex := IndexOf(columns, name);
      if fieldIndex != 0 {
        if fieldIndex < 0 {
          // columns.remove(-1) throws before anything is changed
          return Fail(OutOfRange);
        }
        ghost var before := State();
        columns := RemoveAt(columns, fieldIndex);
        assert Values(rows) == before.rows;
        RemoveFieldFromEach(rows, fieldIndex);
        r := Pass;
      } else {
        r := Fail(PrimaryKeyColumn);
      }
    }

    method RenameColumn(oldName: string, newName: string) returns (r: Outcome)
      requires Valid()
      modifies this
      ensures Valid() && rows == old(rows)
      ensures r == RenamedColumn(old(State()), oldName, newName).ToOutcome()
      ensures State() == RenamedColumn(old(State()), oldName, newName).GetOr(old(State()))
    {
      if oldName in columns {
        var columnIndex := IndexOf(columns, oldName);
        columns := columns[columnIndex := newName];
        r := Pass;
      } else {
        r := Fail(NoSuchColumn);
      }
    }

    method AddRow(values: seq<string>) returns (r: Outcome)
      requires Valid()
      modifies this
      ensures Valid() && fresh(Repr() - old(Repr()))
      ensures r == AddedRow(old(State()), values).ToOutcome()
      ensures State() == AddedRow(old(State()), values).GetOr(old(State()))
    {
      AddedRowKeepsInv(State(), values);
      if |values| != |columns| {
        return Fail(ArityMismatch);
      }
      if |values| == 0 {
        // values[0] on an empty array
        return Fail(OutOfRange);
      }
      var primKey := values[0];
      var i := 0;
      while i < |rows|
        invariant 0 <= i <= |rows|
        invariant Valid() && rows == old(rows) && State() == old(State())
        invariant forall j :: 0 <= j < i ==> State().rows[j][0] != primKey
      {
        assert State().rows[i] == rows[i].values;
        var key := rows[i].GetValue(0);
        if key.value == primKey {
          return Fail(DuplicateKey);
        }
        i := i + 1;
      }
      ghost var before := rows;
      var newRecord := new Record(values);
      rows := rows + [newRecord];
      assert forall j :: 0 <= j < |before| ==> rows[j] == before[j] && rows[j] != newRecord;
      assert Values(rows) == old(State()).rows + [values];
      r := Pass;
    }

    method DeleteRow(primaryKey: string) returns (r: Outcome)
      requires Valid()
      modifies this
      ensures Valid() && Repr() <= old(Repr())
      ensures r == DeletedRow(old(State()), primaryKey).ToOutcome()
      ensures State() == DeletedRow(old(State()), primaryKey).GetOr(old(State()))
    {
      DeletedRowKeepsInv(State(), primaryKey);
      var i := 0;
      while i < |rows|
        invariant 0 <= i <= |rows|
        invariant Valid() && rows == old(rows) && State() == old(State())
        invariant forall j :: 0 <= j < i ==> State().rows[j][0] != primaryKey
      {
        assert State().rows[i] == rows[i].values;
        var key := rows[i].GetValue(0);
        if key.value == primaryKey {
          ghost var before := State();
          RemoveAtDistinct(rows, i);
          rows := RemoveAt(rows, i);
          assert Values(rows) == RemoveAt(before.rows, i);
          return Pass;
        }
        i := i + 1;
      }
      r := Fail(NoSuchRow);
    }
  }
}
