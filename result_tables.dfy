/** The table a projection returns: the same storage as a base table, but
    rows are only checked for arity, rows are deleted by position and any
    column may be dropped (src/db/ResultTable.java). In the source it is a
    subclass of Table that reads Table's columns and rows directly; here it is
    a class of its own over the same fields. */
module ResultTables {
  import opened Errors
  import opened Lists
  import opened Records
  import opened Tables

  // ----- The operations, as transitions of the abstract value ----- //

  /** addRow: only the number of values is checked. */
  function AppendedRow(t: TableState, values: seq<string>): (r: Result<TableState>)
    ensures r.Ok? <==> |values| == |t.columns|
    ensures r.Ok? ==> r.value.columns == t.columns && |r.value.rows| == |t.rows| + 1
    ensures r.Ok? ==> r.value.rows[..|t.rows|] == t.rows && r.value.rows[|t.rows|] == values
    ensures r.Err? ==> r.error == ArityMismatch
  {
    if |values| != |t.columns| then Err(ArityMismatch)
    else Ok(TableState(t.columns, t.rows + [values]))
  }

  /** deleteRow(int): the row at that position goes (List.remove(int)). */
  function RemovedRowAt(t: TableState, rowNumber: int): (r: Result<TableState>)
    ensures r.Ok? <==> 0 <= rowNumber < |t.rows|
    ensures r.Ok? ==> r.value.columns == t.columns && |r.value.rows| == |t.rows| - 1
    ensures r.Err? ==> r.error == OutOfRange
  {
    if 0 <= rowNumber < |t.rows| then Ok(TableState(t.columns, RemoveAt(t.rows, rowNumber)))
    else Err(OutOfRange)
  }

  /** deleteColumn: any present column goes, the key column included, with the
      field at the same position in every row. */
  function DroppedColumn(t: TableState, name: string): (r: Result<TableState>)
    requires RowsFit(t)
    ensures r.Ok? <==> name in t.columns
    ensures r.Ok? ==> |r.value.columns| == |t.columns| - 1 && |r.value.rows| == |t.rows|
    ensures r.Err? ==> r.error == NoSuchColumn
  {
    if name !in t.columns then Err(NoSuchColumn)
    else
      var k := IndexOf(t.columns, name);
      Ok(TableState(RemoveAt(t.columns, k), RemoveEach(t.rows, k)))
  }

  // ----- Properties of the operations ----- //

  /** addRow accepts every row of the right arity, whatever its first value,
      appends it at the end, and keeps every row the width of the columns. */
  lemma AppendedRowKeepsFit(t: TableState, values: seq<string>)
    requires RowsFit(t)
    ensures AppendedRow(t, values).Ok? <==> |values| == |t.columns|
    ensures AppendedRow(t, values).Err? ==> AppendedRow(t, values).error == ArityMismatch
    ensures AppendedRow(t, values).Ok? ==>
      var r := AppendedRow(t, values).value;
      && r.columns == t.columns && |r.rows| == |t.rows| + 1
      && r.rows[..|t.rows|] == t.rows && r.rows[|t.rows|] == values
      && RowsFit(r)
  {
  }

  /** Rows that share a first value are both kept: the uniqueness check of a
      base table is absent here. */
  lemma {:induction false} DuplicateKeysAccepted(t: TableState, values: seq<string>)
    requires RowsFit(t) && |values| == |t.columns| > 0
    requires exists k :: 0 <= k < |t.rows| && t.rows[k][0] == values[0]
    ensures AppendedRow(t, values).Ok? && Tables.AddedRow(t, values) == Err(DuplicateKey)
  {
    var k :| 0 <= k < |t.rows| && t.rows[k][0] == values[0];
    assert t.rows[k] != [];
    var i := KeyIndex(t.rows, values[0]);
    assert i <= k;
  }

  /** deleteRow(n) removes exactly the n-th row; the later rows move down by one. */
  lemma RemovedRowAtShifts(t: TableState, n: int)
    requires RowsFit(t)
    ensures RemovedRowAt(t, n).Ok? <==> 0 <= n < |t.rows|
    ensures RemovedRowAt(t, n).Ok? ==>
      var r := RemovedRowAt(t, n).value;
      && r.columns == t.columns && |r.rows| == |t.rows| - 1
      && (forall k :: 0 <= k < n ==> r.rows[k] == t.rows[k])
      && (forall k :: n <= k < |r.rows| ==> r.rows[k] == t.rows[k + 1])
      && RowsFit(r)
  {
  }

  /** deleteColumn succeeds exactly for a present column, position 0 included,
      and each row loses the field at that column's position. */
  lemma {:induction false} DroppedColumnKeepsFit(t: TableState, name: string)
    requires RowsFit(t)
    ensures DroppedColumn(t, name).Ok? <==> name in t.columns
    ensures DroppedColumn(t, name).Ok? ==>
      var r := DroppedColumn(t, name).value;
      var k := IndexOf(t.columns, name);
      && r.columns == RemoveAt(t.columns, k)
      && (forall i :: 0 <= i < |r.rows| ==> r.rows[i] == RemoveAt(t.rows[i], k))
      && RowsFit(r)
  {
  }

  /** Dropping the key column leaves every row without its first field. */
  lemma {:induction false} DroppedKeyColumn(t: TableState)
    requires RowsFit(t) && t.columns != []
    ensures DroppedColumn(t, t.columns[0]).Ok?
    ensures DroppedColumn(t, t.columns[0]).value.columns == t.columns[1..]
    ensures forall i :: 0 <= i < |t.rows| ==> DroppedColumn(t, t.columns[0]).value.rows[i] == t.rows[i][1..]
  {
    assert IndexOf(t.columns, t.columns[0]) == 0;
    var r := DroppedColumn(t, t.columns[0]).value;
    forall i | 0 <= i < |t.rows| ensures r.rows[i] == t.rows[i][1..] {
      assert r.rows[i] == RemoveAt(t.rows[i], 0);
    }
  }

  // ----- The result table object ----- //

  class ResultTable {
    var columns: seq<string>
    var rows: seq<Record>

    /** The table object and its records. */
    ghost function Repr(): set<object>
      reads this
    {
      {this} + set r: Record | r in rows
    }

    /** The table's abstract value. */
    ghost function State(): TableState
      reads this, rows
    {
      TableState(columns, Values(rows))
    }

    /** Distinct record objects, one field per column. */
    ghost predicate Valid()
      reads this, rows
    {
      Distinct(rows) && RowsFit(State())
    }

    /** A result table with the given columns and no rows. */
    constructor (newColumns: seq<string>)
      ensures Valid() && fresh(Repr())
      ensures State() == TableState(newColumns, [])
    {
      columns := newColumns;
      rows := [];
    }

    /** The column names, in order (inherited from Table). */
    method GetColumns() returns (r: seq<string>)
      requires Valid()
      ensures r == State().columns
    {
      r := columns;
    }

    /** The rows' values, in order (inherited from Table). */
    method GetRows() returns (r: seq<seq<string>>)
      requires Valid()
      ensures r == State().rows
    {
      r := ValuesOf(rows);
    }

    /** The number of rows (inherited from Table). */
    method NoRecords() returns (n: int)
      requires Valid()
      ensures n == |State().rows|
    {
      n := |rows|;
    }

    method AddRow(values: seq<string>) returns (r: Outcome)
      requires Valid()
      modifies this
      ensures Valid() && fresh(Repr() - old(Repr()))
      ensures r == AppendedRow(old(State()), values).ToOutcome()
      ensures State() == AppendedRow(old(State()), values).GetOr(old(State()))
    {
      if |values| != |columns| {
        return Fail(ArityMismatch);
      }
      ghost var before := rows;
      var newRecord := new Record(values);
      rows := rows + [newRecord];
      assert forall j :: 0 <= j < |before| ==> rows[j] == before[j] && rows[j] != newRecord;
      assert Values(rows) == old(State()).rows + [values];
      r := Pass;
    }

    method DeleteRow(rowNumber: int) returns (r: Outcome)
      requires Valid()
      modifies this
      ensures Valid() && Repr() <= old(Repr())
      ensures r == RemovedRowAt(old(State()), rowNumber).ToOutcome()
      ensures State() == RemovedRowAt(old(State()), rowNumber).GetOr(old(State()))
    {
      if 0 <= rowNumber < |rows| {
        ghost var before := State();
        RemoveAtDistinct(rows, rowNumber);
        rows := RemoveAt(rows, rowNumber);
        assert Values(rows) == RemoveAt(before.rows, rowNumber);
        r := Pass;
      } else {
        r := Fail(OutOfRange);
      }
    }

    method DeleteColumn(name: string) returns (r: Outcome)
      requires Valid()
      modifies this, rows
      ensures Valid() && rows == old(rows)
      ensures r == DroppedColumn(old(State()), name).ToOutcome()
      ensures State() == DroppedColumn(old(State()), name).GetOr(old(State()))
    {
      if name !in columns {
        return Fail(NoSuchColumn);
      }
      DroppedColumnKeepsFit(State(), name);
      ghost var before := State();
      var fieldIndex := IndexOf(columns, name);
      columns := RemoveAt(columns, fieldIndex);
      assert Values(rows) == before.rows;
      RemoveFieldFromEach(rows, fieldIndex);
      r := Pass;
    }
  }
}
