/** One row of a table: a positional vector of string values (src/db/Record.java). */
module Records {
  import opened Errors
  import opened Lists

  class Record {
    var values: seq<string>

    /** A record holding the given values, in order. */
    constructor (vals: seq<string>)
      ensures values == vals
    {
      values := vals;
    }

    /** The value at position index; positions past the end (and, through the
        list's own check, negative ones) fail. */
    method GetValue(index: int) returns (r: Result<string>)
      ensures r.Ok? <==> 0 <= index < |values|
      ensures r.Ok? ==> r.value == values[index]
      ensures r.Err? ==> r.error == OutOfRange
    {
      if 0 <= index < |values| {
        r := Ok(values[index]);
      } else {
        r := Err(OutOfRange);
      }
    }

    /** The values in order. */
    method GetValues() returns (r: seq<string>)
      ensures |r| == |values| && forall i :: 0 <= i < |r| ==> r[i] == values[i]
    {
      r := values;
    }

    /** Overwrites position index with value; out of range fails and changes nothing. */
    method SetValue(index: int, value: string) returns (r: Outcome)
      modifies this
      ensures r.Pass? <==> 0 <= index < old(|values|)
      ensures r.Fail? ==> r.error == OutOfRange && values == old(values)
      ensures r.Pass? ==> |values| == old(|values|) && values[index] == value
      ensures r.Pass? ==> forall j :: 0 <= j < |values| && j != index ==> values[j] == old(values[j])
    {
      if 0 <= index < |values| {
        values := values[index := value];
        r := Pass;
      } else {
        r := Fail(OutOfRange);
      }
    }

    /** Appends one field holding value. */
    method AddField(value: string)
      modifies this
      ensures |values| == old(|values|) + 1 && values[|values| - 1] == value
      ensures values[..old(|values|)] == old(values)
    {
      values := values + [value];
    }

    /** Removes position index, shifting the later fields down; out of range
        fails and changes nothing. */
    method RemoveField(index: int) returns (r: Outcome)
      modifies this
      ensures r.Pass? <==> 0 <= index < old(|values|)
      ensures r.Fail? ==> r.error == OutOfRange && values == old(values)
      ensures r.Pass? ==> values == RemoveAt(old(values), index)
    {
      if 0 <= index < |values| {
        values := RemoveAt(values, index);
        r := Pass;
      } else {
        r := Fail(OutOfRange);
      }
    }

    /** The number of fields. */
    method NoFields() returns (n: int)
      ensures n == |values|
    {
      n := |values|;
    }
  }

  /** The values of a list of records, row by row. */
  ghost function Values(rows: seq<Record>): (r: seq<seq<string>>)
    reads rows
    ensures |r| == |rows| && forall i :: 0 <= i < |rows| ==> r[i] == rows[i].values
  {
    seq(|rows|, i reads rows requires 0 <= i < |rows| => rows[i].values)
  }

  /** Every row extended by one trailing field holding value. */
  function AppendEach(rows: seq<seq<string>>, value: string): (r: seq<seq<string>>)
    ensures |r| == |rows|
    ensures forall k :: 0 <= k < |r| ==> |r[k]| == |rows[k]| + 1 && r[k][|rows[k]|] == value
    ensures forall k :: 0 <= k < |r| ==> r[k][..|rows[k]|] == rows[k]
  {
    seq(|rows|, k requires 0 <= k < |rows| => rows[k] + [value])
  }

  /** Every row has a field at position index. */
  predicate HaveField(rows: seq<seq<string>>, index: int) {
    forall k :: 0 <= k < |rows| ==> 0 <= index < |rows[k]|
  }

  /** Every row without its field at position index. */
  function RemoveEach(rows: seq<seq<string>>, index: int): (r: seq<seq<string>>)
    requires HaveField(rows, index)
    ensures |r| == |rows|
    ensures forall k :: 0 <= k < |r| ==> r[k] == RemoveAt(rows[k], index)
  {
    seq(|rows|, k requires 0 <= k < |rows| => RemoveAt(rows[k], index))
  }

  /** The loop of Table.addColumn: one field holding value is appended to every record. */
  method AddFieldToEach(rows: seq<Record>, value: string)
    requires Distinct(rows)
    modifies rows
    ensures Values(rows) == AppendEach(old(Values(rows)), value)
  {
    var i := 0;
    while i < |rows|
      invariant 0 <= i <= |rows|
      invariant forall j :: 0 <= j < i ==> rows[j].values == old(rows[j].values) + [value]
      invariant forall j :: i <= j < |rows| ==> rows[j].values == old(rows[j].values)
    {
      rows[i].AddField(value);
      i := i + 1;
    }
  }

  /** The loop of Table.deleteColumn and ResultTable.deleteColumn: the field at
      index is removed from every record. */
  method RemoveFieldFromEach(rows: seq<Record>, index: int)
    requires Distinct(rows)
    requires HaveField(Values(rows), index)
    modifies rows
    ensures Values(rows) == RemoveEach(old(Values(rows)), index)
  {
    var i := 0;
    while i < |rows|
      invariant 0 <= i <= |rows|
      invariant forall j :: 0 <= j < i ==> rows[j].values == RemoveAt(old(rows[j].values), index)
      invariant forall j :: i <= j < |rows| ==> rows[j].values == old(rows[j].values)
    {
      var _ := rows[i].RemoveField(index);
      i := i + 1;
    }
  }

  /** The loop of getRows: the values of every record, in row order. */
  method ValuesOf(rows: seq<Record>) returns (r: seq<seq<string>>)
    ensures r == Values(rows)
  {
    r := [];
    var i := 0;
    while i < |rows|
      invariant 0 <= i <= |rows|
      invariant |r| == i && forall j :: 0 <= j < i ==> r[j] == rows[j].values
    {
      var v := rows[i].GetValues();
      r := r + [v];
      i := i + 1;
    }
  }
}
