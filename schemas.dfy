/** The column catalog: table name to ordered column list, with a count of
    the registered tables (src/db/Schema.java). */
module Schemas {
  import opened Errors
  import opened Lists

  /** The catalog's abstract value: table name to its columns in order. */
  type Catalog = map<string, seq<string>>

  // ----- The operations, as transitions of the catalog ----- //

  /** createTable: a new name is registered with its columns. */
  function CreatedTable(c: Catalog, name: string, columns: seq<string>): (r: Result<Catalog>)
    ensures r.Ok? <==> name !in c
    ensures r.Ok? ==> r.value.Keys == c.Keys + {name} && r.value[name] == columns
    ensures r.Err? ==> r.error == AlreadyExists
  {
    if name in c then Err(AlreadyExists) else Ok(c[name := columns])
  }

  /** dropTable: a registered name is removed. */
  function DroppedTable(c: Catalog, name: string): (r: Result<Catalog>)
    ensures r.Ok? <==> name in c
    ensures r.Ok? ==> r.value.Keys == c.Keys - {name}
    ensures r.Err? ==> r.error == NoSuchTable
  {
    if name in c then Ok(c - {name}) else Err(NoSuchTable)
  }

  /** dropColumn: the first occurrence of the column leaves that table's list. */
  function DroppedColumn(c: Catalog, table: string, col: string): (r: Result<Catalog>)
    ensures r.Ok? <==> table in c && col in c[table]
    ensures r.Ok? ==> r.value.Keys == c.Keys && |r.value[table]| == |c[table]| - 1
    ensures r.Err? ==> r.error == (if table in c then NoSuchColumn else NoSuchTable)
  {
    if table !in c then Err(NoSuchTable)
    else if col !in c[table] then Err(NoSuchColumn)
    else Ok(c[table := RemoveAt(c[table], IndexOf(c[table], col))])
  }

  /** addColumn: a column not yet listed goes at the end of that table's list. */
  function AddedColumn(c: Catalog, table: string, col: string): (r: Result<Catalog>)
    ensures r.Ok? <==> table in c && col !in c[table]
    ensures r.Ok? ==> r.value.Keys == c.Keys && |r.value[table]| == |c[table]| + 1
    ensures r.Ok? ==> r.value[table][..|c[table]|] == c[table] && r.value[table][|c[table]|] == col
    ensures r.Err? ==> r.error == (if table in c then AlreadyExists else NoSuchTable)
  {
    if table !in c then Err(NoSuchTable)
    else if col in c[table] then Err(AlreadyExists)
    else Ok(c[table := c[table] + [col]])
  }

  /** renameColumn: the first occurrence of the old name is replaced in place. */
  function RenamedColumn(c: Catalog, table: string, oldName: string, newName: string): (r: Result<Catalog>)
    ensures r.Ok? <==> table in c && oldName in c[table]
    ensures r.Ok? ==> r.value.Keys == c.Keys && |r.value[table]| == |c[table]|
    ensures r.Ok? ==> r.value[table][IndexOf(c[table], oldName)] == newName
    ensures r.Err? ==> r.error == (if table in c then NoSuchColumn else NoSuchTable)
  {
    if table !in c then Err(NoSuchTable)
    else if oldName !in c[table] then Err(NoSuchColumn)
    else Ok(c[table := c[table][IndexOf(c[table], oldName) := newName]])
  }

  // ----- Properties of the operations ----- //

  /** createTable and dropTable change the number of registered tables by
      exactly one when they succeed, which is what keeps noTables right. */
  lemma {:induction false} TableCountChanges(c: Catalog, name: string, columns: seq<string>)
    ensures CreatedTable(c, name, columns).Ok? <==> name !in c
    ensures CreatedTable(c, name, columns).Ok? ==> |CreatedTable(c, name, columns).value| == |c| + 1
    ensures DroppedTable(c, name).Ok? <==> name in c
    ensures DroppedTable(c, name).Ok? ==> |DroppedTable(c, name).value| == |c| - 1
  {
    if name in c {
      assert (c - {name}).Keys == c.Keys - {name};
    } else {
      assert c[name := columns].Keys == c.Keys + {name};
    }
  }

  /** The column operations never change which tables exist, nor any table
      other than the one named. */
  lemma ColumnChangesStayInTable(c: Catalog, table: string, col: string, newName: string)
    ensures AddedColumn(c, table, col).Ok? ==>
      AddedColumn(c, table, col).value.Keys == c.Keys &&
      forall n :: n in c && n != table ==> AddedColumn(c, table, col).value[n] == c[n]
    ensures DroppedColumn(c, table, col).Ok? ==>
      DroppedColumn(c, table, col).value.Keys == c.Keys &&
      forall n :: n in c && n != table ==> DroppedColumn(c, table, col).value[n] == c[n]
    ensures RenamedColumn(c, table, col, newName).Ok? ==>
      RenamedColumn(c, table, col, newName).value.Keys == c.Keys &&
      forall n :: n in c && n != table ==> RenamedColumn(c, table, col, newName).value[n] == c[n]
  {
  }

  /** Creating a table under a new name and dropping it restores the catalog. */
  lemma {:induction false} CreateThenDrop(c: Catalog, name: string, columns: seq<string>)
    requires name !in c
    ensures DroppedTable(CreatedTable(c, name, columns).value, name) == Ok(c)
  {
    assert c[name := columns] - {name} == c;
  }

  /** Adding a column and dropping it again restores the catalog. */
  lemma {:induction false} AddThenDropColumn(c: Catalog, table: string, col: string)
    requires table in c && col !in c[table]
    ensures AddedColumn(c, table, col).Ok?
    ensures DroppedColumn(AddedColumn(c, table, col).value, table, col) == Ok(c)
  {
    var cols := c[table] + [col];
    assert IndexOf(cols, col) == |c[table]| by {
      forall j | 0 <= j < |c[table]| ensures cols[j] != col {
        assert cols[j] == c[table][j];
      }
    }
    assert RemoveAt(cols, |c[table]|) == c[table];
    assert c[table := cols][table := c[table]] == c;
  }

  /** Renaming a column to a name the table lacks and back restores the catalog. */
  lemma {:induction false} RenameColumnRoundTrip(c: Catalog, table: string, a: string, b: string)
    requires table in c && a in c[table] && b !in c[table]
    ensures RenamedColumn(c, table, a, b).Ok?
    ensures RenamedColumn(RenamedColumn(c, table, a, b).value, table, b, a) == Ok(c)
  {
    var k := IndexOf(c[table], a);
    var cols := c[table][k := b];
    assert cols[k] == b;
    assert IndexOf(cols, b) == k by {
      forall j | 0 <= j < |cols| && j != k ensures cols[j] != b {
        assert cols[j] == c[table][j];
      }
    }
    assert cols[k := a] == c[table];
    assert c[table := cols][table := c[table]] == c;
  }

  // ----- The schema object ----- //

  class Schema {
    var tables: Catalog
    var noTables: int

    /** The counter agrees with the number of entries. */
    ghost predicate Valid()
      reads this
    {
      noTables == |tables|
    }

    /** An empty catalog. */
    constructor ()
      ensures Valid() && tables == map[]
    {
      tables := map[];
      noTables := 0;
    }

    method CreateTable(name: string, columns: seq<string>) returns (r: Outcome)
      requires Valid()
      modifies this
      ensures Valid()
      ensures r == CreatedTable(old(tables), name, columns).ToOutcome()
      ensures tables == CreatedTable(old(tables), name, columns).GetOr(old(tables))
    {
      TableCountChanges(tables, name, columns);
      if name !in tables {
        tables := tables[name := columns];
      } else {
        return Fail(AlreadyExists);
      }
      noTables := noTables + 1;
      r := Pass;
    }

    method DropTable(name: string) returns (r: Outcome)
      requires Valid()
      modifies this
      ensures Valid()
      ensures r == DroppedTable(old(tables), name).ToOutcome()
      ensures tables == DroppedTable(old(tables), name).GetOr(old(tables))
    {
      TableCountChanges(tables, name, []);
      if name in tables {
        tables := tables - {name};
      } else {
        return Fail(NoSuchTable);
      }
      noTables := noTables - 1;
      r := Pass;
    }

    method DropColumn(table: string, col: string) returns (r: Outcome)
      requires Valid()
      modifies this
      ensures Valid() && noTables == old(noTables)
      ensures r == DroppedColumn(old(tables), table, col).ToOutcome()
      ensures tables == DroppedColumn(old(tables), table, col).GetOr(old(tables))
    {
      if table in tables {
        var columns := tables[table];
        if col in columns {
          assert tables[table := RemoveAt(columns, IndexOf(columns, col))].Keys == tables.Keys;
          tables := tables[table := RemoveAt(columns, IndexOf(columns, col))];
          r := Pass;
        } else {
          r := Fail(NoSuchColumn);
        }
      } else {
        r := Fail(NoSuchTable);
      }
    }

    method AddColumn(table: string, col: string) returns (r: Outcome)
      requires Valid()
      modifies this
      ensures Valid() && noTables == old(noTables)
      ensures r == AddedColumn(old(tables), table, col).ToOutcome()
      ensures tables == AddedColumn(old(tables), table, col).GetOr(old(tables))
    {
      if table in tables {
        var columns := tables[table];
        if col !in columns {
          assert tables[table := columns + [col]].Keys == tables.Keys;
          tables := tables[table := columns + [col]];
          r := Pass;
        } else {
          r := Fail(AlreadyExists);
        }
      } else {
        r := Fail(NoSuchTable);
      }
    }

    method RenameColumn(table: string, oldName: string, newName: string) returns (r: Outcome)
      requires Valid()
      modifies this
      ensures Valid() && noTables == old(noTables)
      ensures r == RenamedColumn(old(tables), table, oldName, newName).ToOutcome()
      ensures tables == RenamedColumn(old(tables), table, oldName, newName).GetOr(old(tables))
    {
      if table in tables {
        var columns := tables[table];
        if oldName in columns {
          var columnIndex := IndexOf(columns, oldName);
          assert tables[table := columns[columnIndex := newName]].Keys == tables.Keys;
          tables := tables[table := columns[columnIndex := newName]];
          r := Pass;
        } else {
          r := Fail(NoSuchColumn);
        }
      } else {
        r := Fail(NoSuchTable);
      }
    }

    /** The columns of one table, in order. */
    method Table(name: string) returns (r: Result<seq<string>>)
      ensures r.Ok? <==> name in tables
      ensures r.Ok? ==> r.value == tables[name]
      ensures r.Err? ==> r.error == NoSuchTable
    {
      if name in tables {
        r := Ok(tables[name]);
      } else {
        r := Err(NoSuchTable);
      }
    }

    /** A copy of the whole catalog, built entry by entry. */
    method All() returns (r: map<string, seq<string>>)
      ensures r.Keys == tables.Keys
      ensures forall name :: name in r ==> r[name] == tables[name]
    {
      r := map[];
      var remaining := tables.Keys;
      while remaining != {}
        invariant remaining <= tables.Keys
        invariant r.Keys == tables.Keys - remaining
        invariant forall name :: name in r ==> r[name] == tables[name]
        decreases remaining
      {
        var name :| name in remaining;
        r := r[name := tables[name]];
        remaining := remaining - {name};
      }
    }
  }
}
