/** Columns, tables and rows of an HSQLDB schema. */
module Entity {
  import opened Wrappers

  /** The column type classes a column definition can be sorted into. */
  datatype ColumnType = Numeric | Decimal | Bit | Character | Boolean | Date | Binary

  /** The five fields of a Column, as a value. */
  datatype ColumnDef = ColumnDef(
    name: string,
    colType: Option<ColumnType>,
    isPrimaryKey: bool,
    isUnique: bool,
    isNullable: bool)

  /** A table column; the DDL parser patches its flags in place. */
  class Column {
    var name: string
    var colType: Option<ColumnType>
    var isPrimaryKey: bool
    var isUnique: bool
    var isNullable: bool

    function Def(): ColumnDef
      reads this
    {
      ColumnDef(name, colType, isPrimaryKey, isUnique, isNullable)
    }

    /** The no-argument constructor: no name, no type, every flag false. */
    constructor Empty()
      ensures Def() == ColumnDef("", None, false, false, false)
    {
      name := "";
      colType := None;
      isPrimaryKey := false;
      isUnique := false;
      isNullable := false;
    }

    constructor (name: string, colType: Option<ColumnType>, isPrimaryKey: bool, isUnique: bool, isNullable: bool)
      ensures Def() == ColumnDef(name, colType, isPrimaryKey, isUnique, isNullable)
    {
      this.name := name;
      this.colType := colType;
      this.isPrimaryKey := isPrimaryKey;
      this.isUnique := isUnique;
      this.isNullable := isNullable;
    }

    method SetName(name: string)
      modifies this
      ensures Def() == old(Def()).(name := name)
    {
      this.name := name;
    }

    method SetType(colType: Option<ColumnType>)
      modifies this
      ensures Def() == old(Def()).(colType := colType)
    {
      this.colType := colType;
    }

    method SetPrimaryKey(isPrimaryKey: bool)
      modifies this
      ensures Def() == old(Def()).(isPrimaryKey := isPrimaryKey)
    {
      this.isPrimaryKey := isPrimaryKey;
    }

    method SetUnique(isUnique: bool)
      modifies this
      ensures Def() == old(Def()).(isUnique := isUnique)
    {
      this.isUnique := isUnique;
    }

    method SetNullable(isNullable: bool)
      modifies this
      ensures Def() == old(Def()).(isNullable := isNullable)
    {
      this.isNullable := isNullable;
    }

    /** Column.equals: the same column, or another one with all five fields equal. */
    predicate Equals(other: Column?)
      reads this, other
      ensures Equals(other) <==> other != null && Def() == other.Def()
    {
      other != null &&
      (this == other ||
       (isNullable == other.isNullable && isPrimaryKey == other.isPrimaryKey &&
        isUnique == other.isUnique && name == other.name && colType == other.colType))
    }
  }

  /** The current values of a sequence of columns. */
  function Defs(cols: seq<Column>): (r: seq<ColumnDef>)
    reads cols
    ensures |r| == |cols|
    ensures forall i :: 0 <= i < |cols| ==> r[i] == cols[i].Def()
  {
    seq(|cols|, i requires 0 <= i < |cols| reads cols => cols[i].Def())
  }

  lemma DefsSnoc(cols: seq<Column>, c: Column)
    ensures Defs(cols + [c]) == Defs(cols) + [c.Def()]
  {
  }

  /** No column object occurs twice, so patching one leaves the others alone. */
  ghost predicate DistinctColumns(cols: seq<Column>) {
    forall i, j :: 0 <= i < j < |cols| ==> cols[i] != cols[j]
  }

  lemma DistinctSnoc(cols: seq<Column>, c: Column)
    requires DistinctColumns(cols) && c !in cols
    ensures DistinctColumns(cols + [c])
  {
  }

  /** A table with its columns, as a value. */
  datatype TableDef = TableDef(name: string, columns: seq<ColumnDef>)

  function ColumnNames(cols: seq<ColumnDef>): (names: seq<string>)
    ensures |names| == |cols|
    ensures forall i :: 0 <= i < |cols| ==> names[i] == cols[i].name
  {
    seq(|cols|, i requires 0 <= i < |cols| => cols[i].name)
  }

  /** The positions of the primary-key columns, in column order. */
  function PrimaryKeyIndices(cols: seq<ColumnDef>): seq<nat>
  {
    if cols == [] then []
    else
      PrimaryKeyIndices(cols[..|cols| - 1]) +
      (if cols[|cols| - 1].isPrimaryKey then [|cols| - 1] else [])
  }

  /** The key positions are strictly increasing, lie inside the columns, and are exactly the primary-key columns. */
  lemma {:induction false} PrimaryKeyIndicesFacts(cols: seq<ColumnDef>)
    ensures var r := PrimaryKeyIndices(cols);
      (forall i, j :: 0 <= i < j < |r| ==> r[i] < r[j]) &&
      (forall i :: 0 <= i < |r| ==> r[i] < |cols|) &&
      (forall k :: 0 <= k < |cols| ==> (k in r <==> cols[k].isPrimaryKey))
  {
    if cols != [] {
      PrimaryKeyIndicesFacts(cols[..|cols| - 1]);
      var init := cols[..|cols| - 1];
      forall k | 0 <= k < |init| ensures init[k] == cols[k] {
      }
    }
  }

  /** A row with a value for every column of its table has a value at every key position. */
  lemma WideRowCoversKey(row: Row)
    requires |row.table.columns| <= |row.value|
    ensures row.CoversKey()
  {
    PrimaryKeyIndicesFacts(row.table.columns);
  }


  /** A table; its column objects are shared with the parser that patches them. */
  class Table {
    var name: string
    var columns: seq<Column>

    function Def(): TableDef
      reads this, columns
    {
      TableDef(name, Defs(columns))
    }

    /** The no-argument constructor: no name and no columns. */
    constructor Empty()
      ensures name == "" && columns == []
    {
      name := "";
      columns := [];
    }

    constructor (name: string, columns: seq<Column>)
      ensures this.name == name && this.columns == columns
    {
      this.name := name;
      this.columns := columns;
    }

    method SetName(name: string)
      modifies this`name
      ensures this.name == name
    {
      this.name := name;
    }

    method SetColumns(columns: seq<Column>)
      modifies this`columns
      ensures this.columns == columns
    {
      this.columns := columns;
    }

    /** One name per column, in column order. */
    method GetColumnNames() returns (names: seq<string>)
      ensures |names| == |columns|
      ensures forall i :: 0 <= i < |columns| ==> names[i] == columns[i].name
    {
      var a := new string[|columns|];
      for i := 0 to |columns|
        invariant forall k :: 0 <= k < i ==> a[k] == columns[k].name
      {
        a[i] := columns[i].name;
      }
      names := a[..];
    }

    /** The primary-key column objects, in column order. */
    method GetPrimaryKey() returns (pk: seq<Column>)
      ensures var idx := PrimaryKeyIndices(Def().columns);
        |pk| == |idx| && forall i :: 0 <= i < |idx| ==> idx[i] < |columns| && pk[i] == columns[idx[i]]
    {
      ghost var defs := Def().columns;
      pk := [];
      for i := 0 to |columns|
        invariant var idx := PrimaryKeyIndices(defs[..i]);
          |pk| == |idx| && forall k :: 0 <= k < |idx| ==> idx[k] < i && pk[k] == columns[idx[k]]
      {
        assert defs[..i + 1][..i] == defs[..i];
        if columns[i].isPrimaryKey {
          pk := pk + [columns[i]];
        }
      }
      assert defs[..|columns|] == defs;
    }

    /** The primary-key positions; their properties are those of PrimaryKeyIndices. */
    method GetPrimaryKeyIndices() returns (indices: seq<nat>)
      ensures indices == PrimaryKeyIndices(Def().columns)
    {
      ghost var defs := Def().columns;
      indices := [];
      for i := 0 to |columns|
        invariant indices == PrimaryKeyIndices(defs[..i])
      {
        assert defs[..i + 1][..i] == defs[..i];
        if columns[i].isPrimaryKey {
          indices := indices + [i];
        }
      }
      assert defs[..|columns|] == defs;
    }

    /** Table.equals: equal names and element-wise equal columns. */
    predicate Equals(other: Table?)
      reads this, columns, other, if other == null then [] else other.columns
      ensures Equals(other) <==> other != null && Def() == other.Def()
    {
      other != null &&
      (this == other ||
       (|columns| == |other.columns| &&
        (forall i :: 0 <= i < |columns| ==> columns[i].Equals(other.columns[i])) &&
        name == other.name))
    }
  }

  /** Every table owns its columns: no column object is listed twice or shared by two tables. */
  ghost predicate Separate(tables: seq<Table>)
    reads tables
  {
    (forall i :: 0 <= i < |tables| ==> DistinctColumns(tables[i].columns)) &&
    (forall i, j, c :: 0 <= i < |tables| && 0 <= j < |tables| && i != j && c in tables[i].columns ==>
      c !in tables[j].columns)
  }

  lemma SeparateSnoc(tables: seq<Table>, table: Table)
    requires Separate(tables) && DistinctColumns(table.columns) && table !in tables
    requires forall i, c :: 0 <= i < |tables| && c in table.columns ==> c !in tables[i].columns
    ensures Separate(tables + [table])
  {
  }

  /** A data row of a table. */
  datatype Row = Row(table: TableDef, value: seq<string>) {

    /** Every primary-key position of the table is a position of `value`. */
    predicate CoversKey() {
      var idx := PrimaryKeyIndices(table.columns);
      forall i :: 0 <= i < |idx| ==> idx[i] < |value|
    }

    function PrimaryKey(): seq<string>
      requires CoversKey()
    {
      var idx := PrimaryKeyIndices(table.columns);
      seq(|idx|, i requires 0 <= i < |idx| => value[idx[i]])
    }

    /** Row.equals: element-wise equal values; the table is not compared. */
    predicate Equals(other: Row)
      ensures Equals(other) <==>
        |value| == |other.value| && forall i :: 0 <= i < |value| ==> value[i] == other.value[i]
    {
      value == other.value
    }
  }

  /** Row.getPrimaryKey: the values at the primary-key positions, in order. */
  method GetPrimaryKey(row: Row) returns (pkValue: seq<string>)
    requires row.CoversKey()
    ensures var idx := PrimaryKeyIndices(row.table.columns);
      |pkValue| == |idx| && forall i :: 0 <= i < |idx| ==> pkValue[i] == row.value[idx[i]]
    ensures pkValue == row.PrimaryKey()
  {
    var idx := PrimaryKeyIndices(row.table.columns);
    var a := new string[|idx|];
    for i := 0 to |idx|
      invariant forall k :: 0 <= k < i ==> a[k] == row.value[idx[k]]
    {
      a[i] := row.value[idx[i]];
    }
    pkValue := a[..];
  }
}
