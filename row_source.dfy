/**
 * The read contract every row source offers, with its two implementations:
 * a source holds either all rows in memory or only their line numbers. The
 * contract is a datatype that dispatches to the implementation it holds.
 */
module RowSource {
  import opened Wrappers
  import opened Entity
  import opened RowUtil
  import opened RowParser
  import EagerRowSource
  import LazyRowSource

  /** A row of the table with a value for every column. */
  predicate OfTable(table: TableDef, row: Row) {
    row.table == table && |row.value| == |table.columns|
  }

  /** Rows of the table stored under their own index keys: what the row maps of a script hold. */
  ghost predicate KeyedByIndex(table: TableDef, rows: map<string, Row>) {
    forall k :: k in rows ==> OfTable(table, rows[k]) && rows[k].CoversKey() && IndexKey(rows[k]) == k
  }

  /** A window of a key-sorted list, read from rows stored under their own keys, is sorted by key. */
  lemma WindowSortedByKey(table: TableDef, ks: seq<string>, rows: map<string, Row>, start: nat, end: int)
    requires forall k :: k in ks ==> k in rows
    requires end <= |ks|
    requires SortedKeys(ks) && KeyedByIndex(table, rows)
    ensures var r := EagerRowSource.Window(ks, rows, start, end);
      LazyRowSource.AllCover(r) && LazyRowSource.SortedByKey(r)
  {
    var r := EagerRowSource.Window(ks, rows, start, end);
    assert forall i :: 0 <= i < |r| ==> r[i] == rows[ks[start + i]] && ks[start + i] in rows;
    assert LazyRowSource.AllCover(r);
    forall i, j | 0 <= i < j < |r| ensures KeyLe(IndexKey(r[i]), IndexKey(r[j])) {
      assert IndexKey(r[i]) == ks[start + i];
      assert IndexKey(r[j]) == ks[start + j];
    }
  }

  /** A row source: an eager one holding the rows, or a lazy one holding their line numbers. */
  datatype RowSource = Eager(eager: EagerRowSource.EagerRowSource) | Lazy(lazy: LazyRowSource.LazyRowSource) {

    /** The keys the source stores a row or a line number under. */
    ghost function Keys(): set<string> {
      match this
      case Eager(e) => e.rows.Keys
      case Lazy(l) => l.lineNumbers.Keys
    }

    /** What the source keeps is consistent: an eager source stores each row under its own index key. */
    ghost predicate Valid() {
      match this
      case Eager(e) => KeyedByIndex(e.table, e.rows)
      case Lazy(_) => true
    }

    /** The table the source holds rows of. */
    function Table(): TableDef {
      match this
      case Eager(e) => e.table
      case Lazy(l) => l.table
    }

    /** getTableName: the name of the table the source holds rows of, whichever kind of source it is. */
    function TableName(): (r: string)
      ensures r == Table().name
    {
      match this
      case Eager(e) => e.TableName()
      case Lazy(l) => l.TableName()
    }

    /** count: the number of stored keys. */
    function Count(): (n: nat)
      ensures n == |Keys()|
    {
      match this
      case Eager(e) => e.Count()
      case Lazy(l) => l.Count()
    }

    /** containsRow: whether the key is stored. */
    predicate ContainsRow(key: string)
      ensures ContainsRow(key) <==> key in Keys()
    {
      match this
      case Eager(e) => e.ContainsRow(key)
      case Lazy(l) => l.ContainsRow(key)
    }

    /** What getRow returns: nothing for a key that is not stored. */
    function RowFor(key: string): (r: Option<Row>)
      ensures key !in Keys() ==> r.None?
    {
      match this
      case Eager(e) => e.GetRow(key)
      case Lazy(l) => l.RowFor(key)
    }

    /** The windows getPart accepts: the lazy source takes a subList, which demands start <= end. */
    predicate PartAllowed(start: nat, number: int) {
      match this
      case Eager(_) => true
      case Lazy(l) => start <= l.EndIndex(start, number)
    }

    ghost function Part(start: nat, number: int): seq<Row>
      requires PartAllowed(start, number)
    {
      match this
      case Eager(e) => e.Part(start, number)
      case Lazy(l) => l.Part(start, number)
    }

    ghost function PartMap(start: nat, number: int): map<string, Row>
      requires PartAllowed(start, number)
    {
      match this
      case Eager(e) => e.PartMap(start, number)
      case Lazy(l) => l.PartMap(start, number)
    }

    ghost function RowsFor(keys: seq<string>): seq<Row> {
      match this
      case Eager(e) => e.RowsFor(Some(keys))
      case Lazy(l) => l.RowsFor(keys)
    }

    ghost function RowsMapFor(keys: seq<string>): map<string, Row> {
      match this
      case Eager(e) => e.RowsMapFor(Some(keys))
      case Lazy(l) => l.RowsMapFor(keys)
    }

    method GetRow(key: string) returns (row: Option<Row>)
      ensures row == RowFor(key)
    {
      match this
      case Eager(e) => row := e.GetRow(key);
      case Lazy(l) => row := l.GetRow(key);
    }

    method GetPart(start: nat, number: int) returns (list: seq<Row>)
      requires PartAllowed(start, number)
      ensures list == Part(start, number)
    {
      match this
      case Eager(e) => list := e.GetPart(start, number);
      case Lazy(l) => list := l.GetPart(start, number);
    }

    method GetAllRows() returns (list: seq<Row>)
      ensures list == Part(0, Count())
    {
      match this
      case Eager(e) => list := e.GetAllRows();
      case Lazy(l) => list := l.GetAllRows();
    }

    method GetPartMap(start: nat, number: int) returns (result: map<string, Row>)
      requires PartAllowed(start, number)
      ensures result == PartMap(start, number)
    {
      match this
      case Eager(e) => result := e.GetPartMap(start, number);
      case Lazy(l) => result := l.GetPartMap(start, number);
    }

    method GetRows(keys: seq<string>) returns (list: seq<Row>)
      ensures list == RowsFor(keys)
    {
      match this
      case Eager(e) => list := e.GetRows(Some(keys));
      case Lazy(l) => list := l.GetRows(keys);
    }

    method GetRowsMap(keys: seq<string>) returns (result: map<string, Row>)
      ensures result == RowsMapFor(keys)
    {
      match this
      case Eager(e) => result := e.GetRowsMap(Some(keys));
      case Lazy(l) => result := l.GetRowsMap(keys);
    }

    /** Every window that starts within the source, of non-negative size, is accepted. */
    lemma WindowWithinCount(start: nat, number: int)
      requires start <= Count() && number >= 0
      ensures PartAllowed(start, number)
    {
    }

    /** getPart and getAllRows return rows sorted by key, as the contract promises. */
    lemma PartSortedByKey(start: nat, number: int)
      requires Valid() && PartAllowed(start, number)
      ensures LazyRowSource.AllCover(Part(start, number))
      ensures LazyRowSource.SortedByKey(Part(start, number))
    {
      match this
      case Eager(e) =>
        e.KeysSortedOnce();
        WindowSortedByKey(e.table, SortedKeySet(e.rows.Keys), e.rows, start, e.WindowEnd(start, number));
      case Lazy(l) =>
    }

    /** getPart hands out rows of the source's table with a value for every column. */
    lemma PartOfTable(start: nat, number: int)
      requires Valid() && PartAllowed(start, number)
      ensures forall i :: 0 <= i < |Part(start, number)| ==> OfTable(Table(), Part(start, number)[i])
    {
    }

    /** getPartMap hands out rows of the source's table with a value for every column, each under its own index key. */
    lemma PartMapOfTable(start: nat, number: int)
      requires Valid() && PartAllowed(start, number)
      ensures var m := PartMap(start, number);
        forall k :: k in m ==> OfTable(Table(), m[k]) && m[k].CoversKey() && IndexKey(m[k]) == k
    {
    }

    /** getRowsMap hands out rows of the source's table with a value for every column, each under its own index key. */
    lemma RowsMapOfTable(keys: seq<string>)
      requires Valid()
      ensures var m := RowsMapFor(keys);
        forall k :: k in m ==> OfTable(Table(), m[k]) && m[k].CoversKey() && IndexKey(m[k]) == k
    {
    }

    /** getRowsMap depends only on which keys are requested, not on their order or repetitions. */
    lemma RowsMapForSameKeys(keys1: seq<string>, keys2: seq<string>)
      requires forall k :: k in keys1 <==> k in keys2
      ensures RowsMapFor(keys1) == RowsMapFor(keys2)
    {
      match this
      case Eager(e) => e.RowsMapForSameKeys(keys1, keys2);
      case Lazy(l) => l.RowsForSameStoredKeys(keys1, keys2);
    }
  }

  /** The eager source built from a script stores every row under its own index key. */
  lemma ScriptRowsKeyedByIndex(table: TableDef, lines: seq<string>)
    ensures KeyedByIndex(table, RowsOfTable(table, lines))
  {
    forall k | k in RowsOfTable(table, lines)
      ensures OfTable(table, RowsOfTable(table, lines)[k])
      ensures RowsOfTable(table, lines)[k].CoversKey() && IndexKey(RowsOfTable(table, lines)[k]) == k
    {
      RowsAndLinesAgree(table, lines, k);
      ExtractedRowCoversKey(table, lines[LinesOfTable(table, lines)[k]]);
    }
  }
}
