/**
 * The diff engine: walks two row sources of one table in windows of 5000
 * key-sorted positions and writes an INSERT for every changed row whose key
 * the original lacks, an UPDATE for every original row whose changed
 * counterpart holds other values, and a DELETE for every original row whose
 * key the changed source lacks. The output file is a sequence of lines; the
 * writer is opened on the first line written.
 */
module Diff {
  import opened Wrappers
  import opened Entity
  import opened Strings
  import opened RowUtil
  import opened RowSource
  import LazyRowSource
  import EagerRowSource
  import Seqs

  /** PART_SIZE: the number of key-sorted positions each window covers. */
  const PartSize: nat := 5000

  // ---------------------------------------------------------------------------
  // Statement text

  /** Items joined by `sep` after a leading space, or nothing for no items. */
  function Clause(items: seq<string>, sep: string): (c: string)
    ensures c == "" <==> items == []
  {
    if items == [] then "" else " " + Join(items, sep)
  }

  /** One more item: a space before the first, the separator before the others. */
  lemma ClauseSnoc(items: seq<string>, item: string, sep: string)
    ensures Clause(items + [item], sep) == Clause(items, sep) + (if items == [] then " " else sep) + item
  {
    JoinSnoc(items, item, sep);
  }

  /** A strictly ascending list of positions has its i-th entry at i or later. */
  lemma {:induction false} AscendingAtLeastIndex(r: seq<nat>, i: nat)
    requires forall a, b :: 0 <= a < b < |r| ==> r[a] < r[b]
    requires i < |r|
    ensures r[i] >= i
  {
    if i > 0 {
      AscendingAtLeastIndex(r, i - 1);
    }
  }

  /** A row that covers its key holds at least as many values as its table has key columns. */
  lemma KeyFitsValues(row: Row)
    requires row.CoversKey()
    ensures var idx := PrimaryKeyIndices(row.table.columns);
      |idx| <= |row.value| && forall i :: 0 <= i < |idx| ==> idx[i] < |row.table.columns|
  {
    PrimaryKeyIndicesFacts(row.table.columns);
    var idx := PrimaryKeyIndices(row.table.columns);
    if idx != [] {
      AscendingAtLeastIndex(idx, |idx| - 1);
    }
  }

  /**
   * The WHERE conditions of UPDATE and DELETE: the name of the i-th key
   * column paired with the value at position i of the row, not at the key
   * column's own position.
   */
  function Conditions(names: seq<string>, pk: seq<nat>, values: seq<string>): (r: seq<string>)
    requires forall i :: 0 <= i < |pk| ==> pk[i] < |names|
    requires |pk| <= |values|
    ensures |r| == |pk|
    ensures forall i :: 0 <= i < |pk| ==> r[i] == names[pk[i]] + " = " + values[i]
  {
    seq(|pk|, i requires 0 <= i < |pk| => names[pk[i]] + " = " + values[i])
  }

  /** The SET items of UPDATE over the first n columns: `name=value` for every column whose values differ. */
  function SetItems(names: seq<string>, ov: seq<string>, cv: seq<string>, n: nat): (r: seq<string>)
    requires n <= |names| && n <= |ov| && n <= |cv|
  {
    if n == 0 then []
    else
      SetItems(names, ov, cv, n - 1) +
      (if ov[n - 1] != cv[n - 1] then [names[n - 1] + "=" + cv[n - 1]] else [])
  }

  /** The SET list is empty exactly when the values agree on every column it looks at. */
  lemma {:induction false} SetItemsEmpty(names: seq<string>, ov: seq<string>, cv: seq<string>, n: nat)
    requires n <= |names| && n <= |ov| && n <= |cv|
    ensures SetItems(names, ov, cv, n) == [] <==> forall i :: 0 <= i < n ==> ov[i] == cv[i]
  {
    if n > 0 {
      SetItemsEmpty(names, ov, cv, n - 1);
    }
  }

  /** The SET list names exactly the columns whose values differ, each with its changed value. */
  lemma {:induction false} SetItemsNameDiffering(names: seq<string>, ov: seq<string>, cv: seq<string>, n: nat, item: string)
    requires n <= |names| && n <= |ov| && n <= |cv|
    ensures item in SetItems(names, ov, cv, n) <==>
      exists i :: 0 <= i < n && ov[i] != cv[i] && item == names[i] + "=" + cv[i]
  {
    if n > 0 {
      SetItemsNameDiffering(names, ov, cv, n - 1, item);
    }
  }

  /** The INSERT statement: every column name and every value, in column order. */
  function InsertQuery(row: Row): (r: string)
    ensures "INSERT INTO " + row.table.name + " (" + Join(ColumnNames(row.table.columns), ", ") + ") VALUES (" <= r
    ensures |r| >= 2 && r[|r| - 2..] == ");"
  {
    "INSERT INTO " + row.table.name +
    " (" + Join(ColumnNames(row.table.columns), ", ") + ")" +
    " VALUES (" + Join(row.value, ", ") + ");"
  }

  /** Two rows of one table get the same INSERT exactly when their comma-joined values are the same. */
  lemma InsertQueryValues(r1: Row, r2: Row)
    requires r1.table == r2.table
    ensures InsertQuery(r1) == InsertQuery(r2) <==> Join(r1.value, ", ") == Join(r2.value, ", ")
  {
    var head := "INSERT INTO " + r1.table.name + " (" + Join(ColumnNames(r1.table.columns), ", ") + ")" + " VALUES (";
    var a, b := Join(r1.value, ", "), Join(r2.value, ", ");
    assert InsertQuery(r1) == head + a + ");";
    assert InsertQuery(r2) == head + b + ");";
    if InsertQuery(r1) == InsertQuery(r2) {
      assert |a| == |b|;
      assert (head + a + ");")[|head|..|head| + |a|] == a;
      assert (head + b + ");")[|head|..|head| + |b|] == b;
    }
  }

  /** Two rows buildUpdateQueryString can compare: both hold a value for every column of the changed row's table. */
  predicate Comparable(original: Row, changed: Row) {
    |changed.table.columns| <= |original.value| && |changed.table.columns| <= |changed.value| &&
    changed.CoversKey()
  }

  /** The UPDATE statement: the differing columns with the changed values, then the key conditions. */
  function UpdateQuery(original: Row, changed: Row): string
    requires Comparable(original, changed)
  {
    var names := ColumnNames(changed.table.columns);
    KeyFitsValues(changed);
    "UPDATE " + changed.table.name + " SET" +
    Clause(SetItems(names, original.value, changed.value, |names|), ", ") +
    " WHERE" +
    Clause(Conditions(names, PrimaryKeyIndices(changed.table.columns), changed.value), " AND ") + ";"
  }

  /** The DELETE statement: the key conditions of the row. */
  function DeleteQuery(row: Row): string
    requires row.CoversKey()
  {
    KeyFitsValues(row);
    "DELETE FROM " + row.table.name + " WHERE" +
    Clause(Conditions(ColumnNames(row.table.columns), PrimaryKeyIndices(row.table.columns), row.value), " AND ") + ";"
  }

  /** The SET list depends on the original values only through which columns differ. */
  lemma {:induction false} SetItemsSameDifferences(names: seq<string>, ov1: seq<string>, ov2: seq<string>, cv: seq<string>, n: nat)
    requires n <= |names| && n <= |ov1| && n <= |ov2| && n <= |cv|
    requires forall i :: 0 <= i < n ==> (ov1[i] != cv[i] <==> ov2[i] != cv[i])
    ensures SetItems(names, ov1, cv, n) == SetItems(names, ov2, cv, n)
  {
    if n > 0 {
      SetItemsSameDifferences(names, ov1, ov2, cv, n - 1);
    }
  }

  /** The UPDATE of a changed row reads the original row only to tell which columns differ. */
  lemma UpdateDependsOnDifferences(o1: Row, o2: Row, changed: Row)
    requires Comparable(o1, changed) && Comparable(o2, changed)
    requires forall i :: 0 <= i < |changed.table.columns| ==> (o1.value[i] != changed.value[i] <==> o2.value[i] != changed.value[i])
    ensures UpdateQuery(o1, changed) == UpdateQuery(o2, changed)
  {
    var names := ColumnNames(changed.table.columns);
    SetItemsSameDifferences(names, o1.value, o2.value, changed.value, |names|);
  }

  /**
   * The DELETE of a row reads only its leading values, one per key column,
   * whatever positions the key columns hold.
   */
  lemma DeleteReadsLeadingValues(r1: Row, r2: Row)
    requires r1.CoversKey() && r2.CoversKey() && r1.table == r2.table
    requires forall i :: 0 <= i < |PrimaryKeyIndices(r1.table.columns)| && i < |r1.value| && i < |r2.value| ==>
      r1.value[i] == r2.value[i]
    ensures DeleteQuery(r1) == DeleteQuery(r2)
  {
    KeyFitsValues(r1);
    KeyFitsValues(r2);
    var names, pk := ColumnNames(r1.table.columns), PrimaryKeyIndices(r1.table.columns);
    assert Conditions(names, pk, r1.value) == Conditions(names, pk, r2.value);
  }

  /** Appends the WHERE clause to `query` the way both builders do, one key column at a time. */
  method AppendWhere(query: string, names: seq<string>, pk: seq<nat>, values: seq<string>) returns (q: string)
    requires forall i :: 0 <= i < |pk| ==> pk[i] < |names|
    requires |pk| <= |values|
    ensures q == query + Clause(Conditions(names, pk, values), " AND ")
  {
    var conditions := Conditions(names, pk, values);
    q := query;
    assert conditions[..0] == [];
    for i := 0 to |pk|
      invariant q == query + Clause(conditions[..i], " AND ")
    {
      q := AppendCondition(query, q, names, pk, values, i);
    }
    assert conditions[..|pk|] == conditions;
  }

  /** One round of the WHERE loop: the condition on the i-th key column. */
  method AppendCondition(query: string, q: string, names: seq<string>, pk: seq<nat>, values: seq<string>, i: nat)
    returns (next: string)
    requires forall k :: 0 <= k < |pk| ==> pk[k] < |names|
    requires i < |pk| <= |values|
    requires q == query + Clause(Conditions(names, pk, values)[..i], " AND ")
    ensures next == query + Clause(Conditions(names, pk, values)[..i + 1], " AND ")
  {
    var condition := names[pk[i]] + " = " + values[i];
    WhereStep(query, q, Conditions(names, pk, values), i, " AND ", condition);
    next := q + (if i == 0 then " " else " AND ") + condition;
  }

  /** One more condition extends the clause built so far. */
  lemma WhereStep(query: string, q: string, conditions: seq<string>, i: nat, sep: string, condition: string)
    requires i < |conditions| && conditions[i] == condition
    requires q == query + Clause(conditions[..i], sep)
    ensures q + (if i == 0 then " " else sep) + condition == query + Clause(conditions[..i + 1], sep)
  {
    ClauseSnoc(conditions[..i], condition, sep);
    assert conditions[..i + 1] == conditions[..i] + [condition];
  }

  /** The SET list loop of buildUpdateQueryString. */
  method BuildSetList(names: seq<string>, ov: seq<string>, cv: seq<string>) returns (updateList: string)
    requires |names| <= |ov| && |names| <= |cv|
    ensures updateList == Clause(SetItems(names, ov, cv, |names|), ", ")
  {
    updateList := "";
    for i := 0 to |names|
      invariant updateList == Clause(SetItems(names, ov, cv, i), ", ")
    {
      SetStep(names, ov, cv, i, updateList);
      if ov[i] != cv[i] {
        var item := names[i] + "=" + cv[i];
        updateList := updateList + (if updateList == "" then " " else ", ") + item;
      }
    }
  }

  /** One more column extends the SET list when its values differ, and leaves it otherwise. */
  lemma SetStep(names: seq<string>, ov: seq<string>, cv: seq<string>, i: nat, updateList: string)
    requires i < |names| && |names| <= |ov| && |names| <= |cv|
    requires updateList == Clause(SetItems(names, ov, cv, i), ", ")
    ensures Clause(SetItems(names, ov, cv, i + 1), ", ") ==
      if ov[i] != cv[i] then updateList + (if updateList == "" then " " else ", ") + (names[i] + "=" + cv[i])
      else updateList
  {
    if ov[i] != cv[i] {
      assert SetItems(names, ov, cv, i + 1) == SetItems(names, ov, cv, i) + [names[i] + "=" + cv[i]];
      ClauseSnoc(SetItems(names, ov, cv, i), names[i] + "=" + cv[i], ", ");
    } else {
      assert SetItems(names, ov, cv, i + 1) == SetItems(names, ov, cv, i);
    }
  }

  /** buildUpdateQueryString. */
  method BuildUpdateQuery(original: Row, changed: Row) returns (query: string)
    requires Comparable(original, changed)
    ensures query == UpdateQuery(original, changed)
  {
    var names := ColumnNames(changed.table.columns);
    query := "UPDATE " + changed.table.name + " SET";
    var updateList := BuildSetList(names, original.value, changed.value);
    query := query + updateList + " WHERE";
    KeyFitsValues(changed);
    query := AppendWhere(query, names, PrimaryKeyIndices(changed.table.columns), changed.value);
    query := query + ";";
  }

  /** buildDeleteQueryString. */
  method BuildDeleteQuery(row: Row) returns (query: string)
    requires row.CoversKey()
    ensures query == DeleteQuery(row)
  {
    query := "DELETE FROM " + row.table.name + " WHERE";
    KeyFitsValues(row);
    query := AppendWhere(query, ColumnNames(row.table.columns), PrimaryKeyIndices(row.table.columns), row.value);
    query := query + ";";
  }

  /**
   * Rows of the same width that differ get a non-empty SET list, so an
   * UPDATE built for unequal rows always changes something.
   */
  lemma UnequalRowsSetSomething(original: Row, changed: Row)
    requires Comparable(original, changed)
    requires |original.value| == |changed.value| == |changed.table.columns|
    requires !original.Equals(changed)
    ensures var names := ColumnNames(changed.table.columns);
      SetItems(names, original.value, changed.value, |names|) != []
  {
    var names := ColumnNames(changed.table.columns);
    SetItemsEmpty(names, original.value, changed.value, |names|);
  }

  /** When the key columns come first, every condition pairs a key column with its own value. */
  lemma LeadingKeyConditionsMatch(names: seq<string>, pk: seq<nat>, values: seq<string>)
    requires forall i :: 0 <= i < |pk| ==> pk[i] == i
    requires |pk| <= |names| && |pk| <= |values|
    ensures forall i :: 0 <= i < |pk| ==>
      Conditions(names, pk, values)[i] == names[pk[i]] + " = " + values[pk[i]]
  {
  }

  /**
   * With the key in the second column, DELETE pairs the key column's name
   * with the first column's value.
   */
  lemma TrailingKeyTakesFirstValue()
    ensures var table := TableDef("T", [ColumnDef("A", None, false, false, true), ColumnDef("B", None, true, false, false)]);
      var row := Row(table, ["1", "2"]);
      row.CoversKey() && DeleteQuery(row) == "DELETE FROM T WHERE B = 1;"
  {
    var table := TableDef("T", [ColumnDef("A", None, false, false, true), ColumnDef("B", None, true, false, false)]);
    var row := Row(table, ["1", "2"]);
    assert table.columns[..1] == [ColumnDef("A", None, false, false, true)];
    assert PrimaryKeyIndices(table.columns[..1]) == [];
    assert PrimaryKeyIndices(table.columns) == [1];
    assert ColumnNames(table.columns) == ["A", "B"];
    assert Conditions(["A", "B"], [1], ["1", "2"])[0] == "B = 1";
    assert Conditions(["A", "B"], [1], ["1", "2"]) == ["B = 1"];
  }

  lemma JoinPair(a: string, b: string, sep: string)
    ensures Join([a, b], sep) == a + sep + b
  {
    assert [a, b][..1] == [a];
  }

  /** The INSERT statement for a two-column row. */
  lemma InsertListsColumnsAndValues()
    ensures var table := TableDef("T", [ColumnDef("A", None, true, false, false), ColumnDef("B", None, false, false, true)]);
      InsertQuery(Row(table, ["1", "'x'"])) == "INSERT INTO " + "T" + " (" + "A, B" + ")" + " VALUES (" + "1, 'x'" + ");"
  {
    var table := TableDef("T", [ColumnDef("A", None, true, false, false), ColumnDef("B", None, false, false, true)]);
    assert ColumnNames(table.columns) == ["A", "B"];
    JoinPair("A", "B", ", ");
    JoinPair("1", "'x'", ", ");
  }

  // ---------------------------------------------------------------------------
  // Which rows get a statement

  /** The rows whose index key `other` does not store, in order. */
  function AbsentRows(other: RowSource, rows: seq<Row>): (r: seq<Row>)
    requires LazyRowSource.AllCover(rows)
    ensures |r| <= |rows| && LazyRowSource.AllCover(r)
  {
    if rows == [] then []
    else
      var last := rows[|rows| - 1];
      assert rows == rows[..|rows| - 1] + [last];
      AbsentRows(other, rows[..|rows| - 1]) + (if other.ContainsRow(IndexKey(last)) then [] else [last])
  }

  lemma AbsentRowsSnoc(other: RowSource, rows: seq<Row>, row: Row)
    requires LazyRowSource.AllCover(rows) && row.CoversKey()
    ensures LazyRowSource.AllCover(rows + [row])
    ensures AbsentRows(other, rows + [row]) ==
      AbsentRows(other, rows) + (if other.ContainsRow(IndexKey(row)) then [] else [row])
  {
    assert (rows + [row])[..|rows|] == rows;
  }

  /** A row is written exactly when it is among the rows and `other` lacks its key. */
  lemma {:induction false} AbsentRowsMembers(other: RowSource, rows: seq<Row>, row: Row)
    requires LazyRowSource.AllCover(rows)
    ensures row in AbsentRows(other, rows) <==> row in rows && row.CoversKey() && !other.ContainsRow(IndexKey(row))
    decreases |rows|
  {
    if rows != [] {
      assert rows == rows[..|rows| - 1] + [rows[|rows| - 1]];
      AbsentRowsMembers(other, rows[..|rows| - 1], row);
    }
  }

  lemma {:induction false} AbsentRowsConcat(other: RowSource, a: seq<Row>, b: seq<Row>)
    requires LazyRowSource.AllCover(a) && LazyRowSource.AllCover(b)
    ensures LazyRowSource.AllCover(a + b)
    ensures AbsentRows(other, a + b) == AbsentRows(other, a) + AbsentRows(other, b)
    decreases |b|
  {
    if b != [] {
      var init := b[..|b| - 1];
      assert (a + b)[..|a + b| - 1] == a + init;
      AbsentRowsConcat(other, a, init);
    } else {
      assert a + b == a;
    }
  }

  /**
   * The rows of `source` whose key `other` lacks, window by window: the
   * windows start at i, i + 5000, … while below the count.
   */
  ghost function AbsentFrom(other: RowSource, source: RowSource, i: nat): (r: seq<Row>)
    requires source.Valid()
    ensures LazyRowSource.AllCover(r)
    decreases source.Count() - i
  {
    if i >= source.Count() then []
    else
      source.WindowWithinCount(i, PartSize);
      source.PartSortedByKey(i, PartSize);
      var here := AbsentRows(other, source.Part(i, PartSize));
      var rest := AbsentFrom(other, source, i + PartSize);
      CoverConcat(here, rest);
      here + rest
  }

  /** Rows that all cover their keys still do when put one after the other. */
  lemma CoverConcat(a: seq<Row>, b: seq<Row>)
    requires LazyRowSource.AllCover(a) && LazyRowSource.AllCover(b)
    ensures LazyRowSource.AllCover(a + b)
  {
    forall j | 0 <= j < |a + b|
      ensures (a + b)[j].CoversKey()
    {
      if j < |a| {
        assert (a + b)[j] == a[j];
      } else {
        assert (a + b)[j] == b[j - |a|];
      }
    }
  }

  /** The INSERTs checkCreated has written once the windows below i are done. */
  ghost function InsertedBefore(original: RowSource, changed: RowSource, i: nat): seq<string>
    requires changed.Valid()
  {
    InsertQueries(AbsentBefore(original, changed, i))
  }

  /** The DELETEs checkDeleted has written once the windows below i are done. */
  ghost function DeletedBefore(changed: RowSource, original: RowSource, i: nat): seq<string>
    requires original.Valid()
  {
    DeleteQueries(AbsentBefore(changed, original, i))
  }

  /** i is where a window starts: 0, 5000, 10000, … */
  ghost predicate WindowStart(i: nat)
    decreases i
  {
    i == 0 || (i >= PartSize && WindowStart(i - PartSize))
  }

  /** The rows of `source` whose key `other` lacks, in the windows that start below i. */
  ghost function AbsentBefore(other: RowSource, source: RowSource, i: nat): (r: seq<Row>)
    requires source.Valid()
    decreases i
  {
    if i < PartSize then []
    else if i - PartSize < source.Count() then
      source.WindowWithinCount(i - PartSize, PartSize);
      source.PartSortedByKey(i - PartSize, PartSize);
      AbsentBefore(other, source, i - PartSize) + AbsentRows(other, source.Part(i - PartSize, PartSize))
    else AbsentBefore(other, source, i - PartSize)
  }

  /** The INSERT of every row, in order. */
  function InsertQueries(rows: seq<Row>): (r: seq<string>)
    ensures |r| == |rows|
  {
    Seqs.Map(InsertQuery, rows)
  }

  /**
   * The DELETE written for a row of a window. Every row a window hands out
   * covers its key (see AbsentFrom), so the empty text is never written.
   */
  function DeleteLine(row: Row): string {
    if row.CoversKey() then DeleteQuery(row) else ""
  }

  /** The DELETE of every row, in order. */
  function DeleteQueries(rows: seq<Row>): (r: seq<string>)
    ensures |r| == |rows|
  {
    Seqs.Map(DeleteLine, rows)
  }

  /** Rows of a window that checkUpdated can compare: each original row covers its key and fits its counterpart. */
  predicate UpdateReady(oMap: map<string, Row>, cMap: map<string, Row>) {
    forall k :: k in oMap ==>
      oMap[k].CoversKey() && (IndexKey(oMap[k]) in cMap ==> Comparable(oMap[k], cMap[IndexKey(oMap[k])]))
  }

  /**
   * The UPDATE written for the original row stored under `k`, if its
   * counterpart differs. Rows that cannot be compared get none here; the
   * diff only runs on windows where every row can be.
   */
  function UpdateFor(oMap: map<string, Row>, cMap: map<string, Row>, k: string): seq<string> {
    if k !in oMap || !oMap[k].CoversKey() then []
    else
      var oRow := oMap[k];
      var key := IndexKey(oRow);
      if key in cMap && Comparable(oRow, cMap[key]) && !oRow.Equals(cMap[key]) then [UpdateQuery(oRow, cMap[key])]
      else []
  }

  /** The UPDATE, if any, for the original row stored under a key. */
  function Updater(oMap: map<string, Row>, cMap: map<string, Row>): string -> seq<string> {
    k => UpdateFor(oMap, cMap, k)
  }

  /** The UPDATEs written when the original rows are visited in the order of `ks`. */
  function UpdatesIn(oMap: map<string, Row>, cMap: map<string, Row>, ks: seq<string>): seq<string> {
    Seqs.FlatMap(Updater(oMap, cMap), ks)
  }

  lemma UpdatesInSnoc(oMap: map<string, Row>, cMap: map<string, Row>, ks: seq<string>, k: string)
    ensures UpdatesIn(oMap, cMap, ks + [k]) == UpdatesIn(oMap, cMap, ks) + UpdateFor(oMap, cMap, k)
  {
    assert (ks + [k])[..|ks|] == ks;
  }

  /** Two lists with the same keys and no repetitions are permutations of each other. */
  lemma SameKeysOnce(a: seq<string>, b: seq<string>)
    requires forall i, j :: 0 <= i < j < |a| ==> a[i] != a[j]
    requires forall i, j :: 0 <= i < j < |b| ==> b[i] != b[j]
    requires forall k :: k in a <==> k in b
    ensures multiset(a) == multiset(b)
  {
    forall k ensures multiset(a)[k] == multiset(b)[k] {
      KeyOnce(a, k);
      KeyOnce(b, k);
    }
  }

  lemma KeyOnce(s: seq<string>, k: string)
    requires forall i, j :: 0 <= i < j < |s| ==> s[i] != s[j]
    ensures multiset(s)[k] == if k in s then 1 else 0
    decreases |s|
  {
    if s != [] {
      assert s == [s[0]] + s[1..];
      KeyOnce(s[1..], k);
      if k == s[0] {
        assert k !in s[1..];
      }
    }
  }

  /** Both sources hold consistent rows, and the original rows are as wide as the changed table. */
  ghost predicate Diffable(original: RowSource, changed: RowSource) {
    original.Valid() && changed.Valid() && |changed.Table().columns| <= |original.Table().columns|
  }

  lemma WindowReady(original: RowSource, changed: RowSource, oMap: map<string, Row>, cMap: map<string, Row>)
    requires Diffable(original, changed)
    requires forall k :: k in oMap ==> OfTable(original.Table(), oMap[k]) && oMap[k].CoversKey()
    requires forall k :: k in cMap ==> OfTable(changed.Table(), cMap[k]) && cMap[k].CoversKey()
    ensures UpdateReady(oMap, cMap)
  {
  }

  /** A list holding each of the keys once: an order in which a HashMap's iteration may visit them. */
  ghost predicate Enumerates(vs: seq<string>, keys: set<string>) {
    (forall k :: k in vs <==> k in keys) && forall a, b :: 0 <= a < b < |vs| ==> vs[a] != vs[b]
  }

  /** The UPDATEs of the window at i when its original rows are visited in the order `vs`. */
  ghost function WindowUpdates(original: RowSource, changed: RowSource, i: nat, vs: seq<string>): seq<string>
    requires Diffable(original, changed) && i <= original.Count()
  {
    original.WindowWithinCount(i, PartSize);
    UpdatesIn(original.PartMap(i, PartSize), changed.RowsMapFor(vs), vs)
  }

  /** What checkUpdated writes for the window at i: its UPDATEs, in some order of its original keys. */
  ghost predicate WindowSegment(original: RowSource, changed: RowSource, i: nat, segment: seq<string>)
    requires Diffable(original, changed) && i <= original.Count()
  {
    original.WindowWithinCount(i, PartSize);
    exists vs :: Enumerates(vs, original.PartMap(i, PartSize).Keys) && segment == WindowUpdates(original, changed, i, vs)
  }

  /** n windows of 5000 start below count, and no further one does. */
  predicate WindowCount(n: nat, count: nat) {
    n * PartSize >= count && (n == 0 || (n - 1) * PartSize < count)
  }

  /** The w-th segment is what checkUpdated writes for the w-th window, which starts within the source. */
  ghost predicate SegmentOfWindow(original: RowSource, changed: RowSource, w: nat, segment: seq<string>)
    requires Diffable(original, changed)
  {
    w * PartSize <= original.Count() && WindowSegment(original, changed, w * PartSize, segment)
  }

  /** What checkUpdated writes: one segment for every window that starts below the count. */
  ghost predicate UpdateSegments(original: RowSource, changed: RowSource, segments: seq<seq<string>>)
    requires Diffable(original, changed)
  {
    WindowCount(|segments|, original.Count()) && WindowSegments(original, changed, segments)
  }

  /** Each segment is the one of its window. */
  ghost predicate WindowSegments(original: RowSource, changed: RowSource, segments: seq<seq<string>>)
    requires Diffable(original, changed)
    decreases |segments|
  {
    segments == [] ||
    (WindowSegments(original, changed, segments[..|segments| - 1]) &&
     SegmentOfWindow(original, changed, |segments| - 1, segments[|segments| - 1]))
  }

  /** The segment of the next window, appended, keeps each segment the one of its window. */
  lemma SegmentsSnoc(original: RowSource, changed: RowSource, done: seq<seq<string>>, segment: seq<string>)
    requires Diffable(original, changed) && WindowSegments(original, changed, done)
    requires SegmentOfWindow(original, changed, |done|, segment)
    ensures WindowSegments(original, changed, done + [segment])
  {
    assert (done + [segment])[..|done|] == done;
  }

  /**
   * What process writes for a pair of sources: the INSERTs, then the UPDATEs
   * of some visit order of every window, then the DELETEs.
   */
  ghost predicate Processed(original: RowSource, changed: RowSource, output: seq<string>)
    requires Diffable(original, changed)
  {
    exists segments :: UpdateSegments(original, changed, segments) &&
      output == InsertQueries(AbsentFrom(original, changed, 0)) + Seqs.Concat(segments) +
        DeleteQueries(AbsentFrom(changed, original, 0))
  }

  /** Any two visiting orders of a window write the same UPDATEs, rearranged. */
  lemma WindowOrderIrrelevant(original: RowSource, changed: RowSource, i: nat, vs1: seq<string>, vs2: seq<string>)
    requires Diffable(original, changed) && i <= original.Count()
    requires original.PartAllowed(i, PartSize)
    requires Enumerates(vs1, original.PartMap(i, PartSize).Keys) && Enumerates(vs2, original.PartMap(i, PartSize).Keys)
    ensures multiset(WindowUpdates(original, changed, i, vs1)) == multiset(WindowUpdates(original, changed, i, vs2))
  {
    changed.RowsMapForSameKeys(vs1, vs2);
    VisitOrderIrrelevant(original.PartMap(i, PartSize), changed.RowsMapFor(vs1), vs1, vs2);
  }

  /** new ArrayList<>(keySet()): the keys in the map's own order. */
  method KeyList(keys: set<string>) returns (list: seq<string>)
    ensures forall k :: k in list <==> k in keys
  {
    list := [];
    var rest := keys;
    while rest != {}
      invariant rest <= keys
      invariant forall k :: k in list <==> k in keys && k !in rest
      decreases |rest|
    {
      var k :| k in rest;
      list := list + [k];
      rest := rest - {k};
    }
  }

  // ---------------------------------------------------------------------------
  // The processor

  /** A diff processor for one table: the lines it has written and whether its writer was opened and closed. */
  class DiffProcessor {
    const tableName: string
    const outputDir: string
    /** The writer exists: it is created on the first line written. */
    var writerOpen: bool
    var writerClosed: bool
    var output: seq<string>

    constructor (tableName: string, outputDir: string)
      ensures this.tableName == tableName && this.outputDir == outputDir
      ensures !writerOpen && !writerClosed && output == []
    {
      this.tableName := tableName;
      this.outputDir := outputDir;
      writerOpen := false;
      writerClosed := false;
      output := [];
    }

    /** The file the writer opens. */
    function OutputPath(): string {
      outputDir + "\\" + tableName + ".txt"
    }

    /** openWriter().write(line) followed by openWriter().newLine(). */
    method WriteLine(line: string)
      modifies this
      ensures writerOpen && output == old(output) + [line] && writerClosed == old(writerClosed)
    {
      writerOpen := true;
      output := output + [line];
    }

    /** closeWriter: closes the writer if one was writerOpen. */
    method CloseWriter()
      modifies this
      ensures writerClosed == (old(writerClosed) || old(writerOpen))
      ensures writerOpen == old(writerOpen) && output == old(output)
    {
      if writerOpen {
        writerClosed := true;
      }
    }

    /** Writes the lines in order, opening the writer on the first. */
    method WriteLines(lines: seq<string>)
      modifies this
      ensures output == old(output) + lines
      ensures writerOpen == (old(writerOpen) || lines != [])
      ensures writerClosed == old(writerClosed)
    {
      for j := 0 to |lines|
        invariant output == old(output) + lines[..j]
        invariant writerOpen == (old(writerOpen) || j > 0)
        invariant writerClosed == old(writerClosed)
      {
        assert lines[..j + 1] == lines[..j] + [lines[j]];
        WriteLine(lines[j]);
      }
      assert lines[..|lines|] == lines;
    }

    /** checkCreated: every window of the changed rows, INSERTs for the keys the original lacks. */
    method CheckCreated(original: RowSource, changed: RowSource)
      modifies this
      requires changed.Valid()
      ensures output == old(output) + InsertQueries(AbsentFrom(original, changed, 0))
      ensures writerOpen == (old(writerOpen) || AbsentFrom(original, changed, 0) != [])
      ensures writerClosed == old(writerClosed)
    {
      var lines := CreatedLines(original, changed);
      WriteLines(lines);
    }

    /** checkUpdated: every window of the original rows as a map, compared with the changed rows of the same keys. */
    method CheckUpdated(original: RowSource, changed: RowSource) returns (ghost segments: seq<seq<string>>)
      modifies this
      requires Diffable(original, changed)
      ensures UpdateSegments(original, changed, segments)
      ensures output == old(output) + Seqs.Concat(segments)
      ensures writerOpen == (old(writerOpen) || Seqs.Concat(segments) != [])
      ensures writerClosed == old(writerClosed)
    {
      var lines;
      lines, segments := UpdatedLines(original, changed);
      WriteLines(lines);
    }

    /** checkDeleted: every window of the original rows, DELETEs for the keys the changed source lacks. */
    method CheckDeleted(original: RowSource, changed: RowSource)
      modifies this
      requires original.Valid()
      ensures output == old(output) + DeleteQueries(AbsentFrom(changed, original, 0))
      ensures writerOpen == (old(writerOpen) || AbsentFrom(changed, original, 0) != [])
      ensures writerClosed == old(writerClosed)
    {
      var lines := DeletedLines(original, changed);
      WriteLines(lines);
    }

    /**
     * process: all INSERTs, then all UPDATEs, then all DELETEs; the writer is
     * writerClosed at the end if it was writerOpen.
     */
    method Process(original: RowSource, changed: RowSource) returns (ghost segments: seq<seq<string>>)
      modifies this
      requires Diffable(original, changed)
      ensures UpdateSegments(original, changed, segments)
      ensures output == old(output) + InsertQueries(AbsentFrom(original, changed, 0)) + Seqs.Concat(segments) +
        DeleteQueries(AbsentFrom(changed, original, 0))
      ensures writerOpen == (old(writerOpen) || output != old(output))
      ensures writerClosed == (old(writerClosed) || writerOpen)
    {
      ghost var before := output;
      CheckCreated(original, changed);
      segments := CheckUpdated(original, changed);
      CheckDeleted(original, changed);
      WrittenIff(before, InsertQueries(AbsentFrom(original, changed, 0)), Seqs.Concat(segments),
        DeleteQueries(AbsentFrom(changed, original, 0)));
      CloseWriter();
    }
  }

  /** Appending three blocks of lines changes the output exactly when one of them is not empty. */
  lemma WrittenIff(before: seq<string>, a: seq<string>, b: seq<string>, c: seq<string>)
    ensures before + a + b + c != before <==> a != [] || b != [] || c != []
  {
    assert |before + a + b + c| == |before| + |a| + |b| + |c|;
  }

  /** The lines checkCreated writes, window by window of the changed rows. */
  method CreatedLines(original: RowSource, changed: RowSource) returns (lines: seq<string>)
    requires changed.Valid()
    ensures lines == InsertQueries(AbsentFrom(original, changed, 0))
  {
    lines := [];
    var i: nat := 0;
    while i < changed.Count()
      invariant WindowStart(i)
      invariant CreatedUpTo(original, changed, i, lines)
      decreases changed.Count() - i
    {
      lines := CreatedWindow(original, changed, i, lines);
      i := i + PartSize;
    }
    CreatedAll(original, changed, i, lines);
  }

  /** One window of the loop above: the statements for the rows of the window at i, appended to those written so far. */
  method CreatedWindow(original: RowSource, changed: RowSource, i: nat, written: seq<string>) returns (lines: seq<string>)
    requires changed.Valid() && i < changed.Count() && WindowStart(i)
    requires CreatedUpTo(original, changed, i, written)
    ensures CreatedUpTo(original, changed, i + PartSize, lines)
  {
    WindowCovered(changed, i);
    var part := changed.GetPart(i, PartSize);
    var window := InsertsFor(original, part);
    CreatedStep(original, changed, i, written, window);
    lines := written + window;
  }

  /** The window's statements extend those of the windows before it. */
  lemma CreatedStep(original: RowSource, changed: RowSource, i: nat, written: seq<string>, window: seq<string>)
    requires changed.Valid() && i < changed.Count() && CreatedUpTo(original, changed, i, written)
    requires changed.PartAllowed(i, PartSize)
    requires window == InsertQueries(AbsentRows(original, changed.Part(i, PartSize)))
    ensures CreatedUpTo(original, changed, i + PartSize, written + window)
  {
    CreatedUpToIs(original, changed, i, written);
    AbsentBeforeStep(original, changed, i);
    InsertQueriesConcat(AbsentBefore(original, changed, i), AbsentRows(original, changed.Part(i, PartSize)));
    CreatedUpToOf(original, changed, i + PartSize, written + window);
  }

  /**
   * The INSERTs written once the windows below i are done, stated so that the
   * window contents are unfolded only at the i a proof asks about.
   */
  ghost predicate CreatedUpTo(original: RowSource, changed: RowSource, i: nat, lines: seq<string>)
    requires changed.Valid()
  {
    forall j: nat {:trigger InsertedBefore(original, changed, j)} :: j == i ==> lines == InsertedBefore(original, changed, j)
  }

  lemma CreatedUpToIs(original: RowSource, changed: RowSource, i: nat, lines: seq<string>)
    requires changed.Valid() && CreatedUpTo(original, changed, i, lines)
    ensures lines == InsertedBefore(original, changed, i)
  {
  }

  lemma CreatedUpToOf(original: RowSource, changed: RowSource, i: nat, lines: seq<string>)
    requires changed.Valid() && lines == InsertedBefore(original, changed, i)
    ensures CreatedUpTo(original, changed, i, lines)
  {
  }

  /** Past the last window, the lines written are all the INSERTs. */
  lemma CreatedAll(original: RowSource, changed: RowSource, i: nat, lines: seq<string>)
    requires changed.Valid() && WindowStart(i) && i >= changed.Count()
    requires CreatedUpTo(original, changed, i, lines)
    ensures lines == InsertQueries(AbsentFrom(original, changed, 0))
  {
    CreatedUpToIs(original, changed, i, lines);
    AbsentBeforeAll(original, changed, i);
  }

  /** The lines checkDeleted writes, window by window of the original rows. */
  method DeletedLines(original: RowSource, changed: RowSource) returns (lines: seq<string>)
    requires original.Valid()
    ensures lines == DeleteQueries(AbsentFrom(changed, original, 0))
  {
    lines := [];
    var i: nat := 0;
    while i < original.Count()
      invariant WindowStart(i)
      invariant DeletedUpTo(changed, original, i, lines)
      decreases original.Count() - i
    {
      lines := DeletedWindow(original, changed, i, lines);
      i := i + PartSize;
    }
    DeletedAll(changed, original, i, lines);
  }

  /** One window of the loop above: the statements for the rows of the window at i, appended to those written so far. */
  method DeletedWindow(original: RowSource, changed: RowSource, i: nat, written: seq<string>) returns (lines: seq<string>)
    requires original.Valid() && i < original.Count() && WindowStart(i)
    requires DeletedUpTo(changed, original, i, written)
    ensures DeletedUpTo(changed, original, i + PartSize, lines)
  {
    WindowCovered(original, i);
    var part := original.GetPart(i, PartSize);
    var window := DeletesFor(changed, part);
    DeletedStep(changed, original, i, written, window);
    lines := written + window;
  }

  /** The window's statements extend those of the windows before it. */
  lemma DeletedStep(changed: RowSource, original: RowSource, i: nat, written: seq<string>, window: seq<string>)
    requires original.Valid() && i < original.Count() && DeletedUpTo(changed, original, i, written)
    requires original.PartAllowed(i, PartSize)
    requires window == DeleteQueries(AbsentRows(changed, original.Part(i, PartSize)))
    ensures DeletedUpTo(changed, original, i + PartSize, written + window)
  {
    DeletedUpToIs(changed, original, i, written);
    AbsentBeforeStep(changed, original, i);
    DeleteQueriesConcat(AbsentBefore(changed, original, i), AbsentRows(changed, original.Part(i, PartSize)));
    DeletedUpToOf(changed, original, i + PartSize, written + window);
  }

  /**
   * The DELETEs written once the windows below i are done, stated so that the
   * window contents are unfolded only at the i a proof asks about.
   */
  ghost predicate DeletedUpTo(changed: RowSource, original: RowSource, i: nat, lines: seq<string>)
    requires original.Valid()
  {
    forall j: nat {:trigger DeletedBefore(changed, original, j)} :: j == i ==> lines == DeletedBefore(changed, original, j)
  }

  lemma DeletedUpToIs(changed: RowSource, original: RowSource, i: nat, lines: seq<string>)
    requires original.Valid() && DeletedUpTo(changed, original, i, lines)
    ensures lines == DeletedBefore(changed, original, i)
  {
  }

  lemma DeletedUpToOf(changed: RowSource, original: RowSource, i: nat, lines: seq<string>)
    requires original.Valid() && lines == DeletedBefore(changed, original, i)
    ensures DeletedUpTo(changed, original, i, lines)
  {
  }

  /** Past the last window, the lines written are all the DELETEs. */
  lemma DeletedAll(changed: RowSource, original: RowSource, i: nat, lines: seq<string>)
    requires original.Valid() && WindowStart(i) && i >= original.Count()
    requires DeletedUpTo(changed, original, i, lines)
    ensures lines == DeleteQueries(AbsentFrom(changed, original, 0))
  {
    DeletedUpToIs(changed, original, i, lines);
    AbsentBeforeAll(changed, original, i);
  }

  /** The lines checkUpdated writes: one segment per window of the original rows. */
  method UpdatedLines(original: RowSource, changed: RowSource) returns (lines: seq<string>, ghost segments: seq<seq<string>>)
    requires Diffable(original, changed)
    ensures UpdateSegments(original, changed, segments)
    ensures lines == Seqs.Concat(segments)
  {
    lines := [];
    segments := [];
    var i: nat := 0;
    while i < original.Count()
      invariant UpdatedUpTo(original, changed, i, lines, segments)
      decreases original.Count() - i
    {
      lines, segments := UpdatedWindow(original, changed, i, lines, segments);
      i := i + PartSize;
    }
    UpdatedAll(original, changed, i, lines, segments);
  }

  /** The segments written once the windows below i are done, one per window, and the lines they flatten to. */
  ghost predicate UpdatedUpTo(original: RowSource, changed: RowSource, i: nat, lines: seq<string>, segments: seq<seq<string>>)
    requires Diffable(original, changed)
  {
    i == |segments| * PartSize &&
    (|segments| == 0 || (|segments| - 1) * PartSize < original.Count()) &&
    WindowSegments(original, changed, segments) &&
    lines == Seqs.Concat(segments)
  }

  /** One window of the loop above: its segment appended to those written so far. */
  method UpdatedWindow(original: RowSource, changed: RowSource, i: nat, written: seq<string>, ghost done: seq<seq<string>>)
    returns (lines: seq<string>, ghost segments: seq<seq<string>>)
    requires Diffable(original, changed) && i < original.Count()
    requires UpdatedUpTo(original, changed, i, written, done)
    ensures UpdatedUpTo(original, changed, i + PartSize, lines, segments)
  {
    var segment := WindowUpdateLines(original, changed, i);
    assert SegmentOfWindow(original, changed, |done|, segment);
    UpdatedStep(original, changed, i, written, done, segment);
    lines := written + segment;
    segments := done + [segment];
  }

  /** The window's segment, appended, keeps one segment per window. */
  lemma UpdatedStep(original: RowSource, changed: RowSource, i: nat, written: seq<string>, done: seq<seq<string>>, segment: seq<string>)
    requires Diffable(original, changed) && i < original.Count()
    requires UpdatedUpTo(original, changed, i, written, done)
    requires SegmentOfWindow(original, changed, |done|, segment)
    ensures UpdatedUpTo(original, changed, i + PartSize, written + segment, done + [segment])
  {
    NextWindow(original.Count(), i, |done|);
    SegmentsSnoc(original, changed, done, segment);
    Seqs.ConcatSnoc(done, segment);
  }

  /** The window after the n-th starts one part further on, and the n-th starts below the count. */
  lemma NextWindow(count: nat, i: nat, n: nat)
    requires i == n * PartSize && i < count
    ensures i + PartSize == (n + 1) * PartSize && n * PartSize < count
  {
  }

  /** Past the last window, the segments are one per window. */
  lemma UpdatedAll(original: RowSource, changed: RowSource, i: nat, lines: seq<string>, segments: seq<seq<string>>)
    requires Diffable(original, changed) && i >= original.Count()
    requires UpdatedUpTo(original, changed, i, lines, segments)
    ensures UpdateSegments(original, changed, segments) && lines == Seqs.Concat(segments)
  {
  }

  /** One window of checkUpdated: the original rows of the window as a map, compared with the changed rows of their keys. */
  method WindowUpdateLines(original: RowSource, changed: RowSource, i: nat) returns (segment: seq<string>)
    requires Diffable(original, changed) && i < original.Count()
    ensures WindowSegment(original, changed, i, segment)
    ensures forall w: nat :: w * PartSize == i ==> SegmentOfWindow(original, changed, w, segment)
  {
    original.WindowWithinCount(i, PartSize);
    var oMap := original.GetPartMap(i, PartSize);
    var keys := KeyList(oMap.Keys);
    var cMap := changed.GetRowsMap(keys);
    original.PartMapOfTable(i, PartSize);
    changed.RowsMapOfTable(keys);
    WindowReady(original, changed, oMap, cMap);
    ghost var visited;
    segment, visited := UpdatesFor(oMap, cMap);
    changed.RowsMapForSameKeys(keys, visited);
    assert segment == WindowUpdates(original, changed, i, visited);
  }

  /** The window at i can be read, and its rows have keys. */
  lemma WindowCovered(source: RowSource, i: nat)
    requires source.Valid() && i < source.Count()
    ensures source.PartAllowed(i, PartSize) && LazyRowSource.AllCover(source.Part(i, PartSize))
  {
    source.WindowWithinCount(i, PartSize);
    source.PartSortedByKey(i, PartSize);
  }

  /** The window at i accounts for the first part of what is absent from i on. */
  lemma AbsentFromStep(other: RowSource, source: RowSource, i: nat)
    requires source.Valid() && i < source.Count()
    ensures source.PartAllowed(i, PartSize) && LazyRowSource.AllCover(source.Part(i, PartSize))
    ensures AbsentFrom(other, source, i) == AbsentRows(other, source.Part(i, PartSize)) + AbsentFrom(other, source, i + PartSize)
  {
    source.WindowWithinCount(i, PartSize);
    source.PartSortedByKey(i, PartSize);
  }

  /** The window at i is the last part of what is absent before the next window. */
  lemma AbsentBeforeStep(other: RowSource, source: RowSource, i: nat)
    requires source.Valid() && i < source.Count()
    ensures source.PartAllowed(i, PartSize) && LazyRowSource.AllCover(source.Part(i, PartSize))
    ensures AbsentBefore(other, source, i + PartSize) ==
      AbsentBefore(other, source, i) + AbsentRows(other, source.Part(i, PartSize))
  {
    source.WindowWithinCount(i, PartSize);
    source.PartSortedByKey(i, PartSize);
    assert i + PartSize - PartSize == i;
  }

  /**
   * What lies before the window boundary i and what lies from it on make up
   * all the absent rows, stated so that both sides are unfolded only at the
   * i a proof asks about.
   */
  ghost predicate BeforeAndFrom(other: RowSource, source: RowSource, i: nat)
    requires source.Valid()
  {
    forall k: nat {:trigger AbsentBefore(other, source, k)} :: k == i ==>
      AbsentBefore(other, source, k) + AbsentFrom(other, source, k) == AbsentFrom(other, source, 0)
  }

  lemma BeforeAndFromIs(other: RowSource, source: RowSource, i: nat)
    requires source.Valid() && BeforeAndFrom(other, source, i)
    ensures AbsentBefore(other, source, i) + AbsentFrom(other, source, i) == AbsentFrom(other, source, 0)
  {
  }

  lemma BeforeAndFromOf(other: RowSource, source: RowSource, i: nat)
    requires source.Valid()
    requires AbsentBefore(other, source, i) + AbsentFrom(other, source, i) == AbsentFrom(other, source, 0)
    ensures BeforeAndFrom(other, source, i)
  {
  }

  /** Every window boundary splits the absent rows into what lies before it and what lies from it on. */
  lemma {:induction false} AbsentBeforeFrom(other: RowSource, source: RowSource, i: nat)
    requires source.Valid() && WindowStart(i)
    ensures BeforeAndFrom(other, source, i)
    decreases i
  {
    if i == 0 {
      SplitAtStart(other, source);
    } else {
      var j := i - PartSize;
      assert WindowStart(j);
      AbsentBeforeFrom(other, source, j);
      if j < source.Count() {
        SplitMovesOn(other, source, j);
      } else {
        SplitPastEnd(other, source, j);
      }
      assert j + PartSize == i;
    }
  }

  /** Before the first window nothing lies. */
  lemma SplitAtStart(other: RowSource, source: RowSource)
    requires source.Valid()
    ensures BeforeAndFrom(other, source, 0)
  {
    NothingBeforeStart(other, source);
    Seqs.EmptyPrefix(AbsentFrom(other, source, 0));
    BeforeAndFromOf(other, source, 0);
  }

  lemma NothingBeforeStart(other: RowSource, source: RowSource)
    requires source.Valid()
    ensures AbsentBefore(other, source, 0) == []
  {
  }

  /** Moving the split point over a window keeps the whole. */
  lemma SplitMovesOn(other: RowSource, source: RowSource, j: nat)
    requires source.Valid() && j < source.Count() && BeforeAndFrom(other, source, j)
    ensures BeforeAndFrom(other, source, j + PartSize)
  {
    BeforeAndFromIs(other, source, j);
    AbsentFromStep(other, source, j);
    AbsentBeforeStep(other, source, j);
    Seqs.AppendStep(AbsentFrom(other, source, 0), AbsentBefore(other, source, j), AbsentFrom(other, source, j),
      AbsentRows(other, source.Part(j, PartSize)), AbsentFrom(other, source, j + PartSize));
    BeforeAndFromOf(other, source, j + PartSize);
  }

  /** Past the count nothing is absent, and a further window adds nothing before. */
  lemma SplitPastEnd(other: RowSource, source: RowSource, j: nat)
    requires source.Valid() && j >= source.Count() && BeforeAndFrom(other, source, j)
    ensures BeforeAndFrom(other, source, j + PartSize)
  {
    BeforeAndFromIs(other, source, j);
    BeforePastEnd(other, source, j);
    assert AbsentFrom(other, source, j) == [] && AbsentFrom(other, source, j + PartSize) == [];
    BeforeAndFromOf(other, source, j + PartSize);
  }

  /** A window that starts past the count adds nothing before the next boundary. */
  lemma BeforePastEnd(other: RowSource, source: RowSource, j: nat)
    requires source.Valid() && j >= source.Count()
    ensures AbsentBefore(other, source, j + PartSize) == AbsentBefore(other, source, j)
  {
    assert j + PartSize - PartSize == j;
  }

  /** Past the last window, what lies before is all the absent rows. */
  lemma AbsentBeforeAll(other: RowSource, source: RowSource, i: nat)
    requires source.Valid() && WindowStart(i) && i >= source.Count()
    ensures AbsentBefore(other, source, i) == AbsentFrom(other, source, 0)
  {
    AbsentBeforeFrom(other, source, i);
    BeforeAndFromIs(other, source, i);
    assert AbsentFrom(other, source, i) == [];
  }

  lemma InsertQueriesConcat(a: seq<Row>, b: seq<Row>)
    ensures InsertQueries(a + b) == InsertQueries(a) + InsertQueries(b)
  {
    Seqs.MapAppend(InsertQuery, a, b);
  }

  lemma DeleteQueriesConcat(a: seq<Row>, b: seq<Row>)
    ensures DeleteQueries(a + b) == DeleteQueries(a) + DeleteQueries(b)
  {
    Seqs.MapAppend(DeleteLine, a, b);
  }

  /** The INSERTs of one window, row by row. */
  method InsertsFor(original: RowSource, rows: seq<Row>) returns (lines: seq<string>)
    requires LazyRowSource.AllCover(rows)
    ensures lines == InsertQueries(AbsentRows(original, rows))
  {
    lines := [];
    for j := 0 to |rows|
      invariant lines == InsertQueries(AbsentRows(original, rows[..j]))
    {
      var row := rows[j];
      InsertStep(original, rows, j);
      var pk := GetPrimaryKey(row);
      if !original.ContainsRow(GenIndexKey(pk)) {
        lines := lines + [InsertQuery(row)];
      }
    }
    assert rows[..|rows|] == rows;
  }

  lemma InsertStep(original: RowSource, rows: seq<Row>, j: nat)
    requires LazyRowSource.AllCover(rows) && j < |rows|
    ensures InsertQueries(AbsentRows(original, rows[..j + 1])) == InsertQueries(AbsentRows(original, rows[..j])) +
      (if original.ContainsRow(IndexKey(rows[j])) then [] else [InsertQuery(rows[j])])
  {
    var before := AbsentRows(original, rows[..j]);
    assert rows[..j + 1] == rows[..j] + [rows[j]];
    AbsentRowsSnoc(original, rows[..j], rows[j]);
    if original.ContainsRow(IndexKey(rows[j])) {
      assert before + [] == before;
    } else {
      InsertQueriesConcat(before, [rows[j]]);
      assert InsertQueries([rows[j]]) == [InsertQuery(rows[j])] by {
        assert [rows[j]][..0] == [];
      }
    }
  }


  /** The DELETEs of one window, row by row. */
  method DeletesFor(changed: RowSource, rows: seq<Row>) returns (lines: seq<string>)
    requires LazyRowSource.AllCover(rows)
    ensures lines == DeleteQueries(AbsentRows(changed, rows))
  {
    lines := [];
    for j := 0 to |rows|
      invariant lines == DeleteQueries(AbsentRows(changed, rows[..j]))
    {
      var row := rows[j];
      DeleteStep(changed, rows, j);
      var pk := GetPrimaryKey(row);
      if !changed.ContainsRow(GenIndexKey(pk)) {
        var query := BuildDeleteQuery(row);
        lines := lines + [query];
      }
    }
    assert rows[..|rows|] == rows;
  }

  lemma DeleteStep(changed: RowSource, rows: seq<Row>, j: nat)
    requires LazyRowSource.AllCover(rows) && j < |rows|
    ensures DeleteQueries(AbsentRows(changed, rows[..j + 1])) == DeleteQueries(AbsentRows(changed, rows[..j])) +
      (if changed.ContainsRow(IndexKey(rows[j])) then [] else [DeleteLine(rows[j])])
  {
    var before := AbsentRows(changed, rows[..j]);
    assert rows[..j + 1] == rows[..j] + [rows[j]];
    AbsentRowsSnoc(changed, rows[..j], rows[j]);
    if changed.ContainsRow(IndexKey(rows[j])) {
      assert before + [] == before;
    } else {
      DeleteQueriesConcat(before, [rows[j]]);
      assert DeleteQueries([rows[j]]) == [DeleteLine(rows[j])] by {
        assert [rows[j]][..0] == [];
      }
    }
  }


  /**
   * The UPDATEs of one window: visits the original rows in the map's own
   * order and gives an UPDATE for every one whose counterpart differs.
   */
  method UpdatesFor(oMap: map<string, Row>, cMap: map<string, Row>) returns (lines: seq<string>, ghost visited: seq<string>)
    requires UpdateReady(oMap, cMap)
    ensures Enumerates(visited, oMap.Keys)
    ensures lines == UpdatesIn(oMap, cMap, visited)
  {
    lines := [];
    visited := [];
    var rest := oMap.Keys;
    while rest != {}
      invariant rest <= oMap.Keys
      invariant forall k :: k in visited <==> k in oMap && k !in rest
      invariant forall a, b :: 0 <= a < b < |visited| ==> visited[a] != visited[b]
      invariant lines == UpdatesIn(oMap, cMap, visited)
      decreases |rest|
    {
      var k :| k in rest;
      UpdatesInSnoc(oMap, cMap, visited, k);
      var oRow := oMap[k];
      var pk := GetPrimaryKey(oRow);
      var key := GenIndexKey(pk);
      if key in cMap {
        var cRow := cMap[key];
        if !oRow.Equals(cRow) {
          var query := BuildUpdateQuery(oRow, cRow);
          lines := lines + [query];
        }
      }
      visited := visited + [k];
      rest := rest - {k};
    }
  }

  /** Visiting every original key once, in two orders, writes the same UPDATEs, rearranged. */
  lemma VisitOrderIrrelevant(oMap: map<string, Row>, cMap: map<string, Row>, vs1: seq<string>, vs2: seq<string>)
    requires Enumerates(vs1, oMap.Keys) && Enumerates(vs2, oMap.Keys)
    ensures multiset(UpdatesIn(oMap, cMap, vs1)) == multiset(UpdatesIn(oMap, cMap, vs2))
  {
    SameKeysOnce(vs1, vs2);
    Seqs.FlatMapPermutation(Updater(oMap, cMap), vs1, vs2);
  }

  // ---------------------------------------------------------------------------
  // Diffing a source against itself

  /** Rows whose keys the other source all stores give no INSERT or DELETE. */
  lemma NoneAbsent(other: RowSource, rows: seq<Row>)
    requires LazyRowSource.AllCover(rows)
    requires forall j :: 0 <= j < |rows| ==> other.ContainsRow(IndexKey(rows[j]))
    ensures AbsentRows(other, rows) == []
  {
    var r := AbsentRows(other, rows);
    if r != [] {
      AbsentRowsMembers(other, rows, r[0]);
      assert false;
    }
  }

  /** Every row of a window of an eager source is stored under its own index key. */
  lemma EagerPartStored(e: EagerRowSource.EagerRowSource, i: nat)
    requires KeyedByIndex(e.table, e.rows)
    ensures forall j :: 0 <= j < |e.Part(i, PartSize)| ==> IndexKey(e.Part(i, PartSize)[j]) in e.rows
  {
    var ks := SortedKeySet(e.rows.Keys);
    var part := e.Part(i, PartSize);
    forall j | 0 <= j < |part|
      ensures IndexKey(part[j]) in e.rows
    {
      assert part[j] == e.rows[ks[i + j]];
    }
  }

  /** An eager source lacks none of its own rows' keys, from any window on. */
  lemma {:induction false} SelfAbsentFrom(source: RowSource, i: nat)
    requires source.Eager? && source.Valid()
    ensures AbsentFrom(source, source, i) == []
    decreases source.Count() - i
  {
    if i < source.Count() {
      SelfAbsentFrom(source, i + PartSize);
      SelfWindowAbsent(source, i);
    }
  }

  /** No row of a window of an eager source is absent from the source itself. */
  lemma SelfWindowAbsent(source: RowSource, i: nat)
    requires source.Eager? && source.Valid() && i < source.Count()
    requires AbsentFrom(source, source, i + PartSize) == []
    ensures AbsentFrom(source, source, i) == []
  {
    AbsentFromStep(source, source, i);
    EagerPartStored(source.eager, i);
    NoneAbsent(source, source.Part(i, PartSize));
  }

  /**
   * The window at i and the rows after it make up the rows from i on: the
   * last window is all of them, an earlier one is followed by the rest.
   */
  ghost predicate SplitsAt(source: RowSource, i: nat)
    requires i < source.Count()
  {
    source.WindowWithinCount(i, PartSize);
    source.WindowWithinCount(i, source.Count());
    if i + PartSize < source.Count() then
      source.WindowWithinCount(i + PartSize, source.Count());
      source.Part(i, PartSize) + source.Part(i + PartSize, source.Count()) == source.Part(i, source.Count())
    else
      source.Part(i, PartSize) == source.Part(i, source.Count())
  }

  /**
   * Where every window splits off the rest of the rows cleanly, the windows
   * from i on, together, select exactly what one pass over the rows from i
   * on selects: every row is looked at once, in key order.
   */
  lemma {:induction false} AbsentFromWhole(other: RowSource, source: RowSource, i: nat)
    requires source.Valid() && i < source.Count()
    requires forall j :: i <= j < source.Count() ==> SplitsAt(source, j)
    ensures source.PartAllowed(i, source.Count()) && LazyRowSource.AllCover(source.Part(i, source.Count()))
    ensures AbsentFrom(other, source, i) == AbsentRows(other, source.Part(i, source.Count()))
    decreases source.Count() - i
  {
    if i + PartSize < source.Count() {
      AbsentFromWhole(other, source, i + PartSize);
      WholeStep(other, source, i);
    } else {
      WholeLast(other, source, i);
    }
  }

  /** The last window is all that is left from i on. */
  lemma WholeLast(other: RowSource, source: RowSource, i: nat)
    requires source.Valid() && i < source.Count() <= i + PartSize && SplitsAt(source, i)
    ensures source.PartAllowed(i, source.Count()) && LazyRowSource.AllCover(source.Part(i, source.Count()))
    ensures AbsentFrom(other, source, i) == AbsentRows(other, source.Part(i, source.Count()))
  {
    AbsentFromStep(other, source, i);
    AbsentFromPast(other, source, i + PartSize);
    assert AbsentFrom(other, source, i) == AbsentRows(other, source.Part(i, PartSize)) + [];
  }

  /** A window in front of the rows after it: the selections concatenate. */
  lemma WholeStep(other: RowSource, source: RowSource, i: nat)
    requires source.Valid() && i + PartSize < source.Count() && SplitsAt(source, i)
    requires source.PartAllowed(i + PartSize, source.Count()) && LazyRowSource.AllCover(source.Part(i + PartSize, source.Count()))
    requires AbsentFrom(other, source, i + PartSize) == AbsentRows(other, source.Part(i + PartSize, source.Count()))
    ensures source.PartAllowed(i, source.Count()) && LazyRowSource.AllCover(source.Part(i, source.Count()))
    ensures AbsentFrom(other, source, i) == AbsentRows(other, source.Part(i, source.Count()))
  {
    AbsentFromStep(other, source, i);
    SelectConcat(other, source.Part(i, PartSize), source.Part(i + PartSize, source.Count()),
      source.Part(i, source.Count()), AbsentFrom(other, source, i + PartSize), AbsentFrom(other, source, i));
  }

  /** Nothing is selected from a position at or past the count. */
  lemma AbsentFromPast(other: RowSource, source: RowSource, i: nat)
    requires source.Valid() && i >= source.Count()
    ensures AbsentFrom(other, source, i) == []
  {
  }

  /** Every window of an eager source splits off the rest of its rows cleanly. */
  lemma EagerSplits(source: RowSource, i: nat)
    requires source.Eager? && i < source.Count()
    ensures SplitsAt(source, i)
  {
    source.eager.PartsSplit(i, PartSize);
    if i + PartSize >= source.Count() {
      source.eager.PartPastEnd(i + PartSize, source.Count());
    }
  }

  /**
   * For an eager source the windows of 5000 select exactly what one pass over
   * all its key-sorted rows selects: checkCreated and checkDeleted look at
   * every row once, in key order.
   */
  lemma EagerWindowsCoverAll(other: RowSource, source: RowSource)
    requires source.Eager? && source.Valid()
    ensures LazyRowSource.AllCover(source.Part(0, source.Count()))
    ensures AbsentFrom(other, source, 0) == AbsentRows(other, source.Part(0, source.Count()))
  {
    source.PartSortedByKey(0, source.Count());
    if source.Count() == 0 {
      AbsentFromPast(other, source, 0);
      source.eager.PartPastEnd(0, 0);
    } else {
      forall j | 0 <= j < source.Count()
        ensures SplitsAt(source, j)
      {
        EagerSplits(source, j);
      }
      AbsentFromWhole(other, source, 0);
    }
  }

  /** Selecting over two pieces and over their concatenation agree. */
  lemma SelectConcat(other: RowSource, here: seq<Row>, later: seq<Row>, whole: seq<Row>, laterSel: seq<Row>, sel: seq<Row>)
    requires LazyRowSource.AllCover(here) && LazyRowSource.AllCover(later) && here + later == whole
    requires laterSel == AbsentRows(other, later) && sel == AbsentRows(other, here) + laterSel
    ensures LazyRowSource.AllCover(whole) && sel == AbsentRows(other, whole)
  {
    AbsentRowsConcat(other, here, later);
  }

  /** Visiting keys whose original row is the very row the changed map holds for it writes no UPDATE. */
  lemma NoUpdates(oMap: map<string, Row>, cMap: map<string, Row>, vs: seq<string>)
    requires forall k :: k in vs ==> k in oMap && oMap[k].CoversKey() && IndexKey(oMap[k]) == k && k in cMap && cMap[k] == oMap[k]
    ensures UpdatesIn(oMap, cMap, vs) == []
  {
    forall j | 0 <= j < |vs|
      ensures Updater(oMap, cMap)(vs[j]) == []
    {
      assert vs[j] in vs;
    }
    Seqs.FlatMapEmpty(Updater(oMap, cMap), vs);
  }

  /** Every window of an eager source compared with itself writes no UPDATE, whatever the visit order. */
  lemma SelfWindowSilent(source: RowSource, i: nat, vs: seq<string>)
    requires source.Eager? && Diffable(source, source) && i <= source.Count()
    requires Enumerates(vs, source.PartMap(i, PartSize).Keys)
    ensures WindowUpdates(source, source, i, vs) == []
  {
    var e := source.eager;
    var oMap := source.PartMap(i, PartSize);
    var cMap := source.RowsMapFor(vs);
    assert oMap == EagerRowSource.WindowMap(SortedKeySet(e.rows.Keys), e.rows, i, e.WindowEnd(i, PartSize));
    assert cMap == map k | k in vs && k in e.rows :: e.rows[k];
    NoUpdates(oMap, cMap, vs);
  }

  /** The UPDATE segments of an eager source compared with itself are all empty. */
  lemma {:induction false} SelfSegmentsEmpty(source: RowSource, segments: seq<seq<string>>)
    requires source.Eager? && Diffable(source, source)
    requires WindowSegments(source, source, segments)
    ensures Seqs.Concat(segments) == []
    decreases |segments|
  {
    if segments != [] {
      var w := |segments| - 1;
      var vs :| Enumerates(vs, source.PartMap(w * PartSize, PartSize).Keys) &&
        segments[w] == WindowUpdates(source, source, w * PartSize, vs);
      SelfWindowSilent(source, w * PartSize, vs);
      SelfSegmentsEmpty(source, segments[..w]);
    }
  }

  /** Diffing an eager source against itself writes nothing, so the writer is never opened. */
  lemma SelfDiffSilent(source: RowSource, output: seq<string>)
    requires source.Eager? && Diffable(source, source)
    requires Processed(source, source, output)
    ensures output == []
  {
    var segments :| UpdateSegments(source, source, segments) &&
      output == InsertQueries(AbsentFrom(source, source, 0)) + Seqs.Concat(segments) +
        DeleteQueries(AbsentFrom(source, source, 0));
    SelfAbsentFrom(source, 0);
    SelfSegmentsEmpty(source, segments);
  }
}
