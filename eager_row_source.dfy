/**
 * A row source that holds every row of a table in a map from index key to
 * row. Nothing here changes the map: every read is a function of it.
 */
module EagerRowSource {
  import opened Wrappers
  import opened Entity
  import opened RowUtil

  function Min(a: int, b: int): int {
    if a < b then a else b
  }

  /** The keys among `keys` that `rows` holds, in their order, duplicates kept. */
  function PresentKeys(keys: seq<string>, rows: map<string, Row>): (r: seq<string>)
    ensures forall k :: k in r ==> k in rows
    ensures forall k :: k in r ==> k in keys
  {
    if keys == [] then []
    else if keys[0] in rows then [keys[0]] + PresentKeys(keys[1..], rows)
    else PresentKeys(keys[1..], rows)
  }

  /** Each present key keeps its multiplicity; every absent key is dropped. */
  lemma {:induction false} PresentKeysCount(keys: seq<string>, rows: map<string, Row>, k: string)
    ensures multiset(PresentKeys(keys, rows))[k] == if k in rows then multiset(keys)[k] else 0
  {
    if keys != [] {
      assert keys == [keys[0]] + keys[1..];
      PresentKeysCount(keys[1..], rows, k);
    }
  }

  /** Dropping keys from a sorted list leaves it sorted. */
  lemma {:induction false} PresentKeysSorted(keys: seq<string>, rows: map<string, Row>)
    requires SortedKeys(keys)
    ensures SortedKeys(PresentKeys(keys, rows))
  {
    if keys != [] {
      var rest := PresentKeys(keys[1..], rows);
      assert SortedKeys(keys[1..]);
      PresentKeysSorted(keys[1..], rows);
      if keys[0] in rows {
        forall j | 0 <= j < |rest| ensures KeyLe(keys[0], rest[j]) {
          assert rest[j] in rest;
          var m :| 0 <= m < |keys[1..]| && keys[1..][m] == rest[j];
          assert keys[m + 1] == rest[j];
        }
        var r := [keys[0]] + rest;
        forall i, j | 0 <= i < j < |r| ensures KeyLe(r[i], r[j]) {
          if i > 0 {
            assert r[i] == rest[i - 1] && r[j] == rest[j - 1];
          }
        }
      }
    }
  }

  datatype EagerRowSource = EagerRowSource(table: TableDef, rows: map<string, Row>) {

    function TableName(): string {
      table.name
    }

    /** count: the number of stored rows. */
    function Count(): (n: nat)
      ensures n == |rows.Keys|
    {
      |rows|
    }

    /** containsRow: whether a row is stored under the key. */
    predicate ContainsRow(key: string)
      ensures ContainsRow(key) <==> key in rows.Keys
    {
      key in rows
    }

    /** getRow: the row stored under the key, or none. */
    function GetRow(key: string): (r: Option<Row>)
      ensures r.Some? <==> ContainsRow(key)
      ensures r.Some? ==> r.value == rows[key]
    {
      if key in rows then Some(rows[key]) else None
    }

    /** Where a window ends: the loop stops at start + number or at the count, whichever comes first. */
    function WindowEnd(start: nat, number: int): int {
      Min(start + number, Count())
    }

    /** The rows at key-sorted positions start up to the window end. */
    ghost function Part(start: nat, number: int): seq<Row> {
      Window(SortedKeySet(rows.Keys), rows, start, WindowEnd(start, number))
    }

    /** The same window as a map from key to row. */
    ghost function PartMap(start: nat, number: int): map<string, Row> {
      WindowMap(SortedKeySet(rows.Keys), rows, start, WindowEnd(start, number))
    }

    /** The keys collectRows hands on: the requested keys that are present, sorted. */
    function RequestedKeys(keys: Option<seq<string>>): (r: seq<string>)
      ensures forall k :: k in r ==> k in rows
    {
      if keys.None? || keys.value == [] then []
      else PresentKeys(SortIndexKeyList(keys.value), rows)
    }

    /** What getRows returns. */
    function RowsFor(keys: Option<seq<string>>): seq<Row> {
      var ks := RequestedKeys(keys);
      seq(|ks|, i requires 0 <= i < |ks| => rows[ks[i]])
    }

    /** What getRowsMap returns. */
    function RowsMapFor(keys: Option<seq<string>>): map<string, Row> {
      if keys.None? then map[] else map k | k in keys.value && k in rows :: rows[k]
    }

    /** getRowsMap depends only on which keys are requested. */
    lemma RowsMapForSameKeys(keys1: seq<string>, keys2: seq<string>)
      requires forall k :: k in keys1 <==> k in keys2
      ensures RowsMapFor(Some(keys1)) == RowsMapFor(Some(keys2))
    {
      var m1, m2 := RowsMapFor(Some(keys1)), RowsMapFor(Some(keys2));
      assert m1.Keys == m2.Keys;
    }

    /** getPart: walks the sorted key list from the start index. */
    method GetPart(startIndex: nat, number: int) returns (list: seq<Row>)
      ensures list == Part(startIndex, number)
    {
      var indexList := SortIndexKeySet(rows.Keys);
      list := WalkRows(indexList, rows, startIndex, number);
    }

    /** getAllRows: the part from 0 spanning the count. */
    method GetAllRows() returns (list: seq<Row>)
      ensures list == Part(0, Count())
    {
      list := GetPart(0, Count());
    }

    /** getPartMap: the same walk, putting each key with its row. */
    method GetPartMap(startIndex: nat, number: int) returns (result: map<string, Row>)
      ensures result == PartMap(startIndex, number)
    {
      var indexList := SortIndexKeySet(rows.Keys);
      result := WalkRowsMap(indexList, rows, startIndex, number);
    }

    /**
     * collectRows: sorts a copy of the requested keys and hands every key
     * that has a row, with its row, to the handler; the handler calls are
     * returned in order.
     */
    method CollectRows(keys: Option<seq<string>>) returns (calls: seq<(string, Row)>)
      ensures calls == Handed(RequestedKeys(keys), rows)
    {
      calls := [];
      if keys.Some? && keys.value != [] {
        var indexList := SortIndexKeyList(keys.value);
        calls := HandOn(indexList, rows);
      }
    }

    /** getRows: the rows handed to the handler, in order. */
    method GetRows(keys: Option<seq<string>>) returns (list: seq<Row>)
      ensures list == RowsFor(keys)
    {
      var calls := CollectRows(keys);
      list := [];
      for i := 0 to |calls|
        invariant |list| == i
        invariant forall j :: 0 <= j < i ==> list[j] == calls[j].1
      {
        list := list + [calls[i].1];
      }
    }

    /** getRowsMap: every handed-on key with its row. */
    method GetRowsMap(keys: Option<seq<string>>) returns (result: map<string, Row>)
      ensures result == RowsMapFor(keys)
    {
      var calls := CollectRows(keys);
      ghost var ks := RequestedKeys(keys);
      result := map[];
      for i := 0 to |calls|
        invariant PutSoFar(result, ks, i, rows)
      {
        PutStep(result, ks, i, rows);
        result := result[calls[i].0 := calls[i].1];
      }
      PutAll(result, keys);
    }

    /** Past the last call, the map holds the requested stored keys with their rows. */
    lemma PutAll(result: map<string, Row>, keys: Option<seq<string>>)
      requires PutSoFar(result, RequestedKeys(keys), |RequestedKeys(keys)|, rows)
      ensures result == RowsMapFor(keys)
    {
      var ks := RequestedKeys(keys);
      assert ks[..|ks|] == ks;
      RequestedKeysMembers(keys);
    }

    /** The sorted key list holds every stored key once, in ascending key order. */
    lemma KeysSortedOnce()
      ensures var ks := SortedKeySet(rows.Keys);
        SortedKeys(ks) && forall i, j :: 0 <= i < j < |ks| ==> ks[i] != ks[j]
    {
      SortedKeySetDistinct(rows.Keys);
    }

    /** getAllRows lists the row of every stored key, following the sorted key list. */
    lemma AllRowsInKeyOrder()
      ensures var all, ks := Part(0, Count()), SortedKeySet(rows.Keys);
        |all| == |ks| == Count() &&
        (forall i :: 0 <= i < |all| ==> all[i] == rows[ks[i]]) &&
        (forall k :: k in rows <==> exists i :: 0 <= i < |ks| && ks[i] == k)
    {
      var ks := SortedKeySet(rows.Keys);
      forall k | k in rows ensures exists i :: 0 <= i < |ks| && ks[i] == k {
        assert k in ks;
      }
    }

    /** A window starting at or after the count is empty. */
    lemma PartPastEnd(start: nat, number: int)
      requires start >= Count()
      ensures Part(start, number) == []
    {
    }

    /** Consecutive windows cover the sorted rows without gap or overlap. */
    lemma PartsConcatenate(n: nat)
      requires n <= Count()
      ensures Part(0, n) + Part(n, Count() - n) == Part(0, Count())
    {
      var left, right, all := Part(0, n), Part(n, Count() - n), Part(0, Count());
      assert |left| == n && |right| == Count() - n && |all| == Count();
      forall i | 0 <= i < |all| ensures (left + right)[i] == all[i] {
        if i >= n {
          assert (left + right)[i] == right[i - n];
        }
      }
    }

    /** A window and everything after it cover the rest of the sorted rows without gap or overlap. */
    lemma PartsSplit(start: nat, n: nat)
      requires start <= Count()
      ensures Part(start, n) + Part(start + n, Count()) == Part(start, Count())
    {
      var ks := SortedKeySet(rows.Keys);
      var mid := Min(start + n, Count());
      assert WindowEnd(start, n) == mid;
      assert WindowEnd(start, Count()) == Count();
      if start + n <= Count() {
        assert WindowEnd(start + n, Count()) == Count();
        WindowSplit(ks, rows, start, mid, Count());
      } else {
        assert Part(start + n, Count()) == [];
        assert Part(start, n) == Part(start, Count());
      }
    }

    /**
     * getRows: the stored rows of the requested keys in ascending key order;
     * an absent key is dropped, a key requested twice gives its row twice,
     * and no keys or an empty list give nothing.
     */
    lemma RowsForMeaning(keys: Option<seq<string>>)
      ensures var ks, r := RequestedKeys(keys), RowsFor(keys);
        SortedKeys(ks) && |r| == |ks| &&
        (forall i :: 0 <= i < |r| ==> r[i] == rows[ks[i]]) &&
        (forall k :: multiset(ks)[k] == if keys.Some? && k in rows then multiset(keys.value)[k] else 0)
      ensures keys.None? || keys == Some([]) ==> RowsFor(keys) == []
    {
      if keys.Some? && keys.value != [] {
        var sorted := SortIndexKeyList(keys.value);
        PresentKeysSorted(sorted, rows);
        forall k ensures multiset(RequestedKeys(keys))[k] == if k in rows then multiset(keys.value)[k] else 0 {
          PresentKeysCount(sorted, rows, k);
        }
      }
    }

    /** A key is handed on exactly when it was requested and is stored. */
    lemma RequestedKeysMembers(keys: Option<seq<string>>)
      ensures forall k :: k in RequestedKeys(keys) <==> keys.Some? && k in keys.value && k in rows
    {
      forall k ensures k in RequestedKeys(keys) <==> keys.Some? && k in keys.value && k in rows {
        if keys.Some? && keys.value != [] {
          var sorted := SortIndexKeyList(keys.value);
          PresentKeysCount(sorted, rows, k);
          assert k in RequestedKeys(keys) <==> k in multiset(RequestedKeys(keys));
          assert k in keys.value <==> k in multiset(keys.value);
        }
      }
    }
  }

  /** Extending the key list by one key extends the present keys by that key when it is present. */
  lemma PresentKeysSnoc(keys: seq<string>, k: string, rows: map<string, Row>)
    ensures PresentKeys(keys + [k], rows) == PresentKeys(keys, rows) + (if k in rows then [k] else [])
    decreases |keys|
  {
    if keys != [] {
      assert (keys + [k])[1..] == keys[1..] + [k];
      PresentKeysSnoc(keys[1..], k, rows);
    }
  }

  /** The loop of getPart over a key list whose keys are all stored. */
  method WalkRows(indexList: seq<string>, rows: map<string, Row>, startIndex: nat, number: int) returns (list: seq<Row>)
    requires forall k :: k in indexList ==> k in rows
    ensures list == Window(indexList, rows, startIndex, Min(startIndex + number, |indexList|))
  {
    list := [];
    var i := startIndex;
    while i < startIndex + number && i < |indexList|
      invariant startIndex <= i
      invariant i == startIndex || i <= Min(startIndex + number, |indexList|)
      invariant |list| == i - startIndex
      invariant forall j :: 0 <= j < |list| ==> list[j] == rows[indexList[startIndex + j]]
      decreases |indexList| - i
    {
      list := list + [rows[indexList[i]]];
      i := i + 1;
    }
  }

  /** The loop of getPartMap over a key list whose keys are all stored. */
  method WalkRowsMap(indexList: seq<string>, rows: map<string, Row>, startIndex: nat, number: int)
    returns (result: map<string, Row>)
    requires forall k :: k in indexList ==> k in rows
    ensures result == WindowMap(indexList, rows, startIndex, Min(startIndex + number, |indexList|))
  {
    result := map[];
    var i := startIndex;
    while i < startIndex + number && i < |indexList|
      invariant startIndex <= i
      invariant i == startIndex || i <= Min(startIndex + number, |indexList|)
      invariant forall k :: k in result <==> exists j :: startIndex <= j < i && indexList[j] == k
      invariant forall k :: k in result ==> result[k] == rows[k]
      decreases |indexList| - i
    {
      result := result[indexList[i] := rows[indexList[i]]];
      i := i + 1;
    }
  }

  /** The rows stored under the keys of `ks` from position start up to end. */
  function Window(ks: seq<string>, rows: map<string, Row>, start: nat, end: int): (r: seq<Row>)
    requires forall k :: k in ks ==> k in rows
    requires end <= |ks|
    ensures |r| == if end <= start then 0 else end - start
    ensures forall i :: 0 <= i < |r| ==> r[i] == rows[ks[start + i]]
  {
    if end <= start then []
    else seq(end - start, i requires 0 <= i < end - start => rows[ks[start + i]])
  }

  /** Two adjacent windows make the window spanning both. */
  lemma WindowSplit(ks: seq<string>, rows: map<string, Row>, start: nat, mid: nat, end: nat)
    requires forall k :: k in ks ==> k in rows
    requires start <= mid <= end <= |ks|
    ensures Window(ks, rows, start, mid) + Window(ks, rows, mid, end) == Window(ks, rows, start, end)
  {
    var left, right, all := Window(ks, rows, start, mid), Window(ks, rows, mid, end), Window(ks, rows, start, end);
    forall i | 0 <= i < |all| ensures (left + right)[i] == all[i] {
      if i >= mid - start {
        assert (left + right)[i] == right[i - (mid - start)];
      }
    }
  }

  /** The keys of `ks` from position start up to end, each with its row. */
  function WindowMap(ks: seq<string>, rows: map<string, Row>, start: nat, end: int): (m: map<string, Row>)
    requires forall k :: k in ks ==> k in rows
    requires end <= |ks|
    ensures forall k :: k in m <==> exists i :: start <= i < end && ks[i] == k
    ensures forall k :: k in m ==> m[k] == rows[k]
  {
    map i | start <= i < end :: ks[i] := rows[ks[i]]
  }

  /** The map after the first i handler calls: each of those keys with its row. */
  ghost predicate PutSoFar(result: map<string, Row>, ks: seq<string>, i: nat, rows: map<string, Row>) {
    i <= |ks| &&
    (forall k :: k in result <==> k in ks[..i]) &&
    (forall k :: k in result ==> k in rows && result[k] == rows[k])
  }

  lemma PutStep(result: map<string, Row>, ks: seq<string>, i: nat, rows: map<string, Row>)
    requires PutSoFar(result, ks, i, rows) && i < |ks| && ks[i] in rows
    ensures PutSoFar(result[ks[i] := rows[ks[i]]], ks, i + 1, rows)
  {
    assert ks[..i + 1] == ks[..i] + [ks[i]];
  }

  /** The handler calls for the present keys of a key list. */
  function Handed(ks: seq<string>, rows: map<string, Row>): (calls: seq<(string, Row)>)
    requires forall k :: k in ks ==> k in rows
    ensures |calls| == |ks|
    ensures forall i :: 0 <= i < |ks| ==> calls[i] == (ks[i], rows[ks[i]])
  {
    seq(|ks|, i requires 0 <= i < |ks| => (ks[i], rows[ks[i]]))
  }

  /** The loop of collectRows: every key of the list that has a row goes to the handler. */
  method HandOn(indexList: seq<string>, rows: map<string, Row>) returns (calls: seq<(string, Row)>)
    ensures calls == Handed(PresentKeys(indexList, rows), rows)
  {
    calls := [];
    ghost var present: seq<string> := [];
    for i := 0 to |indexList|
      invariant present == PresentKeys(indexList[..i], rows)
      invariant calls == Handed(present, rows)
    {
      PresentKeysSnoc(indexList[..i], indexList[i], rows);
      assert indexList[..i + 1] == indexList[..i] + [indexList[i]];
      if indexList[i] in rows {
        calls := calls + [(indexList[i], rows[indexList[i]])];
        present := present + [indexList[i]];
      }
    }
    assert indexList[..|indexList|] == indexList;
  }
}
