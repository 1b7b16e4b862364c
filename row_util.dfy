/** Index keys of rows: how primary-key values become one string, and how keys are ordered. */
module RowUtil {
  import opened Strings
  import opened Entity
  import Seqs

  /** isPrimaryKeyEqual: the primary-key value arrays are element-wise equal. */
  predicate IsPrimaryKeyEqual(row1: Row, row2: Row)
    requires row1.CoversKey() && row2.CoversKey()
    ensures IsPrimaryKeyEqual(row1, row2) <==>
      var pk1, pk2 := row1.PrimaryKey(), row2.PrimaryKey();
      |pk1| == |pk2| && forall i :: 0 <= i < |pk1| ==> pk1[i] == pk2[i]
  {
    row1.PrimaryKey() == row2.PrimaryKey()
  }

  /** genIndexKey: the primary-key values joined with ",". */
  function GenIndexKey(columnData: seq<string>): string {
    Join(columnData, ",")
  }

  /** The index key of a row, as every caller computes it. */
  function IndexKey(row: Row): string
    requires row.CoversKey()
  {
    GenIndexKey(row.PrimaryKey())
  }

  /** String.compareTo: the difference of the first differing characters, else of the lengths. */
  function CompareIndexKeys(indexKey1: string, indexKey2: string): (r: int)
    ensures r == 0 <==> indexKey1 == indexKey2
  {
    if indexKey1 == [] || indexKey2 == [] then |indexKey1| - |indexKey2|
    else if indexKey1[0] != indexKey2[0] then indexKey1[0] as int - indexKey2[0] as int
    else CompareIndexKeys(indexKey1[1..], indexKey2[1..])
  }

  /** The order the key comparator sorts by. */
  predicate KeyLe(a: string, b: string) {
    CompareIndexKeys(a, b) <= 0
  }

  /** compareIndexKeys on rows compares their index keys. */
  function CompareRowIndexKeys(row1: Row, row2: Row): (r: int)
    requires row1.CoversKey() && row2.CoversKey()
    ensures r == 0 <==> IndexKey(row1) == IndexKey(row2)
    ensures r < 0 <==> CompareIndexKeys(IndexKey(row2), IndexKey(row1)) > 0
  {
    CompareIndexKeysFlip(IndexKey(row1), IndexKey(row2));
    CompareIndexKeys(IndexKey(row1), IndexKey(row2))
  }

  lemma {:induction false} CompareIndexKeysFlip(a: string, b: string)
    ensures CompareIndexKeys(b, a) == -CompareIndexKeys(a, b)
  {
    if a != [] && b != [] && a[0] == b[0] {
      CompareIndexKeysFlip(a[1..], b[1..]);
    }
  }

  lemma {:induction false} CompareIndexKeysTransitive(a: string, b: string, c: string)
    requires KeyLe(a, b) && KeyLe(b, c)
    ensures KeyLe(a, c)
  {
    if a != [] && b != [] && c != [] && a[0] == b[0] && b[0] == c[0] {
      CompareIndexKeysTransitive(a[1..], b[1..], c[1..]);
    }
  }

  /** The key order is total, antisymmetric and transitive. */
  lemma KeyOrderIsTotalOrder()
    ensures forall a, b :: KeyLe(a, b) || KeyLe(b, a)
    ensures forall a, b :: KeyLe(a, b) && KeyLe(b, a) ==> a == b
    ensures forall a, b, c :: KeyLe(a, b) && KeyLe(b, c) ==> KeyLe(a, c)
  {
    forall a, b ensures KeyLe(a, b) || KeyLe(b, a) {
      CompareIndexKeysFlip(a, b);
    }
    forall a, b | KeyLe(a, b) && KeyLe(b, a) ensures a == b {
      CompareIndexKeysFlip(a, b);
    }
    forall a, b, c | KeyLe(a, b) && KeyLe(b, c) ensures KeyLe(a, c) {
      CompareIndexKeysTransitive(a, b, c);
    }
  }

  predicate SortedKeys(s: seq<string>) {
    forall i, j {:trigger KeyLe(s[i], s[j])} :: 0 <= i < j < |s| ==> KeyLe(s[i], s[j])
  }

  function InsertKey(k: string, s: seq<string>): (r: seq<string>)
    requires SortedKeys(s)
    ensures SortedKeys(r)
    ensures multiset(r) == multiset(s) + multiset{k}
  {
    if s == [] then [k]
    else if KeyLe(k, s[0]) then
      assert forall j :: 0 < j < |s| ==> KeyLe(k, s[j]) by {
        forall j | 0 < j < |s| ensures KeyLe(k, s[j]) {
          CompareIndexKeysTransitive(k, s[0], s[j]);
        }
      }
      [k] + s
    else
      var rest := InsertKey(k, s[1..]);
      CompareIndexKeysFlip(k, s[0]);
      assert s == [s[0]] + s[1..];
      assert forall j :: 0 <= j < |rest| ==> KeyLe(s[0], rest[j]) by {
        forall j | 0 <= j < |rest| ensures KeyLe(s[0], rest[j]) {
          assert rest[j] in multiset(rest);
          if rest[j] != k {
            assert rest[j] in multiset(s[1..]);
            var m :| 0 <= m < |s[1..]| && s[1..][m] == rest[j];
            assert s[m + 1] == rest[j];
          }
        }
      }
      [s[0]] + rest
  }

  /** sortIndexKeyList: a sorted copy of the keys; the input is not touched. */
  function SortIndexKeyList(indexCollection: seq<string>): (r: seq<string>)
    ensures SortedKeys(r)
    ensures multiset(r) == multiset(indexCollection)
  {
    if indexCollection == [] then []
    else
      assert indexCollection == [indexCollection[0]] + indexCollection[1..];
      InsertKey(indexCollection[0], SortIndexKeyList(indexCollection[1..]))
  }

  lemma SortedHeadLe(a: seq<string>, x: string)
    requires SortedKeys(a) && x in a
    ensures KeyLe(a[0], x)
  {
    var i :| 0 <= i < |a| && a[i] == x;
    if i > 0 {
      assert KeyLe(a[0], a[i]);
    }
  }

  /** Two sorted arrangements of the same keys are the same sequence. */
  lemma {:induction false} SortedKeysUnique(a: seq<string>, b: seq<string>)
    requires SortedKeys(a) && SortedKeys(b)
    requires multiset(a) == multiset(b)
    ensures a == b
    decreases |a|
  {
    if a == [] {
      assert |multiset(b)| == 0;
    } else {
      SameFirstKey(a, b);
      Seqs.MultisetTail(a, b);
      SortedTail(a);
      SortedTail(b);
      SortedKeysUnique(a[1..], b[1..]);
      assert a == [a[0]] + a[1..] && b == [b[0]] + b[1..];
    }
  }

  /** Two non-empty sorted arrangements of the same keys start with the same key. */
  lemma SameFirstKey(a: seq<string>, b: seq<string>)
    requires a != [] && SortedKeys(a) && SortedKeys(b)
    requires multiset(a) == multiset(b)
    ensures b != [] && a[0] == b[0]
  {
    assert a[0] in multiset(b);
    assert b[0] in multiset(a);
    SortedHeadLe(b, a[0]);
    SortedHeadLe(a, b[0]);
    CompareIndexKeysFlip(a[0], b[0]);
  }

  lemma SortedTail(a: seq<string>)
    requires a != [] && SortedKeys(a)
    ensures SortedKeys(a[1..])
  {
    forall i, j | 0 <= i < j < |a| - 1 ensures KeyLe(a[1..][i], a[1..][j]) {
      assert KeyLe(a[i + 1], a[j + 1]);
    }
  }

  /** The keys of a set in key order: the one sorted sequence holding each of them once. */
  ghost function SortedKeySet(s: set<string>): (r: seq<string>)
    ensures SortedKeys(r) && multiset(r) == multiset(s)
    ensures |r| == |s|
    ensures forall k :: k in r <==> k in s
  {
    if s == {} then []
    else
      var k :| k in s;
      var r := InsertKey(k, SortedKeySet(s - {k}));
      assert multiset(s - {k}) + multiset{k} == multiset(s);
      assert forall x :: x in r <==> x in multiset(r);
      r
  }

  /** A key at two positions of a sequence occurs at least twice in its multiset. */
  lemma RepeatedKeyCountsTwice(r: seq<string>, i: nat, j: nat)
    requires i < j < |r| && r[i] == r[j]
    ensures multiset(r)[r[i]] >= 2
  {
    assert r == r[..j] + r[j..];
    assert r[i] == r[..j][i] && r[j] == r[j..][0];
    assert multiset(r) == multiset(r[..j]) + multiset(r[j..]);
  }

  /** The key sequence of a set holds no key twice. */
  lemma SortedKeySetDistinct(s: set<string>)
    ensures var r := SortedKeySet(s);
      forall i, j :: 0 <= i < j < |r| ==> r[i] != r[j]
  {
    var r := SortedKeySet(s);
    forall i, j | 0 <= i < j < |r| && r[i] == r[j] ensures multiset(r)[r[i]] >= 2 {
      RepeatedKeyCountsTwice(r, i, j);
    }
    assert forall x :: multiset(s)[x] <= 1;
  }

  /**
   * sortIndexKeyList over a set of keys: the keys are copied in the set's own
   * iteration order, which the caller cannot know, and then sorted.
   */
  method SortIndexKeySet(keys: set<string>) returns (list: seq<string>)
    ensures list == SortedKeySet(keys)
  {
    var copy: seq<string> := [];
    var rest := keys;
    while rest != {}
      invariant multiset(copy) + multiset(rest) == multiset(keys)
      decreases |rest|
    {
      var k :| k in rest;
      assert multiset(rest - {k}) + multiset{k} == multiset(rest);
      copy := copy + [k];
      rest := rest - {k};
    }
    list := SortIndexKeyList(copy);
    SortedKeysUnique(list, SortedKeySet(keys));
  }

  /** Keys of separator-free values give the values back when split at ",". */
  lemma GenIndexKeyRoundTrip(columnData: seq<string>)
    requires columnData != []
    requires forall i :: 0 <= i < |columnData| ==> ',' !in columnData[i]
    ensures SplitAll(GenIndexKey(columnData), ',') == columnData
  {
    SplitAllJoin(columnData, ',');
  }

  /** So on separator-free values, equal keys mean equal primary-key values. */
  lemma GenIndexKeyInjectiveWithoutCommas(data1: seq<string>, data2: seq<string>)
    requires data1 != [] && data2 != []
    requires forall i :: 0 <= i < |data1| ==> ',' !in data1[i]
    requires forall i :: 0 <= i < |data2| ==> ',' !in data2[i]
    requires GenIndexKey(data1) == GenIndexKey(data2)
    ensures data1 == data2
  {
    GenIndexKeyRoundTrip(data1);
    GenIndexKeyRoundTrip(data2);
  }

  /** A value holding the separator makes two different keys collide. */
  lemma GenIndexKeyNotInjective()
    ensures GenIndexKey(["a,b"]) == GenIndexKey(["a", "b"])
    ensures ["a,b"] != ["a", "b"]
  {
    assert ["a", "b"][..1] == ["a"];
  }

  /** Rows with equal primary-key values compare as equal; the converse fails (see GenIndexKeyNotInjective). */
  lemma PrimaryKeyEqualComparesEqual(row1: Row, row2: Row)
    requires row1.CoversKey() && row2.CoversKey()
    requires IsPrimaryKeyEqual(row1, row2)
    ensures CompareRowIndexKeys(row1, row2) == 0
  {
  }
}
