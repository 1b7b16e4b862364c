/**
 * A row source that keeps only the line number of every row and parses the
 * rows again from the data file when they are asked for. The file is a
 * sequence of lines; the forward-only reader is an index into it.
 */
module LazyRowSource {
  import opened Wrappers
  import opened Entity
  import opened RowUtil
  import opened RowParser
  import EagerRowSource

  // ---------------------------------------------------------------------------
  // Sorting line numbers

  predicate SortedNats(s: seq<nat>) {
    forall i, j :: 0 <= i < j < |s| ==> s[i] <= s[j]
  }

  function InsertNat(n: nat, s: seq<nat>): (r: seq<nat>)
    requires SortedNats(s)
    ensures SortedNats(r)
    ensures multiset(r) == multiset(s) + multiset{n}
    ensures |r| == |s| + 1
    ensures r[0] == n || (s != [] && r[0] == s[0])
  {
    if s == [] || n <= s[0] then
      ConsSorted(n, s);
      [n] + s
    else
      var rest := InsertNat(n, s[1..]);
      Seqs.MultisetCons(s);
      ConsSorted(s[0], rest);
      [s[0]] + rest
  }

  lemma ConsSorted(x: nat, s: seq<nat>)
    requires SortedNats(s) && (s == [] || x <= s[0])
    ensures SortedNats([x] + s)
  {
    forall i, j | 0 <= i < j < |[x] + s| ensures ([x] + s)[i] <= ([x] + s)[j] {
      if i > 0 {
        assert ([x] + s)[i] == s[i - 1];
      }
    }
  }

  /** The line numbers in ascending order: what sorting the entries by line number leaves to be read. */
  function SortNats(s: seq<nat>): (r: seq<nat>)
    ensures SortedNats(r)
    ensures multiset(r) == multiset(s)
    ensures |r| == |s|
  {
    if s == [] then []
    else
      assert s == [s[0]] + s[1..];
      InsertNat(s[0], SortNats(s[1..]))
  }

  lemma SortedNatsHeadLe(a: seq<nat>, x: nat)
    requires SortedNats(a) && x in a
    ensures a[0] <= x
  {
  }

  /** Two ascending arrangements of the same line numbers are the same sequence. */
  lemma {:induction false} SortedNatsUnique(a: seq<nat>, b: seq<nat>)
    requires SortedNats(a) && SortedNats(b)
    requires multiset(a) == multiset(b)
    ensures a == b
    decreases |a|
  {
    if a == [] {
      assert |multiset(b)| == 0;
    } else {
      assert b != [] by {
        assert a[0] in multiset(b);
      }
      SortedHeadsEqual(a, b);
      DropEqualHeads(a, b);
      SortedNatsUnique(a[1..], b[1..]);
      assert a == [a[0]] + a[1..] && b == [b[0]] + b[1..];
    }
  }

  lemma SortedHeadsEqual(a: seq<nat>, b: seq<nat>)
    requires SortedNats(a) && SortedNats(b) && a != [] && b != []
    requires multiset(a) == multiset(b)
    ensures a[0] == b[0]
  {
    assert a[0] in multiset(b) && b[0] in multiset(a);
    SortedNatsHeadLe(b, a[0]);
    SortedNatsHeadLe(a, b[0]);
  }

  lemma DropEqualHeads(a: seq<nat>, b: seq<nat>)
    requires a != [] && b != [] && a[0] == b[0]
    requires multiset(a) == multiset(b)
    ensures multiset(a[1..]) == multiset(b[1..])
  {
    assert a == [a[0]] + a[1..] && b == [b[0]] + b[1..];
    assert multiset(a) == multiset{a[0]} + multiset(a[1..]);
    assert multiset(b) == multiset{a[0]} + multiset(b[1..]);
    assert multiset(a[1..]) == multiset(a) - multiset{a[0]};
    assert multiset(b[1..]) == multiset(b) - multiset{a[0]};
  }

  /** The line numbers of a list of (key, line number) entries, in list order. */
  function LinesOf(entries: seq<(string, nat)>): (r: seq<nat>)
    ensures |r| == |entries| && forall i :: 0 <= i < |entries| ==> r[i] == entries[i].1
  {
    seq(|entries|, i requires 0 <= i < |entries| => entries[i].1)
  }

  // ---------------------------------------------------------------------------
  // The forward-only reader

  /** readLine at reader position `pos`: the line, or nothing past the end of the file. */
  function LineAt(file: seq<string>, pos: int): Option<string> {
    if 0 <= pos < |file| then Some(file[pos]) else None
  }

  /** extractRow on a line that may be missing; a missing line gives no row. */
  function ParseLine(table: TableDef, line: Option<string>): Option<Row> {
    if line.None? then None else ExtractRowSpec(table, line.value)
  }

  /**
   * The reader positions collectRows actually reads, for ascending line
   * numbers `ns`, from the counter `currentLine` and the reader position
   * `pos`: a step above 1 skips `step` lines, the counter jumps to the line
   * number, and one line is read.
   */
  function ReadPositions(ns: seq<nat>, currentLine: int, pos: int): (r: seq<int>)
    ensures |r| == |ns|
  {
    if ns == [] then []
    else
      var step := ns[0] - currentLine;
      var at := if step > 1 then pos + step else pos;
      [at] + ReadPositions(ns[1..], currentLine + step, at + 1)
  }

  /** The rows among parse results, the failed ones left out, in order. */
  function Somes(parsed: seq<Option<Row>>): (r: seq<Row>)
    ensures |r| <= |parsed|
  {
    if parsed == [] then []
    else (if parsed[0].Some? then [parsed[0].value] else []) + Somes(parsed[1..])
  }

  /** The parse result at each reader position. */
  function ParsedAt(table: TableDef, file: seq<string>, positions: seq<int>): (r: seq<Option<Row>>)
    ensures |r| == |positions|
    ensures forall i :: 0 <= i < |positions| ==> r[i] == ParseLine(table, LineAt(file, positions[i]))
  {
    seq(|positions|, i requires 0 <= i < |positions| => ParseLine(table, LineAt(file, positions[i])))
  }

  /** What collectRows hands to its handler for a list of entries. */
  function Collected(table: TableDef, file: seq<string>, entries: seq<(string, nat)>): (r: seq<Row>)
    ensures |r| <= |entries|
  {
    Somes(ParsedAt(table, file, ReadPositions(SortNats(LinesOf(entries)), 0, 0)))
  }

  /** readLine followed by extractRow at one reader position. */
  method ReadRowAt(table: TableDef, file: seq<string>, pos: int) returns (row: Option<Row>)
    ensures row == ParseLine(table, LineAt(file, pos))
  {
    var line := LineAt(file, pos);
    row := None;
    if line.Some? {
      row := ExtractRow(table, line.value);
    }
  }

  /** Where the reader reads the next line number: past `step` skipped lines when the step exceeds 1. */
  function NextPosition(lineNumber: nat, currentLine: int, pos: int): int {
    var step := lineNumber - currentLine;
    if step > 1 then pos + step else pos
  }

  /** One round of collectRows: skip lines when the step exceeds 1, then read one line and parse it. */
  method ReadEntry(table: TableDef, file: seq<string>, lineNumber: nat, currentLine: int, reader: int)
    returns (row: Option<Row>, reader': int)
    ensures reader' == NextPosition(lineNumber, currentLine, reader) + 1
    ensures row == ParseLine(table, LineAt(file, NextPosition(lineNumber, currentLine, reader)))
  {
    var step: int := lineNumber - currentLine;
    reader' := reader;
    if step > 1 {
      var number := step;
      while number > 0
        invariant 0 <= number <= step
        invariant reader' == reader + (step - number)
      {
        reader' := reader' + 1;
        number := number - 1;
      }
    }
    row := ReadRowAt(table, file, reader');
    reader' := reader' + 1;
  }

  /**
   * collectRows: sorts the entries by line number, then walks the file once
   * with a counter and a reader, and hands every row parsed to the handler;
   * the rows handed on are returned in order. Only the line numbers of the
   * sorted entries are read, so the lines are sorted directly.
   */
  method CollectRows(table: TableDef, file: seq<string>, entries: seq<(string, nat)>) returns (handed: seq<Row>)
    ensures handed == Collected(table, file, entries)
  {
    var lines := SortNats(LinesOf(entries));
    handed := ReadSortedLines(table, file, lines);
  }

  /** The walk of collectRows over the sorted line numbers. */
  method ReadSortedLines(table: TableDef, file: seq<string>, lines: seq<nat>) returns (handed: seq<Row>)
    ensures handed == Somes(ParsedAt(table, file, ReadPositions(lines, 0, 0)))
  {
    ghost var positions := ReadPositions(lines, 0, 0);
    ghost var parsed := ParsedAt(table, file, positions);
    var reader: int := 0;
    var currentLine: int := 0;
    handed := [];
    for i := 0 to |lines|
      invariant ReadPositions(lines[i..], currentLine, reader) == positions[i..]
      invariant handed + Somes(parsed[i..]) == Somes(parsed)
    {
      var lineNumber := lines[i];
      PositionsStep(lines, positions, i, currentLine, reader);
      HandedStep(handed, parsed, i, Somes(parsed));
      var row;
      row, reader := ReadEntry(table, file, lineNumber, currentLine, reader);
      currentLine := lineNumber;
      if row.Some? {
        handed := handed + [row.value];
      }
    }
  }

  /** The reader position of entry i, and the positions of the entries after it. */
  lemma PositionsStep(lines: seq<nat>, positions: seq<int>, i: nat, currentLine: int, reader: int)
    requires i < |lines| == |positions| && ReadPositions(lines[i..], currentLine, reader) == positions[i..]
    ensures positions[i] == NextPosition(lines[i], currentLine, reader)
    ensures ReadPositions(lines[i + 1..], lines[i], positions[i] + 1) == positions[i + 1..]
  {
    ReadPositionsCons(lines[i..], currentLine, reader);
    assert lines[i..][1..] == lines[i + 1..];
    assert positions[i..][1..] == positions[i + 1..];
  }

  /** The rows handed on so far, with entry i's row if it parsed, and the rest still to come make up all of them. */
  lemma HandedStep(handed: seq<Row>, parsed: seq<Option<Row>>, i: nat, all: seq<Row>)
    requires i < |parsed| && handed + Somes(parsed[i..]) == all
    ensures parsed[i].Some? ==> (handed + [parsed[i].value]) + Somes(parsed[i + 1..]) == all
    ensures parsed[i].None? ==> handed + Somes(parsed[i + 1..]) == all
  {
    SomesCons(parsed[i..]);
    assert parsed[i..][1..] == parsed[i + 1..];
    var head: seq<Row> := if parsed[i].Some? then [parsed[i].value] else [];
    var rest := Somes(parsed[i + 1..]);
    assert Somes(parsed[i..]) == head + rest;
    assert handed + (head + rest) == (handed + head) + rest;
    assert parsed[i].None? ==> handed + head == handed;
  }

  lemma ReadPositionsCons(ns: seq<nat>, currentLine: int, pos: int)
    requires ns != []
    ensures var at := NextPosition(ns[0], currentLine, pos);
      ReadPositions(ns, currentLine, pos) == [at] + ReadPositions(ns[1..], ns[0], at + 1)
  {
  }

  lemma SomesCons(parsed: seq<Option<Row>>)
    requires parsed != []
    ensures Somes(parsed) == (if parsed[0].Some? then [parsed[0].value] else []) + Somes(parsed[1..])
  {
  }

  /** Line numbers that follow each other without a gap. */
  predicate Consecutive(ns: seq<nat>) {
    forall i :: 0 < i < |ns| ==> ns[i] == ns[i - 1] + 1
  }

  /** Once a line has been read, the next line numbers in a row are read exactly. */
  lemma {:induction false} ConsecutiveLinesReadExactly(ns: seq<nat>, currentLine: int)
    requires Consecutive(ns)
    requires ns != [] ==> ns[0] == currentLine + 1
    ensures ReadPositions(ns, currentLine, currentLine + 1) == ns
    decreases |ns|
  {
    if ns != [] {
      ReadPositionsCons(ns, currentLine, currentLine + 1);
      ConsecutiveTail(ns);
      ConsecutiveLinesReadExactly(ns[1..], ns[0]);
      assert [ns[0]] + ns[1..] == ns;
    }
  }

  /** After the first of consecutive line numbers, the rest are consecutive and start one further on. */
  lemma ConsecutiveTail(ns: seq<nat>)
    requires Consecutive(ns) && ns != []
    ensures Consecutive(ns[1..]) && (ns[1..] != [] ==> ns[1..][0] == ns[0] + 1)
  {
    var tail := ns[1..];
    forall i | 0 < i < |tail|
      ensures tail[i] == tail[i - 1] + 1
    {
      assert tail[i] == ns[i + 1] && tail[i - 1] == ns[i];
    }
  }

  /**
   * Consecutive line numbers starting at 0, or at 2 or more, are read
   * exactly: the doc-comment's promise holds in these cases.
   */
  lemma ConsecutiveRunReadExactly(ns: seq<nat>)
    requires Consecutive(ns)
    requires ns != [] ==> ns[0] != 1
    ensures ReadPositions(ns, 0, 0) == ns
  {
    if ns != [] {
      ReadPositionsCons(ns, 0, 0);
      assert NextPosition(ns[0], 0, 0) == ns[0];
      ConsecutiveTail(ns);
      ConsecutiveLinesReadExactly(ns[1..], ns[0]);
      assert [ns[0]] + ns[1..] == ns;
    }
  }

  /**
   * After a line has been read, a gap of more than one line skips one line
   * too many: the counter stands on the line just read while the reader is
   * already past it.
   */
  lemma GapReadsOneLineLate(ns: seq<nat>, currentLine: int)
    requires ns != [] && ns[0] - currentLine > 1
    ensures ReadPositions(ns, currentLine, currentLine + 1)[0] == ns[0] + 1
  {
    ReadPositionsCons(ns, currentLine, currentLine + 1);
  }

  /** A first line number of 1 is not skipped to: line 0 is read in its place. */
  lemma FirstLineOneReadsLineZero(ns: seq<nat>)
    requires ns != [] && ns[0] == 1
    ensures ReadPositions(ns, 0, 0)[0] == 0
  {
    ReadPositionsCons(ns, 0, 0);
  }

  /** Lines 0 and 2 are asked for; lines 0 and 3 are read. */
  lemma GapExample()
    ensures ReadPositions([0, 2], 0, 0) == [0, 3]
  {
    ReadPositionsCons([0, 2], 0, 0);
    assert [0, 2][1..] == [2];
    ReadPositionsCons([2], 0, 1);
  }

  /** Line numbers in strictly ascending order, as distinct sorted line numbers are. */
  predicate StrictlyAscending(ns: seq<nat>) {
    forall i :: 0 < i < |ns| ==> ns[i - 1] < ns[i]
  }

  /**
   * The gaps among the first i + 1 line numbers: the positions j <= i whose
   * number lies more than one line after the one before it, `prev` standing
   * before the first.
   */
  function GapCount(prev: int, ns: seq<nat>, i: nat): nat
    requires i < |ns|
  {
    (if i == 0 then 0 else GapCount(prev, ns, i - 1)) +
    (if ns[i] - (if i == 0 then prev else ns[i - 1]) > 1 then 1 else 0)
  }

  /** Counting the gaps after the first number: the first gap, then those of the rest. */
  lemma {:induction false} GapCountShift(prev: int, ns: seq<nat>, i: nat)
    requires 1 <= i < |ns|
    ensures GapCount(prev, ns, i) == (if ns[0] - prev > 1 then 1 else 0) + GapCount(ns[0], ns[1..], i - 1)
  {
    if i > 1 {
      GapCountShift(prev, ns, i - 1);
    }
  }

  /**
   * A reader `lag` lines off the line after the counter falls one line
   * further behind at every gap, and never catches up.
   */
  lemma {:induction false} LaggedPosition(ns: seq<nat>, currentLine: int, lag: int, i: nat)
    requires StrictlyAscending(ns) && i < |ns| && ns[0] > currentLine
    ensures ReadPositions(ns, currentLine, currentLine + 1 + lag)[i] == ns[i] + lag + GapCount(currentLine, ns, i)
    decreases i
  {
    ReadPositionsCons(ns, currentLine, currentLine + 1 + lag);
    if i > 0 {
      var gap := if ns[0] - currentLine > 1 then 1 else 0;
      assert ns[1..][0] == ns[1] > ns[0];
      LaggedPosition(ns[1..], ns[0], lag + gap, i - 1);
      GapCountShift(currentLine, ns, i);
    }
  }

  /**
   * Where collectRows reads the i-th of strictly ascending line numbers:
   * one line early throughout when the first number is 1, and one line
   * further late after every gap of more than one line up to it.
   */
  lemma ReaderLag(ns: seq<nat>, i: nat)
    requires StrictlyAscending(ns) && i < |ns|
    ensures ReadPositions(ns, 0, 0)[i] == ns[i] - (if ns[0] == 1 then 1 else 0) + GapCount(ns[0], ns, i)
  {
    ReadPositionsCons(ns, 0, 0);
    if i > 0 {
      var early: int := if ns[0] == 1 then 1 else 0;
      assert NextPosition(ns[0], 0, 0) == ns[0] - early;
      assert ns[1..][0] == ns[1] > ns[0];
      LaggedPosition(ns[1..], ns[0], -early, i - 1);
      GapCountShift(ns[0], ns, i);
    }
  }

  /** Two gaps put the reader two lines late; a consecutive line after a gap is read late too. */
  lemma LagBuildsUp()
    ensures ReadPositions([0, 2, 4], 0, 0) == [0, 3, 6]
    ensures ReadPositions([0, 2, 3], 0, 0) == [0, 3, 4]
    ensures ReadPositions([1, 3], 0, 0) == [0, 3]
  {
    ReaderLag([0, 2, 4], 1);
    ReaderLag([0, 2, 4], 2);
    ReaderLag([0, 2, 3], 1);
    ReaderLag([0, 2, 3], 2);
    ReaderLag([1, 3], 1);
  }

  // ---------------------------------------------------------------------------
  // Rows read back: key order and key maps

  predicate AllCover(rows: seq<Row>) {
    forall i {:trigger rows[i].CoversKey()} :: 0 <= i < |rows| ==> rows[i].CoversKey()
  }

  predicate SortedByKey(rows: seq<Row>)
    requires AllCover(rows)
  {
    forall i, j {:trigger KeyLe(IndexKey(rows[i]), IndexKey(rows[j]))} :: 0 <= i < j < |rows| ==> KeyLe(IndexKey(rows[i]), IndexKey(rows[j]))
  }

  /** Puts a row in front of the first row whose key is not below its own. */
  function InsertRow(row: Row, rows: seq<Row>): (r: seq<Row>)
    requires row.CoversKey() && AllCover(rows)
    ensures AllCover(r)
    ensures multiset(r) == multiset(rows) + multiset{row}
    ensures r != [] && (r[0] == row || (rows != [] && r[0] == rows[0]))
  {
    if rows == [] || KeyLe(IndexKey(row), IndexKey(rows[0])) then
      [row] + rows
    else
      var rest := InsertRow(row, rows[1..]);
      Seqs.MultisetCons(rows);
      [rows[0]] + rest
  }

  /** Inserting into rows sorted by key leaves them sorted by key. */
  lemma {:induction false} InsertRowSorted(row: Row, rows: seq<Row>)
    requires row.CoversKey() && AllCover(rows) && SortedByKey(rows)
    ensures SortedByKey(InsertRow(row, rows))
  {
    if rows == [] || KeyLe(IndexKey(row), IndexKey(rows[0])) {
      ConsSortedByKey(row, rows);
    } else {
      TailSortedByKey(rows);
      InsertRowSorted(row, rows[1..]);
      var rest := InsertRow(row, rows[1..]);
      CompareIndexKeysFlip(IndexKey(row), IndexKey(rows[0]));
      assert KeyLe(IndexKey(rows[0]), IndexKey(rest[0])) by {
        if rest[0] != row {
          assert rest[0] == rows[1];
        }
      }
      ConsSortedByKey(rows[0], rest);
    }
  }

  lemma TailSortedByKey(rows: seq<Row>)
    requires rows != [] && AllCover(rows) && SortedByKey(rows)
    ensures AllCover(rows[1..]) && SortedByKey(rows[1..])
  {
    assert forall i :: 0 <= i < |rows| - 1 ==> rows[1..][i] == rows[i + 1];
  }

  lemma ConsSortedByKey(x: Row, s: seq<Row>)
    requires x.CoversKey() && AllCover(s) && SortedByKey(s)
    requires s == [] || KeyLe(IndexKey(x), IndexKey(s[0]))
    ensures AllCover([x] + s) && SortedByKey([x] + s)
  {
    var r := [x] + s;
    assert forall i :: 0 < i < |r| ==> r[i] == s[i - 1];
    forall j | 1 < j < |r| ensures KeyLe(IndexKey(x), IndexKey(r[j])) {
      CompareIndexKeysTransitive(IndexKey(x), IndexKey(s[0]), IndexKey(s[j - 1]));
    }
  }

  /**
   * list.sort by compareIndexKeys: a stable sort by index key; rows with
   * equal keys keep their order.
   */
  function SortRowsByKey(rows: seq<Row>): (r: seq<Row>)
    requires AllCover(rows)
    ensures AllCover(r) && SortedByKey(r)
    ensures multiset(r) == multiset(rows)
  {
    if rows == [] then []
    else
      assert rows == [rows[0]] + rows[1..];
      var rest := SortRowsByKey(rows[1..]);
      InsertRowSorted(rows[0], rest);
      InsertRow(rows[0], rest)
  }

  /** The rows whose index key is `key`, in their order. */
  function WithKey(rows: seq<Row>, key: string): seq<Row>
    requires AllCover(rows)
  {
    if rows == [] then []
    else (if IndexKey(rows[0]) == key then [rows[0]] else []) + WithKey(rows[1..], key)
  }

  /** InsertRow puts the row in front of every row with the same key and moves no other row past another. */
  lemma {:induction false} InsertRowWithKey(row: Row, rows: seq<Row>, key: string)
    requires row.CoversKey() && AllCover(rows)
    ensures WithKey(InsertRow(row, rows), key) ==
      (if IndexKey(row) == key then [row] else []) + WithKey(rows, key)
  {
    if rows == [] || KeyLe(IndexKey(row), IndexKey(rows[0])) {
      assert InsertRow(row, rows) == [row] + rows;
      WithKeyCons(row, rows, key);
    } else {
      InsertRowWithKey(row, rows[1..], key);
      InsertRowPassing(row, rows, key);
    }
  }

  /** The step of InsertRowWithKey where the row moves past the first one, whose key differs. */
  lemma InsertRowPassing(row: Row, rows: seq<Row>, key: string)
    requires row.CoversKey() && AllCover(rows) && rows != [] && !KeyLe(IndexKey(row), IndexKey(rows[0]))
    requires WithKey(InsertRow(row, rows[1..]), key) ==
      (if IndexKey(row) == key then [row] else []) + WithKey(rows[1..], key)
    ensures WithKey(InsertRow(row, rows), key) ==
      (if IndexKey(row) == key then [row] else []) + WithKey(rows, key)
  {
    var rest := InsertRow(row, rows[1..]);
    var tail := WithKey(rows[1..], key);
    assert InsertRow(row, rows) == [rows[0]] + rest;
    assert IndexKey(rows[0]) != IndexKey(row);
    WithKeyCons(rows[0], rest, key);
    if IndexKey(rows[0]) == key {
      assert IndexKey(row) != key;
      assert WithKey(rest, key) == tail by { assert [] + tail == tail; }
      assert WithKey(rows, key) == [rows[0]] + tail;
      assert WithKey(InsertRow(row, rows), key) == [rows[0]] + tail;
      assert [] + WithKey(rows, key) == WithKey(rows, key);
    } else {
      assert WithKey(rows, key) == tail by { assert [] + tail == tail; }
      assert WithKey(InsertRow(row, rows), key) == WithKey(rest, key) by {
        assert [] + WithKey(rest, key) == WithKey(rest, key);
      }
    }
  }

  lemma WithKeyCons(x: Row, s: seq<Row>, key: string)
    requires x.CoversKey() && AllCover(s)
    ensures AllCover([x] + s)
    ensures WithKey([x] + s, key) == (if IndexKey(x) == key then [x] else []) + WithKey(s, key)
  {
    assert ([x] + s)[1..] == s;
  }

  /** SortRowsByKey is stable: the rows with any one key keep their order. */
  lemma {:induction false} SortRowsByKeyStable(rows: seq<Row>, key: string)
    requires AllCover(rows)
    ensures WithKey(SortRowsByKey(rows), key) == WithKey(rows, key)
  {
    if rows != [] {
      var rest := SortRowsByKey(rows[1..]);
      SortRowsByKeyStable(rows[1..], key);
      InsertRowWithKey(rows[0], rest, key);
    }
  }

  /** Putting every row under its index key in order, so the last row with a key wins. */
  function KeyedRows(rows: seq<Row>): (m: map<string, Row>)
    requires AllCover(rows)
    ensures forall k :: k in m <==> exists i :: 0 <= i < |rows| && IndexKey(rows[i]) == k
    ensures forall k :: k in m ==> m[k] in rows && IndexKey(m[k]) == k
  {
    if rows == [] then map[]
    else
      var last := rows[|rows| - 1];
      var m := KeyedRows(rows[..|rows| - 1]);
      assert forall i :: 0 <= i < |rows| - 1 ==> rows[..|rows| - 1][i] == rows[i];
      m[IndexKey(last) := last]
  }

  /** Rows parsed for a table cover its primary key and belong to it. */
  predicate ParsedFor(table: TableDef, parsed: seq<Option<Row>>) {
    forall i :: 0 <= i < |parsed| && parsed[i].Some? ==>
      parsed[i].value.CoversKey() && parsed[i].value.table == table &&
      |parsed[i].value.value| == |table.columns|
  }

  lemma {:induction false} SomesFor(table: TableDef, parsed: seq<Option<Row>>)
    requires ParsedFor(table, parsed)
    ensures var r := Somes(parsed);
      AllCover(r) && forall i :: 0 <= i < |r| ==> r[i].table == table && |r[i].value| == |table.columns|
    decreases |parsed|
  {
    if parsed != [] {
      SomesFor(table, parsed[1..]);
    }
  }

  lemma ParsedAtFor(table: TableDef, file: seq<string>, positions: seq<int>)
    ensures ParsedFor(table, ParsedAt(table, file, positions))
  {
    var parsed := ParsedAt(table, file, positions);
    forall i | 0 <= i < |parsed| && parsed[i].Some?
      ensures parsed[i].value.CoversKey() && parsed[i].value.table == table
      ensures |parsed[i].value.value| == |table.columns|
    {
      ExtractedRowCoversKey(table, LineAt(file, positions[i]).value);
    }
  }

  /** Every row collectRows hands on belongs to the table and covers its primary key. */
  lemma CollectedFor(table: TableDef, file: seq<string>, entries: seq<(string, nat)>)
    ensures var r := Collected(table, file, entries);
      AllCover(r) && forall i :: 0 <= i < |r| ==> r[i].table == table && |r[i].value| == |table.columns|
  {
    var positions := ReadPositions(SortNats(LinesOf(entries)), 0, 0);
    ParsedAtFor(table, file, positions);
    SomesFor(table, ParsedAt(table, file, positions));
  }

  // ---------------------------------------------------------------------------
  // Entry lists

  /**
   * A list of (key, line number) entries for the stored keys among `keys`:
   * each carries its stored line number, no key occurs twice, and none is
   * missing.
   */
  predicate EntriesOf(entries: seq<(string, nat)>, lineNumbers: map<string, nat>, keys: set<string>) {
    (forall i :: 0 <= i < |entries| ==>
      entries[i].0 in keys && entries[i].0 in lineNumbers && entries[i].1 == lineNumbers[entries[i].0]) &&
    (forall i, j :: 0 <= i < j < |entries| ==> entries[i].0 != entries[j].0) &&
    (forall k :: k in keys && k in lineNumbers ==> exists i :: 0 <= i < |entries| && entries[i].0 == k)
  }

  /** The entries of a key list, each key with its stored line number. */
  function EntriesFor(ks: seq<string>, lineNumbers: map<string, nat>): (e: seq<(string, nat)>)
    requires forall k :: k in ks ==> k in lineNumbers
    ensures |e| == |ks| && forall i :: 0 <= i < |ks| ==> e[i] == (ks[i], lineNumbers[ks[i]])
  {
    seq(|ks|, i requires 0 <= i < |ks| => (ks[i], lineNumbers[ks[i]]))
  }

  lemma EntriesForOf(ks: seq<string>, lineNumbers: map<string, nat>, keys: set<string>)
    requires forall i, j :: 0 <= i < j < |ks| ==> ks[i] != ks[j]
    requires forall k :: k in ks <==> k in keys && k in lineNumbers
    ensures EntriesOf(EntriesFor(ks, lineNumbers), lineNumbers, keys)
  {
    var e := EntriesFor(ks, lineNumbers);
    forall k | k in keys && k in lineNumbers ensures exists i :: 0 <= i < |e| && e[i].0 == k {
      var i :| 0 <= i < |ks| && ks[i] == k;
      assert e[i].0 == k;
    }
  }

  /** Rearranging entries rearranges their line numbers the same way. */
  lemma LinesOfPermutation(e1: seq<(string, nat)>, e2: seq<(string, nat)>)
    requires multiset(e1) == multiset(e2)
    ensures multiset(LinesOf(e1)) == multiset(LinesOf(e2))
  {
    LinesOfIsMap(e1);
    LinesOfIsMap(e2);
    Seqs.MapPermutation(LineOf, e1, e2);
  }

  /** The line number of an entry. */
  function LineOf(entry: (string, nat)): nat {
    entry.1
  }

  /** The line numbers are the entries' line numbers, mapped in order. */
  lemma LinesOfIsMap(entries: seq<(string, nat)>)
    ensures LinesOf(entries) == Seqs.Map(LineOf, entries)
  {
    forall i | 0 <= i < |entries|
      ensures LinesOf(entries)[i] == Seqs.Map(LineOf, entries)[i]
    {
      Seqs.MapIndex(LineOf, entries, i);
    }
  }

  /** In a list with distinct keys every entry occurs once. */
  lemma DistinctEntriesCount(e: seq<(string, nat)>, x: (string, nat))
    requires forall i, j :: 0 <= i < j < |e| ==> e[i].0 != e[j].0
    ensures multiset(e)[x] == if x in e then 1 else 0
    decreases |e|
  {
    if e != [] {
      assert e == [e[0]] + e[1..];
      DistinctEntriesCount(e[1..], x);
      if x == e[0] {
        assert x !in e[1..];
      }
    }
  }

  /** Two entry lists for the same keys hold the same line numbers, whatever their order. */
  lemma EntriesOfSameLines(e1: seq<(string, nat)>, e2: seq<(string, nat)>, lineNumbers: map<string, nat>, keys: set<string>)
    requires EntriesOf(e1, lineNumbers, keys) && EntriesOf(e2, lineNumbers, keys)
    ensures multiset(LinesOf(e1)) == multiset(LinesOf(e2))
  {
    forall x ensures multiset(e1)[x] == multiset(e2)[x] {
      DistinctEntriesCount(e1, x);
      DistinctEntriesCount(e2, x);
      if x in e1 {
        var i :| 0 <= i < |e1| && e1[i] == x;
        var j :| 0 <= j < |e2| && e2[j].0 == x.0;
        assert e2[j] == x;
      }
      if x in e2 {
        var j :| 0 <= j < |e2| && e2[j] == x;
        var i :| 0 <= i < |e1| && e1[i].0 == x.0;
        assert e1[i] == x;
      }
    }
    assert multiset(e1) == multiset(e2);
    LinesOfPermutation(e1, e2);
  }

  /** collectRows hands on the same rows for any arrangement of the same line numbers. */
  lemma CollectedByLines(table: TableDef, file: seq<string>, e1: seq<(string, nat)>, e2: seq<(string, nat)>)
    requires multiset(LinesOf(e1)) == multiset(LinesOf(e2))
    ensures Collected(table, file, e1) == Collected(table, file, e2)
  {
    SortedNatsUnique(SortNats(LinesOf(e1)), SortNats(LinesOf(e2)));
  }

  // ---------------------------------------------------------------------------
  // Helpers of the row source

  /** The stored entries for the keys in `keys`, in ascending key order. */
  ghost function SortedEntriesFor(lineNumbers: map<string, nat>, keys: set<string>): (e: seq<(string, nat)>)
    ensures EntriesOf(e, lineNumbers, keys)
  {
    var ks := SortedKeySet(set k | k in lineNumbers && k in keys);
    StoredKeysSortedOnce(lineNumbers, keys);
    EntriesForOf(ks, lineNumbers, keys);
    EntriesFor(ks, lineNumbers)
  }

  /** The sorted list of the stored keys among `keys` holds each of them once. */
  lemma StoredKeysSortedOnce(lineNumbers: map<string, nat>, keys: set<string>)
    ensures var ks := SortedKeySet(set k | k in lineNumbers && k in keys);
      (forall i, j :: 0 <= i < j < |ks| ==> ks[i] != ks[j]) &&
      (forall k :: k in ks <==> k in keys && k in lineNumbers)
  {
    SortedKeySetDistinct(set k | k in lineNumbers && k in keys);
  }

  /** The rows read for a list of entries, sorted by key: what getPart and getRows return. */
  ghost function SortedCollected(table: TableDef, file: seq<string>, entries: seq<(string, nat)>): (r: seq<Row>)
    ensures AllCover(r) && SortedByKey(r)
    ensures |r| <= |entries|
    ensures forall i :: 0 <= i < |r| ==> r[i].table == table && |r[i].value| == |table.columns|
  {
    CollectedFor(table, file, entries);
    var c := Collected(table, file, entries);
    var r := SortRowsByKey(c);
    forall i | 0 <= i < |r| ensures r[i].table == table && |r[i].value| == |table.columns| {
      assert r[i] in multiset(c);
    }
    r
  }

  /** The rows read for a list of entries, under their index keys: what getPartMap and getRowsMap return. */
  ghost function KeyedCollected(table: TableDef, file: seq<string>, entries: seq<(string, nat)>): (m: map<string, Row>)
    ensures forall k :: k in m ==> m[k].table == table && |m[k].value| == |table.columns| && m[k].CoversKey() && IndexKey(m[k]) == k
  {
    CollectedFor(table, file, entries);
    var c := Collected(table, file, entries);
    var m := KeyedRows(c);
    forall k | k in m ensures m[k].table == table && |m[k].value| == |table.columns| {
      var i :| 0 <= i < |c| && c[i] == m[k];
    }
    m
  }

  /** The rows handed on, each put under its index key in turn: the map a collecting handler fills. */
  method MapByKey(rows: seq<Row>) returns (m: map<string, Row>)
    requires AllCover(rows)
    ensures m == KeyedRows(rows)
  {
    m := map[];
    for i := 0 to |rows|
      invariant m == KeyedRows(rows[..i])
    {
      var pk := GetPrimaryKey(rows[i]);
      assert rows[..i + 1][..i] == rows[..i];
      m := m[GenIndexKey(pk) := rows[i]];
    }
    assert rows[..|rows|] == rows;
  }

  /**
   * filteredEntryList: walks the stored entries in the map's own order and
   * keeps those whose key is among `keys`.
   */
  method FilterEntries(lineNumbers: map<string, nat>, keys: seq<string>) returns (entries: seq<(string, nat)>)
    ensures EntriesOf(entries, lineNumbers, set k | k in keys)
  {
    entries := [];
    var rest := lineNumbers.Keys;
    while rest != {}
      invariant rest <= lineNumbers.Keys
      invariant forall i :: 0 <= i < |entries| ==>
        entries[i].0 in keys && entries[i].0 in lineNumbers && entries[i].0 !in rest &&
        entries[i].1 == lineNumbers[entries[i].0]
      invariant forall i, j :: 0 <= i < j < |entries| ==> entries[i].0 != entries[j].0
      invariant forall k :: k in keys && k in lineNumbers && k !in rest ==>
        exists i :: 0 <= i < |entries| && entries[i].0 == k
      decreases |rest|
    {
      var key :| key in rest;
      if key in keys {
        ghost var before := entries;
        entries := entries + [(key, lineNumbers[key])];
        forall k | k in keys && k in lineNumbers && k !in rest - {key}
          ensures exists i :: 0 <= i < |entries| && entries[i].0 == k
        {
          if k == key {
            assert entries[|before|].0 == k;
          } else {
            var i :| 0 <= i < |before| && before[i].0 == k;
            assert entries[i].0 == k;
          }
        }
      }
      rest := rest - {key};
    }
  }

  // ---------------------------------------------------------------------------
  // The row source

  /**
   * A lazy row source: the table, the lines of the data file, and the line
   * number of the row stored under every index key.
   */
  datatype LazyRowSource = LazyRowSource(table: TableDef, file: seq<string>, lineNumbers: map<string, nat>) {

    function TableName(): string {
      table.name
    }

    /** count: the number of stored line numbers. */
    function Count(): (n: nat)
      ensures n == |lineNumbers.Keys|
    {
      |lineNumbers|
    }

    /** containsRow: whether a line number is stored under the key. */
    predicate ContainsRow(key: string)
      ensures ContainsRow(key) <==> key in lineNumbers.Keys
    {
      key in lineNumbers
    }

    /** readLineFromDataFile: the line at the number, or none past the end of the file. */
    function ReadLineFromDataFile(lineNumber: nat): (r: Option<string>)
      ensures r.Some? <==> lineNumber < |file|
      ensures r.Some? ==> r.value == file[lineNumber]
    {
      LineAt(file, lineNumber)
    }

    /** What getRow gives for a key: the row parsed again from its stored line. */
    function RowFor(key: string): (r: Option<Row>)
      ensures key !in lineNumbers ==> r.None?
      ensures r.Some? ==> r.value.table == table && r.value.CoversKey()
    {
      if key !in lineNumbers then None
      else
        var line := ReadLineFromDataFile(lineNumbers[key]);
        if line.Some? && ExtractRowSpec(table, line.value).Some? then
          ExtractedRowCoversKey(table, line.value);
          ExtractRowSpec(table, line.value)
        else None
    }

    /** getRow: looks the line number up, reads that line and parses it. */
    method GetRow(key: string) returns (row: Option<Row>)
      ensures row == RowFor(key)
    {
      row := None;
      if key in lineNumbers {
        var line := ReadLineFromDataFile(lineNumbers[key]);
        if line.Some? {
          row := ExtractRow(table, line.value);
        }
      }
    }

    /** The stored entries in ascending key order. */
    ghost function SortedEntries(): (e: seq<(string, nat)>)
      ensures |e| == Count() && EntriesOf(e, lineNumbers, lineNumbers.Keys)
    {
      var e := SortedEntriesFor(lineNumbers, lineNumbers.Keys);
      assert (set k | k in lineNumbers && k in lineNumbers.Keys) == lineNumbers.Keys;
      e
    }

    /** sortedEntryList: the stored entries sorted by key. */
    method SortedEntryList() returns (entries: seq<(string, nat)>)
      ensures entries == SortedEntries()
    {
      var ks := SortIndexKeySet(lineNumbers.Keys);
      assert (set k | k in lineNumbers && k in lineNumbers.Keys) == lineNumbers.Keys;
      entries := EntriesFor(ks, lineNumbers);
    }

    /** Where a window ends: start + number, cut at the count. */
    function EndIndex(start: int, number: int): (end: int)
      ensures end <= Count()
      ensures end == start + number || end == Count()
    {
      if start + number <= Count() then start + number else Count()
    }

    /** The sorted entries of a window; subList demands start <= end. */
    ghost function PartEntries(start: nat, number: int): seq<(string, nat)>
      requires start <= EndIndex(start, number)
    {
      SortedEntries()[start..EndIndex(start, number)]
    }

    /** What getPart returns: the rows read for a window of sorted entries, sorted by key. */
    ghost function Part(start: nat, number: int): (r: seq<Row>)
      requires start <= EndIndex(start, number)
      ensures AllCover(r) && SortedByKey(r)
      ensures |r| <= EndIndex(start, number) - start
      ensures forall i :: 0 <= i < |r| ==> r[i].table == table && |r[i].value| == |table.columns|
    {
      SortedCollected(table, file, PartEntries(start, number))
    }

    /** What getPartMap returns: the rows read for a window, under their index keys. */
    ghost function PartMap(start: nat, number: int): (m: map<string, Row>)
      requires start <= EndIndex(start, number)
      ensures forall k :: k in m ==> m[k].table == table && |m[k].value| == |table.columns| && m[k].CoversKey() && IndexKey(m[k]) == k
    {
      KeyedCollected(table, file, PartEntries(start, number))
    }

    /** getPart: sorted entries start up to the window end, read, then sorted by key. */
    method GetPart(start: nat, number: int) returns (list: seq<Row>)
      requires start <= EndIndex(start, number)
      ensures list == Part(start, number)
    {
      var sorted := SortedEntryList();
      var entryList := sorted[start..EndIndex(start, number)];
      var handed := CollectRows(table, file, entryList);
      CollectedFor(table, file, entryList);
      list := SortRowsByKey(handed);
    }

    /** getAllRows: the window from 0 over the whole count. */
    method GetAllRows() returns (list: seq<Row>)
      ensures list == Part(0, Count())
    {
      list := GetPart(0, Count());
    }

    /** getPartMap: sorted entries start up to the window end, read, and put under their keys. */
    method GetPartMap(start: nat, number: int) returns (result: map<string, Row>)
      requires start <= EndIndex(start, number)
      ensures result == PartMap(start, number)
    {
      var sorted := SortedEntryList();
      var entryList := sorted[start..EndIndex(start, number)];
      var handed := CollectRows(table, file, entryList);
      CollectedFor(table, file, entryList);
      result := MapByKey(handed);
    }

    /** The stored entries for the requested keys, in ascending key order. */
    ghost function RequestedEntries(keys: seq<string>): (e: seq<(string, nat)>)
      ensures EntriesOf(e, lineNumbers, set k | k in keys)
    {
      SortedEntriesFor(lineNumbers, set k | k in keys)
    }

    /** What getRows returns: the rows read for the requested keys, sorted by key. */
    ghost function RowsFor(keys: seq<string>): (r: seq<Row>)
      ensures AllCover(r) && SortedByKey(r)
      ensures forall i :: 0 <= i < |r| ==> r[i].table == table && |r[i].value| == |table.columns|
    {
      SortedCollected(table, file, RequestedEntries(keys))
    }

    /** What getRowsMap returns: the rows read for the requested keys, under their index keys. */
    ghost function RowsMapFor(keys: seq<string>): (m: map<string, Row>)
      ensures forall k :: k in m ==> m[k].table == table && |m[k].value| == |table.columns| && m[k].CoversKey() && IndexKey(m[k]) == k
    {
      KeyedCollected(table, file, RequestedEntries(keys))
    }

    /** The entries filteredEntryList yields, in whatever order, are read as the requested entries. */
    lemma FilteredReadAsRequested(entries: seq<(string, nat)>, keys: seq<string>)
      requires EntriesOf(entries, lineNumbers, set k | k in keys)
      ensures Collected(table, file, entries) == Collected(table, file, RequestedEntries(keys))
    {
      EntriesOfSameLines(entries, RequestedEntries(keys), lineNumbers, set k | k in keys);
      CollectedByLines(table, file, entries, RequestedEntries(keys));
    }

    /** getRows: the filtered entries, read, then sorted by key. */
    method GetRows(keys: seq<string>) returns (list: seq<Row>)
      ensures list == RowsFor(keys)
    {
      var entryList := FilterEntries(lineNumbers, keys);
      var handed := CollectRows(table, file, entryList);
      FilteredReadAsRequested(entryList, keys);
      CollectedFor(table, file, entryList);
      list := SortRowsByKey(handed);
    }

    /** getRowsMap: the filtered entries, read, and put under their keys. */
    method GetRowsMap(keys: seq<string>) returns (result: map<string, Row>)
      ensures result == RowsMapFor(keys)
    {
      var entryList := FilterEntries(lineNumbers, keys);
      var handed := CollectRows(table, file, entryList);
      FilteredReadAsRequested(entryList, keys);
      CollectedFor(table, file, entryList);
      result := MapByKey(handed);
    }

    /**
     * Neither the order nor repetitions of the requested keys matter, nor
     * keys that are not stored: getRows reads the same rows for any request
     * naming the same stored keys.
     */
    lemma RowsForSameStoredKeys(keys1: seq<string>, keys2: seq<string>)
      requires forall k :: k in lineNumbers ==> (k in keys1 <==> k in keys2)
      ensures RowsFor(keys1) == RowsFor(keys2)
      ensures RowsMapFor(keys1) == RowsMapFor(keys2)
    {
      SameStoredKeysSameRows(table, file, lineNumbers, set k | k in keys1, set k | k in keys2);
      SameCollectedSameRows(table, file, RequestedEntries(keys1), RequestedEntries(keys2));
    }
  }

  /** Entries for two key sets that pick the same stored keys are read as the same rows. */
  lemma SameStoredKeysSameRows(table: TableDef, file: seq<string>, lineNumbers: map<string, nat>,
                               keys1: set<string>, keys2: set<string>)
    requires forall k :: k in lineNumbers ==> (k in keys1 <==> k in keys2)
    ensures Collected(table, file, SortedEntriesFor(lineNumbers, keys1)) ==
            Collected(table, file, SortedEntriesFor(lineNumbers, keys2))
  {
    var e1, e2 := SortedEntriesFor(lineNumbers, keys1), SortedEntriesFor(lineNumbers, keys2);
    assert EntriesOf(e1, lineNumbers, keys2);
    EntriesOfSameLines(e1, e2, lineNumbers, keys2);
    CollectedByLines(table, file, e1, e2);
  }

  /** Entries read as the same rows give the same sorted rows and the same row map. */
  lemma SameCollectedSameRows(table: TableDef, file: seq<string>, e1: seq<(string, nat)>, e2: seq<(string, nat)>)
    requires Collected(table, file, e1) == Collected(table, file, e2)
    ensures SortedCollected(table, file, e1) == SortedCollected(table, file, e2)
    ensures KeyedCollected(table, file, e1) == KeyedCollected(table, file, e2)
  {
  }

  /**
   * A lazy source built from the line-number map of a script and an eager
   * source built from the row map of the same script agree on the stored
   * keys, the count and every row getRow returns.
   */
  lemma LazyAgreesWithEager(table: TableDef, lines: seq<string>, key: string)
    ensures var lazy := LazyRowSource(table, lines, LinesOfTable(table, lines));
      var eager := EagerRowSource.EagerRowSource(table, RowsOfTable(table, lines));
      (lazy.ContainsRow(key) <==> eager.ContainsRow(key)) &&
      lazy.Count() == eager.Count() &&
      lazy.RowFor(key) == eager.GetRow(key)
  {
    var lineNumbers := LinesOfTable(table, lines);
    var rows := RowsOfTable(table, lines);
    forall k ensures k in rows <==> k in lineNumbers {
      RowsAndLinesAgree(table, lines, k);
    }
    assert rows.Keys == lineNumbers.Keys;
    RowsAndLinesAgree(table, lines, key);
  }
}
