/**
 * The data side of the extractor: the INSERT INTO lines of a table become
 * rows, cut into values at the commas that lie outside single quotes, and
 * are keyed by their primary-key values.
 */
module RowParser {
  import opened Wrappers
  import opened Strings
  import opened Entity
  import opened RowUtil

  // ---------------------------------------------------------------------------
  // Patterns

  /** The literal start of buildMatchPattern's pattern for a table. */
  function RowPrefix(tableName: string): string {
    "INSERT INTO " + tableName + " VALUES"
  }

  /**
   * `line.matches("INSERT INTO <name> VALUES\\s*\\((.*)\\)")`, with group 1:
   * the whole line is the statement, and the group is everything between the
   * opening bracket and the final one.
   */
  function MatchRowLine(line: string, tableName: string): (r: Option<string>)
    ensures r.Some? ==> StartsWith(line, RowPrefix(tableName)) && AllLineChars(r.value)
  {
    var prefix := RowPrefix(tableName);
    if !StartsWith(line, prefix) then None
    else
      var rest := SkipSpaces(line[|prefix|..]);
      if |rest| >= 2 && rest[0] == '(' && rest[|rest| - 1] == ')' && AllLineChars(rest[1..|rest| - 1])
      then Some(rest[1..|rest| - 1])
      else None
  }

  /**
   * The same pattern matched at the start of `s` without having to reach its
   * end: the greedy `.*` runs to the last `)` before the first line
   * terminator.
   */
  function MatchRowAt(s: string, tableName: string): (r: Option<string>)
    ensures r.Some? ==> AllLineChars(r.value)
  {
    var prefix := RowPrefix(tableName);
    if !StartsWith(s, prefix) then None
    else
      var rest := SkipSpaces(s[|prefix|..]);
      if rest == [] || rest[0] != '(' then None
      else RowGroup(rest[1..])
  }

  /** The `(.*)\)` after the opening bracket: the text up to the last `)` before the line ends. */
  function RowGroup(body: string): (r: Option<string>)
    ensures r.Some? ==> AllLineChars(r.value)
  {
    var run := body[..LineRunLen(body)];
    var close := LastIndexOf(run, ')');
    if close == -1 then None else Some(run[..close])
  }

  /** Matcher.find from position `from`: the leftmost position where the pattern matches. */
  function FindRowFrom(def: string, tableName: string, from: nat): (r: Option<string>)
    ensures r.Some? ==> AllLineChars(r.value)
    decreases |def| - from
  {
    if from > |def| then None
    else
      match MatchRowAt(def[from..], tableName)
      case Some(data) => Some(data)
      case None => FindRowFrom(def, tableName, from + 1)
  }

  /** `matcher.find()` then `group(1)` on the pattern of a table. */
  function FindRowData(def: string, tableName: string): Option<string> {
    FindRowFrom(def, tableName, 0)
  }

  /**
   * On a line that matches the pattern as a whole, find sees the same data:
   * the search stops at position 0 and the last `)` is the final character.
   */
  lemma FindAgreesWithMatch(line: string, tableName: string)
    requires MatchRowLine(line, tableName).Some?
    ensures FindRowData(line, tableName) == MatchRowLine(line, tableName)
  {
    var prefix := RowPrefix(tableName);
    var rest := SkipSpaces(line[|prefix|..]);
    var data := rest[1..|rest| - 1];
    var body := rest[1..];
    assert body == data + ")";
    assert AllLineChars(body);
    LineRunLenAll(body);
    assert body[..LineRunLen(body)] == body;
    assert LastIndexOf(body, ')') == |data|;
    assert line[0..] == line;
  }

  /** A whole INSERT line for a table: the prefix, spaces, and the data in brackets. */
  function RowLine(tableName: string, sp: string, data: string): string {
    RowPrefix(tableName) + (sp + ("(" + data + ")"))
  }

  /** Every line of the pattern's shape matches, with its data as the group. */
  lemma RowLineParses(tableName: string, sp: string, data: string)
    requires AllSpaces(sp) && AllLineChars(data)
    ensures MatchRowLine(RowLine(tableName, sp, data), tableName) == Some(data)
  {
    var prefix := RowPrefix(tableName);
    var paren := "(" + data + ")";
    var line := RowLine(tableName, sp, data);
    assert StartsWith(line, prefix) && line[|prefix|..] == sp + paren;
    SkipSpacesOf(sp, paren);
    assert paren[1..|paren| - 1] == data;
  }

  /** Every line that matches has the pattern's shape. */
  lemma RowLineShape(line: string, tableName: string) returns (sp: string)
    requires MatchRowLine(line, tableName).Some?
    ensures AllSpaces(sp)
    ensures line == RowLine(tableName, sp, MatchRowLine(line, tableName).value)
  {
    var prefix := RowPrefix(tableName);
    var after := line[|prefix|..];
    var rest := SkipSpaces(after);
    var data := rest[1..|rest| - 1];
    sp := SkipSpacesSplit(after);
    assert rest == "(" + data + ")";
    StartsWithSplit(line, prefix);
  }

  /** No closing bracket before the first line terminator of `s`. */
  predicate NoCloseInRun(s: string) {
    forall i :: 0 <= i < LineRunLen(s) ==> s[i] != ')'
  }

  /** A statement at the start of a text: the data, its closing bracket, and text that does not reopen the run. */
  function RowAt(tableName: string, sp: string, data: string, rest: string): string {
    RowPrefix(tableName) + (sp + ("(" + (data + (")" + rest))))
  }

  /** The group of a match at the start of a text is the data up to the last bracket of the line. */
  lemma RowAtParses(tableName: string, sp: string, data: string, rest: string)
    requires AllSpaces(sp) && AllLineChars(data) && NoCloseInRun(rest)
    ensures MatchRowAt(RowAt(tableName, sp, data, rest), tableName) == Some(data)
  {
    var prefix := RowPrefix(tableName);
    var body := data + (")" + rest);
    var s := RowAt(tableName, sp, data, rest);
    assert StartsWith(s, prefix) && s[|prefix|..] == sp + ("(" + body);
    SkipSpacesOf(sp, "(" + body);
    assert ("(" + body)[1..] == body;
    RowRunClose(data, rest);
  }

  /** The run of `data ) rest` ends its last bracket right after `data`. */
  lemma RowRunClose(data: string, rest: string)
    requires AllLineChars(data) && NoCloseInRun(rest)
    ensures var body := data + (")" + rest);
      var run := body[..LineRunLen(body)];
      LastIndexOf(run, ')') == |data| && run[..|data|] == data
  {
    var body := data + (")" + rest);
    assert body == (data + ")") + rest;
    LineRunLenAppend(data + ")", rest);
    var run := body[..LineRunLen(body)];
    assert run[|data|] == ')';
    forall i | |data| < i < |run|
      ensures run[i] != ')'
    {
      assert run[i] == rest[i - |data| - 1];
    }
  }

  /** Every match at the start of a text has that shape. */
  lemma RowAtShape(s: string, tableName: string) returns (sp: string, rest: string)
    requires MatchRowAt(s, tableName).Some?
    ensures AllSpaces(sp) && NoCloseInRun(rest)
    ensures s == RowAt(tableName, sp, MatchRowAt(s, tableName).value, rest)
  {
    var body, close;
    sp, body, close := RowAtPieces(s, tableName);
    rest := body[close + 1..];
    RowRunRest(body, close);
    RowAtOf(s, tableName, sp, body, close);
  }

  /** The pieces a match at the start of a text is cut into: spaces, then the bracket and the body. */
  lemma RowAtPieces(s: string, tableName: string) returns (sp: string, body: string, close: nat)
    requires MatchRowAt(s, tableName).Some?
    ensures AllSpaces(sp) && s == RowPrefix(tableName) + (sp + ("(" + body))
    ensures close < LineRunLen(body) && LastIndexOf(body[..LineRunLen(body)], ')') == close
    ensures MatchRowAt(s, tableName) == Some(body[..close])
  {
    var prefix := RowPrefix(tableName);
    var after := s[|prefix|..];
    var open := SkipSpaces(after);
    sp := SkipSpacesSplit(after);
    body := open[1..];
    assert MatchRowAt(s, tableName) == RowGroup(body);
    StartsWithSplit(s, prefix);
    assert open == "(" + body;
    close := RowGroupClose(body);
  }

  /** Where the group of a body that matches ends. */
  lemma RowGroupClose(body: string) returns (close: nat)
    requires RowGroup(body).Some?
    ensures close < LineRunLen(body) && LastIndexOf(body[..LineRunLen(body)], ')') == close
    ensures RowGroup(body) == Some(body[..close])
  {
    var run := body[..LineRunLen(body)];
    close := LastIndexOf(run, ')');
    assert run[..close] == body[..close];
  }

  /** Reassembles a text from the pieces of a match at its start. */
  lemma RowAtOf(s: string, tableName: string, sp: string, body: string, close: nat)
    requires s == RowPrefix(tableName) + (sp + ("(" + body))
    requires close < |body| && body[close] == ')'
    ensures s == RowAt(tableName, sp, body[..close], body[close + 1..])
  {
    assert body == body[..close] + (")" + body[close + 1..]);
  }

  /** What follows the last bracket of the run holds no bracket before its own line end. */
  lemma RowRunRest(body: string, close: nat)
    requires close < LineRunLen(body)
    requires LastIndexOf(body[..LineRunLen(body)], ')') == close
    ensures NoCloseInRun(body[close + 1..])
  {
    var n := LineRunLen(body);
    var run := body[..n];
    assert body == body[..close + 1] + body[close + 1..];
    assert AllLineChars(body[..close + 1]) by {
      assert body[..close + 1] == run[..close + 1];
    }
    var tail := body[close + 1..];
    LineRunLenAppend(body[..close + 1], tail);
    forall i | 0 <= i < LineRunLen(tail)
      ensures tail[i] != ')'
    {
      assert tail[i] == run[close + 1 + i];
    }
  }

  /**
   * find reports the match at the leftmost position from `from` where the
   * pattern matches, and nothing when it matches at none.
   */
  lemma {:induction false} FindRowLeftmost(def: string, tableName: string, from: nat) returns (p: nat)
    ensures FindRowFrom(def, tableName, from).None? ==>
      forall q :: from <= q <= |def| ==> MatchRowAt(def[q..], tableName).None?
    ensures FindRowFrom(def, tableName, from).Some? ==>
      from <= p <= |def| && MatchRowAt(def[p..], tableName) == FindRowFrom(def, tableName, from) &&
      forall q :: from <= q < p ==> MatchRowAt(def[q..], tableName).None?
    decreases |def| - from
  {
    p := from;
    if from <= |def| && MatchRowAt(def[from..], tableName).None? {
      assert FindRowFrom(def, tableName, from) == FindRowFrom(def, tableName, from + 1);
      p := FindRowLeftmost(def, tableName, from + 1);
      forall q | from <= q <= |def| && q < from + 1
        ensures MatchRowAt(def[q..], tableName).None?
      {
        assert q == from;
      }
    }
  }

  // ---------------------------------------------------------------------------
  // Splitting the values

  /** Number of single quotes in `s`. */
  function QuoteCount(s: string): nat {
    if s == [] then 0
    else QuoteCount(s[..|s| - 1]) + if s[|s| - 1] == '\'' then 1 else 0
  }

  /** Position `j` of `s` lies inside a quoted text: an odd number of quotes precede it. */
  predicate Quoted(s: string, j: nat)
    requires j <= |s|
  {
    QuoteCount(s[..j]) % 2 == 1
  }

  /**
   * The values splitRowData produces from `data`, scanning at `i` with the
   * quote lock `lock`: a comma outside quotes ends a value, a quote toggles
   * the lock, and a non-empty rest is the last value.
   */
  function SplitRowFrom(data: string, i: nat, lock: bool): seq<string>
    requires i <= |data|
    decreases |data|, |data| - i
  {
    if i == |data| then (if data == [] then [] else [data])
    else if data[i] == ',' && !lock then [data[..i]] + SplitRowFrom(data[i + 1..], 0, lock)
    else if data[i] == '\'' then SplitRowFrom(data, i + 1, !lock)
    else SplitRowFrom(data, i + 1, lock)
  }

  function SplitRowSpec(data: string): seq<string> {
    SplitRowFrom(data, 0, false)
  }

  /** splitRowData: cuts the data at the commas outside single quotes. */
  method SplitRowData(data0: string) returns (rowData: seq<string>)
    ensures rowData == SplitRowSpec(data0)
  {
    rowData := [];
    var data := data0;
    var splitLock := false;
    var i := 0;
    while i < |data|
      invariant i <= |data|
      invariant rowData + SplitRowFrom(data, i, splitLock) == SplitRowSpec(data0)
      decreases |data|, |data| - i
    {
      var currChar := data[i];
      if currChar == ',' && !splitLock {
        assert rowData + SplitRowFrom(data, i, splitLock) ==
          (rowData + [data[..i]]) + SplitRowFrom(data[i + 1..], 0, splitLock);
        rowData := rowData + [data[..i]];
        data := data[i + 1..];
        i := 0;
      } else {
        if currChar == '\'' {
          splitLock := !splitLock;
        }
        i := i + 1;
      }
    }
    if data != [] {
      rowData := rowData + [data];
    }
  }

  lemma QuoteCountSnoc(s: string, c: char)
    ensures QuoteCount(s + [c]) == QuoteCount(s) + if c == '\'' then 1 else 0
  {
    assert (s + [c])[..|s|] == s;
  }

  /** Every comma inside a value is quoted. */
  predicate CommasQuoted(parts: seq<string>) {
    forall k, j :: 0 <= k < |parts| && 0 <= j < |parts[k]| && parts[k][j] == ',' ==> Quoted(parts[k], j)
  }

  /** Every value but the last closes the quotes it opens. */
  predicate QuotesClosed(parts: seq<string>) {
    forall k :: 0 <= k < |parts| - 1 ==> !Quoted(parts[k], |parts[k]|)
  }

  lemma {:induction false} SplitRowFromQuoting(data: string, i: nat, lock: bool)
    requires i <= |data|
    requires lock <==> Quoted(data, i)
    requires forall j :: 0 <= j < i && data[j] == ',' ==> Quoted(data, j)
    ensures CommasQuoted(SplitRowFrom(data, i, lock)) && QuotesClosed(SplitRowFrom(data, i, lock))
    decreases |data|, |data| - i
  {
    if i == |data| {
      assert data[..i] == data;
    } else if data[i] == ',' && !lock {
      var rest := data[i + 1..];
      assert rest[..0] == [];
      SplitRowFromQuoting(rest, 0, lock);
      CutQuoting(data, i, lock);
    } else {
      var next := if data[i] == '\'' then !lock else lock;
      assert data[..i + 1] == data[..i] + [data[i]];
      QuoteCountSnoc(data[..i], data[i]);
      assert next <==> Quoted(data, i + 1);
      assert data[i] == ',' ==> Quoted(data, i);
      SplitRowFromQuoting(data, i + 1, next);
    }
  }

  /** A comma outside quotes closes a value that holds only quoted commas and no open quote. */
  lemma CutQuoting(data: string, i: nat, lock: bool)
    requires i < |data| && data[i] == ',' && !lock
    requires lock <==> Quoted(data, i)
    requires forall j :: 0 <= j < i && data[j] == ',' ==> Quoted(data, j)
    requires CommasQuoted(SplitRowFrom(data[i + 1..], 0, lock)) && QuotesClosed(SplitRowFrom(data[i + 1..], 0, lock))
    ensures CommasQuoted(SplitRowFrom(data, i, lock)) && QuotesClosed(SplitRowFrom(data, i, lock))
  {
    var rest := data[i + 1..];
    var first := data[..i];
    var tail := SplitRowFrom(rest, 0, lock);
    var parts := [first] + tail;
    assert SplitRowFrom(data, i, lock) == parts;
    assert first[..|first|] == data[..i];
    assert forall j :: 0 <= j <= i ==> first[..j] == data[..j];
    forall k, j | 0 <= k < |parts| && 0 <= j < |parts[k]| && parts[k][j] == ','
      ensures Quoted(parts[k], j)
    {
      if k > 0 {
        assert parts[k] == tail[k - 1];
      }
    }
    forall k | 0 <= k < |parts| - 1
      ensures !Quoted(parts[k], |parts[k]|)
    {
      if k > 0 {
        assert parts[k] == tail[k - 1];
      }
    }
  }

  /**
   * The values are cut only outside quotes: every comma inside a value is
   * quoted, and every value but the last closes all quotes it opens.
   */
  lemma SplitRowQuoting(data: string)
    ensures CommasQuoted(SplitRowSpec(data)) && QuotesClosed(SplitRowSpec(data))
  {
    assert data[..0] == [];
    SplitRowFromQuoting(data, 0, false);
  }

  lemma {:induction false} JoinSplitRowFrom(data: string, i: nat, lock: bool)
    requires i <= |data|
    ensures SplitRowFrom(data, i, lock) == [] ==> data == []
    ensures data == Join(SplitRowFrom(data, i, lock), ",") || data == Join(SplitRowFrom(data, i, lock), ",") + ","
    decreases |data|, |data| - i
  {
    if i < |data| {
      if data[i] == ',' && !lock {
        JoinSplitRowFrom(data[i + 1..], 0, lock);
        JoinAfterCut(data, i, SplitRowFrom(data[i + 1..], 0, lock));
      } else {
        JoinSplitRowFrom(data, i + 1, if data[i] == '\'' then !lock else lock);
      }
    }
  }

  /**
   * Joining the values with "," gives the data back, except for an empty
   * value after a final unquoted comma, which is dropped.
   */
  lemma JoinSplitRow(data: string)
    ensures SplitRowSpec(data) == [] <==> data == []
    ensures var parts := SplitRowSpec(data);
      data == Join(parts, ",") || data == Join(parts, ",") + ","
  {
    JoinSplitRowFrom(data, 0, false);
  }

  /** A comma between quotes stays inside its value. */
  lemma SplitRowKeepsQuotedComma()
    ensures SplitRowSpec("1,'x,y'") == ["1", "'x,y'"]
  {
    var data := "1,'x,y'";
    var text := "'x,y'";
    assert data[2..] == text && data[..1] == "1";
    assert SplitRowFrom(data, 0, false) == SplitRowFrom(data, 1, false);
    assert SplitRowFrom(data, 1, false) == ["1"] + SplitRowFrom(text, 0, false);
    assert SplitRowFrom(text, 0, false) == SplitRowFrom(text, 1, true);
    assert SplitRowFrom(text, 1, true) == SplitRowFrom(text, 2, true);
    assert SplitRowFrom(text, 2, true) == SplitRowFrom(text, 3, true);
    assert SplitRowFrom(text, 3, true) == SplitRowFrom(text, 4, true);
    assert SplitRowFrom(text, 4, true) == SplitRowFrom(text, 5, false);
  }

  // ---------------------------------------------------------------------------
  // Rows

  /** extractRow: the row a statement describes, when its value count is the table's column count. */
  function ExtractRowSpec(table: TableDef, def: string): Option<Row> {
    match FindRowData(def, table.name)
    case None => None
    case Some(rowData) =>
      var rowDataParts := SplitRowSpec(rowData);
      if |rowDataParts| == |table.columns| then Some(Row(table, rowDataParts)) else None
  }

  /** A row extracted for a table has one value per column, so it covers the primary key. */
  lemma ExtractedRowCoversKey(table: TableDef, def: string)
    requires ExtractRowSpec(table, def).Some?
    ensures var row := ExtractRowSpec(table, def).value;
      row.table == table && |row.value| == |table.columns| && row.CoversKey()
  {
    WideRowCoversKey(ExtractRowSpec(table, def).value);
  }

  /** extractRow: fills an array of the table's width with the values. */
  method ExtractRow(table: TableDef, def: string) returns (row: Option<Row>)
    ensures row == ExtractRowSpec(table, def)
  {
    row := None;
    var values := new string[|table.columns|];
    var found := FindRowData(def, table.name);
    if found.Some? {
      var rowDataParts := SplitRowData(found.value);
      if |rowDataParts| == values.Length {
        for i := 0 to |rowDataParts|
          invariant values[..i] == rowDataParts[..i]
        {
          values[i] := rowDataParts[i];
        }
        assert rowDataParts[..|rowDataParts|] == rowDataParts;
        assert values[..] == values[..values.Length];
        row := Some(Row(table, values[..]));
      }
    }
  }

  /** The row a script line contributes to a table: the line matches the pattern and yields a row. */
  function RowOfLine(table: TableDef, line: string): Option<Row> {
    if MatchRowLine(line, table.name).Some? then ExtractRowSpec(table, line) else None
  }

  /** RowOfLine for every line of the script. */
  function LineRows(table: TableDef, lines: seq<string>): (r: seq<Option<Row>>)
    ensures |r| == |lines| && forall n :: 0 <= n < |lines| ==> r[n] == RowOfLine(table, lines[n])
  {
    seq(|lines|, n requires 0 <= n < |lines| => RowOfLine(table, lines[n]))
  }

  /** The rows present in `found`, with their positions, in order. */
  function HitsFrom(found: seq<Option<Row>>): (hits: seq<(Row, nat)>)
    ensures forall k :: 0 <= k < |hits| ==> hits[k].1 < |found| && found[hits[k].1] == Some(hits[k].0)
    ensures forall k, l :: 0 <= k < l < |hits| ==> hits[k].1 < hits[l].1
  {
    if found == [] then []
    else
      var init := found[..|found| - 1];
      HitsFrom(init) +
      match found[|found| - 1]
      case Some(row) => [(row, |found| - 1)]
      case None => []
  }

  /** Every row present in `found` is among the hits. */
  lemma {:induction false} HitsFromComplete(found: seq<Option<Row>>, n: nat)
    requires n < |found| && found[n].Some?
    ensures (found[n].value, n) in HitsFrom(found)
  {
    var init := found[..|found| - 1];
    if n < |init| {
      HitsFromComplete(init, n);
    }
  }

  /** The rows readRowPerLine hands on, with their 0-based line numbers, in file order. */
  function RowHits(table: TableDef, lines: seq<string>): seq<(Row, nat)> {
    HitsFrom(LineRows(table, lines))
  }

  /** Each hit is the row of its line, and every line that yields a row is a hit. */
  lemma RowHitsMeaning(table: TableDef, lines: seq<string>, row: Row, n: nat)
    ensures (row, n) in RowHits(table, lines) <==> n < |lines| && RowOfLine(table, lines[n]) == Some(row)
  {
    if n < |lines| && RowOfLine(table, lines[n]) == Some(row) {
      HitsFromComplete(LineRows(table, lines), n);
    }
  }

  /** readRowPerLine: walks the lines, counting them, and collects the rows of the table. */
  method ReadRowPerLine(table: TableDef, lines: seq<string>) returns (hits: seq<(Row, nat)>)
    ensures hits == RowHits(table, lines)
  {
    hits := [];
    var lineNumber := 0;
    assert LineRows(table, lines)[..0] == [];
    while lineNumber < |lines|
      invariant lineNumber <= |lines|
      invariant hits == HitsFrom(LineRows(table, lines)[..lineNumber])
    {
      hits := ReadLine(table, lines, lineNumber, hits);
      lineNumber := lineNumber + 1;
    }
    assert LineRows(table, lines)[..|lines|] == LineRows(table, lines);
  }

  /** One round of readRowPerLine: the row of the line, when it has one, joins the hits. */
  method ReadLine(table: TableDef, lines: seq<string>, lineNumber: nat, hits: seq<(Row, nat)>)
    returns (next: seq<(Row, nat)>)
    requires lineNumber < |lines|
    requires hits == HitsFrom(LineRows(table, lines)[..lineNumber])
    ensures next == HitsFrom(LineRows(table, lines)[..lineNumber + 1])
  {
    HitsStep(LineRows(table, lines), lineNumber);
    next := hits;
    var line := lines[lineNumber];
    if MatchRowLine(line, table.name).Some? {
      var row := ExtractRow(table, line);
      if row.Some? {
        next := hits + [(row.value, lineNumber)];
      }
    }
  }

  /** One more position adds its row, when present, to the hits. */
  lemma HitsStep(found: seq<Option<Row>>, n: nat)
    requires n < |found|
    ensures HitsFrom(found[..n + 1]) == HitsFrom(found[..n]) + if found[n].Some? then [(found[n].value, n)] else []
  {
    assert found[..n + 1][..n] == found[..n];
  }

  predicate AllCoverKey(hits: seq<(Row, nat)>) {
    forall k :: 0 <= k < |hits| ==> hits[k].0.CoversKey()
  }

  /** Every hit's row covers the primary key of its table. */
  lemma HitsCoverKey(table: TableDef, lines: seq<string>)
    ensures AllCoverKey(RowHits(table, lines))
  {
    var hits := RowHits(table, lines);
    forall k | 0 <= k < |hits|
      ensures hits[k].0.CoversKey()
    {
      ExtractedRowCoversKey(table, lines[hits[k].1]);
    }
  }

  /** The hits, each tagged with the index key of its row. */
  function Keyed(hits: seq<(Row, nat)>): (r: seq<(string, Row, nat)>)
    requires AllCoverKey(hits)
    ensures |r| == |hits|
    ensures forall k :: 0 <= k < |hits| ==> r[k] == (IndexKey(hits[k].0), hits[k].0, hits[k].1)
  {
    seq(|hits|, k requires 0 <= k < |hits| && AllCoverKey(hits) => (IndexKey(hits[k].0), hits[k].0, hits[k].1))
  }

  /** The map readRowsFromTable builds: each row put under its key, later rows replacing earlier ones. */
  function RowsMap(keyed: seq<(string, Row, nat)>): map<string, Row> {
    if keyed == [] then map[]
    else
      var last := keyed[|keyed| - 1];
      RowsMap(keyed[..|keyed| - 1])[last.0 := last.1]
  }

  /** The map readRowLinesFromTable builds: each row's line number under its key. */
  function LinesMap(keyed: seq<(string, Row, nat)>): map<string, nat> {
    if keyed == [] then map[]
    else
      var last := keyed[|keyed| - 1];
      LinesMap(keyed[..|keyed| - 1])[last.0 := last.2]
  }

  /** Position `k` holds the last entry with key `key`. */
  predicate LastWithKey(keyed: seq<(string, Row, nat)>, k: int, key: string) {
    0 <= k < |keyed| && keyed[k].0 == key && forall l :: k < l < |keyed| ==> keyed[l].0 != key
  }

  /**
   * Both maps have the keys of the entries, and under each key hold the last
   * entry with that key: its row in the one and its line in the other.
   */
  lemma {:induction false} MapsHoldLastEntry(keyed: seq<(string, Row, nat)>, key: string)
    ensures key in RowsMap(keyed) <==> key in LinesMap(keyed)
    ensures key in RowsMap(keyed) <==> exists k :: 0 <= k < |keyed| && keyed[k].0 == key
    ensures key in RowsMap(keyed) ==>
      exists k :: LastWithKey(keyed, k, key) && RowsMap(keyed)[key] == keyed[k].1 && LinesMap(keyed)[key] == keyed[k].2
  {
    if keyed != [] {
      var init := keyed[..|keyed| - 1];
      var n := |keyed| - 1;
      MapsHoldLastEntry(init, key);
      if keyed[n].0 == key {
        assert LastWithKey(keyed, n, key);
      } else if key in RowsMap(init) {
        var k :| LastWithKey(init, k, key) && RowsMap(init)[key] == init[k].1 && LinesMap(init)[key] == init[k].2;
        assert keyed[k] == init[k];
        assert LastWithKey(keyed, k, key);
      } else {
        assert forall k :: 0 <= k < |init| ==> keyed[k] == init[k];
      }
    }
  }

  /** The position of the last entry with a key both maps hold. */
  lemma LastEntry(keyed: seq<(string, Row, nat)>, key: string) returns (k: int)
    requires key in RowsMap(keyed)
    ensures key in LinesMap(keyed)
    ensures LastWithKey(keyed, k, key) && RowsMap(keyed)[key] == keyed[k].1 && LinesMap(keyed)[key] == keyed[k].2
  {
    MapsHoldLastEntry(keyed, key);
    k :| LastWithKey(keyed, k, key) && RowsMap(keyed)[key] == keyed[k].1 && LinesMap(keyed)[key] == keyed[k].2;
  }

  /** The rows of the table in the script, keyed by their index key. */
  function RowsOfTable(table: TableDef, lines: seq<string>): map<string, Row> {
    HitsCoverKey(table, lines);
    RowsMap(Keyed(RowHits(table, lines)))
  }

  /** The line numbers of the rows of the table in the script, keyed by their index key. */
  function LinesOfTable(table: TableDef, lines: seq<string>): map<string, nat> {
    HitsCoverKey(table, lines);
    LinesMap(Keyed(RowHits(table, lines)))
  }

  /**
   * The two reads agree: they have the same keys, each row sits under its own
   * index key, and the line recorded for a key yields exactly the row stored
   * under it, which is what lazy loading relies on.
   */
  lemma RowsAndLinesAgree(table: TableDef, lines: seq<string>, key: string)
    ensures key in RowsOfTable(table, lines) <==> key in LinesOfTable(table, lines)
    ensures key in RowsOfTable(table, lines) ==>
      var n := LinesOfTable(table, lines)[key];
      var row := RowsOfTable(table, lines)[key];
      row.CoversKey() && IndexKey(row) == key && row.table == table &&
      n < |lines| && RowOfLine(table, lines[n]) == Some(row)
  {
    HitsCoverKey(table, lines);
    var hits := RowHits(table, lines);
    var keyed := Keyed(hits);
    MapsHoldLastEntry(keyed, key);
    if key in RowsMap(keyed) {
      var k := LastEntry(keyed, key);
      ExtractedRowCoversKey(table, lines[hits[k].1]);
    }
  }

  /**
   * Every line holding a row of the table has its key in the maps, and the
   * line recorded for that key is this one or a later one: the last row with
   * a key wins.
   */
  lemma EveryRowLineIsKeyed(table: TableDef, lines: seq<string>, n: nat)
    requires n < |lines| && RowOfLine(table, lines[n]).Some?
    ensures var row := RowOfLine(table, lines[n]).value;
      row.CoversKey() && IndexKey(row) in LinesOfTable(table, lines) &&
      LinesOfTable(table, lines)[IndexKey(row)] >= n
  {
    HitsCoverKey(table, lines);
    var hits := RowHits(table, lines);
    var keyed := Keyed(hits);
    var row := RowOfLine(table, lines[n]).value;
    RowHitsMeaning(table, lines, row, n);
    var k :| 0 <= k < |hits| && hits[k] == (row, n);
    KeyedLineWins(keyed, k);
  }

  /** With increasing line numbers, the line kept for an entry's key is the entry's own or a later one. */
  lemma KeyedLineWins(keyed: seq<(string, Row, nat)>, k: int)
    requires 0 <= k < |keyed|
    requires forall i, j :: 0 <= i < j < |keyed| ==> keyed[i].2 < keyed[j].2
    ensures keyed[k].0 in LinesMap(keyed) && LinesMap(keyed)[keyed[k].0] >= keyed[k].2
  {
    var key := keyed[k].0;
    MapsHoldLastEntry(keyed, key);
    var k' := LastEntry(keyed, key);
    assert k <= k';
  }

  /** readRowsFromTable: puts every row of the table under its index key. */
  method ReadRowsFromTable(table: TableDef, lines: seq<string>) returns (rows: map<string, Row>)
    ensures rows == RowsOfTable(table, lines)
  {
    var hits := ReadRowPerLine(table, lines);
    HitsCoverKey(table, lines);
    ghost var keyed := Keyed(hits);
    rows := map[];
    for k := 0 to |hits|
      invariant rows == RowsMap(keyed[..k])
    {
      RowsMapStep(keyed, k);
      var row := hits[k].0;
      var pk := GetPrimaryKey(row);
      rows := rows[GenIndexKey(pk) := row];
    }
    assert keyed[..|hits|] == keyed;
  }

  /** One more entry puts its row under its key. */
  lemma RowsMapStep(keyed: seq<(string, Row, nat)>, k: nat)
    requires k < |keyed|
    ensures RowsMap(keyed[..k + 1]) == RowsMap(keyed[..k])[keyed[k].0 := keyed[k].1]
  {
    assert keyed[..k + 1][..k] == keyed[..k];
  }

  /** One more entry puts its line number under its key. */
  lemma LinesMapStep(keyed: seq<(string, Row, nat)>, k: nat)
    requires k < |keyed|
    ensures LinesMap(keyed[..k + 1]) == LinesMap(keyed[..k])[keyed[k].0 := keyed[k].2]
  {
    assert keyed[..k + 1][..k] == keyed[..k];
  }

  /** readRowLinesFromTable: puts the line number of every row of the table under its index key. */
  method ReadRowLinesFromTable(table: TableDef, lines: seq<string>) returns (rowLines: map<string, nat>)
    ensures rowLines == LinesOfTable(table, lines)
  {
    var hits := ReadRowPerLine(table, lines);
    HitsCoverKey(table, lines);
    ghost var keyed := Keyed(hits);
    rowLines := map[];
    for k := 0 to |hits|
      invariant rowLines == LinesMap(keyed[..k])
    {
      LinesMapStep(keyed, k);
      var pk := GetPrimaryKey(hits[k].0);
      rowLines := rowLines[GenIndexKey(pk) := hits[k].1];
    }
    assert keyed[..|hits|] == keyed;
  }
}
