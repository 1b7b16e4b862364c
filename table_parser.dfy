/**
 * The DDL side of the extractor: CREATE TABLE and CREATE UNIQUE INDEX lines
 * of an HSQLDB script become tables whose columns carry type, key, unique and
 * nullable flags. The patterns are recognised by hand-written scanners that
 * decide exactly what the java.util.regex patterns decide for a full match.
 */
module TableParser {
  import opened Wrappers
  import opened Strings
  import opened Entity
  import Seqs

  // ---------------------------------------------------------------------------
  // Patterns

  /** Name and column-definition body of a CREATE TABLE line. */
  datatype TableHeader = TableHeader(name: string, body: string)

  /** The text after `prefix` if `s` starts with it, else `s`: an optional literal group. */
  function SkipOptional(s: string, prefix: string): string {
    if StartsWith(s, prefix) then s[|prefix|..] else s
  }

  /** `^CREATE (MEMORY )?TABLE (PUBLIC\.)?(\w+)\s?\((.*)\)$`, with groups 3 and 4. */
  function ParseTableLine(line: string): (r: Option<TableHeader>)
    ensures r.Some? ==> IsWord(r.value.name) && AllLineChars(r.value.body)
  {
    if !StartsWith(line, "CREATE ") then None
    else
      var rest := SkipOptional(line[7..], "MEMORY ");
      if !StartsWith(rest, "TABLE ") then None
      else ParseTableName(SkipOptional(rest[6..], "PUBLIC."))
  }

  /** The `(\w+)\s?\((.*)\)$` part of the CREATE TABLE pattern. */
  function ParseTableName(named: string): (r: Option<TableHeader>)
    ensures r.Some? ==> IsWord(r.value.name) && AllLineChars(r.value.body)
  {
    var n := WordLen(named);
    if n == 0 then None
    else
      var tail := SkipOptSpace(named[n..]);
      if |tail| >= 2 && tail[0] == '(' && tail[|tail| - 1] == ')' && AllLineChars(tail[1..|tail| - 1])
      then Some(TableHeader(named[..n], tail[1..|tail| - 1]))
      else None
  }

  /** At most one `\s` character: what `\s?` matches. */
  predicate IsOptSpace(gap: string) {
    |gap| <= 1 && (gap == [] || IsSpace(gap[0]))
  }

  /** A CREATE TABLE line with or without MEMORY and PUBLIC., and a gap before the parenthesis. */
  function TableLine(memory: bool, public: bool, gap: string, name: string, body: string): string {
    "CREATE " + ((if memory then "MEMORY " else "") + ("TABLE " + ((if public then "PUBLIC." else "")
      + TableNamePart(name, gap, body))))
  }

  /** The `name gap ( body )` end of a CREATE TABLE line. */
  function TableNamePart(name: string, gap: string, body: string): string {
    name + (gap + ("(" + body + ")"))
  }

  /** The name part of the pattern is recognised, with its name and body. */
  lemma TableNameParses(gap: string, name: string, body: string)
    requires IsOptSpace(gap) && IsWord(name) && AllLineChars(body)
    ensures ParseTableName(TableNamePart(name, gap, body)) == Some(TableHeader(name, body))
  {
    var paren := "(" + body + ")";
    var named := TableNamePart(name, gap, body);
    WordLenOfWord(name, gap + paren);
    assert named[|name|..] == gap + paren;
    assert named[..|name|] == name;
    ParseTableNameOf(named, |name|, body);
  }

  /** ParseTableName once the word and the parenthesised body are known. */
  lemma ParseTableNameOf(named: string, n: nat, body: string)
    requires 0 < n == WordLen(named) && AllLineChars(body)
    requires SkipOptSpace(named[n..]) == "(" + body + ")"
    ensures ParseTableName(named) == Some(TableHeader(named[..n], body))
  {
    var paren := "(" + body + ")";
    assert paren[1..|paren| - 1] == body;
  }

  /** A word followed by a character that is neither a word character nor a dot does not start with `PUBLIC.`. */
  lemma NotPublic(name: string, tail: string)
    requires IsWord(name) && tail != [] && !IsWordChar(tail[0]) && tail[0] != '.'
    ensures !StartsWith(name + tail, "PUBLIC.")
  {
    var named := name + tail;
    if |named| >= 7 {
      if |name| > 6 {
        assert named[6] == name[6];
      } else {
        assert named[|name|] == tail[0];
        assert named[|name|] != "PUBLIC."[|name|];
      }
    }
  }

  /** An optional literal group is skipped exactly when it is present. */
  lemma SkipOptionalOf(present: bool, prefix: string, s: string)
    requires !StartsWith(s, prefix)
    ensures SkipOptional((if present then prefix else "") + s, prefix) == s
  {
    if present {
      assert (prefix + s)[..|prefix|] == prefix;
      assert (prefix + s)[|prefix|..] == s;
    } else {
      assert "" + s == s;
    }
  }

  /** Every line of the pattern's shape is recognised, with its name and body. */
  lemma TableLineParses(memory: bool, public: bool, gap: string, name: string, body: string)
    requires IsOptSpace(gap) && IsWord(name) && AllLineChars(body)
    ensures ParseTableLine(TableLine(memory, public, gap, name, body)) == Some(TableHeader(name, body))
  {
    var named := TableNamePart(name, gap, body);
    var afterTable := (if public then "PUBLIC." else "") + named;
    var rest := "TABLE " + afterTable;
    var afterCreate := (if memory then "MEMORY " else "") + rest;
    var line := "CREATE " + afterCreate;
    assert TableLine(memory, public, gap, name, body) == line;
    assert StartsWith(line, "CREATE ") && line[7..] == afterCreate;
    assert !StartsWith(rest, "MEMORY ") by { assert rest[0] == 'T'; }
    SkipOptionalOf(memory, "MEMORY ", rest);
    assert StartsWith(rest, "TABLE ") && rest[6..] == afterTable;
    NotPublic(name, gap + ("(" + body + ")"));
    SkipOptionalOf(public, "PUBLIC.", named);
    ParseTableLineOf(line, rest, named);
    TableNameParses(gap, name, body);
  }

  /** ParseTableLine once the optional groups in front of the name are skipped. */
  lemma ParseTableLineOf(line: string, rest: string, named: string)
    requires StartsWith(line, "CREATE ") && SkipOptional(line[7..], "MEMORY ") == rest
    requires StartsWith(rest, "TABLE ") && SkipOptional(rest[6..], "PUBLIC.") == named
    ensures ParseTableLine(line) == ParseTableName(named)
  {
  }

  /** `s` is the optional literal group, when present, followed by what SkipOptional leaves. */
  lemma SkipOptionalSplit(s: string, prefix: string)
    ensures s == (if StartsWith(s, prefix) then prefix else "") + SkipOptional(s, prefix)
  {
    if StartsWith(s, prefix) {
      assert s == s[..|prefix|] + s[|prefix|..];
    } else {
      assert s == "" + s;
    }
  }

  /** What a `\s?` leaves is the rest of `s` after at most one space. */
  lemma OptSpaceSplit(s: string) returns (gap: string)
    ensures IsOptSpace(gap) && s == gap + SkipOptSpace(s)
  {
    gap := if s != [] && IsSpace(s[0]) then s[..1] else [];
    if gap != [] {
      assert s == s[..1] + s[1..];
    }
  }

  /** Every name part that is recognised has the shape `name gap ( body )`. */
  lemma TableNameShape(named: string) returns (gap: string)
    requires ParseTableName(named).Some?
    ensures IsOptSpace(gap)
    ensures named == TableNamePart(ParseTableName(named).value.name, gap, ParseTableName(named).value.body)
  {
    var h := ParseTableName(named).value;
    var n := WordLen(named);
    var tail := SkipOptSpace(named[n..]);
    assert h.name == named[..n] && h.body == tail[1..|tail| - 1];
    gap := OptSpaceSplit(named[n..]);
    TableNamePartOf(named, n, gap, tail);
  }

  /** Reassembles a name part from the pieces the parser cut it into. */
  lemma TableNamePartOf(named: string, n: nat, gap: string, tail: string)
    requires n <= |named| && named[n..] == gap + tail
    requires |tail| >= 2 && tail[0] == '(' && tail[|tail| - 1] == ')'
    ensures named == TableNamePart(named[..n], gap, tail[1..|tail| - 1])
  {
    assert tail == "(" + tail[1..|tail| - 1] + ")";
    assert named == named[..n] + named[n..];
  }

  /** Every line that is recognised has the pattern's shape. */
  lemma TableLineShape(line: string) returns (memory: bool, public: bool, gap: string)
    requires ParseTableLine(line).Some?
    ensures IsOptSpace(gap)
    ensures line == TableLine(memory, public, gap, ParseTableLine(line).value.name, ParseTableLine(line).value.body)
  {
    var afterCreate := line[7..];
    memory := StartsWith(afterCreate, "MEMORY ");
    var rest := SkipOptional(afterCreate, "MEMORY ");
    public := StartsWith(rest[6..], "PUBLIC.");
    var named := SkipOptional(rest[6..], "PUBLIC.");
    ParseTableLineOf(line, rest, named);
    gap := TableNameShape(named);
    TableLineOf(line, memory, public, named);
  }

  /** Reassembles a CREATE TABLE line from the pieces the parser cut it into. */
  lemma TableLineOf(line: string, memory: bool, public: bool, named: string)
    requires StartsWith(line, "CREATE ") && memory == StartsWith(line[7..], "MEMORY ")
    requires StartsWith(SkipOptional(line[7..], "MEMORY "), "TABLE ")
    requires public == StartsWith(SkipOptional(line[7..], "MEMORY ")[6..], "PUBLIC.")
    requires named == SkipOptional(SkipOptional(line[7..], "MEMORY ")[6..], "PUBLIC.")
    ensures line == "CREATE " + ((if memory then "MEMORY " else "") + ("TABLE " + ((if public then "PUBLIC." else "") + named)))
  {
    var rest := SkipOptional(line[7..], "MEMORY ");
    assert line == "CREATE " + line[7..];
    SkipOptionalSplit(line[7..], "MEMORY ");
    assert rest == "TABLE " + rest[6..];
    SkipOptionalSplit(rest[6..], "PUBLIC.");
  }

  /** `^CREATE UNIQUE INDEX\s?(\w+) ON (PUBLIC\.)?(\w+)\s?\((\w+)\)$`, with groups 3 and 4. */
  function ParseUniqueIndex(line: string): (r: Option<(string, string)>)
    ensures r.Some? ==> IsWord(r.value.0) && IsWord(r.value.1)
  {
    if !StartsWith(line, "CREATE UNIQUE INDEX") then None
    else
      var named := SkipOptSpace(line[19..]);
      var n := WordLen(named);
      if n == 0 || !StartsWith(named[n..], " ON ") then None
      else ParseIndexTarget(SkipOptional(named[n + 4..], "PUBLIC."))
  }

  /** The `(\w+)\s?\((\w+)\)$` part of the CREATE UNIQUE INDEX pattern. */
  function ParseIndexTarget(target: string): (r: Option<(string, string)>)
    ensures r.Some? ==> IsWord(r.value.0) && IsWord(r.value.1)
  {
    var t := WordLen(target);
    if t == 0 then None
    else
      var tail := SkipOptSpace(target[t..]);
      if tail == [] || tail[0] != '(' then None
      else
        var c := WordLen(tail[1..]);
        if c > 0 && tail[1 + c..] == ")" then Some((target[..t], tail[1..1 + c])) else None
  }

  /** A CREATE UNIQUE INDEX line, with the optional gaps and PUBLIC. that the pattern allows. */
  function UniqueIndexLine(gap: string, index: string, public: bool, table: string, gap2: string, column: string): string {
    "CREATE UNIQUE INDEX" + (gap + (index + (" ON " + ((if public then "PUBLIC." else "")
      + TableNamePart(table, gap2, column)))))
  }

  /** The target part of the pattern is recognised, with its table and column. */
  lemma IndexTargetParses(table: string, gap: string, column: string)
    requires IsOptSpace(gap) && IsWord(table) && IsWord(column)
    ensures ParseIndexTarget(TableNamePart(table, gap, column)) == Some((table, column))
  {
    var paren := "(" + column + ")";
    var target := TableNamePart(table, gap, column);
    WordLenOfWord(table, gap + paren);
    assert target[|table|..] == gap + paren;
    assert target[..|table|] == table;
    ParseIndexTargetOf(target, |table|, column);
  }

  /** ParseIndexTarget once the table word and the parenthesised column are known. */
  lemma ParseIndexTargetOf(target: string, t: nat, column: string)
    requires 0 < t == WordLen(target) && IsWord(column)
    requires SkipOptSpace(target[t..]) == "(" + column + ")"
    ensures ParseIndexTarget(target) == Some((target[..t], column))
  {
    var paren := "(" + column + ")";
    assert paren[1..] == column + ")";
    WordLenOfWord(column, ")");
    assert paren[1..1 + |column|] == column;
    assert paren[1 + |column|..] == ")";
  }

  /** Every line of the pattern's shape is recognised, with its table and column. */
  lemma IndexLineParses(gap: string, index: string, public: bool, table: string, gap2: string, column: string)
    requires IsOptSpace(gap) && IsOptSpace(gap2) && IsWord(index) && IsWord(table) && IsWord(column)
    ensures ParseUniqueIndex(UniqueIndexLine(gap, index, public, table, gap2, column)) == Some((table, column))
  {
    var target := TableNamePart(table, gap2, column);
    var afterOn := (if public then "PUBLIC." else "") + target;
    var named := index + (" ON " + afterOn);
    var line := UniqueIndexLine(gap, index, public, table, gap2, column);
    assert SkipOptional(afterOn, "PUBLIC.") == target by {
      NotPublic(table, gap2 + ("(" + column + ")"));
      SkipOptionalOf(public, "PUBLIC.", target);
    }
    assert ParseUniqueIndex(line) == ParseIndexTarget(target) by {
      IndexNameParses(line, gap, index, afterOn);
      ParseUniqueIndexOf(line, |index|, target);
    }
    IndexTargetParses(table, gap2, column);
  }

  /** The `\s?(\w+) ON ` part of the pattern is recognised, with the word's length. */
  lemma IndexNameParses(line: string, gap: string, index: string, afterOn: string)
    requires IsOptSpace(gap) && IsWord(index)
    requires line == "CREATE UNIQUE INDEX" + (gap + (index + (" ON " + afterOn)))
    ensures StartsWith(line, "CREATE UNIQUE INDEX")
    ensures WordLen(SkipOptSpace(line[19..])) == |index|
    ensures StartsWith(SkipOptSpace(line[19..])[|index|..], " ON ")
    ensures SkipOptSpace(line[19..])[|index| + 4..] == afterOn
  {
    var named := index + (" ON " + afterOn);
    assert line[19..] == gap + named;
    assert SkipOptSpace(gap + named) == named by {
      assert named[0] == index[0];
    }
    WordLenOfWord(index, " ON " + afterOn);
    assert named[|index|..] == " ON " + afterOn;
  }

  /** ParseUniqueIndex once the index name and the optional PUBLIC. are skipped. */
  lemma ParseUniqueIndexOf(line: string, n: nat, target: string)
    requires StartsWith(line, "CREATE UNIQUE INDEX")
    requires 0 < n == WordLen(SkipOptSpace(line[19..]))
    requires StartsWith(SkipOptSpace(line[19..])[n..], " ON ")
    requires SkipOptional(SkipOptSpace(line[19..])[n + 4..], "PUBLIC.") == target
    ensures ParseUniqueIndex(line) == ParseIndexTarget(target)
  {
  }

  /** Every line that is recognised has the pattern's shape. */
  lemma IndexLineShape(line: string) returns (gap: string, index: string, public: bool, gap2: string)
    requires ParseUniqueIndex(line).Some?
    ensures IsOptSpace(gap) && IsOptSpace(gap2) && IsWord(index)
    ensures line == UniqueIndexLine(gap, index, public, ParseUniqueIndex(line).value.0, gap2, ParseUniqueIndex(line).value.1)
  {
    var named, n;
    gap, named, n := IndexNamePieces(line);
    index := named[..n];
    public := StartsWith(named[n + 4..], "PUBLIC.");
    var target := SkipOptional(named[n + 4..], "PUBLIC.");
    gap2 := IndexTargetShape(target);
    IndexLineOf(line, gap, named, n, public, target);
  }

  /** The pieces in front of the table name of a recognised CREATE UNIQUE INDEX line. */
  lemma IndexNamePieces(line: string) returns (gap: string, named: string, n: nat)
    requires ParseUniqueIndex(line).Some?
    ensures StartsWith(line, "CREATE UNIQUE INDEX") && line[19..] == gap + named && IsOptSpace(gap)
    ensures n <= |named| && IsWord(named[..n]) && StartsWith(named[n..], " ON ")
    ensures ParseUniqueIndex(line) == ParseIndexTarget(SkipOptional(named[n + 4..], "PUBLIC."))
  {
    named := SkipOptSpace(line[19..]);
    gap := OptSpaceSplit(line[19..]);
    n := WordLen(named);
    ParseUniqueIndexOf(line, n, SkipOptional(named[n + 4..], "PUBLIC."));
  }

  /** Every target part that is recognised has the shape `table gap ( column )`. */
  lemma IndexTargetShape(target: string) returns (gap: string)
    requires ParseIndexTarget(target).Some?
    ensures IsOptSpace(gap)
    ensures target == TableNamePart(ParseIndexTarget(target).value.0, gap, ParseIndexTarget(target).value.1)
  {
    var t := WordLen(target);
    var tail := SkipOptSpace(target[t..]);
    var c := WordLen(tail[1..]);
    assert tail[|tail| - 1] == ')' by { assert tail[1 + c..] == ")"; }
    assert tail[1..|tail| - 1] == tail[1..1 + c];
    gap := OptSpaceSplit(target[t..]);
    TableNamePartOf(target, t, gap, tail);
  }

  /** Reassembles a CREATE UNIQUE INDEX line from the pieces the parser cut it into. */
  lemma IndexLineOf(line: string, gap: string, named: string, n: nat, public: bool, target: string)
    requires StartsWith(line, "CREATE UNIQUE INDEX") && line[19..] == gap + named
    requires n <= |named| && StartsWith(named[n..], " ON ")
    requires public == StartsWith(named[n + 4..], "PUBLIC.")
    requires target == SkipOptional(named[n + 4..], "PUBLIC.")
    ensures line == "CREATE UNIQUE INDEX" + (gap + (named[..n] + (" ON " + ((if public then "PUBLIC." else "") + target))))
  {
    assert line == "CREATE UNIQUE INDEX" + line[19..];
    assert named == named[..n] + named[n..];
    assert named[n..] == " ON " + named[n + 4..];
    SkipOptionalSplit(named[n + 4..], "PUBLIC.");
  }

  /**
   * The name list `\w+\s*(,\s*\w+\s*)*`, cut the way `split("\\s*,\\s*")` cuts
   * it: every piece is a bare name except the last, which keeps the spaces
   * that follow it.
   */
  function ParseNameList(s: string): (r: Option<seq<string>>)
    ensures r.Some? ==> r.value != []
    ensures r.Some? ==> IsNamePieces(r.value)
    decreases |s|
  {
    var n := WordLen(s);
    if n == 0 then None
    else
      var after := SkipSpaces(s[n..]);
      if after == [] then
        assert IsPaddedWord(s) by { assert SpaceLen(s[n..]) == |s[n..]|; }
        Some([s])
      else if after[0] != ',' then None
      else
        match ParseNameList(SkipSpaces(after[1..]))
        case None => None
        case Some(rest) =>
          NamePiecesCons(s[..n], rest);
          Some([s[..n]] + rest)
  }

  /** A word followed by spaces only: the last piece of a split name list. */
  predicate IsPaddedWord(p: string) {
    0 < WordLen(p) && AllSpaces(p[WordLen(p)..])
  }

  /** Bare names, then a padded one: the pieces of a split name list. */
  predicate IsNamePieces(ps: seq<string>) {
    ps != [] && (forall i :: 0 <= i < |ps| - 1 ==> IsWord(ps[i])) && IsPaddedWord(ps[|ps| - 1])
  }

  lemma NamePiecesCons(w: string, ps: seq<string>)
    requires IsWord(w) && IsNamePieces(ps)
    ensures IsNamePieces([w] + ps)
  {
    var r := [w] + ps;
    assert r[|r| - 1] == ps[|ps| - 1];
    forall i | 0 <= i < |r| - 1 ensures IsWord(r[i]) {
      if i > 0 { assert r[i] == ps[i - 1]; }
    }
  }

  /** Words joined by a `\s*,\s*` separator split back into the same words. */
  lemma {:induction false} NameListParses(ws: seq<string>, a: string, b: string)
    requires ws != [] && forall i :: 0 <= i < |ws| ==> IsWord(ws[i])
    requires AllSpaces(a) && AllSpaces(b)
    ensures ParseNameList(Join(ws, a + "," + b)) == Some(ws)
    decreases |ws|
  {
    var sep := a + "," + b;
    if |ws| == 1 {
      assert Join(ws, sep) == ws[0];
      NameListSingle(ws[0]);
      assert ws == [ws[0]];
    } else {
      NameListParses(ws[1..], a, b);
      NameListCons(ws, a, b);
    }
  }

  /** A single word is a name list of one piece. */
  lemma NameListSingle(w: string)
    requires IsWord(w)
    ensures ParseNameList(w) == Some([w])
  {
    assert WordLen(w) == |w| by {
      assert w + [] == w;
      WordLenOfWord(w, []);
    }
    assert SkipSpaces(w[|w|..]) == [];
  }

  /** The inductive step of NameListParses: a first word in front of a list that parses. */
  lemma NameListCons(ws: seq<string>, a: string, b: string)
    requires |ws| > 1 && forall i :: 0 <= i < |ws| ==> IsWord(ws[i])
    requires AllSpaces(a) && AllSpaces(b)
    requires ParseNameList(Join(ws[1..], a + "," + b)) == Some(ws[1..])
    ensures ParseNameList(Join(ws, a + "," + b)) == Some(ws)
  {
    var sep := a + "," + b;
    var w := ws[0];
    var tail := ws[1..];
    var rest := Join(tail, sep);
    Seqs.HeadTail(ws);
    assert rest != [] && IsWordChar(rest[0]) by {
      Seqs.HeadTail(tail);
      JoinCons(tail[0], tail[1..], sep);
      assert IsWord(tail[0]);
    }
    assert Join(ws, sep) == w + (a + ("," + (b + rest))) by {
      JoinCons(w, tail, sep);
      Seqs.Regroup(w, sep, rest);
      Seqs.Regroup(a + ",", b, rest);
      Seqs.Regroup(a, ",", b + rest);
    }
    NameListStep(w, a, b, rest);
    ParseNameListCons(Join(ws, sep), |w|, b + rest);
  }

  /** How the scanner cuts a word, a separator and the rest of the list. */
  lemma NameListStep(w: string, a: string, b: string, rest: string)
    requires IsWord(w) && AllSpaces(a) && AllSpaces(b) && rest != [] && IsWordChar(rest[0])
    ensures WordLen(w + (a + ("," + (b + rest)))) == |w|
    ensures (w + (a + ("," + (b + rest))))[..|w|] == w
    ensures SkipSpaces((w + (a + ("," + (b + rest))))[|w|..]) == "," + (b + rest)
    ensures SkipSpaces(b + rest) == rest
  {
    var tail := a + ("," + (b + rest));
    assert !IsWordChar(tail[0]) by {
      if a == [] { assert tail[0] == ','; } else { assert tail[0] == a[0]; }
    }
    WordCut(w, tail);
    SkipSpacesOf(a, "," + (b + rest));
    SkipSpacesOf(b, rest);
  }

  /** A word followed by a non-word character: `\w+` takes exactly the word. */
  lemma WordCut(w: string, tail: string)
    requires IsWord(w) && tail != [] && !IsWordChar(tail[0])
    ensures WordLen(w + tail) == |w| && (w + tail)[..|w|] == w && (w + tail)[|w|..] == tail
  {
    WordLenOfWord(w, tail);
  }

  /** ParseNameList once the first name and the comma after it are found. */
  lemma ParseNameListCons(s: string, n: nat, more: string)
    requires 0 < n == WordLen(s) && SkipSpaces(s[n..]) == "," + more
    ensures ParseNameList(s) ==
      match ParseNameList(SkipSpaces(more)) case None => None case Some(ps) => Some([s[..n]] + ps)
  {
    assert ("," + more)[1..] == more;
  }

  /** The optional `(CONSTRAINT\s+(\w+)\s+)?` group: what follows it, or `s` itself. */
  function SkipConstraintName(s: string): string {
    if !StartsWith(s, "CONSTRAINT") then s
    else
      var a := SpaceLen(s[10..]);
      if a == 0 then s
      else
        var named := s[10 + a..];
        var n := WordLen(named);
        if n == 0 then s
        else
          var b := SpaceLen(named[n..]);
          if b == 0 then s else named[n + b..]
  }

  /**
   * `^(CONSTRAINT\s+(\w+)\s+)?<keyword>\s?\((<name list>)\)$` for the keywords
   * PRIMARY KEY and UNIQUE, with the name list split into its pieces.
   */
  function MatchKeyConstraint(def: string, keyword: string): (r: Option<seq<string>>)
    ensures r.Some? ==> IsNamePieces(r.value)
  {
    var s := SkipConstraintName(def);
    if !StartsWith(s, keyword) then None
    else
      var tail := SkipOptSpace(s[|keyword|..]);
      if |tail| >= 2 && tail[0] == '(' && tail[|tail| - 1] == ')' then ParseNameList(tail[1..|tail| - 1])
      else None
  }

  /** A key constraint, with or without a constraint name in front of it. */
  function KeyConstraintText(name: Option<string>, keyword: string, gap: string, list: string): string {
    var body := keyword + (gap + ("(" + list + ")"));
    if name.None? then body else "CONSTRAINT" + (" " + (name.value + (" " + body)))
  }

  /** Every key constraint of the pattern's shape is recognised, with the names of its list. */
  lemma KeyConstraintParses(name: Option<string>, keyword: string, gap: string, ws: seq<string>, a: string, b: string)
    requires keyword == "PRIMARY KEY" || keyword == "UNIQUE"
    requires name.Some? ==> IsWord(name.value)
    requires IsOptSpace(gap) && AllSpaces(a) && AllSpaces(b)
    requires ws != [] && forall i :: 0 <= i < |ws| ==> IsWord(ws[i])
    ensures MatchKeyConstraint(KeyConstraintText(name, keyword, gap, Join(ws, a + "," + b)), keyword) == Some(ws)
  {
    var list := Join(ws, a + "," + b);
    var body := keyword + (gap + ("(" + list + ")"));
    var def := KeyConstraintText(name, keyword, gap, list);
    assert body[0] == keyword[0];
    assert SkipConstraintName(def) == body by {
      if name.None? {
        SkipConstraintNameAbsent(body);
      } else {
        SkipConstraintNameOf(name.value, body);
      }
    }
    assert MatchKeyConstraint(def, keyword) == ParseNameList(list) by {
      MatchKeyConstraintOf(def, keyword, gap, list);
    }
    NameListParses(ws, a, b);
  }

  /** A text that does not start with C has no constraint name to skip. */
  lemma SkipConstraintNameAbsent(s: string)
    requires s != [] && s[0] != 'C'
    ensures SkipConstraintName(s) == s
  {
    if |s| >= 10 {
      assert s[..10][0] != "CONSTRAINT"[0];
    }
  }

  /** `CONSTRAINT name ` in front of a text that does not start with a space is skipped. */
  lemma SkipConstraintNameOf(c: string, rest: string)
    requires IsWord(c) && rest != [] && !IsSpace(rest[0])
    ensures SkipConstraintName("CONSTRAINT" + (" " + (c + (" " + rest)))) == rest
  {
    var named := c + (" " + rest);
    var s := "CONSTRAINT" + (" " + named);
    assert StartsWith(s, "CONSTRAINT") && s[10..] == " " + named;
    assert SpaceLen(" " + named) == 1 by { SpaceLenOfSpaces(" ", named); }
    assert s[11..] == named;
    WordCut(c, " " + rest);
    assert SpaceLen(" " + rest) == 1 by { SpaceLenOfSpaces(" ", rest); }
    assert named[|c| + 1..] == rest;
  }

  /** MatchKeyConstraint once the constraint name is skipped: the name list between the parentheses. */
  lemma MatchKeyConstraintOf(def: string, keyword: string, gap: string, list: string)
    requires IsOptSpace(gap) && SkipConstraintName(def) == keyword + (gap + ("(" + list + ")"))
    ensures MatchKeyConstraint(def, keyword) == ParseNameList(list)
  {
    var paren := "(" + list + ")";
    var s := keyword + (gap + paren);
    assert StartsWith(s, keyword) && s[|keyword|..] == gap + paren;
    assert SkipOptSpace(gap + paren) == paren;
    assert paren[1..|paren| - 1] == list;
  }

  /** `^(CONSTRAINT\s+(\w+)\s+)?FOREIGN KEY\s?\((list)\)\s?REFERENCES PUBLIC\.(\w+)\s?\((list)\)$`. */
  predicate IsForeignKeyConstraint(def: string) {
    var s := SkipConstraintName(def);
    StartsWith(s, "FOREIGN KEY") &&
    var tail := SkipOptSpace(s[11..]);
    tail != [] && tail[0] == '(' &&
    var close := IndexOf(tail, ')', 1);
    close != -1 && ParseNameList(tail[1..close]).Some? &&
    var refs := SkipOptSpace(tail[close + 1..]);
    StartsWith(refs, "REFERENCES PUBLIC.") &&
    var target := refs[18..];
    var t := WordLen(target);
    t > 0 &&
    var list := SkipOptSpace(target[t..]);
    |list| >= 2 && list[0] == '(' && list[|list| - 1] == ')' && ParseNameList(list[1..|list| - 1]).Some?
  }

  /** `^\s*(\w+)\s+.*,?$`, with group 1: the column name. */
  function ColumnName(def: string): (r: Option<string>)
    ensures r.Some? ==> r.value != [] && forall i :: 0 <= i < |r.value| ==> IsWordChar(r.value[i])
  {
    var s := SkipSpaces(def);
    var n := WordLen(s);
    if n > 0 && n < |s| && IsSpace(s[n]) && AllLineChars(SkipSpaces(s[n..])) then Some(s[..n]) else None
  }

  // ---------------------------------------------------------------------------
  // Column types

  /** The keywords `extractType` looks for, per column type. */
  function TypeKeywords(t: ColumnType): seq<string> {
    match t
    case Numeric => ["TINYINT", "SMALLINT", "INTEGER", "BIGINT"]
    case Decimal => ["NUMERIC", "DECIMAL", "DOUBLE"]
    case Bit => ["BIT", "BITVARYING"]
    case Character => ["CHAR", "VARCHAR", "CLOB"]
    case Boolean => ["BOOLEAN"]
    case Date => ["DATE", "TIME", "TIMESTAMP"]
    case Binary => ["BINARY", "VARBINARY", "BLOB"]
  }

  /** The order in which `extractType` tries the types. */
  function TypeRank(t: ColumnType): nat {
    match t
    case Numeric => 0
    case Decimal => 1
    case Bit => 2
    case Character => 3
    case Boolean => 4
    case Date => 5
    case Binary => 6
  }

  /** `def.matches(".*(K1|K2|...).*")`: one line that contains one of the keywords. */
  predicate MatchesKeyword(def: string, keywords: seq<string>) {
    AllLineChars(def) && exists i :: 0 <= i < |keywords| && Contains(def, keywords[i])
  }

  /**
   * extractType: the first type, in TypeRank order, one of whose keywords
   * occurs in the definition; None when there is none.
   */
  function ExtractType(def: string): (r: Option<ColumnType>)
    ensures r.Some? ==> MatchesKeyword(def, TypeKeywords(r.value))
    ensures r.Some? ==> forall t :: TypeRank(t) < TypeRank(r.value) ==> !MatchesKeyword(def, TypeKeywords(t))
    ensures r.None? ==> forall t :: !MatchesKeyword(def, TypeKeywords(t))
  {
    if MatchesKeyword(def, TypeKeywords(Numeric)) then Some(Numeric)
    else if MatchesKeyword(def, TypeKeywords(Decimal)) then Some(Decimal)
    else if MatchesKeyword(def, TypeKeywords(Bit)) then Some(Bit)
    else if MatchesKeyword(def, TypeKeywords(Character)) then Some(Character)
    else if MatchesKeyword(def, TypeKeywords(Boolean)) then Some(Boolean)
    else if MatchesKeyword(def, TypeKeywords(Date)) then Some(Date)
    else if MatchesKeyword(def, TypeKeywords(Binary)) then Some(Binary)
    else None
  }

  // ---------------------------------------------------------------------------
  // Splitting the column-definition body

  /**
   * isEnclosedBefore for the comma at `index`: there is a `(` before it, and
   * the first `)` lies after it, or before both the comma and the first `(`.
   */
  predicate IsEnclosedBefore(defs: string, index: int) {
    var obb := IndexOf(defs, '(', 0);
    var cbb := IndexOf(defs, ')', 0);
    obb != -1 && cbb != -1 && obb < index && ((cbb < index && cbb < obb) || cbb > index)
  }

  /** isEnclosedAfter for the comma at `index`: after it, some `)` comes before the next `(`. */
  predicate IsEnclosedAfter(defs: string, index: nat) {
    var cba := IndexOf(defs, ')', index + 1);
    var oba := IndexOf(defs, '(', index + 1);
    cba != -1 && oba != -1 && oba > cba
  }

  /** The comma at `index` separates two fragments unless both bracket tests hold. */
  predicate SplitsAt(defs: string, index: nat) {
    !(IsEnclosedBefore(defs, index) && IsEnclosedAfter(defs, index))
  }

  /**
   * The fragments splitColumnsDef produces from `defs` when it is looking at the
   * comma `index` (or at none, when `index` is -1).
   */
  function SplitFrom(defs: string, index: int): seq<string>
    requires index == -1 || 0 <= index < |defs|
    decreases |defs|, if index == -1 then 0 else |defs| - index
  {
    if index == -1 then (if defs == [] then [] else [defs])
    else if SplitsAt(defs, index) then
      var rest := defs[index + 1..];
      [defs[..index]] + SplitFrom(rest, IndexOf(rest, ',', 0))
    else SplitFrom(defs, IndexOf(defs, ',', index + 1))
  }

  function SplitColumnsSpec(defs: string): seq<string> {
    SplitFrom(defs, IndexOf(defs, ',', 0))
  }

  /** splitColumnsDef: cuts the body at the commas that pass the bracket test. */
  method SplitColumnsDef(defs: string) returns (columns: seq<string>)
    ensures columns == SplitColumnsSpec(defs)
  {
    var rest := defs;
    columns := [];
    var index := IndexOf(rest, ',', 0);
    while index != -1
      invariant index == -1 || 0 <= index < |rest|
      invariant columns + SplitFrom(rest, index) == SplitColumnsSpec(defs)
      decreases |rest|, if index == -1 then 0 else |rest| - index
    {
      var obb := IndexOf(rest, '(', 0);
      var cbb := IndexOf(rest, ')', 0);
      var isEnclosedBefore := obb != -1 && cbb != -1 && obb < index && ((cbb < index && cbb < obb) || cbb > index);
      var cba := IndexOf(rest, ')', index + 1);
      var oba := IndexOf(rest, '(', index + 1);
      var isEnclosedAfter := cba != -1 && oba != -1 && oba > cba;
      if !(isEnclosedBefore && isEnclosedAfter) {
        columns := columns + [rest[..index]];
        rest := rest[index + 1..];
        index := IndexOf(rest, ',', 0);
      } else {
        index := IndexOf(rest, ',', index + 1);
      }
    }
    if rest != [] {
      columns := columns + [rest];
    }
  }

  lemma {:induction false} JoinSplitFrom(defs: string, index: int)
    requires index == -1 || 0 <= index < |defs|
    requires index != -1 ==> defs[index] == ','
    ensures SplitFrom(defs, index) == [] ==> defs == []
    ensures defs == Join(SplitFrom(defs, index), ",") || defs == Join(SplitFrom(defs, index), ",") + ","
    decreases |defs|, if index == -1 then 0 else |defs| - index
  {
    if index != -1 {
      if SplitsAt(defs, index) {
        var rest := defs[index + 1..];
        var next := IndexOf(rest, ',', 0);
        JoinSplitFrom(rest, next);
        JoinAfterCut(defs, index, SplitFrom(rest, next));
      } else {
        JoinSplitFrom(defs, IndexOf(defs, ',', index + 1));
      }
    }
  }

  /**
   * Joining the fragments with "," gives the body back, except for an empty
   * remainder after the last cut, which is dropped.
   */
  lemma JoinSplitColumns(defs: string)
    ensures SplitColumnsSpec(defs) == [] <==> defs == []
    ensures var parts := SplitColumnsSpec(defs);
      defs == Join(parts, ",") || defs == Join(parts, ",") + ","
  {
    JoinSplitFrom(defs, IndexOf(defs, ',', 0));
  }

  /** A comma inside a bracket group is kept when another `(` follows it. */
  lemma SplitColumnsKeepsInnerComma()
    ensures SplitColumnsSpec("A(1,2),B(3)") == ["A(1,2)", "B(3)"]
  {
    var kept := "A(1,2),B(3)";
    assert IndexOf(kept, ',', 0) == 3;
    assert IndexOf(kept, '(', 0) == 1 && IndexOf(kept, ')', 0) == 5;
    assert IndexOf(kept, ')', 4) == 5 && IndexOf(kept, '(', 4) == 8;
    assert !SplitsAt(kept, 3);
    assert IndexOf(kept, ',', 4) == 6;
    assert SplitsAt(kept, 6);
    assert kept[7..] == "B(3)";
    assert IndexOf("B(3)", ',', 0) == -1;
    assert kept[..6] == "A(1,2)";
    assert SplitFrom(kept, 6) == ["A(1,2)"] + SplitFrom("B(3)", -1);
    assert SplitFrom(kept, 3) == SplitFrom(kept, 6);
  }

  /** The commas of the last bracket group are cut, although they are enclosed. */
  lemma SplitColumnsCutsLastGroup()
    ensures SplitColumnsSpec("A(1,2),B") == ["A(1", "2)", "B"]
  {
    var cut := "A(1,2),B";
    assert IndexOf(cut, ',', 0) == 3;
    assert IndexOf(cut, '(', 0) == 1 && IndexOf(cut, ')', 0) == 5;
    assert IndexOf(cut, '(', 4) == -1;
    assert SplitsAt(cut, 3);
    assert cut[4..] == "2),B";
    assert IndexOf("2),B", ',', 0) == 2;
    assert IndexOf("2),B", '(', 0) == -1;
    assert SplitsAt("2),B", 2);
    assert "2),B"[3..] == "B";
    assert IndexOf("B", ',', 0) == -1;
    assert "2),B"[..2] == "2)";
    assert SplitFrom("2),B", 2) == ["2)"] + SplitFrom("B", -1);
    assert cut[..3] == "A(1";
    assert SplitFrom(cut, 3) == ["A(1"] + SplitFrom("2),B", 2);
  }

  // ---------------------------------------------------------------------------
  // Columns from fragments

  /** The column addColumn builds from a column definition, or None when the pattern fails. */
  function ColumnFromDef(def: string): (r: Option<ColumnDef>)
    ensures r.Some? <==> ColumnName(def).Some?
    ensures r.Some? ==> r.value.name == ColumnName(def).value && r.value.colType == ExtractType(def)
    ensures r.Some? ==> (r.value.isPrimaryKey <==> Contains(def, "PRIMARY KEY"))
    ensures r.Some? ==> (r.value.isUnique <==> r.value.isPrimaryKey || Contains(def, "UNIQUE"))
    ensures r.Some? ==> (r.value.isNullable <==> !Contains(def, "NOT NULL"))
    ensures r.Some? && r.value.isPrimaryKey ==> r.value.isUnique
  {
    match ColumnName(def)
    case None => None
    case Some(name) =>
      var isPrimaryKey := Contains(def, "PRIMARY KEY");
      var isUnique := isPrimaryKey || Contains(def, "UNIQUE");
      var isNullable := !Contains(def, "NOT NULL");
      Some(ColumnDef(name, ExtractType(def), isPrimaryKey, isUnique, isNullable))
  }

  /** The columns after a primary-key constraint over `names`. */
  function MarkPrimary(cols: seq<ColumnDef>, names: set<string>): (r: seq<ColumnDef>)
    ensures |r| == |cols|
    ensures forall i :: 0 <= i < |cols| && cols[i].name in names ==>
      r[i] == cols[i].(isPrimaryKey := true, isUnique := true)
    ensures forall i :: 0 <= i < |cols| && cols[i].name !in names ==> r[i] == cols[i]
  {
    seq(|cols|, i requires 0 <= i < |cols| =>
      if cols[i].name in names then cols[i].(isPrimaryKey := true, isUnique := true) else cols[i])
  }

  /** The columns after a unique constraint or unique index over `names`. */
  function MarkUnique(cols: seq<ColumnDef>, names: set<string>): (r: seq<ColumnDef>)
    ensures |r| == |cols|
    ensures forall i :: 0 <= i < |cols| && cols[i].name in names ==> r[i] == cols[i].(isUnique := true)
    ensures forall i :: 0 <= i < |cols| && cols[i].name !in names ==> r[i] == cols[i]
  {
    seq(|cols|, i requires 0 <= i < |cols| =>
      if cols[i].name in names then cols[i].(isUnique := true) else cols[i])
  }

  /** Applying a key constraint twice changes nothing more. */
  lemma MarkIdempotent(cols: seq<ColumnDef>, names: set<string>)
    ensures MarkPrimary(MarkPrimary(cols, names), names) == MarkPrimary(cols, names)
    ensures MarkUnique(MarkUnique(cols, names), names) == MarkUnique(cols, names)
  {
  }

  /** The names of a constraint's list, as the alternatives of the pattern built from them. */
  function NameSet(names: seq<string>): set<string> {
    set n | n in names
  }

  /** How extractColumns reads a trimmed, non-empty fragment. */
  datatype Fragment =
    | PrimaryKeyConstraint(names: seq<string>)
    | UniqueConstraint(names: seq<string>)
    | ForeignKeyConstraint
    | ColumnDefinition(column: ColumnDef)
    | Unrecognised

  /** The tests in extractColumns' order: primary key, unique, foreign key, column. */
  function Classify(def: string): Fragment {
    match MatchKeyConstraint(def, "PRIMARY KEY")
    case Some(names) => PrimaryKeyConstraint(names)
    case None =>
      match MatchKeyConstraint(def, "UNIQUE")
      case Some(names) => UniqueConstraint(names)
      case None =>
        if IsForeignKeyConstraint(def) then ForeignKeyConstraint
        else
          match ColumnFromDef(def)
          case Some(c) => ColumnDefinition(c)
          case None => Unrecognised
  }

  /**
   * The order of the tests matters: a primary-key constraint also has the
   * shape of a column definition (a word, a space, anything), and would
   * otherwise add a column named PRIMARY.
   */
  lemma PrimaryKeyConstraintLooksLikeColumn()
    ensures ColumnName("PRIMARY KEY(A)") == Some("PRIMARY")
  {
    assert "PRIMARY KEY(A)" == "PRIMARY" + " " + "KEY(A)";
    ColumnNameOfDefinition("PRIMARY", "KEY(A)");
  }

  /** A word, one space and the rest of a line is a column definition named by the word. */
  lemma ColumnNameOfDefinition(w: string, rest: string)
    requires w != [] && forall i :: 0 <= i < |w| ==> IsWordChar(w[i])
    requires AllLineChars(rest) && (rest == [] || !IsSpace(rest[0]))
    ensures ColumnName(w + " " + rest) == Some(w)
  {
    var s := w + " " + rest;
    assert !IsSpace(s[0]);
    assert SkipSpaces(s) == s;
    assert s == w + (" " + rest);
    WordLenOfWord(w, " " + rest);
    assert s[|w|..] == " " + rest;
    assert (" " + rest)[1..] == rest;
    assert SpaceLen(rest) == 0;
    assert SkipSpaces(s[|w|..]) == rest;
    assert s[..|w|] == w;
  }

  /** Classify tests the constraint first, so the fragment is read as a constraint. */
  lemma PrimaryKeyConstraintClassified()
    ensures Classify("PRIMARY KEY(A)") == PrimaryKeyConstraint(["A"])
  {
    var s := "PRIMARY KEY(A)";
    assert s[..10][0] != "CONSTRAINT"[0];
    assert SkipConstraintName(s) == s;
    assert StartsWith(s, "PRIMARY KEY");
    assert s[11..] == "(A)";
    assert SkipOptSpace(s[11..]) == "(A)";
    assert "(A)"[1..2] == "A";
    assert WordLen("A") == 1;
    assert ParseNameList("A") == Some(["A"]);
  }

  /** The column list after one fragment of the body. */
  function ApplyFragment(cols: seq<ColumnDef>, fragment: string): seq<ColumnDef> {
    var def := Trim(fragment);
    if def == [] then cols else ApplyClassified(cols, Classify(def))
  }

  /** The column list after a fragment read as `f`. */
  function ApplyClassified(cols: seq<ColumnDef>, f: Fragment): seq<ColumnDef> {
    match f
    case PrimaryKeyConstraint(names) => MarkPrimary(cols, NameSet(names))
    case UniqueConstraint(names) => MarkUnique(cols, NameSet(names))
    case ColumnDefinition(c) => cols + [c]
    case _ => cols
  }

  /** The columns extractColumns builds from the fragments, in order. */
  function ColumnsFromFragments(fragments: seq<string>): seq<ColumnDef> {
    if fragments == [] then []
    else ApplyFragment(ColumnsFromFragments(fragments[..|fragments| - 1]), fragments[|fragments| - 1])
  }

  /** One more fragment applies one more definition to the columns so far. */
  lemma FragmentsStep(fragments: seq<string>, i: nat)
    requires i < |fragments|
    ensures ColumnsFromFragments(fragments[..i + 1]) == ApplyFragment(ColumnsFromFragments(fragments[..i]), fragments[i])
  {
    assert fragments[..i + 1][..i] == fragments[..i];
  }

  /** The name a fragment defines: one name for a column definition, none otherwise. */
  function FragmentName(fragment: string): seq<string> {
    var def := Trim(fragment);
    if def == [] then [] else ClassifiedName(Classify(def))
  }

  /** The name a fragment read as `f` defines. */
  function ClassifiedName(f: Fragment): seq<string> {
    if f.ColumnDefinition? then [f.column.name] else []
  }

  /** The names of the fragments that define columns, in order. */
  function DefinedNames(fragments: seq<string>): seq<string> {
    if fragments == [] then []
    else DefinedNames(fragments[..|fragments| - 1]) + FragmentName(fragments[|fragments| - 1])
  }

  /**
   * Columns are exactly the column definitions, in order: constraints only
   * change the flags of columns already collected, never add or rename one.
   */
  lemma {:induction false} ColumnsFromFragmentsNames(fragments: seq<string>)
    ensures ColumnNames(ColumnsFromFragments(fragments)) == DefinedNames(fragments)
  {
    if fragments != [] {
      var init := fragments[..|fragments| - 1];
      ColumnsFromFragmentsNames(init);
      ApplyFragmentNames(ColumnsFromFragments(init), fragments[|fragments| - 1]);
    }
  }

  /** One fragment adds the name it defines and keeps the others. */
  lemma ApplyFragmentNames(cols: seq<ColumnDef>, fragment: string)
    ensures ColumnNames(ApplyFragment(cols, fragment)) == ColumnNames(cols) + FragmentName(fragment)
  {
    var def := Trim(fragment);
    if def != [] {
      ApplyClassifiedNames(cols, Classify(def));
    }
  }

  /** Constraints keep the names; a column definition adds its own. */
  lemma ApplyClassifiedNames(cols: seq<ColumnDef>, f: Fragment)
    ensures ColumnNames(ApplyClassified(cols, f)) == ColumnNames(cols) + ClassifiedName(f)
  {
    match f
    case PrimaryKeyConstraint(names) =>
      assert ColumnNames(MarkPrimary(cols, NameSet(names))) == ColumnNames(cols);
    case UniqueConstraint(names) =>
      assert ColumnNames(MarkUnique(cols, NameSet(names))) == ColumnNames(cols);
    case ColumnDefinition(c) =>
      assert ColumnNames(cols + [c]) == ColumnNames(cols) + [c.name];
    case _ =>
  }

  /** addColumn: appends the column a column definition describes. */
  method AddColumn(def: string, columns: seq<Column>) returns (result: seq<Column>)
    ensures ColumnFromDef(def).None? ==> result == columns
    ensures ColumnFromDef(def).Some? ==>
      |result| == |columns| + 1 && result == columns + [result[|columns|]] &&
      fresh(result[|columns|]) && result[|columns|] !in columns &&
      result[|columns|].Def() == ColumnFromDef(def).value
  {
    result := columns;
    var columnName := ColumnName(def);
    if columnName.Some? {
      var colType := ExtractType(def);
      var isPrimaryKey := Contains(def, "PRIMARY KEY");
      var isUnique := isPrimaryKey || Contains(def, "UNIQUE");
      var isNullable := !Contains(def, "NOT NULL");
      var column := new Column(columnName.value, colType, isPrimaryKey, isUnique, isNullable);
      result := columns + [column];
    }
  }

  /** Sets isUnique on the columns whose name is in `names`, and on no other. */
  method MarkUniqueColumns(columns: seq<Column>, names: set<string>)
    requires DistinctColumns(columns)
    modifies set c | c in columns
    ensures Defs(columns) == MarkUnique(old(Defs(columns)), names)
  {
    ghost var before := Defs(columns);
    for j := 0 to |columns|
      invariant forall k :: 0 <= k < j ==>
        columns[k].Def() == if before[k].name in names then before[k].(isUnique := true) else before[k]
      invariant forall k :: j <= k < |columns| ==> columns[k].Def() == before[k]
    {
      if columns[j].name in names {
        columns[j].SetUnique(true);
      }
    }
  }

  /** Sets isPrimaryKey and isUnique on the columns whose name is in `names`, and on no other. */
  method MarkPrimaryColumns(columns: seq<Column>, names: set<string>)
    requires DistinctColumns(columns)
    modifies set c | c in columns
    ensures Defs(columns) == MarkPrimary(old(Defs(columns)), names)
  {
    ghost var before := Defs(columns);
    for j := 0 to |columns|
      invariant forall k :: 0 <= k < j ==>
        columns[k].Def() ==
          if before[k].name in names then before[k].(isPrimaryKey := true, isUnique := true) else before[k]
      invariant forall k :: j <= k < |columns| ==> columns[k].Def() == before[k]
    {
      var column := columns[j];
      if column.name in names {
        column.SetPrimaryKey(true);
        column.SetUnique(true);
      }
    }
  }

  /** setColumnPrimaryFromConstraint: marks the listed, already-collected columns as primary key and unique. */
  method SetColumnPrimaryFromConstraint(def: string, columns: seq<Column>)
    requires DistinctColumns(columns)
    modifies set c | c in columns
    ensures MatchKeyConstraint(def, "PRIMARY KEY").None? ==> Defs(columns) == old(Defs(columns))
    ensures MatchKeyConstraint(def, "PRIMARY KEY").Some? ==>
      Defs(columns) == MarkPrimary(old(Defs(columns)), NameSet(MatchKeyConstraint(def, "PRIMARY KEY").value))
  {
    var primaryKeys := MatchKeyConstraint(def, "PRIMARY KEY");
    if primaryKeys.Some? {
      MarkPrimaryColumns(columns, NameSet(primaryKeys.value));
    }
  }

  /** setColumnUniqueFromConstraint: marks the listed, already-collected columns as unique. */
  method SetColumnUniqueFromConstraint(def: string, columns: seq<Column>)
    requires DistinctColumns(columns)
    modifies set c | c in columns
    ensures MatchKeyConstraint(def, "UNIQUE").None? ==> Defs(columns) == old(Defs(columns))
    ensures MatchKeyConstraint(def, "UNIQUE").Some? ==>
      Defs(columns) == MarkUnique(old(Defs(columns)), NameSet(MatchKeyConstraint(def, "UNIQUE").value))
  {
    var uniques := MatchKeyConstraint(def, "UNIQUE");
    if uniques.Some? {
      MarkUniqueColumns(columns, NameSet(uniques.value));
    }
  }

  /** What each reading of a fragment says about the tests extractColumns makes. */
  lemma ClassifyCases(def: string)
    ensures Classify(def).PrimaryKeyConstraint? ==>
      MatchKeyConstraint(def, "PRIMARY KEY") == Some(Classify(def).names)
    ensures Classify(def).UniqueConstraint? ==>
      MatchKeyConstraint(def, "UNIQUE") == Some(Classify(def).names)
    ensures Classify(def).ColumnDefinition? ==> ColumnFromDef(def) == Some(Classify(def).column)
  {
  }

  /** One round of extractColumns' loop: the fragment applied to the columns collected so far. */
  method ApplyDefinition(fragment: string, columns: seq<Column>) returns (result: seq<Column>)
    requires DistinctColumns(columns)
    modifies set c | c in columns
    ensures DistinctColumns(result)
    ensures forall c :: c in result ==> c in columns || fresh(c)
    ensures Defs(result) == ApplyFragment(old(Defs(columns)), fragment)
  {
    result := columns;
    var def := Trim(fragment);
    if def == [] {
      return;
    }
    ClassifyCases(def);
    match Classify(def)
    case PrimaryKeyConstraint(names) =>
      SetColumnPrimaryFromConstraint(def, columns);
    case UniqueConstraint(names) =>
      SetColumnUniqueFromConstraint(def, columns);
    case ForeignKeyConstraint =>
    case ColumnDefinition(c) =>
      result := AddColumn(def, columns);
      var added := result[|columns|];
      DefsSnoc(columns, added);
      DistinctSnoc(columns, added);
    case Unrecognised =>
  }

  /** extractColumns: the columns of a CREATE TABLE body, as fresh column objects. */
  method ExtractColumns(defs: string) returns (columns: seq<Column>)
    ensures DistinctColumns(columns)
    ensures forall c :: c in columns ==> fresh(c)
    ensures Defs(columns) == ColumnsFromFragments(SplitColumnsSpec(defs))
  {
    columns := [];
    var defParts := SplitColumnsDef(defs);
    for i := 0 to |defParts|
      invariant DistinctColumns(columns)
      invariant forall c :: c in columns ==> fresh(c)
      invariant Defs(columns) == ColumnsFromFragments(defParts[..i])
    {
      FragmentsStep(defParts, i);
      columns := ApplyDefinition(defParts[i], columns);
    }
    assert defParts[..|defParts|] == defParts;
  }

  /** The table a CREATE TABLE line describes. */
  function TableFromHeader(header: TableHeader): TableDef {
    TableDef(header.name, ColumnsFromFragments(SplitColumnsSpec(header.body)))
  }

  /** extractTable: the table of a CREATE TABLE line, or null when the line is not one. */
  method ExtractTable(def: string) returns (table: Table?)
    ensures ParseTableLine(def).None? ==> table == null
    ensures ParseTableLine(def).Some? ==>
      table != null && fresh(table) && DistinctColumns(table.columns) &&
      (forall c :: c in table.columns ==> fresh(c)) &&
      table.Def() == TableFromHeader(ParseTableLine(def).value)
  {
    table := null;
    var header := ParseTableLine(def);
    if header.Some? {
      var tableColumns := ExtractColumns(header.value.body);
      table := new Table(header.value.name, tableColumns);
    }
  }

  // ---------------------------------------------------------------------------
  // Reading a script

  /** The table a line adds: one for a CREATE TABLE line, none otherwise. */
  function TableOfLine(line: string): seq<TableDef> {
    match ParseTableLine(line)
    case Some(header) => [TableFromHeader(header)]
    case None => []
  }

  /** The tables of the CREATE TABLE lines, in file order, before unique indices are applied. */
  function TablesOf(lines: seq<string>): (r: seq<TableDef>)
    ensures |r| <= |lines|
  {
    if lines == [] then [] else TablesOf(lines[..|lines| - 1]) + TableOfLine(lines[|lines| - 1])
  }

  /** The (table, column) pair a line indexes: a unique-index line that is not a table line. */
  function IndexEntry(line: string): Option<(string, string)> {
    if ParseTableLine(line).None? then ParseUniqueIndex(line) else None
  }

  /** The index map after one more (table, column) pair. */
  function AddIndex(indices: map<string, set<string>>, entry: Option<(string, string)>): (r: map<string, set<string>>)
    ensures forall t, c :: (t in r && c in r[t]) <==> (t in indices && c in indices[t]) || entry == Some((t, c))
  {
    match entry
    case None => indices
    case Some((tableName, columnName)) =>
      indices[tableName := (if tableName in indices then indices[tableName] else {}) + {columnName}]
  }

  /** The index entries of the lines, in order. */
  function Entries(lines: seq<string>): (r: seq<Option<(string, string)>>)
    ensures |r| == |lines| && forall i :: 0 <= i < |lines| ==> r[i] == IndexEntry(lines[i])
  {
    seq(|lines|, i requires 0 <= i < |lines| => IndexEntry(lines[i]))
  }

  /** The index map built from a sequence of entries. */
  function IndicesFrom(entries: seq<Option<(string, string)>>): map<string, set<string>> {
    if entries == [] then map[] else AddIndex(IndicesFrom(entries[..|entries| - 1]), entries[|entries| - 1])
  }

  /** Table name to indexed column names, from the CREATE UNIQUE INDEX lines. */
  function IndicesOf(lines: seq<string>): map<string, set<string>> {
    IndicesFrom(Entries(lines))
  }

  /** The map built from entries holds exactly the pairs among them. */
  lemma {:induction false} IndicesFromMeaning(entries: seq<Option<(string, string)>>, tableName: string, columnName: string)
    ensures (tableName in IndicesFrom(entries) && columnName in IndicesFrom(entries)[tableName]) <==>
      Some((tableName, columnName)) in entries
  {
    if entries != [] {
      var init := entries[..|entries| - 1];
      IndicesFromMeaning(init, tableName, columnName);
      assert entries == init + [entries[|entries| - 1]];
    }
  }

  /** The line at `i` is a unique index on `tableName`.`columnName`. */
  predicate IndexLine(lines: seq<string>, i: int, tableName: string, columnName: string) {
    0 <= i < |lines| && IndexEntry(lines[i]) == Some((tableName, columnName))
  }

  /** The index map holds exactly the pairs some unique-index line of the script names. */
  lemma IndicesOfMeaning(lines: seq<string>, tableName: string, columnName: string)
    ensures (tableName in IndicesOf(lines) && columnName in IndicesOf(lines)[tableName]) <==>
      exists i :: IndexLine(lines, i, tableName, columnName)
  {
    var entries := Entries(lines);
    IndicesFromMeaning(entries, tableName, columnName);
    if Some((tableName, columnName)) in entries {
      var i :| 0 <= i < |entries| && entries[i] == Some((tableName, columnName));
      assert IndexLine(lines, i, tableName, columnName);
    }
  }

  /** A table after the unique indices on it are applied. */
  function PatchTable(table: TableDef, indices: map<string, set<string>>): TableDef {
    if table.name in indices then table.(columns := MarkUnique(table.columns, indices[table.name])) else table
  }

  /** readTablesFromFile: the tables of the script, with unique indices applied when there are tables and indices. */
  function ReadTablesSpec(lines: seq<string>): seq<TableDef> {
    var tables := TablesOf(lines);
    var indices := IndicesOf(lines);
    if tables != [] && indices != map[] then seq(|tables|, i requires 0 <= i < |tables| => PatchTable(tables[i], indices))
    else tables
  }

  /**
   * What readTablesFromFile returns: one table per CREATE TABLE line, in
   * order, with the same name and column names; a column is unique exactly
   * when its definition made it unique or a unique index of the script names
   * it; nothing else about a column changes.
   */
  lemma ReadTablesMeaning(lines: seq<string>, i: int, k: int)
    requires 0 <= i < |TablesOf(lines)| && 0 <= k < |TablesOf(lines)[i].columns|
    ensures |ReadTablesSpec(lines)| == |TablesOf(lines)|
    ensures var before := TablesOf(lines)[i];
      var after := ReadTablesSpec(lines)[i];
      after.name == before.name && |after.columns| == |before.columns| &&
      after.columns[k] == before.columns[k].(isUnique := after.columns[k].isUnique) &&
      (after.columns[k].isUnique <==>
        before.columns[k].isUnique || exists j :: IndexLine(lines, j, before.name, before.columns[k].name))
  {
    var before := TablesOf(lines)[i];
    IndicesOfMeaning(lines, before.name, before.columns[k].name);
  }

  /** The unique indices gathered so far, after one more line. */
  method AddUniqueIndex(tableNameKey: string, columnNameKey: string, uniqueIndices: map<string, set<string>>)
    returns (result: map<string, set<string>>)
    ensures result == AddIndex(uniqueIndices, Some((tableNameKey, columnNameKey)))
  {
    result := uniqueIndices;
    if tableNameKey !in result {
      result := result[tableNameKey := {}];
    }
    var tableUniqueIndices := result[tableNameKey];
    result := result[tableNameKey := tableUniqueIndices + {columnNameKey}];
  }

  /** TablesOf, one line further. */
  lemma TablesOfSnoc(lines: seq<string>, line: string)
    ensures TablesOf(lines + [line]) == TablesOf(lines) + TableOfLine(line)
  {
    assert (lines + [line])[..|lines|] == lines;
  }

  /** IndicesOf, one line further. */
  lemma IndicesOfSnoc(lines: seq<string>, line: string)
    ensures IndicesOf(lines + [line]) == AddIndex(IndicesOf(lines), IndexEntry(line))
  {
    assert Entries(lines + [line]) == Entries(lines) + [IndexEntry(line)];
    assert (Entries(lines) + [IndexEntry(line)])[..|lines|] == Entries(lines);
  }

  /** The first loop of readTablesFromFile: the tables and the unique indices of the script. */
  method CollectTables(lines: seq<string>) returns (tables: seq<Table>, uniqueIndices: map<string, set<string>>)
    ensures Separate(tables)
    ensures forall i :: 0 <= i < |tables| ==> fresh(tables[i])
    ensures forall i, c :: 0 <= i < |tables| && c in tables[i].columns ==> fresh(c)
    ensures |tables| == |TablesOf(lines)|
    ensures forall i :: 0 <= i < |tables| ==> tables[i].Def() == TablesOf(lines)[i]
    ensures uniqueIndices == IndicesOf(lines)
  {
    tables := [];
    uniqueIndices := map[];
    ghost var defs: seq<TableDef> := [];
    ReadSoFarStart(lines);
    for n := 0 to |lines|
      invariant Separate(tables) && |tables| == |defs|
      invariant forall i :: 0 <= i < |tables| ==> tables[i].Def() == defs[i]
      invariant forall i :: 0 <= i < |tables| ==> fresh(tables[i])
      invariant forall i, c :: 0 <= i < |tables| && c in tables[i].columns ==> fresh(c)
      invariant ReadSoFar(lines, n, defs, uniqueIndices)
    {
      ReadSoFarStep(lines, n, defs, uniqueIndices);
      tables, defs, uniqueIndices := CollectLine(lines[n], tables, defs, uniqueIndices);
    }
    ReadSoFarAll(lines, defs, uniqueIndices);
  }

  /** One round of the first loop: a table line adds its table, a unique-index line its entry. */
  method CollectLine(line: string, tables: seq<Table>, ghost defs: seq<TableDef>, uniqueIndices: map<string, set<string>>)
    returns (result: seq<Table>, ghost resultDefs: seq<TableDef>, indices: map<string, set<string>>)
    requires Separate(tables) && |tables| == |defs|
    requires forall i :: 0 <= i < |tables| ==> tables[i].Def() == defs[i]
    ensures Separate(result) && |result| == |resultDefs|
    ensures forall i :: 0 <= i < |result| ==> result[i].Def() == resultDefs[i]
    ensures resultDefs == defs + TableOfLine(line)
    ensures indices == AddIndex(uniqueIndices, IndexEntry(line))
    ensures |result| >= |tables| && result[..|tables|] == tables
    ensures forall i :: |tables| <= i < |result| ==> fresh(result[i])
    ensures forall i, c :: |tables| <= i < |result| && c in result[i].columns ==> fresh(c)
  {
    if ParseTableLine(line).Some? {
      result, resultDefs, indices := CollectTable(line, tables, defs, uniqueIndices);
    } else {
      result, resultDefs, indices := CollectIndex(line, tables, defs, uniqueIndices);
    }
  }

  /** A table line: its table joins the list and the indices stay. */
  method CollectTable(line: string, tables: seq<Table>, ghost defs: seq<TableDef>, uniqueIndices: map<string, set<string>>)
    returns (result: seq<Table>, ghost resultDefs: seq<TableDef>, indices: map<string, set<string>>)
    requires ParseTableLine(line).Some?
    requires Separate(tables) && |tables| == |defs|
    requires forall i :: 0 <= i < |tables| ==> tables[i].Def() == defs[i]
    ensures Separate(result) && |result| == |resultDefs|
    ensures forall i :: 0 <= i < |result| ==> result[i].Def() == resultDefs[i]
    ensures resultDefs == defs + TableOfLine(line)
    ensures indices == AddIndex(uniqueIndices, IndexEntry(line))
    ensures |result| >= |tables| && result[..|tables|] == tables
    ensures forall i :: |tables| <= i < |result| ==> fresh(result[i])
    ensures forall i, c :: |tables| <= i < |result| && c in result[i].columns ==> fresh(c)
  {
    LineKinds(line);
    var table := ExtractTable(line);
    assert forall i, c :: 0 <= i < |tables| && c in table.columns ==> c !in tables[i].columns;
    SeparateSnoc(tables, table);
    result := tables + [table];
    resultDefs := defs + [table.Def()];
    indices := uniqueIndices;
  }

  /** Any other line: no table; a unique-index line adds its entry. */
  method CollectIndex(line: string, tables: seq<Table>, ghost defs: seq<TableDef>, uniqueIndices: map<string, set<string>>)
    returns (result: seq<Table>, ghost resultDefs: seq<TableDef>, indices: map<string, set<string>>)
    requires ParseTableLine(line).None?
    ensures result == tables && resultDefs == defs && resultDefs == defs + TableOfLine(line)
    ensures indices == AddIndex(uniqueIndices, IndexEntry(line))
  {
    LineKinds(line);
    result, resultDefs := tables, defs;
    var entry := ParseUniqueIndex(line);
    if entry.Some? {
      var (tableNameKey, columnNameKey) := entry.value;
      indices := AddUniqueIndex(tableNameKey, columnNameKey, uniqueIndices);
    } else {
      indices := uniqueIndices;
    }
  }

  /** A table line adds a table and no index entry; any other line adds no table. */
  lemma LineKinds(line: string)
    ensures ParseTableLine(line).Some? ==>
      TableOfLine(line) == [TableFromHeader(ParseTableLine(line).value)] && IndexEntry(line) == None
    ensures ParseTableLine(line).None? ==> TableOfLine(line) == [] && IndexEntry(line) == ParseUniqueIndex(line)
  {
  }

  /**
   * The tables and indices of the first n lines, stated so that the
   * specification is unfolded only at the n a proof asks about.
   */
  ghost predicate ReadSoFar(lines: seq<string>, n: nat, defs: seq<TableDef>, indices: map<string, set<string>>) {
    forall k: nat {:trigger TablesOf(lines[..k])} :: k == n && k <= |lines| ==>
      defs == TablesOf(lines[..k]) && indices == IndicesOf(lines[..k])
  }

  lemma ReadSoFarStart(lines: seq<string>)
    ensures ReadSoFar(lines, 0, [], map[])
  {
    assert TablesOf(lines[..0]) == [] && IndicesOf(lines[..0]) == map[];
  }

  /** One more line adds its table and its index entry. */
  lemma ReadSoFarStep(lines: seq<string>, n: nat, defs: seq<TableDef>, indices: map<string, set<string>>)
    requires n < |lines| && ReadSoFar(lines, n, defs, indices)
    ensures ReadSoFar(lines, n + 1, defs + TableOfLine(lines[n]), AddIndex(indices, IndexEntry(lines[n])))
  {
    assert defs == TablesOf(lines[..n]) && indices == IndicesOf(lines[..n]);
    PrefixStep(lines, n);
  }

  /** The first n + 1 lines are the first n and line n. */
  lemma PrefixStep(lines: seq<string>, n: nat)
    requires n < |lines|
    ensures TablesOf(lines[..n + 1]) == TablesOf(lines[..n]) + TableOfLine(lines[n])
    ensures IndicesOf(lines[..n + 1]) == AddIndex(IndicesOf(lines[..n]), IndexEntry(lines[n]))
  {
    assert lines[..n + 1] == lines[..n] + [lines[n]];
    TablesOfSnoc(lines[..n], lines[n]);
    IndicesOfSnoc(lines[..n], lines[n]);
  }

  lemma ReadSoFarAll(lines: seq<string>, defs: seq<TableDef>, indices: map<string, set<string>>)
    requires ReadSoFar(lines, |lines|, defs, indices)
    ensures defs == TablesOf(lines) && indices == IndicesOf(lines)
  {
    assert defs == TablesOf(lines[..|lines|]);
    assert lines[..|lines|] == lines;
  }

  /** The second loop of readTablesFromFile: marks the indexed columns of each table as unique. */
  method ApplyUniqueIndices(tables: seq<Table>, uniqueIndices: map<string, set<string>>)
    requires Separate(tables)
    modifies set i, c | 0 <= i < |tables| && c in tables[i].columns :: c
    ensures forall i :: 0 <= i < |tables| ==> tables[i].Def() == PatchTable(old(tables[i].Def()), uniqueIndices)
  {
    for k := 0 to |tables|
      invariant forall i :: 0 <= i < k ==> tables[i].Def() == PatchTable(old(tables[i].Def()), uniqueIndices)
      invariant forall i :: k <= i < |tables| ==> tables[i].Def() == old(tables[i].Def())
    {
      PatchOne(tables, k, uniqueIndices);
    }
  }

  /** One round of the second loop: table k gets its unique indices, and no other table changes. */
  method PatchOne(tables: seq<Table>, k: nat, uniqueIndices: map<string, set<string>>)
    requires Separate(tables) && k < |tables|
    modifies set c | c in tables[k].columns
    ensures tables[k].Def() == PatchTable(old(tables[k].Def()), uniqueIndices)
    ensures forall i :: 0 <= i < |tables| && i != k ==> tables[i].Def() == old(tables[i].Def())
  {
    var table := tables[k];
    if table.name in uniqueIndices {
      MarkUniqueColumns(table.columns, uniqueIndices[table.name]);
    }
  }

  /** readTablesFromFile over the lines of the script. */
  method ReadTablesFromFile(lines: seq<string>) returns (tables: seq<Table>)
    ensures Separate(tables)
    ensures forall i :: 0 <= i < |tables| ==> fresh(tables[i])
    ensures forall i, c :: 0 <= i < |tables| && c in tables[i].columns ==> fresh(c)
    ensures |tables| == |ReadTablesSpec(lines)|
    ensures forall i :: 0 <= i < |tables| ==> tables[i].Def() == ReadTablesSpec(lines)[i]
  {
    var uniqueIndices;
    tables, uniqueIndices := CollectTables(lines);
    if tables != [] && uniqueIndices != map[] {
      ApplyUniqueIndices(tables, uniqueIndices);
    }
  }
}
