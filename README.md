# hsql-diff-extract, modelled in Dafny

hsql-diff-extract compares two HSQLDB text scripts, an original and a changed
one, and writes for every table the SQL statements that turn the original
rows into the changed ones: an INSERT for every row only the changed script
holds, an UPDATE for every row whose values changed, and a DELETE for every
row only the original holds. This project models the core of that program
and proves properties of the model.

The model follows the program's structure:

- `entity.dfy` (Entity) holds columns, tables and rows. Column and Table are
  classes with the setters the parser uses; ColumnDef and TableDef are their
  values. A Row is a value holding its table and its values.
- `row_util.dfy` (RowUtil) holds index keys, which are primary-key values
  joined by commas, and their order, which is lexicographic.
- `table_parser.dfy` (TableParser) reads CREATE TABLE and CREATE UNIQUE INDEX
  lines into tables. Hand-written scanners decide what the regular
  expressions decide.
- `row_parser.dfy` (RowParser) reads INSERT INTO lines into rows, splitting at
  commas outside quotes, and keys them.
- `eager_row_source.dfy`, `lazy_row_source.dfy` and `row_source.dfy` hold the
  row sources, which are paged in key order:
  - the eager source holds every row;
  - the lazy source holds line numbers and re-reads the script through a
    forward-only reader;
  - RowSource is the shared contract, a datatype over the two.
- `diff.dfy` (Diff) holds the SQL text builders and the DiffProcessor, which
  checks created, updated and deleted rows in windows of 5000 rows.
- `workflow.dfy` (Workflow) holds the table-name filters, the pairing of
  tables with the same name, and the rule that skips a pair.
- `arg.dfy` (Arg) holds command-line arguments: the `-name=value` parser, the
  property-file and interactive rules, and the argument bag.
- `wrappers.dfy`, `strings.dfy` and `seqs.dfy` are helpers: Option,
  string operations and sequence lemmas. The string operations follow
  Java's `split`, `trim` (which drops characters up to U+0020), `isBlank`
  (which tests `Character.isWhitespace`, Unicode separators included) and
  `toLowerCase`, which the model applies to ASCII letters only.

Files are sequences of lines. A DiffProcessor's output file is the sequence
of lines it has written, plus flags for whether its writer was opened and
closed. Orders that follow HashMap iteration are left open: the update check
returns, as a ghost out-parameter, the statements of each window in the
order it wrote them, and a lemma shows that any order writes the same
statements, rearranged.

Where the code and its own comments disagree, the model follows the code.
Each divergence below is exhibited by a lemma.

- `splitColumnsDef` splits at the commas of the last bracket group, contrary
  to its doc comment, because the bracket test needs a later `(`
  (`TableParser.SplitColumnsCutsLastGroup`). So a composite key written
  last, `PRIMARY KEY(A,B)`, is cut into `PRIMARY KEY(A` and `B)`. The first
  piece no longer matches the constraint pattern, and the column pattern
  takes it for a column named PRIMARY. The second matches nothing. The table
  is then one column wider than its INSERTs, extractRow rejects every row,
  and the pair is skipped because it holds no rows.
- `extractColumns` tests for a primary-key constraint before the column
  pattern, so `PRIMARY KEY(A)` is a constraint even though the column
  pattern also matches it
  (`TableParser.PrimaryKeyConstraintLooksLikeColumn`).
- The skip arithmetic of `LazyRowRource.collectRows` is off by one, and the
  error builds up. The counter jumps to the wanted line, but the reader
  skips one line too many at every gap of more than one line, and it never
  catches up. For strictly ascending line numbers, the i-th is read at its
  own number, plus the number of gaps up to it, minus one when the first
  number is 1 (`LazyRowSource.ReaderLag`). Therefore:
  - after a gap, the wanted line and every line after it are read one line
    late, and a second gap makes the reader two lines late. Lines 0, 2, 4
    read lines 0, 3, 6, and lines 0, 2, 3 read lines 0, 3, 4
    (`LazyRowSource.LagBuildsUp`, `LazyRowSource.GapReadsOneLineLate`);
  - a first line number of 1 reads line 0, and the consecutive lines after
    it are each read one line early until a gap brings the reader back in
    step. Lines 1, 3 read lines 0, 3
    (`LazyRowSource.FirstLineOneReadsLineZero`, `LazyRowSource.LagBuildsUp`).
- `buildUpdateQueryString` and `buildDeleteQueryString` pair the key column
  `columnNames[pkIndices[i]]` with `value[i]`, not with
  `value[pkIndices[i]]`. The two agree only when the key columns come first
  (`Diff.LeadingKeyConditionsMatch`, `Diff.TrailingKeyTakesFirstValue`).
- `genIndexKey` joins with a comma, not a colon as its comment says. Two
  different key lists can therefore share an index key
  (`RowUtil.GenIndexKeyNotInjective`); without commas in the values it is
  injective.
- Within a window, UPDATEs follow HashMap iteration order
  (`Diff.WindowOrderIrrelevant`).
- A table pair is diffed only when both sides hold rows, so a table emptied in
  the changed script gets no DELETEs (`Workflow.PairSkipped`).

## Model

| member | source | states |
|---|---|---|
| Entity.Column.Empty | src/main/java/de/ozml/hsqldiffextract/entity/Column.java:14 | the no-argument constructor leaves the name empty, the type unset and all three flags false |
| Entity.Column.constructor | src/main/java/de/ozml/hsqldiffextract/entity/Column.java:16-22 | the five-argument constructor stores its arguments unchanged |
| Entity.Column.SetName | src/main/java/de/ozml/hsqldiffextract/entity/Column.java:28-30 | replaces the name and leaves the other four fields as they were |
| Entity.Column.SetType | src/main/java/de/ozml/hsqldiffextract/entity/Column.java:36-38 | replaces the type and leaves the other four fields as they were |
| Entity.Column.SetPrimaryKey | src/main/java/de/ozml/hsqldiffextract/entity/Column.java:44-46 | replaces the primary-key flag and leaves the other four fields as they were |
| Entity.Column.SetUnique | src/main/java/de/ozml/hsqldiffextract/entity/Column.java:52-54 | replaces the unique flag and leaves the other four fields as they were |
| Entity.Column.SetNullable | src/main/java/de/ozml/hsqldiffextract/entity/Column.java:60-62 | replaces the nullable flag and leaves the other four fields as they were |
| Entity.Column.Equals | src/main/java/de/ozml/hsqldiffextract/entity/Column.java:83-105 | two columns are equal iff the other is not null and all five fields agree |
| Entity.PrimaryKeyIndicesFacts | src/main/java/de/ozml/hsqldiffextract/entity/Table.java:67-76 | the key positions are strictly increasing, lie inside the column list, and a position is listed iff its column is a primary-key column |
| Entity.Table.Empty | src/main/java/de/ozml/hsqldiffextract/entity/Table.java:15-16 | the no-argument constructor leaves the name empty and the column list empty |
| Entity.Table.constructor | src/main/java/de/ozml/hsqldiffextract/entity/Table.java:18-21 | stores the name and the column objects unchanged |
| Entity.Table.SetName | src/main/java/de/ozml/hsqldiffextract/entity/Table.java:27-29 | replaces the name only |
| Entity.Table.SetColumns | src/main/java/de/ozml/hsqldiffextract/entity/Table.java:35-37 | replaces the column list only |
| Entity.Table.GetColumnNames | src/main/java/de/ozml/hsqldiffextract/entity/Table.java:47-54 | one name per column, in column order |
| Entity.Table.GetPrimaryKey | src/main/java/de/ozml/hsqldiffextract/entity/Table.java:56-65 | the column objects at the primary-key positions, in column order |
| Entity.Table.GetPrimaryKeyIndices | src/main/java/de/ozml/hsqldiffextract/entity/Table.java:67-76 | the loop yields exactly the primary-key positions, with the properties of PrimaryKeyIndices |
| Entity.Table.Equals | src/main/java/de/ozml/hsqldiffextract/entity/Table.java:93-109 | two tables are equal iff the other is not null, the names agree and the columns are pairwise equal |
| Entity.Row.Equals | src/main/java/de/ozml/hsqldiffextract/entity/Row.java:56-67 | two rows are equal iff their value arrays have the same length and agree element by element; the table is not compared |
| Entity.GetPrimaryKey | src/main/java/de/ozml/hsqldiffextract/entity/Row.java:37-45 | the row's values at the table's primary-key positions, in key order |
| RowUtil.IsPrimaryKeyEqual | src/main/java/de/ozml/hsqldiffextract/common/RowUtil.java:21-23 | holds iff the two primary-key value arrays have the same length and agree element by element |
| RowUtil.CompareIndexKeys | src/main/java/de/ozml/hsqldiffextract/common/RowUtil.java:51-53 | String.compareTo: zero exactly for equal keys |
| RowUtil.CompareIndexKeysFlip | src/main/java/de/ozml/hsqldiffextract/common/RowUtil.java:51-53 | swapping the keys negates the comparison |
| RowUtil.CompareIndexKeysTransitive | src/main/java/de/ozml/hsqldiffextract/common/RowUtil.java:51-53 | the order the comparison induces is transitive |
| RowUtil.KeyOrderIsTotalOrder | src/main/java/de/ozml/hsqldiffextract/common/RowUtil.java:60-62 | the comparator used for sorting is a total order: total, antisymmetric and transitive |
| RowUtil.CompareRowIndexKeys | src/main/java/de/ozml/hsqldiffextract/common/RowUtil.java:41-43 | zero exactly when the rows' index keys are equal, and the sign flips with the argument order |
| RowUtil.InsertKey | src/main/java/de/ozml/hsqldiffextract/common/RowUtil.java:68-73 | inserting a key into a sorted list keeps it sorted and adds exactly that key |
| RowUtil.SortIndexKeyList | src/main/java/de/ozml/hsqldiffextract/common/RowUtil.java:68-73 | the result is sorted by the key comparator and is a permutation of the input |
| RowUtil.SortedKeysUnique | src/main/java/de/ozml/hsqldiffextract/common/RowUtil.java:68-73 | two sorted permutations of the same keys are equal, so the sorted list does not depend on the collection's iteration order |
| RowUtil.SortedKeySet | src/main/java/de/ozml/hsqldiffextract/common/RowUtil.java:68-73 | the keys of a set in comparator order: sorted, each key once, exactly the set's members |
| RowUtil.SortedKeySetDistinct | src/main/java/de/ozml/hsqldiffextract/common/RowUtil.java:68-73 | the sorted key list of a set holds no key twice |
| RowUtil.SortIndexKeySet | src/main/java/de/ozml/hsqldiffextract/common/RowUtil.java:68-73 | copying a key set in an unknown iteration order and sorting it always gives the same sorted key list |
| RowUtil.GenIndexKeyRoundTrip | src/main/java/de/ozml/hsqldiffextract/common/RowUtil.java:31-33 | splitting the joined key at "," gives back values that contain no comma |
| RowUtil.GenIndexKeyInjectiveWithoutCommas | src/main/java/de/ozml/hsqldiffextract/common/RowUtil.java:31-33 | for comma-free values, equal index keys mean equal primary-key values |
| RowUtil.GenIndexKeyNotInjective | src/main/java/de/ozml/hsqldiffextract/common/RowUtil.java:31-33 | a value containing a comma collides with two values: ["a,b"] and ["a", "b"] share a key |
| RowUtil.PrimaryKeyEqualComparesEqual | src/main/java/de/ozml/hsqldiffextract/common/RowUtil.java:21-23 | rows with equal primary-key values compare as equal |
| TableParser.ParseTableLine | src/main/java/de/ozml/hsqldiffextract/parser/TableParser.java:25 | a recognised CREATE TABLE line yields a word as the table name (group 3) and a one-line body (group 4) |
| TableParser.ParseTableName | src/main/java/de/ozml/hsqldiffextract/parser/TableParser.java:25 | the `(\w+)\s?\((.*)\)$` end of the pattern yields a word and a one-line body |
| TableParser.TableNameParses | src/main/java/de/ozml/hsqldiffextract/parser/TableParser.java:25 | a word, at most one space and a bracketed one-line body yield that word and that body |
| TableParser.TableNameShape | src/main/java/de/ozml/hsqldiffextract/parser/TableParser.java:25 | every recognised name part is a word, at most one space and the bracketed body |
| TableParser.TableLineParses | src/main/java/de/ozml/hsqldiffextract/parser/TableParser.java:25 | every line `CREATE [MEMORY ]TABLE [PUBLIC.]<word>[space](<one-line body>)` is recognised, with that word and body |
| TableParser.TableLineShape | src/main/java/de/ozml/hsqldiffextract/parser/TableParser.java:25 | every recognised line is exactly such a line, rebuilt from its name and body |
| TableParser.ParseUniqueIndex | src/main/java/de/ozml/hsqldiffextract/parser/TableParser.java:28 | a recognised CREATE UNIQUE INDEX line yields a word as the table name (group 3) and a word as the column name (group 4) |
| TableParser.ParseIndexTarget | src/main/java/de/ozml/hsqldiffextract/parser/TableParser.java:28 | the `(\w+)\s?\((\w+)\)$` end of the pattern yields two words |
| TableParser.IndexTargetParses | src/main/java/de/ozml/hsqldiffextract/parser/TableParser.java:28 | a table word, at most one space and a bracketed column word yield those two words |
| TableParser.IndexTargetShape | src/main/java/de/ozml/hsqldiffextract/parser/TableParser.java:28 | every recognised target part is a table word, at most one space and a bracketed column word |
| TableParser.IndexLineParses | src/main/java/de/ozml/hsqldiffextract/parser/TableParser.java:28 | every line `CREATE UNIQUE INDEX[space]<word> ON [PUBLIC.]<table>[space](<column>)` is recognised, with that table and column |
| TableParser.IndexLineShape | src/main/java/de/ozml/hsqldiffextract/parser/TableParser.java:28 | every recognised line is exactly such a line, rebuilt from its table and column |
| TableParser.ParseNameList | src/main/java/de/ozml/hsqldiffextract/parser/TableParser.java:30-32 | a matching name list is cut as `split("\\s*,\\s*")` cuts it: bare names, and a last name that keeps its trailing spaces |
| TableParser.NameListParses | src/main/java/de/ozml/hsqldiffextract/parser/TableParser.java:30-32 | words joined by any `\s*,\s*` separator are cut back into exactly those words |
| TableParser.NamePiecesCons | src/main/java/de/ozml/hsqldiffextract/parser/TableParser.java:30-32 | a name in front of a cut list is again a cut list |
| TableParser.MatchKeyConstraint | src/main/java/de/ozml/hsqldiffextract/parser/TableParser.java:30-32 | a PRIMARY KEY or UNIQUE constraint, with optional CONSTRAINT name, yields its name list cut into bare names and a padded last name |
| TableParser.KeyConstraintParses | src/main/java/de/ozml/hsqldiffextract/parser/TableParser.java:30-32 | `[CONSTRAINT <word> ]<keyword>[space](<words joined by \s*,\s*>)` yields exactly those words, for PRIMARY KEY and UNIQUE |
| TableParser.SkipConstraintNameOf | src/main/java/de/ozml/hsqldiffextract/parser/TableParser.java:30-32 | the optional `CONSTRAINT\s+(\w+)\s+` group is skipped when present |
| TableParser.SkipConstraintNameAbsent | src/main/java/de/ozml/hsqldiffextract/parser/TableParser.java:30-32 | a fragment that does not start with C has no CONSTRAINT group to skip |
| TableParser.ColumnName | src/main/java/de/ozml/hsqldiffextract/parser/TableParser.java:26 | a column definition yields its first word as a non-empty name made of word characters |
| TableParser.ExtractType | src/main/java/de/ozml/hsqldiffextract/parser/TableParser.java:285-303 | the type is the first class, in the order of the tests, whose keyword occurs in the definition; no type when none occurs |
| TableParser.SplitColumnsDef | src/main/java/de/ozml/hsqldiffextract/parser/TableParser.java:185-216 | the loop cuts the body exactly as SplitColumnsSpec does |
| TableParser.JoinSplitFrom | src/main/java/de/ozml/hsqldiffextract/parser/TableParser.java:185-216 | joining the fragments from a cut point with "," gives the remaining text back, up to a trailing comma |
| TableParser.JoinSplitColumns | src/main/java/de/ozml/hsqldiffextract/parser/TableParser.java:185-216 | no fragment comes only from an empty body, and the fragments joined with "," give the body back, except for an empty last piece |
| TableParser.SplitColumnsKeepsInnerComma | src/main/java/de/ozml/hsqldiffextract/parser/TableParser.java:191-207 | a comma inside brackets is kept when another "(" follows: "A(1,2),B(3)" splits into two fragments |
| TableParser.SplitColumnsCutsLastGroup | src/main/java/de/ozml/hsqldiffextract/parser/TableParser.java:191-207 | a comma inside the last bracket group is cut although it is enclosed: "A(1,2),B" splits into three fragments |
| TableParser.ColumnFromDef | src/main/java/de/ozml/hsqldiffextract/parser/TableParser.java:224-237 | a column is built iff the column pattern matches; its name is group 1, its type that of extractType, primary key iff the text contains PRIMARY KEY, unique iff primary key or UNIQUE, nullable iff no NOT NULL |
| TableParser.MarkPrimary | src/main/java/de/ozml/hsqldiffextract/parser/TableParser.java:251-256 | the columns named in the constraint become primary key and unique; the others are unchanged |
| TableParser.MarkUnique | src/main/java/de/ozml/hsqldiffextract/parser/TableParser.java:266-278 | the columns named become unique; the others are unchanged |
| TableParser.MarkIdempotent | src/main/java/de/ozml/hsqldiffextract/parser/TableParser.java:245-278 | applying the same key constraint twice changes nothing more |
| TableParser.PrimaryKeyConstraintLooksLikeColumn | src/main/java/de/ozml/hsqldiffextract/parser/TableParser.java:165-173 | a primary-key constraint also matches the column pattern, with the name PRIMARY |
| TableParser.ColumnNameOfDefinition | src/main/java/de/ozml/hsqldiffextract/parser/TableParser.java:26 | a word, a space and a line of text is a column definition named by the word |
| TableParser.PrimaryKeyConstraintClassified | src/main/java/de/ozml/hsqldiffextract/parser/TableParser.java:165-173 | the constraint tests come first, so "PRIMARY KEY(A)" is read as a constraint on A |
| TableParser.ColumnsFromFragmentsNames | src/main/java/de/ozml/hsqldiffextract/parser/TableParser.java:155-177 | the collected columns are exactly the column definitions, in order; constraints never add or rename a column |
| TableParser.AddColumn | src/main/java/de/ozml/hsqldiffextract/parser/TableParser.java:224-237 | appends one fresh column described by the definition when the pattern matches, and nothing otherwise |
| TableParser.MarkUniqueColumns | src/main/java/de/ozml/hsqldiffextract/parser/TableParser.java:272-276 | sets the unique flag on exactly the columns whose name is listed |
| TableParser.MarkPrimaryColumns | src/main/java/de/ozml/hsqldiffextract/parser/TableParser.java:251-256 | sets the primary-key and unique flags on exactly the columns whose name is listed |
| TableParser.SetColumnPrimaryFromConstraint | src/main/java/de/ozml/hsqldiffextract/parser/TableParser.java:245-258 | marks the listed columns as primary key and unique, and changes nothing when the constraint does not match |
| TableParser.SetColumnUniqueFromConstraint | src/main/java/de/ozml/hsqldiffextract/parser/TableParser.java:266-278 | marks the listed columns as unique, and changes nothing when the constraint does not match |
| TableParser.ApplyDefinition | src/main/java/de/ozml/hsqldiffextract/parser/TableParser.java:158-173 | one loop round applies the fragment to the columns collected so far, keeping the column objects distinct |
| TableParser.ExtractColumns | src/main/java/de/ozml/hsqldiffextract/parser/TableParser.java:155-177 | the columns of the body are fresh, distinct objects equal to the columns the fragments describe |
| TableParser.ExtractTable | src/main/java/de/ozml/hsqldiffextract/parser/TableParser.java:135-148 | a CREATE TABLE line gives a fresh table named by group 3 with the columns of group 4; any other line gives null |
| TableParser.TablesOf | src/main/java/de/ozml/hsqldiffextract/parser/TableParser.java:58-64 | at most one table per line |
| TableParser.AddIndex | src/main/java/de/ozml/hsqldiffextract/parser/TableParser.java:72-77 | the index map gains exactly the new (table, column) pair |
| TableParser.Entries | src/main/java/de/ozml/hsqldiffextract/parser/TableParser.java:65-70 | one index entry per line, in order |
| TableParser.IndicesFromMeaning | src/main/java/de/ozml/hsqldiffextract/parser/TableParser.java:65-78 | the index map holds exactly the (table, column) pairs among the entries |
| TableParser.IndicesOfMeaning | src/main/java/de/ozml/hsqldiffextract/parser/TableParser.java:58-82 | the index map holds exactly the pairs some unique-index line of the script names |
| TableParser.ReadTablesMeaning | src/main/java/de/ozml/hsqldiffextract/parser/TableParser.java:48-104 | one table per CREATE TABLE line, in order, same name and column names; a column is unique iff its definition made it unique or a unique-index line names it; nothing else changes |
| TableParser.AddUniqueIndex | src/main/java/de/ozml/hsqldiffextract/parser/TableParser.java:72-77 | the gathered indices after one unique-index line |
| TableParser.TablesOfSnoc | src/main/java/de/ozml/hsqldiffextract/parser/TableParser.java:58-64 | the tables of one more line are those before plus that line's table, if any |
| TableParser.IndicesOfSnoc | src/main/java/de/ozml/hsqldiffextract/parser/TableParser.java:65-78 | the indices of one more line are those before plus that line's entry, if any |
| TableParser.CollectTables | src/main/java/de/ozml/hsqldiffextract/parser/TableParser.java:58-82 | the first loop yields fresh tables equal to TablesOf, owning their columns, and the index map IndicesOf |
| TableParser.ApplyUniqueIndices | src/main/java/de/ozml/hsqldiffextract/parser/TableParser.java:85-96 | every table's indexed columns become unique and nothing else changes |
| TableParser.CollectLine | src/main/java/de/ozml/hsqldiffextract/parser/TableParser.java:58-82 | one round of the first loop: the tables read so far gain the line's table, fresh, and the index map gains the line's unique-index entry |
| TableParser.CollectTable | src/main/java/de/ozml/hsqldiffextract/parser/TableParser.java:59-64 | a CREATE TABLE line appends its fresh table, kept separate from the others, and leaves the indices alone |
| TableParser.CollectIndex | src/main/java/de/ozml/hsqldiffextract/parser/TableParser.java:65-79 | any other line adds no table; a unique-index line adds its column to its table's entry |
| TableParser.PatchOne | src/main/java/de/ozml/hsqldiffextract/parser/TableParser.java:86-95 | one round of the second loop: table k gets its indexed columns marked unique and no other table changes |
| TableParser.ReadTablesFromFile | src/main/java/de/ozml/hsqldiffextract/parser/TableParser.java:48-104 | the tables read from the script equal ReadTablesSpec: one fresh table per CREATE TABLE line, with unique indices applied when there are tables and indices |
| RowParser.MatchRowLine | src/main/java/de/ozml/hsqldiffextract/parser/RowParser.java:135-137 | a line matches the table's pattern only if it starts with "INSERT INTO <name> VALUES"; the captured data is one line of text |
| RowParser.RowLineParses | src/main/java/de/ozml/hsqldiffextract/parser/RowParser.java:135-137 | "INSERT INTO <name> VALUES", any spaces and a bracketed line of data match, with that data as the group |
| RowParser.RowLineShape | src/main/java/de/ozml/hsqldiffextract/parser/RowParser.java:135-137 | every line that matches is exactly such a line, rebuilt from its data |
| RowParser.MatchRowAt | src/main/java/de/ozml/hsqldiffextract/parser/RowParser.java:113-116 | the pattern matched at a position captures one line of text |
| RowParser.RowGroup | src/main/java/de/ozml/hsqldiffextract/parser/RowParser.java:135-137 | the greedy `(.*)\)` captures one line of text |
| RowParser.RowAtParses | src/main/java/de/ozml/hsqldiffextract/parser/RowParser.java:113-116 | the prefix, spaces, "(", a line of data, ")" and text with no ")" before its line ends match, with that data as the group |
| RowParser.RowAtShape | src/main/java/de/ozml/hsqldiffextract/parser/RowParser.java:113-116 | every match at a position is exactly such a text: the group runs to the last ")" before the line ends |
| RowParser.RowRunClose | src/main/java/de/ozml/hsqldiffextract/parser/RowParser.java:135-137 | in data, ")" and text with no ")" before its line end, the last ")" of the line is the one after the data |
| RowParser.RowRunRest | src/main/java/de/ozml/hsqldiffextract/parser/RowParser.java:135-137 | after the last ")" of a line there is no ")" before the line ends |
| RowParser.FindRowFrom | src/main/java/de/ozml/hsqldiffextract/parser/RowParser.java:113-116 | the leftmost match found from a position captures one line of text |
| RowParser.FindRowLeftmost | src/main/java/de/ozml/hsqldiffextract/parser/RowParser.java:113-116 | find reports the match at the first position from the start where the pattern matches, and nothing when it matches nowhere |
| RowParser.FindAgreesWithMatch | src/main/java/de/ozml/hsqldiffextract/parser/RowParser.java:113-116 | on a line that matches the whole pattern, find captures the same data as the full match |
| RowParser.SplitRowData | src/main/java/de/ozml/hsqldiffextract/parser/RowParser.java:145-164 | the loop cuts the data exactly as SplitRowSpec does |
| RowParser.QuoteCountSnoc | src/main/java/de/ozml/hsqldiffextract/parser/RowParser.java:154-155 | one more character adds one quote exactly when it is a single quote |
| RowParser.SplitRowFromQuoting | src/main/java/de/ozml/hsqldiffextract/parser/RowParser.java:145-164 | from any scan state, every comma left inside a value is quoted and every value but the last closes its quotes |
| RowParser.SplitRowQuoting | src/main/java/de/ozml/hsqldiffextract/parser/RowParser.java:145-164 | values are cut only at commas outside single quotes |
| RowParser.JoinSplitRowFrom | src/main/java/de/ozml/hsqldiffextract/parser/RowParser.java:145-164 | joining the values from a scan state with "," gives the remaining data back, up to a trailing comma |
| RowParser.JoinSplitRow | src/main/java/de/ozml/hsqldiffextract/parser/RowParser.java:145-164 | no value comes only from empty data, and the values joined with "," give the data back, except for an empty last value |
| RowParser.SplitRowKeepsQuotedComma | src/main/java/de/ozml/hsqldiffextract/parser/RowParser.java:150-155 | a comma between quotes stays inside its value: "1,'x,y'" gives two values |
| RowParser.ExtractedRowCoversKey | src/main/java/de/ozml/hsqldiffextract/parser/RowParser.java:110-128 | an extracted row belongs to the table, has one value per column and so covers every primary-key position |
| RowParser.ExtractRow | src/main/java/de/ozml/hsqldiffextract/parser/RowParser.java:110-128 | a row is built iff the pattern is found and the value count equals the column count |
| RowParser.LineRows | src/main/java/de/ozml/hsqldiffextract/parser/RowParser.java:70-79 | one possible row per line, in order |
| RowParser.HitsFrom | src/main/java/de/ozml/hsqldiffextract/parser/RowParser.java:70-79 | the hits are rows present at strictly increasing positions |
| RowParser.HitsFromComplete | src/main/java/de/ozml/hsqldiffextract/parser/RowParser.java:70-79 | every present row is among the hits |
| RowParser.RowHitsMeaning | src/main/java/de/ozml/hsqldiffextract/parser/RowParser.java:61-85 | a (row, line number) pair is handed on iff that line yields that row |
| RowParser.ReadRowPerLine | src/main/java/de/ozml/hsqldiffextract/parser/RowParser.java:61-85 | the loop hands on exactly the rows of the table's lines with their 0-based line numbers, in file order |
| RowParser.ReadLine | src/main/java/de/ozml/hsqldiffextract/parser/RowParser.java:71-78 | one round: the line's row, with its line number, joins the hits exactly when the line has one |
| RowParser.HitsCoverKey | src/main/java/de/ozml/hsqldiffextract/parser/RowParser.java:72-74 | every row handed on covers its table's primary key |
| RowParser.Keyed | src/main/java/de/ozml/hsqldiffextract/parser/RowParser.java:34-49 | each hit tagged with the index key of its row |
| RowParser.MapsHoldLastEntry | src/main/java/de/ozml/hsqldiffextract/parser/RowParser.java:32-52 | both maps have the keys of the entries and hold, under each key, the last entry with that key |
| RowParser.RowsAndLinesAgree | src/main/java/de/ozml/hsqldiffextract/parser/RowParser.java:32-52 | the row map and the line map have the same keys; the line recorded for a key yields exactly the row stored under it, and the row's index key is that key |
| RowParser.EveryRowLineIsKeyed | src/main/java/de/ozml/hsqldiffextract/parser/RowParser.java:47-52 | every line holding a row of the table has its key in the line map, with this line or a later one |
| RowParser.KeyedLineWins | src/main/java/de/ozml/hsqldiffextract/parser/RowParser.java:47-52 | with increasing line numbers, the line kept for a key is never earlier than any entry with that key |
| RowParser.ReadRowsFromTable | src/main/java/de/ozml/hsqldiffextract/parser/RowParser.java:32-37 | the loop builds RowsOfTable: every row of the table under its index key, later rows replacing earlier ones |
| RowParser.ReadRowLinesFromTable | src/main/java/de/ozml/hsqldiffextract/parser/RowParser.java:47-52 | the loop builds LinesOfTable: every row's line number under its index key, later lines replacing earlier ones |
| EagerRowSource.PresentKeys | src/main/java/de/ozml/hsqldiffextract/common/EagerRowSource.java:98-103 | only keys that are requested and stored survive |
| EagerRowSource.PresentKeysCount | src/main/java/de/ozml/hsqldiffextract/common/EagerRowSource.java:98-103 | a stored key keeps its multiplicity among the requested keys; an absent key is dropped |
| EagerRowSource.PresentKeysSorted | src/main/java/de/ozml/hsqldiffextract/common/EagerRowSource.java:96-103 | dropping absent keys from the sorted list leaves it sorted |
| EagerRowSource.EagerRowSource.Count | src/main/java/de/ozml/hsqldiffextract/common/EagerRowSource.java:31-34 | the number of stored keys |
| EagerRowSource.EagerRowSource.ContainsRow | src/main/java/de/ozml/hsqldiffextract/common/EagerRowSource.java:36-39 | holds iff a row is stored under the key |
| EagerRowSource.EagerRowSource.GetRow | src/main/java/de/ozml/hsqldiffextract/common/EagerRowSource.java:41-44 | the stored row when the key is present, none (Java null) otherwise |
| EagerRowSource.EagerRowSource.RequestedKeys | src/main/java/de/ozml/hsqldiffextract/common/EagerRowSource.java:94-105 | every key handed on is stored; no keys or an empty collection hand on nothing |
| EagerRowSource.EagerRowSource.GetPart | src/main/java/de/ozml/hsqldiffextract/common/EagerRowSource.java:51-60 | the rows at the sorted key positions from the start index up to start + number or the count |
| EagerRowSource.EagerRowSource.GetAllRows | src/main/java/de/ozml/hsqldiffextract/common/EagerRowSource.java:46-49 | the part from 0 spanning the count |
| EagerRowSource.EagerRowSource.GetPartMap | src/main/java/de/ozml/hsqldiffextract/common/EagerRowSource.java:62-71 | the same window as a map from key to row |
| EagerRowSource.EagerRowSource.CollectRows | src/main/java/de/ozml/hsqldiffextract/common/EagerRowSource.java:94-105 | the handler receives, in sorted order, every requested key that has a row, with that row |
| EagerRowSource.EagerRowSource.GetRows | src/main/java/de/ozml/hsqldiffextract/common/EagerRowSource.java:73-79 | the rows the handler receives, in order |
| EagerRowSource.EagerRowSource.GetRowsMap | src/main/java/de/ozml/hsqldiffextract/common/EagerRowSource.java:81-87 | every handed-on key with its row |
| EagerRowSource.EagerRowSource.KeysSortedOnce | src/main/java/de/ozml/hsqldiffextract/common/EagerRowSource.java:52-54 | the sorted key list holds every stored key once, in ascending key order |
| EagerRowSource.EagerRowSource.AllRowsInKeyOrder | src/main/java/de/ozml/hsqldiffextract/common/EagerRowSource.java:46-60 | getAllRows lists the row of every stored key exactly once, in key order |
| EagerRowSource.EagerRowSource.PartPastEnd | src/main/java/de/ozml/hsqldiffextract/common/EagerRowSource.java:55 | a window starting at or after the count is empty |
| EagerRowSource.EagerRowSource.PartsConcatenate | src/main/java/de/ozml/hsqldiffextract/common/EagerRowSource.java:51-60 | two consecutive windows cover all rows without gap or overlap |
| EagerRowSource.EagerRowSource.RowsForMeaning | src/main/java/de/ozml/hsqldiffextract/common/EagerRowSource.java:73-105 | getRows gives the stored rows of the requested keys in ascending key order; an absent key is dropped, a key requested twice gives its row twice, no keys give nothing |
| EagerRowSource.EagerRowSource.RequestedKeysMembers | src/main/java/de/ozml/hsqldiffextract/common/EagerRowSource.java:94-105 | a key is handed on iff it was requested and is stored |
| EagerRowSource.PresentKeysSnoc | src/main/java/de/ozml/hsqldiffextract/common/EagerRowSource.java:98-103 | one more key extends the present keys by that key exactly when it is stored |
| EagerRowSource.WalkRows | src/main/java/de/ozml/hsqldiffextract/common/EagerRowSource.java:55-57 | the loop collects the rows of the key list from the start index up to start + number or the list's end |
| EagerRowSource.WalkRowsMap | src/main/java/de/ozml/hsqldiffextract/common/EagerRowSource.java:66-68 | the loop collects the same window as a map |
| EagerRowSource.Window | src/main/java/de/ozml/hsqldiffextract/common/EagerRowSource.java:55-57 | the window has end - start rows, each the row of the key at its position |
| EagerRowSource.WindowMap | src/main/java/de/ozml/hsqldiffextract/common/EagerRowSource.java:66-68 | the window map holds exactly the keys at positions start up to end, each with its row |
| EagerRowSource.Handed | src/main/java/de/ozml/hsqldiffextract/common/EagerRowSource.java:98-102 | one handler call per key, with that key's row |
| EagerRowSource.HandOn | src/main/java/de/ozml/hsqldiffextract/common/EagerRowSource.java:98-103 | the loop calls the handler for exactly the stored keys of the list, in order |
| EagerRowSource.EagerRowSource.PartsSplit | src/main/java/de/ozml/hsqldiffextract/common/EagerRowSource.java:52-60 | a window and all rows after it make up the rows from its start, without gap or overlap |
| EagerRowSource.WindowSplit | src/main/java/de/ozml/hsqldiffextract/common/EagerRowSource.java:55-57 | two adjacent windows of the sorted keys make the window spanning both |
| LazyRowSource.InsertNat | src/main/java/de/ozml/hsqldiffextract/common/LazyRowRource.java:125 | inserting a line number into an ascending list keeps it ascending and adds exactly that number |
| LazyRowSource.SortNats | src/main/java/de/ozml/hsqldiffextract/common/LazyRowRource.java:125 | the entries' line numbers in ascending order: sorted and a permutation of the input |
| LazyRowSource.SortedNatsUnique | src/main/java/de/ozml/hsqldiffextract/common/LazyRowRource.java:125 | two ascending arrangements of the same line numbers are equal, so the sort's tie order does not matter |
| LazyRowSource.LinesOf | src/main/java/de/ozml/hsqldiffextract/common/LazyRowRource.java:128 | the line number of each entry, in list order |
| LazyRowSource.ReadPositions | src/main/java/de/ozml/hsqldiffextract/common/LazyRowRource.java:126-135 | one reader position per requested line number |
| LazyRowSource.Somes | src/main/java/de/ozml/hsqldiffextract/common/LazyRowRource.java:137-139 | only the rows that parsed are handed on, so never more than were read |
| LazyRowSource.ParsedAt | src/main/java/de/ozml/hsqldiffextract/common/LazyRowRource.java:135-136 | the parse result of the line at each reader position, or none past the end of the file |
| LazyRowSource.Collected | src/main/java/de/ozml/hsqldiffextract/common/LazyRowRource.java:121-146 | collectRows hands on at most one row per entry |
| LazyRowSource.ReadRowAt | src/main/java/de/ozml/hsqldiffextract/common/LazyRowRource.java:135-136 | reading the line at a reader position and parsing it with extractRow |
| LazyRowSource.ReadEntry | src/main/java/de/ozml/hsqldiffextract/common/LazyRowRource.java:128-136 | one round: skips step lines when the step exceeds 1, reads one line, parses it, and leaves the reader just past that line |
| LazyRowSource.CollectRows | src/main/java/de/ozml/hsqldiffextract/common/LazyRowRource.java:121-146 | the loop hands on exactly Collected: the rows parsed at the reader positions the counter and the reader actually reach |
| LazyRowSource.ReadSortedLines | src/main/java/de/ozml/hsqldiffextract/common/LazyRowRource.java:126-140 | the walk over the sorted line numbers hands on the rows parsed at the reader positions the skip arithmetic reaches, in that order |
| LazyRowSource.ConsecutiveLinesReadExactly | src/main/java/de/ozml/hsqldiffextract/common/LazyRowRource.java:126-135 | once a line has been read, line numbers that follow each other without a gap are read exactly |
| LazyRowSource.ConsecutiveRunReadExactly | src/main/java/de/ozml/hsqldiffextract/common/LazyRowRource.java:126-135 | a gap-free run of line numbers not starting at 1 is read exactly |
| LazyRowSource.GapReadsOneLineLate | src/main/java/de/ozml/hsqldiffextract/common/LazyRowRource.java:129-135 | after a line was read, a gap of more than one line makes the reader land one line past the wanted one |
| LazyRowSource.FirstLineOneReadsLineZero | src/main/java/de/ozml/hsqldiffextract/common/LazyRowRource.java:126-135 | a first line number of 1 is not skipped to: line 0 is read instead |
| LazyRowSource.GapExample | src/main/java/de/ozml/hsqldiffextract/common/LazyRowRource.java:126-135 | asking for lines 0 and 2 reads lines 0 and 3 |
| LazyRowSource.GapCountShift | src/main/java/de/ozml/hsqldiffextract/common/LazyRowRource.java:127-133 | the gaps up to a line number are the first gap plus the gaps of the numbers after the first |
| LazyRowSource.LaggedPosition | src/main/java/de/ozml/hsqldiffextract/common/LazyRowRource.java:127-135 | a reader some lines off the line after the counter falls one line further behind at every gap and never catches up |
| LazyRowSource.ReaderLag | src/main/java/de/ozml/hsqldiffextract/common/LazyRowRource.java:125-135 | for strictly ascending line numbers, the i-th is read at its number, plus the gaps up to it, minus one when the first number is 1 |
| LazyRowSource.LagBuildsUp | src/main/java/de/ozml/hsqldiffextract/common/LazyRowRource.java:126-135 | lines 0, 2, 4 read 0, 3, 6; lines 0, 2, 3 read 0, 3, 4; lines 1, 3 read 0, 3 |
| LazyRowSource.InsertRow | src/main/java/de/ozml/hsqldiffextract/common/LazyRowRource.java:76-96 | inserting a row into a key-sorted list keeps it sorted and adds exactly that row |
| LazyRowSource.SortRowsByKey | src/main/java/de/ozml/hsqldiffextract/common/LazyRowRource.java:76-96 | the rows sorted by index key, as a permutation of the input |
| LazyRowSource.InsertRowWithKey | src/main/java/de/ozml/hsqldiffextract/common/LazyRowRource.java:76-96 | an inserted row goes in front of every row with its key, and no other row moves past another |
| LazyRowSource.InsertRowPassing | src/main/java/de/ozml/hsqldiffextract/common/LazyRowRource.java:76-96 | a row moves past only a row with a smaller key, so rows with its key keep their order |
| LazyRowSource.SortRowsByKeyStable | src/main/java/de/ozml/hsqldiffextract/common/LazyRowRource.java:76-96 | the sort is stable: for every key, the rows with that key keep their order |
| LazyRowSource.KeyedRows | src/main/java/de/ozml/hsqldiffextract/common/LazyRowRource.java:86-109 | each row under its index key: the keys are exactly the rows' keys, and each value is one of the rows with that key |
| LazyRowSource.SomesFor | src/main/java/de/ozml/hsqldiffextract/common/LazyRowRource.java:136-139 | rows parsed for the table belong to it and cover its key |
| LazyRowSource.ParsedAtFor | src/main/java/de/ozml/hsqldiffextract/common/LazyRowRource.java:136 | every row extractRow yields belongs to the table, has one value per column and covers its key |
| LazyRowSource.CollectedFor | src/main/java/de/ozml/hsqldiffextract/common/LazyRowRource.java:121-146 | every row handed on belongs to the table and covers its primary key |
| LazyRowSource.EntriesFor | src/main/java/de/ozml/hsqldiffextract/common/LazyRowRource.java:153-156 | each key with its stored line number, in key-list order |
| LazyRowSource.EntriesForOf | src/main/java/de/ozml/hsqldiffextract/common/LazyRowRource.java:152-170 | entries for distinct stored keys are the entries of those keys, each once |
| LazyRowSource.LinesOfPermutation | src/main/java/de/ozml/hsqldiffextract/common/LazyRowRource.java:125 | rearranging the entries rearranges their line numbers the same way |
| LazyRowSource.DistinctEntriesCount | src/main/java/de/ozml/hsqldiffextract/common/LazyRowRource.java:152-170 | with distinct keys, every entry occurs once |
| LazyRowSource.EntriesOfSameLines | src/main/java/de/ozml/hsqldiffextract/common/LazyRowRource.java:152-170 | two entry lists for the same keys carry the same line numbers in some order |
| LazyRowSource.CollectedByLines | src/main/java/de/ozml/hsqldiffextract/common/LazyRowRource.java:121-146 | collectRows hands on the same rows for any order of the same line numbers, since it sorts them first |
| LazyRowSource.SortedEntriesFor | src/main/java/de/ozml/hsqldiffextract/common/LazyRowRource.java:152-157 | the stored entries of the chosen keys in key order, each once |
| LazyRowSource.StoredKeysSortedOnce | src/main/java/de/ozml/hsqldiffextract/common/LazyRowRource.java:152-157 | the sorted stored keys hold each key once |
| LazyRowSource.SortedCollected | src/main/java/de/ozml/hsqldiffextract/common/LazyRowRource.java:75-96 | the rows read for the entries, sorted by key; each belongs to the table and has one value per column |
| LazyRowSource.KeyedCollected | src/main/java/de/ozml/hsqldiffextract/common/LazyRowRource.java:86-109 | the rows read for the entries, each under its own index key |
| LazyRowSource.MapByKey | src/main/java/de/ozml/hsqldiffextract/common/LazyRowRource.java:86-109 | the handler's loop builds the same map as KeyedRows |
| LazyRowSource.FilterEntries | src/main/java/de/ozml/hsqldiffextract/common/LazyRowRource.java:164-170 | keeps exactly the stored entries whose key is requested, each once, in the map's own order |
| LazyRowSource.LazyRowSource.Count | src/main/java/de/ozml/hsqldiffextract/common/LazyRowRource.java:43-46 | the number of stored line numbers |
| LazyRowSource.LazyRowSource.ContainsRow | src/main/java/de/ozml/hsqldiffextract/common/LazyRowRource.java:48-51 | holds iff a line number is stored under the key |
| LazyRowSource.LazyRowSource.ReadLineFromDataFile | src/main/java/de/ozml/hsqldiffextract/common/LazyRowRource.java:177-183 | the line at that number, or none (Java null) past the end of the file |
| LazyRowSource.LazyRowSource.RowFor | src/main/java/de/ozml/hsqldiffextract/common/LazyRowRource.java:53-63 | no row for an unknown key; a row returned belongs to the table and covers its key |
| LazyRowSource.LazyRowSource.GetRow | src/main/java/de/ozml/hsqldiffextract/common/LazyRowRource.java:53-63 | looks the line number up, reads that line and parses it |
| LazyRowSource.LazyRowSource.SortedEntries | src/main/java/de/ozml/hsqldiffextract/common/LazyRowRource.java:152-157 | the stored entries in key order, one per stored key |
| LazyRowSource.LazyRowSource.SortedEntryList | src/main/java/de/ozml/hsqldiffextract/common/LazyRowRource.java:152-157 | computes the stored entries sorted by key |
| LazyRowSource.LazyRowSource.EndIndex | src/main/java/de/ozml/hsqldiffextract/common/LazyRowRource.java:73-84 | the window end is start + number, cut at the count |
| LazyRowSource.LazyRowSource.Part | src/main/java/de/ozml/hsqldiffextract/common/LazyRowRource.java:70-79 | the window's rows: sorted by key, at most one per entry of the window, each of the table's width |
| LazyRowSource.LazyRowSource.PartMap | src/main/java/de/ozml/hsqldiffextract/common/LazyRowRource.java:81-89 | the window's rows, each under its own index key |
| LazyRowSource.LazyRowSource.GetPart | src/main/java/de/ozml/hsqldiffextract/common/LazyRowRource.java:70-79 | the sorted entries of the window, read, then sorted by key |
| LazyRowSource.LazyRowSource.GetAllRows | src/main/java/de/ozml/hsqldiffextract/common/LazyRowRource.java:65-68 | the window from 0 spanning the count |
| LazyRowSource.LazyRowSource.GetPartMap | src/main/java/de/ozml/hsqldiffextract/common/LazyRowRource.java:81-89 | the window's entries, read and put under their keys |
| LazyRowSource.LazyRowSource.RequestedEntries | src/main/java/de/ozml/hsqldiffextract/common/LazyRowRource.java:164-170 | the stored entries of the requested keys |
| LazyRowSource.LazyRowSource.RowsFor | src/main/java/de/ozml/hsqldiffextract/common/LazyRowRource.java:91-99 | the rows read for the requested keys, sorted by key, each of the table's width |
| LazyRowSource.LazyRowSource.RowsMapFor | src/main/java/de/ozml/hsqldiffextract/common/LazyRowRource.java:105-112 | the rows read for the requested keys, each under its own index key |
| LazyRowSource.LazyRowSource.FilteredReadAsRequested | src/main/java/de/ozml/hsqldiffextract/common/LazyRowRource.java:121-170 | the entries the filter yields, in whatever order the map gives them, are read as the same rows |
| LazyRowSource.LazyRowSource.GetRows | src/main/java/de/ozml/hsqldiffextract/common/LazyRowRource.java:91-99 | the filtered entries, read, then sorted by key |
| LazyRowSource.LazyRowSource.GetRowsMap | src/main/java/de/ozml/hsqldiffextract/common/LazyRowRource.java:105-112 | the filtered entries, read and put under their keys |
| LazyRowSource.LazyRowSource.RowsForSameStoredKeys | src/main/java/de/ozml/hsqldiffextract/common/LazyRowRource.java:91-112 | the order, repetitions and unknown members of the requested keys do not change what getRows and getRowsMap read |
| LazyRowSource.SameStoredKeysSameRows | src/main/java/de/ozml/hsqldiffextract/common/LazyRowRource.java:121-170 | key sets that pick the same stored keys are read as the same rows |
| LazyRowSource.LazyAgreesWithEager | src/main/java/de/ozml/hsqldiffextract/common/LazyRowRource.java:43-63 | a lazy source over a script's line map and an eager source over its row map agree on containsRow, count and getRow |
| RowSource.WindowSortedByKey | src/main/java/de/ozml/hsqldiffextract/common/RowSource.java:43-56 | a window of the sorted key list, read from rows stored under their own keys, is sorted by key |
| RowSource.RowSource.Count | src/main/java/de/ozml/hsqldiffextract/common/RowSource.java:22-26 | the number of stored keys, in either mode |
| RowSource.RowSource.TableName | src/main/java/de/ozml/hsqldiffextract/common/RowSource.java:20 | the name reported is that of the table the source holds rows of, in either mode |
| RowSource.RowSource.ContainsRow | src/main/java/de/ozml/hsqldiffextract/common/RowSource.java:28-33 | holds iff the key is stored, in either mode |
| RowSource.RowSource.RowFor | src/main/java/de/ozml/hsqldiffextract/common/RowSource.java:35-41 | no row for a key that is not stored |
| RowSource.RowSource.GetRow | src/main/java/de/ozml/hsqldiffextract/common/RowSource.java:35-41 | dispatches getRow to the eager or the lazy source |
| RowSource.RowSource.GetPart | src/main/java/de/ozml/hsqldiffextract/common/RowSource.java:49-56 | dispatches getPart to the eager or the lazy source |
| RowSource.RowSource.GetAllRows | src/main/java/de/ozml/hsqldiffextract/common/RowSource.java:43-47 | dispatches getAllRows: the window from 0 over the count |
| RowSource.RowSource.GetPartMap | src/main/java/de/ozml/hsqldiffextract/common/RowSource.java:58-65 | dispatches getPartMap to the eager or the lazy source |
| RowSource.RowSource.GetRows | src/main/java/de/ozml/hsqldiffextract/common/RowSource.java:67-72 | dispatches getRows to the eager or the lazy source |
| RowSource.RowSource.GetRowsMap | src/main/java/de/ozml/hsqldiffextract/common/RowSource.java:74-79 | dispatches getRowsMap to the eager or the lazy source |
| RowSource.RowSource.WindowWithinCount | src/main/java/de/ozml/hsqldiffextract/common/RowSource.java:49-56 | every window that starts within the source with a non-negative size is accepted in both modes |
| RowSource.RowSource.PartSortedByKey | src/main/java/de/ozml/hsqldiffextract/common/RowSource.java:43-56 | getPart and getAllRows return rows sorted by key, as the interface promises |
| RowSource.RowSource.PartOfTable | src/main/java/de/ozml/hsqldiffextract/common/RowSource.java:49-56 | getPart hands out rows of the source's table with a value for every column |
| RowSource.RowSource.PartMapOfTable | src/main/java/de/ozml/hsqldiffextract/common/RowSource.java:58-65 | getPartMap hands out rows of the source's table, each under its own index key |
| RowSource.RowSource.RowsMapOfTable | src/main/java/de/ozml/hsqldiffextract/common/RowSource.java:74-79 | getRowsMap hands out rows of the source's table, each under its own index key |
| RowSource.RowSource.RowsMapForSameKeys | src/main/java/de/ozml/hsqldiffextract/common/RowSource.java:74-79 | getRowsMap depends only on which keys are requested, not on their order or repetitions |
| RowSource.ScriptRowsKeyedByIndex | src/main/java/de/ozml/hsqldiffextract/common/RowSource.java:9-13 | the row map of a script stores every row, of the table's width, under its own index key |
| Diff.Clause | src/main/java/de/ozml/hsqldiffextract/DiffProcessor.java:168-179 | the clause is empty exactly when there are no items |
| Diff.ClauseSnoc | src/main/java/de/ozml/hsqldiffextract/DiffProcessor.java:168-179 | each further item is preceded by a space when it is the first and by the separator otherwise |
| Diff.Conditions | src/main/java/de/ozml/hsqldiffextract/DiffProcessor.java:176-179 | one condition per key column, pairing the key column's name with the value at the key's own position in the key list |
| Diff.SetItemsEmpty | src/main/java/de/ozml/hsqldiffextract/DiffProcessor.java:167-173 | the SET list is empty iff the original and changed values agree on every column |
| Diff.SetItemsNameDiffering | src/main/java/de/ozml/hsqldiffextract/DiffProcessor.java:168-172 | an item is in the SET list iff it is `name=value` for a column whose values differ, carrying the changed value |
| Diff.InsertListsColumnsAndValues | src/main/java/de/ozml/hsqldiffextract/DiffProcessor.java:147-153 | the INSERT for a two-column row lists the table name, the column names and the values, comma-separated |
| Diff.InsertQuery | src/main/java/de/ozml/hsqldiffextract/DiffProcessor.java:147-153 | the INSERT starts with the table name and its bracketed column names followed by VALUES ( and ends with ); |
| Diff.InsertQueryValues | src/main/java/de/ozml/hsqldiffextract/DiffProcessor.java:147-153 | two rows of one table get the same INSERT iff their comma-joined values are the same |
| Diff.SetItemsSameDifferences | src/main/java/de/ozml/hsqldiffextract/DiffProcessor.java:167-173 | the SET list depends on the original values only through which columns differ |
| Diff.UpdateDependsOnDifferences | src/main/java/de/ozml/hsqldiffextract/DiffProcessor.java:162-183 | the UPDATE reads the original row only to tell which columns differ: originals differing in the same columns give the same statement |
| Diff.DeleteReadsLeadingValues | src/main/java/de/ozml/hsqldiffextract/DiffProcessor.java:190-202 | the DELETE reads only the row's first values, one per key column: rows agreeing there get the same statement |
| Diff.AppendWhere | src/main/java/de/ozml/hsqldiffextract/DiffProcessor.java:176-180 | the WHERE loop appends the key conditions joined by " AND " after a leading space |
| Diff.AppendCondition | src/main/java/de/ozml/hsqldiffextract/DiffProcessor.java:177-179 | one round of the WHERE loop appends the next key condition, after " AND " unless it is the first |
| Diff.BuildSetList | src/main/java/de/ozml/hsqldiffextract/DiffProcessor.java:167-173 | the SET loop builds the comma-joined list of differing columns with their changed values |
| Diff.BuildUpdateQuery | src/main/java/de/ozml/hsqldiffextract/DiffProcessor.java:162-183 | buildUpdateQueryString yields UPDATE, the SET list, then the key conditions and a semicolon |
| Diff.BuildDeleteQuery | src/main/java/de/ozml/hsqldiffextract/DiffProcessor.java:190-202 | buildDeleteQueryString yields DELETE FROM with the key conditions and a semicolon |
| Diff.UnequalRowsSetSomething | src/main/java/de/ozml/hsqldiffextract/DiffProcessor.java:116-117 | rows of the same width that are not equal get a non-empty SET list |
| Diff.LeadingKeyConditionsMatch | src/main/java/de/ozml/hsqldiffextract/DiffProcessor.java:195-198 | when the key columns come first, each condition pairs a key column with that column's own value |
| Diff.TrailingKeyTakesFirstValue | src/main/java/de/ozml/hsqldiffextract/DiffProcessor.java:195-198 | with the key in the second column, DELETE pairs the key column's name with the first column's value (value[i], not value[pkIndices[i]]) |
| Diff.AbsentRows | src/main/java/de/ozml/hsqldiffextract/DiffProcessor.java:88-93 | the rows whose key the other source lacks are a subsequence no longer than the input, each covering its key |
| Diff.AbsentRowsSnoc | src/main/java/de/ozml/hsqldiffextract/DiffProcessor.java:88-93 | one more row is kept iff the other source lacks its key |
| Diff.AbsentRowsMembers | src/main/java/de/ozml/hsqldiffextract/DiffProcessor.java:88-93 | a row is selected iff it is among the rows and the other source lacks its index key |
| Diff.AbsentRowsConcat | src/main/java/de/ozml/hsqldiffextract/DiffProcessor.java:87-94 | selecting over consecutive windows is selecting over their concatenation |
| Diff.AbsentFrom | src/main/java/de/ozml/hsqldiffextract/DiffProcessor.java:87-94 | the rows selected from position i on, window by window, all cover their key |
| Diff.InsertQueries | src/main/java/de/ozml/hsqldiffextract/DiffProcessor.java:88-92 | one INSERT per selected row |
| Diff.DeleteQueries | src/main/java/de/ozml/hsqldiffextract/DiffProcessor.java:133-137 | one DELETE per selected row |
| Diff.UpdatesInSnoc | src/main/java/de/ozml/hsqldiffextract/DiffProcessor.java:109-120 | visiting one more original key appends that key's UPDATE, if its row differs from its counterpart |
| Diff.WindowReady | src/main/java/de/ozml/hsqldiffextract/DiffProcessor.java:106-116 | rows of a window drawn from two diffable sources can all be compared |
| Diff.KeyList | src/main/java/de/ozml/hsqldiffextract/DiffProcessor.java:107-109 | the visiting list holds exactly the window's keys |
| Diff.VisitOrderIrrelevant | src/main/java/de/ozml/hsqldiffextract/DiffProcessor.java:109-120 | any two visit orders of the keys write the same UPDATEs, rearranged |
| Diff.WindowOrderIrrelevant | src/main/java/de/ozml/hsqldiffextract/DiffProcessor.java:105-120 | the UPDATEs of a window do not depend on the HashMap's iteration order, up to rearrangement |
| Diff.DiffProcessor.constructor | src/main/java/de/ozml/hsqldiffextract/DiffProcessor.java:34-37 | keeps table name and output directory; no writer yet, nothing written |
| Diff.DiffProcessor.WriteLine | src/main/java/de/ozml/hsqldiffextract/DiffProcessor.java:209-214 | opens the writer if needed and appends one line |
| Diff.DiffProcessor.CloseWriter | src/main/java/de/ozml/hsqldiffextract/DiffProcessor.java:219-225 | closes the writer only if one was opened; output unchanged |
| Diff.DiffProcessor.WriteLines | src/main/java/de/ozml/hsqldiffextract/DiffProcessor.java:88-93 | appends the lines in order, opening the writer iff there is at least one |
| Diff.DiffProcessor.CheckCreated | src/main/java/de/ozml/hsqldiffextract/DiffProcessor.java:85-95 | appends an INSERT for every changed row, window by window, whose key the original source lacks |
| Diff.DiffProcessor.CheckUpdated | src/main/java/de/ozml/hsqldiffextract/DiffProcessor.java:103-122 | appends, for each window of original rows, the UPDATEs of its rows whose changed counterpart differs, in some visit order |
| Diff.DiffProcessor.CheckDeleted | src/main/java/de/ozml/hsqldiffextract/DiffProcessor.java:130-140 | appends a DELETE for every original row, window by window, whose key the changed source lacks |
| Diff.CreatedWindow | src/main/java/de/ozml/hsqldiffextract/DiffProcessor.java:88-93 | one window of checkCreated: the INSERTs of its rows missing from the original, appended to those of the earlier windows |
| Diff.UpdatedWindow | src/main/java/de/ozml/hsqldiffextract/DiffProcessor.java:106-120 | one window of checkUpdated: its UPDATE segment, appended to those of the earlier windows |
| Diff.DeletedWindow | src/main/java/de/ozml/hsqldiffextract/DiffProcessor.java:133-138 | one window of checkDeleted: the DELETEs of its rows missing from the changed source, appended to those of the earlier windows |
| Diff.DiffProcessor.Process | src/main/java/de/ozml/hsqldiffextract/DiffProcessor.java:62-77 | INSERTs, then UPDATEs, then DELETEs; the writer is closed at the end iff it was opened |
| Diff.CreatedLines | src/main/java/de/ozml/hsqldiffextract/DiffProcessor.java:87-94 | the window loop of checkCreated produces the INSERTs of all absent changed rows |
| Diff.DeletedLines | src/main/java/de/ozml/hsqldiffextract/DiffProcessor.java:132-139 | the window loop of checkDeleted produces the DELETEs of all absent original rows |
| Diff.UpdatedLines | src/main/java/de/ozml/hsqldiffextract/DiffProcessor.java:105-121 | the window loop of checkUpdated produces one UPDATE segment per window starting below the count |
| Diff.WindowUpdateLines | src/main/java/de/ozml/hsqldiffextract/DiffProcessor.java:106-120 | one window's UPDATEs, for the window's original rows looked up among the changed rows of the same keys |
| Diff.AbsentFromStep | src/main/java/de/ozml/hsqldiffextract/DiffProcessor.java:87-88 | the window at i contributes its absent rows ahead of those from i + 5000 on |
| Diff.InsertsFor | src/main/java/de/ozml/hsqldiffextract/DiffProcessor.java:88-93 | the INSERTs of one window, row by row |
| Diff.DeletesFor | src/main/java/de/ozml/hsqldiffextract/DiffProcessor.java:133-138 | the DELETEs of one window, row by row |
| Diff.UpdatesFor | src/main/java/de/ozml/hsqldiffextract/DiffProcessor.java:109-120 | visits each original key of a window once and writes its UPDATE if the rows differ |
| Diff.NoneAbsent | src/main/java/de/ozml/hsqldiffextract/DiffProcessor.java:88-93 | rows whose keys the other source all stores give no INSERT or DELETE |
| Diff.EagerPartStored | src/main/java/de/ozml/hsqldiffextract/common/EagerRowSource.java:52-60 | every row of an eager window is stored under its own index key |
| Diff.SelfAbsentFrom | src/main/java/de/ozml/hsqldiffextract/DiffProcessor.java:85-95 | an eager source compared with itself lacks none of its own keys, so it gets no INSERT or DELETE |
| Diff.NoUpdates | src/main/java/de/ozml/hsqldiffextract/DiffProcessor.java:109-120 | keys whose original row is the very row the changed map holds write no UPDATE |
| Diff.SelfWindowSilent | src/main/java/de/ozml/hsqldiffextract/DiffProcessor.java:105-120 | a window of an eager source compared with itself writes no UPDATE, in any visit order |
| Diff.SelfSegmentsEmpty | src/main/java/de/ozml/hsqldiffextract/DiffProcessor.java:103-122 | all UPDATE segments of an eager source compared with itself are empty |
| Diff.SelfDiffSilent | src/main/java/de/ozml/hsqldiffextract/DiffProcessor.java:62-77 | process on an eager source and itself writes nothing, so the writer is never opened |
| Diff.AbsentFromPast | src/main/java/de/ozml/hsqldiffextract/DiffProcessor.java:87 | no window starts at or past the count |
| Diff.EagerSplits | src/main/java/de/ozml/hsqldiffextract/common/EagerRowSource.java:52-60 | each window of an eager source followed by the rows after it makes up the rows from its start |
| Diff.AbsentFromWhole | src/main/java/de/ozml/hsqldiffextract/DiffProcessor.java:87-94 | where windows split off cleanly, the windows from i on select what one pass over the rows from i selects |
| Diff.WholeLast | src/main/java/de/ozml/hsqldiffextract/DiffProcessor.java:87-94 | the last window selects everything that is left |
| Diff.WholeStep | src/main/java/de/ozml/hsqldiffextract/DiffProcessor.java:87-94 | a window's selection followed by the selection from the next window is the selection from the window on |
| Diff.SelectConcat | src/main/java/de/ozml/hsqldiffextract/DiffProcessor.java:88-93 | selecting over two pieces is selecting over their concatenation |
| Diff.EagerWindowsCoverAll | src/main/java/de/ozml/hsqldiffextract/DiffProcessor.java:87-94 | for an eager source the windows of 5000 look at every key-sorted row once, in key order: the selection equals one pass over all rows |
| Workflow.Included | src/main/java/de/ozml/hsqldiffextract/Workflow.java:114-116 | the inclusion filter keeps a subsequence of the tables |
| Workflow.Excluded | src/main/java/de/ozml/hsqldiffextract/Workflow.java:122-124 | the exclusion filter keeps a subsequence of the tables |
| Workflow.IncludedMembers | src/main/java/de/ozml/hsqldiffextract/Workflow.java:114-116 | a table survives inclusion iff its lower-cased name is listed |
| Workflow.ExcludedMembers | src/main/java/de/ozml/hsqldiffextract/Workflow.java:122-124 | a table survives exclusion iff its lower-cased name is not listed |
| Workflow.FiltersPartition | src/main/java/de/ozml/hsqldiffextract/Workflow.java:114-124 | inclusion and exclusion by the same list split the tables between them, as a multiset |
| Workflow.SelectedMembers | src/main/java/de/ozml/hsqldiffextract/Workflow.java:70-78 | a table is worked on iff it is listed for inclusion, or there is no inclusion filter and it is not listed for exclusion |
| Workflow.MatchIndices | src/main/java/de/ozml/hsqldiffextract/Workflow.java:86-87 | the changed positions paired with one original table carry its name, in ascending order |
| Workflow.PairIndices | src/main/java/de/ozml/hsqldiffextract/Workflow.java:85-87 | every visited pair has equal names, in the order of the nested loops |
| Workflow.MatchIndicesComplete | src/main/java/de/ozml/hsqldiffextract/Workflow.java:86-87 | every changed table of the same name is paired with the original table |
| Workflow.PairIndicesComplete | src/main/java/de/ozml/hsqldiffextract/Workflow.java:85-87 | every pair of equally named tables is visited |
| Workflow.SourceFor | src/main/java/de/ozml/hsqldiffextract/Workflow.java:132-138 | the source of either mode is consistent, belongs to the table and reports its name |
| Workflow.ModesAgree | src/main/java/de/ozml/hsqldiffextract/Workflow.java:132-138 | lazy and eager sources of a table store the same keys and count the same rows |
| Workflow.CountIsRowCount | src/main/java/de/ozml/hsqldiffextract/Workflow.java:93-95 | either mode counts the table's rows in the script alike |
| Workflow.PairRunDecided | src/main/java/de/ozml/hsqldiffextract/Workflow.java:95-101 | a pair is skipped exactly when one side holds no rows, and its outcome carries the original table's name |
| Workflow.PairSkipped | src/main/java/de/ozml/hsqldiffextract/Workflow.java:95-101 | a side without rows skips the pair |
| Workflow.PairUnmodelled | src/main/java/de/ozml/hsqldiffextract/Workflow.java:95-97 | both sides with rows and a wider changed table lead to the outcome the model does not cover |
| Workflow.PairDone | src/main/java/de/ozml/hsqldiffextract/Workflow.java:95-98 | both sides with rows and a changed table no wider than the original write INSERTs, UPDATEs and DELETEs into the table's own output |
| Workflow.RunsSnoc | src/main/java/de/ozml/hsqldiffextract/Workflow.java:85-104 | one more visited pair adds its outcome at the end |
| Workflow.RunsAppend | src/main/java/de/ozml/hsqldiffextract/Workflow.java:85-104 | the outcomes of consecutive passes of the loop concatenate |
| Workflow.RunsAt | src/main/java/de/ozml/hsqldiffextract/Workflow.java:85-104 | every visited pair's outcome is the one the run decides for it |
| Workflow.TableDefs | src/main/java/de/ozml/hsqldiffextract/Workflow.java:62-66 | the value of every table object, in order |
| Workflow.Workflow.constructor | src/main/java/de/ozml/hsqldiffextract/Workflow.java:30-35 | keeps the scripts, the output directory and the mode; no filters yet |
| Workflow.Workflow.SetInclusionFilter | src/main/java/de/ozml/hsqldiffextract/Workflow.java:41-43 | stores the inclusion filter |
| Workflow.Workflow.SetExclusionFilter | src/main/java/de/ozml/hsqldiffextract/Workflow.java:49-51 | stores the exclusion filter |
| Workflow.Workflow.ApplyInclusionFilter | src/main/java/de/ozml/hsqldiffextract/Workflow.java:114-116 | removeIf leaves the tables the inclusion filter keeps |
| Workflow.Workflow.ApplyExclusionFilter | src/main/java/de/ozml/hsqldiffextract/Workflow.java:122-124 | removeIf leaves the tables the exclusion filter keeps |
| Workflow.Workflow.BuildRowSource | src/main/java/de/ozml/hsqldiffextract/Workflow.java:132-138 | line numbers in lazy mode, parsed rows otherwise |
| Workflow.Workflow.RunPair | src/main/java/de/ozml/hsqldiffextract/Workflow.java:87-101 | one equally named pair: skipped unless both sides hold rows, otherwise a fresh processor's full output |
| Workflow.Workflow.DecidePair | src/main/java/de/ozml/hsqldiffextract/Workflow.java:91-101 | the pair's outcome is the one the run decides |
| Workflow.Workflow.SelectTables | src/main/java/de/ozml/hsqldiffextract/Workflow.java:62-78 | the tables of both scripts after the filter that applies |
| Workflow.Workflow.ProcessRow | src/main/java/de/ozml/hsqldiffextract/Workflow.java:86-103 | the inner loop gives one outcome per changed table of the same name, in order |
| Workflow.Workflow.Start | src/main/java/de/ozml/hsqldiffextract/Workflow.java:53-108 | one outcome per equally named pair of the selected tables, in the order of the nested loops |
| Arg.Argument.ToString | src/main/java/de/ozml/hsqldiffextract/arg/Argument.java:92-95 | the text of an argument is its definition, a non-empty word |
| Arg.AllListed | src/main/java/de/ozml/hsqldiffextract/arg/Argument.java:11-18 | every argument is among the enum's values |
| Arg.DefinitionsDistinct | src/main/java/de/ozml/hsqldiffextract/arg/Argument.java:11-18 | no two arguments share a definition |
| Arg.FlagsAre | src/main/java/de/ozml/hsqldiffextract/arg/Argument.java:11-18 | exactly interactive and lazy are flags, and no flag is required |
| Arg.RequiredListIs | src/main/java/de/ozml/hsqldiffextract/arg/Argument.java:28-37 | the required arguments are oFile, cFile and oDir, in declaration order |
| Arg.GetRequiredList | src/main/java/de/ozml/hsqldiffextract/arg/Argument.java:28-37 | the loop collects the required arguments in declaration order |
| Arg.FindDefinition | src/main/java/de/ozml/hsqldiffextract/arg/Argument.java:44-52 | a found argument carries the definition; none is found only when no argument does |
| Arg.LookupMeans | src/main/java/de/ozml/hsqldiffextract/arg/Argument.java:44-52 | lookup by definition yields an argument iff that argument has the definition |
| Arg.GetArgument | src/main/java/de/ozml/hsqldiffextract/arg/Argument.java:44-52 | the loop returns the argument with the definition, or none |
| Arg.MatchArg | src/main/java/de/ozml/hsqldiffextract/arg/ArgumentProcessor.java:52-58 | a matching argument is a dash, a word, and optionally = and a value without line breaks |
| Arg.MatchArgText | src/main/java/de/ozml/hsqldiffextract/arg/ArgumentProcessor.java:52-58 | matching the text of a word and value recovers both |
| Arg.ParseArguments | src/main/java/de/ozml/hsqldiffextract/arg/ArgumentProcessor.java:47-71 | the loop builds the map of known arguments, later entries overwriting earlier ones |
| Arg.ParsedKnown | src/main/java/de/ozml/hsqldiffextract/arg/ArgumentProcessor.java:58-66 | every stored key is a known definition, and a flag's value is its own name |
| Arg.ParsedKeySource | src/main/java/de/ozml/hsqldiffextract/arg/ArgumentProcessor.java:51-67 | every stored key comes from some recognised argument |
| Arg.ParsedKeyPresent | src/main/java/de/ozml/hsqldiffextract/arg/ArgumentProcessor.java:51-67 | every recognised argument stores its key |
| Arg.ParsedLastWins | src/main/java/de/ozml/hsqldiffextract/arg/ArgumentProcessor.java:51-67 | the stored value is that of the last occurrence of the key |
| Arg.RemoveAll | src/main/java/de/ozml/hsqldiffextract/arg/ArgumentProcessor.java:78-82 | removes exactly the listed keys and keeps the other values |
| Arg.RequiredDefinitionsAre | src/main/java/de/ozml/hsqldiffextract/arg/ArgumentProcessor.java:33-35 | the keys removed in an interactive run are oFile, cFile and oDir |
| Arg.Build | src/main/java/de/ozml/hsqldiffextract/arg/ArgumentProcessor.java:24-40 | the bag holds the parse of the property file when pFile is given, else the parse without the required keys when interactive, else the parse |
| Arg.InteractiveDropsRequired | src/main/java/de/ozml/hsqldiffextract/arg/ArgumentProcessor.java:32-37 | without pFile, an interactive run keeps every parsed key except oFile, cFile and oDir, values unchanged, and stays interactive |
| Arg.NormalizeNormalized | src/main/java/de/ozml/hsqldiffextract/arg/ArgumentBag.java:112-114 | a normalised entry has no surrounding blanks and no upper-case letters |
| Arg.NormalizeFixes | src/main/java/de/ozml/hsqldiffextract/arg/ArgumentBag.java:112-114 | normalising a normalised entry changes nothing |
| Arg.TableListEntries | src/main/java/de/ozml/hsqldiffextract/arg/ArgumentBag.java:106-115 | a non-blank list yields one normalised entry per comma-separated piece, trailing empty pieces dropped |
| Arg.SplitOfJoin | src/main/java/de/ozml/hsqldiffextract/arg/ArgumentBag.java:112 | splitting the comma-join of comma-free names, the last non-empty, gives the names back |
| Arg.TableListOfJoin | src/main/java/de/ozml/hsqldiffextract/arg/ArgumentBag.java:106-115 | a comma-joined list of normalised names reads back as those names |
| Arg.FirstValid | src/main/java/de/ozml/hsqldiffextract/arg/ArgumentBag.java:182-194 | the accepted answer is a trimmed answer that passes the check; none is accepted iff no trimmed answer passes |
| Arg.CollectOnce | src/main/java/de/ozml/hsqldiffextract/arg/ArgumentBag.java:176-198 | a prompted answer is stored, so collecting the key again returns it without prompting |
| Arg.CollectKeepsOthers | src/main/java/de/ozml/hsqldiffextract/arg/ArgumentBag.java:176-198 | prompting stores only the collected key and leaves the run interactive or not |
| Arg.ArgumentBag.constructor | src/main/java/de/ozml/hsqldiffextract/arg/ArgumentBag.java:23-25 | the bag holds the given map |
| Arg.ArgumentBag.CollectArg | src/main/java/de/ozml/hsqldiffextract/arg/ArgumentBag.java:176-179 | the value stored under the key, Java null for a key stored without a value; None when the key is absent |
| Arg.ArgumentBag.CollectPrompted | src/main/java/de/ozml/hsqldiffextract/arg/ArgumentBag.java:176-198 | returns the stored value unless the key is absent in an interactive run; then the first valid trimmed answer, which is stored |
| Arg.ArgumentBag.GetOriginalFile | src/main/java/de/ozml/hsqldiffextract/arg/ArgumentBag.java:66-72 | oFile, prompting for a non-empty path that is a file |
| Arg.ArgumentBag.GetChangedFile | src/main/java/de/ozml/hsqldiffextract/arg/ArgumentBag.java:79-85 | cFile, prompting for a non-empty path that is a file |
| Arg.ArgumentBag.GetOutputDirectory | src/main/java/de/ozml/hsqldiffextract/arg/ArgumentBag.java:92-98 | oDir, prompting for a non-empty path that is a directory |
| Arg.BuiltFlags | src/main/java/de/ozml/hsqldiffextract/arg/ArgumentBag.java:31-41 | on a built bag, interactive and lazy hold iff their keys are stored |
| Arg.BuiltClaims | src/main/java/de/ozml/hsqldiffextract/arg/ArgumentBag.java:56-59 | on a built bag, the claims are met iff the run is interactive or oFile, cFile and oDir are all stored |
| Arg.ArgumentBag.IsInteractive | src/main/java/de/ozml/hsqldiffextract/arg/ArgumentBag.java:31-33 | holds iff the interactive key is stored with a value |
| Arg.ArgumentBag.IsLazyMode | src/main/java/de/ozml/hsqldiffextract/arg/ArgumentBag.java:39-41 | holds iff the lazy key is stored with a value |
| Arg.ArgumentBag.ClaimsMet | src/main/java/de/ozml/hsqldiffextract/arg/ArgumentBag.java:56-59 | holds iff the run is interactive or oFile, cFile and oDir are all stored |
| Arg.RequiredPresent | src/main/java/de/ozml/hsqldiffextract/arg/ArgumentBag.java:57-58 | every required argument is stored iff oFile, cFile and oDir are |
| Arg.ArgumentBag.GetIncludeTables | src/main/java/de/ozml/hsqldiffextract/arg/ArgumentBag.java:106-115 | a list iff inTables is stored with a non-blank value; then one trimmed, lower-cased entry per comma-separated piece |
| Arg.ArgumentBag.GetExcludeTables | src/main/java/de/ozml/hsqldiffextract/arg/ArgumentBag.java:123-132 | a list iff exTables is stored with a non-blank value; then one trimmed, lower-cased entry per comma-separated piece |
| Arg.TableListOf | src/main/java/de/ozml/hsqldiffextract/arg/ArgumentBag.java:108-114 | a list iff the value is not blank; then one normalised entry per comma-separated piece |

## Left out

- File and console I/O, exception handling and `printStackTrace`. Scripts are line sequences. A processor's output is an appended line sequence with "opened" and "closed" flags.
- `Workflow.printTables`, the resource bundle behind `Res` and `ArgumentInfo`, `CommandProcessor` and `Starter`: report writing, message lookup and the entry point.
- `ArgumentLoader`: a failed load makes Java's build throw; the model's load always yields an argument list. Java Properties file loading is the `load` parameter of `Arg.Build`, and its result is taken as given.
- The console and the file system behind `collectArg`, `fileExists` and `dirExists`. The typed answers are the `answers` parameter, and the file system is the `isFile`/`isDirectory` parameter.
- Arg.ArgumentBag.CollectPrompted: when every answer fails the check, Java keeps prompting, or `nextLine` throws once input ends. The model returns None and stores nothing.
- ArgumentBag.size: a plain map size, with no contract beyond it.
- The java.util.regex engine. Each pattern is a hand-written recogniser of the strings its full match accepts.
- `hashCode` and `toString` of the entities: they are not used by the diff.
- The non-compiling leftovers in DiffProcessor (lines 227-254): the dangling `private void`, the `start`/`stop`/`pause` stubs, `DiffIterator` and the unused queue field. Also `Controlable`, `Tuple` and `Patterns`, which have no behaviour beyond constants. The argument pattern of `Patterns` is modelled in `Arg.MatchArg`.
- Locale-dependent case mapping, and UTF-16 `compareTo` on characters outside one code unit. Lower-casing is ASCII, and key order compares characters by code.
- 32-bit `int` overflow of window positions and counts. Integers are unbounded.
- Row setters. Rows are values, never changed after parsing.
- The interface `RowSource` is a datatype with one case per implementation, not an interface with dynamic dispatch.
- Entity.Column.Empty: Java leaves the name and type null. The model uses the empty name and no type.
- Entity.Table.Empty: Java leaves the name and the column array null. The model uses the empty name and the empty column list.
- Entity.GetPrimaryKey requires the row to hold a value at every key index. Java throws ArrayIndexOutOfBoundsException otherwise.
- LazyRowSource.LazyRowSource.GetPart and LazyRowSource.LazyRowSource.GetPartMap require the start to be at most the window end, since Java's `subList` throws otherwise.
- The eager start index is a `nat`: a negative start is not modelled.
- Diff.DiffProcessor.Process requires the changed table to be no wider than the original. Otherwise `buildUpdateQueryString` would index past the original values for a common key whose rows differ. For such a pair, Workflow.Workflow.RunPair returns the outcome `Unmodelled` instead of running the diff.
- Diff.SelfDiffSilent and Diff.EagerWindowsCoverAll are stated for eager sources only. A lazy source re-reads its rows through the off-by-one reader and may read a different line than the one it stored.
- Workflow.Workflow.Start does not model a changed table that is wider than the original. For such a pair Java still diffs. If the two sides share a key, `buildUpdateQueryString` indexes past the original values, and the uncaught ArrayIndexOutOfBoundsException ends the whole run, so no later pair is processed. If they share no key, Java writes the INSERTs and DELETEs. In both cases the model records the outcome `Unmodelled` for that pair and goes on with the later pairs.
- Workflow.Workflow.Start states the outcome of each pair through `PairDecided`: which pairs ran and which were skipped. Workflow.Workflow.RunPair carries the full output of each diff.
