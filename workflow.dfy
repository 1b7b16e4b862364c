/**
 * The workflow of a run: read the tables of both scripts, filter them by
 * name, pair the tables of the same name and diff every pair whose two sides
 * both hold rows. The scripts are given as their lines; the per-table output
 * files are the lines each DiffProcessor writes.
 */
module Workflow {
  import opened Wrappers
  import opened Strings
  import opened Entity
  import opened RowSource
  import RowParser
  import TableParser
  import EagerRowSource
  import LazyRowSource
  import Diff
  import Seqs

  /** What became of one pair of tables with the same name. */
  datatype Outcome =
    | Done(name: string, output: seq<string>)  // the lines the pair's DiffProcessor wrote
    | Skipped(name: string)                    // one of the two sides holds no rows
    | Unmodelled(name: string)                 // the changed table has more columns than the original

  /** The tables whose lower-cased name is listed, in their order. */
  function Included(tables: seq<TableDef>, filter: seq<string>): (r: seq<TableDef>)
    ensures |r| <= |tables|
  {
    if tables == [] then []
    else
      var last := tables[|tables| - 1];
      Included(tables[..|tables| - 1], filter) + (if ToLower(last.name) in filter then [last] else [])
  }

  /** The tables whose lower-cased name is not listed, in their order. */
  function Excluded(tables: seq<TableDef>, filter: seq<string>): (r: seq<TableDef>)
    ensures |r| <= |tables|
  {
    if tables == [] then []
    else
      var last := tables[|tables| - 1];
      Excluded(tables[..|tables| - 1], filter) + (if ToLower(last.name) !in filter then [last] else [])
  }

  /** The inclusion filter keeps exactly the tables whose lower-cased name is listed. */
  lemma {:induction false} IncludedMembers(tables: seq<TableDef>, filter: seq<string>, t: TableDef)
    ensures t in Included(tables, filter) <==> t in tables && ToLower(t.name) in filter
  {
    if tables != [] {
      var init := tables[..|tables| - 1];
      assert tables == init + [tables[|tables| - 1]];
      IncludedMembers(init, filter, t);
    }
  }

  /** The exclusion filter drops exactly the tables whose lower-cased name is listed. */
  lemma {:induction false} ExcludedMembers(tables: seq<TableDef>, filter: seq<string>, t: TableDef)
    ensures t in Excluded(tables, filter) <==> t in tables && ToLower(t.name) !in filter
  {
    if tables != [] {
      var init := tables[..|tables| - 1];
      assert tables == init + [tables[|tables| - 1]];
      ExcludedMembers(init, filter, t);
    }
  }

  /** The same list used as inclusion and as exclusion filter splits the tables in two. */
  lemma {:induction false} FiltersPartition(tables: seq<TableDef>, filter: seq<string>)
    ensures multiset(Included(tables, filter)) + multiset(Excluded(tables, filter)) == multiset(tables)
  {
    if tables != [] {
      var init := tables[..|tables| - 1];
      assert tables == init + [tables[|tables| - 1]];
      FiltersPartition(init, filter);
    }
  }

  /** The tables a run works on: the inclusion filter when there is one, else the exclusion filter, if any. */
  function Selected(tables: seq<TableDef>, inclusion: Option<seq<string>>, exclusion: Option<seq<string>>): seq<TableDef> {
    if inclusion.Some? then Included(tables, inclusion.value)
    else if exclusion.Some? then Excluded(tables, exclusion.value)
    else tables
  }

  /** A table survives the filters iff it is listed for inclusion, or there is none and it is not listed for exclusion. */
  lemma SelectedMembers(tables: seq<TableDef>, inclusion: Option<seq<string>>, exclusion: Option<seq<string>>, t: TableDef)
    ensures t in Selected(tables, inclusion, exclusion) <==>
      t in tables &&
      (inclusion.Some? ==> ToLower(t.name) in inclusion.value) &&
      (inclusion.None? && exclusion.Some? ==> ToLower(t.name) !in exclusion.value)
  {
    if inclusion.Some? {
      IncludedMembers(tables, inclusion.value, t);
    } else if exclusion.Some? {
      ExcludedMembers(tables, exclusion.value, t);
    }
  }

  function Names(tables: seq<TableDef>): (names: seq<string>)
    ensures |names| == |tables| && forall i :: 0 <= i < |tables| ==> names[i] == tables[i].name
  {
    seq(|tables|, i requires 0 <= i < |tables| => tables[i].name)
  }

  /** The positions of the changed tables named `name`, paired with the original position `i`, in order. */
  function MatchIndices(name: string, cNames: seq<string>, i: nat): (r: seq<(nat, nat)>)
    ensures forall k :: 0 <= k < |r| ==> r[k].0 == i && r[k].1 < |cNames| && cNames[r[k].1] == name
    ensures forall a, b :: 0 <= a < b < |r| ==> r[a].1 < r[b].1
  {
    if cNames == [] then []
    else
      var j := |cNames| - 1;
      MatchIndices(name, cNames[..j], i) + (if cNames[j] == name then [(i, j)] else [])
  }

  /** MatchIndices, one changed table further. */
  lemma MatchStep(name: string, cNames: seq<string>, i: nat, j: nat)
    requires j < |cNames|
    ensures MatchIndices(name, cNames[..j + 1], i) ==
      MatchIndices(name, cNames[..j], i) + (if cNames[j] == name then [(i, j)] else [])
  {
    assert cNames[..j + 1][..j] == cNames[..j];
  }

  /** The (original, changed) positions the nested loops of a run visit with equal names, in visiting order. */
  function PairIndices(oNames: seq<string>, cNames: seq<string>): (r: seq<(nat, nat)>)
    ensures forall k :: 0 <= k < |r| ==>
      r[k].0 < |oNames| && r[k].1 < |cNames| && oNames[r[k].0] == cNames[r[k].1]
    ensures forall a, b :: 0 <= a < b < |r| ==> r[a].0 < r[b].0 || (r[a].0 == r[b].0 && r[a].1 < r[b].1)
  {
    if oNames == [] then []
    else
      var i := |oNames| - 1;
      PairIndices(oNames[..i], cNames) + MatchIndices(oNames[i], cNames, i)
  }

  /** PairIndices, one original table further. */
  lemma PairStep(oNames: seq<string>, cNames: seq<string>, i: nat)
    requires i < |oNames|
    ensures PairIndices(oNames[..i + 1], cNames) == PairIndices(oNames[..i], cNames) + MatchIndices(oNames[i], cNames, i)
  {
    assert oNames[..i + 1][..i] == oNames[..i];
  }

  lemma {:induction false} MatchIndicesComplete(name: string, cNames: seq<string>, i: nat, j: nat)
    requires j < |cNames| && cNames[j] == name
    ensures (i, j) in MatchIndices(name, cNames, i)
  {
    var last := |cNames| - 1;
    if j < last {
      MatchIndicesComplete(name, cNames[..last], i, j);
    }
  }

  /** Every pair of equally named tables is visited: with the ordering above, exactly once. */
  lemma {:induction false} PairIndicesComplete(oNames: seq<string>, cNames: seq<string>, i: nat, j: nat)
    requires i < |oNames| && j < |cNames| && oNames[i] == cNames[j]
    ensures (i, j) in PairIndices(oNames, cNames)
  {
    var last := |oNames| - 1;
    if i < last {
      assert oNames[..last][i] == oNames[i];
      PairIndicesComplete(oNames[..last], cNames, i, j);
    } else {
      MatchIndicesComplete(oNames[i], cNames, i, j);
    }
  }

  /** buildRowSource: line numbers of the table's rows in lazy mode, else the rows themselves. */
  function SourceFor(lazy: bool, table: TableDef, lines: seq<string>): (r: RowSource)
    ensures r.Valid() && r.Table() == table && r.TableName() == table.name
  {
    if lazy then Lazy(LazyRowSource.LazyRowSource(table, lines, RowParser.LinesOfTable(table, lines)))
    else
      ScriptRowsKeyedByIndex(table, lines);
      Eager(EagerRowSource.EagerRowSource(table, RowParser.RowsOfTable(table, lines)))
  }

  /** Both modes store the same keys, so the choice of mode never changes which pairs are skipped. */
  lemma ModesAgree(table: TableDef, lines: seq<string>)
    ensures SourceFor(true, table, lines).Keys() == SourceFor(false, table, lines).Keys()
    ensures SourceFor(true, table, lines).Count() == SourceFor(false, table, lines).Count()
  {
    forall k ensures k in RowParser.LinesOfTable(table, lines) <==> k in RowParser.RowsOfTable(table, lines) {
      RowParser.RowsAndLinesAgree(table, lines, k);
    }
    assert RowParser.LinesOfTable(table, lines).Keys == RowParser.RowsOfTable(table, lines).Keys;
  }

  /**
   * What a run does with one pair of equally named tables: it skips the
   * pair unless both sides hold rows, and otherwise writes what process
   * writes for the two sources.
   */
  ghost predicate PairRun(lazy: bool, oLines: seq<string>, cLines: seq<string>, o: TableDef, c: TableDef, outcome: Outcome) {
    var original := SourceFor(lazy, o, oLines);
    var changed := SourceFor(lazy, c, cLines);
    if original.Count() == 0 || changed.Count() == 0 then outcome == Skipped(o.name)
    else if |c.columns| > |o.columns| then outcome == Unmodelled(o.name)
    else outcome.Done? && outcome.name == o.name && Diff.Processed(original, changed, outcome.output)
  }

  /** The number of rows of the table in the script: the count of its source in either mode. */
  ghost function RowCount(table: TableDef, lines: seq<string>): nat {
    |RowParser.RowsOfTable(table, lines)|
  }

  lemma CountIsRowCount(lazy: bool, table: TableDef, lines: seq<string>)
    ensures SourceFor(lazy, table, lines).Count() == RowCount(table, lines)
  {
    ModesAgree(table, lines);
  }

  /**
   * Which way the run goes for a pair: the outcome carries the original
   * table's name, and the pair is skipped exactly when a side holds no rows.
   */
  ghost predicate PairDecided(oLines: seq<string>, cLines: seq<string>, o: TableDef, c: TableDef, outcome: Outcome) {
    var oCount := RowCount(o, oLines);
    var cCount := RowCount(c, cLines);
    outcome.name == o.name &&
    (outcome.Skipped? <==> oCount == 0 || cCount == 0) &&
    (outcome.Unmodelled? <==> oCount > 0 && cCount > 0 && |c.columns| > |o.columns|)
  }

  lemma PairRunDecided(lazy: bool, oLines: seq<string>, cLines: seq<string>, o: TableDef, c: TableDef, outcome: Outcome)
    requires PairRun(lazy, oLines, cLines, o, c, outcome)
    ensures PairDecided(oLines, cLines, o, c, outcome)
  {
    CountIsRowCount(lazy, o, oLines);
    CountIsRowCount(lazy, c, cLines);
  }

  /** The three ways a pair can go, one lemma each. */
  lemma PairSkipped(lazy: bool, oLines: seq<string>, cLines: seq<string>, o: TableDef, c: TableDef)
    requires SourceFor(lazy, o, oLines).Count() == 0 || SourceFor(lazy, c, cLines).Count() == 0
    ensures PairRun(lazy, oLines, cLines, o, c, Skipped(o.name))
  {
  }

  lemma PairUnmodelled(lazy: bool, oLines: seq<string>, cLines: seq<string>, o: TableDef, c: TableDef)
    requires SourceFor(lazy, o, oLines).Count() > 0 && SourceFor(lazy, c, cLines).Count() > 0
    requires |c.columns| > |o.columns|
    ensures PairRun(lazy, oLines, cLines, o, c, Unmodelled(o.name))
  {
  }

  lemma PairDone(lazy: bool, oLines: seq<string>, cLines: seq<string>, o: TableDef, c: TableDef,
                 original: RowSource, changed: RowSource, segments: seq<seq<string>>, before: seq<string>, output: seq<string>)
    requires original == SourceFor(lazy, o, oLines) && changed == SourceFor(lazy, c, cLines)
    requires original.Count() > 0 && changed.Count() > 0 && |c.columns| <= |o.columns|
    requires Diff.Diffable(original, changed) && Diff.UpdateSegments(original, changed, segments)
    requires before == [] && output == before + Diff.InsertQueries(Diff.AbsentFrom(original, changed, 0)) +
      Seqs.Concat(segments) + Diff.DeleteQueries(Diff.AbsentFrom(changed, original, 0))
    ensures PairRun(lazy, oLines, cLines, o, c, Done(o.name, output))
  {
    var inserts := Diff.InsertQueries(Diff.AbsentFrom(original, changed, 0));
    assert before + inserts == inserts;
  }

  /** PairDecided for the two scripts, as a relation on a pair and its outcome. */
  ghost function Decider(oLines: seq<string>, cLines: seq<string>): (TableDef, TableDef, Outcome) -> bool {
    (o, c, outcome) => PairDecided(oLines, cLines, o, c, outcome)
  }

  /** The outcomes of the pairs visited so far, one per pair and in visiting order. */
  ghost predicate Runs(run: (TableDef, TableDef, Outcome) -> bool,
                       os: seq<TableDef>, cs: seq<TableDef>, pairs: seq<(nat, nat)>, outcomes: seq<Outcome>)
    decreases |pairs|
  {
    |outcomes| == |pairs| &&
    (pairs != [] ==>
      var n := |pairs| - 1;
      Runs(run, os, cs, pairs[..n], outcomes[..n]) &&
      pairs[n].0 < |os| && pairs[n].1 < |cs| && run(os[pairs[n].0], cs[pairs[n].1], outcomes[n]))
  }

  lemma RunsSnoc(run: (TableDef, TableDef, Outcome) -> bool, os: seq<TableDef>, cs: seq<TableDef>,
                 pairs: seq<(nat, nat)>, outcomes: seq<Outcome>, pair: (nat, nat), outcome: Outcome)
    requires Runs(run, os, cs, pairs, outcomes)
    requires pair.0 < |os| && pair.1 < |cs| && run(os[pair.0], cs[pair.1], outcome)
    ensures Runs(run, os, cs, pairs + [pair], outcomes + [outcome])
  {
    assert (pairs + [pair])[..|pairs|] == pairs;
    assert (outcomes + [outcome])[..|pairs|] == outcomes;
  }

  lemma {:induction false} RunsAppend(run: (TableDef, TableDef, Outcome) -> bool, os: seq<TableDef>, cs: seq<TableDef>,
                   pairs: seq<(nat, nat)>, outcomes: seq<Outcome>, more: seq<(nat, nat)>, moreOutcomes: seq<Outcome>)
    requires Runs(run, os, cs, pairs, outcomes) && Runs(run, os, cs, more, moreOutcomes)
    ensures Runs(run, os, cs, pairs + more, outcomes + moreOutcomes)
    decreases |more|
  {
    if more == [] {
      assert pairs + more == pairs && outcomes + moreOutcomes == outcomes;
    } else {
      var n := |more| - 1;
      RunsAppend(run, os, cs, pairs, outcomes, more[..n], moreOutcomes[..n]);
      assert pairs + more == (pairs + more[..n]) + [more[n]];
      assert outcomes + moreOutcomes == (outcomes + moreOutcomes[..n]) + [moreOutcomes[n]];
      RunsSnoc(run, os, cs, pairs + more[..n], outcomes + moreOutcomes[..n], more[n], moreOutcomes[n]);
    }
  }

  /** Each visited pair satisfies `run`. */
  lemma {:induction false} RunsAt(run: (TableDef, TableDef, Outcome) -> bool, os: seq<TableDef>, cs: seq<TableDef>,
                                  pairs: seq<(nat, nat)>, outcomes: seq<Outcome>, k: nat)
    requires Runs(run, os, cs, pairs, outcomes) && k < |pairs|
    ensures |outcomes| == |pairs| && pairs[k].0 < |os| && pairs[k].1 < |cs|
    ensures run(os[pairs[k].0], cs[pairs[k].1], outcomes[k])
    decreases |pairs|
  {
    var n := |pairs| - 1;
    if k < n {
      RunsAt(run, os, cs, pairs[..n], outcomes[..n], k);
      assert pairs[..n][k] == pairs[k] && outcomes[..n][k] == outcomes[k];
    }
  }

  /** The value of each table object, in order. */
  method TableDefs(tables: seq<Table>) returns (defs: seq<TableDef>)
    ensures |defs| == |tables| && forall i :: 0 <= i < |tables| ==> defs[i] == tables[i].Def()
  {
    defs := [];
    for i := 0 to |tables|
      invariant |defs| == i && forall k :: 0 <= k < i ==> defs[k] == tables[k].Def()
    {
      defs := defs + [tables[i].Def()];
    }
  }

  class Workflow {
    /** The lines of the original and of the changed script. */
    const originalFile: seq<string>
    const changedFile: seq<string>
    const outputDir: string
    const isLazyMode: bool
    var inclusionFilter: Option<seq<string>>
    var exclusionFilter: Option<seq<string>>

    constructor (originalFile: seq<string>, changedFile: seq<string>, outputDir: string, isLazyMode: bool)
      ensures this.originalFile == originalFile && this.changedFile == changedFile
      ensures this.outputDir == outputDir && this.isLazyMode == isLazyMode
      ensures inclusionFilter.None? && exclusionFilter.None?
    {
      this.originalFile := originalFile;
      this.changedFile := changedFile;
      this.outputDir := outputDir;
      this.isLazyMode := isLazyMode;
      inclusionFilter := None;
      exclusionFilter := None;
    }

    method SetInclusionFilter(filter: Option<seq<string>>)
      modifies this`inclusionFilter
      ensures inclusionFilter == filter
    {
      inclusionFilter := filter;
    }

    method SetExclusionFilter(filter: Option<seq<string>>)
      modifies this`exclusionFilter
      ensures exclusionFilter == filter
    {
      exclusionFilter := filter;
    }

    /** applyInclusionFilter: removes every table whose lower-cased name is not listed. */
    method ApplyInclusionFilter(tables: seq<TableDef>) returns (kept: seq<TableDef>)
      requires inclusionFilter.Some?
      ensures kept == Included(tables, inclusionFilter.value)
    {
      kept := [];
      for i := 0 to |tables|
        invariant kept == Included(tables[..i], inclusionFilter.value)
      {
        assert tables[..i + 1][..i] == tables[..i];
        if ToLower(tables[i].name) in inclusionFilter.value {
          kept := kept + [tables[i]];
        }
      }
      assert tables[..|tables|] == tables;
    }

    /** applyExclusionFilter: removes every table whose lower-cased name is listed. */
    method ApplyExclusionFilter(tables: seq<TableDef>) returns (kept: seq<TableDef>)
      requires exclusionFilter.Some?
      ensures kept == Excluded(tables, exclusionFilter.value)
    {
      kept := [];
      for i := 0 to |tables|
        invariant kept == Excluded(tables[..i], exclusionFilter.value)
      {
        assert tables[..i + 1][..i] == tables[..i];
        if ToLower(tables[i].name) !in exclusionFilter.value {
          kept := kept + [tables[i]];
        }
      }
      assert tables[..|tables|] == tables;
    }

    /** buildRowSource. */
    method BuildRowSource(table: TableDef, file: seq<string>) returns (source: RowSource)
      ensures source == SourceFor(isLazyMode, table, file)
    {
      if isLazyMode {
        var lineNumbers := RowParser.ReadRowLinesFromTable(table, file);
        source := Lazy(LazyRowSource.LazyRowSource(table, file, lineNumbers));
      } else {
        var rows := RowParser.ReadRowsFromTable(table, file);
        source := Eager(EagerRowSource.EagerRowSource(table, rows));
      }
    }

    /** The body of the pairing loop for one pair of equally named tables. */
    method RunPair(o: TableDef, c: TableDef) returns (outcome: Outcome)
      ensures PairRun(isLazyMode, originalFile, changedFile, o, c, outcome)
    {
      var original := BuildRowSource(o, originalFile);
      var changed := BuildRowSource(c, changedFile);
      if original.Count() > 0 && changed.Count() > 0 {
        if |c.columns| <= |o.columns| {
          var processor := new Diff.DiffProcessor(o.name, outputDir);
          ghost var before := processor.output;
          ghost var segments := processor.Process(original, changed);
          outcome := Done(o.name, processor.output);
          PairDone(isLazyMode, originalFile, changedFile, o, c, original, changed, segments, before, processor.output);
        } else {
          outcome := Unmodelled(o.name);
          PairUnmodelled(isLazyMode, originalFile, changedFile, o, c);
        }
      } else {
        outcome := Skipped(o.name);
        PairSkipped(isLazyMode, originalFile, changedFile, o, c);
      }
    }

    /** RunPair, with only the part of its contract the pairing loop keeps (`run` is Decider). */
    method DecidePair(ghost run: (TableDef, TableDef, Outcome) -> bool, o: TableDef, c: TableDef) returns (outcome: Outcome)
      requires run == Decider(originalFile, changedFile)
      ensures run(o, c, outcome)
    {
      outcome := RunPair(o, c);
      PairRunDecided(isLazyMode, originalFile, changedFile, o, c, outcome);
    }

    /** The tables of both scripts after the filters. */
    method SelectTables() returns (os: seq<TableDef>, cs: seq<TableDef>)
      ensures os == Selected(TableParser.ReadTablesSpec(originalFile), inclusionFilter, exclusionFilter)
      ensures cs == Selected(TableParser.ReadTablesSpec(changedFile), inclusionFilter, exclusionFilter)
    {
      var oTables := TableParser.ReadTablesFromFile(originalFile);
      os := TableDefs(oTables);
      var cTables := TableParser.ReadTablesFromFile(changedFile);
      cs := TableDefs(cTables);
      assert os == TableParser.ReadTablesSpec(originalFile);
      assert cs == TableParser.ReadTablesSpec(changedFile);
      if inclusionFilter.Some? {
        os := ApplyInclusionFilter(os);
        cs := ApplyInclusionFilter(cs);
      } else if exclusionFilter.Some? {
        os := ApplyExclusionFilter(os);
        cs := ApplyExclusionFilter(cs);
      }
    }

    /** One pass of the inner loop of start: the original table at `i` against every changed table. */
    method ProcessRow(ghost run: (TableDef, TableDef, Outcome) -> bool, os: seq<TableDef>, cs: seq<TableDef>, i: nat)
      returns (row: seq<Outcome>)
      requires run == Decider(originalFile, changedFile) && i < |os|
      ensures Runs(run, os, cs, MatchIndices(os[i].name, Names(cs), i), row)
    {
      ghost var cNames := Names(cs);
      ghost var pairs: seq<(nat, nat)> := [];
      row := [];
      for j := 0 to |cs|
        invariant pairs == MatchIndices(os[i].name, cNames[..j], i)
        invariant Runs(run, os, cs, pairs, row)
      {
        MatchStep(os[i].name, cNames, i, j);
        if os[i].name == cs[j].name {
          var outcome := DecidePair(run, os[i], cs[j]);
          RunsSnoc(run, os, cs, pairs, row, (i, j), outcome);
          row := row + [outcome];
          pairs := pairs + [(i, j)];
        }
      }
      assert cNames[..|cs|] == cNames;
    }

    /**
     * start: every pair of an original and a changed table with the same
     * name, in the order of the two table lists, gets one outcome.
     */
    method Start() returns (outcomes: seq<Outcome>)
      ensures var os := Selected(TableParser.ReadTablesSpec(originalFile), inclusionFilter, exclusionFilter);
        var cs := Selected(TableParser.ReadTablesSpec(changedFile), inclusionFilter, exclusionFilter);
        Runs(Decider(originalFile, changedFile), os, cs, PairIndices(Names(os), Names(cs)), outcomes)
    {
      var os, cs := SelectTables();
      ghost var oNames := Names(os);
      ghost var run := Decider(originalFile, changedFile);
      ghost var pairs: seq<(nat, nat)> := [];
      outcomes := [];
      for i := 0 to |os|
        invariant pairs == PairIndices(oNames[..i], Names(cs))
        invariant Runs(run, os, cs, pairs, outcomes)
      {
        var row := ProcessRow(run, os, cs, i);
        ghost var matches := MatchIndices(os[i].name, Names(cs), i);
        RunsAppend(run, os, cs, pairs, outcomes, matches, row);
        PairStep(oNames, Names(cs), i);
        outcomes := outcomes + row;
        pairs := pairs + matches;
      }
      assert oNames[..|os|] == oNames;
    }
  }
}
