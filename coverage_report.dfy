/**
 * The two reports (index.js:52-95). The coverage dataset and the working
 * directory, module state in index.js, are parameters here.
 */
module CoverageReport {
  import opened Wrappers
  import opened JsText
  import opened Percent
  import opened MarkdownTable

  /** Covered units out of all countable units of one kind. */
  datatype Metric = Metric(covered: int, all: int)

  /** One source file's coverage, keyed by its absolute path. */
  datatype CoverageEntry = CoverageEntry(path: string, statements: Metric, branches: Metric, functions: Metric)

  const Excluded: string := "Excluded"
  const NoFiles: string := "No files"
  const FileHeaders: seq<string> := ["file", "statements", "branches", "functions"]
  const OverallHeaders: seq<string> := ["statements", "branches", "functions"]

  /** Index i holds the last entry of the dataset whose path is p. */
  predicate IsLastWith(dataset: seq<CoverageEntry>, p: string, i: int)
  {
    && 0 <= i < |dataset|
    && dataset[i].path == p
    && forall j | i < j < |dataset| :: dataset[j].path != p
  }

  /** The position of the last entry with path p, if any. */
  function LastIndex(dataset: seq<CoverageEntry>, p: string): (r: Option<nat>)
    ensures r.Some? ==> IsLastWith(dataset, p, r.value)
    ensures r.None? <==> forall i | 0 <= i < |dataset| :: dataset[i].path != p
  {
    if |dataset| == 0 then None
    else if dataset[|dataset| - 1].path == p then Some(|dataset| - 1)
    else LastIndex(dataset[..|dataset| - 1], p)
  }

  /** The entry a path-keyed table built with last-writer-wins holds for p. */
  function Lookup(dataset: seq<CoverageEntry>, p: string): Option<CoverageEntry>
  {
    match LastIndex(dataset, p)
    case None => None
    case Some(i) => Some(dataset[i])
  }

  /** The reduce that fills coverageMap: each entry overwrites whatever its path held. */
  method BuildLookup(dataset: seq<CoverageEntry>) returns (coverageMap: map<string, CoverageEntry>)
    ensures forall p :: p in coverageMap <==> Lookup(dataset, p).Some?
    ensures forall p | p in coverageMap :: Lookup(dataset, p) == Some(coverageMap[p])
  {
    coverageMap := map[];
    var k := 0;
    while k < |dataset|
      invariant 0 <= k <= |dataset|
      invariant forall p :: p in coverageMap <==> Lookup(dataset[..k], p).Some?
      invariant forall p | p in coverageMap :: Lookup(dataset[..k], p) == Some(coverageMap[p])
    {
      assert dataset[..k + 1][..k] == dataset[..k];
      coverageMap := coverageMap[dataset[k].path := dataset[k]];
      k := k + 1;
    }
    assert dataset[..|dataset|] == dataset;
  }

  /** The absolute path of a changed file: the working directory, one slash, the filename. */
  function ResolvePath(cwd: string, filename: string): (path: string)
    ensures cwd + "/" <= path
    ensures path[|cwd| + 1..] == filename
  {
    cwd + "/" + filename
  }

  /** Under one working directory, two different filenames never resolve to the same path. */
  lemma ResolvePathInjective(cwd: string, f: string, g: string)
    requires ResolvePath(cwd, f) == ResolvePath(cwd, g)
    ensures f == g
  {
    assert f == ResolvePath(cwd, f)[|cwd| + 1..];
  }

  /** The three percent cells of a found entry. */
  function PercentCells(entry: CoverageEntry): seq<string>
  {
    [ CoveragePercent(entry.statements.covered, entry.statements.all),
      CoveragePercent(entry.branches.covered, entry.branches.all),
      CoveragePercent(entry.functions.covered, entry.functions.all) ]
  }

  /**
   * The row of one changed file, given what the lookup found: the filename,
   * then three Excluded cells exactly when nothing was found, otherwise the
   * entry's three percent labels.
   */
  function FileRow(filename: string, found: Option<CoverageEntry>): (row: seq<string>)
    ensures |row| == 4 && row[0] == filename
    ensures found.None? <==> row[1..] == [Excluded, Excluded, Excluded]
    ensures found.Some? ==> row[1..] == PercentCells(found.value)
  {
    match found
    case None => [filename, Excluded, Excluded, Excluded]
    case Some(entry) => [filename] + PercentCells(entry)
  }

  /**
   * The rows of the change report: one per changed file, in order, led by the
   * filename as given. A file is Excluded exactly when no dataset entry has
   * path cwd + "/" + filename; otherwise its cells are the percentages of the
   * last entry with that path.
   */
  function ChangeRows(dataset: seq<CoverageEntry>, cwd: string, changedFiles: seq<string>): (rows: seq<seq<string>>)
    ensures |rows| == |changedFiles|
    ensures forall i | 0 <= i < |changedFiles| :: |rows[i]| == 4 && rows[i][0] == changedFiles[i]
    ensures forall i | 0 <= i < |changedFiles| ::
      (rows[i][1..] == [Excluded, Excluded, Excluded] <==>
        forall j | 0 <= j < |dataset| :: dataset[j].path != ResolvePath(cwd, changedFiles[i]))
    ensures forall i, j | 0 <= i < |changedFiles| && IsLastWith(dataset, ResolvePath(cwd, changedFiles[i]), j) ::
      rows[i][1..] == PercentCells(dataset[j])
  {
    seq(|changedFiles|, i requires 0 <= i < |changedFiles| =>
      FileRow(changedFiles[i], Lookup(dataset, ResolvePath(cwd, changedFiles[i]))))
  }

  /**
   * The change report as a value: "No files" for no changed files, else the
   * per-file table, which is never the text "No files".
   */
  function ChangeReport(dataset: seq<CoverageEntry>, cwd: string, changedFiles: seq<string>): (report: string)
    ensures report == NoFiles <==> changedFiles == []
  {
    if |changedFiles| == 0 then NoFiles
    else
      var rows := ChangeRows(dataset, cwd, changedFiles);
      FileTableIsNotNoFiles(rows);
      GenerateMarkDownTable(FileHeaders, rows)
  }

  /** A table under the file headers starts with "file", so it is never the text "No files". */
  lemma FileTableIsNotNoFiles(rows: seq<seq<string>>)
    ensures GenerateMarkDownTable(FileHeaders, rows) != NoFiles
  {
    var table := GenerateMarkDownTable(FileHeaders, rows);
    FileHeaderLine();
    var head := "file | statements | branches | functions";
    assert head + "\n" + RowLine(Separators(4)) + "\n" <= table;
    assert table[0] == head[0];
  }

  /** generateChangeCoverage, with the dataset and the working directory passed in. */
  method GenerateChangeCoverage(dataset: seq<CoverageEntry>, cwd: string, changedFiles: seq<string>)
    returns (report: string)
    ensures changedFiles == [] ==> report == NoFiles
    ensures report == ChangeReport(dataset, cwd, changedFiles)
  {
    if |changedFiles| == 0 {
      return NoFiles;
    }
    var fileCoverage := BuildLookup(dataset);
    var rows := seq(|changedFiles|, i requires 0 <= i < |changedFiles| =>
      var path := ResolvePath(cwd, changedFiles[i]);
      FileRow(changedFiles[i], if path in fileCoverage then Some(fileCoverage[path]) else None));
    assert rows == ChangeRows(dataset, cwd, changedFiles);
    report := GenerateMarkDownTable(FileHeaders, rows);
  }

  lemma FileTableHeader()
    ensures RowLine(FileHeaders) == "file | statements | branches | functions"
    ensures RowLine(Separators(4)) == " ---:  |  ---:  |  ---:  |  ---: "
  {
    FileHeaderLine();
    FileSeparatorLine();
  }

  lemma FileHeaderLine()
    ensures RowLine(FileHeaders) == "file | statements | branches | functions"
  {
    var line := "file" + CellSeparator + "statements" + CellSeparator + "branches" + CellSeparator + "functions";
    assert line == "file | statements | branches | functions";
    JoinFour("file", "statements", "branches", "functions", CellSeparator);
    assert RowLine(FileHeaders) == line;
  }


  lemma FileSeparatorLine()
    ensures RowLine(Separators(4)) == " ---:  |  ---:  |  ---:  |  ---: "
  {
    var line := AlignRight + CellSeparator + AlignRight + CellSeparator + AlignRight + CellSeparator + AlignRight;
    assert line == " ---:  |  ---:  |  ---:  |  ---: ";
    assert Separators(4) == [AlignRight, AlignRight, AlignRight, AlignRight];
    JoinFour(AlignRight, AlignRight, AlignRight, AlignRight, CellSeparator);
    assert RowLine(Separators(4)) == line;
  }


  lemma OverallTableHeader()
    ensures RowLine(OverallHeaders) == "statements | branches | functions"
    ensures RowLine(Separators(3)) == " ---:  |  ---:  |  ---: "
  {
    var head := "statements" + CellSeparator + "branches" + CellSeparator + "functions";
    assert head == "statements | branches | functions";
    JoinThree("statements", "branches", "functions", CellSeparator);
    assert RowLine(OverallHeaders) == head;
    var marks := AlignRight + CellSeparator + AlignRight + CellSeparator + AlignRight;
    assert marks == " ---:  |  ---:  |  ---: ";
    assert Separators(3) == [AlignRight, AlignRight, AlignRight];
    JoinThree(AlignRight, AlignRight, AlignRight, CellSeparator);
    assert RowLine(Separators(3)) == marks;
  }


  /** No cell of a change row holds a newline when no filename does. */
  lemma ChangeRowsFreeOfNewlines(dataset: seq<CoverageEntry>, cwd: string, changedFiles: seq<string>)
    requires FreeOf(changedFiles, '\n')
    ensures CellsFreeOfNewlines(ChangeRows(dataset, cwd, changedFiles))
  {
    var rows := ChangeRows(dataset, cwd, changedFiles);
    forall r | 0 <= r < |rows| ensures FreeOf(rows[r], '\n') {
      assert '\n' !in changedFiles[r];
    }
  }

  /** A table under the four change-report headers, for any non-empty newline-free body. */
  lemma FileTableLines(rows: seq<seq<string>>)
    requires rows != [] && CellsFreeOfNewlines(rows)
    ensures |Lines(GenerateMarkDownTable(FileHeaders, rows))| == |rows| + 2
    ensures Lines(GenerateMarkDownTable(FileHeaders, rows))[0] == "file | statements | branches | functions"
    ensures Lines(GenerateMarkDownTable(FileHeaders, rows))[1] == " ---:  |  ---:  |  ---:  |  ---: "
    ensures forall i | 0 <= i < |rows| :: Lines(GenerateMarkDownTable(FileHeaders, rows))[i + 2] == RowLine(rows[i])
  {
    TableLines(FileHeaders, rows);
    FileTableHeader();
  }

  /**
   * The lines of a change report for a non-empty list of newline-free
   * filenames: the fixed header, the four-column separator, then the row of
   * each changed file in order.
   */
  lemma ChangeReportLines(dataset: seq<CoverageEntry>, cwd: string, changedFiles: seq<string>)
    requires changedFiles != [] && FreeOf(changedFiles, '\n')
    ensures |Lines(ChangeReport(dataset, cwd, changedFiles))| == |changedFiles| + 2
    ensures Lines(ChangeReport(dataset, cwd, changedFiles))[0] == "file | statements | branches | functions"
    ensures Lines(ChangeReport(dataset, cwd, changedFiles))[1] == " ---:  |  ---:  |  ---:  |  ---: "
    ensures forall i | 0 <= i < |changedFiles| ::
      Lines(ChangeReport(dataset, cwd, changedFiles))[i + 2] == RowLine(ChangeRows(dataset, cwd, changedFiles)[i])
  {
    ChangeRowsFreeOfNewlines(dataset, cwd, changedFiles);
    FileTableLines(ChangeRows(dataset, cwd, changedFiles));
  }

  /**
   * generateOverallCoverage with the three aggregate values given: a one-row
   * table under the headers statements, branches and functions.
   */
  function GenerateOverallCoverage(statements: real, branches: real, functions: real): (report: string)
    ensures Lines(report) ==
      [ "statements | branches | functions",
        " ---:  |  ---:  |  ---: ",
        FormatPercent(statements) + " | " + FormatPercent(branches) + " | " + FormatPercent(functions) ]
  {
    var cells := [FormatPercent(statements), FormatPercent(branches), FormatPercent(functions)];
    OverallTableLines(cells[0], cells[1], cells[2]);
    GenerateMarkDownTable(OverallHeaders, [cells])
  }

  /** A one-row table under the overall headers, for any three newline-free cells. */
  lemma OverallTableLines(a: string, b: string, c: string)
    requires '\n' !in a && '\n' !in b && '\n' !in c
    ensures Lines(GenerateMarkDownTable(OverallHeaders, [[a, b, c]])) ==
      ["statements | branches | functions", " ---:  |  ---:  |  ---: ", a + " | " + b + " | " + c]
  {
    TableLines(OverallHeaders, [[a, b, c]]);
    OverallTableHeader();
    JoinThree(a, b, c, CellSeparator);
    assert RowLines([[a, b, c]]) == [RowLine([a, b, c])];
  }
}
