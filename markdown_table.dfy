/**
 * generateMarkDownTable (index.js:42-50): a header line, a separator line of
 * right-alignment markers, then one line per body row, all joined by newlines.
 * Cells are not escaped; the line structure below holds when no cell holds a
 * newline.
 */
module MarkdownTable {
  import opened JsText

  const CellSeparator: string := " | "
  const AlignRight: string := " ---: "

  /** The separator row's cells: one right-alignment marker per column. */
  function Separators(columns: nat): (cells: seq<string>)
    ensures |cells| == columns
    ensures forall i | 0 <= i < columns :: cells[i] == AlignRight
  {
    seq(columns, _ => AlignRight)
  }

  /** The text of one row: its cells joined by " | ". */
  function RowLine(cells: seq<string>): string
  {
    Join(cells, CellSeparator)
  }

  /** The body's lines: each row's cells joined by the cell separator, in row order. */
  function RowLines(body: seq<seq<string>>): (lines: seq<string>)
    ensures |lines| == |body|
    ensures forall i | 0 <= i < |body| :: lines[i] == RowLine(body[i])
  {
    seq(|body|, i requires 0 <= i < |body| => RowLine(body[i]))
  }

  /**
   * The table text: the header line and the separator line, each followed by
   * a newline, then the body lines with newlines between them.
   */
  function GenerateMarkDownTable(headers: seq<string>, body: seq<seq<string>>): (table: string)
    ensures RowLine(headers) + "\n" + RowLine(Separators(|headers|)) + "\n" <= table
    ensures body == [] ==> table == RowLine(headers) + "\n" + RowLine(Separators(|headers|)) + "\n"
  {
    var head := RowLine(headers);
    var sep := RowLine(Separators(|headers|));
    assert Join([head, sep], "\n") == head + "\n" + sep by {
      assert [head, sep][1..] == [sep];
    }
    assert (head + "\n" + sep) + "\n" + "" == head + "\n" + sep + "\n";
    Join([head, sep], "\n") + "\n" + Join(RowLines(body), "\n")
  }

  /** The lines of a text, as split("\n") gives them. */
  function Lines(s: string): seq<string>
  {
    Split(s, '\n')
  }

  /** No cell of any row holds a newline. */
  predicate CellsFreeOfNewlines(rows: seq<seq<string>>)
  {
    forall r | 0 <= r < |rows| :: FreeOf(rows[r], '\n')
  }

  lemma RowLineFreeOfNewlines(cells: seq<string>)
    requires FreeOf(cells, '\n')
    ensures '\n' !in RowLine(cells)
  {
    JoinFreeOf(cells, CellSeparator, '\n');
  }

  /** Joining two lines in front of a non-empty list of lines. */
  lemma JoinTwoInFront(head: string, sep: string, rest: seq<string>)
    requires rest != []
    ensures Join([head, sep] + rest, "\n") == head + "\n" + sep + "\n" + Join(rest, "\n")
  {
    var all := [head, sep] + rest;
    assert all[1..] == [sep] + rest;
    assert all[1..][1..] == rest;
  }

  /**
   * The table's lines: the header line, the separator line, then one line per
   * body row in order; an empty body leaves one empty line after the separator.
   */
  lemma TableLines(headers: seq<string>, body: seq<seq<string>>)
    requires FreeOf(headers, '\n') && CellsFreeOfNewlines(body)
    ensures Lines(GenerateMarkDownTable(headers, body)) ==
      [RowLine(headers), RowLine(Separators(|headers|))] + (if body == [] then [""] else RowLines(body))
  {
    var head := RowLine(headers);
    var sep := RowLine(Separators(|headers|));
    var rows := RowLines(body);
    var tail := if body == [] then [""] else rows;
    RowLineFreeOfNewlines(headers);
    RowLineFreeOfNewlines(Separators(|headers|));
    forall i | 0 <= i < |rows| ensures '\n' !in rows[i] {
      RowLineFreeOfNewlines(body[i]);
    }
    assert Join([head, sep], "\n") == head + "\n" + sep;
    assert Join(tail, "\n") == Join(rows, "\n");
    JoinTwoInFront(head, sep, tail);
    assert GenerateMarkDownTable(headers, body) == Join([head, sep] + tail, "\n");
    SplitOfJoin([head, sep] + tail, '\n');
  }

  /** With a non-empty body the table has two lines more than the body has rows, whatever the column count. */
  lemma TableLineCount(headers: seq<string>, body: seq<seq<string>>)
    requires FreeOf(headers, '\n') && CellsFreeOfNewlines(body) && body != []
    ensures |Lines(GenerateMarkDownTable(headers, body))| == |body| + 2
    ensures forall i | 0 <= i < |body| :: Lines(GenerateMarkDownTable(headers, body))[i + 2] == RowLine(body[i])
  {
    TableLines(headers, body);
  }
}
