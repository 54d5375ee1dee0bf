/**
  A Markdown table block: a header row, a separator row that fixes the
  alignment of each column, and the body rows after it.

  `ParseTable` states what `TableBlock.Parse` computes, row by row, in terms
  of the row splitter `ScanRow`; the method follows the source's loops and
  is proved to build exactly that table. The lemmas below state the shape of
  every table the parser accepts and the rules it rejects a table by.
 */
module TableBlocks {
  import opened Common
  import opened Elements
  import opened TableRows

  /** How the content of a column is aligned. */
  datatype ColumnAlignment = Unspecified | Left | Right | Center

  /** One column of a table. */
  datatype TableColumnDefinition = TableColumnDefinition(Alignment: ColumnAlignment)

  // ---------------------------------------------------------------------
  // The separator row

  /**
    A well-formed separator cell: not empty, its first and last characters
    are ':' or '-', and every character in between is '-'. Put otherwise: a
    non-empty run of dashes and colons, with colons only at its ends.
   */
  predicate IsSeparatorCell(c: string): (ok: bool)
    ensures ok <==> |c| > 0 && forall j :: 0 <= j < |c| ==> c[j] == '-' || (c[j] == ':' && (j == 0 || j == |c| - 1))
  {
    && |c| > 0
    && (c[0] == ':' || c[0] == '-')
    && (c[|c| - 1] == ':' || c[|c| - 1] == '-')
    && forall j :: 0 < j < |c| - 1 ==> c[j] == '-'
  }

  /**
    The alignment a separator cell asks for: a colon at both ends centres,
    a colon at the start only aligns left, at the end only aligns right.
   */
  function AlignmentOf(c: string): (a: ColumnAlignment)
    requires |c| > 0
    ensures (a == Left || a == Center) <==> c[0] == ':'
    ensures (a == Right || a == Center) <==> |c| > 1 && c[|c| - 1] == ':'
  {
    if |c| > 1 && c[0] == ':' && c[|c| - 1] == ':' then Center
    else if c[0] == ':' then Left
    else if c[|c| - 1] == ':' then Right
    else Unspecified
  }

  /** `n` dashes. */
  function Dashes(n: nat): (s: string)
    ensures |s| == n
    ensures forall j :: 0 <= j < n ==> s[j] == '-'
  {
    if n == 0 then "" else Dashes(n - 1) + "-"
  }

  /** The number of dashes in a separator cell: all its characters but the colons at its ends. */
  function DashCount(c: string): nat
    requires |c| > 0
  {
    |c| - (if c[0] == ':' then 1 else 0) - (if |c| > 1 && c[|c| - 1] == ':' then 1 else 0)
  }

  /**
    The separator cell with `dashes` dashes that asks for alignment `a`.
    A cell made of one colon aligns left, so right and unspecified
    alignment need at least one dash.
   */
  function SeparatorFor(a: ColumnAlignment, dashes: nat): (c: string)
    requires a == Right || a == Unspecified ==> dashes > 0
    ensures IsSeparatorCell(c)
    ensures AlignmentOf(c) == a
    ensures DashCount(c) == dashes
  {
    match a
    case Unspecified => Dashes(dashes)
    case Left => ":" + Dashes(dashes)
    case Right => Dashes(dashes) + ":"
    case Center => ":" + Dashes(dashes) + ":"
  }

  /** Every separator cell is the one `SeparatorFor` writes for its alignment and dash count. */
  lemma SeparatorCellIsCanonical(c: string)
    requires IsSeparatorCell(c)
    ensures AlignmentOf(c) == Right || AlignmentOf(c) == Unspecified ==> DashCount(c) > 0
    ensures c == SeparatorFor(AlignmentOf(c), DashCount(c))
  {
    var a := AlignmentOf(c);
    var n := DashCount(c);
    var s := SeparatorFor(a, n);
    assert |s| == |c|;
    forall j | 0 <= j < |c|
      ensures s[j] == c[j]
    {
      if 0 < j < |c| - 1 {
        assert c[j] == '-';
      }
    }
  }

  /** The definitions of the first `count` columns, one per separator cell. */
  function ColumnsFrom(texts: seq<string>, count: nat): (columns: seq<TableColumnDefinition>)
    requires count <= |texts|
    requires forall i :: 0 <= i < count ==> IsSeparatorCell(texts[i])
    ensures |columns| == count
    decreases count
  {
    if count == 0 then []
    else
      assert IsSeparatorCell(texts[count - 1]);
      ColumnsFrom(texts, count - 1) + [TableColumnDefinition(AlignmentOf(texts[count - 1]))]
  }

  /** Column `i` takes the alignment its separator cell asks for. */
  lemma {:induction false} ColumnsFromAlignment(texts: seq<string>, count: nat, i: nat)
    requires count <= |texts|
    requires forall k :: 0 <= k < count ==> IsSeparatorCell(texts[k])
    requires i < count
    ensures ColumnsFrom(texts, count)[i] == TableColumnDefinition(AlignmentOf(texts[i]))
    decreases count
  {
    if i < count - 1 {
      ColumnsFromAlignment(texts, count - 1, i);
    }
  }

  // ---------------------------------------------------------------------
  // The table

  /** Every range lies inside the text. */
  predicate RangesWithin(md: string, ranges: seq<CellRange>) {
    forall i :: 0 <= i < |ranges| ==> ranges[i].start <= ranges[i].end <= |md|
  }

  /** The text of each range. */
  function CellTexts(md: string, ranges: seq<CellRange>): seq<string>
    requires RangesWithin(md, ranges)
  {
    seq(|ranges|, i requires 0 <= i < |ranges| => md[ranges[i].start..ranges[i].end])
  }

  /** The ranges a row reports lie inside the text. */
  lemma RowRangesWithin(md: string, startingPos: nat, maxEnd: nat, quoteDepth: nat, requireBar: bool, skip: QuoteSkipper)
    requires maxEnd <= |md|
    ensures RangesWithin(md, ScanRow(md, startingPos, maxEnd, quoteDepth, requireBar, skip).cells)
  {
    RowCellsAreTrimmed(md, startingPos, maxEnd, quoteDepth, requireBar, skip);
  }

  /** The body rows of a table, and the position where the table ends. */
  datatype BodyScan = BodyScan(rows: seq<seq<CellRange>>, end: nat)

  /**
    The rows after the separator: one row per line, each required to hold a
    bar, until the window is used up or a row reports no cell. That row is
    not part of the table, but the table ends where it ends.
   */
  function BodyRows(md: string, start: nat, maxEnd: nat, quoteDepth: nat, skip: QuoteSkipper): (b: BodyScan)
    requires maxEnd <= |md|
    ensures start <= b.end
    ensures start < maxEnd ==> b.end <= maxEnd + 1
    ensures |b.rows| > 0 ==> start < maxEnd
    decreases if start < maxEnd then maxEnd - start else 0
  {
    if start >= maxEnd then BodyScan([], start)
    else
      var row := ScanRow(md, start, maxEnd, quoteDepth, true, skip);
      if |row.cells| == 0 then BodyScan([], row.next)
      else
        var rest := BodyRows(md, row.next, maxEnd, quoteDepth, skip);
        BodyScan([row.cells] + rest.rows, rest.end)
  }

  /**
    The rows of a table as the parser builds them: one distinct row object
    per reported row, in order, each holding the cells of that row's ranges.
   */
  predicate RowsFrom(md: string, rows: seq<TableRow>, ranges: seq<seq<CellRange>>, parseChildren: InlineChildParser)
    reads rows
  {
    && |rows| == |ranges|
    && (forall k :: 0 <= k < |rows| ==> rows[k].Cells == CellsOf(md, ranges[k], parseChildren))
    && (forall j, k :: 0 <= j < k < |rows| ==> rows[j] != rows[k])
  }

  /** Two runs of rows with no row in common make one run. */
  lemma RowsFromConcat(md: string, a: seq<TableRow>, ra: seq<seq<CellRange>>, b: seq<TableRow>, rb: seq<seq<CellRange>>,
                       parseChildren: InlineChildParser)
    requires RowsFrom(md, a, ra, parseChildren) && RowsFrom(md, b, rb, parseChildren)
    requires forall j, k :: 0 <= j < |a| && 0 <= k < |b| ==> a[j] != b[k]
    ensures RowsFrom(md, a + b, ra + rb, parseChildren)
  {
    var rows, ranges := a + b, ra + rb;
    forall k | 0 <= k < |rows|
      ensures rows[k].Cells == CellsOf(md, ranges[k], parseChildren)
    {
      if k >= |a| {
        assert rows[k] == b[k - |a|] && ranges[k] == rb[k - |a|];
      }
    }
    forall j, k | 0 <= j < k < |rows|
      ensures rows[j] != rows[k]
    {
      if k < |a| {
      } else if j >= |a| {
        assert rows[j] == b[j - |a|] && rows[k] == b[k - |a|];
      } else {
        assert rows[k] == b[k - |a|];
      }
    }
  }

  /** The outcome of parsing a table: no table, or its rows, columns and end. */
  datatype TableLayout =
    | NotATable
    | TableLayout(header: seq<CellRange>, separator: seq<string>, columns: seq<TableColumnDefinition>,
                  body: seq<seq<CellRange>>, end: nat)

  /**
    What `TableBlock.Parse` computes. The first line must hold a bar; the
    header row is split with a bar required, the separator row without; the
    separator row must have at least as many cells as the header, and each
    of its first cells -- one per header cell -- must be a separator cell;
    the later cells of the separator row are not looked at. The body rows
    follow.
   */
  function ParseTable(md: string, start: nat, endOfFirstLine: nat, maxEnd: nat, quoteDepth: nat, skip: QuoteSkipper): (t: TableLayout)
    requires start <= endOfFirstLine <= |md|
    requires maxEnd <= |md|
    ensures t.TableLayout? ==> IndexOf(md, '|', start, endOfFirstLine) != -1
    ensures t.TableLayout? ==> |t.columns| == |t.header| <= |t.separator|
  {
    if IndexOf(md, '|', start, endOfFirstLine) == -1 then NotATable
    else
      var header := ScanRow(md, start, maxEnd, quoteDepth, true, skip);
      var sep := ScanRow(md, header.next, maxEnd, quoteDepth, false, skip);
      RowRangesWithin(md, header.next, maxEnd, quoteDepth, false, skip);
      var texts := CellTexts(md, sep.cells);
      if |texts| < |header.cells| then NotATable
      else if !(forall i :: 0 <= i < |header.cells| ==> IsSeparatorCell(texts[i])) then NotATable
      else
        var body := BodyRows(md, sep.next, maxEnd, quoteDepth, skip);
        TableLayout(header.cells, texts, ColumnsFrom(texts, |header.cells|), body.rows, body.end)
  }

  class TableBlock {
    var Type: MarkdownBlockType
    var Rows: seq<TableRow>
    var ColumnDefinitions: seq<TableColumnDefinition>

    constructor ()
      ensures Type == Table && Rows == [] && ColumnDefinitions == []
    {
      Type := Table;
      Rows := [];
      ColumnDefinitions := [];
    }

    /** A table block with the given columns and rows, as `Parse` builds it. */
    constructor WithRows(columns: seq<TableColumnDefinition>, rows: seq<TableRow>)
      ensures Type == Table && ColumnDefinitions == columns && Rows == rows
    {
      Type := Table;
      Rows := rows;
      ColumnDefinitions := columns;
    }

    /**
      Parses a table that starts at `start`. Returns null, with `actualEnd`
      left at `start`, when the text is not a table; otherwise a new table
      whose first row is the header, whose other rows are the body rows,
      and whose columns are those the separator row defines.
     */
    static method Parse(markdown: string, start: nat, endOfFirstLine: nat, maxEnd: nat, quoteDepth: nat,
                        skip: QuoteSkipper, parseChildren: InlineChildParser)
      returns (table: TableBlock?, actualEnd: nat)
      requires start <= endOfFirstLine <= |markdown|
      requires maxEnd <= |markdown|
      ensures var t := ParseTable(markdown, start, endOfFirstLine, maxEnd, quoteDepth, skip);
              && (table == null <==> t.NotATable?)
              && (table == null ==> actualEnd == start)
              && (table != null ==>
                    && fresh(table)
                    && table.Type == Table
                    && table.ColumnDefinitions == t.columns
                    && actualEnd == t.end
                    && RowsFrom(markdown, table.Rows, [t.header] + t.body, parseChildren)
                    && forall i :: 0 <= i < |table.Rows| ==> fresh(table.Rows[i]))
    {
      actualEnd := start;

      // The first line must hold a vertical bar.
      var barOrNewLineIndex := IndexOf(markdown, '|', start, endOfFirstLine);
      if barOrNewLineIndex < 0 {
        return null, actualEnd;
      }

      // The header row.
      var rows: seq<TableRow> := [];
      var firstRow, pos := NewRow(markdown, start, maxEnd, quoteDepth, skip, parseChildren);
      rows := rows + [firstRow];
      ghost var header := ScanRow(markdown, start, maxEnd, quoteDepth, true, skip);
      assert RowsFrom(markdown, rows, [header.cells], parseChildren);

      // The separator row, kept as the text of its cells.
      var secondRowRanges;
      ghost var sepStart := pos;
      pos, secondRowRanges := TableRow.ParseContents(markdown, pos, maxEnd, quoteDepth, false, skip);
      RowRangesWithin(markdown, sepStart, maxEnd, quoteDepth, false, skip);
      var secondRowContents := CellTexts(markdown, secondRowRanges);

      if |secondRowContents| < |firstRow.Cells| {
        return null, actualEnd;
      }

      // One column per header cell; later separator cells are not looked at.
      var columnDefinitions := ParseColumnDefinitions(secondRowContents, |firstRow.Cells|);
      if columnDefinitions.None? {
        return null, actualEnd;
      }

      // The body rows.
      var bodyRows;
      ghost var bodyStart := pos;
      bodyRows, pos := ParseBodyRows(markdown, pos, maxEnd, quoteDepth, skip, parseChildren);
      RowsFromConcat(markdown, rows, [header.cells], bodyRows, BodyRows(markdown, bodyStart, maxEnd, quoteDepth, skip).rows, parseChildren);
      rows := rows + bodyRows;
      assert ParseTable(markdown, start, endOfFirstLine, maxEnd, quoteDepth, skip)
          == TableLayout(header.cells, secondRowContents, columnDefinitions.value,
                         BodyRows(markdown, bodyStart, maxEnd, quoteDepth, skip).rows, pos);

      actualEnd := pos;
      table := new TableBlock.WithRows(columnDefinitions.value, rows);
    }

    /**
      The column loop of `Parse`: one definition per separator cell among
      the first `count`, or `None` as soon as one of them is not a separator
      cell.
     */
    static method ParseColumnDefinitions(secondRowContents: seq<string>, count: nat)
      returns (columns: Option<seq<TableColumnDefinition>>)
      requires count <= |secondRowContents|
      ensures columns.Some? <==> forall i :: 0 <= i < count ==> IsSeparatorCell(secondRowContents[i])
      ensures columns.Some? ==> columns.value == ColumnsFrom(secondRowContents, count)
    {
      var columnDefinitions: seq<TableColumnDefinition> := [];
      for i := 0 to count
        invariant forall k :: 0 <= k < i ==> IsSeparatorCell(secondRowContents[k])
        invariant columnDefinitions == ColumnsFrom(secondRowContents, i)
      {
        var columnDefinition := ParseColumnDefinition(secondRowContents[i]);
        if columnDefinition.None? {
          return None;
        }
        columnDefinitions := columnDefinitions + [columnDefinition.value];
      }
      columns := Some(columnDefinitions);
    }

    /** A new row parsed from `start`, and the position after it. */
    static method NewRow(markdown: string, start: nat, maxEnd: nat, quoteDepth: nat,
                         skip: QuoteSkipper, parseChildren: InlineChildParser)
      returns (row: TableRow, next: nat)
      requires maxEnd <= |markdown|
      ensures var scan := ScanRow(markdown, start, maxEnd, quoteDepth, true, skip);
              fresh(row) && next == scan.next && row.Cells == CellsOf(markdown, scan.cells, parseChildren)
    {
      row := new TableRow();
      next := row.Parse(markdown, start, maxEnd, quoteDepth, skip, parseChildren);
    }

    /**
      The row loop of `Parse`: new rows, one per body row, and the position
      where the table ends.
     */
    static method ParseBodyRows(markdown: string, start: nat, maxEnd: nat, quoteDepth: nat,
                                skip: QuoteSkipper, parseChildren: InlineChildParser)
      returns (rows: seq<TableRow>, end: nat)
      requires maxEnd <= |markdown|
      ensures var body := BodyRows(markdown, start, maxEnd, quoteDepth, skip);
              && end == body.end
              && RowsFrom(markdown, rows, body.rows, parseChildren)
              && forall k :: 0 <= k < |rows| ==> fresh(rows[k])
    {
      rows := [];
      var pos := start;
      ghost var done: seq<seq<CellRange>> := [];
      ghost var stopped := false;
      while pos < maxEnd
        invariant !stopped && BodyTracks(markdown, start, maxEnd, quoteDepth, skip, done, pos)
        invariant RowsFrom(markdown, rows, done, parseChildren)
        invariant forall k :: 0 <= k < |rows| ==> fresh(rows[k])
        decreases if pos < maxEnd then maxEnd - pos else 0
      {
        ghost var from := pos;
        var row;
        row, pos := NewRow(markdown, pos, maxEnd, quoteDepth, skip, parseChildren);
        if |row.Cells| == 0 {
          BodyStops(markdown, start, maxEnd, quoteDepth, skip, done, from);
          stopped := true;
          break;
        }
        BodyStep(markdown, start, maxEnd, quoteDepth, skip, done, from);
        ghost var cells := ScanRow(markdown, from, maxEnd, quoteDepth, true, skip).cells;
        assert RowsFrom(markdown, [row], [cells], parseChildren);
        RowsFromConcat(markdown, rows, done, [row], [cells], parseChildren);
        rows := rows + [row];
        done := done + [cells];
      }
      if !stopped {
        BodyEnds(markdown, start, maxEnd, quoteDepth, skip, done, pos);
      }
      assert BodyRows(markdown, start, maxEnd, quoteDepth, skip).rows == done;
      end := pos;
    }

    /**
      Checks one separator cell and reads off the alignment it asks for;
      `None` when the cell is not a separator cell.
     */
    static method ParseColumnDefinition(cellContent: string) returns (def: Option<TableColumnDefinition>)
      ensures def == if IsSeparatorCell(cellContent) then Some(TableColumnDefinition(AlignmentOf(cellContent))) else None
    {
      if |cellContent| == 0 {
        return None;
      }

      // Both ends: a colon or a dash.
      if cellContent[0] != ':' && cellContent[0] != '-' {
        return None;
      }
      if cellContent[|cellContent| - 1] != ':' && cellContent[|cellContent| - 1] != '-' {
        return None;
      }

      // Between the ends: dashes only.
      var j := 1;
      while j < |cellContent| - 1
        invariant 1 <= j
        invariant forall k :: 0 < k < j && k < |cellContent| - 1 ==> cellContent[k] == '-'
      {
        if cellContent[j] != '-' {
          return None;
        }
        j := j + 1;
      }

      // The colons decide the alignment.
      var alignment := Unspecified;
      if |cellContent| > 1 && cellContent[0] == ':' && cellContent[|cellContent| - 1] == ':' {
        alignment := Center;
      } else if cellContent[0] == ':' {
        alignment := Left;
      } else if cellContent[|cellContent| - 1] == ':' {
        alignment := Right;
      }
      def := Some(TableColumnDefinition(alignment));
    }
  }
  /**
    The body rows from `start` are the rows `done` already parsed followed
    by the body rows from `pos`.
   */
  predicate BodyTracks(md: string, start: nat, maxEnd: nat, quoteDepth: nat, skip: QuoteSkipper,
                       done: seq<seq<CellRange>>, pos: nat)
    requires maxEnd <= |md|
  {
    var rest := BodyRows(md, pos, maxEnd, quoteDepth, skip);
    BodyRows(md, start, maxEnd, quoteDepth, skip) == BodyScan(done + rest.rows, rest.end)
  }

  /** A row with cells joins the table, and the body goes on after it. */
  lemma BodyStep(md: string, start: nat, maxEnd: nat, quoteDepth: nat, skip: QuoteSkipper,
                 done: seq<seq<CellRange>>, pos: nat)
    requires maxEnd <= |md|
    requires pos < maxEnd
    requires BodyTracks(md, start, maxEnd, quoteDepth, skip, done, pos)
    requires |ScanRow(md, pos, maxEnd, quoteDepth, true, skip).cells| > 0
    ensures var row := ScanRow(md, pos, maxEnd, quoteDepth, true, skip);
            BodyTracks(md, start, maxEnd, quoteDepth, skip, done + [row.cells], row.next)
  {
    var row := ScanRow(md, pos, maxEnd, quoteDepth, true, skip);
    var rest := BodyRows(md, row.next, maxEnd, quoteDepth, skip);
    assert done + ([row.cells] + rest.rows) == (done + [row.cells]) + rest.rows;
  }

  /** A row without cells ends the table where that row ends. */
  lemma BodyStops(md: string, start: nat, maxEnd: nat, quoteDepth: nat, skip: QuoteSkipper,
                  done: seq<seq<CellRange>>, pos: nat)
    requires maxEnd <= |md|
    requires pos < maxEnd
    requires BodyTracks(md, start, maxEnd, quoteDepth, skip, done, pos)
    requires |ScanRow(md, pos, maxEnd, quoteDepth, true, skip).cells| == 0
    ensures BodyRows(md, start, maxEnd, quoteDepth, skip) == BodyScan(done, ScanRow(md, pos, maxEnd, quoteDepth, true, skip).next)
  {
    assert done + [] == done;
  }

  /** At the end of the window the table ends where the last row ended. */
  lemma BodyEnds(md: string, start: nat, maxEnd: nat, quoteDepth: nat, skip: QuoteSkipper,
                 done: seq<seq<CellRange>>, pos: nat)
    requires maxEnd <= |md|
    requires pos >= maxEnd
    requires BodyTracks(md, start, maxEnd, quoteDepth, skip, done, pos)
    ensures BodyRows(md, start, maxEnd, quoteDepth, skip) == BodyScan(done, pos)
  {
    assert done + [] == done;
  }
  // ---------------------------------------------------------------------
  // Facts about parsed tables

  /**
    Every body row has at least one cell, and the table ends no earlier than
    the body starts and at most one past the end of the window.
   */
  lemma {:induction false} BodyRowsShape(md: string, start: nat, maxEnd: nat, quoteDepth: nat, skip: QuoteSkipper)
    requires maxEnd <= |md|
    ensures var b := BodyRows(md, start, maxEnd, quoteDepth, skip);
            && (forall i :: 0 <= i < |b.rows| ==> |b.rows[i]| > 0)
            && start <= b.end
            && (start < maxEnd ==> b.end <= maxEnd + 1)
            && (start >= maxEnd ==> b == BodyScan([], start))
    decreases if start < maxEnd then maxEnd - start else 0
  {
    if start < maxEnd {
      var row := ScanRow(md, start, maxEnd, quoteDepth, true, skip);
      if |row.cells| > 0 {
        BodyRowsShape(md, row.next, maxEnd, quoteDepth, skip);
        var rest := BodyRows(md, row.next, maxEnd, quoteDepth, skip);
        var b := BodyRows(md, start, maxEnd, quoteDepth, skip);
        assert b.rows == [row.cells] + rest.rows;
        forall i | 0 <= i < |b.rows|
          ensures |b.rows[i]| > 0
        {
          if i > 0 {
            assert b.rows[i] == rest.rows[i - 1];
          }
        }
      }
    }
  }

  /**
    A parsed table: its first line holds a bar; there is one column per
    header cell, the separator row has at least that many cells, and each of
    the first of them is a separator cell whose alignment its column takes;
    every body row has a cell; and the table ends after its start, at most
    one past the end of the window.
   */
  lemma TableShape(md: string, start: nat, endOfFirstLine: nat, maxEnd: nat, quoteDepth: nat, skip: QuoteSkipper)
    requires start <= endOfFirstLine <= |md|
    requires maxEnd <= |md|
    ensures var t := ParseTable(md, start, endOfFirstLine, maxEnd, quoteDepth, skip);
            t.TableLayout? ==>
              && IndexOf(md, '|', start, endOfFirstLine) != -1
              && |t.columns| == |t.header| <= |t.separator|
              && (forall i :: 0 <= i < |t.header| ==>
                    IsSeparatorCell(t.separator[i]) && t.columns[i].Alignment == AlignmentOf(t.separator[i]))
              && (forall i :: 0 <= i < |t.body| ==> |t.body[i]| > 0)
              && start <= t.end
              && (start <= maxEnd ==> t.end <= maxEnd + 1)
  {
    var t := ParseTable(md, start, endOfFirstLine, maxEnd, quoteDepth, skip);
    if t.TableLayout? {
      var header := ScanRow(md, start, maxEnd, quoteDepth, true, skip);
      var sep := ScanRow(md, header.next, maxEnd, quoteDepth, false, skip);
      BodyRowsShape(md, sep.next, maxEnd, quoteDepth, skip);
      forall i | 0 <= i < |t.header|
        ensures IsSeparatorCell(t.separator[i]) && t.columns[i].Alignment == AlignmentOf(t.separator[i])
      {
        ColumnsFromAlignment(t.separator, |t.header|, i);
      }
    }
  }

  /**
    One malformed separator cell among the first `|header|` rejects the
    whole table, whatever the other cells hold.
   */
  lemma OneBadColumnRejects(md: string, start: nat, endOfFirstLine: nat, maxEnd: nat, quoteDepth: nat, skip: QuoteSkipper, i: nat)
    requires start <= endOfFirstLine <= |md|
    requires maxEnd <= |md|
    requires var header := ScanRow(md, start, maxEnd, quoteDepth, true, skip);
             var sep := ScanRow(md, header.next, maxEnd, quoteDepth, false, skip);
             && i < |header.cells| <= |sep.cells|
             && sep.cells[i].start <= sep.cells[i].end <= |md|
             && !IsSeparatorCell(md[sep.cells[i].start..sep.cells[i].end])
    ensures ParseTable(md, start, endOfFirstLine, maxEnd, quoteDepth, skip) == NotATable
  {
    var header := ScanRow(md, start, maxEnd, quoteDepth, true, skip);
    var sep := ScanRow(md, header.next, maxEnd, quoteDepth, false, skip);
    RowRangesWithin(md, header.next, maxEnd, quoteDepth, false, skip);
    assert CellTexts(md, sep.cells)[i] == md[sep.cells[i].start..sep.cells[i].end];
  }

  /**
    A table is accepted exactly when its first line holds a bar, the
    separator row has a cell for every header cell, and each of those cells
    is a separator cell; separator cells past the header's count are never
    looked at.
   */
  lemma TableAccepted(md: string, start: nat, endOfFirstLine: nat, maxEnd: nat, quoteDepth: nat, skip: QuoteSkipper)
    requires start <= endOfFirstLine <= |md|
    requires maxEnd <= |md|
    ensures var header := ScanRow(md, start, maxEnd, quoteDepth, true, skip);
            var sep := ScanRow(md, header.next, maxEnd, quoteDepth, false, skip);
            ParseTable(md, start, endOfFirstLine, maxEnd, quoteDepth, skip).TableLayout? <==>
              && IndexOf(md, '|', start, endOfFirstLine) != -1
              && |header.cells| <= |sep.cells|
              && forall i :: 0 <= i < |header.cells| ==>
                   sep.cells[i].start <= sep.cells[i].end <= |md| &&
                   IsSeparatorCell(md[sep.cells[i].start..sep.cells[i].end])
  {
    var header := ScanRow(md, start, maxEnd, quoteDepth, true, skip);
    var sep := ScanRow(md, header.next, maxEnd, quoteDepth, false, skip);
    RowRangesWithin(md, header.next, maxEnd, quoteDepth, false, skip);
    var texts := CellTexts(md, sep.cells);
    assert forall i :: 0 <= i < |texts| ==> texts[i] == md[sep.cells[i].start..sep.cells[i].end];
  }

  /** Text that makes a cell by itself: not empty, no delimiter, no whitespace. */
  predicate IsPlainCell(c: string) {
    |c| > 0 && forall i :: 0 <= i < |c| ==> !IsCellDelimiter(c[i]) && !IsWhiteSpace(c[i])
  }

  /** A line "a|b" at the end of the text splits into the cells `a` and `b`. */
  lemma TwoCellLine(md: string, pos: nat, a: string, b: string)
    requires pos <= |md| && md[pos..] == a + "|" + b
    requires IsPlainCell(a) && IsPlainCell(b)
    ensures ScanCells(md, pos, |md|) == RowScan(|md|, [CellRange(pos, pos + |a|), CellRange(pos + |a| + 1, |md|)])
  {
    var x := pos + |a|;
    forall i | pos <= i < x
      ensures !IsCellDelimiter(md[i]) && !IsWhiteSpace(md[i])
    {
      assert md[i] == md[pos..][i - pos] == a[i - pos];
    }
    forall i | x + 1 <= i < |md|
      ensures !IsCellDelimiter(md[i]) && !IsWhiteSpace(md[i])
    {
      assert md[i] == md[pos..][i - pos] == b[i - x - 1];
    }
    assert md[x] == md[pos..][|a|] == '|';
    CellEndUnique(md, pos, |md|, x);
    TrimStartUnique(md, pos, x, pos);
    TrimEndUnique(md, pos, x, x);
    CellEndUnique(md, x + 1, |md|, |md|);
    TrimStartUnique(md, x + 1, |md|, x + 1);
    TrimEndUnique(md, x + 1, |md|, |md|);
  }

  /** The header line "A|B" splits into two one-letter cells and moves to the next line. */
  lemma HeaderAB(md: string)
    requires |md| >= 4 && md[..4] == "A|B\n"
    ensures IndexOf(md, '|', 0, 3) == 1
    ensures ScanRow(md, 0, |md|, 0, true, StayPut) == RowScan(4, [CellRange(0, 1), CellRange(2, 3)])
  {
    assert md[0] == md[..4][0] == 'A';
    assert md[1] == md[..4][1] == '|';
    assert md[2] == md[..4][2] == 'B';
    assert md[3] == md[..4][3] == '\n';
    assert CellEnd(md, 0, |md|) == 1;
    assert CellEnd(md, 2, |md|) == 3;
    assert ScanCells(md, 2, |md|) == RowScan(4, [CellRange(2, 3)]);
  }

  /**
    Under the header "A|B", a separator line "a|b" gives a table of two
    columns aligned as `a` and `b` ask, with no body, ending at the end of
    the text -- when both are separator cells; otherwise no table.
   */
  lemma TwoColumnTable(md: string, a: string, b: string)
    requires md == "A|B\n" + a + "|" + b
    requires IsPlainCell(a) && IsPlainCell(b)
    ensures ParseTable(md, 0, 3, |md|, 0, StayPut) ==
              if IsSeparatorCell(a) && IsSeparatorCell(b) then
                TableLayout([CellRange(0, 1), CellRange(2, 3)], [a, b],
                            [TableColumnDefinition(AlignmentOf(a)), TableColumnDefinition(AlignmentOf(b))], [], |md|)
              else NotATable
  {
    assert md[..4] == "A|B\n";
    HeaderAB(md);
    SeparatorAB(md, a, b);
    assert BodyRows(md, |md|, |md|, 0, StayPut) == BodyScan([], |md|);
  }

  /** The separator line of `TwoColumnTable`: its cells are `a` and `b`, and it ends the text. */
  lemma SeparatorAB(md: string, a: string, b: string)
    requires md == "A|B\n" + a + "|" + b
    requires IsPlainCell(a) && IsPlainCell(b)
    ensures var sep := ScanRow(md, 4, |md|, 0, false, StayPut);
            && sep == RowScan(|md|, [CellRange(4, 4 + |a|), CellRange(5 + |a|, |md|)])
            && RangesWithin(md, sep.cells)
            && CellTexts(md, sep.cells) == [a, b]
  {
    assert md[4..] == a + "|" + b;
    TwoCellLine(md, 4, a, b);
    assert md[4] == a[0];
    assert md[4..4 + |a|] == a;
    assert md[5 + |a|..|md|] == b;
  }

  /** Header "A|B" over separator "--|--": two columns of unspecified alignment. */
  lemma PlainSeparatorExample(md: string)
    requires md == "A|B\n--|--"
    ensures ParseTable(md, 0, 3, |md|, 0, StayPut).TableLayout?
    ensures ParseTable(md, 0, 3, |md|, 0, StayPut).columns == [TableColumnDefinition(Unspecified), TableColumnDefinition(Unspecified)]
  {
    TwoColumnTable(md, "--", "--");
  }

  /** Header "A|B" over separator ":--|--:": a left-aligned and a right-aligned column. */
  lemma AlignedSeparatorExample(md: string)
    requires md == "A|B\n:--|--:"
    ensures ParseTable(md, 0, 3, |md|, 0, StayPut).TableLayout?
    ensures ParseTable(md, 0, 3, |md|, 0, StayPut).columns == [TableColumnDefinition(Left), TableColumnDefinition(Right)]
  {
    TwoColumnTable(md, ":--", "--:");
  }

  /** Header "A|B" over separator "--|xx": the whole table is rejected. */
  lemma MalformedSeparatorExample(md: string)
    requires md == "A|B\n--|xx"
    ensures ParseTable(md, 0, 3, |md|, 0, StayPut) == NotATable
  {
    TwoColumnTable(md, "--", "xx");
    assert !IsSeparatorCell("xx");
  }
}
