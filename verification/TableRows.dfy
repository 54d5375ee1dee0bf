/**
  One row of a Markdown table: splitting a line into cells.

  `TableRow.ParseContents` walks a cursor over one line, skipping the quote
  prefix and an optional leading bar, and reports the trimmed range of every
  cell. The source hands each range to a callback as soon as it is found;
  here the method returns the ranges in the order the callback would have
  received them. `ScanRow` and `ScanCells` state, cell by cell, what the
  cursor loop computes, and the lemmas below state what the reported ranges
  and the returned position look like.

  The scanning functions keep only quantifier-free postconditions; the
  quantified facts about them are lemmas, called where they are needed.
 */
module TableRows {
  import opened Common
  import opened Elements

  /** The range `[start, end)` of one cell's content. */
  datatype CellRange = CellRange(start: nat, end: nat)

  /** What the row splitter produces: where the next line starts, and the cells. */
  datatype RowScan = RowScan(next: nat, cells: seq<CellRange>)

  /** A table cell holds the inline elements parsed from its range. */
  datatype TableCell = TableCell(inlines: seq<Inline>)

  /** A cell ends at a vertical bar or at the end of the line. */
  predicate IsCellDelimiter(c: char) {
    c == '|' || c == '\n'
  }

  /** The first delimiter at or after `pos` in the window, or `maxEnd`. */
  function CellEnd(md: string, pos: nat, maxEnd: nat): (x: nat)
    requires pos <= maxEnd <= |md|
    ensures pos <= x <= maxEnd
    ensures x < maxEnd ==> IsCellDelimiter(md[x])
    decreases maxEnd - pos
  {
    if pos == maxEnd || IsCellDelimiter(md[pos]) then pos else CellEnd(md, pos + 1, maxEnd)
  }

  /** The start of `[s, e)` once leading whitespace is dropped. */
  function TrimStart(md: string, s: nat, e: nat): (r: nat)
    requires s <= e <= |md|
    ensures s <= r <= e
    ensures r < e ==> !IsWhiteSpace(md[r])
    decreases e - s
  {
    if s < e && IsWhiteSpace(md[s]) then TrimStart(md, s + 1, e) else s
  }

  /** The end of `[s, e)` once trailing whitespace is dropped. */
  function TrimEnd(md: string, s: nat, e: nat): (r: nat)
    requires s <= e <= |md|
    ensures s <= r <= e
    ensures s < r ==> !IsWhiteSpace(md[r - 1])
    decreases e - s
  {
    if s < e && IsWhiteSpace(md[e - 1]) then TrimEnd(md, s, e - 1) else e
  }

  /**
    The cells of the rest of a line, from the start `pos` of a cell: the text
    up to the next delimiter, trimmed, is one cell. A cell closed by a bar is
    always reported, even when empty; the last cell of the line only when it
    is not empty. The next position is one past the line's newline, or the
    end of the window -- or one past it, when the last cell reaches the end
    of the window and loses trailing whitespace to the trim.
   */
  function ScanCells(md: string, pos: nat, maxEnd: nat): (r: RowScan)
    requires pos <= maxEnd <= |md|
    ensures pos < maxEnd ==> pos < r.next <= maxEnd + 1
    ensures pos == maxEnd ==> r == RowScan(maxEnd, [])
    decreases maxEnd - pos
  {
    var x := CellEnd(md, pos, maxEnd);
    var s := TrimStart(md, pos, x);
    var e := TrimEnd(md, s, x);
    if x < maxEnd && md[x] == '|' then
      var rest := ScanCells(md, x + 1, maxEnd);
      RowScan(rest.next, [CellRange(s, e)] + rest.cells)
    else if x < maxEnd then
      RowScan(x + 1, if s < e then [CellRange(s, e)] else [])
    else
      RowScan(if e == maxEnd then maxEnd else maxEnd + 1, if s < e then [CellRange(s, e)] else [])
  }

  /** True when the cell starting at `pos` is closed by a vertical bar. */
  predicate CellEndsAtBar(md: string, pos: nat, maxEnd: nat)
    requires pos <= maxEnd <= |md|
  {
    var x := CellEnd(md, pos, maxEnd);
    x < maxEnd && md[x] == '|'
  }

  /**
    True when a bar is required and the row bails out: the line does not
    start at the window end (a blank line does not count as that), does not
    start with a bar, and its first cell is not closed by one.
   */
  predicate MissesRequiredBar(md: string, startingPos: nat, maxEnd: nat, quoteDepth: nat, requireBar: bool, skip: QuoteSkipper)
    requires maxEnd <= |md|
  {
    var p := skip(md, startingPos, maxEnd, quoteDepth);
    requireBar && p < maxEnd && md[p] != '|' && !CellEndsAtBar(md, p, maxEnd)
  }

  /** What `TableRow.ParseContents` computes. */
  function ScanRow(md: string, startingPos: nat, maxEnd: nat, quoteDepth: nat, requireBar: bool, skip: QuoteSkipper): (r: RowScan)
    requires maxEnd <= |md|
    ensures startingPos <= r.next
    ensures startingPos <= maxEnd ==> r.next <= maxEnd + 1
    ensures |r.cells| > 0 ==> startingPos < r.next
  {
    var p := skip(md, startingPos, maxEnd, quoteDepth);
    var first := if p < maxEnd && md[p] == '|' then p + 1 else p;
    if MissesRequiredBar(md, startingPos, maxEnd, quoteDepth, requireBar, skip) then RowScan(startingPos, [])
    else if first <= maxEnd then ScanCells(md, first, maxEnd)
    else RowScan(first, [])
  }

  /** The table cells built from the reported ranges, one per range, in order. */
  function CellsOf(md: string, ranges: seq<CellRange>, parseChildren: InlineChildParser): (cells: seq<TableCell>)
    ensures |cells| == |ranges|
  {
    seq(|ranges|, i requires 0 <= i < |ranges| => TableCell(parseChildren(md, ranges[i].start, ranges[i].end)))
  }

  class TableRow {
    var Cells: seq<TableCell>

    constructor ()
      ensures Cells == []
    {
      Cells := [];
    }

    /**
      Splits the line at `startingPos` into cells and returns the start of
      the next line, or `startingPos` itself when a bar is required and the
      line has none.
     */
    static method ParseContents(markdown: string, startingPos: nat, maxEndingPos: nat, quoteDepth: nat,
                                requireVerticalBar: bool, skip: QuoteSkipper)
      returns (next: nat, cells: seq<CellRange>)
      requires maxEndingPos <= |markdown|
      ensures RowScan(next, cells) == ScanRow(markdown, startingPos, maxEndingPos, quoteDepth, requireVerticalBar, skip)
    {
      // The line's content begins after its quote prefix.
      var pos := skip(markdown, startingPos, maxEndingPos, quoteDepth);
      ghost var p := pos;

      // A bar in front of the first cell is consumed and remembered.
      var lineHasVerticalBar := false;
      if pos < maxEndingPos && markdown[pos] == '|' {
        lineHasVerticalBar := true;
        pos := pos + 1;
      }
      ScanRowCases(markdown, startingPos, maxEndingPos, quoteDepth, requireVerticalBar, skip, p, pos);

      var exitEarly;
      exitEarly, next, cells := ParseCells(markdown, pos, maxEndingPos, lineHasVerticalBar, requireVerticalBar);
      if exitEarly {
        next, cells := startingPos, [];
      }
    }

    /**
      The cell loop of `ParseContents`, from the start `pos` of the first
      cell. It exits early, reporting nothing, when a bar is required, the
      line did not start with one and its first cell is not closed by one.
     */
    static method ParseCells(markdown: string, pos: nat, maxEndingPos: nat, lineHasVerticalBar: bool, requireVerticalBar: bool)
      returns (exitEarly: bool, next: nat, cells: seq<CellRange>)
      requires maxEndingPos <= |markdown|
      ensures exitEarly <==> requireVerticalBar && !lineHasVerticalBar && pos < maxEndingPos && !CellEndsAtBar(markdown, pos, maxEndingPos)
      ensures !exitEarly && pos <= maxEndingPos ==> RowScan(next, cells) == ScanCells(markdown, pos, maxEndingPos)
      ensures pos > maxEndingPos ==> next == pos && cells == []
    {
      ghost var first := pos;
      ghost var lead := lineHasVerticalBar;
      var lineHasVerticalBar := lineHasVerticalBar;
      next := pos;
      cells := [];
      CellLoopStarts(markdown, maxEndingPos, first, lead, requireVerticalBar);
      ghost var stopped := false;
      while next < maxEndingPos
        invariant !stopped && CellLoop(markdown, maxEndingPos, first, lead, requireVerticalBar, next, cells, lineHasVerticalBar)
        decreases maxEndingPos - next
      {
        var exit, lastCell;
        exit, lastCell, next, cells, lineHasVerticalBar :=
          ParseCell(markdown, maxEndingPos, next, lineHasVerticalBar, requireVerticalBar, cells, first, lead);
        if exit {
          return true, next, [];
        }
        if lastCell {
          stopped := true;
          break;
        }
      }
      if !stopped {
        CellLoopEnds(markdown, maxEndingPos, first, lead, requireVerticalBar, next, cells, lineHasVerticalBar);
      }
      exitEarly := false;
    }

    /**
      One pass of the cell loop of `ParseContents`, on the cell that starts
      at `pos`: it exits early when a bar is required and the line has none
      so far; otherwise it reports the cell and either stops -- at the end
      of the line or of the window -- or moves past the bar to the next cell.
     */
    static method ParseCell(markdown: string, maxEndingPos: nat, pos: nat, lineHasVerticalBar: bool, requireVerticalBar: bool,
                            cells: seq<CellRange>, ghost first: nat, ghost lead: bool)
      returns (exitEarly: bool, lastCell: bool, next: nat, reported: seq<CellRange>, barSeen: bool)
      requires pos < maxEndingPos <= |markdown|
      requires CellLoop(markdown, maxEndingPos, first, lead, requireVerticalBar, pos, cells, lineHasVerticalBar)
      ensures exitEarly ==> ExitsEarly(markdown, first, maxEndingPos, lead, requireVerticalBar)
      ensures !exitEarly && lastCell ==>
                !ExitsEarly(markdown, first, maxEndingPos, lead, requireVerticalBar) &&
                LoopResult(markdown, first, maxEndingPos) == RowScan(next, reported)
      ensures !exitEarly && !lastCell ==>
                pos < next && CellLoop(markdown, maxEndingPos, first, lead, requireVerticalBar, next, reported, barSeen)
    {
      var startOfCellContent, endOfCell, endOfLineFound := LocateCell(markdown, pos, maxEndingPos);
      barSeen := lineHasVerticalBar || !endOfLineFound;

      // A line that must have a bar but reaches its end without one: bail out.
      if endOfLineFound && !barSeen && requireVerticalBar {
        CellLoopExitsEarly(markdown, maxEndingPos, first, lead, requireVerticalBar, pos, cells, lineHasVerticalBar);
        return true, false, endOfCell, [], barSeen;
      }

      var endOfCellContent;
      endOfCellContent, reported := ReportCell(markdown, startOfCellContent, endOfCell, endOfLineFound, cells);
      CellLoopStep(markdown, maxEndingPos, first, lead, requireVerticalBar, pos, cells, lineHasVerticalBar);
      exitEarly := false;

      // The trimmed content reaches the window end: the row is done.
      if endOfCellContent == maxEndingPos {
        return false, true, endOfCellContent, reported, barSeen;
      }

      // Continue after the delimiter; a newline delimiter ends the row.
      next := endOfCell + 1;
      lastCell := endOfLineFound;
    }

    /**
      The last two steps for one cell: drop the whitespace at its end, then
      report it -- always when a bar closed it, otherwise only when it is
      not empty.
     */
    static method ReportCell(markdown: string, startOfCellContent: nat, endOfCell: nat, endOfLineFound: bool, cells: seq<CellRange>)
      returns (endOfCellContent: nat, reported: seq<CellRange>)
      requires startOfCellContent <= endOfCell <= |markdown|
      requires startOfCellContent < endOfCell ==> !IsWhiteSpace(markdown[startOfCellContent])
      ensures endOfCellContent == TrimEnd(markdown, startOfCellContent, endOfCell)
      ensures reported == if !endOfLineFound || endOfCellContent > startOfCellContent
                          then cells + [CellRange(startOfCellContent, endOfCellContent)] else cells
    {
      // Trim the cell's tail.
      endOfCellContent := SkipTrailingWhiteSpace(markdown, startOfCellContent, endOfCell);

      reported := cells;
      if !endOfLineFound || endOfCellContent > startOfCellContent {
        // Hand the trimmed range on.
        reported := cells + [CellRange(startOfCellContent, endOfCellContent)];
      }
    }

    /**
      The first two steps for one cell: skip the whitespace at its start
      (except a newline), then find its end, and say whether that end is
      the end of the line rather than a bar.
     */
    static method LocateCell(markdown: string, pos: nat, maxEndingPos: nat)
      returns (startOfCellContent: nat, endOfCell: nat, endOfLineFound: bool)
      requires pos <= maxEndingPos <= |markdown|
      ensures endOfCell == CellEnd(markdown, pos, maxEndingPos)
      ensures startOfCellContent == TrimStart(markdown, pos, endOfCell)
      ensures endOfLineFound == !CellEndsAtBar(markdown, pos, maxEndingPos)
    {
      // Trim the cell's head; a newline is never skipped here.
      startOfCellContent := SkipLeadingWhiteSpace(markdown, pos, maxEndingPos);

      // The cell runs to the next bar or newline.
      CellEndAfterTrim(markdown, pos, maxEndingPos);
      endOfCell, endOfLineFound := FindEndOfCell(markdown, startOfCellContent, maxEndingPos);
    }

    /**
      The leading-whitespace loop of `ParseContents`: from `pos`, skips
      whitespace other than a newline.
     */
    static method SkipLeadingWhiteSpace(markdown: string, pos: nat, maxEndingPos: nat) returns (r: nat)
      requires pos <= maxEndingPos <= |markdown|
      ensures r == TrimStart(markdown, pos, CellEnd(markdown, pos, maxEndingPos))
    {
      ghost var x := CellEnd(markdown, pos, maxEndingPos);
      CellEndIsFirstDelimiter(markdown, pos, maxEndingPos);
      r := pos;
      while r < maxEndingPos && IsWhiteSpace(markdown[r]) && markdown[r] != '\n'
        invariant pos <= r <= x
        invariant forall i :: pos <= i < r ==> IsWhiteSpace(markdown[i])
        decreases maxEndingPos - r
      {
        r := r + 1;
      }
      TrimStartUnique(markdown, pos, x, r);
    }

    /**
      The cell-end loop of `ParseContents`: the first bar or newline at or
      after `pos` in the window, or `maxEndingPos`, and whether the cell is
      the last of its line (it was not closed by a bar).
     */
    static method FindEndOfCell(markdown: string, pos: nat, maxEndingPos: nat) returns (endOfCell: nat, endOfLineFound: bool)
      requires pos <= maxEndingPos <= |markdown|
      ensures endOfCell == CellEnd(markdown, pos, maxEndingPos)
      ensures endOfLineFound == !CellEndsAtBar(markdown, pos, maxEndingPos)
    {
      endOfCell := pos;
      endOfLineFound := true;
      while endOfCell < maxEndingPos
        invariant pos <= endOfCell <= maxEndingPos
        invariant CellEnd(markdown, endOfCell, maxEndingPos) == CellEnd(markdown, pos, maxEndingPos)
        invariant endOfLineFound
        decreases maxEndingPos - endOfCell
      {
        var c := markdown[endOfCell];
        if c == '|' {
          endOfLineFound := false;
          break;
        }
        if c == '\n' {
          break;
        }
        endOfCell := endOfCell + 1;
      }
    }

    /**
      The trailing-whitespace loop of `ParseContents`: steps back over
      whitespace from `endOfCell`. It needs no lower bound because the
      character at `startOfCellContent` is not whitespace.
     */
    static method SkipTrailingWhiteSpace(markdown: string, startOfCellContent: nat, endOfCell: nat) returns (r: nat)
      requires startOfCellContent <= endOfCell <= |markdown|
      requires startOfCellContent < endOfCell ==> !IsWhiteSpace(markdown[startOfCellContent])
      ensures r == TrimEnd(markdown, startOfCellContent, endOfCell)
    {
      r := endOfCell;
      if endOfCell > startOfCellContent {
        while IsWhiteSpace(markdown[r - 1])
          invariant startOfCellContent < r <= endOfCell
          invariant forall i :: r <= i < endOfCell ==> IsWhiteSpace(markdown[i])
          decreases r
        {
          r := r - 1;
        }
      }
      TrimEndUnique(markdown, startOfCellContent, endOfCell, r);
    }

    /** Parses one row, replacing `Cells` with one cell per reported range. */
    method Parse(markdown: string, startingPos: nat, maxEndingPos: nat, quoteDepth: nat,
                 skip: QuoteSkipper, parseChildren: InlineChildParser)
      returns (next: nat)
      requires maxEndingPos <= |markdown|
      modifies this
      ensures var scan := ScanRow(markdown, startingPos, maxEndingPos, quoteDepth, true, skip);
              next == scan.next && Cells == CellsOf(markdown, scan.cells, parseChildren)
    {
      var ranges;
      next, ranges := ParseContents(markdown, startingPos, maxEndingPos, quoteDepth, true, skip);
      Cells := CellsOf(markdown, ranges, parseChildren);
    }
  }

  // ---------------------------------------------------------------------
  // Facts about the scanning functions

  /** No delimiter comes before the end of a cell. */
  lemma {:induction false} CellEndIsFirstDelimiter(md: string, pos: nat, maxEnd: nat)
    requires pos <= maxEnd <= |md|
    ensures forall i :: pos <= i < CellEnd(md, pos, maxEnd) ==> !IsCellDelimiter(md[i])
    decreases maxEnd - pos
  {
    if pos < maxEnd && !IsCellDelimiter(md[pos]) {
      CellEndIsFirstDelimiter(md, pos + 1, maxEnd);
    }
  }

  /** `CellEnd` is the only position that is a delimiter (or the window end) with none before it. */
  lemma {:induction false} CellEndUnique(md: string, pos: nat, maxEnd: nat, x: nat)
    requires pos <= x <= maxEnd <= |md|
    requires x < maxEnd ==> IsCellDelimiter(md[x])
    requires forall i :: pos <= i < x ==> !IsCellDelimiter(md[i])
    ensures CellEnd(md, pos, maxEnd) == x
    decreases x - pos
  {
    if pos < x {
      CellEndUnique(md, pos + 1, maxEnd, x);
    }
  }

  /** Leading whitespace holds no delimiter, so trimming it does not move the cell's end. */
  lemma CellEndAfterTrim(md: string, pos: nat, maxEnd: nat)
    requires pos <= maxEnd <= |md|
    ensures CellEnd(md, TrimStart(md, pos, CellEnd(md, pos, maxEnd)), maxEnd) == CellEnd(md, pos, maxEnd)
  {
    var x := CellEnd(md, pos, maxEnd);
    CellEndIsFirstDelimiter(md, pos, maxEnd);
    CellEndUnique(md, TrimStart(md, pos, x), maxEnd, x);
  }

  /** `TrimStart` drops whitespace only. */
  lemma {:induction false} TrimStartSkipsWhiteSpace(md: string, s: nat, e: nat)
    requires s <= e <= |md|
    ensures forall i :: s <= i < TrimStart(md, s, e) ==> IsWhiteSpace(md[i])
    decreases e - s
  {
    if s < e && IsWhiteSpace(md[s]) {
      TrimStartSkipsWhiteSpace(md, s + 1, e);
    }
  }

  /** `TrimEnd` drops whitespace only. */
  lemma {:induction false} TrimEndSkipsWhiteSpace(md: string, s: nat, e: nat)
    requires s <= e <= |md|
    ensures forall i :: TrimEnd(md, s, e) <= i < e ==> IsWhiteSpace(md[i])
    decreases e - s
  {
    if s < e && IsWhiteSpace(md[e - 1]) {
      TrimEndSkipsWhiteSpace(md, s, e - 1);
    }
  }

  /** `TrimStart` is the only position past whitespace that stops at a non-whitespace character. */
  lemma {:induction false} TrimStartUnique(md: string, s: nat, e: nat, r: nat)
    requires s <= r <= e <= |md|
    requires forall i :: s <= i < r ==> IsWhiteSpace(md[i])
    requires r < e ==> !IsWhiteSpace(md[r])
    ensures TrimStart(md, s, e) == r
    decreases r - s
  {
    if s < r {
      TrimStartUnique(md, s + 1, e, r);
    }
  }

  /** `TrimEnd` is the only position before whitespace that follows a non-whitespace character. */
  lemma {:induction false} TrimEndUnique(md: string, s: nat, e: nat, r: nat)
    requires s <= r <= e <= |md|
    requires forall i :: r <= i < e ==> IsWhiteSpace(md[i])
    requires s < r ==> !IsWhiteSpace(md[r - 1])
    ensures TrimEnd(md, s, e) == r
    decreases e - r
  {
    if r < e {
      TrimEndUnique(md, s, e - 1, r);
    }
  }

  /** How `ScanRow` splits: the bail-out, the cells of the line, or an empty window. */
  lemma ScanRowCases(md: string, startingPos: nat, maxEnd: nat, quoteDepth: nat, requireBar: bool, skip: QuoteSkipper,
                     p: nat, first: nat)
    requires maxEnd <= |md|
    requires p == skip(md, startingPos, maxEnd, quoteDepth)
    requires first == if p < maxEnd && md[p] == '|' then p + 1 else p
    ensures MissesRequiredBar(md, startingPos, maxEnd, quoteDepth, requireBar, skip) <==>
              requireBar && first == p && first < maxEnd && !CellEndsAtBar(md, first, maxEnd)
    ensures MissesRequiredBar(md, startingPos, maxEnd, quoteDepth, requireBar, skip) ==>
              ScanRow(md, startingPos, maxEnd, quoteDepth, requireBar, skip) == RowScan(startingPos, [])
    ensures !MissesRequiredBar(md, startingPos, maxEnd, quoteDepth, requireBar, skip) && first <= maxEnd ==>
              ScanRow(md, startingPos, maxEnd, quoteDepth, requireBar, skip) == ScanCells(md, first, maxEnd)
    ensures first > maxEnd ==> ScanRow(md, startingPos, maxEnd, quoteDepth, requireBar, skip) == RowScan(first, [])
  {
  }

  /**
    The cell loop's invariant: `result` is what the row scan yields once the
    cells in `done` are reported and the scan goes on from `pos`.
   */
  predicate Tracks(md: string, maxEnd: nat, result: RowScan, done: seq<CellRange>, pos: nat)
    requires maxEnd <= |md|
  {
    pos <= maxEnd && result.next == ScanCells(md, pos, maxEnd).next && result.cells == done + ScanCells(md, pos, maxEnd).cells
  }

  /** A cell closed by a bar is reported, and the scan goes on after the bar. */
  lemma BarCell(md: string, maxEnd: nat, pos: nat, x: nat, s: nat, e: nat, done: seq<CellRange>, result: RowScan)
    requires pos < maxEnd <= |md|
    requires x == CellEnd(md, pos, maxEnd) && s == TrimStart(md, pos, x) && e == TrimEnd(md, s, x)
    requires x < maxEnd && md[x] == '|'
    requires Tracks(md, maxEnd, result, done, pos)
    ensures Tracks(md, maxEnd, result, done + [CellRange(s, e)], x + 1)
  {
    var rest := ScanCells(md, x + 1, maxEnd);
    assert ScanCells(md, pos, maxEnd) == RowScan(rest.next, [CellRange(s, e)] + rest.cells);
    assert done + ([CellRange(s, e)] + rest.cells) == (done + [CellRange(s, e)]) + rest.cells;
  }

  /** The last cell of a line is reported only when not empty, and the scan stops. */
  lemma LastCell(md: string, maxEnd: nat, pos: nat, x: nat, s: nat, e: nat, done: seq<CellRange>, result: RowScan)
    requires pos < maxEnd <= |md|
    requires x == CellEnd(md, pos, maxEnd) && s == TrimStart(md, pos, x) && e == TrimEnd(md, s, x)
    requires !(x < maxEnd && md[x] == '|')
    requires Tracks(md, maxEnd, result, done, pos)
    ensures result == RowScan(if e == maxEnd then maxEnd else x + 1, if s < e then done + [CellRange(s, e)] else done)
  {
    assert done + [] == done;
  }

  /**
    One pass of the cell loop: the last cell of a line completes the scan,
    and a cell closed by a bar lets the scan go on after the bar.
   */
  lemma CellStep(md: string, maxEnd: nat, pos: nat, x: nat, s: nat, e: nat, done: seq<CellRange>,
                 cells: seq<CellRange>, result: RowScan, endOfLine: bool)
    requires pos < maxEnd <= |md|
    requires x == CellEnd(md, pos, maxEnd) && s == TrimStart(md, pos, x) && e == TrimEnd(md, s, x)
    requires endOfLine == !CellEndsAtBar(md, pos, maxEnd)
    requires cells == if !endOfLine || e > s then done + [CellRange(s, e)] else done
    requires Tracks(md, maxEnd, result, done, pos)
    ensures endOfLine ==> result == RowScan(if e == maxEnd then maxEnd else x + 1, cells)
    ensures !endOfLine ==> e < maxEnd && x < maxEnd && Tracks(md, maxEnd, result, cells, x + 1)
  {
    if endOfLine {
      LastCell(md, maxEnd, pos, x, s, e, done, result);
    } else {
      BarCell(md, maxEnd, pos, x, s, e, done, result);
    }
  }

  /** What the cell loop started at `first` reports when it does not exit early. */
  function LoopResult(md: string, first: nat, maxEnd: nat): RowScan
    requires maxEnd <= |md|
  {
    if first <= maxEnd then ScanCells(md, first, maxEnd) else RowScan(first, [])
  }

  /** The cell loop exits early: a bar is required, the line did not start with one, and its first cell is not closed by one. */
  predicate ExitsEarly(md: string, first: nat, maxEnd: nat, lead: bool, requireBar: bool)
    requires maxEnd <= |md|
  {
    requireBar && !lead && first < maxEnd && !CellEndsAtBar(md, first, maxEnd)
  }

  /**
    The invariant of the cell loop started at `first`, now at `pos` with the
    cells `done` reported: the loop has passed a bar exactly when the line
    started with one or it has moved on from the first cell, it did not exit
    early once past the first cell, and the rest of the scan from `pos`
    completes what it would report.
   */
  predicate CellLoop(md: string, maxEnd: nat, first: nat, lead: bool, requireBar: bool,
                     pos: nat, done: seq<CellRange>, lineHasBar: bool)
    requires maxEnd <= |md|
  {
    && first <= pos
    && lineHasBar == (lead || pos != first)
    && (pos == first ==> done == [])
    && (pos != first ==> !ExitsEarly(md, first, maxEnd, lead, requireBar))
    && (first <= maxEnd ==> Tracks(md, maxEnd, LoopResult(md, first, maxEnd), done, pos))
    && (first > maxEnd ==> pos == first)
  }

  lemma CellLoopStarts(md: string, maxEnd: nat, first: nat, lead: bool, requireBar: bool)
    requires maxEnd <= |md|
    ensures CellLoop(md, maxEnd, first, lead, requireBar, first, [], lead)
  {
    if first <= maxEnd {
      assert [] + ScanCells(md, first, maxEnd).cells == ScanCells(md, first, maxEnd).cells;
    }
  }

  /** The early exit happens only on the first cell, under the condition `ExitsEarly` names. */
  lemma CellLoopExitsEarly(md: string, maxEnd: nat, first: nat, lead: bool, requireBar: bool,
                           pos: nat, done: seq<CellRange>, lineHasBar: bool)
    requires maxEnd <= |md|
    requires CellLoop(md, maxEnd, first, lead, requireBar, pos, done, lineHasBar)
    requires pos < maxEnd && !CellEndsAtBar(md, pos, maxEnd)
    requires !lineHasBar && requireBar
    ensures ExitsEarly(md, first, maxEnd, lead, requireBar)
  {
  }

  /**
    One pass of the cell loop that does not exit early: it completes the
    scan after the last cell of a line, and keeps the invariant after a
    cell closed by a bar.
   */
  lemma CellLoopStep(md: string, maxEnd: nat, first: nat, lead: bool, requireBar: bool,
                     pos: nat, done: seq<CellRange>, lineHasBar: bool)
    requires pos < maxEnd <= |md|
    requires CellLoop(md, maxEnd, first, lead, requireBar, pos, done, lineHasBar)
    requires !(!CellEndsAtBar(md, pos, maxEnd) && !lineHasBar && requireBar)
    ensures var x := CellEnd(md, pos, maxEnd);
            var s := TrimStart(md, pos, x);
            var e := TrimEnd(md, s, x);
            var endOfLine := !CellEndsAtBar(md, pos, maxEnd);
            var cells := if !endOfLine || e > s then done + [CellRange(s, e)] else done;
            && !ExitsEarly(md, first, maxEnd, lead, requireBar)
            && (endOfLine ==> LoopResult(md, first, maxEnd) == RowScan(if e == maxEnd then maxEnd else x + 1, cells))
            && (!endOfLine ==> e < maxEnd && x < maxEnd && CellLoop(md, maxEnd, first, lead, requireBar, x + 1, cells, true))
  {
    var x := CellEnd(md, pos, maxEnd);
    var s := TrimStart(md, pos, x);
    var e := TrimEnd(md, s, x);
    var endOfLine := !CellEndsAtBar(md, pos, maxEnd);
    var cells := if !endOfLine || e > s then done + [CellRange(s, e)] else done;
    assert first <= pos < maxEnd;
    var result := LoopResult(md, first, maxEnd);
    CellStep(md, maxEnd, pos, x, s, e, done, cells, result, endOfLine);
    assert !ExitsEarly(md, first, maxEnd, lead, requireBar) by {
      if pos == first {
        assert lineHasBar == lead;
      }
    }
    if !endOfLine {
      assert first < x + 1 && first <= maxEnd;
      assert Tracks(md, maxEnd, result, cells, x + 1);
      assert CellLoop(md, maxEnd, first, lead, requireBar, x + 1, cells, true);
    }
  }

  /** When the loop runs out of window, it has reported what the scan reports. */
  lemma CellLoopEnds(md: string, maxEnd: nat, first: nat, lead: bool, requireBar: bool,
                     pos: nat, done: seq<CellRange>, lineHasBar: bool)
    requires maxEnd <= |md|
    requires CellLoop(md, maxEnd, first, lead, requireBar, pos, done, lineHasBar)
    requires pos >= maxEnd
    ensures LoopResult(md, first, maxEnd) == RowScan(pos, done)
    ensures !ExitsEarly(md, first, maxEnd, lead, requireBar)
  {
    assert done + [] == done;
  }

  // ---------------------------------------------------------------------
  // What a row reports

  /** No character of `[a, b)` is a cell delimiter. */
  predicate NoDelimiterIn(md: string, a: nat, b: nat)
    requires a <= b <= |md|
  {
    forall i :: a <= i < b ==> !IsCellDelimiter(md[i])
  }

  /** No character of `[a, b)` is a newline. */
  predicate NoNewlineIn(md: string, a: nat, b: nat)
    requires a <= b <= |md|
  {
    forall i :: a <= i < b ==> md[i] != '\n'
  }

  /**
    A reported cell of the line that starts at `pos`: it lies inside the
    window, on that line, holds no delimiter, and is trimmed -- a non-empty
    cell starts and ends with a character that is not whitespace.
   */
  predicate IsTrimmedCell(md: string, c: CellRange, pos: nat, maxEnd: nat)
    requires maxEnd <= |md|
  {
    && pos <= c.start <= c.end <= maxEnd
    && NoNewlineIn(md, pos, c.end)
    && NoDelimiterIn(md, c.start, c.end)
    && (c.start < c.end ==> !IsWhiteSpace(md[c.start]) && !IsWhiteSpace(md[c.end - 1]))
  }

  /** True when every cell is a trimmed cell of the line from `pos`, and they come in text order. */
  predicate TrimmedInOrder(md: string, cells: seq<CellRange>, pos: nat, maxEnd: nat)
    requires maxEnd <= |md|
  {
    && (forall i :: 0 <= i < |cells| ==> IsTrimmedCell(md, cells[i], pos, maxEnd))
    && (forall i :: 0 < i < |cells| ==> cells[i - 1].end < cells[i].start)
  }

  /** The first cell of a line is trimmed; when a bar closes it, no newline comes up to the bar. */
  lemma HeadCellTrimmed(md: string, pos: nat, maxEnd: nat)
    requires pos < maxEnd <= |md|
    ensures var x := CellEnd(md, pos, maxEnd);
            var s := TrimStart(md, pos, x);
            && IsTrimmedCell(md, CellRange(s, TrimEnd(md, s, x)), pos, maxEnd)
            && (x < maxEnd && md[x] == '|' ==> NoNewlineIn(md, pos, x + 1))
  {
    CellEndIsFirstDelimiter(md, pos, maxEnd);
  }

  /** A trimmed cell before the trimmed cells of the rest of the line keeps them trimmed and in order. */
  lemma ConsTrimmed(md: string, pos: nat, mid: nat, maxEnd: nat, cell: CellRange, rest: seq<CellRange>)
    requires pos <= mid <= maxEnd <= |md|
    requires NoNewlineIn(md, pos, mid)
    requires IsTrimmedCell(md, cell, pos, maxEnd) && cell.end < mid
    requires TrimmedInOrder(md, rest, mid, maxEnd)
    ensures TrimmedInOrder(md, [cell] + rest, pos, maxEnd)
  {
    var all := [cell] + rest;
    forall i | 0 < i < |all|
      ensures IsTrimmedCell(md, all[i], pos, maxEnd)
    {
      assert all[i] == rest[i - 1];
      assert IsTrimmedCell(md, rest[i - 1], mid, maxEnd);
    }
    forall i | 0 < i < |all|
      ensures all[i - 1].end < all[i].start
    {
      if i > 1 {
        assert all[i - 1] == rest[i - 2];
      }
      assert IsTrimmedCell(md, rest[i - 1], mid, maxEnd);
    }
  }

  /** Every reported cell is a trimmed cell of the line, and the cells come in text order. */
  lemma {:induction false} ScanCellsAreTrimmed(md: string, pos: nat, maxEnd: nat)
    requires pos <= maxEnd <= |md|
    ensures TrimmedInOrder(md, ScanCells(md, pos, maxEnd).cells, pos, maxEnd)
    decreases maxEnd - pos
  {
    if pos < maxEnd {
      var x := CellEnd(md, pos, maxEnd);
      if x < maxEnd && md[x] == '|' {
        ScanCellsAreTrimmed(md, x + 1, maxEnd);
        BarCellTrimmed(md, pos, maxEnd);
      } else {
        LastCellTrimmed(md, pos, maxEnd);
      }
    }
  }

  /** A cell closed by a bar, before the trimmed cells after the bar, keeps the row trimmed. */
  lemma BarCellTrimmed(md: string, pos: nat, maxEnd: nat)
    requires pos < maxEnd <= |md|
    requires CellEndsAtBar(md, pos, maxEnd)
    requires TrimmedInOrder(md, ScanCells(md, CellEnd(md, pos, maxEnd) + 1, maxEnd).cells, CellEnd(md, pos, maxEnd) + 1, maxEnd)
    ensures TrimmedInOrder(md, ScanCells(md, pos, maxEnd).cells, pos, maxEnd)
  {
    var x := CellEnd(md, pos, maxEnd);
    var s := TrimStart(md, pos, x);
    HeadCellTrimmed(md, pos, maxEnd);
    ScanCellsAtBar(md, pos, maxEnd);
    ConsTrimmed(md, pos, x + 1, maxEnd, CellRange(s, TrimEnd(md, s, x)), ScanCells(md, x + 1, maxEnd).cells);
  }

  /** A cell closed by a bar is followed by the cells of the rest of the line. */
  lemma ScanCellsAtBar(md: string, pos: nat, maxEnd: nat)
    requires pos < maxEnd <= |md|
    requires CellEndsAtBar(md, pos, maxEnd)
    ensures var x := CellEnd(md, pos, maxEnd);
            var s := TrimStart(md, pos, x);
            ScanCells(md, pos, maxEnd).cells == [CellRange(s, TrimEnd(md, s, x))] + ScanCells(md, x + 1, maxEnd).cells
  {
  }

  /** True when every empty cell among `cells` sits right before a bar. */
  predicate EmptyOnlyAtBar(md: string, cells: seq<CellRange>, maxEnd: nat)
    requires maxEnd <= |md|
  {
    forall i :: 0 <= i < |cells| && cells[i].start == cells[i].end ==> cells[i].end < maxEnd && md[cells[i].end] == '|'
  }

  /**
    An empty cell is reported only when a bar closes it: the last cell of a
    line, or what follows a trailing bar, is dropped when empty.
   */
  lemma {:induction false} ScanCellsEmptyOnlyAtBar(md: string, pos: nat, maxEnd: nat)
    requires pos <= maxEnd <= |md|
    ensures EmptyOnlyAtBar(md, ScanCells(md, pos, maxEnd).cells, maxEnd)
    decreases maxEnd - pos
  {
    if pos < maxEnd && CellEndsAtBar(md, pos, maxEnd) {
      ScanCellsEmptyOnlyAtBar(md, CellEnd(md, pos, maxEnd) + 1, maxEnd);
      BarCellEmptyAtBar(md, pos, maxEnd);
    }
  }

  /** A cell closed by a bar, when empty, ends right at that bar. */
  lemma BarCellEmptyAtBar(md: string, pos: nat, maxEnd: nat)
    requires pos < maxEnd <= |md|
    requires CellEndsAtBar(md, pos, maxEnd)
    requires EmptyOnlyAtBar(md, ScanCells(md, CellEnd(md, pos, maxEnd) + 1, maxEnd).cells, maxEnd)
    ensures EmptyOnlyAtBar(md, ScanCells(md, pos, maxEnd).cells, maxEnd)
  {
    var x := CellEnd(md, pos, maxEnd);
    var s := TrimStart(md, pos, x);
    TrimEndSkipsWhiteSpace(md, s, x);
    assert TrimEnd(md, s, x) == s ==> s == x;
    ScanCellsAtBar(md, pos, maxEnd);
    ConsEmptyOnlyAtBar(md, CellRange(s, TrimEnd(md, s, x)), ScanCells(md, x + 1, maxEnd).cells, maxEnd);
  }

  /** A cell that is not empty, or that ends at a bar, keeps the cells after it empty only at a bar. */
  lemma ConsEmptyOnlyAtBar(md: string, cell: CellRange, rest: seq<CellRange>, maxEnd: nat)
    requires maxEnd <= |md|
    requires cell.start == cell.end ==> cell.end < maxEnd && md[cell.end] == '|'
    requires EmptyOnlyAtBar(md, rest, maxEnd)
    ensures EmptyOnlyAtBar(md, [cell] + rest, maxEnd)
  {
    var all := [cell] + rest;
    forall i | 0 < i < |all|
      ensures all[i] == rest[i - 1]
    {
    }
  }

  /**
    A row reports an empty cell only where a bar closes it, so neither a
    trailing bar nor an empty tail of the line adds a cell.
   */
  lemma RowEmptyCellsEndAtBar(md: string, startingPos: nat, maxEnd: nat, quoteDepth: nat, requireBar: bool, skip: QuoteSkipper)
    requires maxEnd <= |md|
    ensures EmptyOnlyAtBar(md, ScanRow(md, startingPos, maxEnd, quoteDepth, requireBar, skip).cells, maxEnd)
  {
    var p := skip(md, startingPos, maxEnd, quoteDepth);
    var first := if p < maxEnd && md[p] == '|' then p + 1 else p;
    ScanRowCases(md, startingPos, maxEnd, quoteDepth, requireBar, skip, p, first);
    if !MissesRequiredBar(md, startingPos, maxEnd, quoteDepth, requireBar, skip) && first <= maxEnd {
      ScanCellsEmptyOnlyAtBar(md, first, maxEnd);
    }
  }

  /** The last cell of a line, when reported, is trimmed. */
  lemma LastCellTrimmed(md: string, pos: nat, maxEnd: nat)
    requires pos < maxEnd <= |md|
    requires !CellEndsAtBar(md, pos, maxEnd)
    ensures TrimmedInOrder(md, ScanCells(md, pos, maxEnd).cells, pos, maxEnd)
  {
    HeadCellTrimmed(md, pos, maxEnd);
  }

  /** The end of the line through `pos`: its newline, or the end of the window. */
  function LineEnd(md: string, pos: nat, maxEnd: nat): (n: nat)
    requires pos <= maxEnd <= |md|
    ensures pos <= n <= maxEnd
    ensures n < maxEnd ==> md[n] == '\n'
  {
    var k := IndexOf(md, '\n', pos, maxEnd);
    if k == -1 then maxEnd else k
  }

  /**
    Where the scan of a line goes on: one past the line's newline, or, when
    the line runs to the end of the window, the end of the window -- or one
    past it, and then the window ends in whitespace.
   */
  lemma {:induction false} ScanCellsNext(md: string, pos: nat, maxEnd: nat)
    requires pos <= maxEnd <= |md|
    ensures LineEnd(md, pos, maxEnd) < maxEnd ==> ScanCells(md, pos, maxEnd).next == LineEnd(md, pos, maxEnd) + 1
    ensures LineEnd(md, pos, maxEnd) == maxEnd ==>
              || ScanCells(md, pos, maxEnd).next == maxEnd
              || (ScanCells(md, pos, maxEnd).next == maxEnd + 1 && IsWhiteSpace(md[maxEnd - 1]))
    decreases maxEnd - pos
  {
    if pos < maxEnd {
      if CellEndsAtBar(md, pos, maxEnd) {
        var x := CellEnd(md, pos, maxEnd);
        ScanCellsNext(md, x + 1, maxEnd);
        LineEndAfterBar(md, pos, maxEnd);
      } else {
        LastCellNext(md, pos, maxEnd);
      }
    }
  }

  /** A bar closing a cell does not end the line: the line goes on after it. */
  lemma LineEndAfterBar(md: string, pos: nat, maxEnd: nat)
    requires pos < maxEnd <= |md|
    requires CellEndsAtBar(md, pos, maxEnd)
    ensures LineEnd(md, pos, maxEnd) == LineEnd(md, CellEnd(md, pos, maxEnd) + 1, maxEnd)
    ensures ScanCells(md, pos, maxEnd).next == ScanCells(md, CellEnd(md, pos, maxEnd) + 1, maxEnd).next
  {
    var x := CellEnd(md, pos, maxEnd);
    CellEndIsFirstDelimiter(md, pos, maxEnd);
    IndexOfSkip(md, '\n', pos, x, maxEnd);
    IndexOfSkip(md, '\n', x, x + 1, maxEnd);
  }

  /** Where the scan goes on after the last cell of a line. */
  lemma LastCellNext(md: string, pos: nat, maxEnd: nat)
    requires pos < maxEnd <= |md|
    requires !CellEndsAtBar(md, pos, maxEnd)
    ensures LineEnd(md, pos, maxEnd) < maxEnd ==> ScanCells(md, pos, maxEnd).next == LineEnd(md, pos, maxEnd) + 1
    ensures LineEnd(md, pos, maxEnd) == maxEnd ==>
              || ScanCells(md, pos, maxEnd).next == maxEnd
              || (ScanCells(md, pos, maxEnd).next == maxEnd + 1 && IsWhiteSpace(md[maxEnd - 1]))
  {
    var x := CellEnd(md, pos, maxEnd);
    var s := TrimStart(md, pos, x);
    CellEndIsFirstDelimiter(md, pos, maxEnd);
    IndexOfSkip(md, '\n', pos, x, maxEnd);
    if x == maxEnd && TrimEnd(md, s, x) < maxEnd {
      TrimEndSkipsWhiteSpace(md, s, x);
    }
  }

  /** The first cell is closed by a bar exactly when the line holds a bar. */
  lemma CellEndsAtBarIff(md: string, pos: nat, maxEnd: nat)
    requires pos <= maxEnd <= |md|
    ensures CellEndsAtBar(md, pos, maxEnd) <==> IndexOf(md, '|', pos, LineEnd(md, pos, maxEnd)) != -1
  {
    var x := CellEnd(md, pos, maxEnd);
    CellEndIsFirstDelimiter(md, pos, maxEnd);
    IndexOfSkip(md, '\n', pos, x, maxEnd);
    IndexOfIsFirst(md, '|', pos, LineEnd(md, pos, maxEnd));
    if x < maxEnd && md[x] == '|' {
      IndexOfSkip(md, '\n', x, x + 1, maxEnd);
      assert x < LineEnd(md, pos, maxEnd);
    } else {
      assert LineEnd(md, pos, maxEnd) == x;
    }
  }

  /**
    With a bar required, a row bails out -- returning `startingPos` and
    reporting no cell -- exactly when its line, after the quote prefix, does
    not start at the window end and holds no bar at all. A blank line is such
    a line.
   */
  lemma RequiredBarMissing(md: string, startingPos: nat, maxEnd: nat, quoteDepth: nat, skip: QuoteSkipper)
    requires maxEnd <= |md|
    ensures var p := skip(md, startingPos, maxEnd, quoteDepth);
            MissesRequiredBar(md, startingPos, maxEnd, quoteDepth, true, skip) <==>
              p < maxEnd && IndexOf(md, '|', p, LineEnd(md, p, maxEnd)) == -1
    ensures MissesRequiredBar(md, startingPos, maxEnd, quoteDepth, true, skip) ==>
              ScanRow(md, startingPos, maxEnd, quoteDepth, true, skip) == RowScan(startingPos, [])
  {
    var p := skip(md, startingPos, maxEnd, quoteDepth);
    if p < maxEnd {
      CellEndsAtBarIff(md, p, maxEnd);
      if md[p] == '|' {
        assert LineEnd(md, p, maxEnd) > p;
      }
    }
  }

  /**
    The cells of a row are trimmed cells of the line after the quote
    prefix, in text order, and the row moves past them (or to the end of
    the window, where the last of them ends).
   */
  lemma RowCellsAreTrimmed(md: string, startingPos: nat, maxEnd: nat, quoteDepth: nat, requireBar: bool, skip: QuoteSkipper)
    requires maxEnd <= |md|
    ensures var p := skip(md, startingPos, maxEnd, quoteDepth);
            var r := ScanRow(md, startingPos, maxEnd, quoteDepth, requireBar, skip);
            && TrimmedInOrder(md, r.cells, p, maxEnd)
            && (forall i :: 0 <= i < |r.cells| ==> r.cells[i].end < r.next || r.cells[i].end == r.next == maxEnd)
  {
    var p := skip(md, startingPos, maxEnd, quoteDepth);
    var first := if p < maxEnd && md[p] == '|' then p + 1 else p;
    ScanRowCases(md, startingPos, maxEnd, quoteDepth, requireBar, skip, p, first);
    if !MissesRequiredBar(md, startingPos, maxEnd, quoteDepth, requireBar, skip) && first <= maxEnd {
      ScanCellsAreTrimmed(md, first, maxEnd);
      ScanCellsEndBeforeNext(md, first, maxEnd);
      TrimmedAfterLeadingBar(md, ScanCells(md, first, maxEnd).cells, p, first, maxEnd);
    }
  }

  /** Cells of the line after a leading bar are also cells of the line from the bar. */
  lemma TrimmedAfterLeadingBar(md: string, cells: seq<CellRange>, p: nat, first: nat, maxEnd: nat)
    requires p <= first <= maxEnd <= |md|
    requires first == p || (first == p + 1 && md[p] == '|')
    requires TrimmedInOrder(md, cells, first, maxEnd)
    ensures TrimmedInOrder(md, cells, p, maxEnd)
  {
    forall i | 0 <= i < |cells|
      ensures IsTrimmedCell(md, cells[i], p, maxEnd)
    {
      assert IsTrimmedCell(md, cells[i], first, maxEnd);
    }
  }

  /** Every cell of a line ends before the point where the scan goes on, or at the end of the window. */
  lemma ScanCellsEndBeforeNext(md: string, pos: nat, maxEnd: nat)
    requires pos <= maxEnd <= |md|
    ensures var r := ScanCells(md, pos, maxEnd);
            forall i :: 0 <= i < |r.cells| ==> r.cells[i].end < r.next || r.cells[i].end == r.next == maxEnd
  {
    ScanCellsAreTrimmed(md, pos, maxEnd);
    ScanCellsNext(md, pos, maxEnd);
    var r := ScanCells(md, pos, maxEnd);
    forall i | 0 <= i < |r.cells|
      ensures r.cells[i].end < r.next || r.cells[i].end == r.next == maxEnd
    {
      assert IsTrimmedCell(md, r.cells[i], pos, maxEnd);
      if LineEnd(md, pos, maxEnd) < maxEnd {
        assert r.cells[i].end <= LineEnd(md, pos, maxEnd);
      }
    }
  }

  /**
    Where a row leaves off: at `startingPos` when it bails out; otherwise one
    past the newline of its line, or -- when the line runs to the end of the
    window -- the end of the window, or one past it when the window ends in
    whitespace.
    A row that starts one past the window end -- as a separator row does
    after a header whose last cell lost trailing whitespace at the window
    end -- reports nothing and stays where it is.
   */
  lemma RowNext(md: string, startingPos: nat, maxEnd: nat, quoteDepth: nat, requireBar: bool, skip: QuoteSkipper)
    requires maxEnd <= |md|
    ensures startingPos > maxEnd ==> ScanRow(md, startingPos, maxEnd, quoteDepth, requireBar, skip) == RowScan(startingPos, [])
    ensures startingPos <= maxEnd ==>
            var p := skip(md, startingPos, maxEnd, quoteDepth);
            var r := ScanRow(md, startingPos, maxEnd, quoteDepth, requireBar, skip);
            var missing := MissesRequiredBar(md, startingPos, maxEnd, quoteDepth, requireBar, skip);
            && (missing ==> r.next == startingPos)
            && (!missing && LineEnd(md, p, maxEnd) < maxEnd ==> r.next == LineEnd(md, p, maxEnd) + 1)
            && (!missing && LineEnd(md, p, maxEnd) == maxEnd ==>
                  r.next == maxEnd || (r.next == maxEnd + 1 && IsWhiteSpace(md[maxEnd - 1])))
  {
    var p := skip(md, startingPos, maxEnd, quoteDepth);
    var first := if p < maxEnd && md[p] == '|' then p + 1 else p;
    ScanRowCases(md, startingPos, maxEnd, quoteDepth, requireBar, skip, p, first);
    if startingPos <= maxEnd {
      IndexOfSkip(md, '\n', p, first, maxEnd);
      ScanCellsNext(md, first, maxEnd);
    }
  }

  /**
    The returned position can lie past the window: the last cell of "a|b "
    loses its trailing space to the trim, and the scan returns 5 for a
    window of length 4.
   */
  lemma PastWindowExample()
    ensures ScanRow("a|b ", 0, 4, 0, true, StayPut) == RowScan(5, [CellRange(0, 1), CellRange(2, 3)])
  {
    var md := "a|b ";
    assert CellEnd(md, 0, 4) == 1;
    assert CellEnd(md, 2, 4) == 4;
    assert TrimEnd(md, 2, 4) == 3;
    assert ScanCells(md, 2, 4) == RowScan(5, [CellRange(2, 3)]);
  }

  /**
    A blank line bails out when a bar is required: "\nx" reports no cell and
    leaves off where it started, so a blank line after a table's body ends
    the table at the start of that line.
   */
  lemma BlankLineExample()
    ensures ScanRow("\nx", 0, 2, 0, true, StayPut) == RowScan(0, [])
  {
    var md := "\nx";
    assert CellEnd(md, 0, 2) == 0;
  }

  /** A header line made only of a bar reports no cell: "|\n" moves to the next line with none. */
  lemma BarOnlyLineExample()
    ensures ScanRow("|\n", 0, 2, 0, true, StayPut) == RowScan(2, [])
  {
    var md := "|\n";
    assert CellEnd(md, 1, 2) == 1;
  }
}
