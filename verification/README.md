# Markdown tables, code spans and superscripts: a verified model

This project models part of the parser behind the toolkit's `MarkdownTextBlock`
control:

- the table block parser (`TableBlock.Parse`);
- the table row splitter (`TableRow.ParseContents`, `TableRow.Parse`);
- the column alignment enumeration and the column definition;
- two inline parsers: code spans (`CodeInline`) and superscript spans
  (`SuperscriptTextInline`), with their trigger registration and their
  Markdown rendering.

Each parser works on a window `[start, maxEnd)` of the Markdown text. It
either matches, giving an element and the position where it stopped, or it
does not match.

The modules:

- **Elements**: the inline and block kinds of the document tree. The
  inline kinds become the constructors of `Inline`. The block kind `Code`
  is named `CodeBlock`, so that it does not clash with the inline
  constructor `Code`.
- **Common**: the scanning helpers the parsers call, and the
  trigger-character table. The helper class is not part of this model.
  Each helper is given the behaviour its name and call sites imply (see
  "Left out").
- **TableRows**: splitting one line into cells.
  - `ScanCells` and `ScanRow` state, cell by cell, what the cursor loop of
    `ParseContents` computes.
  - The class `TableRow` keeps the source's loops. Each loop is proved to
    compute exactly those functions.
  - The lemmas state what a row reports: trimmed cells, in order, on their
    line. Empty cells appear only where a bar closes them. They also say
    when a row bails out, and where it leaves off.
- **TableBlocks**: the table.
  - `ParseTable` states what `TableBlock.Parse` computes. The method keeps
    the source's header row, separator row, column loop and body loop.
  - The lemmas state when a table is accepted, what shape an accepted
    table has, and that the alignment rule and the separator syntax are
    inverse to each other.
- **CodeInlines** and **SuperscriptInlines**: the two inline parsers as
  functions, with lemmas for each syntactic form. The round-trip lemmas
  show that rendering a span with `ToString` and parsing it back gives the
  same span.

The row splitter in the source hands each cell's range to a callback as
soon as it finds it. Here `ParseContents` returns the list of ranges in
the order the callback would receive them:

- `TableRow.Parse` turns each range into a cell, as its callback does;
- `TableBlock.Parse` turns each range of the separator row into its text.

## Model

| member | source | states |
|---|---|---|
| TableRows.CellEnd | Microsoft.Toolkit.Uwp.UI.Controls/MarkdownTextBlock/Parse/Blocks/TableRow.cs:64-84 | the end of a cell lies between its start and the end of the window, and before the window's end it is a `|` or a newline |
| TableRows.CellEndIsFirstDelimiter | Microsoft.Toolkit.Uwp.UI.Controls/MarkdownTextBlock/Parse/Blocks/TableRow.cs:64-84 | no `|` or newline comes between the start of a cell and its end |
| TableRows.CellEndUnique | Microsoft.Toolkit.Uwp.UI.Controls/MarkdownTextBlock/Parse/Blocks/TableRow.cs:64-84 | any position that is a delimiter (or the window end) with no delimiter before it is the cell's end |
| TableRows.TrimStart | Microsoft.Toolkit.Uwp.UI.Controls/MarkdownTextBlock/Parse/Blocks/TableRow.cs:56-62 | the start of the content lies inside the cell and, when the content is not empty, holds a non-whitespace character |
| TableRows.TrimStartSkipsWhiteSpace | Microsoft.Toolkit.Uwp.UI.Controls/MarkdownTextBlock/Parse/Blocks/TableRow.cs:56-62 | only whitespace is skipped at the start of a cell |
| TableRows.TrimStartUnique | Microsoft.Toolkit.Uwp.UI.Controls/MarkdownTextBlock/Parse/Blocks/TableRow.cs:56-62 | the first non-whitespace position after a run of whitespace is the trimmed start |
| TableRows.TrimEnd | Microsoft.Toolkit.Uwp.UI.Controls/MarkdownTextBlock/Parse/Blocks/TableRow.cs:92-99 | the end of the content lies inside the cell and, when the content is not empty, follows a non-whitespace character |
| TableRows.TrimEndSkipsWhiteSpace | Microsoft.Toolkit.Uwp.UI.Controls/MarkdownTextBlock/Parse/Blocks/TableRow.cs:92-99 | only whitespace is dropped at the end of a cell |
| TableRows.TrimEndUnique | Microsoft.Toolkit.Uwp.UI.Controls/MarkdownTextBlock/Parse/Blocks/TableRow.cs:92-99 | the last non-whitespace position before a run of whitespace is the trimmed end |
| TableRows.CellEndAfterTrim | Microsoft.Toolkit.Uwp.UI.Controls/MarkdownTextBlock/Parse/Blocks/TableRow.cs:56-84 | skipping leading whitespace does not move the end of the cell, since that whitespace holds no delimiter |
| TableRows.ScanCells | Microsoft.Toolkit.Uwp.UI.Controls/MarkdownTextBlock/Parse/Blocks/TableRow.cs:54-123 | the cell loop always moves forward, at most one past the end of the window; on an empty window it reports nothing and stays at the window end |
| TableRows.ScanRow | Microsoft.Toolkit.Uwp.UI.Controls/MarkdownTextBlock/Parse/Blocks/TableRow.cs:41-126 | a row never moves backwards, never past one after the window end, and moves forward whenever it reports a cell |
| TableRows.CellsOf | Microsoft.Toolkit.Uwp.UI.Controls/MarkdownTextBlock/Parse/Blocks/TableRow.cs:147-152 | one table cell per reported range, in order |
| TableRows.TableRow.ParseContents | Microsoft.Toolkit.Uwp.UI.Controls/MarkdownTextBlock/Parse/Blocks/TableRow.cs:41-126 | the position returned and the ranges handed to the cell handler are exactly those `ScanRow` defines |
| TableRows.TableRow.ParseCells | Microsoft.Toolkit.Uwp.UI.Controls/MarkdownTextBlock/Parse/Blocks/TableRow.cs:54-123 | the cell loop exits early exactly when a bar is required, the line did not start with one, and its first cell is not closed by one; otherwise it yields the cells and next position of `ScanCells` |
| TableRows.TableRow.ParseCell | Microsoft.Toolkit.Uwp.UI.Controls/MarkdownTextBlock/Parse/Blocks/TableRow.cs:56-122 | one pass of the cell loop exits early only under the bail-out condition; otherwise it either completes the row with the cells and position of `ScanCells`, or keeps the loop invariant and moves forward |
| TableRows.TableRow.LocateCell | Microsoft.Toolkit.Uwp.UI.Controls/MarkdownTextBlock/Parse/Blocks/TableRow.cs:56-84 | the content start is the trimmed start, the cell end is the first delimiter, and the end-of-line flag is set exactly when no bar closes the cell |
| TableRows.TableRow.ReportCell | Microsoft.Toolkit.Uwp.UI.Controls/MarkdownTextBlock/Parse/Blocks/TableRow.cs:92-107 | the content end is the trimmed end, and the range is reported when a bar closed the cell or the content is not empty, and otherwise not |
| TableRows.TableRow.SkipLeadingWhiteSpace | Microsoft.Toolkit.Uwp.UI.Controls/MarkdownTextBlock/Parse/Blocks/TableRow.cs:56-62 | the leading-whitespace loop stops at the trimmed start of the cell |
| TableRows.TableRow.FindEndOfCell | Microsoft.Toolkit.Uwp.UI.Controls/MarkdownTextBlock/Parse/Blocks/TableRow.cs:64-84 | the end-of-cell loop stops at the first `|` or newline, or at the window end, and reports whether a bar stopped it |
| TableRows.TableRow.SkipTrailingWhiteSpace | Microsoft.Toolkit.Uwp.UI.Controls/MarkdownTextBlock/Parse/Blocks/TableRow.cs:92-99 | the trailing-whitespace loop, which has no lower bound, stops at the trimmed end of the cell |
| TableRows.TableRow.Parse | Microsoft.Toolkit.Uwp.UI.Controls/MarkdownTextBlock/Parse/Blocks/TableRow.cs:138-153 | the row requires a bar; its cells are replaced by one cell per reported range, each holding the inlines parsed from that range, and it returns where the row scan ends |
| TableRows.ScanRowCases | Microsoft.Toolkit.Uwp.UI.Controls/MarkdownTextBlock/Parse/Blocks/TableRow.cs:44-90 | a row bails out exactly when a bar is required, the line does not start with one, does not start at the window end (a blank line does not start there, so it counts), and its first cell is not closed by one; then it returns `startingPos` with no cell; otherwise it is the cell loop from after the optional leading bar |
| TableRows.RequiredBarMissing | Microsoft.Toolkit.Uwp.UI.Controls/MarkdownTextBlock/Parse/Blocks/TableRow.cs:86-90 | with a bar required, the row bails out, returning `startingPos` with no cell, exactly when its line after the quote prefix does not start at the window end (a blank line counts) and holds no `|` at all |
| TableRows.BlankLineExample | Microsoft.Toolkit.Uwp.UI.Controls/MarkdownTextBlock/Parse/Blocks/TableRow.cs:86-90 | a blank line where a bar is required bails out: the row returns its start with no cell |
| TableRows.CellEndsAtBarIff | Microsoft.Toolkit.Uwp.UI.Controls/MarkdownTextBlock/Parse/Blocks/TableRow.cs:64-90 | the first cell is closed by a bar exactly when the line holds a `|` |
| TableRows.ScanCellsAreTrimmed | Microsoft.Toolkit.Uwp.UI.Controls/MarkdownTextBlock/Parse/Blocks/TableRow.cs:54-123 | every reported cell lies on the line inside the window, holds no delimiter, starts and ends with non-whitespace when not empty, and the cells come in text order without overlap |
| TableRows.RowCellsAreTrimmed | Microsoft.Toolkit.Uwp.UI.Controls/MarkdownTextBlock/Parse/Blocks/TableRow.cs:41-126 | the same for a whole row after the quote prefix, and every cell ends before the returned position or at the window end |
| TableRows.ScanCellsEndBeforeNext | Microsoft.Toolkit.Uwp.UI.Controls/MarkdownTextBlock/Parse/Blocks/TableRow.cs:101-125 | every reported cell ends before the position the loop returns, or at the window end |
| TableRows.ScanCellsEmptyOnlyAtBar | Microsoft.Toolkit.Uwp.UI.Controls/MarkdownTextBlock/Parse/Blocks/TableRow.cs:101-107 | an empty cell is reported only when a `|` closes it |
| TableRows.RowEmptyCellsEndAtBar | Microsoft.Toolkit.Uwp.UI.Controls/MarkdownTextBlock/Parse/Blocks/TableRow.cs:101-107 | the same for a whole row: an empty trailing cell is never reported |
| TableRows.ScanCellsNext | Microsoft.Toolkit.Uwp.UI.Controls/MarkdownTextBlock/Parse/Blocks/TableRow.cs:109-125 | the loop returns one past the line's newline; when the line runs to the window end, the window end, or one past it when the window ends in whitespace |
| TableRows.RowNext | Microsoft.Toolkit.Uwp.UI.Controls/MarkdownTextBlock/Parse/Blocks/TableRow.cs:86-125 | a row returns `startingPos` when it bails out; otherwise one past its newline, or the window end, or one past the window end when the window ends in whitespace; a row that starts past the window end returns `startingPos` with no cell |
| TableRows.PastWindowExample | Microsoft.Toolkit.Uwp.UI.Controls/MarkdownTextBlock/Parse/Blocks/TableRow.cs:92-125 | for the window "a\|b " of length 4 the row reports `a` and `b` and returns 5, past the window |
| TableRows.BarOnlyLineExample | Microsoft.Toolkit.Uwp.UI.Controls/MarkdownTextBlock/Parse/Blocks/TableRow.cs:46-123 | the line "\|\n" reports no cell and moves to the next line |
| TableBlocks.TableBlock.constructor | Microsoft.Toolkit.Uwp.UI.Controls/MarkdownTextBlock/Parse/Blocks/TableBlock.cs:27-30 | a new table block has the table tag |
| TableBlocks.TableBlock.WithRows | Microsoft.Toolkit.Uwp.UI.Controls/MarkdownTextBlock/Parse/Blocks/TableBlock.cs:155 | a new table block holding exactly the given columns and rows |
| TableBlocks.TableBlock.Parse | Microsoft.Toolkit.Uwp.UI.Controls/MarkdownTextBlock/Parse/Blocks/TableBlock.cs:54-156 | returns null, with `actualEnd` left at `start`, exactly when `ParseTable` finds no table; otherwise a new block whose columns, end and rows are those of `ParseTable`, the first row built from the header's ranges and one row per body row, all of them new and distinct objects (`RowsFrom`); no row is padded or cut to the column count |
| TableBlocks.TableBlock.ParseColumnDefinitions | Microsoft.Toolkit.Uwp.UI.Controls/MarkdownTextBlock/Parse/Blocks/TableBlock.cs:92-139 | the column loop succeeds exactly when each of the first `count` separator cells is well formed, and then yields one definition per cell with the alignment that cell asks for |
| TableBlocks.TableBlock.ParseColumnDefinition | Microsoft.Toolkit.Uwp.UI.Controls/MarkdownTextBlock/Parse/Blocks/TableBlock.cs:97-138 | a cell gives a definition exactly when it is non-empty, starts and ends with `:` or `-` and has only `-` inside; the alignment is Center, Left, Right or Unspecified by its colons |
| TableBlocks.TableBlock.NewRow | Microsoft.Toolkit.Uwp.UI.Controls/MarkdownTextBlock/Parse/Blocks/TableBlock.cs:144-145 | a new row object holding the cells `ScanRow` reports from `start`, and the position after that row |
| TableBlocks.TableBlock.ParseBodyRows | Microsoft.Toolkit.Uwp.UI.Controls/MarkdownTextBlock/Parse/Blocks/TableBlock.cs:141-154 | the body loop builds one new row per body row of `BodyRows`, each with that row's cells, all new and distinct (`RowsFrom`), and returns where the table ends |
| TableBlocks.IsSeparatorCell | Microsoft.Toolkit.Uwp.UI.Controls/MarkdownTextBlock/Parse/Blocks/TableBlock.cs:97-121 | a cell is a separator cell exactly when it is non-empty and each character is `-`, or `:` at the first or last place |
| TableBlocks.AlignmentOf | Microsoft.Toolkit.Uwp.UI.Controls/MarkdownTextBlock/Parse/Blocks/TableBlock.cs:123-136 | the alignment is left or center exactly when the cell starts with `:`, and right or center exactly when it is longer than one character and ends with `:` |
| TableBlocks.BodyRows | Microsoft.Toolkit.Uwp.UI.Controls/MarkdownTextBlock/Parse/Blocks/TableBlock.cs:141-152 | the body loop ends no earlier than it starts, at most one past the window end, and reports rows only when it starts inside the window |
| TableBlocks.ParseTable | Microsoft.Toolkit.Uwp.UI.Controls/MarkdownTextBlock/Parse/Blocks/TableBlock.cs:54-156 | an accepted layout's first line holds a bar, and it has one column per header cell and at least as many separator cells |
| TableBlocks.RowsFromConcat | Microsoft.Toolkit.Uwp.UI.Controls/MarkdownTextBlock/Parse/Blocks/TableBlock.cs:69-150 | two runs of parsed rows with no row in common join into one run, each row keeping its cells |
| TableBlocks.SeparatorFor | Microsoft.Toolkit.Uwp.UI.Controls/MarkdownTextBlock/Parse/Blocks/TableBlock.cs:123-136 | every alignment and dash count has a separator cell that is well formed and reads back as that alignment and count |
| TableBlocks.SeparatorCellIsCanonical | Microsoft.Toolkit.Uwp.UI.Controls/MarkdownTextBlock/Parse/Blocks/TableBlock.cs:97-136 | every well-formed separator cell is the one `SeparatorFor` writes for its alignment and dash count, so the alignment rule and the cell syntax are inverse |
| TableBlocks.ColumnsFrom | Microsoft.Toolkit.Uwp.UI.Controls/MarkdownTextBlock/Parse/Blocks/TableBlock.cs:94-139 | one column per checked separator cell |
| TableBlocks.ColumnsFromAlignment | Microsoft.Toolkit.Uwp.UI.Controls/MarkdownTextBlock/Parse/Blocks/TableBlock.cs:94-139 | column `i` takes the alignment of separator cell `i` |
| TableBlocks.RowRangesWithin | Microsoft.Toolkit.Uwp.UI.Controls/MarkdownTextBlock/Parse/Blocks/TableBlock.cs:76-84 | the separator row's ranges lie inside the text, so their substrings exist |
| TableBlocks.BodyRowsShape | Microsoft.Toolkit.Uwp.UI.Controls/MarkdownTextBlock/Parse/Blocks/TableBlock.cs:141-152 | every body row has a cell, and the table ends no earlier than the body starts and at most one past the window end |
| TableBlocks.TableShape | Microsoft.Toolkit.Uwp.UI.Controls/MarkdownTextBlock/Parse/Blocks/TableBlock.cs:54-156 | an accepted table's first line holds a bar, it has one column per header cell, enough separator cells, each checked one well formed and giving its column's alignment, no empty body row, and an end after its start and at most one past the window |
| TableBlocks.TableAccepted | Microsoft.Toolkit.Uwp.UI.Controls/MarkdownTextBlock/Parse/Blocks/TableBlock.cs:60-121 | a table is accepted exactly when its first line holds a bar, the separator row has a cell per header cell, and each of those is well formed; later separator cells are not looked at |
| TableBlocks.OneBadColumnRejects | Microsoft.Toolkit.Uwp.UI.Controls/MarkdownTextBlock/Parse/Blocks/TableBlock.cs:92-121 | one malformed separator cell among the checked ones rejects the whole table |
| TableBlocks.TwoCellLine | Microsoft.Toolkit.Uwp.UI.Controls/MarkdownTextBlock/Parse/Blocks/TableRow.cs:54-123 | a line "a\|b" of plain cells at the end of the text splits into exactly those two cells |
| TableBlocks.HeaderAB | Microsoft.Toolkit.Uwp.UI.Controls/MarkdownTextBlock/Parse/Blocks/TableBlock.cs:62-74 | the header "A\|B" holds a bar and splits into two cells, moving to the next line |
| TableBlocks.SeparatorAB | Microsoft.Toolkit.Uwp.UI.Controls/MarkdownTextBlock/Parse/Blocks/TableBlock.cs:76-84 | under that header, the separator line "a\|b" yields the cell texts `a` and `b` |
| TableBlocks.TwoColumnTable | Microsoft.Toolkit.Uwp.UI.Controls/MarkdownTextBlock/Parse/Blocks/TableBlock.cs:54-156 | for plain cells `a` and `b`, "A\|B\na\|b" is a two-column table with those alignments exactly when both are separator cells, and no table otherwise |
| TableBlocks.PlainSeparatorExample | Microsoft.Toolkit.Uwp.UI.Controls/MarkdownTextBlock/Parse/Blocks/TableBlock.cs:123-136 | "--\|--" gives two columns of unspecified alignment |
| TableBlocks.AlignedSeparatorExample | Microsoft.Toolkit.Uwp.UI.Controls/MarkdownTextBlock/Parse/Blocks/TableBlock.cs:123-136 | ":--\|--:" gives a left-aligned and a right-aligned column |
| TableBlocks.MalformedSeparatorExample | Microsoft.Toolkit.Uwp.UI.Controls/MarkdownTextBlock/Parse/Blocks/TableBlock.cs:114-121 | "--\|xx" rejects the table |
| CodeInlines.FirstKept | Microsoft.Toolkit.Uwp.UI.Controls/MarkdownTextBlock/Parse/Inlines/CodeInline.cs:103 | the first kept index is at or after its start and is not a trim character |
| CodeInlines.LastKept | Microsoft.Toolkit.Uwp.UI.Controls/MarkdownTextBlock/Parse/Inlines/CodeInline.cs:103 | the last kept index follows a character that is not a trim character |
| CodeInlines.TrimCode | Microsoft.Toolkit.Uwp.UI.Controls/MarkdownTextBlock/Parse/Inlines/CodeInline.cs:103 | the trimmed text neither starts nor ends with space, tab, carriage return or line feed |
| CodeInlines.FirstKeptSkipsTrimChars | Microsoft.Toolkit.Uwp.UI.Controls/MarkdownTextBlock/Parse/Inlines/CodeInline.cs:103 | only trim characters are dropped at the start |
| CodeInlines.LastKeptSkipsTrimChars | Microsoft.Toolkit.Uwp.UI.Controls/MarkdownTextBlock/Parse/Inlines/CodeInline.cs:103 | only trim characters are dropped at the end |
| CodeInlines.TrimCodeKeepsMiddle | Microsoft.Toolkit.Uwp.UI.Controls/MarkdownTextBlock/Parse/Inlines/CodeInline.cs:103 | trimming keeps a contiguous middle of the text and drops only trim characters around it |
| CodeInlines.TrimCodeIdempotent | Microsoft.Toolkit.Uwp.UI.Controls/MarkdownTextBlock/Parse/Inlines/CodeInline.cs:103 | text already trimmed is unchanged, so trimming twice is trimming once |
| CodeInlines.Parse | Microsoft.Toolkit.Uwp.UI.Controls/MarkdownTextBlock/Parse/Inlines/CodeInline.cs:55-105 | a span starts at `start`, ends inside the window, is a code element, and its text is trimmed |
| CodeInlines.AddTripChars | Microsoft.Toolkit.Uwp.UI.Controls/MarkdownTextBlock/Parse/Inlines/CodeInline.cs:43-46 | appends exactly the backtick trigger for the code parser to the list |
| CodeInlines.ToString | Microsoft.Toolkit.Uwp.UI.Controls/MarkdownTextBlock/Parse/Inlines/CodeInline.cs:111-119 | the Markdown text is the code text between a backtick on each side |
| CodeInlines.NoSpanWithoutBacktick | Microsoft.Toolkit.Uwp.UI.Controls/MarkdownTextBlock/Parse/Inlines/CodeInline.cs:57-61 | no span unless a backtick is at `start` inside the window |
| CodeInlines.SingleBacktickSpan | Microsoft.Toolkit.Uwp.UI.Controls/MarkdownTextBlock/Parse/Inlines/CodeInline.cs:81-104 | after one backtick, the span is taken exactly when another backtick follows in the window; it closes at the first one, is not empty, holds the trimmed text in between, and that text holds no backtick |
| CodeInlines.DoubleBacktickSpan | Microsoft.Toolkit.Uwp.UI.Controls/MarkdownTextBlock/Parse/Inlines/CodeInline.cs:63-104 | after two backticks, the span is taken exactly when a later "``" ends inside the window and does not start right away; it closes at the first such pair |
| CodeInlines.RoundTrip | Microsoft.Toolkit.Uwp.UI.Controls/MarkdownTextBlock/Parse/Inlines/CodeInline.cs:55-119 | the Markdown text of a trimmed, non-empty code text without backticks parses back to the same span, covering all of it |
| CodeInlines.SingleExample | Microsoft.Toolkit.Uwp.UI.Controls/MarkdownTextBlock/Parse/Inlines/CodeInline.cs:81-104 | "`a`" is a span with text "a" |
| CodeInlines.DoubleExampleCloser | Microsoft.Toolkit.Uwp.UI.Controls/MarkdownTextBlock/Parse/Inlines/CodeInline.cs:73 | in "``a`b``" the closing pair starts at 5 |
| CodeInlines.DoubleExample | Microsoft.Toolkit.Uwp.UI.Controls/MarkdownTextBlock/Parse/Inlines/CodeInline.cs:63-104 | "``a`b``" is a span with text "a`b" |
| CodeInlines.EmptyExample | Microsoft.Toolkit.Uwp.UI.Controls/MarkdownTextBlock/Parse/Inlines/CodeInline.cs:63-99 | "``" is no span |
| CodeInlines.BlankExample | Microsoft.Toolkit.Uwp.UI.Controls/MarkdownTextBlock/Parse/Inlines/CodeInline.cs:95-104 | "` `" is a span whose text trims to the empty text |
| SuperscriptInlines.Parse | Microsoft.Toolkit.Uwp.UI.Controls/MarkdownTextBlock/Parse/Inlines/SuperscriptTextInline.cs:54-93 | a span starts at `start`, ends after it but at most at the end of the text, and is a superscript element |
| SuperscriptInlines.AddTripChars | Microsoft.Toolkit.Uwp.UI.Controls/MarkdownTextBlock/Parse/Inlines/SuperscriptTextInline.cs:42-45 | appends exactly the caret trigger for the superscript parser to the list |
| SuperscriptInlines.ToString | Microsoft.Toolkit.Uwp.UI.Controls/MarkdownTextBlock/Parse/Inlines/SuperscriptTextInline.cs:99-107 | the Markdown text is "^(", the rendered children joined with nothing between them, and ")" |
| SuperscriptInlines.NoSpanWithoutCaret | Microsoft.Toolkit.Uwp.UI.Controls/MarkdownTextBlock/Parse/Inlines/SuperscriptTextInline.cs:56-60 | no span unless a caret is at `start` inside the window |
| SuperscriptInlines.ParenthesisedForm | Microsoft.Toolkit.Uwp.UI.Controls/MarkdownTextBlock/Parse/Inlines/SuperscriptTextInline.cs:62-76 | after "^(", the span is taken exactly when a `)` follows in the window; it closes at the first one, its children come from the possibly empty range before it, which holds no `)` |
| SuperscriptInlines.BareForm | Microsoft.Toolkit.Uwp.UI.Controls/MarkdownTextBlock/Parse/Inlines/SuperscriptTextInline.cs:77-92 | after a bare caret, the span is refused exactly when whitespace follows (or the caret ends the whole text); otherwise the children run to the first whitespace, which is not consumed |
| SuperscriptInlines.BareFormRunsPastWindow | Microsoft.Toolkit.Uwp.UI.Controls/MarkdownTextBlock/Parse/Inlines/SuperscriptTextInline.cs:77-87 | a bare word with no whitespace up to the window end runs on to the end of the whole text |
| SuperscriptInlines.PastWindowExample | Microsoft.Toolkit.Uwp.UI.Controls/MarkdownTextBlock/Parse/Inlines/SuperscriptTextInline.cs:77-92 | with the window "^a" of the text "^ab" the span ends at 3, past the window |
| SuperscriptInlines.RoundTrip | Microsoft.Toolkit.Uwp.UI.Controls/MarkdownTextBlock/Parse/Inlines/SuperscriptTextInline.cs:54-107 | the Markdown text of a span whose rendered children hold no `)` parses back as one parenthesised span covering all of it, with children parsed from exactly the rendered children |
| SuperscriptInlines.ParenthesisedExample | Microsoft.Toolkit.Uwp.UI.Controls/MarkdownTextBlock/Parse/Inlines/SuperscriptTextInline.cs:62-92 | "^(a b)" is one span with children parsed from "a b" |
| SuperscriptInlines.BareExample | Microsoft.Toolkit.Uwp.UI.Controls/MarkdownTextBlock/Parse/Inlines/SuperscriptTextInline.cs:77-92 | "^word rest" is a span over "word" that stops before the space |
| SuperscriptInlines.SpaceAfterCaretExample | Microsoft.Toolkit.Uwp.UI.Controls/MarkdownTextBlock/Parse/Inlines/SuperscriptTextInline.cs:79-84 | "^ x" is no span |
| SuperscriptInlines.EmptyParenthesesExample | Microsoft.Toolkit.Uwp.UI.Controls/MarkdownTextBlock/Parse/Inlines/SuperscriptTextInline.cs:62-92 | "^()" is a span with an empty range of children |
| SuperscriptInlines.NestedParenthesesExample | Microsoft.Toolkit.Uwp.UI.Controls/MarkdownTextBlock/Parse/Inlines/SuperscriptTextInline.cs:62-76 | in "^((a))" the first `)` closes the span |

## Left out

- The helper class that the parsers call is not part of this model. Its
  members are modelled as follows:
  - `IndexOf` (a character or a text) returns the first occurrence in
    `[from, to)`, or -1. A text match must end at or before `to`. This is
    an assumption.
  - `IsWhiteSpace` accepts space, tab, carriage return and line feed. This
    is an assumption.
  - `FindNextWhiteSpace` returns the first whitespace in `[from, to)`. When
    there is none it returns the length of the whole text (with the flag
    the superscript parser passes) or -1. This is an assumption, and it is
    why a bare superscript can run past its window
    (`BareFormRunsPastWindow`).
  - `SkipQuoteCharacters` is a parameter. It is constrained only to never
    move backwards and never move past the window end.
  - `ParseInlineChildren` is a parameter. The children of a table cell or
    a superscript are whatever it returns for the range.
- The row splitter's callback is modelled by the list of ranges it would
  receive, in order. Side effects other than collecting cells or cell
  texts, as the two callers do, are not modelled.
- The three inner loops of `ParseContents` are separate methods:
  leading whitespace, end of cell and trailing whitespace. The cell loop
  (`ParseCells`) and its body (`ParseCell`) are separate methods as well.
  They run the same steps in the same order.
- `TableBlock.Parse` requires `start <= endOfFirstLine`. In the source a
  smaller `endOfFirstLine` gives `IndexOf` a negative count, and the call
  throws.
- A header row that bails out does not reject the table. Only the bar
  check over `[start, endOfFirstLine)` (`IndexOf`) rejects one, and the
  separator row is then read from `start`.
- Rows are neither padded nor truncated to the column count. This is
  stated through `CellsOf`: each row's cells are one per reported range,
  and `ColumnDefinitions` plays no part in them.
- `CodeInlines.ToString`, `SuperscriptInlines.ToString`: the null-contents
  case of `ToString` is not modelled. An element here always has its text
  or children, so the fallback to the base class's `ToString` never
  arises.
- `SuperscriptInlines.ToString` takes the rendering of each child as the
  parameter `render`, since the other inline kinds are not part of this
  model.
- `TableColumnDefinition` is a datatype, not a class with a settable
  property. The source only sets its alignment once, right after creating
  it.
- `Equals` and `GetHashCode` are not modelled. Neither is rendering to
  the UI, nor anything about threads: parsing is single-threaded and keeps
  no state between calls.
- Integers are unbounded. The positions involved never come near the
  32-bit limit of the source's `int`.
- `SuperscriptInlines.Parse`: how the children of "^(a b)" split depends
  on the children parser, which is a parameter here.
  `ParenthesisedExample` states only the range they are parsed from.
