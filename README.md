# GoCell core in Dafny

GoCell is a small spreadsheet. A table is a text file with one row per line. The cells of a row
are separated by `|`. A cell can be empty, a number, text, a formula (`=A1 + 2`), or a clone
directive (`:^`, `:>`, `:v`, `:<`). A clone directive copies the neighbouring cell in that
direction. A line `...N` repeats the row above it N times. Evaluation computes every formula and
clone in row-major order. Results are memoized per cell, and a cycle of references becomes the
error `Loop!`.

This project models the core of that program in Dafny and proves properties of the model:

- `directions.dfy` (module `Directions`): the four clone directions, `Reverse`, the one-step
  `Offset`, and the `count`-step offset of a grid position.
- `cell.dfy` (module `Cells`): the cell record, `parseDirection`, `parseCell`, and `Cell.String`
  for its non-numeric branches.
- `expression.dfy` (module `Expressions`): the formula tree, `Shift`, the tokenizer, and the
  recursive-descent parser. Each parse function returns the text it did not consume.
- `grid.dfy` (module `Grids`): the pure side of a table.
  - The layout (index `row * columns + column`), `CellAt`, `IsEmpty` and `cloneCell`.
  - Specification functions for `countTableSize`, `readCloneLine` and `readTableContent`, with
    the lemmas about them.
- `evaluate.dfy` (module `Evaluation`): the evaluation engine as functions. Each takes the cells of
  the table as they are when the Go method is entered. It returns them as the method leaves them,
  together with the method's result, or `Panicked` where the Go code panics.
  - A formula is reached through a `Pointer`: the slot's own `expression` field (`Root`), or a
    node below it (`Node`). Go's `EvaluateCellReferance` reads the reference's position again
    after `EnsureEvaluated`, and `EvaluateOperation` reads the right operand only after the left
    one. Both reads go through the pointer into the grid as it is then. A slot that a re-entry
    has overwritten with `Loop!` holds the zero expression, at row 0 and column 0, with no
    operands; `ZeroExpr` stands for it.
  - Termination uses a measure over the table: 2 for every Pending clone cell and 1 for every
    Pending formula cell. This is paired lexicographically with the size of the formula.
  - The invariant is that no clone cell is ever Done.
- `table.dfy` (module `Tables`): the imperative code.
  - The loading loops fill the content `array` in place.
  - `class Table` holds `content`, `rows` and `columns`. Its methods write into the array as the Go
    code writes through its cell pointers, and read a formula through its slot each time the Go
    code does. Each returns whether the program panicked.
  - Each method is proved to compute exactly the function of `Grids` or `Evaluation` that
    specifies it. So everything proved about those functions holds for the methods.
- `strings.dfy`, `strconv.dfy`, `options.dfy`: the parts of Go's `strings` and `strconv` packages
  the core calls, and an `Option` type.

Numbers are `real` with exact addition. Error values are their message strings. The input file
is given as its lines, a `seq<string>`.

`cloneCell` in `src/table.go` updates a cell's `expressionOffset`. No code in `src/evaluate.go`
reads that field. A cloned formula's references are moved by `Expression.Shift` instead, when
`CloneCell` copies it. The model keeps the field and follows each file as written.

## Model

| member | source | states |
|---|---|---|
| Directions.Reverse | src/cell.go:18-31 | defined on the four directions only (the source panics on None); the result is a direction other than the input |
| Directions.ReverseInvolutive | src/cell.go:18-31 | reversing twice gives back the direction |
| Directions.Offset | src/cell.go:33-46 | exactly one coordinate changes, by exactly one, so the position always moves |
| Directions.OffsetReverse | src/cell.go:18-46 | a step in the reverse direction undoes a step in any direction |
| Directions.OffsetIsDelta | src/cell.go:33-46 | a step adds the direction's unit deltas; the reverse direction's deltas are their negation |
| Directions.OffsetBy | src/table.go:48-49 | the count-step offset of a position agrees with `Offset` for one step |
| Directions.OffsetByCompose | src/table.go:48-49 | m steps then n steps in one direction is m + n steps |
| Directions.OffsetByReverse | src/table.go:48-49 | count steps in the reverse direction undo count steps |
| Cells.ParseDirection | src/cell.go:97-115 | succeeds iff the text is nonempty and its first character is one of `^ > v <`; the result names that character; every failure yields None; empty text is "No clone direction"; otherwise the error quotes the whole text |
| Cells.ParseDirectionChar | src/cell.go:97-115 | only the first character is inspected: a direction's character followed by any text parses to that direction |
| Cells.ParseCell | src/cell.go:117-146 | each kind holds exactly when the source's priority order selects it: empty; `=` with a parse that succeeds (Expression, holding the parsed tree); `=` or `:` with a sub-parse that fails (Error, holding exactly that sub-parse's error and nothing else); `:` with a direction (Clone, holding that direction, never None); otherwise Number iff ParseFloat succeeds (holding its value), else Text (holding the whole text); every result is Pending |
| Cells.CellString | src/cell.go:76-95 | an Expression that is not Done renders `#ERROR#`; an Error renders its message between `#`; Empty renders ""; Text renders its text |
| Expressions.Shift | src/expression.go:41-52 | the tree keeps its shape and its number leaves; the i-th cell reference moves by `Offset(direction)` |
| Expressions.ShiftReverse | src/expression.go:41-52 | shifting in the reverse direction restores the tree |
| Expressions.ParseCellReference | src/expression.go:54-72 | the remainder is a suffix of the input, and is the whole input on failure; on success the column is the letter's index 0..25, the token runs to the next blank, and its digits parse to row + 1 |
| Expressions.ParseNumber | src/expression.go:74-89 | the remainder is a suffix of the input, and is the whole input on failure; on success the token runs to the next blank and parses to the number |
| Expressions.NextToken | src/expression.go:91-109 | the remainder is a suffix of the input; TokenEmpty iff nothing is left after the leading blanks; `+` consumes exactly one character; any other token consumes some input |
| Expressions.ParseTerm | src/expression.go:111-138 | the remainder is a suffix of the input; a success is a number or a reference leaf; nothing after blanks is "Expected value, got nothing instead"; a leading `+` is "Unexpected '+', expected value" |
| Expressions.ParseExpression | src/expression.go:155-189 | the remainder is a suffix of the input; a success consumes all input, and its tree never has a `+` node as a left operand |
| Expressions.ParseOperators | src/expression.go:161-188 | the operator loop ends with empty input; on success the result is the first term, or a `+` node whose left operand is that term |
| Expressions.ParseOperation | src/expression.go:140-153 | on success the result is a `+` node over the given left operand, and all input is consumed |
| Expressions.EndOfInput | src/expression.go:162-170 | at the end of the input the operator loop returns what it has |
| Expressions.ValueAfterValue | src/expression.go:176-184 | a number or reference right after a term is the "expected operator" error |
| Expressions.PlusGroupsRight | src/expression.go:140-189 | term `+` expression parses to `Add(term, expression)`: `a + b + c` is `a + (b + c)` |
| Expressions.UnspacedSumFails | src/expression.go:54-72 | `A1+B1` fails, because a token extends to the next blank |
| Strings.SplitCount | src/table.go:110 | splitting a line on the bar separator gives one piece more than there are separators, so both counts of columns agree |
| Strings.JoinSplit | src/table.go:168 | joining the pieces with the separator gives back the line |
| Strconv.ParseInt32 | src/expression.go:61-64 | succeeds iff the text is integer syntax within 32 bits, and then yields its value |
| Strconv.ParseUint32 | src/table.go:125 | succeeds iff the text is nonempty decimal digits whose value fits in 32 bits, and then yields that value; the value never exceeds the 32-bit maximum |
| Strconv.ScanUint32 | src/table.go:125 | the digit loop yields a value iff the text is nonempty digits whose value fits in 32 bits, and then that value |
| Strconv.OverflowComesFirst | src/table.go:105 | leading digits past the 32-bit maximum make ParseUint yield the maximum with the range error, and ParseInt the 32-bit maximum with the range error, whatever follows them |
| Strconv.SyntaxBeforeOverflow | src/table.go:125 | a text that is not all digits, whose leading digits stay within the maximum, yields 0 with the syntax error |
| Strconv.DigitsValueGrows | src/table.go:125 | appending digits never makes the value smaller |
| Strconv.ParseFloat | src/cell.go:140 | succeeds exactly on decimal float syntax |
| Strconv.ParseIntText | src/expression.go:180-184 | the row a reference error message prints with `%d` reads back with ParseInt |
| Grids.RowStartIsProduct | src/table.go:29 | the row start used to lay out the grid is `row * columns` |
| Grids.Index | src/table.go:29 | an in-bounds position's index lies inside the grid |
| Grids.CellAt | src/table.go:20-31 | in bounds, the slot at `row * columns + column`; out of bounds, a fresh `Cell outside table` error |
| Grids.IsEmpty | src/table.go:33-41 | true iff the position is in bounds and its slot is an Empty cell |
| Grids.IsEmptyMatchesCellAt | src/table.go:20-41 | IsEmpty holds iff CellAt yields an Empty cell |
| Grids.CloneCell | src/table.go:43-55 | a non-Expression cell is returned unchanged; an Expression cell moves its offset `offset` steps in the reverse direction, becomes Pending, gets number 0, and keeps every other field |
| Grids.CloneCellCompose | src/table.go:43-55 | cloning m steps then n steps is cloning m + n steps |
| Grids.CloneCellReverse | src/table.go:43-55 | cloning back in the reverse direction restores the offset |
| Grids.ParseLine | src/table.go:157-174 | a trimmed line is a repeat iff it starts with `...`, with the ParseUint count of the trimmed rest; otherwise it has one cell per piece between its bar separators, each one Pending |
| Grids.ParseLineCells | src/table.go:168-171 | cell i of a data line is parseCell of the trimmed piece i |
| Grids.MaxColumnCountIsMaximum | src/table.go:110-114 | every line fits in the column count, and a nonempty input attains it |
| Grids.TableSizeMatchesLines | src/table.go:97-118 | the row count is the sum of the rows of the lines, where a `...` line adds its count (0 when unparsable) and any other line adds 1; the column count is the widest line as read; every line fits in it |
| Grids.LoadLine | src/table.go:120-143 | a repeat fails iff its count is bad (with ParseUint's error) or it is at row 0 ("Cannot duplicate above the table"); otherwise the next row is the row plus the line's rows |
| Grids.LoadLinesFails | src/table.go:156-166 | the load stops at the first failing line, with that line's error |
| Grids.CloneRowsFrame | src/table.go:133-140 | a `...` line writes no cell outside the rows it fills |
| Grids.CloneRowsCell | src/table.go:133-140 | each cell of row r of a `...` line is the cell of the row above the line, cloned `r - row + 1` steps Up |
| Grids.LoadLinesFresh | src/table.go:149-177 | a loaded grid has every cell Pending and with a direction |
| Grids.LoadLinesUntouched | src/table.go:149-152 | the rows from the next row on are still Empty before each line |
| Grids.DataLineWritten | src/table.go:168-176 | right after a data line, its row holds its cells in order, then Empty cells |
| Grids.DataLineRow | src/table.go:168-176 | a data line's row keeps those cells until the end of the load |
| Grids.LineFitsCounted | src/table.go:149-177 | line k writes inside a grid of the counted size |
| Grids.CountedSizeFits | src/table.go:182-191 | with the sizes countTableSize computes, every write of readTableContent is inside the content |
| Evaluation.EnsureEvaluated | src/evaluate.go:72-97 | unless it panics, the grid keeps its length and validity; no Done cell changes, no cell newly becomes InProgress, and the measure does not grow; an entered slot is neither a clone nor InProgress afterwards |
| Evaluation.EnsureEvaluatedSlot | src/evaluate.go:72-97 | outside the table nothing changes; a Done slot is memoized; an InProgress slot becomes the `Loop!` error; a Pending formula or clone goes to its branch; any other Pending cell is only marked Done |
| Evaluation.EvaluateFormulaCell | src/evaluate.go:83-90 | unless it panics, the formula branch leaves its slot Done and not a clone, and evolves the grid as allowed |
| Evaluation.EvaluateCloneCell | src/evaluate.go:91-96 | unless it panics, the clone branch leaves its slot Done and not a clone, and evolves the grid as allowed |
| Evaluation.CloneCell | src/evaluate.go:57-70 | it panics iff EnsureEvaluated of the source panics; otherwise the grid is the one that call leaves; a non-Expression source is copied as it is; an Expression source is copied with its tree shifted against the direction, Pending, number 0 |
| Evaluation.EvaluateCellReference | src/evaluate.go:5-23 | EnsureEvaluated at the position the pointer holds on entry; a panic there is a panic; then the position is read again through the pointer: it is the same one, or (0, 0) when the pointer's slot became `Loop!`; the cell read there gives the result as ReadCell says |
| Evaluation.EvaluateExpression | src/evaluate.go:44-55 | a number evaluates to itself without touching the grid; an error comes with value -1; unless it panics, the grid evolves as allowed |
| Evaluation.EvaluateOperation | src/evaluate.go:25-42 | the left operand is evaluated first; when it panics or fails, that is the result and the right operand is never evaluated; otherwise the node is read again, and it panics when its slot became `Loop!` meanwhile; else the grid and error are the right operand's, and the value is the sum |
| Evaluation.EnsureEvaluatedIdempotent | src/evaluate.go:72-76 | with no cell InProgress, evaluating a cell twice is evaluating it once |
| Evaluation.ReferenceOutside | src/evaluate.go:5-7 | a reference outside the table leaves the grid as it is and fails with "Cell outside table" |
| Evaluation.EnsureEvaluatedDone | src/evaluate.go:72-97 | at a Done prefix, evaluating the next cell extends it by one, with no cell InProgress |
| Evaluation.EvaluateRow | src/evaluate.go:101-103 | the inner loop from column `column` to the end of the row stops at the first panic; otherwise it evolves the grid as allowed and keeps it valid |
| Evaluation.EvaluateRowDone | src/evaluate.go:101-103 | from a grid with no cell InProgress whose cells before (row, column) are Done, the rest of the row, unless it panics, leaves every cell up to the end of the row Done and none InProgress |
| Evaluation.EvaluateRows | src/evaluate.go:100-104 | the outer loop from row `row` to the last row stops at the first panic; otherwise it evolves the grid as allowed and keeps it valid |
| Evaluation.EvaluateRowsDone | src/evaluate.go:100-104 | from a grid with no cell InProgress whose rows before `row` are Done, the remaining rows, unless they panic, leave every cell of the table Done |
| Evaluation.EvaluateAllDone | src/evaluate.go:99-105 | Evaluate terminates on every table, cycles included, and unless it panics leaves every cell Done |
| Evaluation.ConstantFormula | src/evaluate.go:44-55 | a formula without references evaluates to the sum of its numbers and touches no cell |
| Evaluation.CycleBecomesLoop | src/evaluate.go:72-105 | A1 `=B1` and B1 `=A1`, freshly loaded into a one-row table: Evaluate leaves both cells Done `Loop!` errors |
| Evaluation.ReadCell | src/evaluate.go:9-22 | text is "Cannot operate on text"; a number or a formula gives its number; an error passes on its error; empty gives 0; only a clone panics; the grid is untouched, and an error comes with value -1 |
| Evaluation.Reread | src/evaluate.go:6-7 | a pointer held while its slot is InProgress reaches the same expression later, unless the slot became `Loop!`, which holds the zero expression |
| Evaluation.EvaluateFormulaCellStores | src/evaluate.go:83-96 | the formula branch panics iff its formula does; otherwise every other slot is as the formula left it, and the slot holds the formula's error, Done; or else the slot as the formula left it with the computed number stored, Done, which is the original formula cell or the `Loop!` error a re-entry made of it |
| Evaluation.EvaluateCloneCellStores | src/evaluate.go:91-96 | a panic of CloneCell is a panic; a Pending formula copy is written into the slot and evaluated there as a formula cell; any other copy is written into the slot and marked Done |
| Evaluation.ReentryFails | src/evaluate.go:78-80 | a reference to an InProgress cell turns that cell into `Loop!` and fails with `Loop!` |
| Evaluation.FormulaFails | src/evaluate.go:86-90 | a formula that fails leaves its slot the error, Done |
| Evaluation.ReentryLoops | src/evaluate.go:78-90 | entering y `=x` while x is InProgress leaves x `Loop!` and y a Done `Loop!` |
| Evaluation.MutualReference | src/evaluate.go:5-97 | x `=y` and y `=x`: evaluating x leaves y a Done `Loop!`, and x reads the first cell of the table through its overwritten slot and ends as what that read gives, or the program panics |
| Evaluation.CycleThroughFirst | src/evaluate.go:5-97 | A1 `=y` and y `=A1`: both end as Done `Loop!` errors |
| Evaluation.CloneIntoCyclePanics | src/evaluate.go:5-93 | a clone in the first cell whose source lies on a two-cell cycle panics |
| Evaluation.TextCycleResult | src/evaluate.go:5-105 | the row `hello`, `=C1`, `=B1`: A1 stays text, B1 ends as "Cannot operate on text" and C1 as `Loop!` |
| Evaluation.CloneCyclePanics | src/evaluate.go:20-105 | the row `:>`, `=C1`, `=B1` panics |
| Evaluation.SumStoresSix | src/evaluate.go:83-90 | B1 `=A1 + 1` after A1 `5` keeps its formula and holds 6, Done |
| Evaluation.SumResult | src/evaluate.go:99-105 | the row `5`, `=A1 + 1`: A1 stays 5 and B1 is a formula cell holding 6 |
| Evaluation.PlainFirst | src/evaluate.go:83-96 | a Pending first cell that is neither a formula nor a clone is only marked Done |
| Evaluation.AllDoneStays | src/evaluate.go:74-76 | evaluating a cell of a table whose cells are all Done changes nothing |
| Evaluation.RowOfTwo | src/evaluate.go:99-105 | Evaluate on a one-row, two-column table evaluates A1, then B1 |
| Evaluation.RowOfThree | src/evaluate.go:99-105 | Evaluate on a one-row, three-column table evaluates A1, B1, then C1 |
| Evaluation.RowPanics | src/evaluate.go:99-105 | Evaluate on a one-row table whose first cell panics panics |
| Tables.CountTableSize | src/table.go:97-118 | the loop computes the row count and the column count of the lines |
| Tables.CloneRowInPlace | src/table.go:134-138 | the inner loop turns the row into cloneCell of the row above, moved Up one step |
| Tables.WriteDataLine | src/table.go:168-175 | each trimmed, parsed piece goes to the next column of the row, and nothing else changes |
| Tables.CloneRowsInPlace | src/table.go:133-140 | the outer loop writes `count` cloned rows below the row above and returns the row after them |
| Tables.ReadCloneLine | src/table.go:120-143 | computes LoadLine in place; on an error it writes nothing and returns the row |
| Tables.ReadLine | src/table.go:157-176 | one line in place: a `...` line is a clone line, any other line fills a data row; the array and the next row are what LoadLine computes, or its error |
| Tables.ReadTableContent | src/table.go:145-180 | the content starts Empty and ends as LoadLines leaves it, or no content with the first line's error |
| Tables.ReadTable | src/table.go:182-202 | on success, a fresh valid table of the counted size holding the loaded grid with no cell InProgress; otherwise no table and the load's error |
| Tables.Table.constructor | src/table.go:196-201 | the table holds the given content and size |
| Tables.Table.EnsureEvaluated | src/evaluate.go:72-97 | panics iff Evaluation.EnsureEvaluated does, and otherwise leaves the content it computes, valid |
| Tables.Table.EvaluateFormulaCell | src/evaluate.go:83-90 | panics iff Evaluation.EvaluateFormulaCell does, and otherwise leaves the content it computes |
| Tables.Table.EvaluateCloneCell | src/evaluate.go:91-96 | panics iff Evaluation.EvaluateCloneCell does, and otherwise leaves the content it computes |
| Tables.Table.CloneCell | src/evaluate.go:57-70 | panics iff Evaluation.CloneCell does, and otherwise returns the copy and leaves the content it computes |
| Tables.Table.EvaluateCellReference | src/evaluate.go:5-23 | panics iff Evaluation.EvaluateCellReference does, and otherwise returns its value and error and leaves its content; the position is read again through the pointer after EnsureEvaluated |
| Tables.Table.EvaluateExpression | src/evaluate.go:44-55 | panics iff Evaluation.EvaluateExpression does, and otherwise returns its value and error and leaves its content |
| Tables.Table.EvaluateOperation | src/evaluate.go:25-42 | panics iff Evaluation.EvaluateOperation does, and otherwise returns its value and error and leaves its content; the node is read again before the right operand |
| Tables.Table.Evaluate | src/evaluate.go:99-105 | panics iff Evaluation.EvaluateRows over all rows does, and otherwise leaves the content it computes; from a table with no cell InProgress, every cell ends Done |
| Tables.Table.EvaluateRow | src/evaluate.go:101-103 | panics iff Evaluation.EvaluateRow from column 0 does, and otherwise leaves the content it computes |

## Left out

- `src/main.go`: it is command-line plumbing and an older version of the table code.
- `readTable`'s file reading and `bufio.Scanner` line splitting: the model receives the lines.
- `Table.Print`: it writes to an `io.Writer`, and its column widths come from float formatting.
- `Cells.CellString`: numbers are rendered with a decimal stand-in (`NumberText`) instead of fmt's
  `%.6g`. The contract says nothing about the Number and Done-Expression branches, and the Clone
  branch (a panic in the source) is excluded by a precondition.
- Float arithmetic: numbers are exact reals, so IEEE rounding, infinities and NaN are not modelled.
- `Strconv.ParseFloat`, `Strconv.ParseInt32`, `Strconv.ParseUint32`: decimal syntax only, with no
  hexadecimal, underscores, `inf` or `nan`, and no float range errors. The message texts follow
  Go's format but do not escape quotes.
- Byte strings: Go indexes and slices strings by byte (`text[0]`, `text[1:]`, the column letter,
  `%c` in "Unexpected char"), the model by character. The two agree on ASCII text. Go's
  `strings.TrimSpace` also trims Unicode white space such as U+0085 and U+00A0, while
  `Strings.TrimSpace` trims ASCII white space only; so `5` followed by U+00A0 is a Number cell in
  Go and a Text cell in the model.
- `Expressions.UnexpectedValue`: the number in the "Unexpected '...', expected operator" message is
  printed with the decimal stand-in `NumberText`, not with Go's `%.6g`.
- `ExpressionAllocator`: it owns parsed nodes in the source and plays no part in the behaviour
  shown.
- Pointer aliasing in `Expression.Shift`: the Go tree shares `lhs` and `rhs` nodes between a cell
  and its copy, so shifting a copied `+` tree also moves the original's subtrees. The model's tree
  is immutable and `Shift` returns a new one. The two differ on a table whose first row is `:>`,
  `=B2 + 0`, `:<` and whose second row is `1`, `2`, `3`: in Go, copying B1 into A1 moves B1's own
  reference to A2, and copying it into C1 moves it back, so C1 is 2; in the model C1 refers to C2
  and is 3.
- `add_operation`: it is passed as a function value in the source and is modelled as `+` inside
  `EvaluateOperation`.
- `parseCell`'s position argument: `src/table.go:171` passes a position that `src/cell.go:117`
  does not take; the model uses the one-argument version.
- `CellPosition.Offset` is not part of this model's source files; `Directions.OffsetBy` defines it
  as `count` unit steps.
- `readTableContent` returns nil content on an error; the model returns an empty array.
  `readTable` returns a zero `Table` on an error; the model returns `null`.
- `Evaluation.EvaluateRow`, `Evaluation.EvaluateRows`: their contracts state only the invariant
  they keep. That every visited cell ends Done is stated by `EvaluateRowDone` and
  `EvaluateRowsDone`.
- `Tables.Table.Evaluate`: every cell ends Done only from a table with no cell InProgress.
  `ReadTable` produces such tables, and `Evaluate` starts no other way in the source.
