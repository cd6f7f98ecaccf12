/**
 * The grid of a table and the loading of a table from its lines (src/table.go).  A grid is the
 * table's `content`, one cell per (row, column) at index row * columns + column.  The functions
 * here are the pure parts of table.go and the specifications of its loading loops; the loops
 * themselves are the methods of module Tables.
 */
module Grids {
  import opened Directions
  import opened Strings
  import opened Strconv
  import opened Expressions
  import opened Cells

  predicate InBounds(rows: int, columns: int, row: int, column: int) {
    0 <= row < rows && 0 <= column < columns
  }

  /** The index of the first cell of a row: row * columns, counted up one row at a time so
      that proofs about the layout stay in linear arithmetic. */
  function RowStart(row: nat, columns: nat): nat {
    if row == 0 then 0 else RowStart(row - 1, columns) + columns
  }

  lemma {:induction false} RowStartIsProduct(row: nat, columns: nat)
    ensures RowStart(row, columns) == row * columns
  {
    if row > 0 {
      RowStartIsProduct(row - 1, columns);
    }
  }

  /** Later rows start later: a whole row lies between the starts of two distinct rows. */
  lemma {:induction false} RowStartMonotone(a: nat, b: nat, columns: nat)
    requires a <= b
    ensures RowStart(a, columns) <= RowStart(b, columns)
    ensures a < b ==> RowStart(a, columns) + columns <= RowStart(b, columns)
    decreases b
  {
    if a < b {
      RowStartMonotone(a, b - 1, columns);
    }
  }

  /** A grid that holds exactly rows * columns cells. */
  predicate Shaped(g: seq<Cell>, rows: nat, columns: nat) {
    |g| == RowStart(rows, columns)
  }

  /** The index of an in-bounds position lies inside the grid. */
  function Index(rows: int, columns: int, row: int, column: int): (i: nat)
    requires InBounds(rows, columns, row, column)
    ensures i == RowStart(row, columns) + column && i < RowStart(rows, columns)
  {
    RowStartMonotone(row, rows, columns);
    RowStart(row, columns) + column
  }

  /** The cell at (row, column) of a grid with `columns` columns. */
  function At(g: seq<Cell>, columns: nat, row: nat, column: nat): Cell
    requires RowStart(row, columns) + column < |g|
  {
    g[RowStart(row, columns) + column]
  }

  const OutsideMessage := "Cell outside table"

  /** CellAt: the slot at an in-bounds position, a fresh error cell anywhere else. */
  function CellAt(g: seq<Cell>, rows: nat, columns: nat, row: int, column: int): (c: Cell)
    requires Shaped(g, rows, columns)
    ensures InBounds(rows, columns, row, column) ==> c == g[Index(rows, columns, row, column)]
    ensures !InBounds(rows, columns, row, column) ==> c == ErrorCell(OutsideMessage)
  {
    if !InBounds(rows, columns, row, column) then ErrorCell(OutsideMessage)
    else g[Index(rows, columns, row, column)]
  }

  /** IsEmpty: false outside the table, else whether the slot is an Empty cell. */
  function IsEmpty(g: seq<Cell>, rows: nat, columns: nat, row: int, column: int): (b: bool)
    requires Shaped(g, rows, columns)
    ensures b <==> InBounds(rows, columns, row, column) && g[Index(rows, columns, row, column)].kind == CellEmpty
  {
    if !InBounds(rows, columns, row, column) then false
    else g[Index(rows, columns, row, column)].kind == CellEmpty
  }

  /** IsEmpty is exactly "CellAt yields an Empty cell": the fabricated cell is an Error cell. */
  lemma IsEmptyMatchesCellAt(g: seq<Cell>, rows: nat, columns: nat, row: int, column: int)
    requires Shaped(g, rows, columns)
    ensures IsEmpty(g, rows, columns, row, column) <==> CellAt(g, rows, columns, row, column).kind == CellEmpty
  {
  }

  /** cloneCell: an Expression cell moves its offset `offset` steps against `direction` and
      forgets its evaluation; any other cell is copied unchanged. */
  function CloneCell(cell: Cell, direction: Direction, offset: int): (c: Cell)
    requires direction != NoDirection
    ensures cell.kind != CellExpression ==> c == cell
    ensures cell.kind == CellExpression ==>
              && c == cell.(expressionOffset := c.expressionOffset, evaluationState := Pending, number := 0.0)
              && c.expressionOffset == OffsetBy(cell.expressionOffset, Reverse(direction), offset)
  {
    if cell.kind == CellExpression then
      cell.(expressionOffset := OffsetBy(cell.expressionOffset, Reverse(direction), offset),
            evaluationState := Pending,
            number := 0.0)
    else cell
  }

  /** Cloning m steps and then n steps is cloning m + n steps. */
  lemma CloneCellCompose(cell: Cell, direction: Direction, m: int, n: int)
    requires direction != NoDirection
    ensures CloneCell(CloneCell(cell, direction, m), direction, n) == CloneCell(cell, direction, m + n)
  {
    if cell.kind == CellExpression {
      OffsetByCompose(cell.expressionOffset, Reverse(direction), m, n);
    }
  }

  /** One more step up after k - 1 steps is k steps. */
  lemma CloneCellOneMore(cell: Cell, k: int)
    ensures CloneCell(CloneCell(cell, Up, k - 1), Up, 1) == CloneCell(cell, Up, k)
  {
    CloneCellCompose(cell, Up, k - 1, 1);
  }

  /** Cloning back in the reverse direction restores the offset of an Expression cell. */
  lemma CloneCellReverse(cell: Cell, direction: Direction, offset: int)
    requires direction != NoDirection
    ensures CloneCell(CloneCell(cell, direction, offset), Reverse(direction), offset).expressionOffset
            == cell.expressionOffset
  {
    if cell.kind == CellExpression {
      ReverseInvolutive(direction);
      OffsetByReverse(cell.expressionOffset, Reverse(direction), offset);
    }
  }

  // ---------------------------------------------------------------- lines

  /** A line that starts with "..." repeats the row above it. */
  predicate IsCloneLine(line: string) {
    |line| >= 3 && line[..3] == "..."
  }

  /** The repeat count of a "..." line: ParseUint of the trimmed text after the dots. */
  function CloneCount(line: string): Conversion<nat>
    requires |line| >= 3
  {
    ParseUint32(TrimSpace(line[3..]))
  }

  /** What one line of the file does to the table: a row of cells, or a repeat of the row above. */
  datatype LineEffect = Data(cells: seq<Cell>) | Repeat(count: Conversion<nat>)

  /** A line of the file, trimmed, then read as a "..." line or as cells separated by '|',
      each piece trimmed and parsed on its own. */
  function ParseLine(line: string): (e: LineEffect)
    ensures var t := TrimSpace(line);
            && (e.Repeat? <==> IsCloneLine(t))
            && (e.Repeat? ==> e.count == CloneCount(t))
            && (e.Data? ==> |e.cells| == Count(t, '|') + 1)
    ensures e.Data? ==> forall i :: 0 <= i < |e.cells| ==> Startable(e.cells[i])
  {
    var t := TrimSpace(line);
    if IsCloneLine(t) then Repeat(CloneCount(t))
    else
      SplitCount(t, '|');
      Data(ParseCells(Split(t, '|')))
  }

  /** parseCell on each trimmed piece, in order. */
  function ParseCells(pieces: seq<string>): (cells: seq<Cell>)
    ensures |cells| == |pieces|
    ensures forall i :: 0 <= i < |pieces| ==> Startable(cells[i])
  {
    seq(|pieces|, i requires 0 <= i < |pieces| => ParseCell(TrimSpace(pieces[i])))
  }

  /** A data line's cells are the pieces between its separators, trimmed and parsed. */
  lemma ParseLineCells(line: string, i: nat)
    requires ParseLine(line).Data? && i < |ParseLine(line).cells|
    ensures var pieces := Split(TrimSpace(line), '|');
            i < |pieces| && ParseLine(line).cells[i] == ParseCell(TrimSpace(pieces[i]))
  {
  }

  /** Every line of the file, read on its own. */
  function ParseLines(lines: seq<string>): seq<LineEffect> {
    seq(|lines|, k requires 0 <= k < |lines| => ParseLine(lines[k]))
  }

  /** A cell the evaluator can start from: Pending, with a direction. */
  predicate Startable(c: Cell) {
    c.evaluationState == Pending && c.direction != NoDirection
  }

  /** The rows a line takes: its count for a "..." line (whatever ParseUint returned, 0 on bad
      syntax, the maximum on overflow), one for any other line. */
  function EffectRows(e: LineEffect): nat {
    if e.Repeat? then e.count.value else 1
  }

  /** The columns a line needs: none for a "..." line, else one per cell. */
  function EffectColumns(e: LineEffect): nat {
    if e.Repeat? then 0 else |e.cells|
  }

  /** The row count of countTableSize. */
  function RowCount(effects: seq<LineEffect>): nat {
    if effects == [] then 0
    else RowCount(effects[..|effects| - 1]) + EffectRows(effects[|effects| - 1])
  }

  /** The column count of countTableSize: the widest line. */
  function MaxColumnCount(effects: seq<LineEffect>): nat {
    if effects == [] then 0
    else
      var before := MaxColumnCount(effects[..|effects| - 1]);
      var here := EffectColumns(effects[|effects| - 1]);
      if here > before then here else before
  }

  /** Every line fits in the column count, and a nonempty input attains it. */
  lemma {:induction false} MaxColumnCountIsMaximum(effects: seq<LineEffect>)
    ensures forall k :: 0 <= k < |effects| ==> EffectColumns(effects[k]) <= MaxColumnCount(effects)
    ensures effects == [] || exists k :: 0 <= k < |effects| && EffectColumns(effects[k]) == MaxColumnCount(effects)
  {
    if effects != [] {
      var prefix := effects[..|effects| - 1];
      var last := |effects| - 1;
      MaxColumnCountIsMaximum(prefix);
      assert forall k :: 0 <= k < |prefix| ==> prefix[k] == effects[k];
      if prefix == [] || EffectColumns(effects[last]) > MaxColumnCount(prefix) {
        assert EffectColumns(effects[last]) == MaxColumnCount(effects);
      } else {
        var k :| 0 <= k < |prefix| && EffectColumns(prefix[k]) == MaxColumnCount(prefix);
        assert EffectColumns(effects[k]) == MaxColumnCount(effects);
      }
    }
  }

  /** Row counts add up over concatenated inputs. */
  lemma {:induction false} RowCountAppend(a: seq<LineEffect>, b: seq<LineEffect>)
    ensures RowCount(a + b) == RowCount(a) + RowCount(b)
    decreases |b|
  {
    if b == [] {
      assert a + b == a;
    } else {
      var b' := b[..|b| - 1];
      RowCountAppend(a, b');
      assert (a + b)[..|a + b| - 1] == a + b';
      assert (a + b)[|a + b| - 1] == b[|b| - 1];
    }
  }

  /** The rows countTableSize gives one line: the ParseUint value after the dots of a "..."
      line (0 on bad syntax, the maximum on overflow), one for any other line. */
  function LineRows(line: string): nat {
    var t := TrimSpace(line);
    if IsCloneLine(t) then CloneCount(t).value else 1
  }

  /** The columns countTableSize sees in one line: none for a "..." line, else one more than
      there are separators. */
  function LineColumns(line: string): nat {
    var t := TrimSpace(line);
    if IsCloneLine(t) then 0 else Count(t, '|') + 1
  }

  /** The row count of countTableSize. */
  function TableRows(lines: seq<string>): nat {
    if lines == [] then 0 else TableRows(lines[..|lines| - 1]) + LineRows(lines[|lines| - 1])
  }

  /** The column count of countTableSize. */
  function TableColumns(lines: seq<string>): nat {
    if lines == [] then 0
    else
      var before := TableColumns(lines[..|lines| - 1]);
      var here := LineColumns(lines[|lines| - 1]);
      if here > before then here else before
  }

  /** One line takes the rows and the columns that countTableSize gives it. */
  lemma LineSize(line: string)
    ensures EffectRows(ParseLine(line)) == LineRows(line)
    ensures EffectColumns(ParseLine(line)) == LineColumns(line)
  {
  }

  /** Rows and columns agree line by line, so the counts agree. */
  lemma {:induction false} SizesAgree(effects: seq<LineEffect>, lines: seq<string>)
    requires |effects| == |lines|
    requires forall k :: 0 <= k < |lines| ==> EffectRows(effects[k]) == LineRows(lines[k])
    requires forall k :: 0 <= k < |lines| ==> EffectColumns(effects[k]) == LineColumns(lines[k])
    ensures RowCount(effects) == TableRows(lines) && MaxColumnCount(effects) == TableColumns(lines)
  {
    if lines != [] {
      var n := |lines| - 1;
      assert forall k :: 0 <= k < n ==> effects[..n][k] == effects[k] && lines[..n][k] == lines[k];
      SizesAgree(effects[..n], lines[..n]);
    }
  }

  /** countTableSize sizes the table for exactly what readTableContent reads: its counts are
      those of the parsed lines, so every line fits in the columns and the rows add up. */
  lemma TableSizeMatchesLines(lines: seq<string>)
    ensures TableRows(lines) == RowCount(ParseLines(lines))
    ensures TableColumns(lines) == MaxColumnCount(ParseLines(lines))
    ensures ColumnsFit(ParseLines(lines), TableColumns(lines))
  {
    var effects := ParseLines(lines);
    forall k | 0 <= k < |lines|
      ensures EffectRows(effects[k]) == LineRows(lines[k]) && EffectColumns(effects[k]) == LineColumns(lines[k])
    {
      LineSize(lines[k]);
    }
    SizesAgree(effects, lines);
    MaxColumnCountIsMaximum(effects);
  }

  // ---------------------------------------------------------------- loading

  /** A fresh grid: every cell Empty. */
  function EmptyGrid(n: nat): (g: seq<Cell>)
    ensures |g| == n && forall j :: 0 <= j < n ==> g[j] == NewCell(CellEmpty)
  {
    seq(n, _ => NewCell(CellEmpty))
  }

  /** One row of a "..." line: row `row` becomes cloneCell(row above, Up, 1), column by column. */
  function CloneRow(g: seq<Cell>, columns: nat, row: nat): (h: seq<Cell>)
    requires row >= 1
    ensures |h| == |g|
  {
    seq(|g|, j requires 0 <= j < |g| =>
      if RowStart(row, columns) <= j < RowStart(row, columns) + columns then CloneCell(g[j - columns], Up, 1)
      else g[j])
  }

  /** The first `count` rows of a "..." line starting at row `row`. */
  function CloneRows(g: seq<Cell>, columns: nat, row: nat, count: nat): (h: seq<Cell>)
    requires row >= 1
    ensures |h| == |g|
  {
    if count == 0 then g else CloneRow(CloneRows(g, columns, row, count - 1), columns, row + count - 1)
  }

  /** The writes of one data line: its cells from column 0 of row `row` on. */
  function WriteCells(g: seq<Cell>, columns: nat, row: nat, cells: seq<Cell>): (h: seq<Cell>)
    ensures |h| == |g|
  {
    seq(|g|, j requires 0 <= j < |g| =>
      if RowStart(row, columns) <= j < RowStart(row, columns) + |cells| then cells[j - RowStart(row, columns)]
      else g[j])
  }

  /** The state of readTableContent between lines: the grid and the next row, or the error. */
  datatype Loading = Loaded(grid: seq<Cell>, row: nat) | LoadFailed(err: string)

  const AboveMessage := "Cannot duplicate above the table"

  /** What one line does to the grid: readCloneLine (a bad count, then row 0, are errors) or
      the writes of a data line. */
  function LoadLine(g: seq<Cell>, columns: nat, row: nat, e: LineEffect): (r: Loading)
    ensures r.Loaded? ==> |r.grid| == |g| && r.row == row + EffectRows(e)
    ensures r.LoadFailed? <==> e.Repeat? && (e.count.Failed? || row == 0)
    ensures r.LoadFailed? && e.count.Failed? ==> r.err == e.count.err
    ensures r.LoadFailed? && e.count.Converted? ==> r.err == AboveMessage
  {
    match e
    case Repeat(count) =>
      if count.Failed? then LoadFailed(count.err)
      else if row == 0 then LoadFailed(AboveMessage)
      else Loaded(CloneRows(g, columns, row, count.value), row + count.value)
    case Data(cells) => Loaded(WriteCells(g, columns, row, cells), row + 1)
  }

  /** readTableContent on a grid: the lines in order, stopping at the first error. */
  function LoadLines(effects: seq<LineEffect>, columns: nat, start: seq<Cell>): (r: Loading)
    ensures r.Loaded? ==> |r.grid| == |start| && r.row == RowCount(effects)
  {
    if effects == [] then Loaded(start, 0)
    else
      var before := LoadLines(effects[..|effects| - 1], columns, start);
      if before.LoadFailed? then before
      else LoadLine(before.grid, columns, before.row, effects[|effects| - 1])
  }

  /** The load stops at the first failing line, with that line's error. */
  lemma {:induction false} LoadLinesFails(effects: seq<LineEffect>, columns: nat, start: seq<Cell>, k: nat)
    requires k < |effects|
    requires LoadLines(effects[..k], columns, start).Loaded?
    requires var before := LoadLines(effects[..k], columns, start);
             LoadLine(before.grid, columns, before.row, effects[k]).LoadFailed?
    ensures var before := LoadLines(effects[..k], columns, start);
            LoadLines(effects, columns, start) == LoadLine(before.grid, columns, before.row, effects[k])
    decreases |effects|
  {
    if |effects| > k + 1 {
      var prefix := effects[..|effects| - 1];
      assert prefix[..k] == effects[..k] && prefix[k] == effects[k];
      LoadLinesFails(prefix, columns, start, k);
    } else {
      assert effects[..|effects| - 1] == effects[..k];
    }
  }

  // ---------------------------------------------------------------- properties of loading

  /** A "..." line changes no cell outside the rows it fills. */
  lemma {:induction false} CloneRowsFrame(g: seq<Cell>, columns: nat, row: nat, count: nat)
    requires row >= 1
    ensures var h := CloneRows(g, columns, row, count);
            forall j :: 0 <= j < |g| && (j < RowStart(row, columns) || j >= RowStart(row + count, columns)) ==> h[j] == g[j]
  {
    if count > 0 {
      CloneRowsFrame(g, columns, row, count - 1);
      RowStartMonotone(row, row + count - 1, columns);
      RowStartMonotone(row + count - 1, row + count, columns);
    }
  }

  /** CloneRow keeps every cell before the row it fills. */
  lemma CloneRowKeeps(g: seq<Cell>, columns: nat, row: nat, j: nat)
    requires row >= 1 && j < RowStart(row, columns) && j < |g|
    ensures CloneRow(g, columns, row)[j] == g[j]
  {
  }

  /** CloneRow fills its row from the row above. */
  lemma CloneRowWrites(g: seq<Cell>, columns: nat, row: nat, c: nat)
    requires row >= 1 && c < columns && RowStart(row, columns) + c < |g|
    ensures RowStart(row - 1, columns) + c < |g|
    ensures At(CloneRow(g, columns, row), columns, row, c) == CloneCell(At(g, columns, row - 1, c), Up, 1)
  {
    assert RowStart(row, columns) == RowStart(row - 1, columns) + columns;
  }

  /** One cell of a "..." line's rows: row r is the row above the line, cloned r - row + 1
      steps. */
  lemma {:induction false} CloneRowsCell(g: seq<Cell>, columns: nat, row: nat, count: nat, r: nat, c: nat)
    requires row >= 1 && RowStart(row + count, columns) <= |g|
    requires row <= r < row + count && c < columns
    ensures RowStart(r, columns) + c < |g| && RowStart(row - 1, columns) + c < |g|
    ensures At(CloneRows(g, columns, row, count), columns, r, c) == CloneCell(At(g, columns, row - 1, c), Up, r - row + 1)
    decreases count, 1
  {
    if r < row + count - 1 {
      CloneRowsCellEarlier(g, columns, row, count, r, c);
    } else if count == 1 {
      CloneRowsCellFirst(g, columns, row, c);
    } else {
      CloneRowsCellLast(g, columns, row, count, c);
    }
  }

  /** A row before the last one is left as the shorter line filled it. */
  lemma {:induction false} CloneRowsCellEarlier(g: seq<Cell>, columns: nat, row: nat, count: nat, r: nat, c: nat)
    requires row >= 1 && RowStart(row + count, columns) <= |g|
    requires row <= r < row + count - 1 && c < columns
    ensures RowStart(r, columns) + c < |g| && RowStart(row - 1, columns) + c < |g|
    ensures At(CloneRows(g, columns, row, count), columns, r, c) == CloneCell(At(g, columns, row - 1, c), Up, r - row + 1)
    decreases count, 0
  {
    RowStartMonotone(row + count - 1, row + count, columns);
    RowStartMonotone(r, row + count - 1, columns);
    CloneRowsCell(g, columns, row, count - 1, r, c);
    CloneRowKeeps(CloneRows(g, columns, row, count - 1), columns, row + count - 1, RowStart(r, columns) + c);
  }

  /** The last row of a "..." line is the clone of the row the shorter line left above it. */
  lemma CloneRowsLastStep(g: seq<Cell>, columns: nat, row: nat, count: nat, c: nat)
    requires row >= 1 && count >= 1 && RowStart(row + count, columns) <= |g| && c < columns
    ensures RowStart(row + count - 1, columns) + c < |g| && RowStart(row + count - 2, columns) + c < |g|
    ensures At(CloneRows(g, columns, row, count), columns, row + count - 1, c)
            == CloneCell(At(CloneRows(g, columns, row, count - 1), columns, row + count - 2, c), Up, 1)
  {
    var last := row + count - 1;
    RowStartMonotone(last, row + count, columns);
    assert CloneRows(g, columns, row, count) == CloneRow(CloneRows(g, columns, row, count - 1), columns, last);
    CloneRowWrites(CloneRows(g, columns, row, count - 1), columns, last, c);
    assert last - 1 == row + count - 2;
  }

  /** The last row of a longer line is the clone of the row before it. */
  lemma {:induction false} CloneRowsCellLast(g: seq<Cell>, columns: nat, row: nat, count: nat, c: nat)
    requires row >= 1 && count > 1 && RowStart(row + count, columns) <= |g| && c < columns
    ensures RowStart(row + count - 1, columns) + c < |g| && RowStart(row - 1, columns) + c < |g|
    ensures At(CloneRows(g, columns, row, count), columns, row + count - 1, c)
            == CloneCell(At(g, columns, row - 1, c), Up, count)
    decreases count, 0
  {
    CloneRowsLastStep(g, columns, row, count, c);
    RowStartMonotone(row - 1, row + count - 1, columns);
    CloneRowsCell(g, columns, row, count - 1, row + count - 2, c);
    assert (row + count - 2) - row + 1 == count - 1;
    CloneCellOneMore(At(g, columns, row - 1, c), count);
  }

  /** A line that fills one row clones the row above it once. */
  lemma CloneRowsCellFirst(g: seq<Cell>, columns: nat, row: nat, c: nat)
    requires row >= 1 && RowStart(row + 1, columns) <= |g| && c < columns
    ensures RowStart(row, columns) + c < |g| && RowStart(row - 1, columns) + c < |g|
    ensures At(CloneRows(g, columns, row, 1), columns, row, c) == CloneCell(At(g, columns, row - 1, c), Up, 1)
  {
    CloneRowsLastStep(g, columns, row, 1, c);
    RowStartMonotone(row - 1, row, columns);
    assert CloneRows(g, columns, row, 0) == g;
  }

  /** Every cell of the grid can be started from. */
  predicate Fresh(g: seq<Cell>) {
    forall j :: 0 <= j < |g| ==> Startable(g[j])
  }

  lemma CloneRowFresh(g: seq<Cell>, columns: nat, row: nat)
    requires row >= 1 && Fresh(g)
    ensures Fresh(CloneRow(g, columns, row))
  {
    var h := CloneRow(g, columns, row);
    forall j | 0 <= j < |h|
      ensures Startable(h[j])
    {
      if RowStart(row, columns) <= j < RowStart(row, columns) + columns {
        assert h[j] == CloneCell(g[j - columns], Up, 1);
      }
    }
  }

  lemma {:induction false} CloneRowsFresh(g: seq<Cell>, columns: nat, row: nat, count: nat)
    requires row >= 1 && Fresh(g)
    ensures Fresh(CloneRows(g, columns, row, count))
  {
    if count > 0 {
      CloneRowsFresh(g, columns, row, count - 1);
      CloneRowFresh(CloneRows(g, columns, row, count - 1), columns, row + count - 1);
    }
  }

  /** Every data line holds only cells the evaluator can start from. */
  predicate StartableLines(effects: seq<LineEffect>) {
    forall k, i :: 0 <= k < |effects| && effects[k].Data? && 0 <= i < |effects[k].cells| ==> Startable(effects[k].cells[i])
  }

  lemma ParseLinesStartable(lines: seq<string>)
    ensures StartableLines(ParseLines(lines))
  {
    var effects := ParseLines(lines);
    forall k, i | 0 <= k < |effects| && effects[k].Data? && 0 <= i < |effects[k].cells|
      ensures Startable(effects[k].cells[i])
    {
      assert effects[k] == ParseLine(lines[k]);
    }
  }

  /** A successful load yields a grid the evaluator can start from. */
  lemma {:induction false} LoadLinesFresh(effects: seq<LineEffect>, columns: nat, start: seq<Cell>)
    requires Fresh(start) && StartableLines(effects)
    ensures LoadLines(effects, columns, start).Loaded? ==> Fresh(LoadLines(effects, columns, start).grid)
  {
    if effects != [] {
      var prefix := effects[..|effects| - 1];
      var e := effects[|effects| - 1];
      assert forall k :: 0 <= k < |prefix| ==> prefix[k] == effects[k];
      LoadLinesFresh(prefix, columns, start);
      var before := LoadLines(prefix, columns, start);
      if before.Loaded? {
        if e.Repeat? {
          if e.count.Converted? && before.row != 0 {
            CloneRowsFresh(before.grid, columns, before.row, e.count.value);
          }
        } else {
          var h := WriteCells(before.grid, columns, before.row, e.cells);
          forall j | 0 <= j < |h|
            ensures Startable(h[j])
          {
            if RowStart(before.row, columns) <= j < RowStart(before.row, columns) + |e.cells| {
              assert Startable(e.cells[j - RowStart(before.row, columns)]);
            }
          }
        }
      }
    }
  }

  /** Every line fits in `columns` columns. */
  predicate ColumnsFit(effects: seq<LineEffect>, columns: nat) {
    forall k :: 0 <= k < |effects| ==> EffectColumns(effects[k]) <= columns
  }

  /** Each line changes only the rows from its starting row up to the row it hands on. */
  lemma LoadLineFrame(g: seq<Cell>, columns: nat, row: nat, e: LineEffect)
    requires EffectColumns(e) <= columns
    ensures var r := LoadLine(g, columns, row, e);
            r.Loaded? ==> forall j :: 0 <= j < |g| && (j < RowStart(row, columns) || j >= RowStart(r.row, columns)) ==>
                            r.grid[j] == g[j]
  {
    var r := LoadLine(g, columns, row, e);
    if r.Loaded? {
      if e.Repeat? {
        CloneRowsFrame(g, columns, row, e.count.value);
      } else {
        RowStartMonotone(row, row + 1, columns);
      }
    }
  }

  /** The rows handed on grow along the lines, and a data line takes a row of its own. */
  lemma {:induction false} RowCountPrefix(effects: seq<LineEffect>, a: nat, b: nat)
    requires a <= b <= |effects|
    ensures RowCount(effects[..a]) <= RowCount(effects[..b])
    ensures a < b && effects[a].Data? ==> RowCount(effects[..a]) + 1 <= RowCount(effects[..b])
    decreases b
  {
    if a < b {
      RowCountPrefix(effects, a, b - 1);
      assert effects[..b][..b - 1] == effects[..b - 1];
      assert effects[..b][b - 1] == effects[b - 1];
    }
  }

  /** Before line k, every row at or after the next row is still Empty. */
  lemma {:induction false} LoadLinesUntouched(effects: seq<LineEffect>, columns: nat, n: nat, k: nat)
    requires k <= |effects| && ColumnsFit(effects, columns)
    ensures var r := LoadLines(effects[..k], columns, EmptyGrid(n));
            r.Loaded? ==> forall j :: RowStart(r.row, columns) <= j < n ==> r.grid[j] == NewCell(CellEmpty)
    decreases k
  {
    if k > 0 {
      LoadLinesUntouched(effects, columns, n, k - 1);
      assert effects[..k][..k - 1] == effects[..k - 1];
      assert effects[..k][k - 1] == effects[k - 1];
      var before := LoadLines(effects[..k - 1], columns, EmptyGrid(n));
      if before.Loaded? {
        assert forall j :: RowStart(before.row, columns) <= j < n ==> before.grid[j] == NewCell(CellEmpty);
        LoadLineFrame(before.grid, columns, before.row, effects[k - 1]);
        var r := LoadLine(before.grid, columns, before.row, effects[k - 1]);
        if r.Loaded? {
          RowStartMonotone(before.row, r.row, columns);
          forall j | RowStart(r.row, columns) <= j < n
            ensures r.grid[j] == NewCell(CellEmpty)
          {
            assert r.grid[j] == before.grid[j];
          }
        }
      }
    }
  }

  /** Right after its own line, a data line's row holds the line's cells, then Empty cells
      wherever the line has none. */
  lemma DataLineWritten(effects: seq<LineEffect>, columns: nat, n: nat, k: nat)
    requires k < |effects| && ColumnsFit(effects, columns) && effects[k].Data?
    requires LoadLines(effects[..k + 1], columns, EmptyGrid(n)).Loaded?
    requires RowStart(RowCount(effects[..k]) + 1, columns) <= n
    ensures var row := RowCount(effects[..k]);
            var cells := effects[k].cells;
            var g := LoadLines(effects[..k + 1], columns, EmptyGrid(n)).grid;
            forall c :: 0 <= c < columns ==>
              At(g, columns, row, c) == if c < |cells| then cells[c] else NewCell(CellEmpty)
  {
    assert effects[..k + 1][..k] == effects[..k];
    assert effects[..k + 1][k] == effects[k];
    LoadLinesUntouched(effects, columns, n, k);
    var before := LoadLines(effects[..k], columns, EmptyGrid(n));
    var row := before.row;
    var cells := effects[k].cells;
    var g := WriteCells(before.grid, columns, row, cells);
    assert EffectColumns(effects[k]) <= columns;
    forall c | 0 <= c < columns
      ensures At(g, columns, row, c) == if c < |cells| then cells[c] else NewCell(CellEmpty)
    {
      if c >= |cells| {
        assert g[RowStart(row, columns) + c] == before.grid[RowStart(row, columns) + c];
      }
    }
  }

  /** A data line's row, as the whole load leaves it: later lines never write that row again. */
  lemma {:induction false} DataLineRow(effects: seq<LineEffect>, columns: nat, n: nat, k: nat, count: nat)
    requires k < count <= |effects| && ColumnsFit(effects, columns) && effects[k].Data?
    requires LoadLines(effects[..count], columns, EmptyGrid(n)).Loaded?
    requires RowStart(RowCount(effects[..k]) + 1, columns) <= n
    ensures var row := RowCount(effects[..k]);
            var cells := effects[k].cells;
            var g := LoadLines(effects[..count], columns, EmptyGrid(n)).grid;
            forall c :: 0 <= c < columns ==>
              At(g, columns, row, c) == if c < |cells| then cells[c] else NewCell(CellEmpty)
    decreases count
  {
    if count == k + 1 {
      DataLineWritten(effects, columns, n, k);
    } else {
      DataLineKept(effects, columns, n, k, count);
    }
  }

  /** A line after a data line leaves the data line's row as it was. */
  lemma {:induction false} DataLineKept(effects: seq<LineEffect>, columns: nat, n: nat, k: nat, count: nat)
    requires k + 1 < count <= |effects| && ColumnsFit(effects, columns) && effects[k].Data?
    requires LoadLines(effects[..count], columns, EmptyGrid(n)).Loaded?
    requires RowStart(RowCount(effects[..k]) + 1, columns) <= n
    ensures var row := RowCount(effects[..k]);
            var cells := effects[k].cells;
            var g := LoadLines(effects[..count], columns, EmptyGrid(n)).grid;
            forall c :: 0 <= c < columns ==>
              At(g, columns, row, c) == if c < |cells| then cells[c] else NewCell(CellEmpty)
    decreases count, 0
  {
    assert effects[..count][..count - 1] == effects[..count - 1];
    assert effects[..count][count - 1] == effects[count - 1];
    var before := LoadLines(effects[..count - 1], columns, EmptyGrid(n));
    var g := LoadLines(effects[..count], columns, EmptyGrid(n)).grid;
    var row := RowCount(effects[..k]);
    DataLineRow(effects, columns, n, k, count - 1);
    LoadLineFrame(before.grid, columns, before.row, effects[count - 1]);
    RowCountPrefix(effects, k, count - 1);
    RowStartMonotone(row + 1, before.row, columns);
    forall c | 0 <= c < columns
      ensures At(g, columns, row, c) == At(before.grid, columns, row, c)
    {
      assert g[RowStart(row, columns) + c] == before.grid[RowStart(row, columns) + c];
    }
  }

  /** Every write of a line lands inside a grid of n cells, when the line starts at `row`: a
      data line writes its cells from the start of its row on, and a "..." line that goes ahead
      fills its rows. */
  predicate LineFits(e: LineEffect, row: nat, columns: nat, n: nat) {
    match e
    case Data(cells) => RowStart(row, columns) + |cells| <= n
    case Repeat(count) => count.Converted? && row > 0 ==> RowStart(row + count.value, columns) <= n
  }

  /** Every line the load reaches writes inside a grid of n cells: what readTableContent
      needs to stay inside its slice. */
  predicate Fits(effects: seq<LineEffect>, columns: nat, n: nat) {
    forall k :: 0 <= k < |effects| && LoadLines(effects[..k], columns, EmptyGrid(n)).Loaded? ==>
      LineFits(effects[k], RowCount(effects[..k]), columns, n)
  }

  /** In a grid sized by the line's own row and column counts, line k fits. */
  lemma LineFitsCounted(effects: seq<LineEffect>, columns: nat, k: nat)
    requires k < |effects| && ColumnsFit(effects, columns)
    ensures LineFits(effects[k], RowCount(effects[..k]), columns, RowStart(RowCount(effects), columns))
  {
    var row := RowCount(effects[..k]);
    RowCountPrefix(effects, k + 1, |effects|);
    assert effects[..k + 1][..k] == effects[..k];
    assert effects[..k + 1][k] == effects[k];
    assert effects[..|effects|] == effects;
    assert EffectColumns(effects[k]) <= columns;
    RowStartMonotone(row + EffectRows(effects[k]), RowCount(effects), columns);
  }

  /** The sizes countTableSize computes fit every line readTableContent writes. */
  lemma CountedSizeFits(lines: seq<string>)
    ensures Fits(ParseLines(lines), TableColumns(lines), RowStart(TableRows(lines), TableColumns(lines)))
  {
    var effects := ParseLines(lines);
    TableSizeMatchesLines(lines);
    forall k | 0 <= k < |effects|
      ensures LineFits(effects[k], RowCount(effects[..k]), TableColumns(lines), RowStart(RowCount(effects), TableColumns(lines)))
    {
      LineFitsCounted(effects, TableColumns(lines), k);
    }
  }
}
