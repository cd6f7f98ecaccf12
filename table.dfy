/**
 * The table itself (src/table.go, src/evaluate.go): the loading loops of readTableContent and
 * readCloneLine, which fill the content array in place, and the Table record whose evaluation
 * methods overwrite its cells as they go.  Every method is proved to compute exactly the
 * function of module Grids or module Evaluation that specifies it, so the properties proved
 * there hold of the code.
 */
module Tables {
  import opened Directions
  import opened Strings
  import opened Strconv
  import opened Expressions
  import opened Cells
  import opened Grids
  import opened Options
  import Evaluation

  /** countTableSize: the row count and the column count of the lines, in one pass. */
  method CountTableSize(lines: seq<string>) returns (rows: nat, columns: nat)
    ensures rows == TableRows(lines) && columns == TableColumns(lines)
  {
    rows, columns := 0, 0;
    for k := 0 to |lines|
      invariant rows == TableRows(lines[..k]) && columns == TableColumns(lines[..k])
    {
      assert lines[..k + 1][..k] == lines[..k];
      var line := TrimSpace(lines[k]);
      if IsCloneLine(line) {
        var count := ParseUint32(TrimSpace(line[3..]));
        rows := rows + count.value;
        continue;
      }
      var columnCount := Count(line, '|') + 1;
      rows := rows + 1;
      if columnCount > columns {
        columns := columnCount;
      }
    }
    assert lines[..|lines|] == lines;
  }

  /** One pass of readCloneLine's outer loop: row `row` becomes cloneCell of the row above it,
      moved Up one step, column by column. */
  method CloneRowInPlace(content: array<Cell>, columns: nat, row: nat)
    requires row >= 1 && RowStart(row + 1, columns) <= content.Length
    modifies content
    ensures content[..] == CloneRow(old(content[..]), columns, row)
  {
    ghost var base := content[..];
    RowStartIsProduct(row, columns);
    RowStartIsProduct(row - 1, columns);
    for column := 0 to columns
      invariant content[..] == CloneRowPart(base, columns, row, column)
    {
      var aboveIndex := (row - 1) * columns + column;
      var index := row * columns + column;
      CloneRowStep(base, columns, row, column);
      content[index] := Grids.CloneCell(content[aboveIndex], Up, 1);
    }
    CloneRowWhole(base, columns, row);
  }

  /** The inner loop of readTableContent for a data line: each piece, trimmed and parsed, goes
      to the next column of row `row`. */
  method WriteDataLine(content: array<Cell>, columns: nat, row: nat, cells: seq<string>)
    requires RowStart(row, columns) + |cells| <= content.Length
    modifies content
    ensures content[..] == WriteCells(old(content[..]), columns, row, ParseCells(cells))
  {
    ghost var parsed := ParseCells(cells);
    ghost var base := content[..];
    RowStartIsProduct(row, columns);
    for column := 0 to |cells|
      invariant content[..] == WriteCells(base, columns, row, parsed[..column])
    {
      var text := TrimSpace(cells[column]);
      var cell := ParseCell(text);
      var index := row * columns + column;
      WriteCellsStep(base, columns, row, parsed, column);
      content[index] := cell;
    }
    assert parsed[..|cells|] == parsed;
  }

  /** readCloneLine: a bad count, then row 0, are errors that write nothing; otherwise each of
      the `count` rows from `row` on becomes cloneCell of the row above it, moved Up one step,
      column by column, and the next row is returned. */
  method ReadCloneLine(content: array<Cell>, columns: nat, line: string, row: nat) returns (newRow: nat, err: Option<string>)
    requires |line| >= 3
    requires LineFits(Repeat(CloneCount(line)), row, columns, content.Length)
    modifies content
    ensures LoadLine(old(content[..]), columns, row, Repeat(CloneCount(line)))
            == if err.Some? then LoadFailed(err.value) else Loaded(content[..], newRow)
    ensures err.Some? ==> newRow == row && content[..] == old(content[..])
  {
    var count := ParseUint32(TrimSpace(line[3..]));
    if count.Failed? {
      return row, Some(count.err);
    }
    if row == 0 {
      return row, Some(AboveMessage);
    }
    newRow := CloneRowsInPlace(content, columns, row, count.value);
    err := None;
  }

  /** The outer loop of readCloneLine: `count` rows from `row` on, each cloned from the row
      above it, and the row after them. */
  method CloneRowsInPlace(content: array<Cell>, columns: nat, row: nat, count: nat) returns (newRow: nat)
    requires row >= 1 && RowStart(row + count, columns) <= content.Length
    modifies content
    ensures newRow == row + count
    ensures content[..] == CloneRows(old(content[..]), columns, row, count)
  {
    ghost var g := content[..];
    newRow := row;
    for i := 0 to count
      invariant newRow == row + i
      invariant content[..] == CloneRows(g, columns, row, i)
    {
      RowStartMonotone(newRow + 1, row + count, columns);
      CloneRowInPlace(content, columns, newRow);
      newRow := newRow + 1;
    }
  }

  /** The first `width` cells of row `row` cloned from the row above, as the inner loop of
      readCloneLine leaves them. */
  ghost function CloneRowPart(g: seq<Cell>, columns: nat, row: nat, width: nat): (h: seq<Cell>)
    requires row >= 1
    ensures |h| == |g|
  {
    seq(|g|, j requires 0 <= j < |g| =>
      if RowStart(row, columns) <= j < RowStart(row, columns) + width then Grids.CloneCell(g[j - columns], Up, 1)
      else g[j])
  }

  lemma CloneRowStep(g: seq<Cell>, columns: nat, row: nat, column: nat)
    requires row >= 1 && column < columns && RowStart(row + 1, columns) <= |g|
    ensures var i := RowStart(row, columns) + column;
            && i - columns == RowStart(row - 1, columns) + column
            && CloneRowPart(g, columns, row, column)[i - columns] == g[i - columns]
            && CloneRowPart(g, columns, row, column)[i := Grids.CloneCell(g[i - columns], Up, 1)]
               == CloneRowPart(g, columns, row, column + 1)
  {
  }

  lemma CloneRowWhole(g: seq<Cell>, columns: nat, row: nat)
    requires row >= 1
    ensures CloneRowPart(g, columns, row, columns) == CloneRow(g, columns, row)
  {
  }

  lemma WriteCellsStep(g: seq<Cell>, columns: nat, row: nat, cells: seq<Cell>, column: nat)
    requires column < |cells| && RowStart(row, columns) + |cells| <= |g|
    ensures WriteCells(g, columns, row, cells[..column])[RowStart(row, columns) + column := cells[column]]
            == WriteCells(g, columns, row, cells[..column + 1])
  {
  }

  /** A line the load reaches fits. */
  lemma FitsAt(effects: seq<LineEffect>, columns: nat, n: nat, k: nat)
    requires Fits(effects, columns, n) && k < |effects| && LoadLines(effects[..k], columns, EmptyGrid(n)).Loaded?
    ensures LineFits(effects[k], LoadLines(effects[..k], columns, EmptyGrid(n)).row, columns, n)
  {
  }

  /** The body of readTableContent's loop: a trimmed "..." line goes to readCloneLine, any
      other line is split at '|' and written from column 0 of row `row`. */
  method ReadLine(content: array<Cell>, columns: nat, line: string, row: nat) returns (newRow: nat, err: Option<string>)
    requires LineFits(ParseLine(line), row, columns, content.Length)
    modifies content
    ensures LoadLine(old(content[..]), columns, row, ParseLine(line))
            == if err.Some? then LoadFailed(err.value) else Loaded(content[..], newRow)
  {
    var text := TrimSpace(line);
    if |text| >= 3 && text[..3] == "..." {
      assert ParseLine(line) == Repeat(CloneCount(text));
      newRow, err := ReadCloneLine(content, columns, text, row);
      return;
    }
    var cells := Split(text, '|');
    WriteDataLine(content, columns, row, cells);
    return row + 1, None;
  }

  /** readTableContent: a grid of rows * columns Empty cells, then every line in order, a
      "..." line through readCloneLine and any other line as its '|'-separated cells written
      from column 0 of the next row.  The first failing line ends the load with its error, and
      the Go code returns no content then. */
  method ReadTableContent(lines: seq<string>, rows: nat, columns: nat) returns (content: array<Cell>, err: Option<string>)
    requires Fits(ParseLines(lines), columns, RowStart(rows, columns))
    ensures fresh(content)
    ensures var r := LoadLines(ParseLines(lines), columns, EmptyGrid(RowStart(rows, columns)));
            && (err.None? <==> r.Loaded?)
            && (r.Loaded? ==> content[..] == r.grid)
            && (r.LoadFailed? ==> err == Some(r.err) && content.Length == 0)
  {
    RowStartIsProduct(rows, columns);
    content := new Cell[rows * columns](_ => NewCell(CellEmpty));
    ghost var effects := ParseLines(lines);
    ghost var start := content[..];
    assert start == EmptyGrid(RowStart(rows, columns));
    var row: nat := 0;
    for k := 0 to |lines|
      invariant LoadLines(effects[..k], columns, start) == Loaded(content[..], row)
    {
      assert effects[..k + 1][..k] == effects[..k];
      assert effects[k] == ParseLine(lines[k]);
      FitsAt(effects, columns, RowStart(rows, columns), k);
      ghost var before := content[..];
      var newRow, lineErr := ReadLine(content, columns, lines[k], row);
      if lineErr.Some? {
        assert LoadLine(before, columns, row, effects[k]) == LoadFailed(lineErr.value);
        LoadLinesFails(effects, columns, start, k);
        assert LoadLines(effects, columns, start) == LoadFailed(lineErr.value);
        content := new Cell[0];
        return content, lineErr;
      }
      assert LoadLines(effects[..k + 1], columns, start) == LoadLine(before, columns, row, effects[k]);
      row := newRow;
    }
    assert effects[..|lines|] == effects;
    err := None;
  }

  /** readTable on the lines of the file: size the table with countTableSize, then load it.
      A loaded table is valid and ready for Evaluate: every cell is Pending. */
  method ReadTable(lines: seq<string>) returns (table: Table?, err: Option<string>)
    ensures var r := LoadLines(ParseLines(lines), TableColumns(lines),
                               EmptyGrid(RowStart(TableRows(lines), TableColumns(lines))));
            && (err.None? <==> r.Loaded?)
            && (r.LoadFailed? ==> table == null && err == Some(r.err))
            && (r.Loaded? ==> && table != null && fresh(table) && fresh(table.content) && table.Valid()
                              && table.rows == TableRows(lines) && table.columns == TableColumns(lines)
                              && table.content[..] == r.grid
                              && Evaluation.NoneInProgress(table.content[..]))
  {
    var rows, columns := CountTableSize(lines);
    CountedSizeFits(lines);
    var content, loadErr := ReadTableContent(lines, rows, columns);
    if loadErr.Some? {
      return null, loadErr;
    }
    ParseLinesStartable(lines);
    LoadLinesFresh(ParseLines(lines), columns, EmptyGrid(RowStart(rows, columns)));
    Evaluation.FreshIsValid(content[..]);
    table := new Table(content, rows, columns);
    err := None;
  }

  /** Table: the cells, row by row, and the size. */
  class Table {
    var content: array<Cell>
    var rows: nat
    var columns: nat

    /** The content holds rows * columns cells, each with a direction, and no clone cell is
        Done. */
    ghost predicate Valid()
      reads this, content
    {
      Shaped(content[..], rows, columns) && Evaluation.Valid(content[..])
    }

    constructor (content: array<Cell>, rows: nat, columns: nat)
      requires Shaped(content[..], rows, columns) && Evaluation.Valid(content[..])
      ensures this.content == content && this.rows == rows && this.columns == columns
      ensures Valid()
    {
      this.content := content;
      this.rows := rows;
      this.columns := columns;
    }

    /** Table.EnsureEvaluated, writing into the slot as the Go code writes through its pointer.
        A panic ends the program: the method then returns at once. */
    method EnsureEvaluated(row: int, column: int) returns (panicked: bool)
      requires Valid()
      modifies content
      ensures !panicked ==> Valid()
      ensures var h := Evaluation.EnsureEvaluated(old(content[..]), rows, columns, row, column);
              (panicked <==> h.Panicked?) && (!panicked ==> content[..] == h.grid)
      decreases Evaluation.Measure(content[..]), 2
    {
      ghost var g := content[..];
      panicked := false;
      if !InBounds(rows, columns, row, column) {
        return;
      }
      RowStartIsProduct(row, columns);
      var index := row * columns + column;
      assert index == Index(rows, columns, row, column);
      var cell := content[index];
      if cell.evaluationState == Done {
        return;
      }
      if cell.evaluationState == InProgress {
        Evaluation.MeasureUpdate(g, index, ErrorCell(Evaluation.LoopMessage));
        content[index] := ErrorCell(Evaluation.LoopMessage);
        return;
      }
      if cell.kind == CellExpression {
        panicked := EvaluateFormulaCell(row, column, index);
      } else if cell.kind == CellClone {
        panicked := EvaluateCloneCell(row, column, index);
      } else {
        content[index] := cell.(evaluationState := InProgress);
        ghost var started := content[..];
        Evaluation.Start(g, index);
        content[index] := content[index].(evaluationState := Done);
        assert content[..] == started[index := cell.(evaluationState := Done)];
      }
    }

    /** The formula branch of Table.EnsureEvaluated: mark the slot InProgress, evaluate the
        formula through the slot, store the number or replace the cell by the error, and mark
        the slot Done. */
    method EvaluateFormulaCell(row: int, column: int, index: nat) returns (panicked: bool)
      requires Valid() && InBounds(rows, columns, row, column) && index == Index(rows, columns, row, column)
      requires content[index].evaluationState == Pending && content[index].kind == CellExpression
      modifies content
      ensures !panicked ==> Valid()
      ensures var h := Evaluation.EvaluateFormulaCell(old(content[..]), rows, columns, row, column);
              (panicked <==> h.Panicked?) && (!panicked ==> content[..] == h.grid)
      decreases Evaluation.Measure(content[..]), 1
    {
      ghost var g := content[..];
      ghost var result := Evaluation.EvaluateFormulaCell(g, rows, columns, row, column);
      var cell := content[index];
      content[index] := cell.(evaluationState := InProgress);
      ghost var started := content[..];
      assert started == g[index := cell.(evaluationState := InProgress)];
      Evaluation.Start(g, index);
      var value, err;
      value, err, panicked := EvaluateExpression(Evaluation.Root(index));
      if panicked {
        assert result == Evaluation.Panicked;
        return;
      }
      ghost var r := content[..];
      content[index] := content[index].(number := value);
      if err.Some? {
        content[index] := ErrorCell(err.value);
      }
      ghost var slot := content[index];
      Evaluation.ValidUpdate(r, index, slot.(evaluationState := Done));
      content[index] := content[index].(evaluationState := Done);
      assert content[..] == r[index := slot.(evaluationState := Done)];
      assert result == Evaluation.Ran(r[index := slot.(evaluationState := Done)]);
    }

    /** The clone branch of Table.EnsureEvaluated: mark the slot InProgress, overwrite it with
        the copy CloneCell makes, evaluate the slot again, and mark it Done. */
    method EvaluateCloneCell(row: int, column: int, index: nat) returns (panicked: bool)
      requires Valid() && InBounds(rows, columns, row, column) && index == Index(rows, columns, row, column)
      requires content[index].evaluationState == Pending && content[index].kind == CellClone
      modifies content
      ensures !panicked ==> Valid()
      ensures var h := Evaluation.EvaluateCloneCell(old(content[..]), rows, columns, row, column);
              (panicked <==> h.Panicked?) && (!panicked ==> content[..] == h.grid)
      decreases Evaluation.Measure(content[..]), 1
    {
      ghost var g := content[..];
      var cell := content[index];
      content[index] := cell.(evaluationState := InProgress);
      assert content[..] == g[index := cell.(evaluationState := InProgress)];
      Evaluation.Start(g, index);
      var copy;
      copy, panicked := CloneCell(row, column, cell.direction);
      if panicked {
        return;
      }
      ghost var c := content[..];
      Evaluation.MeasureUpdate(c, index, copy);
      Evaluation.ValidUpdate(c, index, copy);
      content[index] := copy;
      assert content[..] == c[index := copy];
      panicked := EnsureEvaluated(row, column);
      if panicked {
        return;
      }
      ghost var k := content[..];
      Evaluation.ValidUpdate(k, index, k[index].(evaluationState := Done));
      content[index] := content[index].(evaluationState := Done);
      assert content[..] == k[index := k[index].(evaluationState := Done)];
    }

    /** Table.CloneCell: evaluate the cell the clone points at, then copy it, shifting a formula
        back against the clone's direction. */
    method CloneCell(row: int, column: int, direction: Direction) returns (copy: Cell, panicked: bool)
      requires Valid() && direction != NoDirection
      modifies content
      ensures !panicked ==> Valid()
      ensures var c := Evaluation.CloneCell(old(content[..]), rows, columns, row, column, direction);
              (panicked <==> c.ClonePanicked?) && (!panicked ==> content[..] == c.grid && copy == c.cell)
      decreases Evaluation.Measure(content[..]), 3
    {
      var (cloneRow, cloneColumn) := Offset(direction, row, column);
      panicked := EnsureEvaluated(cloneRow, cloneColumn);
      if panicked {
        return NewCell(CellEmpty), true;
      }
      copy := Grids.CellAt(content[..], rows, columns, cloneRow, cloneColumn);
      if copy.kind == CellExpression {
        copy := copy.(expression := Shift(copy.expression, Reverse(direction)),
                      evaluationState := Pending,
                      number := 0.0);
      }
    }

    /** The expression a pointer reaches now: a formula node, or the root of a slot's formula,
        read from the slot. */
    function Deref(p: Evaluation.Pointer): (e: Expr)
      reads this, content
      requires p.Root? ==> p.index < content.Length
      ensures e == Evaluation.Deref(content[..], p)
    {
      if p.Node? then p.e else content[p.index].expression
    }

    /** Table.EvaluateCellReferance: evaluate the referenced cell, then read, through the
        pointer once more, the cell to take the value of. */
    method EvaluateCellReference(p: Evaluation.Pointer) returns (value: real, err: Option<string>, panicked: bool)
      requires Valid() && Evaluation.Points(content[..], p)
      modifies content
      ensures !panicked ==> Valid()
      ensures var r := Evaluation.EvaluateCellReference(old(content[..]), rows, columns, p);
              && (panicked <==> r.EvaluationPanicked?)
              && (!panicked ==> content[..] == r.grid && value == r.value && err == r.err)
      decreases Evaluation.Measure(content[..]), 3
    {
      ghost var g := content[..];
      var (row, column) := Evaluation.Position(Deref(p));
      panicked := EnsureEvaluated(row, column);
      if panicked {
        return -1.0, None, true;
      }
      Evaluation.Reread(g, content[..], p);
      var (row', column') := Evaluation.Position(Deref(p));
      var cell := Grids.CellAt(content[..], rows, columns, row', column');
      match cell.kind
      case CellText => value, err := -1.0, Some(Evaluation.TextMessage);
      case CellNumber => value, err := cell.number, None;
      case CellExpression => value, err := cell.number, None;
      case CellError => value, err := -1.0, Some(cell.err);
      case CellEmpty => value, err := 0.0, None;
      case CellClone => value, err, panicked := -1.0, None, true;
    }

    /** Table.EvaluateExpression, on the kind the pointer reaches on entry. */
    method EvaluateExpression(p: Evaluation.Pointer) returns (value: real, err: Option<string>, panicked: bool)
      requires Valid() && Evaluation.Points(content[..], p)
      modifies content
      ensures !panicked ==> Valid()
      ensures var r := Evaluation.EvaluateExpression(old(content[..]), rows, columns, p);
              && (panicked <==> r.EvaluationPanicked?)
              && (!panicked ==> content[..] == r.grid && value == r.value && err == r.err)
      decreases Evaluation.Measure(content[..]), Size(Evaluation.Deref(content[..], p)) + 3
    {
      match Deref(p)
      case Add(_, _) => value, err, panicked := EvaluateOperation(p);
      case Num(n) => value, err, panicked := n, None, false;
      case Ref(_, _) => value, err, panicked := EvaluateCellReference(p);
    }

    /** Table.EvaluateOperation with add_operation: the left operand, then the right operand,
        read through the pointer only now. */
    method EvaluateOperation(p: Evaluation.Pointer) returns (value: real, err: Option<string>, panicked: bool)
      requires Valid() && Evaluation.Points(content[..], p) && Evaluation.Deref(content[..], p).Add?
      modifies content
      ensures !panicked ==> Valid()
      ensures var r := Evaluation.EvaluateOperation(old(content[..]), rows, columns, p);
              && (panicked <==> r.EvaluationPanicked?)
              && (!panicked ==> content[..] == r.grid && value == r.value && err == r.err)
      decreases Evaluation.Measure(content[..]), Size(Evaluation.Deref(content[..], p)) + 2
    {
      ghost var g := content[..];
      ghost var r := Evaluation.EvaluateOperation(g, rows, columns, p);
      var e := Deref(p);
      var lhs, lhsErr;
      lhs, lhsErr, panicked := EvaluateExpression(Evaluation.Node(e.lhs));
      if panicked {
        assert r == Evaluation.EvaluationPanicked;
        return -1.0, None, true;
      }
      ghost var afterLhs := content[..];
      if lhsErr.Some? {
        assert r == Evaluation.Evaluated(afterLhs, -1.0, lhsErr);
        return -1.0, lhsErr, false;
      }
      Evaluation.Reread(g, afterLhs, p);
      var node := Deref(p);
      if !node.Add? {
        assert r == Evaluation.EvaluationPanicked;
        return -1.0, None, true;
      }
      assert node == e;
      var rhs, rhsErr;
      rhs, rhsErr, panicked := EvaluateExpression(Evaluation.Node(node.rhs));
      if panicked {
        assert r == Evaluation.EvaluationPanicked;
        return -1.0, None, true;
      }
      if rhsErr.Some? {
        assert r == Evaluation.Evaluated(content[..], -1.0, rhsErr);
        return -1.0, rhsErr, false;
      }
      assert r == Evaluation.Evaluated(content[..], lhs + rhs, None);
      return lhs + rhs, None, false;
    }

    /** Table.Evaluate: every cell, row by row, until a cell panics.  From a table with no
        InProgress cell, as loading leaves it, every cell ends Done unless the program panics. */
    method Evaluate() returns (panicked: bool)
      requires Valid()
      modifies content
      ensures !panicked ==> Valid()
      ensures var h := Evaluation.EvaluateRows(old(content[..]), rows, columns, 0);
              (panicked <==> h.Panicked?) && (!panicked ==> content[..] == h.grid)
      ensures !panicked && Evaluation.NoneInProgress(old(content[..])) ==>
                forall j :: 0 <= j < content.Length ==> content[j].evaluationState == Done
    {
      ghost var g := content[..];
      panicked := false;
      for row := 0 to rows
        invariant Valid()
        invariant Evaluation.EvaluateRows(content[..], rows, columns, row) == Evaluation.EvaluateRows(g, rows, columns, 0)
      {
        Evaluation.EvaluateRowsFirst(content[..], rows, columns, row);
        panicked := EvaluateRow(row);
        if panicked {
          return;
        }
      }
      if Evaluation.NoneInProgress(g) {
        Evaluation.EvaluateAllDone(g, rows, columns);
      }
    }

    /** The inner loop of Table.Evaluate: the cells of row `row`, column by column, until a
        cell panics. */
    method EvaluateRow(row: nat) returns (panicked: bool)
      requires Valid()
      modifies content
      ensures !panicked ==> Valid()
      ensures var h := Evaluation.EvaluateRow(old(content[..]), rows, columns, row, 0);
              (panicked <==> h.Panicked?) && (!panicked ==> content[..] == h.grid)
    {
      ghost var before := content[..];
      panicked := false;
      for column := 0 to columns
        invariant Valid()
        invariant Evaluation.EvaluateRow(content[..], rows, columns, row, column)
                  == Evaluation.EvaluateRow(before, rows, columns, row, 0)
      {
        Evaluation.EvaluateRowFirst(content[..], rows, columns, row, column);
        panicked := EnsureEvaluated(row, column);
        if panicked {
          return;
        }
      }
    }
  }
}
