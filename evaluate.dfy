/**
 * The evaluation of a table (src/evaluate.go) as functions on the table's cells.  Each function
 * takes the grid as it is when the Go method is entered and returns the grid as the method leaves
 * it, together with the method's results; every write of the Go code lands in the slot it
 * addresses at the moment it runs.  The methods of Tables.Table are proved to compute exactly
 * these functions.
 *
 * Termination rests on a measure of the grid: 2 for every Pending clone cell and 1 for every
 * Pending formula cell.  Entering a cell takes its weight away, every call leaves the measure no
 * larger (Evolves), and within one measure the calls descend by the size of the formula.
 */
module Evaluation {
  import opened Directions
  import opened Expressions
  import opened Cells
  import opened Grids
  import opened Options

  const LoopMessage := "Loop!"
  const TextMessage := "Cannot operate on text"

  /** What evaluating (part of) a formula leaves: the grid and Go's (value, error) pair, or a
      panic, which ends the program and leaves nothing to read. */
  datatype Evaluated = Evaluated(grid: seq<Cell>, value: real, err: Option<string>) | EvaluationPanicked

  /** What Table.CloneCell leaves: the grid and the copy it returns, or a panic. */
  datatype Cloned = Cloned(grid: seq<Cell>, cell: Cell) | ClonePanicked

  /** What Table.EnsureEvaluated and the loops of Table.Evaluate leave: the grid, or a panic. */
  datatype Run = Ran(grid: seq<Cell>) | Panicked

  /** A Go *Expression as the evaluation holds it: a node of a parsed formula, which no write of
      the evaluation reaches, or the root of the formula stored in slot `index`, which every
      access reads afresh from the slot. */
  datatype Pointer = Node(e: Expr) | Root(index: nat)

  /** The expression a pointer reaches in the grid as it is now. */
  function Deref(g: seq<Cell>, p: Pointer): Expr
    requires p.Root? ==> p.index < |g|
  {
    if p.Node? then p.e else g[p.index].expression
  }

  /** The row and column fields of an expression node; only a reference sets them, every other
      node holds 0 in both. */
  function Position(e: Expr): (int, int) {
    if e.Ref? then (e.row, e.column) else (0, 0)
  }

  /** The evaluation holds a root pointer only while its slot is InProgress. */
  predicate Points(g: seq<Cell>, p: Pointer) {
    p.Root? ==> p.index < |g| && g[p.index].evaluationState == InProgress
  }

  /** The "Loop!" error that replaces a re-entered cell, before or after it is evaluated. */
  predicate IsLoopError(c: Cell) {
    c == ErrorCell(LoopMessage) || c == ErrorCell(LoopMessage).(evaluationState := Done)
  }

  // ---------------------------------------------------------------- the measure

  /** The work a cell may still start. */
  function Weight(c: Cell): nat {
    if c.evaluationState != Pending then 0
    else if c.kind == CellClone then 2
    else if c.kind == CellExpression then 1
    else 0
  }

  function Measure(g: seq<Cell>): nat {
    if g == [] then 0 else Measure(g[..|g| - 1]) + Weight(g[|g| - 1])
  }

  /** A write to one slot changes the measure by the difference of the two weights. */
  lemma {:induction false} MeasureUpdate(g: seq<Cell>, i: nat, c: Cell)
    requires i < |g|
    ensures Measure(g[i := c]) + Weight(g[i]) == Measure(g) + Weight(c)
    decreases |g|
  {
    var n := |g| - 1;
    if i < n {
      MeasureUpdate(g[..n], i, c);
      assert g[i := c][..n] == g[..n][i := c];
    } else {
      assert g[i := c][..n] == g[..n];
    }
  }

  // ---------------------------------------------------------------- how the grid may change

  /** How a slot's kind may change: a formula may become an error, a clone may become what it
      copies, and no clone is ever created. */
  predicate KindStep(a: Cell, b: Cell) {
    b.kind == a.kind || (b.kind != CellClone && (b.kind == CellError || a.kind == CellClone))
  }

  /** How one slot may change across a call: a Done cell is kept as it is; an InProgress cell is
      kept or becomes the "Loop!" error; a Pending cell that is no formula and no clone is kept
      or only marked Done; no cell becomes InProgress that was not; and kinds change only as
      KindStep allows. */
  predicate CellEvolves(a: Cell, b: Cell) {
    && (a.evaluationState == Done ==> b == a)
    && (a.evaluationState == InProgress ==> b == a || IsLoopError(b))
    && (a.evaluationState == Pending && a.kind != CellExpression && a.kind != CellClone ==>
          b == a || b == a.(evaluationState := Done))
    && (b.evaluationState == InProgress ==> a.evaluationState == InProgress)
    && KindStep(a, b)
  }

  lemma CellEvolvesTransitive(a: Cell, b: Cell, c: Cell)
    requires CellEvolves(a, b) && CellEvolves(b, c)
    ensures CellEvolves(a, c)
  {
  }

  /** How the grid may change across a call. */
  predicate Evolves(g: seq<Cell>, h: seq<Cell>) {
    |h| == |g| && Measure(h) <= Measure(g) && forall i :: 0 <= i < |g| ==> CellEvolves(g[i], h[i])
  }

  /** Every cell has a direction, and no clone cell is Done. */
  predicate Valid(g: seq<Cell>) {
    forall i :: 0 <= i < |g| ==> g[i].direction != NoDirection && !(g[i].kind == CellClone && g[i].evaluationState == Done)
  }

  /** Writing a cell with a direction that is not a Done clone keeps a grid valid. */
  lemma ValidUpdate(g: seq<Cell>, i: nat, x: Cell)
    requires Valid(g) && i < |g| && x.direction != NoDirection && !(x.kind == CellClone && x.evaluationState == Done)
    ensures Valid(g[i := x])
  {
  }

  lemma EvolvesTransitive(a: seq<Cell>, b: seq<Cell>, c: seq<Cell>)
    requires Evolves(a, b) && Evolves(b, c)
    ensures Evolves(a, c)
  {
    forall i | 0 <= i < |a|
      ensures CellEvolves(a[i], c[i])
    {
      CellEvolvesTransitive(a[i], b[i], c[i]);
    }
  }

  /** Entering a Pending slot takes its weight out of the measure. */
  lemma Start(g: seq<Cell>, i: nat)
    requires i < |g| && g[i].evaluationState == Pending && Valid(g)
    ensures var started := g[i := g[i].(evaluationState := InProgress)];
            Measure(started) + Weight(g[i]) == Measure(g) && Valid(started)
  {
    MeasureUpdate(g, i, g[i].(evaluationState := InProgress));
  }

  /** The last write of EnsureEvaluated, which marks the slot Done, completes an evolution. */
  lemma Finish(g: seq<Cell>, k: seq<Cell>, i: nat, x: Cell)
    requires i < |g| == |k| && g[i].evaluationState == Pending
    requires forall j :: 0 <= j < |g| && j != i ==> CellEvolves(g[j], k[j])
    requires Measure(k) <= Measure(g) && Valid(k)
    requires x.evaluationState == Done && KindStep(g[i], x) && x.kind != CellClone && x.direction != NoDirection
    requires g[i].kind != CellExpression && g[i].kind != CellClone ==> x == g[i].(evaluationState := Done)
    ensures Evolves(g, k[i := x]) && Valid(k[i := x])
  {
    MeasureUpdate(k, i, x);
  }

  // ---------------------------------------------------------------- evaluate.go

  /** Table.EnsureEvaluated: a Done cell is kept (the result is memoized), re-entering a cell
      that is InProgress replaces it with the "Loop!" error, and a Pending cell is evaluated
      and left Done.  A position outside the table leaves the grid as it is. */
  function EnsureEvaluated(g: seq<Cell>, rows: nat, columns: nat, row: int, column: int): (h: Run)
    requires Shaped(g, rows, columns) && Valid(g)
    ensures h.Ran? ==> |h.grid| == |g| && Valid(h.grid) && Evolves(g, h.grid)
    ensures h.Ran? && InBounds(rows, columns, row, column) ==>
              var cell := h.grid[Index(rows, columns, row, column)];
              cell.kind != CellClone && cell.evaluationState != InProgress
    decreases Measure(g), 2
  {
    if !InBounds(rows, columns, row, column) then Ran(g)
    else
      var i := Index(rows, columns, row, column);
      var cell := g[i];
      if cell.evaluationState == Done then Ran(g)
      else if cell.evaluationState == InProgress then
        MeasureUpdate(g, i, ErrorCell(LoopMessage));
        Ran(g[i := ErrorCell(LoopMessage)])
      else if cell.kind == CellExpression then EvaluateFormulaCell(g, rows, columns, row, column)
      else if cell.kind == CellClone then EvaluateCloneCell(g, rows, columns, row, column)
      else
        var started := g[i := cell.(evaluationState := InProgress)];
        Start(g, i);
        Finish(g, started, i, cell.(evaluationState := Done));
        Ran(started[i := cell.(evaluationState := Done)])
  }

  /** The result of EnsureEvaluated on a slot it enters: unless the program panics, the slot
      ends Done and is no clone. */
  predicate Entered(g: seq<Cell>, h: Run, i: nat)
    requires i < |g|
  {
    h.Ran? ==> |h.grid| == |g| && Valid(h.grid) && Evolves(g, h.grid) && h.grid[i].kind != CellClone
               && h.grid[i].evaluationState == Done
  }

  /** EnsureEvaluated on a Pending formula: mark it InProgress, evaluate the formula through the
      slot's own root, store the number in the slot, replace the cell by the error if there is
      one, and mark the slot Done. */
  function EvaluateFormulaCell(g: seq<Cell>, rows: nat, columns: nat, row: int, column: int): (h: Run)
    requires Shaped(g, rows, columns) && Valid(g) && InBounds(rows, columns, row, column)
    requires var cell := g[Index(rows, columns, row, column)];
             cell.evaluationState == Pending && cell.kind == CellExpression
    ensures Entered(g, h, Index(rows, columns, row, column))
    decreases Measure(g), 1
  {
    var i := Index(rows, columns, row, column);
    var cell := g[i];
    var started := g[i := cell.(evaluationState := InProgress)];
    Start(g, i);
    var r := EvaluateExpression(started, rows, columns, Root(i));
    if r.EvaluationPanicked? then Panicked
    else
      var slot := r.grid[i].(number := r.value);
      var slot := if r.err.Some? then ErrorCell(r.err.value) else slot;
      Finish(g, r.grid, i, slot.(evaluationState := Done));
      Ran(r.grid[i := slot.(evaluationState := Done)])
  }

  /** EnsureEvaluated on a Pending clone: mark it InProgress, overwrite it with what CloneCell
      copies, evaluate that, and mark the slot Done. */
  function EvaluateCloneCell(g: seq<Cell>, rows: nat, columns: nat, row: int, column: int): (h: Run)
    requires Shaped(g, rows, columns) && Valid(g) && InBounds(rows, columns, row, column)
    requires var cell := g[Index(rows, columns, row, column)];
             cell.evaluationState == Pending && cell.kind == CellClone
    ensures Entered(g, h, Index(rows, columns, row, column))
    decreases Measure(g), 1
  {
    var i := Index(rows, columns, row, column);
    var cell := g[i];
    var started := g[i := cell.(evaluationState := InProgress)];
    Start(g, i);
    var c := CloneCell(started, rows, columns, row, column, cell.direction);
    if c.ClonePanicked? then Panicked
    else
      var copied := c.grid[i := c.cell];
      MeasureUpdate(c.grid, i, c.cell);
      var k := EnsureEvaluated(copied, rows, columns, row, column);
      if k.Panicked? then Panicked
      else
        forall j | 0 <= j < |g| && j != i
          ensures CellEvolves(g[j], k.grid[j])
        {
          CellEvolvesTransitive(g[j], c.grid[j], k.grid[j]);
        }
        Finish(g, k.grid, i, k.grid[i].(evaluationState := Done));
        Ran(k.grid[i := k.grid[i].(evaluationState := Done)])
  }

  /** Table.CloneCell: evaluate the cell the clone points at, then copy it; a formula is copied
      shifted one step back against the clone's direction, Pending and with number 0. */
  function CloneCell(g: seq<Cell>, rows: nat, columns: nat, row: int, column: int, direction: Direction): (r: Cloned)
    requires Shaped(g, rows, columns) && Valid(g) && direction != NoDirection
    ensures r.Cloned? ==> |r.grid| == |g| && Valid(r.grid) && Evolves(g, r.grid)
    ensures r.Cloned? ==>
              r.cell.kind != CellClone && r.cell.direction != NoDirection && r.cell.evaluationState != InProgress
    ensures var (sourceRow, sourceColumn) := Offset(direction, row, column);
            var h := EnsureEvaluated(g, rows, columns, sourceRow, sourceColumn);
            && (r.ClonePanicked? <==> h.Panicked?)
            && (r.Cloned? ==>
                  var source := CellAt(r.grid, rows, columns, sourceRow, sourceColumn);
                  && r.grid == h.grid
                  && (source.kind != CellExpression ==> r.cell == source)
                  && (source.kind == CellExpression ==>
                        && r.cell == source.(expression := r.cell.expression, evaluationState := Pending, number := 0.0)
                        && Shift(r.cell.expression, direction) == source.expression))
    decreases Measure(g), 3
  {
    var (sourceRow, sourceColumn) := Offset(direction, row, column);
    var h := EnsureEvaluated(g, rows, columns, sourceRow, sourceColumn);
    if h.Panicked? then ClonePanicked
    else
      var source := CellAt(h.grid, rows, columns, sourceRow, sourceColumn);
      if source.kind == CellExpression then
        ShiftReverse(source.expression, Reverse(direction));
        ReverseInvolutive(direction);
        Cloned(h.grid, source.(expression := Shift(source.expression, Reverse(direction)),
                               evaluationState := Pending,
                               number := 0.0))
      else Cloned(h.grid, source)
  }

  /** A root pointer still reaches the formula it reached while its slot is InProgress, unless a
      re-entry replaced the slot by the "Loop!" error, whose expression is the zero one. */
  lemma Reread(g: seq<Cell>, h: seq<Cell>, p: Pointer)
    requires Points(g, p) && |h| == |g| && (p.Root? ==> CellEvolves(g[p.index], h[p.index]))
    ensures Deref(h, p) == Deref(g, p) || (p.Root? && IsLoopError(h[p.index]) && Deref(h, p) == ZeroExpr)
  {
  }

  /** The switch of Table.EvaluateCellReferance on the cell it reads: text is an error, a number
      or a formula gives its number, an error is passed on, an empty cell is 0, and a clone cell
      panics. */
  function ReadCell(h: seq<Cell>, cell: Cell): (r: Evaluated)
    ensures r.EvaluationPanicked? <==> cell.kind == CellClone
    ensures r.Evaluated? ==> r.grid == h && (r.err.Some? ==> r.value == -1.0)
    ensures r.Evaluated? ==> (r.err.None? <==> cell.kind in {CellNumber, CellExpression, CellEmpty})
    ensures cell.kind == CellText ==> r.err == Some(TextMessage)
    ensures cell.kind == CellError ==> r.err == Some(cell.err)
    ensures cell.kind == CellNumber || cell.kind == CellExpression ==> r.value == cell.number
    ensures cell.kind == CellEmpty ==> r.value == 0.0
  {
    match cell.kind
    case CellText => Evaluated(h, -1.0, Some(TextMessage))
    case CellNumber => Evaluated(h, cell.number, None)
    case CellExpression => Evaluated(h, cell.number, None)
    case CellError => Evaluated(h, -1.0, Some(cell.err))
    case CellEmpty => Evaluated(h, 0.0, None)
    case CellClone => EvaluationPanicked
  }

  /** Table.EvaluateCellReferance: evaluate the referenced cell, then read the cell at the
      position the pointer holds afterwards.  Through a formula node that is the cell just
      evaluated; through a slot's root that a re-entry turned into the "Loop!" error it is the
      first cell of the table. */
  function EvaluateCellReference(g: seq<Cell>, rows: nat, columns: nat, p: Pointer): (r: Evaluated)
    requires Shaped(g, rows, columns) && Valid(g) && Points(g, p)
    ensures r.Evaluated? ==> |r.grid| == |g| && Valid(r.grid) && Evolves(g, r.grid)
    ensures var (row, column) := Position(Deref(g, p));
            var h := EnsureEvaluated(g, rows, columns, row, column);
            && (h.Panicked? ==> r.EvaluationPanicked?)
            && (h.Ran? ==>
                  && (Position(Deref(h.grid, p)) == (row, column)
                      || (p.Root? && IsLoopError(h.grid[p.index]) && Position(Deref(h.grid, p)) == (0, 0)))
                  && (p.Node? ==> r.Evaluated?)
                  && var (row', column') := Position(Deref(h.grid, p));
                     r == ReadCell(h.grid, CellAt(h.grid, rows, columns, row', column')))
    decreases Measure(g), 3
  {
    var (row, column) := Position(Deref(g, p));
    var h := EnsureEvaluated(g, rows, columns, row, column);
    if h.Panicked? then EvaluationPanicked
    else
      Reread(g, h.grid, p);
      var (row', column') := Position(Deref(h.grid, p));
      ReadCell(h.grid, CellAt(h.grid, rows, columns, row', column'))
  }

  /** Table.EvaluateExpression, dispatching on the kind the pointer reaches on entry: a number
      is its value, a reference is evaluated, `+` is an operation. */
  function EvaluateExpression(g: seq<Cell>, rows: nat, columns: nat, p: Pointer): (r: Evaluated)
    requires Shaped(g, rows, columns) && Valid(g) && Points(g, p)
    ensures r.Evaluated? ==> |r.grid| == |g| && Valid(r.grid) && Evolves(g, r.grid)
    ensures r.Evaluated? && r.err.Some? ==> r.value == -1.0
    ensures Deref(g, p).Num? ==> r == Evaluated(g, Deref(g, p).n, None)
    decreases Measure(g), Size(Deref(g, p)) + 3
  {
    match Deref(g, p)
    case Add(_, _) => EvaluateOperation(g, rows, columns, p)
    case Num(n) => Evaluated(g, n, None)
    case Ref(_, _) => EvaluateCellReference(g, rows, columns, p)
  }

  /** Table.EvaluateOperation with add_operation: the left operand first; when it fails the
      right one is never evaluated; otherwise the right operand, read from the node only now, and
      the sum or the right operand's error.  A slot overwritten meanwhile has no right operand,
      and dereferencing it panics. */
  function EvaluateOperation(g: seq<Cell>, rows: nat, columns: nat, p: Pointer): (r: Evaluated)
    requires Shaped(g, rows, columns) && Valid(g) && Points(g, p) && Deref(g, p).Add?
    ensures r.Evaluated? ==> |r.grid| == |g| && Valid(r.grid) && Evolves(g, r.grid)
    ensures r.Evaluated? && r.err.Some? ==> r.value == -1.0
    ensures var e := Deref(g, p);
            var lhs := EvaluateExpression(g, rows, columns, Node(e.lhs));
            && (lhs.EvaluationPanicked? ==> r.EvaluationPanicked?)
            && (lhs.Evaluated? && lhs.err.Some? ==> r == Evaluated(lhs.grid, -1.0, lhs.err))
            && (lhs.Evaluated? && lhs.err.None? ==>
                  && (Deref(lhs.grid, p) != e ==> r.EvaluationPanicked? && p.Root? && IsLoopError(lhs.grid[p.index]))
                  && (Deref(lhs.grid, p) == e ==>
                        var rhs := EvaluateExpression(lhs.grid, rows, columns, Node(e.rhs));
                        && (rhs.EvaluationPanicked? <==> r.EvaluationPanicked?)
                        && (rhs.Evaluated? ==> r.grid == rhs.grid && r.err == rhs.err)
                        && (rhs.Evaluated? && rhs.err.None? ==> r.value == lhs.value + rhs.value)))
    decreases Measure(g), Size(Deref(g, p)) + 2
  {
    var e := Deref(g, p);
    var lhs := EvaluateExpression(g, rows, columns, Node(e.lhs));
    if lhs.EvaluationPanicked? then EvaluationPanicked
    else if lhs.err.Some? then Evaluated(lhs.grid, -1.0, lhs.err)
    else
      Reread(g, lhs.grid, p);
      var node := Deref(lhs.grid, p);
      if !node.Add? then EvaluationPanicked
      else
        var rhs := EvaluateExpression(lhs.grid, rows, columns, Node(node.rhs));
        if rhs.EvaluationPanicked? then EvaluationPanicked
        else
          EvolvesTransitive(g, lhs.grid, rhs.grid);
          if rhs.err.Some? then Evaluated(rhs.grid, -1.0, rhs.err)
          else Evaluated(rhs.grid, lhs.value + rhs.value, None)
  }

  // ---------------------------------------------------------------- properties

  predicate NoneInProgress(g: seq<Cell>) {
    forall i :: 0 <= i < |g| ==> g[i].evaluationState != InProgress
  }

  /** A freshly loaded grid is valid and has no cell InProgress. */
  lemma FreshIsValid(g: seq<Cell>)
    requires Fresh(g)
    ensures Valid(g) && NoneInProgress(g)
  {
  }

  /** What EnsureEvaluated does to the slot it is given: outside the table nothing changes, a
      Done slot is memoized, an InProgress slot is a loop and becomes the "Loop!" error, a
      Pending formula or clone is evaluated by its branch, and any other Pending cell is only
      marked Done. */
  lemma EnsureEvaluatedSlot(g: seq<Cell>, rows: nat, columns: nat, row: int, column: int)
    requires Shaped(g, rows, columns) && Valid(g)
    ensures var h := EnsureEvaluated(g, rows, columns, row, column);
            && (!InBounds(rows, columns, row, column) ==> h == Ran(g))
            && (InBounds(rows, columns, row, column) ==>
                  var i := Index(rows, columns, row, column);
                  && (g[i].evaluationState == Done ==> h == Ran(g))
                  && (g[i].evaluationState == InProgress ==> h == Ran(g[i := ErrorCell(LoopMessage)]))
                  && (g[i].evaluationState == Pending && g[i].kind == CellExpression ==>
                        h == EvaluateFormulaCell(g, rows, columns, row, column))
                  && (g[i].evaluationState == Pending && g[i].kind == CellClone ==>
                        h == EvaluateCloneCell(g, rows, columns, row, column))
                  && (g[i].evaluationState == Pending && g[i].kind != CellExpression && g[i].kind != CellClone ==>
                        h == Ran(g[i := g[i].(evaluationState := Done)])))
  {
    if InBounds(rows, columns, row, column) {
      var i := Index(rows, columns, row, column);
      assert g[i := g[i].(evaluationState := InProgress)][i := g[i].(evaluationState := Done)]
             == g[i := g[i].(evaluationState := Done)];
    }
  }

  /** What a formula cell holds once evaluated: the panic of its formula ends the program;
      otherwise every other slot is as the formula's evaluation left it and the slot holds the
      error the formula failed with, or else the number it computed, in the formula cell it was
      or in the "Loop!" error a re-entry made of it, marked Done. */
  lemma EvaluateFormulaCellStores(g: seq<Cell>, rows: nat, columns: nat, row: int, column: int)
    requires Shaped(g, rows, columns) && Valid(g) && InBounds(rows, columns, row, column)
    requires var cell := g[Index(rows, columns, row, column)];
             cell.evaluationState == Pending && cell.kind == CellExpression
    ensures var i := Index(rows, columns, row, column);
            var r := EvaluateExpression(g[i := g[i].(evaluationState := InProgress)], rows, columns, Root(i));
            var h := EvaluateFormulaCell(g, rows, columns, row, column);
            && (h.Panicked? <==> r.EvaluationPanicked?)
            && (h.Ran? ==>
                  && h.grid == r.grid[i := h.grid[i]]
                  && (r.err.Some? ==> h.grid[i] == ErrorCell(r.err.value).(evaluationState := Done))
                  && (r.err.None? ==> h.grid[i] == r.grid[i].(number := r.value, evaluationState := Done))
                  && (r.err.None? ==>
                        || h.grid[i] == g[i].(number := r.value, evaluationState := Done)
                        || h.grid[i] == ErrorCell(LoopMessage).(number := r.value, evaluationState := Done)))
  {
    var i := Index(rows, columns, row, column);
    var started := g[i := g[i].(evaluationState := InProgress)];
    var r := EvaluateExpression(started, rows, columns, Root(i));
    Start(g, i);
    if r.Evaluated? {
      assert CellEvolves(started[i], r.grid[i]);
      assert r.grid[i] == started[i] || IsLoopError(r.grid[i]);
      var slot := if r.err.Some? then ErrorCell(r.err.value) else r.grid[i].(number := r.value);
      assert EvaluateFormulaCell(g, rows, columns, row, column) == Ran(r.grid[i := slot.(evaluationState := Done)]);
    }
  }

  /** What a clone cell holds once evaluated: the copy CloneCell makes, evaluated in the slot.
      A formula copy is evaluated as a formula cell; any other copy is kept and marked Done. */
  lemma EvaluateCloneCellStores(g: seq<Cell>, rows: nat, columns: nat, row: int, column: int)
    requires Shaped(g, rows, columns) && Valid(g) && InBounds(rows, columns, row, column)
    requires var cell := g[Index(rows, columns, row, column)];
             cell.evaluationState == Pending && cell.kind == CellClone
    ensures var i := Index(rows, columns, row, column);
            var c := CloneCell(g[i := g[i].(evaluationState := InProgress)], rows, columns, row, column, g[i].direction);
            var h := EvaluateCloneCell(g, rows, columns, row, column);
            && (c.ClonePanicked? ==> h.Panicked?)
            && (c.Cloned? && c.cell.kind == CellExpression && c.cell.evaluationState == Pending ==>
                  h == EvaluateFormulaCell(c.grid[i := c.cell], rows, columns, row, column))
            && (c.Cloned? && !(c.cell.kind == CellExpression && c.cell.evaluationState == Pending) ==>
                  h == Ran(c.grid[i := c.cell.(evaluationState := Done)]))
  {
    var i := Index(rows, columns, row, column);
    var c := CloneCell(g[i := g[i].(evaluationState := InProgress)], rows, columns, row, column, g[i].direction);
    if c.Cloned? {
      if c.cell.kind == CellExpression && c.cell.evaluationState == Pending {
        CloneCopyFormula(g, rows, columns, row, column, i, c);
      } else {
        CloneCopyPlain(g, rows, columns, row, column, i, c);
      }
    }
  }

  /** The formula case of EvaluateCloneCellStores. */
  lemma CloneCopyFormula(g: seq<Cell>, rows: nat, columns: nat, row: int, column: int, i: nat, c: Cloned)
    requires Shaped(g, rows, columns) && Valid(g) && InBounds(rows, columns, row, column)
    requires i == Index(rows, columns, row, column) && g[i].evaluationState == Pending && g[i].kind == CellClone
    requires c == CloneCell(g[i := g[i].(evaluationState := InProgress)], rows, columns, row, column, g[i].direction)
    requires c.Cloned? && c.cell.kind == CellExpression && c.cell.evaluationState == Pending
    ensures EvaluateCloneCell(g, rows, columns, row, column) == EvaluateFormulaCell(c.grid[i := c.cell], rows, columns, row, column)
  {
    var copied := c.grid[i := c.cell];
    MeasureUpdate(c.grid, i, c.cell);
    EnsureEvaluatedSlot(copied, rows, columns, row, column);
    var k := EnsureEvaluated(copied, rows, columns, row, column);
    if k.Ran? {
      assert k.grid[i := k.grid[i].(evaluationState := Done)] == k.grid;
    }
  }

  /** The case of EvaluateCloneCellStores where the copy is not a Pending formula. */
  lemma CloneCopyPlain(g: seq<Cell>, rows: nat, columns: nat, row: int, column: int, i: nat, c: Cloned)
    requires Shaped(g, rows, columns) && Valid(g) && InBounds(rows, columns, row, column)
    requires i == Index(rows, columns, row, column) && g[i].evaluationState == Pending && g[i].kind == CellClone
    requires c == CloneCell(g[i := g[i].(evaluationState := InProgress)], rows, columns, row, column, g[i].direction)
    requires c.Cloned? && !(c.cell.kind == CellExpression && c.cell.evaluationState == Pending)
    ensures EvaluateCloneCell(g, rows, columns, row, column) == Ran(c.grid[i := c.cell.(evaluationState := Done)])
  {
    var copied := c.grid[i := c.cell];
    MeasureUpdate(c.grid, i, c.cell);
    var done := c.grid[i := c.cell.(evaluationState := Done)];
    assert copied[i := c.cell.(evaluationState := Done)] == done;
    assert done[i := done[i].(evaluationState := Done)] == done;
    EnsureEvaluatedSlot(copied, rows, columns, row, column);
    if c.cell.evaluationState == Done {
      assert copied == done;
    }
    assert EnsureEvaluated(copied, rows, columns, row, column) == Ran(done);
  }

  /** Between the calls of Evaluate no cell is InProgress, so evaluating a cell once more
      changes nothing: the result is memoized. */
  lemma EnsureEvaluatedIdempotent(g: seq<Cell>, rows: nat, columns: nat, row: int, column: int)
    requires Shaped(g, rows, columns) && Valid(g) && NoneInProgress(g)
    ensures var h := EnsureEvaluated(g, rows, columns, row, column);
            h.Ran? ==> NoneInProgress(h.grid) && EnsureEvaluated(h.grid, rows, columns, row, column) == h
  {
    var h := EnsureEvaluated(g, rows, columns, row, column);
    if h.Ran? {
      assert forall i :: 0 <= i < |g| ==> CellEvolves(g[i], h.grid[i]);
    }
  }

  /** A reference to a position outside the table leaves the grid as it is and fails with
      "Cell outside table". */
  lemma ReferenceOutside(g: seq<Cell>, rows: nat, columns: nat, p: Pointer)
    requires Shaped(g, rows, columns) && Valid(g) && Points(g, p)
    requires var (row, column) := Position(Deref(g, p)); !InBounds(rows, columns, row, column)
    ensures EvaluateCellReference(g, rows, columns, p) == Evaluated(g, -1.0, Some(OutsideMessage))
  {
  }

  /** The first n cells are Done. */
  predicate DonePrefix(g: seq<Cell>, n: nat) {
    n <= |g| && forall j :: 0 <= j < n ==> g[j].evaluationState == Done
  }

  /** One more cell Done, and Done cells stay Done. */
  lemma DoneStep(before: seq<Cell>, h: seq<Cell>, i: nat)
    requires Evolves(before, h) && NoneInProgress(before) && DonePrefix(before, i)
    requires i < |h| && h[i].evaluationState == Done
    ensures NoneInProgress(h) && DonePrefix(h, i + 1)
  {
    forall j | 0 <= j < |h|
      ensures h[j].evaluationState != InProgress
      ensures j < i ==> h[j].evaluationState == Done
    {
      assert CellEvolves(before[j], h[j]);
    }
  }

  /** Evaluating cell n of a grid with no InProgress cell whose first n cells are Done leaves,
      unless the program panics, its first n + 1 cells Done. */
  lemma EnsureEvaluatedDone(g: seq<Cell>, rows: nat, columns: nat, row: nat, column: nat, n: nat, m: nat)
    requires Shaped(g, rows, columns)
    requires Valid(g)
    requires NoneInProgress(g)
    requires InBounds(rows, columns, row, column)
    requires n == Index(rows, columns, row, column)
    requires m == n + 1
    requires DonePrefix(g, n)
    ensures var h := EnsureEvaluated(g, rows, columns, row, column);
            h.Ran? ==> NoneInProgress(h.grid) && DonePrefix(h.grid, m)
  {
    var h := EnsureEvaluated(g, rows, columns, row, column);
    if h.Ran? {
      assert g[n].evaluationState == Done ==> h.grid == g;
      DoneStep(g, h.grid, n);
    }
  }

  /** The inner loop of Table.Evaluate from column `column` on: cells (row, column) ..
      (row, columns - 1), left to right, until one panics. */
  function EvaluateRow(g: seq<Cell>, rows: nat, columns: nat, row: nat, column: nat): (h: Run)
    requires Shaped(g, rows, columns) && Valid(g)
    ensures h.Ran? ==> |h.grid| == |g| && Valid(h.grid) && Evolves(g, h.grid)
    decreases columns - column
  {
    if column >= columns then Ran(g)
    else
      var next := EnsureEvaluated(g, rows, columns, row, column);
      if next.Panicked? then Panicked
      else
        var h := EvaluateRow(next.grid, rows, columns, row, column + 1);
        assert h.Ran? ==> Evolves(g, h.grid) by {
          if h.Ran? {
            EvolvesTransitive(g, next.grid, h.grid);
          }
        }
        h
  }

  /** From a grid with no InProgress cell whose cells before (row, column) are Done, the rest
      of the row, unless it panics, leaves none InProgress and the whole row Done. */
  lemma {:induction false} EvaluateRowDone(g: seq<Cell>, rows: nat, columns: nat, row: nat, column: nat)
    requires Shaped(g, rows, columns) && Valid(g) && row < rows && column <= columns
    requires NoneInProgress(g) && DonePrefix(g, RowStart(row, columns) + column)
    ensures var h := EvaluateRow(g, rows, columns, row, column);
            h.Ran? ==> NoneInProgress(h.grid) && DonePrefix(h.grid, RowStart(row + 1, columns))
    decreases columns - column, 1
  {
    if column < columns {
      var n := RowStart(row, columns) + column;
      EnsureEvaluatedDone(g, rows, columns, row, column, n, n + 1);
      EvaluateRowFirst(g, rows, columns, row, column);
      var next := EnsureEvaluated(g, rows, columns, row, column);
      if next.Ran? {
        EvaluateCellDone(g, next.grid, rows, columns, row, column);
      }
    } else {
      assert RowStart(row + 1, columns) == RowStart(row, columns) + column;
      assert EvaluateRow(g, rows, columns, row, column) == Ran(g);
    }
  }

  /** EvaluateRow evaluates cell `column` first and stops if it panics. */
  lemma EvaluateRowFirst(g: seq<Cell>, rows: nat, columns: nat, row: nat, column: nat)
    requires Shaped(g, rows, columns) && Valid(g) && column < columns
    ensures var next := EnsureEvaluated(g, rows, columns, row, column);
            EvaluateRow(g, rows, columns, row, column)
            == if next.Panicked? then Panicked else EvaluateRow(next.grid, rows, columns, row, column + 1)
  {
  }

  /** The step of EvaluateRowDone: once cell `column` is Done, the rest of the row. */
  lemma {:induction false} EvaluateCellDone(g: seq<Cell>, next: seq<Cell>, rows: nat, columns: nat, row: nat, column: nat)
    requires Shaped(g, rows, columns) && Valid(g) && Shaped(next, rows, columns) && Valid(next)
    requires row < rows && column < columns
    requires NoneInProgress(next) && DonePrefix(next, RowStart(row, columns) + column + 1)
    requires EvaluateRow(g, rows, columns, row, column) == EvaluateRow(next, rows, columns, row, column + 1)
    ensures var h := EvaluateRow(g, rows, columns, row, column);
            h.Ran? ==> NoneInProgress(h.grid) && DonePrefix(h.grid, RowStart(row + 1, columns))
    decreases columns - column, 0
  {
    EvaluateRowDone(next, rows, columns, row, column + 1);
  }

  /** Table.Evaluate from row `row` on: the rows row .. rows - 1, top to bottom, until a cell
      panics. */
  function EvaluateRows(g: seq<Cell>, rows: nat, columns: nat, row: nat): (h: Run)
    requires Shaped(g, rows, columns) && Valid(g)
    ensures h.Ran? ==> |h.grid| == |g| && Valid(h.grid) && Evolves(g, h.grid)
    decreases rows - row
  {
    if row >= rows then Ran(g)
    else
      var next := EvaluateRow(g, rows, columns, row, 0);
      if next.Panicked? then Panicked
      else
        var h := EvaluateRows(next.grid, rows, columns, row + 1);
        assert h.Ran? ==> Evolves(g, h.grid) by {
          if h.Ran? {
            EvolvesTransitive(g, next.grid, h.grid);
          }
        }
        h
  }

  /** One step of EvaluateRows: row `row`, then the rows after it. */
  lemma EvaluateRowsFirst(g: seq<Cell>, rows: nat, columns: nat, row: nat)
    requires Shaped(g, rows, columns) && Valid(g) && row < rows
    ensures var next := EvaluateRow(g, rows, columns, row, 0);
            EvaluateRows(g, rows, columns, row)
            == if next.Panicked? then Panicked else EvaluateRows(next.grid, rows, columns, row + 1)
  {
  }

  /** From a grid with no InProgress cell whose rows before `row` are Done, the remaining rows,
      unless a cell panics, leave every cell Done. */
  lemma {:induction false} EvaluateRowsDone(g: seq<Cell>, rows: nat, columns: nat, row: nat)
    requires Shaped(g, rows, columns) && Valid(g) && row <= rows
    requires NoneInProgress(g) && DonePrefix(g, RowStart(row, columns))
    ensures var h := EvaluateRows(g, rows, columns, row); h.Ran? ==> DonePrefix(h.grid, |g|)
    decreases rows - row
  {
    if row < rows {
      assert RowStart(row, columns) + 0 == RowStart(row, columns);
      EvaluateRowDone(g, rows, columns, row, 0);
      var next := EvaluateRow(g, rows, columns, row, 0);
      if next.Ran? {
        EvaluateRowsDone(next.grid, rows, columns, row + 1);
      }
    }
  }

  /** Evaluate terminates on every table, cyclic references included, and unless a cell panics
      it leaves every cell Done. */
  lemma EvaluateAllDone(g: seq<Cell>, rows: nat, columns: nat)
    requires Shaped(g, rows, columns) && Valid(g) && NoneInProgress(g)
    ensures var h := EvaluateRows(g, rows, columns, 0);
            h.Ran? ==> forall j :: 0 <= j < |h.grid| ==> h.grid[j].evaluationState == Done
  {
    EvaluateRowsDone(g, rows, columns, 0);
  }

  /** The value of a formula without cell references: the sum of its numbers. */
  function Constant(e: Expr): real
    requires Refs(e) == []
  {
    match e
    case Add(l, r) => Constant(l) + Constant(r)
    case Num(n) => n
  }

  /** A formula without cell references evaluates to the sum of its numbers and touches no
      cell. */
  lemma {:induction false} ConstantFormula(g: seq<Cell>, rows: nat, columns: nat, p: Pointer)
    requires Shaped(g, rows, columns) && Valid(g) && Points(g, p) && Refs(Deref(g, p)) == []
    ensures EvaluateExpression(g, rows, columns, p) == Evaluated(g, Constant(Deref(g, p)), None)
    decreases Size(Deref(g, p))
  {
    match Deref(g, p)
    case Add(l, r) =>
      assert Refs(l) == [] && Refs(r) == [];
      ConstantFormula(g, rows, columns, Node(l));
      ConstantFormula(g, rows, columns, Node(r));
    case Num(_) =>
  }

  // ---------------------------------------------------------------- re-entry

  /** A formula that is a single reference to a cell that is InProgress re-enters it: that cell
      becomes the "Loop!" error, and the reference, read again at the same position, fails with
      it. */
  lemma ReentryFails(g: seq<Cell>, rows: nat, columns: nat, j: nat, row: int, column: int)
    requires Shaped(g, rows, columns) && Valid(g) && j < |g| && g[j].evaluationState == InProgress
    requires g[j].expression == Ref(row, column) && InBounds(rows, columns, row, column)
    requires Index(rows, columns, row, column) != j
    requires g[Index(rows, columns, row, column)].evaluationState == InProgress
    ensures EvaluateExpression(g, rows, columns, Root(j))
            == Evaluated(g[Index(rows, columns, row, column) := ErrorCell(LoopMessage)], -1.0, Some(LoopMessage))
  {
    EnsureEvaluatedSlot(g, rows, columns, row, column);
  }

  /** A formula cell whose formula fails ends as that error, Done. */
  lemma FormulaFails(g: seq<Cell>, rows: nat, columns: nat, row: int, column: int, i: nat, started: seq<Cell>,
                     k: seq<Cell>, err: string)
    requires Shaped(g, rows, columns) && Valid(g) && InBounds(rows, columns, row, column)
    requires i == Index(rows, columns, row, column)
    requires g[i].evaluationState == Pending && g[i].kind == CellExpression
    requires started == g[i := g[i].(evaluationState := InProgress)]
    requires EvaluateExpression(started, rows, columns, Root(i)) == Evaluated(k, -1.0, Some(err))
    ensures EnsureEvaluated(g, rows, columns, row, column) == Ran(k[i := ErrorCell(err).(evaluationState := Done)])
  {
    EnsureEvaluatedSlot(g, rows, columns, row, column);
  }

  // ---------------------------------------------------------------- two formulas referencing each other

  /** Entering y, a Pending formula that references x while x is InProgress: y re-enters x, x
      becomes the "Loop!" error, and y ends as that error. */
  lemma ReentryLoops(g: seq<Cell>, rows: nat, columns: nat, rx: int, cx: int, ry: int, cy: int, ix: nat, iy: nat)
    requires Shaped(g, rows, columns) && Valid(g)
    requires InBounds(rows, columns, rx, cx) && ix == Index(rows, columns, rx, cx)
    requires InBounds(rows, columns, ry, cy) && iy == Index(rows, columns, ry, cy) && ix != iy
    requires g[ix].evaluationState == InProgress
    requires g[iy].evaluationState == Pending && g[iy].kind == CellExpression && g[iy].expression == Ref(rx, cx)
    ensures EnsureEvaluated(g, rows, columns, ry, cy)
            == Ran(g[ix := ErrorCell(LoopMessage)][iy := ErrorCell(LoopMessage).(evaluationState := Done)])
  {
    var started := g[iy := g[iy].(evaluationState := InProgress)];
    assert started[ix := ErrorCell(LoopMessage)][iy := ErrorCell(LoopMessage).(evaluationState := Done)]
           == g[ix := ErrorCell(LoopMessage)][iy := ErrorCell(LoopMessage).(evaluationState := Done)];
    Start(g, iy);
    ReentryFails(started, rows, columns, iy, rx, cx);
    FormulaFails(g, rows, columns, ry, cy, iy, started, started[ix := ErrorCell(LoopMessage)], LoopMessage);
  }

  /** Two formula cells x "=y" and y "=x", both Pending, and x evaluated first: y re-enters x and
      both become the "Loop!" error; then x's reference, read again through x's overwritten
      slot, reads the first cell of the table, and x ends as what that read yields. */
  lemma MutualReference(g: seq<Cell>, rows: nat, columns: nat, rx: int, cx: int, ry: int, cy: int, ix: nat, iy: nat)
    requires Shaped(g, rows, columns) && Valid(g)
    requires InBounds(rows, columns, rx, cx) && ix == Index(rows, columns, rx, cx)
    requires InBounds(rows, columns, ry, cy) && iy == Index(rows, columns, ry, cy) && ix != iy
    requires g[ix].evaluationState == Pending && g[ix].kind == CellExpression && g[ix].expression == Ref(ry, cy)
    requires g[iy].evaluationState == Pending && g[iy].kind == CellExpression && g[iy].expression == Ref(rx, cx)
    ensures var h := g[ix := ErrorCell(LoopMessage)][iy := ErrorCell(LoopMessage).(evaluationState := Done)];
            var first := ReadCell(h, CellAt(h, rows, columns, 0, 0));
            EnsureEvaluated(g, rows, columns, rx, cx)
            == if first.EvaluationPanicked? then Panicked
               else if first.err.Some? then Ran(h[ix := ErrorCell(first.err.value).(evaluationState := Done)])
               else Ran(h[ix := ErrorCell(LoopMessage).(number := first.value, evaluationState := Done)])
  {
    var h := g[ix := ErrorCell(LoopMessage)][iy := ErrorCell(LoopMessage).(evaluationState := Done)];
    var started := g[ix := g[ix].(evaluationState := InProgress)];
    assert started[ix := ErrorCell(LoopMessage)][iy := ErrorCell(LoopMessage).(evaluationState := Done)] == h;
    Start(g, ix);
    ReentryLoops(started, rows, columns, rx, cx, ry, cy, ix, iy);
    assert EvaluateExpression(started, rows, columns, Root(ix)) == ReadCell(h, CellAt(h, rows, columns, 0, 0));
    EnsureEvaluatedSlot(g, rows, columns, rx, cx);
  }

  /** A two-cell cycle through the table's first cell: A1 "=y" and y "=A1", both Pending. Both
      end as Done "Loop!" errors, A1 reading, through its overwritten slot, itself. */
  lemma CycleThroughFirst(g: seq<Cell>, rows: nat, columns: nat, ry: int, cy: int, iy: nat)
    requires Shaped(g, rows, columns) && Valid(g) && InBounds(rows, columns, 0, 0)
    requires InBounds(rows, columns, ry, cy) && iy == Index(rows, columns, ry, cy) && iy != 0
    requires g[0].evaluationState == Pending && g[0].kind == CellExpression && g[0].expression == Ref(ry, cy)
    requires g[iy].evaluationState == Pending && g[iy].kind == CellExpression && g[iy].expression == Ref(0, 0)
    ensures var loop := ErrorCell(LoopMessage).(evaluationState := Done);
            EnsureEvaluated(g, rows, columns, 0, 0) == Ran(g[0 := loop][iy := loop])
  {
    var loop := ErrorCell(LoopMessage).(evaluationState := Done);
    var h := g[0 := ErrorCell(LoopMessage)][iy := loop];
    assert h[0 := loop] == g[0 := loop][iy := loop];
    assert Index(rows, columns, 0, 0) == 0;
    MutualReference(g, rows, columns, 0, 0, ry, cy, 0, iy);
  }

  /** A Pending clone in the first cell whose source x is one cell of a two-cell cycle x "=y",
      y "=x": x's reference, read again through x's overwritten slot, reads the first cell,
      the clone still InProgress, and the program panics. */
  lemma CloneIntoCyclePanics(g: seq<Cell>, rows: nat, columns: nat, rx: int, cx: int, ry: int, cy: int, ix: nat, iy: nat)
    requires Shaped(g, rows, columns) && Valid(g) && InBounds(rows, columns, 0, 0)
    requires g[0].evaluationState == Pending && g[0].kind == CellClone && Offset(g[0].direction, 0, 0) == (rx, cx)
    requires InBounds(rows, columns, rx, cx) && ix == Index(rows, columns, rx, cx)
    requires InBounds(rows, columns, ry, cy) && iy == Index(rows, columns, ry, cy)
    requires ix != iy && ix != 0 && iy != 0
    requires g[ix].evaluationState == Pending && g[ix].kind == CellExpression && g[ix].expression == Ref(ry, cy)
    requires g[iy].evaluationState == Pending && g[iy].kind == CellExpression && g[iy].expression == Ref(rx, cx)
    ensures EnsureEvaluated(g, rows, columns, 0, 0) == Panicked
  {
    assert Index(rows, columns, 0, 0) == 0;
    var started := g[0 := g[0].(evaluationState := InProgress)];
    Start(g, 0);
    MutualReference(started, rows, columns, rx, cx, ry, cy, ix, iy);
    EvaluateCloneCellStores(g, rows, columns, 0, 0);
    EnsureEvaluatedSlot(g, rows, columns, 0, 0);
  }

  // ---------------------------------------------------------------- examples

  // The example tables are one row high; their sizes and positions are passed as parameters
  // fixed by the preconditions.

  /** Table.Evaluate on a 1 x 2 table is its two cells' evaluations, in order. */
  lemma RowOfTwo(g: seq<Cell>, a: seq<Cell>, b: seq<Cell>, rows: nat, columns: nat)
    requires rows == 1 && columns == 2 && Shaped(g, rows, columns) && Valid(g)
    requires EnsureEvaluated(g, rows, columns, 0, 0) == Ran(a)
    requires EnsureEvaluated(a, rows, columns, 0, 1) == Ran(b)
    ensures EvaluateRows(g, rows, columns, 0) == Ran(b)
  {
    EvaluateRowFirst(g, rows, columns, 0, 0);
    EvaluateRowFirst(a, rows, columns, 0, 1);
  }

  /** Table.Evaluate on a 1 x 3 table is its three cells' evaluations, in order. */
  lemma RowOfThree(g: seq<Cell>, a: seq<Cell>, b: seq<Cell>, c: seq<Cell>, rows: nat, columns: nat)
    requires rows == 1 && columns == 3 && Shaped(g, rows, columns) && Valid(g)
    requires EnsureEvaluated(g, rows, columns, 0, 0) == Ran(a)
    requires EnsureEvaluated(a, rows, columns, 0, 1) == Ran(b)
    requires EnsureEvaluated(b, rows, columns, 0, 2) == Ran(c)
    ensures EvaluateRows(g, rows, columns, 0) == Ran(c)
  {
    EvaluateRowFirst(g, rows, columns, 0, 0);
    EvaluateRowFirst(a, rows, columns, 0, 1);
    EvaluateRowFirst(b, rows, columns, 0, 2);
  }

  /** Table.Evaluate on a one-row table whose first cell panics panics. */
  lemma RowPanics(g: seq<Cell>, rows: nat, columns: nat)
    requires rows == 1 && 0 < columns && Shaped(g, rows, columns) && Valid(g)
    requires EnsureEvaluated(g, rows, columns, 0, 0) == Panicked
    ensures EvaluateRows(g, rows, columns, 0) == Panicked
  {
    EvaluateRowFirst(g, rows, columns, 0, 0);
  }

  /** EnsureEvaluated leaves a table whose cells are all Done as it is. */
  lemma AllDoneStays(g: seq<Cell>, rows: nat, columns: nat, row: int, column: int)
    requires Shaped(g, rows, columns) && Valid(g) && InBounds(rows, columns, row, column)
    requires forall j :: 0 <= j < |g| ==> g[j].evaluationState == Done
    ensures EnsureEvaluated(g, rows, columns, row, column) == Ran(g)
  {
    EnsureEvaluatedSlot(g, rows, columns, row, column);
  }

  /** A1 "=B1" and B1 "=A1", freshly loaded into a 1 x 2 table: evaluating A1 reaches B1,
      which re-enters A1 and turns it into the "Loop!" error; B1 ends as that error and A1,
      reading itself, the first cell, ends as it too. */
  lemma CycleA1(g: seq<Cell>, rows: nat, columns: nat)
    requires rows == 1 && columns == 2 && |g| == 2
    requires g[0] == NewCell(CellExpression).(expression := Ref(0, 1))
    requires g[1] == NewCell(CellExpression).(expression := Ref(0, 0))
    ensures var loop := ErrorCell(LoopMessage).(evaluationState := Done);
            EnsureEvaluated(g, rows, columns, 0, 0) == Ran([loop, loop])
  {
    var loop := ErrorCell(LoopMessage).(evaluationState := Done);
    assert g[0 := loop][1 := loop] == [loop, loop];
    assert Valid(g);
    assert Index(rows, columns, 0, 1) == 1;
    CycleThroughFirst(g, rows, columns, 0, 1, 1);
  }

  /** The cycle A1 "=B1", B1 "=A1": both cells end as Done "Loop!" errors. */
  lemma CycleBecomesLoop(g: seq<Cell>, rows: nat, columns: nat)
    requires rows == 1 && columns == 2 && |g| == 2
    requires g[0] == NewCell(CellExpression).(expression := Ref(0, 1))
    requires g[1] == NewCell(CellExpression).(expression := Ref(0, 0))
    ensures var loop := ErrorCell(LoopMessage).(evaluationState := Done);
            EvaluateRows(g, rows, columns, 0) == Ran([loop, loop])
  {
    var loop := ErrorCell(LoopMessage).(evaluationState := Done);
    assert Valid(g) && Valid([loop, loop]);
    CycleA1(g, rows, columns);
    AllDoneStays([loop, loop], rows, columns, 0, 1);
    RowOfTwo(g, [loop, loop], [loop, loop], rows, columns);
  }

  /** The cells B1 "=C1" and C1 "=B1" after A1 "hello": B1's reference, read again after C1
      turned B1 into the "Loop!" error, lands on A1, so B1 ends as "Cannot operate on text" and
      C1 as "Loop!". */
  lemma TextCycleB1(a: seq<Cell>, rows: nat, columns: nat)
    requires rows == 1 && columns == 3 && |a| == 3
    requires a[0] == NewCell(CellText).(text := "hello", evaluationState := Done)
    requires a[1] == NewCell(CellExpression).(expression := Ref(0, 2))
    requires a[2] == NewCell(CellExpression).(expression := Ref(0, 1))
    ensures EnsureEvaluated(a, rows, columns, 0, 1)
            == Ran([a[0], ErrorCell(TextMessage).(evaluationState := Done), ErrorCell(LoopMessage).(evaluationState := Done)])
  {
    var h := a[1 := ErrorCell(LoopMessage)][2 := ErrorCell(LoopMessage).(evaluationState := Done)];
    assert h[1 := ErrorCell(TextMessage).(evaluationState := Done)]
           == [a[0], ErrorCell(TextMessage).(evaluationState := Done), ErrorCell(LoopMessage).(evaluationState := Done)];
    assert Valid(a);
    assert Index(rows, columns, 0, 1) == 1 && Index(rows, columns, 0, 2) == 2;
    MutualReference(a, rows, columns, 0, 1, 0, 2, 1, 2);
  }

  /** A cell that is neither a formula nor a clone, Pending in the first cell, is only marked
      Done. */
  lemma PlainFirst(g: seq<Cell>, rows: nat, columns: nat)
    requires Shaped(g, rows, columns) && Valid(g) && InBounds(rows, columns, 0, 0)
    requires g[0].evaluationState == Pending && g[0].kind != CellExpression && g[0].kind != CellClone
    ensures EnsureEvaluated(g, rows, columns, 0, 0) == Ran(g[0 := g[0].(evaluationState := Done)])
  {
    assert Index(rows, columns, 0, 0) == 0;
    EnsureEvaluatedSlot(g, rows, columns, 0, 0);
  }

  /** The row "hello | =C1 | =B1", freshly loaded: A1 stays text, B1 ends as "Cannot operate
      on text" and C1 as "Loop!". */
  lemma TextCycleResult(g: seq<Cell>, rows: nat, columns: nat)
    requires rows == 1 && columns == 3 && |g| == 3
    requires g[0] == NewCell(CellText).(text := "hello")
    requires g[1] == NewCell(CellExpression).(expression := Ref(0, 2))
    requires g[2] == NewCell(CellExpression).(expression := Ref(0, 1))
    ensures EvaluateRows(g, rows, columns, 0)
            == Ran([g[0].(evaluationState := Done), ErrorCell(TextMessage).(evaluationState := Done),
                    ErrorCell(LoopMessage).(evaluationState := Done)])
  {
    var a := g[0 := g[0].(evaluationState := Done)];
    var result := [a[0], ErrorCell(TextMessage).(evaluationState := Done), ErrorCell(LoopMessage).(evaluationState := Done)];
    assert Valid(g);
    PlainFirst(g, rows, columns);
    TextCycleB1(a, rows, columns);
    AllDoneStays(result, rows, columns, 0, 2);
    RowOfThree(g, a, result, result, rows, columns);
  }

  /** The clone A1 ":>" of the row ":> | =C1 | =B1", freshly loaded, panics: it evaluates B1;
      B1's reference, read again after C1 turned B1 into the "Loop!" error, lands on A1, which
      is still the clone InProgress, and the switch on a clone cell panics. */
  lemma CloneCycleA1(g: seq<Cell>, rows: nat, columns: nat)
    requires rows == 1 && columns == 3 && |g| == 3
    requires g[0] == NewCell(CellClone).(direction := Right)
    requires g[1] == NewCell(CellExpression).(expression := Ref(0, 2))
    requires g[2] == NewCell(CellExpression).(expression := Ref(0, 1))
    ensures EnsureEvaluated(g, rows, columns, 0, 0) == Panicked
  {
    assert Valid(g);
    assert Index(rows, columns, 0, 1) == 1 && Index(rows, columns, 0, 2) == 2;
    CloneIntoCyclePanics(g, rows, columns, 0, 1, 0, 2, 1, 2);
  }

  /** The row ":> | =C1 | =B1" panics. */
  lemma CloneCyclePanics(g: seq<Cell>, rows: nat, columns: nat)
    requires rows == 1 && columns == 3 && |g| == 3
    requires g[0] == NewCell(CellClone).(direction := Right)
    requires g[1] == NewCell(CellExpression).(expression := Ref(0, 2))
    requires g[2] == NewCell(CellExpression).(expression := Ref(0, 1))
    ensures EvaluateRows(g, rows, columns, 0) == Panicked
  {
    assert Valid(g);
    CloneCycleA1(g, rows, columns);
    RowPanics(g, rows, columns);
  }

  /** B1 "=A1 + 1", entered after A1 "5" is Done, adds 5 and 1 and keeps the 6 in its formula
      cell. */
  lemma SumStoresSix(g: seq<Cell>, rows: nat, columns: nat, b: nat)
    requires rows == 1 && columns == 2 && b == 1 && |g| == 2
    requires g[0] == NewCell(CellNumber).(number := 5.0, evaluationState := Done)
    requires g[b] == NewCell(CellExpression).(expression := Add(Ref(0, 0), Num(1.0)))
    ensures EnsureEvaluated(g, rows, columns, 0, b) == Ran(g[b := g[b].(number := 6.0, evaluationState := Done)])
  {
    var entered := g[b := g[b].(evaluationState := InProgress)];
    assert Valid(g) && Valid(entered);
    assert Index(rows, columns, 0, b) == b && Index(rows, columns, 0, 0) == 0;
    EnsureEvaluatedSlot(entered, rows, columns, 0, 0);
    var lhs := Node(Ref(0, 0));
    assert EvaluateExpression(entered, rows, columns, lhs) == Evaluated(entered, 5.0, None);
    assert EvaluateExpression(entered, rows, columns, Root(b)) == Evaluated(entered, 6.0, None);
    EnsureEvaluatedSlot(g, rows, columns, 0, b);
  }

  /** The row "5 | =A1 + 1", freshly loaded, leaves B1 a formula cell holding 6. */
  lemma SumResult(g: seq<Cell>, rows: nat, columns: nat)
    requires rows == 1 && columns == 2 && |g| == 2
    requires g[0] == NewCell(CellNumber).(number := 5.0)
    requires g[1] == NewCell(CellExpression).(expression := Add(Ref(0, 0), Num(1.0)))
    ensures EvaluateRows(g, rows, columns, 0)
            == Ran([g[0].(evaluationState := Done), g[1].(number := 6.0, evaluationState := Done)])
  {
    var a := g[0 := g[0].(evaluationState := Done)];
    assert a[1 := a[1].(number := 6.0, evaluationState := Done)]
           == [g[0].(evaluationState := Done), g[1].(number := 6.0, evaluationState := Done)];
    assert Valid(g);
    PlainFirst(g, rows, columns);
    SumStoresSix(a, rows, columns, 1);
    RowOfTwo(g, a, a[1 := a[1].(number := 6.0, evaluationState := Done)], rows, columns);
  }
}
