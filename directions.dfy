/** Clone directions and position arithmetic (src/cell.go, the Direction part). */
module Directions {

  /** The four clone directions, plus the "no direction" value a failed parse yields. */
  datatype Direction = Up | Right | Down | Left | NoDirection

  /** Up and Down swap, Right and Left swap; the source panics on NoDirection. */
  function Reverse(d: Direction): (r: Direction)
    requires d != NoDirection
    ensures r != NoDirection && r != d
  {
    match d
    case Up => Down
    case Right => Left
    case Down => Up
    case Left => Right
  }

  /** Row change of one step in direction `d`. */
  function DeltaRow(d: Direction): int
    requires d != NoDirection
  {
    match d
    case Up => -1
    case Down => 1
    case _ => 0
  }

  /** Column change of one step in direction `d`. */
  function DeltaColumn(d: Direction): int
    requires d != NoDirection
  {
    match d
    case Left => -1
    case Right => 1
    case _ => 0
  }

  /** The position one step away from (row, column); exactly one coordinate moves, by exactly one. */
  function Offset(d: Direction, row: int, column: int): (r: (int, int))
    requires d != NoDirection
    ensures (r.0 == row && (r.1 == column + 1 || r.1 == column - 1))
         || (r.1 == column && (r.0 == row + 1 || r.0 == row - 1))
    ensures r != (row, column)
  {
    match d
    case Up => (row - 1, column)
    case Right => (row, column + 1)
    case Down => (row + 1, column)
    case Left => (row, column - 1)
  }

  lemma ReverseInvolutive(d: Direction)
    requires d != NoDirection
    ensures Reverse(Reverse(d)) == d
  {
  }

  /** One step back in the reverse direction undoes one step. */
  lemma OffsetReverse(d: Direction, row: int, column: int)
    requires d != NoDirection
    ensures var p := Offset(d, row, column); Offset(Reverse(d), p.0, p.1) == (row, column)
  {
  }

  /** Offset agrees with the unit deltas, which are the reverse's deltas negated. */
  lemma OffsetIsDelta(d: Direction, row: int, column: int)
    requires d != NoDirection
    ensures Offset(d, row, column) == (row + DeltaRow(d), column + DeltaColumn(d))
    ensures DeltaRow(Reverse(d)) == -DeltaRow(d) && DeltaColumn(Reverse(d)) == -DeltaColumn(d)
  {
  }

  /** A grid position (the source's CellPosition); zero-based, not bounds checked. */
  datatype Position = Position(row: int, column: int)

  const Origin := Position(0, 0)

  /** CellPosition.Offset(direction, count): `count` unit steps in direction `d`. */
  function OffsetBy(p: Position, d: Direction, count: int): (r: Position)
    requires d != NoDirection
    ensures count == 1 ==> (r.row, r.column) == Offset(d, p.row, p.column)
  {
    match d
    case Up => Position(p.row - count, p.column)
    case Right => Position(p.row, p.column + count)
    case Down => Position(p.row + count, p.column)
    case Left => Position(p.row, p.column - count)
  }

  /** Moving m steps and then n steps is moving m + n steps. */
  lemma OffsetByCompose(p: Position, d: Direction, m: int, n: int)
    requires d != NoDirection
    ensures OffsetBy(OffsetBy(p, d, m), d, n) == OffsetBy(p, d, m + n)
  {
  }

  /** `count` steps in the reverse direction undo `count` steps. */
  lemma OffsetByReverse(p: Position, d: Direction, count: int)
    requires d != NoDirection
    ensures OffsetBy(OffsetBy(p, d, count), Reverse(d), count) == p
  {
  }
}
