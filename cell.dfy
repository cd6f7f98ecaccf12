/**
 * Cells (src/cell.go): what a grid slot holds, how the text of a slot is classified, and how a
 * slot is rendered.  A cell is a record with every field, as in the source: a field that does not
 * belong to the cell's kind keeps its zero value.
 */
module Cells {
  import opened Directions
  import opened Strconv
  import opened Expressions

  datatype CellKind = CellText | CellNumber | CellExpression | CellClone | CellError | CellEmpty

  /** Pending is the zero value. */
  datatype EvaluationState = Pending | InProgress | Done

  datatype Cell = Cell(
    kind: CellKind,
    evaluationState: EvaluationState,
    text: string,
    number: real,
    expression: Expr,
    direction: Direction,
    err: string,
    expressionOffset: Position)

  /** `Cell { kind: kind }`: every other field at its zero value (Up is the zero Direction). */
  function NewCell(kind: CellKind): (c: Cell)
    ensures c.kind == kind && c.evaluationState == Pending && c.direction != NoDirection
  {
    Cell(kind, Pending, "", 0.0, ZeroExpr, Up, "", Origin)
  }

  /** `Cell { kind: CellError, err: message }`. */
  function ErrorCell(message: string): (c: Cell)
    ensures c.kind == CellError && c.err == message && c.evaluationState == Pending
  {
    NewCell(CellError).(err := message)
  }

  /** The character that names a clone direction. */
  function DirectionChar(d: Direction): char
    requires d != NoDirection
  {
    match d
    case Up => '^'
    case Right => '>'
    case Down => 'v'
    case Left => '<'
  }

  /** parseDirection: only the first character decides. */
  function ParseDirection(text: string): (r: Conversion<Direction>)
    ensures r.Converted? <==> |text| > 0 && text[0] in "^>v<"
    ensures r.Converted? ==> r.value != NoDirection && DirectionChar(r.value) == text[0]
    ensures r.Failed? ==> r.value == NoDirection
    ensures text == [] ==> r == Failed(NoDirection, "No clone direction")
    ensures text != [] && r.Failed? ==> r.err == "Unvalid clone direction '" + text + "'"
  {
    if |text| == 0 then Failed(NoDirection, "No clone direction")
    else
      match text[0]
      case '^' => Converted(Up)
      case '>' => Converted(Right)
      case 'v' => Converted(Down)
      case '<' => Converted(Left)
      case _ => Failed(NoDirection, "Unvalid clone direction '" + text + "'")
  }

  /** A direction's character, followed by anything, parses back to that direction. */
  lemma ParseDirectionChar(d: Direction, tail: string)
    requires d != NoDirection
    ensures ParseDirection([DirectionChar(d)] + tail) == Converted(d)
  {
  }

  /** parseCell: classify the (already trimmed) text of one slot, in the source's order of
      priority: empty, `=` formula, `:` clone, number, text.  Every result starts Pending. */
  function ParseCell(text: string): (c: Cell)
    ensures c.evaluationState == Pending && c.expressionOffset == Origin
    ensures c.direction != NoDirection
    ensures c.kind == CellEmpty <==> text == []
    ensures c.kind == CellExpression <==> text != [] && text[0] == '=' && ParseExpression(text[1..]).Ok?
    ensures c.kind == CellExpression ==> ParseExpression(text[1..]) == Ok(c.expression, [])
    ensures c.kind == CellClone <==> text != [] && text[0] == ':' && ParseDirection(text[1..]).Converted?
    ensures c.kind == CellClone ==> ParseDirection(text[1..]) == Converted(c.direction)
    ensures c.kind == CellError <==>
              text != [] && ((text[0] == '=' && ParseExpression(text[1..]).Fail?)
                          || (text[0] == ':' && ParseDirection(text[1..]).Failed?))
    ensures c.kind == CellNumber <==>
              text != [] && text[0] != '=' && text[0] != ':' && ParseFloat(text).Converted?
    ensures c.kind == CellNumber ==> ParseFloat(text) == Converted(c.number)
    ensures c.kind == CellText <==>
              text != [] && text[0] != '=' && text[0] != ':' && ParseFloat(text).Failed?
    ensures c.kind == CellText ==> c.text == text
    ensures c.kind == CellError ==> c == ErrorCell(c.err)
    ensures c.kind == CellError && text[0] == '=' ==> c.err == ParseExpression(text[1..]).err
    ensures c.kind == CellError && text[0] == ':' ==> c.err == ParseDirection(text[1..]).err
  {
    if |text| == 0 then NewCell(CellEmpty)
    else if text[0] == '=' then
      var parsed := ParseExpression(text[1..]);
      if parsed.Fail? then ErrorCell(parsed.err)
      else NewCell(CellExpression).(expression := parsed.value)
    else if text[0] == ':' then
      var direction := ParseDirection(text[1..]);
      if direction.Failed? then ErrorCell(direction.err)
      else NewCell(CellClone).(direction := direction.value)
    else
      var number := ParseFloat(text);
      if number.Converted? then NewCell(CellNumber).(number := number.value)
      else NewCell(CellText).(text := text)
  }

  /** Cell.String for every kind but Clone, on which the source panics.  Numbers are printed
      with NumberText in place of fmt's %.6g. */
  function CellString(c: Cell): (s: string)
    requires c.kind != CellClone
    ensures c.kind == CellExpression && c.evaluationState != Done ==> s == "#ERROR#"
    ensures c.kind == CellError ==> s == "#" + c.err + "#"
    ensures c.kind == CellEmpty ==> s == ""
    ensures c.kind == CellText ==> s == c.text
  {
    match c.kind
    case CellText => c.text
    case CellNumber => NumberText(c.number)
    case CellExpression => if c.evaluationState == Done then NumberText(c.number) else "#ERROR#"
    case CellError => "#" + c.err + "#"
    case CellEmpty => ""
  }
}
