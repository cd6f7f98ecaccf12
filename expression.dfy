/**
 * Formulas (src/expression.go): the expression tree, its shift by one step, the tokenizer and the
 * recursive-descent parser.  Every parse function returns what it built and the text it did not
 * consume, or an error message together with a remainder, as the source does.
 */
module Expressions {
  import opened Directions
  import opened Strings
  import opened Strconv

  /** A formula tree: `+` nodes over number and cell-reference leaves. */
  datatype Expr = Add(lhs: Expr, rhs: Expr) | Num(n: real) | Ref(row: int, column: int)

  /** Stands in for Go's zero Expression, held by cells that carry no formula. */
  const ZeroExpr: Expr := Num(0.0)

  function Size(e: Expr): (n: nat)
    ensures n >= 1
  {
    match e
    case Add(l, r) => 1 + Size(l) + Size(r)
    case _ => 1
  }

  /** Same tree and same number leaves; cell references may sit anywhere. */
  predicate SameShape(a: Expr, b: Expr) {
    match a
    case Add(l, r) => b.Add? && SameShape(l, b.lhs) && SameShape(r, b.rhs)
    case Num(n) => b == Num(n)
    case Ref(_, _) => b.Ref?
  }

  /** The cell references of a tree, left to right. */
  function Refs(e: Expr): seq<(int, int)> {
    match e
    case Add(l, r) => Refs(l) + Refs(r)
    case Num(_) => []
    case Ref(row, column) => [(row, column)]
  }

  /** Expression.Shift: every cell reference moves one step in direction `d`. */
  function Shift(e: Expr, d: Direction): (r: Expr)
    requires d != NoDirection
    ensures SameShape(e, r)
    ensures |Refs(r)| == |Refs(e)|
    ensures forall k :: 0 <= k < |Refs(e)| ==> Refs(r)[k] == Offset(d, Refs(e)[k].0, Refs(e)[k].1)
  {
    match e
    case Add(l, r) => Add(Shift(l, d), Shift(r, d))
    case Num(_) => e
    case Ref(row, column) => var p := Offset(d, row, column); Ref(p.0, p.1)
  }

  /** Shifting back in the reverse direction restores the tree. */
  lemma {:induction false} ShiftReverse(e: Expr, d: Direction)
    requires d != NoDirection
    ensures Shift(Shift(e, d), Reverse(d)) == e
  {
    match e
    case Add(l, r) => ShiftReverse(l, d); ShiftReverse(r, d);
    case Num(_) =>
    case Ref(row, column) => OffsetReverse(d, row, column);
  }

  datatype Token = TokenAdd | TokenNumber(number: real) | TokenCell(row: int, column: int) | TokenEmpty

  /** A parse result: the value and the unconsumed text, or an error and the text left with it. */
  datatype Parsed<T> = Ok(value: T, rest: string) | Fail(err: string, rest: string)

  predicate IsSuffix(r: string, s: string) {
    |r| <= |s| && s[|s| - |r|..] == r
  }

  lemma SuffixTransitive(a: string, b: string, c: string)
    requires IsSuffix(a, b) && IsSuffix(b, c)
    ensures IsSuffix(a, c)
  {
    assert c[|c| - |a|..] == c[|c| - |b|..][|b| - |a|..];
  }

  /** The text a parse consumed, given its remainder. */
  function Consumed(text: string, rest: string): string
    requires |rest| <= |text|
  {
    text[..|text| - |rest|]
  }

  /** Where a token that starts at 0 ends: the first blank at or after `i`, or the end of text. */
  function TokenEnd(text: string, i: nat): (j: nat)
    requires 1 <= i <= |text|
    ensures i <= j <= |text|
    ensures j == |text| || text[j] == ' '
    ensures forall k :: i <= k < j ==> text[k] != ' '
    decreases |text| - i
  {
    if i < |text| && text[i] != ' ' then TokenEnd(text, i + 1) else i
  }

  /** The letter of a column index 0..25. */
  function ColumnLetter(column: int): char
    requires 0 <= column < 26
  {
    (('A' as int) + column) as char
  }

  /** parseCellReference: a letter, then the digits up to the next blank, as a 1-based row. */
  function ParseCellReference(text: string): (r: Parsed<Token>)
    requires |text| > 0 && 'A' <= text[0] <= 'Z'
    ensures IsSuffix(r.rest, text)
    ensures r.Fail? ==> r.rest == text
    ensures r.Ok? ==> && r.value.TokenCell?
                      && 0 <= r.value.column < 26 && text[0] == ColumnLetter(r.value.column)
                      && var token := Consumed(text, r.rest);
                         |token| >= 1 && ' ' !in token
                         && (r.rest == [] || r.rest[0] == ' ')
                         && ParseInt32(token[1..]) == Converted(r.value.row + 1)
  {
    var column := (text[0] as int) - ('A' as int);
    var i := TokenEnd(text, 1);
    var row := ParseInt32(text[1..i]);
    if row.Failed? then Fail(row.err, text)
    else
      assert Consumed(text, text[i..]) == text[..i];
      Ok(TokenCell(row.value - 1, column), text[i..])
  }

  /** parseNumber: the characters up to the next blank, read as a float. */
  function ParseNumber(text: string): (r: Parsed<Token>)
    requires |text| > 0
    ensures IsSuffix(r.rest, text)
    ensures r.Fail? ==> r.rest == text
    ensures r.Ok? ==> && r.value.TokenNumber?
                      && var token := Consumed(text, r.rest);
                         |token| >= 1 && ' ' !in token
                         && (r.rest == [] || r.rest[0] == ' ')
                         && ParseFloat(token) == Converted(r.value.number)
  {
    var i := TokenEnd(text, 1);
    var number := ParseFloat(text[..i]);
    if number.Failed? then Fail(number.err, text)
    else
      assert Consumed(text, text[i..]) == text[..i];
      Ok(TokenNumber(number.value), text[i..])
  }

  /** nextToken: skip blanks, then `+`, a cell reference or a number. */
  function NextToken(text: string): (r: Parsed<Token>)
    ensures IsSuffix(r.rest, text)
    ensures r.Ok? && r.value == TokenEmpty <==> TrimLeftBlanks(text) == []
    ensures r.Ok? && r.value != TokenEmpty ==> |r.rest| < |text|
    ensures var t := TrimLeftBlanks(text);
            t != [] && t[0] == '+' ==> r == Ok(TokenAdd, t[1..])
    ensures r.Ok? && r.value.TokenCell? ==> 0 <= r.value.column < 26
  {
    var t := TrimLeftBlanks(text);
    assert IsSuffix(t, text);
    if t == [] then Ok(TokenEmpty, t)
    else
      var c := t[0];
      assert IsSuffix(t[1..], t);
      SuffixTransitive(t[1..], t, text);
      if c == '+' then Ok(TokenAdd, t[1..])
      else if 'A' <= c <= 'Z' then
        var r := ParseCellReference(t);
        SuffixTransitive(r.rest, t, text);
        r
      else if '0' <= c <= '9' then
        var r := ParseNumber(t);
        SuffixTransitive(r.rest, t, text);
        r
      else Fail("Unexpected char '" + [c] + "'", t[1..])
  }

  /** parseTerm: a number or a cell reference. */
  function ParseTerm(text: string): (r: Parsed<Expr>)
    ensures IsSuffix(r.rest, text)
    ensures r.Ok? ==> (r.value.Num? || r.value.Ref?) && |r.rest| < |text|
    ensures var t := TrimLeftBlanks(text);
            && (t == [] ==> r == Fail("Expected value, got nothing instead", []))
            && (t != [] && t[0] == '+' ==> r == Fail("Unexpected '+', expected value", t[1..]))
  {
    var token := NextToken(text);
    if token.Fail? then Fail(token.err, token.rest)
    else
      match token.value
      case TokenNumber(n) => Ok(Num(n), token.rest)
      case TokenCell(row, column) => Ok(Ref(row, column), token.rest)
      case TokenAdd => Fail("Unexpected '+', expected value", token.rest)
      case TokenEmpty => Fail("Expected value, got nothing instead", token.rest)
  }

  /** A tree in which no `+` node has a `+` node as its left operand: `+` groups to the right. */
  predicate RightLeaning(e: Expr) {
    match e
    case Add(l, r) => !l.Add? && RightLeaning(r)
    case _ => true
  }

  /** The message for a value where an operator was expected. */
  function UnexpectedValue(token: Token): string
    requires token.TokenNumber? || (token.TokenCell? && 0 <= token.column < 26)
  {
    if token.TokenNumber? then "Unexpected '" + NumberText(token.number) + "', expected operator"
    else "Unexpected '" + [ColumnLetter(token.column)] + IntText(token.row + 1) + "', expected operator"
  }

  /** parseExpression: a term followed by the operator loop; on success nothing is left over. */
  function ParseExpression(text: string): (r: Parsed<Expr>)
    ensures IsSuffix(r.rest, text)
    ensures r.Ok? ==> r.rest == [] && RightLeaning(r.value)
    decreases |text|, 2
  {
    var term := ParseTerm(text);
    if term.Fail? then term
    else ParseOperators(term.value, term.rest)
  }

  /** The loop of parseExpression after its first term: an operator or the end of the text. */
  function ParseOperators(result: Expr, text: string): (r: Parsed<Expr>)
    ensures IsSuffix(r.rest, text)
    ensures r.Ok? ==> && r.rest == []
                      && (r.value == result || (r.value.Add? && r.value.lhs == result && RightLeaning(r.value.rhs)))
    decreases |text|, 1
  {
    var token := NextToken(text);
    if token.Fail? then Fail(token.err, token.rest)
    else
      match token.value
      case TokenEmpty => Ok(result, token.rest)
      case TokenAdd =>
        var operation := ParseOperation(result, token.rest);
        if operation.Fail? then operation
        else
          // the remainder is empty, so the loop's next round ends it
          assert ParseOperators(operation.value, operation.rest) == Ok(operation.value, []);
          ParseOperators(operation.value, operation.rest)
      case TokenNumber(_) => Fail(UnexpectedValue(token.value), token.rest)
      case TokenCell(_, _) => Fail(UnexpectedValue(token.value), token.rest)
  }

  /** parseOperation: `lhs +` followed by a whole expression as the right operand. */
  function ParseOperation(lhs: Expr, text: string): (r: Parsed<Expr>)
    ensures IsSuffix(r.rest, text)
    ensures r.Ok? ==> r.rest == [] && r.value.Add? && r.value.lhs == lhs && RightLeaning(r.value.rhs)
    decreases |text|, 3
  {
    var rhs := ParseExpression(text);
    if rhs.Fail? then rhs
    else Ok(Add(lhs, rhs.value), rhs.rest)
  }

  /** A value right after a value is an error: an operator was expected there. */
  lemma ValueAfterValue(text: string)
    requires ParseTerm(text).Ok?
    requires var next := NextToken(ParseTerm(text).rest);
             next.Ok? && (next.value.TokenNumber? || next.value.TokenCell?)
    ensures var next := NextToken(ParseTerm(text).rest);
            ParseExpression(text) == Fail(UnexpectedValue(next.value), next.rest)
  {
  }

  /** A token runs to the next blank, so in "A1+B1" the row of A is "1+B1", which is no number. */
  lemma UnspacedSumFails()
    ensures ParseExpression("A1+B1").Fail?
  {
    var text := "A1+B1";
    assert LeadingBlanks(text) == 0;
    assert TokenEnd(text, 4) == 5;
    assert TokenEnd(text, 3) == 5;
    assert TokenEnd(text, 2) == 5;
    assert TokenEnd(text, 1) == 5;
    assert text[1..5] == "1+B1";
    assert !IsDigit("1+B1"[1]);
    assert ParseCellReference(text).Fail?;
  }

  /** A term, `+`, and then a whole expression: the term is the left operand and everything
      after the `+` is the right one, so `a + b + c` is `a + (b + c)`. */
  lemma PlusGroupsRight(text: string)
    requires ParseTerm(text).Ok?
    requires NextToken(ParseTerm(text).rest) == Ok(TokenAdd, NextToken(ParseTerm(text).rest).rest)
    requires ParseExpression(NextToken(ParseTerm(text).rest).rest).Ok?
    ensures var rhs := ParseExpression(NextToken(ParseTerm(text).rest).rest);
            ParseExpression(text) == Ok(Add(ParseTerm(text).value, rhs.value), [])
  {
    var term := ParseTerm(text);
    var operator := NextToken(term.rest);
    var rhs := ParseExpression(operator.rest);
    var sum := Add(term.value, rhs.value);
    assert ParseOperation(term.value, operator.rest) == Ok(sum, rhs.rest);
    EndOfInput(sum, rhs.rest);
    assert ParseOperators(term.value, term.rest) == Ok(sum, []);
  }

  /** At the end of the input the operator loop stops with what it has. */
  lemma EndOfInput(result: Expr, text: string)
    requires text == []
    ensures ParseOperators(result, text) == Ok(result, [])
  {
    assert TrimLeftBlanks(text) == [];
  }
}
