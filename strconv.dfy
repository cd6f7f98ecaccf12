/**
 * Decimal conversions standing in for Go's strconv.ParseFloat, ParseInt and ParseUint (base 10,
 * 32 bits) and for the fmt verbs the core uses to print numbers.  Values are exact: a float is a
 * `real`, so ParseFloat accepts the decimal syntax (sign, digits, optional fraction, optional
 * exponent) and yields the exact decimal value.
 */
module Strconv {

  /** Go's (value, error) pair: a failed conversion still carries the value Go returns with it. */
  datatype Conversion<T> = Converted(value: T) | Failed(value: T, err: string)

  predicate IsDigit(c: char) { '0' <= c <= '9' }

  predicate AllDigits(s: string) { forall k :: 0 <= k < |s| ==> IsDigit(s[k]) }

  function DigitValue(c: char): (d: nat)
    requires IsDigit(c)
    ensures d < 10
  {
    (c as int) - ('0' as int)
  }

  function DigitChar(d: nat): (c: char)
    requires d < 10
    ensures IsDigit(c) && DigitValue(c) == d
  {
    (('0' as int) + d) as char
  }

  /** The value of a string of decimal digits, most significant first. */
  function DigitsValue(s: string): nat
    requires AllDigits(s)
  {
    if s == [] then 0 else DigitsValue(s[..|s| - 1]) * 10 + DigitValue(s[|s| - 1])
  }

  function Pow10(n: nat): (p: nat)
    ensures p >= 1
  {
    if n == 0 then 1 else 10 * Pow10(n - 1)
  }

  function Quote(s: string): string { "\"" + s + "\"" }

  function SyntaxError(func: string, s: string): string {
    "strconv." + func + ": parsing " + Quote(s) + ": invalid syntax"
  }

  function RangeError(func: string, s: string): string {
    "strconv." + func + ": parsing " + Quote(s) + ": value out of range"
  }

  /** 1 when `s` starts with a sign character, else 0. */
  function SignLength(s: string): (n: nat)
    ensures n <= |s|
  {
    if |s| > 0 && (s[0] == '+' || s[0] == '-') then 1 else 0
  }

  predicate IsIntegerSyntax(s: string) {
    |s| > SignLength(s) && AllDigits(s[SignLength(s)..])
  }

  function IntegerValue(s: string): int
    requires IsIntegerSyntax(s)
  {
    var v: int := DigitsValue(s[SignLength(s)..]);
    if s[0] == '-' then -v else v
  }

  const MinInt32: int := -0x8000_0000
  const MaxInt32: int := 0x7FFF_FFFF
  const MaxUint32: nat := 0xFFFF_FFFF

  /** The number of leading digits of `s`. */
  function DigitPrefix(s: string): (k: nat)
    ensures k <= |s| && AllDigits(s[..k])
    ensures k < |s| ==> !IsDigit(s[k])
  {
    if s == [] || !IsDigit(s[0]) then 0
    else
      var k := 1 + DigitPrefix(s[1..]);
      assert forall j :: 1 <= j < k ==> s[..k][j] == s[1..][..k - 1][j - 1];
      k
  }

  /** How the digit loop of strconv.ParseUint(s, 10, 32) ends. */
  datatype Scan = BadSyntax | Overflow | Value(n: nat)

  /** The digit loop runs left to right and stops at the first character that is not a digit
      (bad syntax) or at the first digit that takes the value past MaxUint32 (overflow), whichever
      it meets first; the empty text is bad syntax.  Since appending a digit never makes a value
      smaller, the loop overflows exactly when the leading digits, taken together, exceed
      MaxUint32. */
  function ScanUint32(s: string): (r: Scan)
    ensures r.Value? <==> s != [] && AllDigits(s) && DigitsValue(s) <= MaxUint32
    ensures r.Value? ==> r.n == DigitsValue(s)
  {
    var k := DigitPrefix(s);
    assert AllDigits(s) ==> s[..k] == s;
    if s == [] then BadSyntax
    else if DigitsValue(s[..k]) > MaxUint32 then Overflow
    else if k < |s| then BadSyntax
    else assert s[..k] == s; Value(DigitsValue(s))
  }

  /** strconv.ParseInt(s, 10, 32): an optional sign, then ParseUint's digit loop; a value beyond
      the 32-bit range yields the nearest bound with the range error. */
  function ParseInt32(s: string): (r: Conversion<int>)
    ensures r.Converted? <==> IsIntegerSyntax(s) && MinInt32 <= IntegerValue(s) <= MaxInt32
    ensures r.Converted? ==> r.value == IntegerValue(s)
  {
    if s == [] then Failed(0, SyntaxError("ParseInt", s))
    else
      var negative := s[0] == '-';
      match ScanUint32(s[SignLength(s)..])
      case BadSyntax => Failed(0, SyntaxError("ParseInt", s))
      case Overflow =>
        if negative then Failed(MinInt32, RangeError("ParseInt", s)) else Failed(MaxInt32, RangeError("ParseInt", s))
      case Value(n) =>
        var v: int := if negative then -(n as int) else n;
        if v < MinInt32 then Failed(MinInt32, RangeError("ParseInt", s))
        else if v > MaxInt32 then Failed(MaxInt32, RangeError("ParseInt", s))
        else Converted(v)
  }

  /** strconv.ParseUint(s, 10, 32): bad syntax yields 0, an overflow the maximum, each with its
      error. */
  function ParseUint32(s: string): (r: Conversion<nat>)
    ensures r.Converted? <==> s != [] && AllDigits(s) && DigitsValue(s) <= MaxUint32
    ensures r.Converted? ==> r.value == DigitsValue(s)
    ensures r.value <= MaxUint32
  {
    match ScanUint32(s)
    case BadSyntax => Failed(0, SyntaxError("ParseUint", s))
    case Overflow => Failed(MaxUint32, RangeError("ParseUint", s))
    case Value(n) => Converted(n)
  }

  /** A longer run of digits is worth at least as much. */
  lemma {:induction false} DigitsValueGrows(p: string, q: string)
    requires AllDigits(p + q)
    ensures AllDigits(p) && DigitsValue(p) <= DigitsValue(p + q)
    decreases |q|
  {
    assert forall k :: 0 <= k < |p| ==> p[k] == (p + q)[k];
    if q != [] {
      var shorter := q[..|q| - 1];
      assert (p + q)[..|p + q| - 1] == p + shorter;
      DigitsValueGrows(p, shorter);
      assert (p + q)[|p + q| - 1] == q[|q| - 1];
    } else {
      assert p + q == p;
    }
  }

  /** The leading digits run at least as far as any all-digit prefix. */
  lemma {:induction false} DigitPrefixCovers(s: string, n: nat)
    requires n <= |s| && AllDigits(s[..n])
    ensures DigitPrefix(s) >= n
  {
    if n > 0 {
      assert s[0] == s[..n][0];
      assert s[1..][..n - 1] == s[..n][1..];
      DigitPrefixCovers(s[1..], n - 1);
    }
  }

  /** Once the digits read so far exceed the maximum, the loop stops with the range error,
      whatever follows them: ParseUint reports the overflow, not a later bad character. */
  lemma OverflowComesFirst(digits: string, rest: string)
    requires digits != [] && AllDigits(digits) && DigitsValue(digits) > MaxUint32
    ensures ParseUint32(digits + rest) == Failed(MaxUint32, RangeError("ParseUint", digits + rest))
    ensures ParseInt32(digits + rest) == Failed(MaxInt32, RangeError("ParseInt", digits + rest))
  {
    var s := digits + rest;
    var k := DigitPrefix(s);
    assert s[..|digits|] == digits;
    DigitPrefixCovers(s, |digits|);
    assert s[..k] == digits + s[|digits|..k];
    DigitsValueGrows(digits, s[|digits|..k]);
    assert SignLength(s) == 0 && s[SignLength(s)..] == s;
  }

  /** Bad syntax before any overflow: a text that is no integer and whose leading digits stay
      within the maximum fails with the syntax error and 0. */
  lemma SyntaxBeforeOverflow(s: string)
    requires !(s != [] && AllDigits(s)) && DigitsValue(s[..DigitPrefix(s)]) <= MaxUint32
    ensures ParseUint32(s) == Failed(0, SyntaxError("ParseUint", s))
  {
  }

  /** The index of the exponent marker ('e' or 'E'), or |s| when there is none. */
  function ExponentIndex(s: string): (k: nat)
    ensures k <= |s|
    ensures k < |s| ==> s[k] == 'e' || s[k] == 'E'
    ensures forall j :: 0 <= j < k ==> s[j] != 'e' && s[j] != 'E'
  {
    if s == [] || s[0] == 'e' || s[0] == 'E' then 0 else 1 + ExponentIndex(s[1..])
  }

  function PointIndex(s: string): (k: nat)
    ensures k <= |s|
    ensures k < |s| ==> s[k] == '.'
  {
    if s == [] || s[0] == '.' then 0 else 1 + PointIndex(s[1..])
  }

  /** The unsigned part of a float text: before the exponent marker is the mantissa. */
  function Mantissa(s: string): string { var b := s[SignLength(s)..]; b[..ExponentIndex(b)] }
  function ExponentPart(s: string): string { var b := s[SignLength(s)..]; b[ExponentIndex(b)..] }
  function IntegerDigits(m: string): string { m[..PointIndex(m)] }
  function FractionDigits(m: string): string { if PointIndex(m) < |m| then m[PointIndex(m) + 1..] else [] }

  /** Decimal float syntax: [sign] digits [. digits] [(e|E) [sign] digits], with some digit in the mantissa. */
  predicate IsFloatSyntax(s: string) {
    var m := Mantissa(s);
    var e := ExponentPart(s);
    AllDigits(IntegerDigits(m)) && AllDigits(FractionDigits(m))
    && |IntegerDigits(m)| + |FractionDigits(m)| > 0
    && (e == [] || (|e| >= 2 && IsIntegerSyntax(e[1..])))
  }

  function FloatValue(s: string): real
    requires IsFloatSyntax(s)
  {
    var m := Mantissa(s);
    var frac := FractionDigits(m);
    var digits := IntegerDigits(m) + frac;
    assert AllDigits(digits);
    var magnitude := (DigitsValue(digits) as real) / (Pow10(|frac|) as real);
    var e := ExponentPart(s);
    var exponent := if e == [] then 0 else IntegerValue(e[1..]);
    var scaled := if exponent >= 0 then magnitude * (Pow10(exponent) as real)
                  else magnitude / (Pow10(-exponent) as real);
    if |s| > 0 && s[0] == '-' then -scaled else scaled
  }

  /** strconv.ParseFloat(s, 64) on decimal texts. */
  function ParseFloat(s: string): (r: Conversion<real>)
    ensures r.Converted? <==> IsFloatSyntax(s)
  {
    if IsFloatSyntax(s) then Converted(FloatValue(s)) else Failed(0.0, SyntaxError("ParseFloat", s))
  }

  /** The decimal digits of a natural number, without leading zeros. */
  function NatText(n: nat): (s: string)
    ensures |s| > 0 && AllDigits(s)
  {
    if n < 10 then [DigitChar(n)] else NatText(n / 10) + [DigitChar(n % 10)]
  }

  /** fmt's %d. */
  function IntText(i: int): string {
    if i < 0 then "-" + NatText(-i) else NatText(i)
  }

  /** Reading back the digits of a natural number gives the number. */
  lemma {:induction false} NatTextValue(n: nat)
    ensures DigitsValue(NatText(n)) == n
  {
    if n >= 10 {
      NatTextValue(n / 10);
      var s := NatText(n);
      assert s[..|s| - 1] == NatText(n / 10);
    }
  }

  /** Every integer printed with %d parses back with ParseInt. */
  lemma ParseIntText(i: int)
    requires MinInt32 <= i <= MaxInt32
    ensures ParseInt32(IntText(i)) == Converted(i)
  {
    var s := IntText(i);
    if i < 0 {
      assert s[SignLength(s)..] == NatText(-i);
      NatTextValue(-i);
    } else {
      assert s[SignLength(s)..] == NatText(i);
      NatTextValue(i);
    }
  }

  /** Six truncated fraction digits of a number in [0, 1), with trailing zeros dropped. */
  function FractionText(f: real): string
    requires 0.0 <= f < 1.0
  {
    var k := (f * 1000000.0).Floor;
    if k <= 0 then "" else "." + DropTrailingZeros(PadZeros(NatText(k), 6))
  }

  function PadZeros(s: string, width: nat): string
    decreases width - |s|
  {
    if |s| >= width then s else PadZeros("0" + s, width)
  }

  function DropTrailingZeros(s: string): string {
    if s != [] && s[|s| - 1] == '0' then DropTrailingZeros(s[..|s| - 1]) else s
  }

  /** The text of a number: its integer part and up to six truncated fraction digits
      (a stand-in for fmt's %.6g, which rounds to six significant digits). */
  function NumberText(x: real): string {
    var magnitude := if x < 0.0 then -x else x;
    var whole := magnitude.Floor;
    (if x < 0.0 then "-" else "") + NatText(whole) + FractionText(magnitude - whole as real)
  }
}
