/** The number scanner and the integer classification of the number
    builder. */
module Numbers {
  import opened Ascii
  import opened JsonTypes
  import opened Cursor
  import opened Digits

  /** The scanner's state between two bytes: the sign, which parts have
      begun, and the three overflow-checked accumulators. */
  datatype Scan = Scan(
    negative: bool,
    seenDecimal: bool,
    seenExponent: bool,
    significand: nat,
    mantissa: nat,
    fractionDigits: nat,
    exponent: nat,
    negativeExponent: bool)

  /** The bytes that may end a number: `,` `}` `]` and the five whitespace
      bytes. */
  predicate IsNumberDelimiter(c: int) {
    c == Comma || c == ObjectClose || c == ArrayClose || c == Space ||
    c == LineFeed || c == FormFeed || c == Tab || c == CarriageReturn
  }

  /** The accumulator the next digit goes to. */
  function Field(s: Scan): nat {
    if s.seenExponent then s.exponent
    else if s.seenDecimal then s.mantissa
    else s.significand
  }

  /** Stores a new value of the current accumulator; a fraction digit also
      counts towards the divisor. */
  function Accumulate(s: Scan, v: nat): (t: Scan)
    ensures Field(t) == v
    ensures t.negative == s.negative && t.seenDecimal == s.seenDecimal && t.seenExponent == s.seenExponent
    ensures t.negativeExponent == s.negativeExponent
    ensures t.fractionDigits == s.fractionDigits + (if s.seenDecimal && !s.seenExponent then 1 else 0)
    ensures !s.seenExponent ==> t.exponent == s.exponent
    ensures s.seenExponent || !s.seenDecimal ==> t.mantissa == s.mantissa
    ensures s.seenExponent || s.seenDecimal ==> t.significand == s.significand
  {
    if s.seenExponent then s.(exponent := v)
    else if s.seenDecimal then s.(mantissa := v, fractionDigits := s.fractionDigits + 1)
    else s.(significand := v)
  }

  /** `acc * 10 + d` in unsigned 64-bit arithmetic with both steps checked:
      an overflowing multiplication fails before the digit is consumed, an
      overflowing addition after it. */
  function PushDigit(acc: nat, d: nat, pos: nat): (r: Res<nat>)
    requires d < 10
    ensures r.Ok? <==> acc * 10 + d <= UInt64Max
    ensures r.Ok? ==> r.value == acc * 10 + d && r.pos == pos + 1
    ensures r.Err? ==> r.reason == NumberOverflow
    ensures r.Err? ==> (r.pos == pos <==> acc * 10 > UInt64Max) && pos <= r.pos <= pos + 1
  {
    if acc * 10 > UInt64Max then Err(NumberOverflow, pos)
    else if acc * 10 + d > UInt64Max then Err(NumberOverflow, pos + 1)
    else Ok(acc * 10 + d, pos + 1)
  }

  /** The signed value of a literal without fraction or exponent. */
  function SignedSignificand(s: Scan): int {
    if s.negative then -(s.significand as int) else s.significand
  }

  /** The record for a literal with a fraction or an exponent. */
  function DecimalOf(s: Scan): Decimal {
    Decimal(s.negative, s.significand, s.mantissa, s.fractionDigits, s.exponent, s.negativeExponent)
  }

  /** A fraction or exponent always gives a double; otherwise the literal is
      an integer exactly when its signed value fits in 64 bits. */
  function ConstructNumber(s: Scan): (r: Option<Number>)
    ensures s.seenDecimal || s.seenExponent ==> r == Some(Double(DecimalOf(s)))
    ensures !(s.seenDecimal || s.seenExponent) ==>
              (r.Some? <==> Int64Min <= SignedSignificand(s) <= Int64Max)
    ensures !(s.seenDecimal || s.seenExponent) && r.Some? ==>
              r.value.Integer? && r.value.i == SignedSignificand(s)
  {
    if s.seenDecimal || s.seenExponent then Some(Double(DecimalOf(s)))
    else if !s.negative && s.significand <= Int64Max then Some(Integer(s.significand))
    else if s.negative && s.significand == Int64Max + 1 then Some(Integer(Int64Min))
    else if s.negative && s.significand <= Int64Max then Some(Integer(-(s.significand as int)))
    else None
  }

  /** After `e` or `E`: an optional sign, then a digit is required. */
  function ScanExponentStart(data: seq<byte>, pos: nat, s: Scan): (r: Res<Number>)
    requires pos <= |data|
    requires !s.seenExponent
    ensures pos <= r.pos <= |data|
    ensures var p := if Peek(data, pos) == Minus || Peek(data, pos) == Plus then pos + 1 else pos;
            !IsDigit(Peek(data, p)) ==> r == Err(InvalidNumber, p)
    ensures r.Ok? ==> r.pos == |data| || IsNumberDelimiter(data[r.pos])
    ensures r.Err? ==> r.reason == InvalidNumber || r.reason == NumberOverflow
    decreases |data| - pos + 1, 0
  {
    var negativeExponent := Peek(data, pos) == Minus;
    var p := if negativeExponent || Peek(data, pos) == Plus then pos + 1 else pos;
    if IsDigit(Peek(data, p)) then
      ScanNumber(data, p, s.(seenExponent := true, negativeExponent := negativeExponent))
    else Err(InvalidNumber, p)
  }

  /** The scanning loop: one byte per step until a delimiter or the end. */
  function ScanNumber(data: seq<byte>, pos: nat, s: Scan): (r: Res<Number>)
    requires pos <= |data|
    ensures pos <= r.pos <= |data|
    ensures r.Ok? ==> r.pos == |data| || IsNumberDelimiter(data[r.pos])
    ensures r.Err? ==> r.reason == InvalidNumber || r.reason == NumberOverflow
    ensures Peek(data, pos) == Period && (s.seenDecimal || s.seenExponent) ==> r == Err(InvalidNumber, pos)
    ensures Peek(data, pos) == Period && !s.seenDecimal && !s.seenExponent && !IsDigit(Peek(data, pos + 1)) ==>
              r == Err(InvalidNumber, pos + 1)
    ensures (Peek(data, pos) == UpperE || Peek(data, pos) == LowerE) && s.seenExponent ==> r == Err(InvalidNumber, pos)
    ensures var c := Peek(data, pos);
            pos < |data| && !IsDigit(c) && c != Period && c != UpperE && c != LowerE && !IsNumberDelimiter(c) ==>
              r == Err(InvalidNumber, pos)
    decreases |data| - pos, 1
  {
    var c := Peek(data, pos);
    if IsDigit(c) then
      match PushDigit(Field(s), c - Zero, pos)
      case Err(e, p) => Err(e, p)
      case Ok(v, p) => ScanNumber(data, p, Accumulate(s, v))
    else if c == Period && !s.seenExponent && !s.seenDecimal then
      if IsDigit(Peek(data, pos + 1)) then ScanNumber(data, pos + 1, s.(seenDecimal := true))
      else Err(InvalidNumber, pos + 1)
    else if (c == UpperE || c == LowerE) && !s.seenExponent then
      ScanExponentStart(data, pos + 1, s)
    else if pos == |data| || IsNumberDelimiter(c) then
      match ConstructNumber(s)
      case Some(n) => Ok(n, pos)
      case None => Err(InvalidNumber, pos)
    else Err(InvalidNumber, pos)
  }

  const ScanStart: Scan := Scan(false, false, false, 0, 0, 0, 0, false)

  /** An optional minus, then at least one digit, then the scanning loop. */
  function ParseNumber(data: seq<byte>, pos: nat): (r: Res<Number>)
    requires pos < |data| && (data[pos] == Minus || IsDigit(data[pos]))
    ensures pos <= r.pos <= |data|
    ensures r.Ok? ==> pos < r.pos && (r.pos == |data| || IsNumberDelimiter(data[r.pos]))
    ensures r.Err? ==> r.reason == InvalidNumber || r.reason == NumberOverflow
    ensures var p := if data[pos] == Minus then pos + 1 else pos;
            !IsDigit(Peek(data, p)) ==> r == Err(InvalidNumber, p)
  {
    var negative := data[pos] == Minus;
    var p := if negative then pos + 1 else pos;
    if !IsDigit(Peek(data, p)) then Err(InvalidNumber, p)
    else ScanNumber(data, p, ScanStart.(negative := negative))
  }
}
