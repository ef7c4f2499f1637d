/** The parser's public and internal types: options, failure reasons, the
    offset-tagged error, numbers, and the document tree the construction
    callbacks build. */
module JsonTypes {
  import opened Ascii

  const Int64Max: int := 0x7FFF_FFFF_FFFF_FFFF
  const Int64Min: int := -0x8000_0000_0000_0000
  const UInt64Max: int := 0xFFFF_FFFF_FFFF_FFFF

  type int64 = x: int | Int64Min <= x <= Int64Max

  /** The two flags of the option set. */
  datatype Options = Options(skipNull: bool, allowFragments: bool)

  /** Every way a parse can fail. */
  datatype Reason =
    | EndOfStream
    | EmptyStream
    | TrailingComma
    | ExpectedComma
    | ExpectedColon
    | InvalidEscape
    | InvalidSyntax
    | InvalidNumber
    | NumberOverflow
    | InvalidLiteral
    | InvalidUnicode
    | FragmentedJson

  /** A failure as the caller sees it: the reason and the cursor offset at
      the moment the reason was caught. */
  datatype Error = Error(byteOffset: nat, reason: Reason)

  /** An exact record of a literal with a fraction or an exponent, in place
      of the IEEE double the source computes from it: the value is
      (-1 if negative) * (significand + mantissa / 10^fractionDigits)
      * 10^(-exponent if negativeExponent else exponent). */
  datatype Decimal = Decimal(
    negative: bool,
    significand: nat,
    mantissa: nat,
    fractionDigits: nat,
    exponent: nat,
    negativeExponent: bool)

  datatype Number = Integer(i: int64) | Double(decimal: Decimal)

  /** The document tree built when every construction callback is the
      corresponding constructor. Strings are explicit-length byte strings;
      object members keep source order and duplicates. */
  datatype Json =
    | Null
    | Bool(b: bool)
    | String(s: seq<byte>)
    | Array(elements: seq<Json>)
    | Object(members: seq<(seq<byte>, Json)>)
    | Number(n: Number)

  datatype Option<T> = None | Some(value: T)

  /** An internal step: a value and the cursor after it, or a bare reason
      and the cursor at the point it was raised. */
  datatype Res<T> = Ok(value: T, pos: nat) | Err(reason: Reason, pos: nat)

  /** What the public entry point returns. */
  datatype ParseResult = Success(value: Json) | Failure(error: Error)

  function Pow10(n: nat): (p: nat)
    ensures p >= 1
  {
    if n == 0 then 1 else 10 * Pow10(n - 1)
  }

  /** The exact rational value a `Decimal` record denotes. */
  function DecimalValue(d: Decimal): real {
    var magnitude := d.significand as real + d.mantissa as real / Pow10(d.fractionDigits) as real;
    var signed := if d.negative then -magnitude else magnitude;
    if d.negativeExponent then signed / Pow10(d.exponent) as real
    else signed * Pow10(d.exponent) as real
  }
}
