/** Bytes and the ASCII classes the parser switches on. */
module Ascii {

  /** One UTF-8 code unit of the input buffer. */
  type byte = x: int | 0 <= x < 256

  const Tab: byte := 0x09
  const LineFeed: byte := 0x0A
  const FormFeed: byte := 0x0C
  const CarriageReturn: byte := 0x0D
  const Space: byte := 0x20
  const Backspace: byte := 0x08

  const Quote: byte := 0x22        // "
  const Plus: byte := 0x2B         // +
  const Comma: byte := 0x2C        // ,
  const Minus: byte := 0x2D        // -
  const Period: byte := 0x2E       // .
  const Slash: byte := 0x2F        // /
  const Zero: byte := 0x30         // 0
  const Nine: byte := 0x39         // 9
  const Colon: byte := 0x3A        // :
  const UpperE: byte := 0x45       // E
  const ArrayOpen: byte := 0x5B    // [
  const Backslash: byte := 0x5C    // \
  const ArrayClose: byte := 0x5D   // ]
  const LowerB: byte := 0x62       // b
  const LowerE: byte := 0x65       // e
  const LowerF: byte := 0x66       // f
  const LowerN: byte := 0x6E       // n
  const LowerR: byte := 0x72       // r
  const LowerT: byte := 0x74       // t
  const LowerU: byte := 0x75       // u
  const ObjectOpen: byte := 0x7B   // {
  const ObjectClose: byte := 0x7D  // }

  /** The rest of each literal once its first letter has been consumed. */
  const Alse: seq<byte> := [0x61, 0x6C, 0x73, 0x65]   // "alse"
  const Rue: seq<byte> := [0x72, 0x75, 0x65]          // "rue"
  const Ull: seq<byte> := [0x75, 0x6C, 0x6C]          // "ull"

  /** Space, tab, CR, LF and (unlike RFC 8259) form feed. Takes an `int` so
      that the end-of-input marker, which is no byte, can be classified too. */
  predicate IsWhitespace(c: int) {
    c == Space || c == Tab || c == CarriageReturn || c == LineFeed || c == FormFeed
  }

  predicate IsDigit(c: int) {
    Zero <= c <= Nine
  }

  /** Value of a hexadecimal digit of either case, or -1 for any other byte. */
  function HexValue(c: int): (v: int)
    ensures -1 <= v < 16
    ensures v == -1 <==> !(IsDigit(c) || 0x61 <= c <= 0x66 || 0x41 <= c <= 0x46)
    ensures IsDigit(c) ==> v == c - Zero
    ensures 0x61 <= c <= 0x66 ==> v == 10 + (c - 0x61)
    ensures 0x41 <= c <= 0x46 ==> v == 10 + (c - 0x41)
  {
    if IsDigit(c) then c - 48
    else if 0x61 <= c <= 0x66 then c - 87
    else if 0x41 <= c <= 0x46 then c - 55
    else -1
  }

  /** The lower-case hexadecimal digit for a nibble. */
  function HexDigit(v: nat): (c: byte)
    requires v < 16
    ensures HexValue(c) == v
  {
    if v < 10 then 48 + v else 87 + v
  }
}
