/** Concrete documents and what the parser makes of them: accepted
    documents with their trees, refused ones with the exact reason and
    offset. Each proof follows the cursor through the document. */
module Samples {
  import opened Ascii
  import opened JsonTypes
  import opened Cursor
  import opened Literals
  import opened Digits
  import opened Numbers
  import opened Strings
  import opened Unicode
  import opened StringSyntax
  import opened Values
  import opened Parser
  import opened NumberSyntax
  import opened Encoder

  const Strict: Options := Options(false, false)
  const Lax: Options := Options(false, true)

  /** `nall`: the second byte breaks the literal and is consumed. */
  lemma NullMismatch()
    ensures Parse([LowerN, 0x61, 0x6C, 0x6C], Strict) == Failure(Error(2, InvalidLiteral))
  {
    var data: seq<byte> := [LowerN, 0x61, 0x6C, 0x6C];
    assert SkipWhitespace(data, 0) == 0;
    assert MatchLiteral(data, 1, Ull) == Err(InvalidLiteral, 2);
    assert Dispatch(data, 0) == Err(InvalidLiteral, 2);
    assert SkipWhitespace(data, 2) == 2;
  }

  /** `fals ` with a space in place of the last letter: the space is
      consumed, then the parser stops at the end of the input. */
  lemma FalseMismatch()
    ensures Parse([LowerF, 0x61, 0x6C, 0x73, Space], Lax) == Failure(Error(5, InvalidLiteral))
  {
    var data: seq<byte> := [LowerF, 0x61, 0x6C, 0x73, Space];
    assert SkipWhitespace(data, 0) == 0;
    assert MatchLiteral(data, 4, Alse[3..]) == Err(InvalidLiteral, 5);
    assert MatchLiteral(data, 3, Alse[2..]) == Err(InvalidLiteral, 5);
    assert MatchLiteral(data, 2, Alse[1..]) == Err(InvalidLiteral, 5);
    assert MatchLiteral(data, 1, Alse) == Err(InvalidLiteral, 5);
    assert Dispatch(data, 0) == Err(InvalidLiteral, 5);
  }

  /** `-` alone: a digit must follow the minus. */
  lemma MinusAlone()
    ensures Parse([Minus], Lax) == Failure(Error(1, InvalidNumber))
  {
    var data: seq<byte> := [Minus];
    assert SkipWhitespace(data, 0) == 0;
    assert ParseNumber(data, 0) == Err(InvalidNumber, 1);
    assert Dispatch(data, 0) == Err(InvalidNumber, 1);
  }

  /** `24.`: a digit must follow the period. */
  lemma IncompleteFraction()
    ensures Parse([0x32, 0x34, Period], Lax) == Failure(Error(3, InvalidNumber))
  {
    var data: seq<byte> := [0x32, 0x34, Period];
    var s2 := ScanStart.(significand := 2);
    var s24 := ScanStart.(significand := 24);
    assert SkipWhitespace(data, 0) == 0;
    assert ScanNumber(data, 2, s24) == Err(InvalidNumber, 3);
    assert ScanNumber(data, 1, s2) == Err(InvalidNumber, 3);
    assert ScanNumber(data, 0, ScanStart) == Err(InvalidNumber, 3);
    assert Dispatch(data, 0) == Err(InvalidNumber, 3);
  }

  /** `24E2` is a double, the exact decimal 24 * 10^2. */
  lemma ExponentWithoutFraction()
    ensures Parse([0x32, 0x34, UpperE, 0x32], Lax) ==
              Success(Number(Double(Decimal(false, 24, 0, 0, 2, false))))
  {
    var data: seq<byte> := [0x32, 0x34, UpperE, 0x32];
    var n := Double(Decimal(false, 24, 0, 0, 2, false));
    var s2 := ScanStart.(significand := 2);
    var s24 := ScanStart.(significand := 24);
    var e0 := s24.(seenExponent := true);
    var e2 := e0.(exponent := 2);
    assert SkipWhitespace(data, 0) == 0;
    assert ScanNumber(data, 4, e2) == Ok(n, 4);
    assert ScanNumber(data, 3, e0) == Ok(n, 4);
    assert ScanExponentStart(data, 3, s24) == Ok(n, 4);
    assert ScanNumber(data, 2, s24) == Ok(n, 4);
    assert ScanNumber(data, 1, s2) == Ok(n, 4);
    assert ScanNumber(data, 0, ScanStart) == Ok(n, 4);
    assert Dispatch(data, 0) == Ok(Number(n), 4);
  }

  /** `-7`, accepted only when fragments are allowed. */
  lemma ScalarRoot()
    ensures Parse([Minus, 0x37], Lax) == Success(Number(Integer(-7)))
    ensures Parse([Minus, 0x37], Strict) == Failure(Error(2, FragmentedJson))
  {
    var data: seq<byte> := [Minus, 0x37];
    var s := ScanStart.(negative := true);
    assert SkipWhitespace(data, 0) == 0;
    assert ScanNumber(data, 2, s.(significand := 7)) == Ok(Integer(-7), 2);
    assert ScanNumber(data, 1, s) == Ok(Integer(-7), 2);
    assert Dispatch(data, 0) == Ok(Number(Integer(-7)), 2);
  }

  /** `[1 2]`: two elements without a comma. */
  lemma MissingComma()
    ensures Parse([ArrayOpen, 0x31, Space, 0x32, ArrayClose], Strict) == Failure(Error(3, ExpectedComma))
  {
    var data: seq<byte> := [ArrayOpen, 0x31, Space, 0x32, ArrayClose];
    var one := Number(Integer(1));
    assert SkipWhitespace(data, 0) == 0;
    assert SkipWhitespace(data, 1) == 1;
    assert ScanNumber(data, 2, ScanStart.(significand := 1)) == Ok(Integer(1), 2);
    assert ScanNumber(data, 1, ScanStart) == Ok(Integer(1), 2);
    assert Dispatch(data, 1) == Ok(one, 2);
    assert SkipWhitespace(data, 2) == 3;
    assert ParseValue(data, 1) == Ok(one, 3);
    assert SkipWhitespace(data, 3) == 3;
    assert ArrayItems(data, 3, [one], false) == Err(ExpectedComma, 3);
    assert ArrayItems(data, 1, [], false) == Err(ExpectedComma, 3);
    assert Dispatch(data, 0) == Err(ExpectedComma, 3);
  }

  /** `[1,,2]`: a second comma in a row. */
  lemma ExtraComma()
    ensures Parse([ArrayOpen, 0x31, Comma, Comma, 0x32, ArrayClose], Strict) == Failure(Error(3, InvalidSyntax))
  {
    var data: seq<byte> := [ArrayOpen, 0x31, Comma, Comma, 0x32, ArrayClose];
    var one := Number(Integer(1));
    assert SkipWhitespace(data, 0) == 0;
    assert SkipWhitespace(data, 1) == 1;
    assert ScanNumber(data, 2, ScanStart.(significand := 1)) == Ok(Integer(1), 2);
    assert ScanNumber(data, 1, ScanStart) == Ok(Integer(1), 2);
    assert Dispatch(data, 1) == Ok(one, 2);
    assert SkipWhitespace(data, 2) == 2;
    assert ParseValue(data, 1) == Ok(one, 2);
    assert SkipWhitespace(data, 3) == 3;
    assert ArrayItems(data, 3, [one], true) == Err(InvalidSyntax, 3);
    assert ArrayItems(data, 2, [one], false) == Err(InvalidSyntax, 3);
    assert [] + [one] == [one];
    assert ArrayItems(data, 1, [], false) == Err(InvalidSyntax, 3);
    assert Dispatch(data, 0) == Err(InvalidSyntax, 3);
  }

  /** `[1,]`: a comma right before the closing bracket. */
  lemma TrailingCommaRefused()
    ensures Parse([ArrayOpen, 0x31, Comma, ArrayClose], Strict) == Failure(Error(3, TrailingComma))
  {
    var data: seq<byte> := [ArrayOpen, 0x31, Comma, ArrayClose];
    var one := Number(Integer(1));
    assert SkipWhitespace(data, 0) == 0;
    assert SkipWhitespace(data, 1) == 1;
    assert ScanNumber(data, 2, ScanStart.(significand := 1)) == Ok(Integer(1), 2);
    assert ScanNumber(data, 1, ScanStart) == Ok(Integer(1), 2);
    assert Dispatch(data, 1) == Ok(one, 2);
    assert SkipWhitespace(data, 2) == 2;
    assert ParseValue(data, 1) == Ok(one, 2);
    assert SkipWhitespace(data, 3) == 3;
    assert ArrayItems(data, 3, [one], true) == Err(TrailingComma, 3);
    assert ArrayItems(data, 2, [one], false) == Err(TrailingComma, 3);
    assert [] + [one] == [one];
    assert ArrayItems(data, 1, [], false) == Err(TrailingComma, 3);
    assert Dispatch(data, 0) == Err(TrailingComma, 3);
  }

  /** `{,}`: the object loop skips commas without a check. */
  lemma ObjectCommaAccepted()
    ensures Parse([ObjectOpen, Comma, ObjectClose], Strict) == Success(Object([]))
  {
    var data: seq<byte> := [ObjectOpen, Comma, ObjectClose];
    assert SkipWhitespace(data, 0) == 0;
    assert SkipWhitespace(data, 1) == 1;
    assert SkipWhitespace(data, 2) == 2;
    assert ObjectMembers(data, 2, []) == Ok(Object([]), 3);
    assert ObjectMembers(data, 1, []) == Ok(Object([]), 3);
    assert Dispatch(data, 0) == Ok(Object([]), 3);
  }

  /** `[] x`: bytes after the root value. */
  lemma ExtraTokens()
    ensures Parse([ArrayOpen, ArrayClose, Space, 0x78], Strict) == Failure(Error(3, InvalidSyntax))
  {
    var data: seq<byte> := [ArrayOpen, ArrayClose, Space, 0x78];
    assert SkipWhitespace(data, 0) == 0;
    assert SkipWhitespace(data, 1) == 1;
    assert ArrayItems(data, 1, [], false) == Ok(Array([]), 2);
    assert Dispatch(data, 0) == Ok(Array([]), 2);
    assert SkipWhitespace(data, 3) == 3;
    assert SkipWhitespace(data, 2) == 3;
  }

  /** The shortest decimal literal of an integer. */
  function IntegerText(n: int): (t: NumberText)
    ensures WellFormed(t) && t.fraction.None? && t.exponent.None?
    ensures DigitsValue(t.integral) == Magnitude(n) && t.negative == (n < 0)
  {
    NumberText(n < 0, DecimalDigits(Magnitude(n)), None, None)
  }

  /** An integer literal outside the signed 64-bit range is refused at its
      end with `InvalidNumber` while its magnitude fits in 64 unsigned bits
      (so `9223372036854775808` is refused, while `-9223372036854775808`
      is `Int64Min`), and with `NumberOverflow` beyond that. */
  lemma OutOfRangeInteger(n: int, options: Options)
    requires n < Int64Min || Int64Max < n
    ensures var data := Render(IntegerText(n));
            Magnitude(n) <= UInt64Max ==> Parse(data, options) == Failure(Error(|data|, InvalidNumber))
    ensures var data := Render(IntegerText(n));
            Magnitude(n) > UInt64Max ==>
              Parse(data, options).Failure? && Parse(data, options).error.reason == NumberOverflow
  {
    hide Literal, ParseArray, ArrayItems, ParseObject, ObjectMembers, ParseString, SkipColon;
    var t := IntegerText(n);
    var data := Render(t);
    assert data[0..|data|] == data;
    ParseNumberText(data, 0, t);
    SkipWhitespaceUnique(data, 0, 0);
    SkipWhitespaceUnique(data, |data|, |data|);
    var r := ParseNumber(data, 0);
    assert Dispatch(data, 0) == Err(r.reason, r.pos);
  }

  /** `"\uD83D\uDE00"`, a surrogate pair in upper-case hex: the two units
      join into U+1F600, which is kept as its four UTF-8 bytes. */
  lemma UpperCasePair()
    ensures var data: seq<byte> := [Quote, Backslash, LowerU, 0x44, 0x38, 0x33, 0x44,
                                    Backslash, LowerU, 0x44, 0x45, 0x30, 0x30, Quote];
            ParseString(data, 0) == Ok([0xF0, 0x9F, 0x98, 0x80], 14)
  {
    var data: seq<byte> := [Quote, Backslash, LowerU, 0x44, 0x38, 0x33, 0x44,
                            Backslash, LowerU, 0x44, 0x45, 0x30, 0x30, Quote];
    UpperUnit(data, 3, 0x38, 0x33, 0x44);
    UpperUnit(data, 9, 0x45, 0x30, 0x30);
    PairBytes();
    hide HexRun, CodeUnit, Utf8Encode, JoinSurrogates, UnicodeScalar;
    PairEscape(data, 2, 0xD83D, 0xDE00);
    var bytes: seq<byte> := [0xF0, 0x9F, 0x98, 0x80];
    assert [] + bytes == bytes;
    assert StringBody(data, 1, []) == StringBody(data, 13, bytes);
    assert StringBody(data, 13, bytes) == Ok(bytes, 14);
  }

  /** U+D83D and U+DE00 join into U+1F600, written as four UTF-8 bytes. */
  lemma PairBytes()
    ensures JoinSurrogates(0xD83D, 0xDE00) == 0x1F600
    ensures Utf8Encode(0x1F600) == [0xF0, 0x9F, 0x98, 0x80]
  {
  }

  /** Four hex digits starting with an upper-case `D` read as one code
      unit. */
  lemma UpperUnit(data: seq<byte>, pos: nat, b1: byte, b2: byte, b3: byte)
    requires pos + 4 <= |data| && data[pos..pos + 4] == [0x44, b1, b2, b3]
    requires HexValue(b1) >= 0 && HexValue(b2) >= 0 && HexValue(b3) >= 0
    ensures CodeUnit(data, pos) == Ok(((13 * 16 + HexValue(b1)) * 16 + HexValue(b2)) * 16 + HexValue(b3), pos + 4)
  {
    assert data[pos] == 0x44 && data[pos + 1] == b1 && data[pos + 2] == b2 && data[pos + 3] == b3;
    HexRunOk(data, pos, 4, 0);
  }

  /** `"\uDC00"`: a trail surrogate on its own, in upper-case hex, is
      refused after its four digits. */
  lemma UpperCaseLoneTrail()
    ensures ParseString([Quote, Backslash, LowerU, 0x44, 0x43, 0x30, 0x30, Quote], 0) == Err(InvalidUnicode, 7)
  {
    var data: seq<byte> := [Quote, Backslash, LowerU, 0x44, 0x43, 0x30, 0x30, Quote];
    HexRunOk(data, 3, 4, 0);
    assert HexNumber(data, 3, 4, 0) == 0xDC00;
    LoneTrail(data, 3, 0xDC00);
  }
}
