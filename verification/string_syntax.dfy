/** A reference encoder for string literals and the proofs that the string
    scanner reads back what it writes, together with the exact failures of
    malformed escapes. */
module StringSyntax {
  import opened Ascii
  import opened JsonTypes
  import opened Cursor
  import opened Unicode
  import opened Strings

  /** Four lower-case hex digits for a UTF-16 code unit. */
  function HexText(u: nat): (w: seq<byte>)
    requires u < 0x10000
    ensures |w| == 4
  {
    [HexDigit(u / 4096), HexDigit(u / 256 % 16), HexDigit(u / 16 % 16), HexDigit(u % 16)]
  }

  lemma HexSplit(u: nat)
    requires u < 0x10000
    ensures ((u / 4096 * 16 + u / 256 % 16) * 16 + u / 16 % 16) * 16 + u % 16 == u
  {
    var q := u / 16;
    var q2 := q / 16;
    assert q * 16 + u % 16 == u;
    assert q2 * 16 + q % 16 == q;
    assert (q2 / 16) * 16 + q2 % 16 == q2;
    assert u / 256 == q2;
    assert u / 4096 == q2 / 16;
  }

  /** Four hex digits written by `HexText` read back as the code unit. */
  lemma CodeUnitOfHex(data: seq<byte>, pos: nat, u: nat)
    requires u < 0x10000 && At(data, pos, HexText(u))
    ensures CodeUnit(data, pos) == Ok(u, pos + 4)
  {
    var w := HexText(u);
    assert forall i :: pos <= i < pos + 4 ==> data[i] == w[i - pos];
    var d0, d1, d2, d3 := u / 4096, u / 256 % 16, u / 16 % 16, u % 16;
    assert HexValue(data[pos]) == d0 && HexValue(data[pos + 1]) == d1;
    assert HexValue(data[pos + 2]) == d2 && HexValue(data[pos + 3]) == d3;
    HexRunOk(data, pos, 4, 0);
    assert HexNumber(data, pos, 4, 0) == ((d0 * 16 + d1) * 16 + d2) * 16 + d3;
    HexSplit(u);
  }

  /** The reader fails with `InvalidEscape` just after the first byte that
      is no hex digit, and with `EndOfStream` at the end when the input
      stops early; every byte before the failure is a hex digit. */
  lemma {:induction false} HexRunErr(data: seq<byte>, pos: nat, n: nat, acc: nat)
    requires pos <= |data|
    requires HexRun(data, pos, n, acc).Err?
    ensures var r := HexRun(data, pos, n, acc);
            && (r.reason == InvalidEscape ==>
                  pos < r.pos <= pos + n && HexDigitsAt(data, pos, r.pos - 1 - pos) &&
                  HexValue(data[r.pos - 1]) < 0)
            && (r.reason == EndOfStream ==>
                  r.pos == |data| < pos + n && HexDigitsAt(data, pos, |data| - pos))
    decreases n
  {
    if pos < |data| && HexValue(data[pos]) >= 0 {
      HexRunErr(data, pos + 1, n - 1, acc * 16 + HexValue(data[pos]));
    }
  }

  /** The text of a `\u` escape after its backslash: one code unit for a
      scalar of the basic plane, a surrogate pair otherwise. */
  function UnicodeEscapeText(c: int): (w: seq<byte>)
    requires IsScalar(c)
    ensures |w| == if c < 0x10000 then 5 else 11
  {
    if c < 0x10000 then [LowerU] + HexText(c)
    else [LowerU] + HexText(LeadOf(c)) + [Backslash, LowerU] + HexText(TrailOf(c))
  }

  /** Read after the `u`, a scalar comes back exactly when its code units
      are written there, with hex digits of either case, and the cursor
      then stands just past them. */
  lemma UnicodeScalarExactly(data: seq<byte>, pos: nat, c: int, q: nat)
    requires pos <= |data|
    ensures UnicodeScalar(data, pos) == Ok(c, q) <==> UnitsAt(data, pos, c) && q == pos + UnitsLength(c)
  {
    if UnitsAt(data, pos, c) && c >= 0x10000 {
      JoinSplit(c);
    }
  }

  /** The lower-case text an encoder writes for a scalar is one spelling of
      its code units. */
  lemma EscapeTextUnits(data: seq<byte>, pos: nat, c: int)
    requires IsScalar(c) && At(data, pos, UnicodeEscapeText(c))
    ensures pos < |data| && data[pos] == LowerU && UnitsAt(data, pos + 1, c)
  {
    if c < 0x10000 {
      AtSplit(data, pos, [LowerU], HexText(c));
      AtHead(data, pos, [LowerU]);
      CodeUnitOfHex(data, pos + 1, c);
    } else {
      var hi, lo := LeadOf(c), TrailOf(c);
      var u := [LowerU] + HexText(hi);
      AtSplit(data, pos, u + [Backslash, LowerU], HexText(lo));
      AtSplit(data, pos, u, [Backslash, LowerU]);
      AtSplit(data, pos, [LowerU], HexText(hi));
      AtHead(data, pos, [LowerU]);
      AtHead(data, pos + 5, [Backslash, LowerU]);
      AtHead(data, pos + 6, [LowerU]);
      CodeUnitOfHex(data, pos + 1, hi);
      CodeUnitOfHex(data, pos + 7, lo);
    }
  }

  /** A `\u` escape contributes the UTF-8 bytes of scalar `c` exactly when
      the code units of `c` follow the `u`, in either case of hex digits. */
  lemma EscapeOfScalar(data: seq<byte>, pos: nat, c: int)
    requires IsScalar(c) && pos < |data| && data[pos] == LowerU
    ensures Escape(data, pos) == Ok(Utf8Encode(c), pos + 1 + UnitsLength(c)) <==> UnitsAt(data, pos + 1, c)
  {
    if UnitsAt(data, pos + 1, c) {
      UnicodeScalarExactly(data, pos + 1, c, pos + 1 + UnitsLength(c));
    }
    var r := UnicodeScalar(data, pos + 1);
    if r.Ok? && Utf8Encode(r.value) == Utf8Encode(c) {
      Utf8RoundTrip(c);
      Utf8RoundTrip(r.value);
    }
  }

  /** A basic-plane scalar: `u` and one code unit that is no surrogate. */
  lemma BasicEscape(data: seq<byte>, pos: nat, c: int)
    requires pos < |data| && data[pos] == LowerU
    requires CodeUnit(data, pos + 1) == Ok(c, pos + 5) && IsScalar(c)
    ensures Escape(data, pos) == Ok(Utf8Encode(c), pos + 5)
  {
  }

  /** A supplementary scalar: `u`, a lead unit, `\u` and a trail unit join
      into one scalar, whatever the case of their hex digits. */
  lemma PairEscape(data: seq<byte>, pos: nat, hi: int, lo: int)
    requires IsLeadSurrogate(hi) && IsTrailSurrogate(lo)
    requires pos + 7 <= |data| && data[pos] == LowerU && data[pos + 5] == Backslash && data[pos + 6] == LowerU
    requires CodeUnit(data, pos + 1) == Ok(hi, pos + 5) && CodeUnit(data, pos + 7) == Ok(lo, pos + 11)
    ensures Escape(data, pos) == Ok(Utf8Encode(JoinSurrogates(hi, lo)), pos + 11)
  {
  }

  /** A lead surrogate that is not followed by a backslash is refused just
      after the byte that follows it, and reported as the end of the
      stream when nothing follows. */
  lemma LeadWithoutEscape(data: seq<byte>, pos: nat, hi: int)
    requires pos <= |data| && CodeUnit(data, pos) == Ok(hi, pos + 4) && IsLeadSurrogate(hi)
    requires pos + 4 == |data| || data[pos + 4] != Backslash
    ensures pos + 4 == |data| ==> UnicodeScalar(data, pos) == Err(EndOfStream, pos + 4)
    ensures pos + 4 < |data| ==> UnicodeScalar(data, pos) == Err(InvalidUnicode, pos + 5)
  {
  }

  /** A lead surrogate followed by a backslash and then no `u` is refused
      just after the byte that follows the backslash, and reported as the
      end of the stream when nothing follows it. */
  lemma LeadBackslashNotU(data: seq<byte>, pos: nat, hi: int)
    requires pos <= |data| && CodeUnit(data, pos) == Ok(hi, pos + 4) && IsLeadSurrogate(hi)
    requires pos + 4 < |data| && data[pos + 4] == Backslash
    requires pos + 5 == |data| || data[pos + 5] != LowerU
    ensures pos + 5 == |data| ==> UnicodeScalar(data, pos) == Err(EndOfStream, pos + 5)
    ensures pos + 5 < |data| ==> UnicodeScalar(data, pos) == Err(InvalidUnicode, pos + 6)
  {
  }

  /** A lead surrogate followed by `\u` and malformed hex digits fails as
      the reading of those digits does. */
  lemma LeadBadTrailDigits(data: seq<byte>, pos: nat, hi: int)
    requires pos <= |data| && CodeUnit(data, pos) == Ok(hi, pos + 4) && IsLeadSurrogate(hi)
    requires pos + 6 <= |data| && data[pos + 4] == Backslash && data[pos + 5] == LowerU
    requires CodeUnit(data, pos + 6).Err?
    ensures UnicodeScalar(data, pos) == Err(CodeUnit(data, pos + 6).reason, CodeUnit(data, pos + 6).pos)
  {
  }

  /** A lead surrogate followed by `\u` and a code unit that is no trail
      surrogate is refused after that code unit. */
  lemma LeadWithoutTrail(data: seq<byte>, pos: nat, hi: int, lo: int)
    requires pos <= |data| && CodeUnit(data, pos) == Ok(hi, pos + 4) && IsLeadSurrogate(hi)
    requires pos + 6 <= |data| && data[pos + 4] == Backslash && data[pos + 5] == LowerU
    requires CodeUnit(data, pos + 6) == Ok(lo, pos + 10) && !IsTrailSurrogate(lo)
    ensures UnicodeScalar(data, pos) == Err(InvalidUnicode, pos + 10)
  {
  }

  /** A trail surrogate on its own is refused after its four digits. */
  lemma LoneTrail(data: seq<byte>, pos: nat, lo: int)
    requires pos <= |data| && CodeUnit(data, pos) == Ok(lo, pos + 4) && IsTrailSurrogate(lo)
    ensures UnicodeScalar(data, pos) == Err(InvalidUnicode, pos + 4)
  {
  }

  /** Any escape letter outside `r t n b " / \ u` is refused just after
      it. */
  lemma EscapeRefused(data: seq<byte>, pos: nat)
    requires pos < |data| && data[pos] != LowerU
    requires data[pos] !in {LowerR, LowerT, LowerN, LowerB, Quote, Slash, Backslash}
    ensures Escape(data, pos) == Err(InvalidEscape, pos + 1)
  {
  }

  /** The escape letter for the bytes that have a one-letter escape. */
  function EscapeLetter(b: byte): (r: Option<byte>)
    ensures r.Some? ==> ShortEscape(r.value) == Some(b)
  {
    if b == CarriageReturn then Some(LowerR)
    else if b == Tab then Some(LowerT)
    else if b == LineFeed then Some(LowerN)
    else if b == Backspace then Some(LowerB)
    else if b == Quote || b == Backslash then Some(b)
    else None
  }

  /** How an encoder writes one byte inside a string literal: the quote,
      the backslash and the control bytes with a short escape are escaped,
      every other byte is written as it is. */
  function EscapeByte(b: byte): (w: seq<byte>)
    ensures 1 <= |w| <= 2
  {
    match EscapeLetter(b)
    case Some(l) => [Backslash, l]
    case None => [b]
  }

  function EscapeText(s: seq<byte>): seq<byte>
    decreases |s|
  {
    if |s| == 0 then [] else EscapeByte(s[0]) + EscapeText(s[1..])
  }

  /** A complete string literal. */
  function StringText(s: seq<byte>): seq<byte> {
    [Quote] + EscapeText(s) + [Quote]
  }

  /** One encoded byte is scanned back as that byte. */
  lemma BodyStep(data: seq<byte>, pos: nat, acc: seq<byte>, b: byte)
    requires At(data, pos, EscapeByte(b))
    ensures StringBody(data, pos, acc) ==
              StringBody(data, pos + |EscapeByte(b)|, acc + [b])
  {
    AtHead(data, pos, EscapeByte(b));
    if EscapeLetter(b).Some? {
      AtHead(data, pos + 1, EscapeByte(b)[1..]);
    }
  }

  /** The scanner reads an encoded body back, up to and past the closing
      quote. */
  lemma {:induction false} BodyOfEscaped(data: seq<byte>, pos: nat, acc: seq<byte>, s: seq<byte>)
    requires At(data, pos, EscapeText(s) + [Quote])
    ensures StringBody(data, pos, acc) == Ok(acc + s, pos + |EscapeText(s)| + 1)
    decreases |s|, 1
  {
    if |s| == 0 {
      assert EscapeText(s) + [Quote] == [Quote] && acc + s == acc;
      AtHead(data, pos, [Quote]);
    } else {
      BodyOfEscapedStep(data, pos, acc, s);
    }
  }

  /** The first encoded byte, then the rest of the body. */
  lemma {:induction false} BodyOfEscapedStep(data: seq<byte>, pos: nat, acc: seq<byte>, s: seq<byte>)
    requires |s| > 0 && At(data, pos, EscapeText(s) + [Quote])
    ensures StringBody(data, pos, acc) == Ok(acc + s, pos + |EscapeText(s)| + 1)
    decreases |s|, 0
  {
    hide StringBody, Escape;
    var head, tail := EscapeByte(s[0]), EscapeText(s[1..]) + [Quote];
    assert EscapeText(s) + [Quote] == head + tail;
    AtSplit(data, pos, head, tail);
    BodyStep(data, pos, acc, s[0]);
    BodyOfEscaped(data, pos + |head|, acc + [s[0]], s[1..]);
    assert acc + [s[0]] + s[1..] == acc + s;
  }

  /** Every byte sequence, NUL bytes and control bytes included, survives
      encoding and scanning unchanged. */
  lemma ParseStringText(data: seq<byte>, pos: nat, s: seq<byte>)
    requires At(data, pos, StringText(s))
    ensures pos < |data| && data[pos] == Quote
    ensures ParseString(data, pos) == Ok(s, pos + |StringText(s)|)
  {
    assert StringText(s) == [Quote] + (EscapeText(s) + [Quote]);
    AtSplit(data, pos, [Quote], EscapeText(s) + [Quote]);
    AtHead(data, pos, [Quote]);
    BodyOfEscaped(data, pos + 1, [], s);
    assert [] + s == s;
  }

  /** A `\u` escape inside a string, in either case of hex digits,
      contributes the UTF-8 bytes of its scalar. */
  lemma BodyUnicodeStep(data: seq<byte>, pos: nat, acc: seq<byte>, c: int)
    requires pos + 1 < |data| && data[pos] == Backslash && data[pos + 1] == LowerU
    requires UnitsAt(data, pos + 2, c)
    ensures StringBody(data, pos, acc) ==
              StringBody(data, pos + 2 + UnitsLength(c), acc + Utf8Encode(c))
  {
    EscapeOfScalar(data, pos + 1, c);
  }

  /** Without a quote or a backslash ahead, the scanner runs into the end
      of the input. */
  lemma {:induction false} UnterminatedString(data: seq<byte>, pos: nat, acc: seq<byte>)
    requires pos <= |data|
    requires forall i :: pos <= i < |data| ==> data[i] != Quote && data[i] != Backslash
    ensures StringBody(data, pos, acc) == Err(EndOfStream, |data|)
    decreases |data| - pos
  {
    if pos < |data| {
      UnterminatedString(data, pos + 1, acc + [data[pos]]);
    }
  }

  /** A string can only end at a quote byte of the input. */
  lemma NoQuoteNoString(data: seq<byte>, pos: nat, acc: seq<byte>)
    requires pos <= |data|
    requires forall i :: pos <= i < |data| ==> data[i] != Quote
    ensures StringBody(data, pos, acc).Err?
  {
  }
}
