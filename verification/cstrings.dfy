/** The conversion of the decoded string buffer into text as the source
    writes it: the buffer is NUL-terminated and read back as a C string,
    so the text ends at the first NUL byte it contains. */
module CStrings {
  import opened Ascii
  import opened JsonTypes
  import opened Cursor
  import opened Unicode
  import opened Strings
  import opened StringSyntax

  /** The bytes of the buffer before its first NUL. */
  function CStringText(buf: seq<byte>): (t: seq<byte>)
    ensures |t| <= |buf| && t == buf[..|t|]
    ensures |t| < |buf| ==> buf[|t|] == 0
    ensures forall i :: 0 <= i < |t| ==> t[i] != 0
    decreases |buf|
  {
    if |buf| == 0 || buf[0] == 0 then [] else [buf[0]] + CStringText(buf[1..])
  }

  /** Without a NUL byte the conversion keeps the whole buffer. */
  lemma CStringTextNulFree(buf: seq<byte>)
    requires forall i :: 0 <= i < |buf| ==> buf[i] != 0
    ensures CStringText(buf) == buf
  {
  }

  /** With a NUL byte the conversion loses everything from it on. */
  lemma CStringTextLoses(buf: seq<byte>, k: nat)
    requires k < |buf| && buf[k] == 0
    ensures |CStringText(buf)| <= k && CStringText(buf) != buf
  {
  }

  /** `"a\u0000b"`: the scanner decodes the three bytes `a`, NUL, `b`, and
      the conversion turns them into the one-byte text `a`. */
  lemma NulEscapeTruncates()
    ensures var data: seq<byte> := [Quote, 0x61, Backslash, LowerU, Zero, Zero, Zero, Zero, 0x62, Quote];
            ParseString(data, 0) == Ok([0x61, 0, 0x62], |data|)
    ensures CStringText([0x61, 0, 0x62]) == [0x61]
  {
    var data: seq<byte> := [Quote, 0x61, Backslash, LowerU, Zero, Zero, Zero, Zero, 0x62, Quote];
    assert HexText(0) == [Zero, Zero, Zero, Zero];
    assert At(data, 3, UnicodeEscapeText(0)) by {
      assert data[3..8] == UnicodeEscapeText(0);
    }
    EscapeTextUnits(data, 3, 0);
    BodyUnicodeStep(data, 2, [0x61], 0);
    assert Utf8Encode(0) == [0];
    assert [0x61] + Utf8Encode(0) == [0x61, 0];
    assert StringBody(data, 9, [0x61, 0, 0x62]) == Ok([0x61, 0, 0x62], 10);
    assert [0x61, 0] + [data[8]] == [0x61, 0, 0x62];
    assert StringBody(data, 8, [0x61, 0]) == Ok([0x61, 0, 0x62], 10);
    assert [] + [data[1]] == [0x61];
    assert StringBody(data, 1, []) == StringBody(data, 2, [0x61]);
    assert StringBody(data, 2, [0x61]) == Ok([0x61, 0, 0x62], 10);
    var buf: seq<byte> := [0x61, 0, 0x62];
    assert buf[1..] == [0, 0x62];
    assert CStringText(buf) == [0x61] + CStringText(buf[1..]);
  }
}
