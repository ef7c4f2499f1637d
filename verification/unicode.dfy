/** Unicode scalar values: joining UTF-16 surrogate pairs (section 2.2 of
    RFC 2781) and encoding scalars as UTF-8 (section 3 of RFC 3629). */
module Unicode {
  import opened Ascii
  import opened JsonTypes

  predicate IsLeadSurrogate(u: int) {
    0xD800 <= u <= 0xDBFF
  }

  predicate IsTrailSurrogate(u: int) {
    0xDC00 <= u <= 0xDFFF
  }

  /** A code point that is not a surrogate. */
  predicate IsScalar(c: int) {
    0 <= c <= 0x10FFFF && !(0xD800 <= c <= 0xDFFF)
  }

  /** The scalar a lead and a trail surrogate stand for together. */
  function JoinSurrogates(hi: int, lo: int): (c: int)
    requires IsLeadSurrogate(hi) && IsTrailSurrogate(lo)
    ensures 0x10000 <= c <= 0x10FFFF && IsScalar(c)
  {
    0x10000 + (hi - 0xD800) * 0x400 + (lo - 0xDC00)
  }

  /** The lead surrogate of a supplementary scalar. */
  function LeadOf(c: int): (hi: int)
    requires 0x10000 <= c <= 0x10FFFF
    ensures IsLeadSurrogate(hi)
  {
    0xD800 + (c - 0x10000) / 0x400
  }

  /** The trail surrogate of a supplementary scalar. */
  function TrailOf(c: int): (lo: int)
    requires 0x10000 <= c <= 0x10FFFF
    ensures IsTrailSurrogate(lo)
  {
    0xDC00 + (c - 0x10000) % 0x400
  }

  /** Splitting a supplementary scalar into surrogates and joining them
      again gives it back. */
  lemma JoinSplit(c: int)
    requires 0x10000 <= c <= 0x10FFFF
    ensures JoinSurrogates(LeadOf(c), TrailOf(c)) == c
  {
  }

  /** Joining is injective: the surrogates are recovered from the scalar. */
  lemma SplitJoin(hi: int, lo: int)
    requires IsLeadSurrogate(hi) && IsTrailSurrogate(lo)
    ensures LeadOf(JoinSurrogates(hi, lo)) == hi && TrailOf(JoinSurrogates(hi, lo)) == lo
  {
    var k := (hi - 0xD800) * 0x400 + (lo - 0xDC00);
    assert k / 0x400 == hi - 0xD800 && k % 0x400 == lo - 0xDC00 by {
      DivModUnique(k, 0x400, hi - 0xD800, lo - 0xDC00);
    }
  }

  /** Euclidean division is determined by the quotient-remainder split. */
  lemma DivModUnique(k: int, d: int, q: int, r: int)
    requires 0 < d && 0 <= r < d && k == q * d + r
    ensures k / d == q && k % d == r
  {
    var q', r' := k / d, k % d;
    assert (q - q') * d == r' - r;
    if q > q' {
      MulAtLeast(q - q', d);
    } else if q < q' {
      MulAtLeast(q' - q, d);
    }
  }

  lemma MulAtLeast(a: int, d: int)
    requires a >= 1 && d > 0
    ensures a * d >= d
  {
  }

  /** A continuation byte carrying six bits. */
  function Continuation(bits: int): byte
    requires 0 <= bits < 64
  {
    0x80 + bits
  }

  predicate IsContinuation(b: byte) {
    0x80 <= b <= 0xBF
  }

  /** The UTF-8 form of a scalar: one to four bytes, the lead byte
      announcing the length. */
  function Utf8Encode(c: int): (bs: seq<byte>)
    requires IsScalar(c)
    ensures 1 <= |bs| <= 4
    ensures |bs| == (if c < 0x80 then 1 else if c < 0x800 then 2 else if c < 0x10000 then 3 else 4)
  {
    if c < 0x80 then [c]
    else if c < 0x800 then [0xC0 + c / 64, Continuation(c % 64)]
    else if c < 0x10000 then [0xE0 + c / 4096, Continuation(c / 64 % 64), Continuation(c % 64)]
    else [0xF0 + c / 262144, Continuation(c / 4096 % 64), Continuation(c / 64 % 64), Continuation(c % 64)]
  }

  /** A reference decoder for one UTF-8 sequence, with the checks of
      section 4 of RFC 3629: lead byte ranges, continuation bytes, shortest
      form and no surrogates. */
  function Utf8Decode(bs: seq<byte>): (r: Option<int>)
    ensures r.Some? ==> IsScalar(r.value)
  {
    if |bs| == 1 && bs[0] < 0x80 then Some(bs[0])
    else if |bs| == 2 && 0xC2 <= bs[0] <= 0xDF && IsContinuation(bs[1]) then
      Some((bs[0] as int - 0xC0) * 64 + (bs[1] as int - 0x80))
    else if |bs| == 3 && 0xE0 <= bs[0] <= 0xEF && IsContinuation(bs[1]) && IsContinuation(bs[2]) then
      var c := (bs[0] as int - 0xE0) * 4096 + (bs[1] as int - 0x80) * 64 + (bs[2] as int - 0x80);
      if 0x800 <= c && IsScalar(c) then Some(c) else None
    else if |bs| == 4 && 0xF0 <= bs[0] <= 0xF4 && IsContinuation(bs[1]) && IsContinuation(bs[2])
            && IsContinuation(bs[3]) then
      var c := (bs[0] as int - 0xF0) * 262144 + (bs[1] as int - 0x80) * 4096 + (bs[2] as int - 0x80) * 64 + (bs[3] as int - 0x80);
      if 0x10000 <= c <= 0x10FFFF then Some(c) else None
    else None
  }

  /** Decoding an encoded scalar gives it back. */
  lemma Utf8RoundTrip(c: int)
    requires IsScalar(c)
    ensures Utf8Decode(Utf8Encode(c)) == Some(c)
  {
    if c < 0x80 {
    } else if c < 0x800 {
      DivModUnique(c, 64, c / 64, c % 64);
    } else if c < 0x10000 {
      Split3(c);
    } else {
      Split4(c);
    }
  }

  lemma Split3(c: int)
    requires 0x800 <= c < 0x10000
    ensures (c / 4096) * 4096 + (c / 64 % 64) * 64 + c % 64 == c
  {
    var q := c / 64;
    assert q * 64 + c % 64 == c;
    assert (q / 64) * 64 + q % 64 == q;
    assert c / 4096 == q / 64;
  }

  lemma Split4(c: int)
    requires 0x10000 <= c <= 0x10FFFF
    ensures (c / 262144) * 262144 + (c / 4096 % 64) * 4096 + (c / 64 % 64) * 64 + c % 64 == c
  {
    var q := c / 64;
    var q2 := q / 64;
    assert q * 64 + c % 64 == c;
    assert q2 * 64 + q % 64 == q;
    assert (q2 / 64) * 64 + q2 % 64 == q2;
    assert c / 4096 == q2;
    assert c / 262144 == q2 / 64;
  }

  /** Every valid UTF-8 sequence is the encoding of the scalar it decodes
      to: the encoder produces exactly the well-formed sequences. */
  lemma Utf8EncodeDecoded(bs: seq<byte>)
    requires Utf8Decode(bs).Some?
    ensures Utf8Encode(Utf8Decode(bs).value) == bs
  {
    var c := Utf8Decode(bs).value;
    if |bs| == 2 {
      DivModUnique(c, 64, bs[0] as int - 0xC0, bs[1] as int - 0x80);
    } else if |bs| == 3 {
      var b0, b1, b2 := bs[0] as int - 0xE0, bs[1] as int - 0x80, bs[2] as int - 0x80;
      var q := b0 * 64 + b1;
      DivModUnique(c, 64, q, b2);
      DivModUnique(q, 64, b0, b1);
      DivModUnique(c, 4096, b0, b1 * 64 + b2);
    } else if |bs| == 4 {
      var b0, b1, b2, b3 := bs[0] as int - 0xF0, bs[1] as int - 0x80, bs[2] as int - 0x80, bs[3] as int - 0x80;
      var q2 := b0 * 64 + b1;
      var q := q2 * 64 + b2;
      DivModUnique(c, 64, q, b3);
      DivModUnique(q, 64, q2, b2);
      DivModUnique(q2, 64, b0, b1);
      DivModUnique(c, 4096, q2, b2 * 64 + b3);
      DivModUnique(c, 262144, b0, b1 * 4096 + b2 * 64 + b3);
    }
  }
}
