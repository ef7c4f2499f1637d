/** The string scanner: short escapes, `\uXXXX` escapes with surrogate
    pairs, and the byte accumulation up to the closing quote. */
module Strings {
  import opened Ascii
  import opened JsonTypes
  import opened Cursor
  import opened Unicode

  /** Reads `n` hexadecimal digits into `acc`, four bits each, most
      significant first. A byte that is no hex digit fails just after it. */
  function HexRun(data: seq<byte>, pos: nat, n: nat, acc: nat): (r: Res<nat>)
    requires pos <= |data|
    ensures pos <= r.pos <= |data|
    ensures r.Err? ==> r.reason == EndOfStream || r.reason == InvalidEscape
    decreases n
  {
    if n == 0 then Ok(acc, pos)
    else
      match Pop(data, pos)
      case Err(e, p) => Err(e, p)
      case Ok(c, p) =>
        if HexValue(c) < 0 then Err(InvalidEscape, p)
        else HexRun(data, p, n - 1, acc * 16 + HexValue(c))
  }

  /** One UTF-16 code unit written as four hex digits. */
  function CodeUnit(data: seq<byte>, pos: nat): (r: Res<nat>)
    requires pos <= |data|
    ensures pos <= r.pos <= |data|
    ensures r.Ok? ==> r.pos == pos + 4 && r.value < 0x10000
    ensures r.Err? ==> r.reason == EndOfStream || r.reason == InvalidEscape
  {
    HexRunOk(data, pos, 4, 0);
    HexRun(data, pos, 4, 0)
  }

  /** Every one of the next `n` bytes exists and is a hex digit. */
  predicate HexDigitsAt(data: seq<byte>, pos: nat, n: nat) {
    pos + n <= |data| && forall i :: pos <= i < pos + n ==> HexValue(data[i]) >= 0
  }

  /** The value of `n` hex digits read most significant first. */
  function HexNumber(data: seq<byte>, pos: nat, n: nat, acc: nat): nat
    requires HexDigitsAt(data, pos, n)
    decreases n
  {
    if n == 0 then acc else HexNumber(data, pos + 1, n - 1, acc * 16 + HexValue(data[pos]))
  }

  lemma {:induction false} HexNumberBound(data: seq<byte>, pos: nat, n: nat, acc: nat)
    requires HexDigitsAt(data, pos, n)
    ensures HexNumber(data, pos, n, acc) < (acc + 1) * Pow16(n)
    decreases n
  {
    if n > 0 {
      var a := acc * 16 + HexValue(data[pos]);
      var q := Pow16(n - 1);
      HexNumberBound(data, pos + 1, n - 1, a);
      MulMonotone(a + 1, (acc + 1) * 16, q);
      assert (acc + 1) * 16 * q == (acc + 1) * (16 * q);
    }
  }

  lemma MulMonotone(x: nat, y: nat, q: nat)
    requires x <= y
    ensures x * q <= y * q
  {
  }

  function Pow16(n: nat): (p: nat)
    ensures p >= 1
  {
    if n == 0 then 1 else 16 * Pow16(n - 1)
  }

  /** The reader succeeds exactly when `n` hex digits follow, and then it
      yields their value just past them. */
  lemma {:induction false} HexRunOk(data: seq<byte>, pos: nat, n: nat, acc: nat)
    requires pos <= |data|
    ensures HexRun(data, pos, n, acc).Ok? <==> HexDigitsAt(data, pos, n)
    ensures HexRun(data, pos, n, acc).Ok? ==>
              HexRun(data, pos, n, acc).pos == pos + n &&
              HexRun(data, pos, n, acc).value == HexNumber(data, pos, n, acc) &&
              HexRun(data, pos, n, acc).value < (acc + 1) * Pow16(n)
    decreases n
  {
    if n > 0 && pos < |data| && HexValue(data[pos]) >= 0 {
      HexRunOk(data, pos + 1, n - 1, acc * 16 + HexValue(data[pos]));
    }
    if HexDigitsAt(data, pos, n) {
      HexNumberBound(data, pos, n, acc);
    }
  }

  /** How many bytes the code units of scalar `c` take after the `u`: one
      unit, or a lead unit, `\u` and a trail unit. */
  function UnitsLength(c: int): nat {
    if c < 0x10000 then 4 else 10
  }

  /** The code units of scalar `c` are written at `pos`, with hex digits of
      either case: its own unit in the basic plane, otherwise its lead unit,
      `\u` and its trail unit. */
  predicate UnitsAt(data: seq<byte>, pos: nat, c: int) {
    && IsScalar(c) && pos <= |data|
    && if c < 0x10000 then CodeUnit(data, pos) == Ok(c, pos + 4)
       else
         && CodeUnit(data, pos) == Ok(LeadOf(c), pos + 4)
         && pos + 6 <= |data| && data[pos + 4] == Backslash && data[pos + 5] == LowerU
         && CodeUnit(data, pos + 6) == Ok(TrailOf(c), pos + 10)
  }

  /** The scalar behind a `\u` escape, after the `u`. A lead surrogate must
      be followed at once by `\u` and a trail surrogate; a lone trail
      surrogate is refused. */
  function UnicodeScalar(data: seq<byte>, pos: nat): (r: Res<int>)
    requires pos <= |data|
    ensures pos <= r.pos <= |data|
    ensures r.Ok? ==> IsScalar(r.value)
    ensures r.Ok? ==> UnitsAt(data, pos, r.value) && r.pos == pos + UnitsLength(r.value)
    ensures r.Err? ==> r.reason in {EndOfStream, InvalidEscape, InvalidUnicode}
  {
    match CodeUnit(data, pos)
    case Err(e, p) => Err(e, p)
    case Ok(u, p) =>
      if IsLeadSurrogate(u) then
        match Pop(data, p)
        case Err(e, p1) => Err(e, p1)
        case Ok(c1, p1) =>
          if c1 != Backslash then Err(InvalidUnicode, p1)
          else
            match Pop(data, p1)
            case Err(e, p2) => Err(e, p2)
            case Ok(c2, p2) =>
              if c2 != LowerU then Err(InvalidUnicode, p2)
              else
                match CodeUnit(data, p2)
                case Err(e, p3) => Err(e, p3)
                case Ok(lo, p3) =>
                  if IsTrailSurrogate(lo) then SplitJoin(u, lo); Ok(JoinSurrogates(u, lo), p3)
                  else Err(InvalidUnicode, p3)
      else if IsTrailSurrogate(u) then Err(InvalidUnicode, p)
      else Ok(u, p)
  }

  /** The byte a one-letter escape stands for; `\f` is not among them. */
  function ShortEscape(c: byte): (r: Option<byte>)
    ensures r.Some? <==> c in {LowerR, LowerT, LowerN, LowerB, Quote, Slash, Backslash}
  {
    if c == LowerR then Some(CarriageReturn)
    else if c == LowerT then Some(Tab)
    else if c == LowerN then Some(LineFeed)
    else if c == LowerB then Some(Backspace)
    else if c == Quote || c == Slash || c == Backslash then Some(c)
    else None
  }

  /** The bytes an escape contributes, after its backslash. */
  function Escape(data: seq<byte>, pos: nat): (r: Res<seq<byte>>)
    requires pos <= |data|
    ensures pos <= r.pos <= |data|
    ensures r.Ok? ==> pos < r.pos
    ensures r.Err? ==> r.reason in {EndOfStream, InvalidEscape, InvalidUnicode}
  {
    match Pop(data, pos)
    case Err(e, p) => Err(e, p)
    case Ok(c, p) =>
      if c == LowerU then
        match UnicodeScalar(data, p)
        case Err(e, q) => Err(e, q)
        case Ok(u, q) => Ok(Utf8Encode(u), q)
      else
        match ShortEscape(c)
        case Some(b) => Ok([b], p)
        case None => Err(InvalidEscape, p)
  }

  /** The string body up to the unescaped closing quote, appended to `acc`;
      every other byte, control bytes included, is kept as it is. */
  function StringBody(data: seq<byte>, pos: nat, acc: seq<byte>): (r: Res<seq<byte>>)
    requires pos <= |data|
    ensures pos < r.pos <= |data| || (r.Err? && pos == r.pos == |data|)
    ensures r.Ok? ==> data[r.pos - 1] == Quote
    ensures r.Err? ==> r.reason in {EndOfStream, InvalidEscape, InvalidUnicode}
    decreases |data| - pos
  {
    match Pop(data, pos)
    case Err(e, p) => Err(e, p)
    case Ok(c, p) =>
      if c == Backslash then
        match Escape(data, p)
        case Err(e, q) => Err(e, q)
        case Ok(bs, q) => StringBody(data, q, acc + bs)
      else if c == Quote then Ok(acc, p)
      else StringBody(data, p, acc + [c])
  }

  /** The string value after its opening quote; the decoded bytes are kept
      with their explicit length. */
  function ParseString(data: seq<byte>, pos: nat): (r: Res<seq<byte>>)
    requires pos < |data| && data[pos] == Quote
    ensures pos < r.pos <= |data|
    ensures r.Ok? ==> pos + 2 <= r.pos && data[r.pos - 1] == Quote
    ensures r.Err? ==> r.reason in {EndOfStream, InvalidEscape, InvalidUnicode}
  {
    StringBody(data, pos + 1, [])
  }
}
