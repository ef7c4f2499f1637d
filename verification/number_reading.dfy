/** The converse of the number grammar: whatever the scanner accepts is a
    well-formed literal of the grammar, ending exactly where the scan
    ended, and the number returned is what that literal means. Together
    with `NumberSyntax.ParseNumberText` this pins the scanner down on every
    input. */
module NumberReading {
  import opened Ascii
  import opened JsonTypes
  import opened Cursor
  import opened Digits
  import opened Numbers
  import opened NumberSyntax

  /** The end of the longest run of digits that starts at `p`. */
  function RunEnd(data: seq<byte>, p: nat): (q: nat)
    requires p <= |data|
    ensures p <= q <= |data| && DigitsIn(data, p, q)
    ensures q == |data| || !IsDigit(data[q])
    decreases |data| - p
  {
    if p < |data| && IsDigit(data[p]) then RunEnd(data, p + 1) else p
  }

  /** The positions of a literal read greedily at `pos`: after the optional
      minus, after the integral run, after the optional fraction, and the
      start of the exponent digits when there is a marker at `c`. */
  function SignEnd(data: seq<byte>, pos: nat): (a: nat)
    requires pos <= |data|
    ensures pos <= a <= |data|
  {
    if Peek(data, pos) == Minus then pos + 1 else pos
  }

  function IntegralEnd(data: seq<byte>, pos: nat): (b: nat)
    requires pos <= |data|
    ensures SignEnd(data, pos) <= b <= |data|
  {
    RunEnd(data, SignEnd(data, pos))
  }

  function FractionEnd(data: seq<byte>, pos: nat): (c: nat)
    requires pos <= |data|
    ensures IntegralEnd(data, pos) <= c <= |data|
  {
    var b := IntegralEnd(data, pos);
    if Peek(data, b) == Period then RunEnd(data, b + 1) else b
  }

  predicate IsMarker(c: int) {
    c == UpperE || c == LowerE
  }

  function ExponentDigitsAt(data: seq<byte>, c: nat): (d: nat)
    requires c < |data|
    ensures c + 1 <= d <= |data|
  {
    if Peek(data, c + 1) == Minus || Peek(data, c + 1) == Plus then c + 2 else c + 1
  }

  /** Where the greedy literal at `pos` ends. */
  function TextEnd(data: seq<byte>, pos: nat): (e: nat)
    requires pos <= |data|
    ensures FractionEnd(data, pos) <= e <= |data|
  {
    var c := FractionEnd(data, pos);
    if IsMarker(Peek(data, c)) then RunEnd(data, ExponentDigitsAt(data, c)) else c
  }

  /** The exponent part whose marker is at `c`: the marker, the optional
      sign and the longest run of digits after them. */
  function ExponentAt(data: seq<byte>, c: nat): ExponentText
    requires c < |data|
  {
    var d := ExponentDigitsAt(data, c);
    ExponentText(data[c], if d == c + 2 then Some(data[c + 1]) else None, data[d..RunEnd(data, d)])
  }

  /** The literal read greedily at `pos`: an optional minus, the longest
      run of digits, a `.` with the longest run after it, and an exponent
      part. A part may come out empty, and the literal is then not well
      formed. */
  function TextAt(data: seq<byte>, pos: nat): NumberText
    requires pos <= |data|
  {
    var a := SignEnd(data, pos);
    var b := IntegralEnd(data, pos);
    var c := FractionEnd(data, pos);
    NumberText(
      Peek(data, pos) == Minus,
      data[a..b],
      if Peek(data, b) == Period then Some(data[b + 1..c]) else None,
      if IsMarker(Peek(data, c)) then Some(ExponentAt(data, c)) else None)
  }

  /** `t` is written at `pos` and followed by a delimiter or the end at
      `e`, and every accumulator of it fits in 64 bits. */
  predicate ReadsAs(data: seq<byte>, pos: nat, t: NumberText, e: nat) {
    && WellFormed(t) && Fits(t)
    && e == pos + |Render(t)| && e <= |data| && data[pos..e] == Render(t)
    && (e == |data| || IsNumberDelimiter(data[e]))
  }

  lemma SliceJoin(data: seq<byte>, i: nat, j: nat, k: nat)
    requires i <= j <= k <= |data|
    ensures data[i..j] + data[j..k] == data[i..k]
  {
  }

  /** The fraction part of the greedy literal, as written. */
  lemma FractionTextAt(data: seq<byte>, pos: nat)
    requires pos <= |data|
    ensures var b, c := IntegralEnd(data, pos), FractionEnd(data, pos);
            data[b..c] == FractionText(TextAt(data, pos))
  {
    var b, c := IntegralEnd(data, pos), FractionEnd(data, pos);
    if Peek(data, b) == Period {
      SliceJoin(data, b, b + 1, c);
    }
  }

  /** An exponent part whose marker is at `c`, as written. */
  lemma ExponentCharsAt(data: seq<byte>, c: nat, d: nat, e: nat, x: ExponentText)
    requires c < |data| && d == ExponentDigitsAt(data, c) && e == RunEnd(data, d) && x == ExponentAt(data, c)
    ensures data[c..e] == ExponentChars(x)
  {
    var m, sign, digits := data[c..c + 1], data[c + 1..d], data[d..e];
    assert m == [x.marker];
    if d == c + 2 {
      assert sign == [data[c + 1]];
    } else {
      assert sign == [];
    }
    assert sign == SignChars(x) && digits == x.digits;
    assert ExponentChars(x) == m + (sign + digits);
    hide RunEnd, ExponentDigitsAt, ExponentAt, ExponentChars, SignChars;
    SliceThree(data, c, c + 1, d, e);
  }

  lemma SliceThree(data: seq<byte>, i: nat, j: nat, k: nat, l: nat)
    requires i <= j <= k <= l <= |data|
    ensures data[i..l] == data[i..j] + (data[j..k] + data[k..l])
  {
    SliceJoin(data, j, k, l);
    SliceJoin(data, i, j, l);
  }

  /** The exponent part of the greedy literal, as written. */
  lemma ExponentTextAtEnd(data: seq<byte>, pos: nat)
    requires pos <= |data|
    ensures var c, e := FractionEnd(data, pos), TextEnd(data, pos);
            data[c..e] == ExponentTextOf(TextAt(data, pos))
  {
    var c := FractionEnd(data, pos);
    if IsMarker(Peek(data, c)) {
      ExponentCharsAt(data, c, ExponentDigitsAt(data, c), RunEnd(data, ExponentDigitsAt(data, c)), ExponentAt(data, c));
    }
  }

  /** The greedy literal is written in the input exactly as read, up to
      `TextEnd`. */
  lemma TextAtRender(data: seq<byte>, pos: nat)
    requires pos <= |data|
    ensures pos + |Render(TextAt(data, pos))| == TextEnd(data, pos)
    ensures data[pos..TextEnd(data, pos)] == Render(TextAt(data, pos))
  {
    var t := TextAt(data, pos);
    var a, b, c, e := SignEnd(data, pos), IntegralEnd(data, pos), FractionEnd(data, pos), TextEnd(data, pos);
    assert data[pos..a] == SignText(t);
    assert data[a..b] == t.integral;
    FractionTextAt(data, pos);
    ExponentTextAtEnd(data, pos);
    hide TextAt, TextEnd, FractionEnd, IntegralEnd, SignEnd;
    SliceJoin(data, pos, a, b);
    SliceJoin(data, pos, b, c);
    SliceJoin(data, pos, c, e);
  }

  /** A scan that succeeds from the start of a run of digits has read the
      whole run into the current accumulator. */
  lemma RunScan(data: seq<byte>, p: nat, s: Scan)
    requires p <= |data| && Field(s) <= UInt64Max
    requires ScanNumber(data, p, s).Ok?
    ensures ScanNumber(data, p, s) == ScanNumber(data, RunEnd(data, p), FeedRange(data, s, p, RunEnd(data, p)))
  {
    var q := RunEnd(data, p);
    if FoldRange(data, Field(s), p, q) > UInt64Max {
      DigitRunOverflow(data, p, q, s);
    } else {
      DigitRun(data, p, q, s);
    }
  }

  /** A successful scan at a byte that neither continues the number nor is
      admissible as a `.` or an exponent marker in the current state stops
      right there, which must then be a delimiter or the end. */
  lemma EndScan(data: seq<byte>, e: nat, s: Scan)
    requires e <= |data| && !IsDigit(Peek(data, e))
    requires Peek(data, e) == Period ==> s.seenDecimal || s.seenExponent
    requires IsMarker(Peek(data, e)) ==> s.seenExponent
    requires ScanNumber(data, e, s).Ok?
    ensures ScanNumber(data, e, s).pos == e && (e == |data| || IsNumberDelimiter(data[e]))
  {
  }

  /** A successful scan from an exponent marker reads at least one digit
      after the optional sign and ends after the longest run of them. */
  lemma ExponentScan(data: seq<byte>, c: nat, s: Scan)
    requires c < |data| && IsMarker(data[c])
    requires !s.seenExponent && s.exponent == 0
    requires ScanNumber(data, c, s).Ok?
    ensures var d := ExponentDigitsAt(data, c);
            var e := RunEnd(data, d);
            && d < e
            && ScanNumber(data, c, s).pos == e
            && (e == |data| || IsNumberDelimiter(data[e]))
  {
    var d := ExponentDigitsAt(data, c);
    var sx := s.(seenExponent := true, negativeExponent := Peek(data, c + 1) == Minus);
    assert ScanNumber(data, c, s) == ScanExponentStart(data, c + 1, s);
    assert IsDigit(Peek(data, d));
    assert ScanExponentStart(data, c + 1, s) == ScanNumber(data, d, sx);
    RunScan(data, d, sx);
    var e := RunEnd(data, d);
    EndScan(data, e, FeedRange(data, sx, d, e));
  }

  /** A successful scan at a `.` in the integral state reads at least one
      digit after it and goes on after the longest run of them. */
  lemma FractionScan(data: seq<byte>, b: nat, s: Scan)
    requires b < |data| && data[b] == Period
    requires !s.seenDecimal && !s.seenExponent && s.mantissa == 0
    requires ScanNumber(data, b, s).Ok?
    ensures var sd := s.(seenDecimal := true);
            var c := RunEnd(data, b + 1);
            && b + 1 < c
            && ScanNumber(data, b, s) == ScanNumber(data, c, FeedRange(data, sd, b + 1, c))
  {
    var sd := s.(seenDecimal := true);
    assert IsDigit(Peek(data, b + 1));
    assert ScanNumber(data, b, s) == ScanNumber(data, b + 1, sd);
    RunScan(data, b + 1, sd);
  }

  /** A successful scan after the integral digits, in the integral state,
      reads the greedy fraction and exponent and ends at `TextEnd`, with a
      digit after the `.` and after the exponent's sign. */
  lemma TailScan(data: seq<byte>, pos: nat, s: Scan)
    requires pos <= |data|
    requires !s.seenDecimal && !s.seenExponent && s.mantissa == 0 && s.exponent == 0
    requires ScanNumber(data, IntegralEnd(data, pos), s).Ok?
    ensures var b, c := IntegralEnd(data, pos), FractionEnd(data, pos);
            Peek(data, b) == Period ==> b + 1 < c
    ensures var c := FractionEnd(data, pos);
            IsMarker(Peek(data, c)) ==> ExponentDigitsAt(data, c) < TextEnd(data, pos)
    ensures var e := TextEnd(data, pos);
            ScanNumber(data, IntegralEnd(data, pos), s).pos == e && (e == |data| || IsNumberDelimiter(data[e]))
  {
    var b, c := IntegralEnd(data, pos), FractionEnd(data, pos);
    var s2 := s;
    if Peek(data, b) == Period {
      FractionScan(data, b, s);
      s2 := FeedRange(data, s.(seenDecimal := true), b + 1, c);
    }
    hide ScanNumber, ScanExponentStart;
    if IsMarker(Peek(data, c)) {
      ExponentScan(data, c, s2);
    } else {
      EndScan(data, c, s2);
    }
  }

  /** The greedy literal is well formed when its integral run, its
      fraction run after a `.` and its exponent run after a marker are all
      non-empty. */
  lemma TextAtWellFormed(data: seq<byte>, pos: nat)
    requires pos <= |data|
    requires SignEnd(data, pos) < IntegralEnd(data, pos)
    requires var b, c := IntegralEnd(data, pos), FractionEnd(data, pos);
             Peek(data, b) == Period ==> b + 1 < c
    requires var c := FractionEnd(data, pos);
             IsMarker(Peek(data, c)) ==> ExponentDigitsAt(data, c) < TextEnd(data, pos)
    ensures WellFormed(TextAt(data, pos))
  {
    var t := TextAt(data, pos);
    var a, b, c := SignEnd(data, pos), IntegralEnd(data, pos), FractionEnd(data, pos);
    assert AllDigits(t.integral) by {
      forall i | 0 <= i < |t.integral| ensures IsDigit(t.integral[i]) {
        assert t.integral[i] == data[a + i];
      }
    }
    if t.fraction.Some? {
      assert AllDigits(t.fraction.value) by {
        forall i | 0 <= i < |t.fraction.value| ensures IsDigit(t.fraction.value[i]) {
          assert t.fraction.value[i] == data[b + 1 + i];
        }
      }
    }
    if t.exponent.Some? {
      var d := ExponentDigitsAt(data, c);
      var x := t.exponent.value;
      assert x.digits == data[d..TextEnd(data, pos)];
      assert AllDigits(x.digits) by {
        forall i | 0 <= i < |x.digits| ensures IsDigit(x.digits[i]) {
          assert x.digits[i] == data[d + i];
        }
      }
    }
  }

  /** A successful scan at `pos` ends at `TextEnd`, at a delimiter or the
      end, and the greedy literal it read is well formed. */
  lemma ScanShape(data: seq<byte>, pos: nat)
    requires pos < |data| && (data[pos] == Minus || IsDigit(data[pos]))
    requires ParseNumber(data, pos).Ok?
    ensures WellFormed(TextAt(data, pos))
    ensures var e := TextEnd(data, pos);
            ParseNumber(data, pos).pos == e && (e == |data| || IsNumberDelimiter(data[e]))
  {
    var a, b := SignEnd(data, pos), IntegralEnd(data, pos);
    var s0 := ScanStart.(negative := data[pos] == Minus);
    assert IsDigit(Peek(data, a));
    assert ParseNumber(data, pos) == ScanNumber(data, a, s0);
    RunScan(data, a, s0);
    TailScan(data, pos, FeedRange(data, s0, a, b));
    TextAtWellFormed(data, pos);
  }

  /** Every number the scanner accepts at `pos` is the greedy literal
      there: it is well formed, fits in 64 bits, ends where the scan ended,
      at a delimiter or the end, and the number is what it means. */
  lemma ParseNumberSound(data: seq<byte>, pos: nat)
    requires pos < |data| && (data[pos] == Minus || IsDigit(data[pos]))
    requires ParseNumber(data, pos).Ok?
    ensures var r := ParseNumber(data, pos);
            var t := TextAt(data, pos);
            ReadsAs(data, pos, t, r.pos) && Interpret(t) == Some(r.value)
  {
    hide ParseNumber, ScanNumber, TextAt, TextEnd;
    ScanShape(data, pos);
    TextAtRender(data, pos);
    ParseNumberText(data, pos, TextAt(data, pos));
  }

  /** The scanner's outcome at `pos` is `Ok(n, e)` exactly when a
      well-formed literal that fits in 64 bits and means `n` is written at
      `pos` and followed by a delimiter or the end at `e`. */
  lemma ParseNumberExactly(data: seq<byte>, pos: nat, n: Number, e: nat)
    requires pos < |data| && (data[pos] == Minus || IsDigit(data[pos]))
    ensures ParseNumber(data, pos) == Ok(n, e) <==>
              exists t :: ReadsAs(data, pos, t, e) && Interpret(t) == Some(n)
  {
    hide ParseNumber, ScanNumber, ScanExponentStart, TextAt, Render, Interpret, WellFormed, Fits;
    if ParseNumber(data, pos) == Ok(n, e) {
      ParseNumberSound(data, pos);
      assert ReadsAs(data, pos, TextAt(data, pos), e);
    }
    if t :| ReadsAs(data, pos, t, e) && Interpret(t) == Some(n) {
      ParseNumberText(data, pos, t);
    }
  }
}
