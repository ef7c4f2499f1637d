/** A reference description of the number literals the scanner accepts —
    `-? digit+ ('.' digit+)? ([eE] [+-]? digit+)?`, leading zeros allowed —
    and what each one means, with the proof that the scanner agrees. */
module NumberSyntax {
  import opened Ascii
  import opened JsonTypes
  import opened Cursor
  import opened Digits
  import opened Numbers

  datatype ExponentText = ExponentText(marker: byte, sign: Option<byte>, digits: seq<byte>)

  datatype NumberText = NumberText(
    negative: bool,
    integral: seq<byte>,
    fraction: Option<seq<byte>>,
    exponent: Option<ExponentText>)

  predicate WellFormed(t: NumberText) {
    && |t.integral| >= 1 && AllDigits(t.integral)
    && (t.fraction.Some? ==> |t.fraction.value| >= 1 && AllDigits(t.fraction.value))
    && (t.exponent.Some? ==>
          && (t.exponent.value.marker == LowerE || t.exponent.value.marker == UpperE)
          && (t.exponent.value.sign.Some? ==>
                t.exponent.value.sign.value == Minus || t.exponent.value.sign.value == Plus)
          && |t.exponent.value.digits| >= 1 && AllDigits(t.exponent.value.digits))
  }

  function SignText(t: NumberText): seq<byte> {
    if t.negative then [Minus] else []
  }

  function FractionText(t: NumberText): seq<byte> {
    if t.fraction.Some? then [Period] + t.fraction.value else []
  }

  function SignChars(x: ExponentText): seq<byte> {
    if x.sign.Some? then [x.sign.value] else []
  }

  function ExponentChars(x: ExponentText): seq<byte> {
    [x.marker] + (SignChars(x) + x.digits)
  }

  function ExponentTextOf(t: NumberText): seq<byte> {
    if t.exponent.Some? then ExponentChars(t.exponent.value) else []
  }

  function Render(t: NumberText): seq<byte> {
    SignText(t) + t.integral + FractionText(t) + ExponentTextOf(t)
  }

  function FractionValue(t: NumberText): nat
    requires WellFormed(t)
  {
    if t.fraction.Some? then DigitsValue(t.fraction.value) else 0
  }

  function ExponentValue(t: NumberText): nat
    requires WellFormed(t)
  {
    if t.exponent.Some? then DigitsValue(t.exponent.value.digits) else 0
  }

  /** No accumulator leaves the unsigned 64-bit range. */
  predicate Fits(t: NumberText)
    requires WellFormed(t)
  {
    DigitsValue(t.integral) <= UInt64Max && FractionValue(t) <= UInt64Max && ExponentValue(t) <= UInt64Max
  }

  /** What a literal denotes: an integer when it has neither fraction nor
      exponent and fits in 64 bits (None when it does not), otherwise the
      exact decimal record. */
  function Interpret(t: NumberText): Option<Number>
    requires WellFormed(t)
  {
    var m := DigitsValue(t.integral);
    if t.fraction.None? && t.exponent.None? then
      var v := if t.negative then -(m as int) else m;
      if Int64Min <= v <= Int64Max then Some(Integer(v)) else None
    else
      Some(Double(Decimal(
        t.negative, m, FractionValue(t),
        if t.fraction.Some? then |t.fraction.value| else 0,
        ExponentValue(t),
        t.exponent.Some? && t.exponent.value.sign == Some(Minus))))
  }

  /** The outcome the scanner is expected to give at the delimiter that
      ends a literal. */
  function Expected(t: NumberText, e: nat): Res<Number>
    requires WellFormed(t)
  {
    match Interpret(t)
    case Some(n) => Ok(n, e)
    case None => Err(InvalidNumber, e)
  }

  /** The scanner state after feeding the digits `data[p..q]` to the
      current accumulator. */
  function FeedRange(data: seq<byte>, s: Scan, p: nat, q: nat): Scan
    requires p <= q <= |data| && DigitsIn(data, p, q)
  {
    var v := FoldRange(data, Field(s), p, q);
    if s.seenExponent then s.(exponent := v)
    else if s.seenDecimal then s.(mantissa := v, fractionDigits := s.fractionDigits + (q - p))
    else s.(significand := v)
  }

  /** One step of the scanner at a digit that does not overflow. */
  lemma ScanDigitStep(data: seq<byte>, p: nat, s: Scan)
    requires p < |data| && IsDigit(data[p])
    requires Field(s) * 10 + (data[p] - Zero) <= UInt64Max
    ensures ScanNumber(data, p, s) == ScanNumber(data, p + 1, Accumulate(s, Field(s) * 10 + (data[p] - Zero)))
  {
  }

  /** A digit that overflows the current accumulator stops the scan. */
  lemma ScanOverflowStep(data: seq<byte>, p: nat, s: Scan)
    requires p < |data| && IsDigit(data[p])
    requires Field(s) * 10 + (data[p] - Zero) > UInt64Max
    ensures ScanNumber(data, p, s).Err? && ScanNumber(data, p, s).reason == NumberOverflow
  {
  }

  /** One step of the scanner at the first `.`, followed by a digit. */
  lemma ScanPeriodStep(data: seq<byte>, p: nat, s: Scan)
    requires p + 1 < |data| && data[p] == Period && IsDigit(data[p + 1])
    requires !s.seenDecimal && !s.seenExponent
    ensures ScanNumber(data, p, s) == ScanNumber(data, p + 1, s.(seenDecimal := true))
  {
  }

  /** One step of the scanner at the first exponent marker. */
  lemma ScanMarkerStep(data: seq<byte>, p: nat, s: Scan)
    requires p < |data| && (data[p] == LowerE || data[p] == UpperE)
    requires !s.seenExponent
    ensures ScanNumber(data, p, s) == ScanExponentStart(data, p + 1, s)
  {
  }

  /** After the marker: an optional sign, then the first exponent digit. */
  lemma ExponentStartStep(data: seq<byte>, q: nat, s: Scan, signed: bool)
    requires !s.seenExponent
    requires signed ==> q + 1 < |data| && (data[q] == Minus || data[q] == Plus) && IsDigit(data[q + 1])
    requires !signed ==> q < |data| && IsDigit(data[q])
    ensures var d := if signed then q + 1 else q;
            ScanExponentStart(data, q, s) ==
              ScanNumber(data, d, s.(seenExponent := true, negativeExponent := signed && data[q] == Minus))
  {
  }

  /** The scanner stops at a delimiter or the end and builds the number. */
  lemma ScanStopStep(data: seq<byte>, p: nat, s: Scan)
    requires p <= |data| && (p == |data| || IsNumberDelimiter(data[p]))
    ensures ScanNumber(data, p, s) ==
              match ConstructNumber(s)
              case Some(n) => Ok(n, p)
              case None => Err(InvalidNumber, p)
  {
  }

  /** A run of digits goes to the current accumulator, and the scan
      continues after the run when the accumulated value fits in 64 bits. */
  lemma {:induction false} DigitRun(data: seq<byte>, p: nat, q: nat, s: Scan)
    requires p <= q <= |data| && DigitsIn(data, p, q)
    requires FoldRange(data, Field(s), p, q) <= UInt64Max
    ensures ScanNumber(data, p, s) == ScanNumber(data, q, FeedRange(data, s, p, q))
    decreases q - p
  {
    if p < q {
      var v := Field(s) * 10 + (data[p] - Zero);
      FoldRangeGrows(data, v, p + 1, q);
      ScanDigitStep(data, p, s);
      DigitRun(data, p + 1, q, Accumulate(s, v));
      assert FeedRange(data, Accumulate(s, v), p + 1, q) == FeedRange(data, s, p, q);
    }
  }

  /** A run of digits whose value does not fit in 64 bits fails with
      `NumberOverflow` inside the run. */
  lemma {:induction false} DigitRunOverflow(data: seq<byte>, p: nat, q: nat, s: Scan)
    requires p <= q <= |data| && DigitsIn(data, p, q)
    requires Field(s) <= UInt64Max < FoldRange(data, Field(s), p, q)
    ensures ScanNumber(data, p, s).Err? && ScanNumber(data, p, s).reason == NumberOverflow
    decreases q - p
  {
    var v := Field(s) * 10 + (data[p] - Zero);
    if v <= UInt64Max {
      ScanDigitStep(data, p, s);
      DigitRunOverflow(data, p + 1, q, Accumulate(s, v));
    } else {
      ScanOverflowStep(data, p, s);
    }
  }

  /** Where the parts of a rendered literal start in the input. */
  function IntegralStart(pos: nat, t: NumberText): nat {
    pos + |SignText(t)|
  }

  function FractionStart(pos: nat, t: NumberText): nat {
    IntegralStart(pos, t) + |t.integral|
  }

  function ExponentStart(pos: nat, t: NumberText): nat {
    FractionStart(pos, t) + |FractionText(t)|
  }

  function ExponentDigitsStart(pos: nat, t: NumberText): nat
    requires t.exponent.Some?
  {
    ExponentStart(pos, t) + 1 + |SignChars(t.exponent.value)|
  }

  /** The positional facts the scan needs about a rendered literal. */
  predicate Layout(data: seq<byte>, pos: nat, t: NumberText)
    requires WellFormed(t)
  {
    && pos + |Render(t)| <= |data|
    && IntegralLayout(data, pos, t)
    && FractionLayout(data, pos, t)
    && ExponentLayout(data, pos, t)
  }

  predicate IntegralLayout(data: seq<byte>, pos: nat, t: NumberText)
    requires WellFormed(t)
  {
    var a := IntegralStart(pos, t);
    var b := FractionStart(pos, t);
    && b <= |data|
    && (t.negative ==> data[pos] == Minus)
    && DigitsIn(data, a, b) && FoldRange(data, 0, a, b) == DigitsValue(t.integral)
  }

  predicate FractionLayout(data: seq<byte>, pos: nat, t: NumberText)
    requires WellFormed(t)
  {
    var b := FractionStart(pos, t);
    var c := ExponentStart(pos, t);
    && c <= |data|
    && (t.fraction.Some? ==>
          && data[b] == Period
          && DigitsIn(data, b + 1, c) && FoldRange(data, 0, b + 1, c) == DigitsValue(t.fraction.value))
  }

  predicate ExponentLayout(data: seq<byte>, pos: nat, t: NumberText)
    requires WellFormed(t)
  {
    var c := ExponentStart(pos, t);
    var e := pos + |Render(t)|;
    && e <= |data|
    && (t.exponent.Some? ==>
          var d := ExponentDigitsStart(pos, t);
          && data[c] == t.exponent.value.marker
          && (t.exponent.value.sign.Some? ==> data[c + 1] == t.exponent.value.sign.value)
          && d + |t.exponent.value.digits| == e
          && DigitsIn(data, d, e)
          && FoldRange(data, 0, d, e) == DigitsValue(t.exponent.value.digits))
    && (t.exponent.None? ==> c == e)
  }

  /** The four parts of a four-part concatenation found in the input. */
  lemma SliceParts(data: seq<byte>, p: nat, a: seq<byte>, b: seq<byte>, c: seq<byte>, d: seq<byte>)
    requires p + |a| + |b| + |c| + |d| <= |data|
    requires data[p..p + |a| + |b| + |c| + |d|] == a + b + c + d
    ensures data[p..p + |a|] == a
    ensures data[p + |a|..p + |a| + |b|] == b
    ensures data[p + |a| + |b|..p + |a| + |b| + |c|] == c
    ensures data[p + |a| + |b| + |c|..p + |a| + |b| + |c| + |d|] == d
  {
    AtSlice(data, p, a + b + c + d);
    AtSplit(data, p, a + b + c, d);
    AtSplit(data, p, a + b, c);
    AtSplit(data, p, a, b);
    AtSlice(data, p, a);
    AtSlice(data, p + |a|, b);
    AtSlice(data, p + |a| + |b|, c);
    AtSlice(data, p + |a| + |b| + |c|, d);
  }

  /** A marker byte followed by a run, found in the input. */
  lemma SliceHead(data: seq<byte>, p: nat, m: byte, f: seq<byte>)
    requires p + 1 + |f| <= |data| && data[p..p + 1 + |f|] == [m] + f
    ensures data[p] == m && data[p + 1..p + 1 + |f|] == f
  {
    assert data[p] == data[p..p + 1 + |f|][0];
    forall i | 0 <= i < |f| ensures data[p + 1..p + 1 + |f|][i] == f[i] {
      assert data[p + 1 + i] == data[p..p + 1 + |f|][1 + i];
    }
  }

  /** The four parts of a rendered literal, found in the input. */
  lemma RenderParts(data: seq<byte>, pos: nat, t: NumberText)
    requires pos + |Render(t)| <= |data| && data[pos..pos + |Render(t)|] == Render(t)
    ensures data[pos..IntegralStart(pos, t)] == SignText(t)
    ensures data[IntegralStart(pos, t)..FractionStart(pos, t)] == t.integral
    ensures data[FractionStart(pos, t)..ExponentStart(pos, t)] == FractionText(t)
    ensures data[ExponentStart(pos, t)..pos + |Render(t)|] == ExponentTextOf(t)
  {
    SliceParts(data, pos, SignText(t), t.integral, FractionText(t), ExponentTextOf(t));
  }

  lemma IntegralLayoutOfRender(data: seq<byte>, pos: nat, t: NumberText)
    requires WellFormed(t)
    requires pos + |Render(t)| <= |data| && data[pos..pos + |Render(t)|] == Render(t)
    ensures IntegralLayout(data, pos, t)
  {
    RenderParts(data, pos, t);
    FoldRangeSlice(data, 0, IntegralStart(pos, t), t.integral);
    if t.negative {
      assert data[pos] == data[pos..IntegralStart(pos, t)][0];
    }
  }

  lemma FractionLayoutOfRender(data: seq<byte>, pos: nat, t: NumberText)
    requires WellFormed(t)
    requires pos + |Render(t)| <= |data| && data[pos..pos + |Render(t)|] == Render(t)
    ensures FractionLayout(data, pos, t)
  {
    RenderParts(data, pos, t);
    if t.fraction.Some? {
      var b := FractionStart(pos, t);
      SliceHead(data, b, Period, t.fraction.value);
      FoldRangeSlice(data, 0, b + 1, t.fraction.value);
    }
  }

  /** A marker, an optional sign and the digits of an exponent, found in
      the input at `c`. */
  lemma ExponentTextAt(data: seq<byte>, c: nat, x: ExponentText)
    requires AllDigits(x.digits)
    requires c + |ExponentChars(x)| <= |data| && data[c..c + |ExponentChars(x)|] == ExponentChars(x)
    ensures data[c] == x.marker
    ensures x.sign.Some? ==> data[c + 1] == x.sign.value
    ensures c + 1 + |SignChars(x)| + |x.digits| == c + |ExponentChars(x)|
    ensures DigitsIn(data, c + 1 + |SignChars(x)|, c + |ExponentChars(x)|)
    ensures FoldRange(data, 0, c + 1 + |SignChars(x)|, c + |ExponentChars(x)|) == DigitsValue(x.digits)
  {
    var rest := SignChars(x) + x.digits;
    SliceHead(data, c, x.marker, rest);
    if x.sign.Some? {
      assert rest == [x.sign.value] + x.digits;
      SliceHead(data, c + 1, x.sign.value, x.digits);
      FoldRangeSlice(data, 0, c + 2, x.digits);
    } else {
      assert rest == x.digits;
      FoldRangeSlice(data, 0, c + 1, x.digits);
    }
  }

  lemma ExponentLayoutOfRender(data: seq<byte>, pos: nat, t: NumberText)
    requires WellFormed(t)
    requires pos + |Render(t)| <= |data| && data[pos..pos + |Render(t)|] == Render(t)
    ensures ExponentLayout(data, pos, t)
  {
    RenderParts(data, pos, t);
    if t.exponent.Some? {
      ExponentTextAt(data, ExponentStart(pos, t), t.exponent.value);
    }
  }

  lemma LayoutOfRender(data: seq<byte>, pos: nat, t: NumberText)
    requires WellFormed(t)
    requires pos + |Render(t)| <= |data| && data[pos..pos + |Render(t)|] == Render(t)
    ensures Layout(data, pos, t)
  {
    IntegralLayoutOfRender(data, pos, t);
    FractionLayoutOfRender(data, pos, t);
    ExponentLayoutOfRender(data, pos, t);
  }

  /** The scanner state after the integral digits, after the optional
      fraction, and at the delimiter. */
  function IntegralScan(t: NumberText): Scan
    requires WellFormed(t)
  {
    ScanStart.(negative := t.negative, significand := DigitsValue(t.integral))
  }

  function MiddleScan(t: NumberText): Scan
    requires WellFormed(t)
  {
    IntegralScan(t).(seenDecimal := t.fraction.Some?, mantissa := FractionValue(t),
                     fractionDigits := if t.fraction.Some? then |t.fraction.value| else 0)
  }

  function FinalScan(t: NumberText): Scan
    requires WellFormed(t)
  {
    MiddleScan(t).(seenExponent := t.exponent.Some?, exponent := ExponentValue(t),
                   negativeExponent := t.exponent.Some? && t.exponent.value.sign == Some(Minus))
  }

  lemma FinalScanBuilds(t: NumberText)
    requires WellFormed(t)
    ensures ConstructNumber(FinalScan(t)) == Interpret(t)
  {
  }

  /** The sign and the integral digits. */
  lemma IntegralPart(data: seq<byte>, pos: nat, t: NumberText)
    requires WellFormed(t) && Layout(data, pos, t)
    ensures data[pos] == Minus || IsDigit(data[pos])
    ensures DigitsValue(t.integral) <= UInt64Max ==>
              ParseNumber(data, pos) == ScanNumber(data, FractionStart(pos, t), IntegralScan(t))
    ensures DigitsValue(t.integral) > UInt64Max ==>
              ParseNumber(data, pos).Err? && ParseNumber(data, pos).reason == NumberOverflow
  {
    var a := IntegralStart(pos, t);
    var b := FractionStart(pos, t);
    assert IsDigit(data[a]);
    var s0 := ScanStart.(negative := t.negative);
    assert ParseNumber(data, pos) == ScanNumber(data, a, s0);
    if DigitsValue(t.integral) <= UInt64Max {
      DigitRun(data, a, b, s0);
      assert FeedRange(data, s0, a, b) == IntegralScan(t);
    } else {
      DigitRunOverflow(data, a, b, s0);
    }
  }

  /** The optional fraction. */
  lemma FractionPart(data: seq<byte>, pos: nat, t: NumberText)
    requires WellFormed(t) && Layout(data, pos, t)
    ensures FractionValue(t) <= UInt64Max ==>
              ScanNumber(data, FractionStart(pos, t), IntegralScan(t)) ==
              ScanNumber(data, ExponentStart(pos, t), MiddleScan(t))
    ensures FractionValue(t) > UInt64Max ==>
              ScanNumber(data, FractionStart(pos, t), IntegralScan(t)).Err? &&
              ScanNumber(data, FractionStart(pos, t), IntegralScan(t)).reason == NumberOverflow
  {
    if t.fraction.Some? {
      FractionDigits(data, pos, t);
    } else {
      assert IntegralScan(t) == MiddleScan(t);
    }
  }

  /** A fraction that is present: the period, then its digits. */
  lemma FractionDigits(data: seq<byte>, pos: nat, t: NumberText)
    requires WellFormed(t) && Layout(data, pos, t) && t.fraction.Some?
    ensures FractionValue(t) <= UInt64Max ==>
              ScanNumber(data, FractionStart(pos, t), IntegralScan(t)) ==
              ScanNumber(data, ExponentStart(pos, t), MiddleScan(t))
    ensures FractionValue(t) > UInt64Max ==>
              ScanNumber(data, FractionStart(pos, t), IntegralScan(t)).Err? &&
              ScanNumber(data, FractionStart(pos, t), IntegralScan(t)).reason == NumberOverflow
  {
    var b := FractionStart(pos, t);
    var c := ExponentStart(pos, t);
    var s := IntegralScan(t).(seenDecimal := true);
    assert data[b] == Period && DigitsIn(data, b + 1, c) && b + 1 < c;
    assert FoldRange(data, 0, b + 1, c) == FractionValue(t);
    hide ScanNumber, ScanExponentStart, Layout, FractionLayout, IntegralLayout, ExponentLayout;
    ScanPeriodStep(data, b, IntegralScan(t));
    if FractionValue(t) <= UInt64Max {
      DigitRun(data, b + 1, c, s);
      assert FeedRange(data, s, b + 1, c) == MiddleScan(t);
    } else {
      DigitRunOverflow(data, b + 1, c, s);
    }
  }

  /** The scanner state once the exponent digits begin. */
  function ExponentScan(t: NumberText): Scan
    requires WellFormed(t) && t.exponent.Some?
  {
    MiddleScan(t).(seenExponent := true, negativeExponent := t.exponent.value.sign == Some(Minus))
  }

  /** A present exponent: marker and optional sign, up to the digits. */
  lemma ExponentDigits(data: seq<byte>, pos: nat, t: NumberText)
    requires WellFormed(t) && Layout(data, pos, t) && t.exponent.Some?
    ensures ScanNumber(data, ExponentStart(pos, t), MiddleScan(t)) ==
            ScanNumber(data, ExponentDigitsStart(pos, t), ExponentScan(t))
  {
    if t.exponent.value.sign.Some? {
      SignedExponentDigits(data, pos, t);
    } else {
      UnsignedExponentDigits(data, pos, t);
    }
  }

  /** The marker and the sign, then the digits. */
  lemma SignedExponentDigits(data: seq<byte>, pos: nat, t: NumberText)
    requires WellFormed(t) && Layout(data, pos, t) && t.exponent.Some? && t.exponent.value.sign.Some?
    ensures ScanNumber(data, ExponentStart(pos, t), MiddleScan(t)) ==
            ScanNumber(data, ExponentDigitsStart(pos, t), ExponentScan(t))
  {
    var c := ExponentStart(pos, t);
    hide ScanNumber, ScanExponentStart;
    ScanMarkerStep(data, c, MiddleScan(t));
    assert ExponentDigitsStart(pos, t) == c + 2 && IsDigit(data[c + 2]);
    ExponentStartStep(data, c + 1, MiddleScan(t), true);
    assert ExponentScan(t) == MiddleScan(t).(seenExponent := true, negativeExponent := data[c + 1] == Minus);
  }

  /** The marker, then the digits at once. */
  lemma UnsignedExponentDigits(data: seq<byte>, pos: nat, t: NumberText)
    requires WellFormed(t) && Layout(data, pos, t) && t.exponent.Some? && t.exponent.value.sign.None?
    ensures ScanNumber(data, ExponentStart(pos, t), MiddleScan(t)) ==
            ScanNumber(data, ExponentDigitsStart(pos, t), ExponentScan(t))
  {
    var c := ExponentStart(pos, t);
    hide ScanNumber, ScanExponentStart;
    ScanMarkerStep(data, c, MiddleScan(t));
    assert ExponentDigitsStart(pos, t) == c + 1 && IsDigit(data[c + 1]);
    ExponentStartStep(data, c + 1, MiddleScan(t), false);
    assert ExponentScan(t) == MiddleScan(t).(seenExponent := true, negativeExponent := false);
  }

  /** A present exponent that fits, up to the delimiter. */
  lemma ExponentPresent(data: seq<byte>, pos: nat, t: NumberText)
    requires WellFormed(t) && Layout(data, pos, t) && t.exponent.Some?
    requires ExponentValue(t) <= UInt64Max
    ensures ScanNumber(data, ExponentStart(pos, t), MiddleScan(t)) ==
            ScanNumber(data, pos + |Render(t)|, FinalScan(t))
  {
    var e := pos + |Render(t)|;
    var d := ExponentDigitsStart(pos, t);
    ExponentDigits(data, pos, t);
    DigitRun(data, d, e, ExponentScan(t));
    assert FeedRange(data, ExponentScan(t), d, e) == FinalScan(t);
  }

  /** At the delimiter the scanner yields what the literal denotes. */
  lemma StopExpected(data: seq<byte>, e: nat, t: NumberText)
    requires WellFormed(t)
    requires e <= |data| && (e == |data| || IsNumberDelimiter(data[e]))
    ensures ScanNumber(data, e, FinalScan(t)) == Expected(t, e)
  {
    FinalScanBuilds(t);
    ScanStopStep(data, e, FinalScan(t));
  }

  /** The optional exponent, then the delimiter. */
  lemma ExponentPart(data: seq<byte>, pos: nat, t: NumberText)
    requires WellFormed(t) && Layout(data, pos, t)
    requires var e := pos + |Render(t)|; e == |data| || IsNumberDelimiter(data[e])
    requires ExponentValue(t) <= UInt64Max
    ensures ScanNumber(data, ExponentStart(pos, t), MiddleScan(t)) == Expected(t, pos + |Render(t)|)
  {
    StopExpected(data, pos + |Render(t)|, t);
    if t.exponent.Some? {
      ExponentPresent(data, pos, t);
    } else {
      assert MiddleScan(t) == FinalScan(t);
    }
  }

  /** An exponent that does not fit in 64 bits. */
  lemma ExponentOverflow(data: seq<byte>, pos: nat, t: NumberText)
    requires WellFormed(t) && Layout(data, pos, t)
    requires ExponentValue(t) > UInt64Max
    ensures ScanNumber(data, ExponentStart(pos, t), MiddleScan(t)).Err? &&
            ScanNumber(data, ExponentStart(pos, t), MiddleScan(t)).reason == NumberOverflow
  {
    ExponentDigits(data, pos, t);
    DigitRunOverflow(data, ExponentDigitsStart(pos, t), pos + |Render(t)|, ExponentScan(t));
  }

  /** The scanner accepts every well-formed literal that is followed by a
      delimiter or the end: it yields what the literal denotes when every
      accumulator fits in 64 bits, `InvalidNumber` at the delimiter for an
      integer outside the signed 64-bit range, and `NumberOverflow`
      exactly when some accumulator does not fit. */
  lemma ParseNumberText(data: seq<byte>, pos: nat, t: NumberText)
    requires WellFormed(t)
    requires pos + |Render(t)| <= |data| && data[pos..pos + |Render(t)|] == Render(t)
    requires var e := pos + |Render(t)|; e == |data| || IsNumberDelimiter(data[e])
    ensures data[pos] == Minus || IsDigit(data[pos])
    ensures Fits(t) ==> ParseNumber(data, pos) == Expected(t, pos + |Render(t)|)
    ensures !Fits(t) <==>
              ParseNumber(data, pos).Err? && ParseNumber(data, pos).reason == NumberOverflow
  {
    LayoutOfRender(data, pos, t);
    IntegralPart(data, pos, t);
    FractionPart(data, pos, t);
    if ExponentValue(t) <= UInt64Max {
      ExponentPart(data, pos, t);
    } else {
      ExponentOverflow(data, pos, t);
    }
  }
}
