/** Decimal digit strings and their values, shared by the number scanner and
    the reference encoder. */
module Digits {
  import opened Ascii
  import opened JsonTypes

  predicate AllDigits(ds: seq<byte>) {
    forall i :: 0 <= i < |ds| ==> IsDigit(ds[i])
  }

  /** Horner accumulation, most significant digit first, as the scanner
      does it: `acc := acc * 10 + digit` for each digit in turn. */
  function FoldDigits(acc: nat, ds: seq<byte>): nat
    requires AllDigits(ds)
    decreases |ds|
  {
    if |ds| == 0 then acc else FoldDigits(acc * 10 + (ds[0] - Zero), ds[1..])
  }

  function DigitsValue(ds: seq<byte>): nat
    requires AllDigits(ds)
  {
    FoldDigits(0, ds)
  }

  /** Folding from a non-zero start shifts the start left by one decimal
      place per digit. */
  lemma {:induction false} FoldDigitsShift(acc: nat, ds: seq<byte>)
    requires AllDigits(ds)
    ensures FoldDigits(acc, ds) == acc * Pow10(|ds|) + DigitsValue(ds)
    decreases |ds|
  {
    if |ds| > 0 {
      var d := ds[0] - Zero;
      var q := Pow10(|ds| - 1);
      FoldDigitsShift(acc * 10 + d, ds[1..]);
      FoldDigitsShift(d, ds[1..]);
      assert DigitsValue(ds) == d * q + DigitsValue(ds[1..]);
      ShiftDistributes(acc, d, q);
    }
  }

  lemma ShiftDistributes(a: int, d: int, q: int)
    ensures (a * 10 + d) * q == a * (10 * q) + d * q
  {
  }

  /** Every intermediate accumulator is bounded by the final one. */
  lemma FoldDigitsGrows(acc: nat, ds: seq<byte>)
    requires AllDigits(ds)
    ensures acc <= FoldDigits(acc, ds)
  {
    FoldDigitsShift(acc, ds);
  }

  /** Multiplication by a natural number keeps the order. */
  lemma MulLeft(a: nat, b: nat, c: nat)
    requires a <= b
    ensures a * c <= b * c
  {
  }

  /** The value of a digit string is below ten to its length. */
  lemma {:induction false} DigitsValueBound(ds: seq<byte>)
    requires AllDigits(ds)
    ensures DigitsValue(ds) < Pow10(|ds|)
    decreases |ds|
  {
    if |ds| > 0 {
      var d, rest := ds[0] - Zero, ds[1..];
      var p := Pow10(|rest|);
      FoldDigitsShift(d, rest);
      DigitsValueBound(rest);
      assert DigitsValue(ds) == d * p + DigitsValue(rest);
      assert d * p <= 9 * p by {
        MulLeft(d, 9, p);
      }
      assert Pow10(|ds|) == 10 * p;
    }
  }

  /** The last `k` decimal digits of `n`, zero-padded on the left. */
  function DigitsOf(n: nat, k: nat): (ds: seq<byte>)
    ensures |ds| == k && AllDigits(ds)
  {
    if k == 0 then [] else DigitsOf(n / 10, k - 1) + [Zero + n % 10]
  }

  /** Appending one digit multiplies the value by ten and adds it. */
  lemma {:induction false} FoldDigitsSnoc(acc: nat, ds: seq<byte>, d: byte)
    requires AllDigits(ds) && IsDigit(d)
    ensures AllDigits(ds + [d])
    ensures FoldDigits(acc, ds + [d]) == FoldDigits(acc, ds) * 10 + (d - Zero)
    decreases |ds|
  {
    if |ds| > 0 {
      assert (ds + [d])[1..] == ds[1..] + [d];
      FoldDigitsSnoc(acc * 10 + (ds[0] - Zero), ds[1..], d);
    }
  }

  /** `DigitsOf` is the inverse of `DigitsValue` on numbers of at most `k`
      digits. */
  lemma {:induction false} DigitsOfValue(n: nat, k: nat)
    requires n < Pow10(k)
    ensures DigitsValue(DigitsOf(n, k)) == n
    decreases k
  {
    if k > 0 {
      DigitsOfValue(n / 10, k - 1);
      FoldDigitsSnoc(0, DigitsOf(n / 10, k - 1), Zero + n % 10);
    }
  }

  /** The number of digits of the shortest decimal representation. */
  function DigitCount(n: nat): (k: nat)
    ensures 1 <= k && n < Pow10(k)
    ensures k > 1 ==> Pow10(k - 1) <= n
  {
    if n < 10 then 1 else 1 + DigitCount(n / 10)
  }

  /** The shortest decimal representation, as an encoder would write it. */
  function DecimalDigits(n: nat): (ds: seq<byte>)
    ensures AllDigits(ds) && |ds| >= 1 && DigitsValue(ds) == n
  {
    DigitsOfValue(n, DigitCount(n));
    DigitsOf(n, DigitCount(n))
  }

  /** Every byte in `data[p..q]` is a digit. */
  predicate DigitsIn(data: seq<byte>, p: nat, q: nat)
    requires p <= q <= |data|
  {
    forall i :: p <= i < q ==> IsDigit(data[i])
  }

  /** `FoldDigits` over the digits `data[p..q]`, indexed in place. */
  function FoldRange(data: seq<byte>, acc: nat, p: nat, q: nat): nat
    requires p <= q <= |data| && DigitsIn(data, p, q)
    decreases q - p
  {
    if p == q then acc else FoldRange(data, acc * 10 + (data[p] - Zero), p + 1, q)
  }

  lemma {:induction false} FoldRangeGrows(data: seq<byte>, acc: nat, p: nat, q: nat)
    requires p <= q <= |data| && DigitsIn(data, p, q)
    ensures acc <= FoldRange(data, acc, p, q)
    decreases q - p
  {
    if p < q {
      FoldRangeGrows(data, acc * 10 + (data[p] - Zero), p + 1, q);
    }
  }

  /** Folding in place agrees with folding the slice. */
  lemma {:induction false} FoldRangeSlice(data: seq<byte>, acc: nat, p: nat, ds: seq<byte>)
    requires AllDigits(ds) && p + |ds| <= |data| && data[p..p + |ds|] == ds
    ensures DigitsIn(data, p, p + |ds|)
    ensures FoldRange(data, acc, p, p + |ds|) == FoldDigits(acc, ds)
    decreases |ds|
  {
    assert forall i :: p <= i < p + |ds| ==> data[i] == ds[i - p];
    if |ds| > 0 {
      assert data[p + 1..p + 1 + |ds[1..]|] == ds[1..];
      FoldRangeSlice(data, acc * 10 + (ds[0] - Zero), p + 1, ds[1..]);
    }
  }
}
