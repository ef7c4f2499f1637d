/** The cursor over the immutable input: an index `pos` with
    `0 <= pos <= |data|` replaces the source's raw pointer. */
module Cursor {
  import opened Ascii
  import opened JsonTypes

  /** What `Peek` reports at the end of the buffer, where the source reads
      one byte past it. It is no byte, so it falls into no ASCII class. */
  const EndMarker: int := 256

  function Peek(data: seq<byte>, pos: nat): (c: int)
    requires pos <= |data|
    ensures c == EndMarker <==> pos == |data|
    ensures pos < |data| ==> c == data[pos]
  {
    if pos < |data| then data[pos] else EndMarker
  }

  /** Bounds-checked read-and-advance. */
  function Pop(data: seq<byte>, pos: nat): (r: Res<byte>)
    requires pos <= |data|
    ensures r.Err? <==> pos == |data|
    ensures r.Err? ==> r.reason == EndOfStream && r.pos == pos
    ensures r.Ok? ==> r.value == data[pos] && r.pos == pos + 1
  {
    if pos == |data| then Err(EndOfStream, pos) else Ok(data[pos], pos + 1)
  }

  /** Advances over the maximal run of whitespace starting at `pos`. */
  function SkipWhitespace(data: seq<byte>, pos: nat): (p: nat)
    requires pos <= |data|
    ensures pos <= p <= |data|
    ensures p == |data| || !IsWhitespace(data[p])
    decreases |data| - pos
  {
    if pos < |data| && IsWhitespace(data[pos]) then SkipWhitespace(data, pos + 1) else pos
  }

  /** A position already past all whitespace. */
  predicate AtSignificant(data: seq<byte>, pos: nat)
    requires pos <= |data|
  {
    pos == |data| || !IsWhitespace(data[pos])
  }

  /** Every byte skipped is whitespace. */
  lemma {:induction false} SkipWhitespaceRun(data: seq<byte>, pos: nat)
    requires pos <= |data|
    ensures forall i :: pos <= i < SkipWhitespace(data, pos) ==> IsWhitespace(data[i])
    decreases |data| - pos
  {
    if pos < |data| && IsWhitespace(data[pos]) {
      SkipWhitespaceRun(data, pos + 1);
    }
  }

  /** The run of whitespace that ends at a significant byte is exactly what
      is skipped. */
  lemma {:induction false} SkipWhitespaceUnique(data: seq<byte>, pos: nat, p: nat)
    requires pos <= p <= |data|
    requires forall i :: pos <= i < p ==> IsWhitespace(data[i])
    requires AtSignificant(data, p)
    ensures SkipWhitespace(data, pos) == p
    decreases p - pos
  {
    if pos < p {
      SkipWhitespaceUnique(data, pos + 1, p);
    }
  }

  /** Skipping whitespace is idempotent, and it reaches the same place from
      any point inside the run it skips. */
  lemma SkipWhitespaceStable(data: seq<byte>, pos: nat, q: nat)
    requires pos <= q <= |data|
    requires q <= SkipWhitespace(data, pos)
    ensures SkipWhitespace(data, q) == SkipWhitespace(data, pos)
    ensures AtSignificant(data, SkipWhitespace(data, pos))
  {
    SkipWhitespaceRun(data, pos);
    SkipWhitespaceUnique(data, q, SkipWhitespace(data, pos));
  }

  /** The input continues with `w` at `pos`. */
  predicate At(data: seq<byte>, pos: nat, w: seq<byte>) {
    pos + |w| <= |data| && forall i :: 0 <= i < |w| ==> data[pos + i] == w[i]
  }

  /** The same as a slice of the input. */
  lemma AtSlice(data: seq<byte>, pos: nat, w: seq<byte>)
    ensures At(data, pos, w) <==> pos + |w| <= |data| && data[pos..pos + |w|] == w
  {
    if pos + |w| <= |data| {
      var s := data[pos..pos + |w|];
      assert forall i :: 0 <= i < |s| ==> s[i] == data[pos + i];
    }
  }

  /** Text found at `pos` splits along a concatenation. */
  lemma AtSplit(data: seq<byte>, pos: nat, x: seq<byte>, y: seq<byte>)
    requires At(data, pos, x + y)
    ensures At(data, pos, x) && At(data, pos + |x|, y)
  {
    forall i | 0 <= i < |x| ensures data[pos + i] == x[i] {
      assert (x + y)[i] == x[i];
    }
    forall i | 0 <= i < |y| ensures data[pos + |x| + i] == y[i] {
      assert (x + y)[|x| + i] == y[i];
    }
  }

  /** A byte, then `x`, then `y`. */
  lemma AtSplitAfter(data: seq<byte>, pos: nat, c: byte, x: seq<byte>, y: seq<byte>)
    requires At(data, pos, [c] + (x + y))
    ensures pos < |data| && data[pos] == c && At(data, pos + 1, x) && At(data, pos + 1 + |x|, y)
  {
    AtSplit(data, pos, [c], x + y);
    AtHead(data, pos, [c]);
    AtSplit(data, pos + 1, x, y);
  }

  /** Text found at `pos` starts with the byte there. */
  lemma AtHead(data: seq<byte>, pos: nat, w: seq<byte>)
    requires At(data, pos, w) && |w| > 0
    ensures data[pos] == w[0] && At(data, pos + 1, w[1..])
  {
    assert data[pos + 0] == w[0];
    forall i | 0 <= i < |w| - 1 ensures data[pos + 1 + i] == w[1..][i] {
      assert data[pos + (i + 1)] == w[i + 1];
    }
  }
}
