/** The literal matcher behind `true`, `false` and `null`. */
module Literals {
  import opened Ascii
  import opened JsonTypes
  import opened Cursor

  /** Pops one byte per expected byte and compares them. */
  function MatchLiteral(data: seq<byte>, pos: nat, lit: seq<byte>): (r: Res<()>)
    requires pos <= |data|
    ensures pos <= r.pos <= |data|
    ensures r.Err? ==> r.reason == EndOfStream || r.reason == InvalidLiteral
    decreases |lit|
  {
    if |lit| == 0 then Ok((), pos)
    else
      match Pop(data, pos)
      case Err(e, p) => Err(e, p)
      case Ok(c, p) =>
        if c != lit[0] then Err(InvalidLiteral, p)
        else MatchLiteral(data, p, lit[1..])
  }

  /** The match succeeds exactly when the input continues with `lit`, and
      then the cursor is just past it. */
  lemma {:induction false} MatchLiteralOk(data: seq<byte>, pos: nat, lit: seq<byte>)
    requires pos <= |data|
    ensures MatchLiteral(data, pos, lit).Ok? <==>
              pos + |lit| <= |data| && data[pos..pos + |lit|] == lit
    ensures MatchLiteral(data, pos, lit).Ok? ==> MatchLiteral(data, pos, lit).pos == pos + |lit|
    decreases |lit|
  {
    if |lit| > 0 && pos < |data| && data[pos] == lit[0] {
      MatchLiteralOk(data, pos + 1, lit[1..]);
      if pos + |lit| <= |data| {
        assert data[pos..pos + |lit|] == [data[pos]] + data[pos + 1..pos + 1 + |lit[1..]|];
        assert lit == [lit[0]] + lit[1..];
      }
    }
  }

  /** A mismatch is reported just after the first byte that differs from
      `lit`, every byte before it having matched. */
  lemma {:induction false} MatchLiteralMismatch(data: seq<byte>, pos: nat, lit: seq<byte>)
    requires pos <= |data|
    requires MatchLiteral(data, pos, lit).Err?
    requires MatchLiteral(data, pos, lit).reason == InvalidLiteral
    ensures var q := MatchLiteral(data, pos, lit).pos;
            pos < q <= pos + |lit| &&
            data[pos..q - 1] == lit[..q - 1 - pos] &&
            data[q - 1] != lit[q - 1 - pos]
    decreases |lit|
  {
    if data[pos] == lit[0] {
      MatchLiteralMismatch(data, pos + 1, lit[1..]);
      var q := MatchLiteral(data, pos, lit).pos;
      assert data[pos..q - 1] == [data[pos]] + data[pos + 1..q - 1];
      assert lit[..q - 1 - pos] == [lit[0]] + lit[1..][..q - 1 - (pos + 1)];
    }
  }

  /** Running out of input is reported at the end, and only when the input
      left is a proper prefix of `lit`. */
  lemma {:induction false} MatchLiteralEnd(data: seq<byte>, pos: nat, lit: seq<byte>)
    requires pos <= |data|
    ensures MatchLiteral(data, pos, lit).Err? && MatchLiteral(data, pos, lit).reason == EndOfStream
            <==> |data| - pos < |lit| && data[pos..] == lit[..|data| - pos]
    ensures MatchLiteral(data, pos, lit).Err? && MatchLiteral(data, pos, lit).reason == EndOfStream
            ==> MatchLiteral(data, pos, lit).pos == |data|
    decreases |lit|
  {
    if |lit| > 0 && pos < |data| {
      MatchLiteralEnd(data, pos + 1, lit[1..]);
      assert data[pos..] == [data[pos]] + data[pos + 1..];
      assert lit == [lit[0]] + lit[1..];
      if |data| - pos < |lit| {
        assert lit[..|data| - pos] == [lit[0]] + lit[1..][..|data| - (pos + 1)];
      }
    }
  }
}
