/** The public entry point: the empty-input check, the root value, the
    fragment policy, the end-of-input check, and the wrapping of every
    reason into an error with the cursor offset at which it was caught. */
module Parser {
  import opened Ascii
  import opened JsonTypes
  import opened Cursor
  import opened Values

  function Parse(data: seq<byte>, options: Options): (r: ParseResult)
    ensures r == Failure(Error(0, EmptyStream)) <==> |data| == 0
    ensures r.Failure? ==> r.error.byteOffset <= |data|
    ensures r.Success? ==> IsTopLevel(r.value) || options.allowFragments
  {
    if |data| == 0 then Failure(Error(0, EmptyStream))
    else
      match ParseValue(data, SkipWhitespace(data, 0))
      case Err(e, p) => Failure(Error(p, e))
      case Ok(v, p) =>
        if !IsTopLevel(v) && !options.allowFragments then Failure(Error(p, FragmentedJson))
        else
          var q := SkipWhitespace(data, p);
          if q != |data| then Failure(Error(q, InvalidSyntax)) else Success(v)
  }

  /** Every failure of a non-empty input is reported at the cursor: where
      the root value failed, or just after the root value (and the
      whitespace behind it) for a fragment or for trailing bytes, which then
      start with a byte that is not whitespace. */
  lemma ParseFailureOffset(data: seq<byte>, options: Options)
    requires |data| > 0 && Parse(data, options).Failure?
    ensures var r := ParseValue(data, SkipWhitespace(data, 0));
            r.Err? ==> Parse(data, options).error == Error(r.pos, r.reason)
    ensures var r := ParseValue(data, SkipWhitespace(data, 0));
            var e := Parse(data, options).error;
            r.Ok? ==>
              && e.byteOffset == r.pos
              && (e.reason == FragmentedJson ==> !IsTopLevel(r.value) && !options.allowFragments)
              && (e.reason != FragmentedJson ==>
                    e.reason == InvalidSyntax && r.pos < |data| && !IsWhitespace(data[r.pos]))
  {
    var r := ParseValue(data, SkipWhitespace(data, 0));
    if r.Ok? {
      SkipWhitespaceUnique(data, r.pos, r.pos);
    }
  }

  /** A document that parses always ends in its root value followed only
      by whitespace. */
  lemma ParseSuccess(data: seq<byte>, options: Options)
    requires Parse(data, options).Success?
    ensures var r := ParseValue(data, SkipWhitespace(data, 0));
            r.Ok? && r.value == Parse(data, options).value && r.pos == |data|
  {
    var r := ParseValue(data, SkipWhitespace(data, 0));
    SkipWhitespaceUnique(data, r.pos, r.pos);
  }

  /** Strict and lax parsing agree on every input except one whose root
      value is a scalar read without error: there the strict parser refuses
      with `FragmentedJson` at the cursor after the root value and its
      trailing whitespace, whatever follows (so at the end of the input
      when the lax parser accepts the document). */
  lemma FragmentPolicy(data: seq<byte>, skipNull: bool)
    ensures var r := ParseValue(data, SkipWhitespace(data, 0));
            |data| > 0 && r.Ok? && !IsTopLevel(r.value) ==>
              Parse(data, Options(skipNull, false)) == Failure(Error(r.pos, FragmentedJson))
    ensures var strict, lax := Options(skipNull, false), Options(skipNull, true);
            var r := ParseValue(data, SkipWhitespace(data, 0));
            |data| == 0 || !(r.Ok? && !IsTopLevel(r.value)) ==>
              Parse(data, strict) == Parse(data, lax)
    ensures var strict, lax := Options(skipNull, false), Options(skipNull, true);
            Parse(data, lax).Success? && !IsTopLevel(Parse(data, lax).value) ==>
              Parse(data, strict) == Failure(Error(|data|, FragmentedJson))
  {
    if Parse(data, Options(skipNull, true)).Success? {
      ParseSuccess(data, Options(skipNull, true));
    }
  }

  /** The `skipNull` option changes nothing: no null is ever dropped. The
      model reads the option nowhere, because the flag the source tests
      before dropping a member or an element is never set (see the lines
      this lemma cites), so the lemma records that modelling choice rather
      than proving anything about the loops. */
  lemma SkipNullHasNoEffect(data: seq<byte>, allowFragments: bool)
    ensures Parse(data, Options(true, allowFragments)) == Parse(data, Options(false, allowFragments))
  {
  }
}
