/** The recursive-descent core: the value dispatcher, the array parser with
    its comma state, the object parser and the colon between key and
    value. Every function takes the input and a cursor and returns a value
    with the cursor after it, or a reason with the cursor where it was
    raised. */
module Values {
  import opened Ascii
  import opened JsonTypes
  import opened Cursor
  import opened Literals
  import opened Numbers
  import opened Strings

  /** What the dispatcher reports as "top-level": the value came from the
      object or the array branch. */
  predicate IsTopLevel(j: Json) {
    j.Object? || j.Array?
  }

  /** The reasons the value parsers raise; `EmptyStream` and
      `FragmentedJson` belong to the entry point alone. */
  predicate InnerReason(e: Reason) {
    e != EmptyStream && e != FragmentedJson
  }

  /** Whitespace, one `:`, whitespace. */
  function SkipColon(data: seq<byte>, pos: nat): (r: Res<()>)
    requires pos <= |data|
    ensures pos <= r.pos <= |data|
    ensures r.Ok? <==> SkipWhitespace(data, pos) < |data| && data[SkipWhitespace(data, pos)] == Colon
    ensures r.Ok? ==> r.pos == SkipWhitespace(data, SkipWhitespace(data, pos) + 1)
    ensures r.Err? && r.reason == EndOfStream <==> r.Err? && SkipWhitespace(data, pos) == |data|
    ensures r.Err? ==> r.reason in {EndOfStream, ExpectedColon}
    ensures r.Err? && r.reason == ExpectedColon ==> r.pos == SkipWhitespace(data, pos) + 1
  {
    match Pop(data, SkipWhitespace(data, pos))
    case Err(e, p) => Err(e, p)
    case Ok(c, p) => if c != Colon then Err(ExpectedColon, p) else Ok((), SkipWhitespace(data, p))
  }

  /** One value, with the whitespace after it skipped whether it succeeds
      or fails. */
  function ParseValue(data: seq<byte>, pos: nat): (r: Res<Json>)
    requires pos <= |data|
    ensures pos <= r.pos <= |data|
    ensures r.Ok? ==> pos < r.pos
    ensures AtSignificant(data, r.pos)
    ensures r.Ok? ==> (IsTopLevel(r.value) <==> data[pos] == ObjectOpen || data[pos] == ArrayOpen)
    ensures r.Err? ==> InnerReason(r.reason)
    decreases |data| - pos, 2
  {
    match Dispatch(data, pos)
    case Ok(v, p) => SkipWhitespaceStable(data, p, p); Ok(v, SkipWhitespace(data, p))
    case Err(e, p) => SkipWhitespaceStable(data, p, p); Err(e, SkipWhitespace(data, p))
  }

  /** The branch on the first byte of a value. */
  function Dispatch(data: seq<byte>, pos: nat): (r: Res<Json>)
    requires pos <= |data|
    ensures pos <= r.pos <= |data|
    ensures r.Ok? ==> pos < r.pos
    ensures r.Ok? ==> (IsTopLevel(r.value) <==> data[pos] == ObjectOpen || data[pos] == ArrayOpen)
    ensures r.Err? ==> InnerReason(r.reason)
    ensures var c := Peek(data, pos);
            !(c == ObjectOpen || c == ArrayOpen || c == Quote || c == Minus || IsDigit(c) ||
              c == LowerF || c == LowerT || c == LowerN) ==>
              r == Err(InvalidSyntax, pos)
    decreases |data| - pos, 1
  {
    var c := Peek(data, pos);
    if c == ObjectOpen then ParseObject(data, pos)
    else if c == ArrayOpen then ParseArray(data, pos)
    else if c == Quote then
      match ParseString(data, pos)
      case Ok(s, p) => Ok(String(s), p)
      case Err(e, p) => Err(e, p)
    else if c == Minus || IsDigit(c) then
      match ParseNumber(data, pos)
      case Ok(n, p) => Ok(Number(n), p)
      case Err(e, p) => Err(e, p)
    else if c == LowerF then Literal(data, pos, Alse, Bool(false))
    else if c == LowerT then Literal(data, pos, Rue, Bool(true))
    else if c == LowerN then Literal(data, pos, Ull, Null)
    else Err(InvalidSyntax, pos)
  }

  /** A literal whose first letter is at `pos`: the rest must follow. */
  function Literal(data: seq<byte>, pos: nat, rest: seq<byte>, v: Json): (r: Res<Json>)
    requires pos < |data|
    ensures pos < r.pos <= |data|
    ensures r.Ok? <==> At(data, pos + 1, rest)
    ensures r.Ok? ==> r == Ok(v, pos + 1 + |rest|)
    ensures r.Err? ==> r.reason in {EndOfStream, InvalidLiteral}
  {
    MatchLiteralOk(data, pos + 1, rest);
    match MatchLiteral(data, pos + 1, rest)
    case Ok(_, p) => Ok(v, p)
    case Err(e, p) => Err(e, p)
  }

  /** `[`, whitespace, then the elements. */
  function ParseArray(data: seq<byte>, pos: nat): (r: Res<Json>)
    requires pos < |data| && data[pos] == ArrayOpen
    ensures pos < r.pos <= |data|
    ensures r.Ok? ==> r.value.Array? && data[r.pos - 1] == ArrayClose
    ensures r.Err? ==> InnerReason(r.reason)
    decreases |data| - pos, 0
  {
    ArrayItems(data, SkipWhitespace(data, pos + 1), [], false)
  }

  /** The array loop at a significant byte, with the elements so far and
      whether the last token was a comma. */
  function ArrayItems(data: seq<byte>, pos: nat, items: seq<Json>, wasComma: bool): (r: Res<Json>)
    requires pos <= |data|
    ensures pos <= r.pos <= |data|
    ensures r.Ok? ==> pos < r.pos && r.value.Array? && data[r.pos - 1] == ArrayClose
    ensures r.Err? ==> InnerReason(r.reason)
    decreases |data| - pos, 3
  {
    var c := Peek(data, pos);
    if c == Comma then
      if wasComma then Err(InvalidSyntax, pos)
      else if |items| == 0 then Err(InvalidSyntax, pos)
      else ArrayItems(data, SkipWhitespace(data, pos + 1), items, true)
    else if c == ArrayClose then
      if wasComma then Err(TrailingComma, pos)
      else Ok(Array(items), pos + 1)
    else if |items| > 0 && !wasComma then Err(ExpectedComma, pos)
    else
      match ParseValue(data, pos)
      case Err(e, p) => Err(e, p)
      case Ok(v, p) => ArrayItems(data, SkipWhitespace(data, p), items + [v], false)
  }

  /** `{`, whitespace, then `}` at once or the members. */
  function ParseObject(data: seq<byte>, pos: nat): (r: Res<Json>)
    requires pos < |data| && data[pos] == ObjectOpen
    ensures pos < r.pos <= |data|
    ensures r.Ok? ==> r.value.Object? && data[r.pos - 1] == ObjectClose
    ensures r.Err? ==> InnerReason(r.reason)
    decreases |data| - pos, 0
  {
    var p := SkipWhitespace(data, pos + 1);
    if Peek(data, p) == ObjectClose then Ok(Object([]), p + 1)
    else ObjectMembers(data, p, [])
  }

  /** The object loop: a member, a comma (consumed without any check), the
      closing brace, or an error. */
  function ObjectMembers(data: seq<byte>, pos: nat, members: seq<(seq<byte>, Json)>): (r: Res<Json>)
    requires pos <= |data|
    ensures pos <= r.pos <= |data|
    ensures r.Ok? ==> pos < r.pos && r.value.Object? && data[r.pos - 1] == ObjectClose
    ensures r.Err? ==> InnerReason(r.reason)
    ensures var c := Peek(data, pos);
            c != Quote && c != Comma && c != ObjectClose ==> r == Err(InvalidSyntax, pos)
    decreases |data| - pos, 3
  {
    var c := Peek(data, pos);
    if c == Quote then
      match ParseString(data, pos)
      case Err(e, p) => Err(e, p)
      case Ok(key, p) =>
        match SkipColon(data, p)
        case Err(e, q) => Err(e, q)
        case Ok(_, q) =>
          match ParseValue(data, q)
          case Err(e, s) => Err(e, s)
          case Ok(v, s) => ObjectMembers(data, s, members + [(key, v)])
    else if c == Comma then ObjectMembers(data, SkipWhitespace(data, pos + 1), members)
    else if c == ObjectClose then Ok(Object(members), pos + 1)
    else Err(InvalidSyntax, pos)
  }
}
