/** A reference encoder from documents to compact text, and the proof that
    the parser reads every encoded document back as the same tree: the
    partner of the whole engine. Elements and members keep their order and
    duplicate keys survive, since the tree they come back in is the same.

    The proofs below hide the parser's own definitions and reason only
    through the step rules of `ValueRules`, one byte of the loop at a time. */
module Encoder {
  import opened Ascii
  import opened JsonTypes
  import opened Cursor
  import opened Digits
  import opened Numbers
  import opened NumberSyntax
  import opened Strings
  import opened StringSyntax
  import opened Values
  import opened Parser
  import opened ValueRules

  /** The bytes a value can start with. */
  predicate StartsValue(c: int) {
    c == LowerN || c == LowerT || c == LowerF || c == Quote ||
    c == ArrayOpen || c == ObjectOpen || c == Minus || IsDigit(c)
  }

  /** A number the scanner can produce: every accumulator of a decimal fits
      in 64 unsigned bits and the fraction has room for its digits. */
  predicate EncodableNumber(n: Number) {
    n.Double? ==>
      var d := n.decimal;
      && d.significand <= UInt64Max && d.mantissa <= UInt64Max && d.exponent <= UInt64Max
      && d.mantissa < Pow10(d.fractionDigits)
  }

  /** Every number inside the document can be produced by the scanner. */
  predicate Encodable(j: Json)
    decreases j, 1
  {
    match j
    case Number(n) => EncodableNumber(n)
    case Array(es) => AllEncodable(es)
    case Object(ms) => forall i :: 0 <= i < |ms| ==> Encodable(ms[i].1)
    case _ => true
  }

  predicate AllEncodable(es: seq<Json>)
    decreases es, 0
  {
    |es| == 0 || (Encodable(es[0]) && AllEncodable(es[1..]))
  }

  predicate AllMembersEncodable(ms: seq<(seq<byte>, Json)>) {
    |ms| == 0 || (Encodable(ms[0].1) && AllMembersEncodable(ms[1..]))
  }

  /** The member-wise reading of an object's encodability. */
  lemma {:induction false} MembersEncodable(ms: seq<(seq<byte>, Json)>)
    ensures Encodable(Object(ms)) <==> AllMembersEncodable(ms)
    decreases ms
  {
    if |ms| > 0 {
      MembersEncodable(ms[1..]);
      assert forall i :: 0 <= i < |ms[1..]| ==> ms[1..][i] == ms[i + 1];
    }
  }

  function Magnitude(i: int): nat {
    if i < 0 then -i else i
  }

  /** The literal an encoder writes for a number: the shortest digits of an
      integer, and for a decimal its significand, the fraction zero-padded
      to its digit count, and always an exponent, so that a decimal without
      fraction digits is not read back as an integer. */
  function NumberSource(n: Number): (t: NumberText)
    ensures WellFormed(t)
  {
    match n
    case Integer(i) => NumberText(i < 0, DecimalDigits(Magnitude(i)), None, None)
    case Double(d) =>
      var sign := if d.negativeExponent then Some(Minus) else None;
      NumberText(
        d.negative, DecimalDigits(d.significand),
        if d.fractionDigits > 0 then Some(DigitsOf(d.mantissa, d.fractionDigits)) else None,
        Some(ExponentText(LowerE, sign, DecimalDigits(d.exponent))))
  }

  /** The literal written for a number the scanner can produce denotes that
      number, and every accumulator it feeds fits. */
  lemma {:induction false} NumberSourceMeaning(n: Number)
    requires EncodableNumber(n)
    ensures Fits(NumberSource(n)) && Interpret(NumberSource(n)) == Some(n)
  {
    if n.Double? {
      DigitsOfValue(n.decimal.mantissa, n.decimal.fractionDigits);
    }
  }

  /** A rendered literal starts with its sign or its first digit. */
  lemma {:induction false} RenderStart(t: NumberText)
    requires WellFormed(t)
    ensures |Render(t)| >= 1 && (Render(t)[0] == Minus || IsDigit(Render(t)[0]))
  {
    if t.negative {
      assert Render(t)[0] == SignText(t)[0];
    } else {
      assert Render(t)[0] == t.integral[0];
    }
  }

  /** The compact text of a document. */
  function Encode(j: Json): seq<byte>
    decreases j, 1
  {
    match j
    case Null => [LowerN] + Ull
    case Bool(b) => if b then [LowerT] + Rue else [LowerF] + Alse
    case String(s) => StringText(s)
    case Number(n) => Render(NumberSource(n))
    case Array(es) => [ArrayOpen] + Elements(es) + [ArrayClose]
    case Object(ms) => [ObjectOpen] + Members(ms) + [ObjectClose]
  }

  /** Every encoded value starts with a byte that starts a value. */
  lemma {:induction false} EncodeStart(j: Json)
    ensures |Encode(j)| >= 1 && StartsValue(Encode(j)[0])
  {
    match j
    case Number(n) => RenderStart(NumberSource(n));
    case _ =>
  }

  function Elements(es: seq<Json>): seq<byte>
    decreases es, 0
  {
    if |es| == 0 then [] else Encode(es[0]) + CommaElements(es[1..])
  }

  /** Each element preceded by a comma. */
  function CommaElements(es: seq<Json>): seq<byte>
    decreases es, 0
  {
    if |es| == 0 then [] else [Comma] + Encode(es[0]) + CommaElements(es[1..])
  }

  function Member(m: (seq<byte>, Json)): seq<byte>
    decreases m, 0
  {
    StringText(m.0) + [Colon] + Encode(m.1)
  }

  function Members(ms: seq<(seq<byte>, Json)>): seq<byte>
    decreases ms, 0
  {
    if |ms| == 0 then [] else Member(ms[0]) + CommaMembers(ms[1..])
  }

  /** Each member preceded by a comma. */
  function CommaMembers(ms: seq<(seq<byte>, Json)>): seq<byte>
    decreases ms, 0
  {
    if |ms| == 0 then [] else [Comma] + Member(ms[0]) + CommaMembers(ms[1..])
  }

  /** What may follow a value inside a document: its end, a comma or a
      closing bracket. */
  predicate Follows(data: seq<byte>, e: nat) {
    e == |data| || (e < |data| && (data[e] == Comma || data[e] == ArrayClose || data[e] == ObjectClose))
  }

  /** The rest of an array after an element starts with a comma or the
      closing bracket. */
  lemma {:induction false} FollowsElements(data: seq<byte>, pos: nat, es: seq<Json>)
    requires At(data, pos, CommaElements(es) + [ArrayClose])
    ensures Follows(data, pos)
  {
    AtHead(data, pos, CommaElements(es) + [ArrayClose]);
  }

  lemma {:induction false} FollowsMembers(data: seq<byte>, pos: nat, ms: seq<(seq<byte>, Json)>)
    requires At(data, pos, CommaMembers(ms) + [ObjectClose])
    ensures Follows(data, pos)
  {
    AtHead(data, pos, CommaMembers(ms) + [ObjectClose]);
  }

  /** An element taken off the front of a sequence and appended to another. */
  lemma {:induction false} MoveFirst<T>(xs: seq<T>, ys: seq<T>)
    requires |ys| > 0
    ensures xs + [ys[0]] + ys[1..] == xs + ys
  {
    assert [ys[0]] + ys[1..] == ys;
  }

  /** A non-empty sequence is its first element and the rest. */
  lemma {:induction false} FirstAndRest<T>(ys: seq<T>)
    requires |ys| > 0
    ensures [ys[0]] + ys[1..] == ys && [] + [ys[0]] == [ys[0]]
  {
  }

  lemma {:induction false} Associate<T>(a: seq<T>, b: seq<T>, c: seq<T>)
    ensures a + b + c == a + (b + c)
  {
  }

  /** The encoded parts of an array: the opening bracket, then the elements
      and the closing bracket, the first element ahead of the rest. */
  lemma {:induction false} ArrayTextSplit(es: seq<Json>)
    ensures [ArrayOpen] + Elements(es) + [ArrayClose] == [ArrayOpen] + (Elements(es) + [ArrayClose])
    ensures |es| == 0 ==> Elements(es) + [ArrayClose] == [ArrayClose]
    ensures |es| > 0 ==> Elements(es) + [ArrayClose] == Encode(es[0]) + (CommaElements(es[1..]) + [ArrayClose])
    ensures |es| == 0 ==> CommaElements(es) + [ArrayClose] == [ArrayClose]
    ensures |es| > 0 ==>
              CommaElements(es) + [ArrayClose] == [Comma] + (Encode(es[0]) + (CommaElements(es[1..]) + [ArrayClose]))
  {
    Associate([ArrayOpen], Elements(es), [ArrayClose]);
    if |es| > 0 {
      Associate(Encode(es[0]), CommaElements(es[1..]), [ArrayClose]);
      Associate([Comma], Encode(es[0]), CommaElements(es[1..]));
      Associate([Comma] + Encode(es[0]), CommaElements(es[1..]), [ArrayClose]);
      Associate([Comma], Encode(es[0]), CommaElements(es[1..]) + [ArrayClose]);
    }
  }

  /** The same for an object and its members. */
  lemma {:induction false} ObjectTextSplit(ms: seq<(seq<byte>, Json)>)
    ensures [ObjectOpen] + Members(ms) + [ObjectClose] == [ObjectOpen] + (Members(ms) + [ObjectClose])
    ensures |ms| == 0 ==> Members(ms) + [ObjectClose] == [ObjectClose]
    ensures |ms| > 0 ==> Members(ms) + [ObjectClose] == Member(ms[0]) + (CommaMembers(ms[1..]) + [ObjectClose])
    ensures |ms| == 0 ==> CommaMembers(ms) + [ObjectClose] == [ObjectClose]
    ensures |ms| > 0 ==>
              CommaMembers(ms) + [ObjectClose] == [Comma] + (Member(ms[0]) + (CommaMembers(ms[1..]) + [ObjectClose]))
  {
    Associate([ObjectOpen], Members(ms), [ObjectClose]);
    if |ms| > 0 {
      Associate(Member(ms[0]), CommaMembers(ms[1..]), [ObjectClose]);
      Associate([Comma], Member(ms[0]), CommaMembers(ms[1..]));
      Associate([Comma] + Member(ms[0]), CommaMembers(ms[1..]), [ObjectClose]);
      Associate([Comma], Member(ms[0]), CommaMembers(ms[1..]) + [ObjectClose]);
    }
  }

  /** An encoded value followed by a comma, a closing bracket or the end is
      read back as the same value, ending just after its text. */
  lemma {:induction false} EncodeParses(data: seq<byte>, pos: nat, j: Json)
    requires Encodable(j) && At(data, pos, Encode(j)) && Follows(data, pos + |Encode(j)|)
    ensures ParseValue(data, pos) == Ok(j, pos + |Encode(j)|)
    decreases j, 2
  {
    hide ParseValue, Dispatch, Literal, ParseArray, ArrayItems, ParseObject, ObjectMembers, ParseString, SkipColon, ParseNumber;
    match j
    case Null => LiteralParses(data, pos, LowerN, Ull, Null);
    case Bool(b) =>
      if b {
        LiteralParses(data, pos, LowerT, Rue, Bool(true));
      } else {
        LiteralParses(data, pos, LowerF, Alse, Bool(false));
      }
    case String(s) => StringParses(data, pos, s);
    case Number(n) => NumberParses(data, pos, n);
    case Array(es) => ArrayValueParses(data, pos, es);
    case Object(ms) =>
      MembersEncodable(ms);
      ObjectValueParses(data, pos, ms);
  }

  lemma {:induction false} LiteralParses(data: seq<byte>, pos: nat, first: byte, rest: seq<byte>, v: Json)
    requires || (first == LowerN && rest == Ull && v == Null)
             || (first == LowerT && rest == Rue && v == Bool(true))
             || (first == LowerF && rest == Alse && v == Bool(false))
    requires At(data, pos, [first] + rest) && Follows(data, pos + 1 + |rest|)
    ensures ParseValue(data, pos) == Ok(v, pos + 1 + |rest|)
  {
    hide ParseValue, ParseArray, ArrayItems, ParseObject, ObjectMembers, ParseString, SkipColon, ParseNumber;
    AtSplit(data, pos, [first], rest);
    AtHead(data, pos, [first]);
    ValueEndRule(data, pos, v, pos + 1 + |rest|);
  }

  lemma {:induction false} StringParses(data: seq<byte>, pos: nat, s: seq<byte>)
    requires At(data, pos, StringText(s)) && Follows(data, pos + |StringText(s)|)
    ensures ParseValue(data, pos) == Ok(String(s), pos + |StringText(s)|)
  {
    hide ParseValue, Literal, ParseArray, ArrayItems, ParseObject, ObjectMembers, SkipColon, ParseNumber;
    ParseStringText(data, pos, s);
    ValueEndRule(data, pos, String(s), pos + |StringText(s)|);
  }

  lemma {:induction false} NumberParses(data: seq<byte>, pos: nat, n: Number)
    requires EncodableNumber(n)
    requires At(data, pos, Render(NumberSource(n))) && Follows(data, pos + |Render(NumberSource(n))|)
    ensures ParseValue(data, pos) == Ok(Number(n), pos + |Render(NumberSource(n))|)
  {
    hide ParseValue, Literal, ParseArray, ArrayItems, ParseObject, ObjectMembers, ParseString, SkipColon;
    NumberScans(data, pos, n);
    ValueEndRule(data, pos, Number(n), pos + |Render(NumberSource(n))|);
  }

  /** The number scanner reads an encoded number back, starting at its sign
      or its first digit. */
  lemma {:induction false} NumberScans(data: seq<byte>, pos: nat, n: Number)
    requires EncodableNumber(n)
    requires At(data, pos, Render(NumberSource(n))) && Follows(data, pos + |Render(NumberSource(n))|)
    ensures data[pos] == Minus || IsDigit(data[pos])
    ensures ParseNumber(data, pos) == Ok(n, pos + |Render(NumberSource(n))|)
  {
    var t := NumberSource(n);
    AtSlice(data, pos, Render(t));
    NumberSourceMeaning(n);
    ParseNumberText(data, pos, t);
  }

  lemma {:induction false} ArrayValueParses(data: seq<byte>, pos: nat, es: seq<Json>)
    requires AllEncodable(es)
    requires At(data, pos, [ArrayOpen] + Elements(es) + [ArrayClose])
    requires Follows(data, pos + |Elements(es)| + 2)
    ensures ParseValue(data, pos) == Ok(Array(es), pos + |Elements(es)| + 2)
    decreases es, 3
  {
    hide ParseValue, Literal, ArrayItems, ParseObject, ObjectMembers, ParseString, SkipColon, ParseNumber;
    ArrayParses(data, pos, es);
    ValueEndRule(data, pos, Array(es), pos + |Elements(es)| + 2);
  }

  lemma {:induction false} ObjectValueParses(data: seq<byte>, pos: nat, ms: seq<(seq<byte>, Json)>)
    requires AllMembersEncodable(ms)
    requires At(data, pos, [ObjectOpen] + Members(ms) + [ObjectClose])
    requires Follows(data, pos + |Members(ms)| + 2)
    ensures ParseValue(data, pos) == Ok(Object(ms), pos + |Members(ms)| + 2)
    decreases ms, 9
  {
    hide ParseValue, Literal, ParseArray, ArrayItems, ObjectMembers, ParseString, SkipColon, ParseNumber;
    ObjectParses(data, pos, ms);
    ValueEndRule(data, pos, Object(ms), pos + |Members(ms)| + 2);
  }

  /** An encoded value with a comma, a bracket or the end after it: it starts
      with a byte that starts a value, and is read back up to its end. */
  lemma {:induction false} ValueReads(data: seq<byte>, pos: nat, j: Json)
    requires Encodable(j) && At(data, pos, Encode(j)) && Follows(data, pos + |Encode(j)|)
    ensures pos < |data| && StartsValue(data[pos]) && !IsWhitespace(data[pos])
    ensures ParseValue(data, pos) == Ok(j, pos + |Encode(j)|)
    ensures SkipWhitespace(data, pos + |Encode(j)|) == pos + |Encode(j)|
    decreases j, 3
  {
    hide ParseValue, Dispatch, Literal, ParseArray, ArrayItems, ParseObject, ObjectMembers, ParseString, SkipColon, ParseNumber;
    EncodeStart(j);
    AtHead(data, pos, Encode(j));
    EncodeParses(data, pos, j);
    SkipWhitespaceUnique(data, pos + |Encode(j)|, pos + |Encode(j)|);
  }

  /** The opening bracket of an encoded array and the text after it. */
  lemma {:induction false} ArrayOpenLayout(data: seq<byte>, pos: nat, es: seq<Json>)
    requires At(data, pos, [ArrayOpen] + Elements(es) + [ArrayClose])
    ensures pos < |data| && data[pos] == ArrayOpen && At(data, pos + 1, Elements(es) + [ArrayClose])
  {
    hide ParseValue, Dispatch, Literal, ParseArray, ArrayItems, ParseObject, ObjectMembers, ParseString, SkipColon, ParseNumber;
    ArrayTextSplit(es);
    AtSplit(data, pos, [ArrayOpen], Elements(es) + [ArrayClose]);
    AtHead(data, pos, [ArrayOpen]);
  }

  /** The first element of a non-empty array and the text after it. */
  lemma {:induction false} FirstElementLayout(data: seq<byte>, pos: nat, es: seq<Json>)
    requires |es| > 0 && AllEncodable(es) && At(data, pos, Elements(es) + [ArrayClose])
    ensures var q := pos + |Encode(es[0])|;
            && Encodable(es[0]) && AllEncodable(es[1..])
            && At(data, pos, Encode(es[0])) && At(data, q, CommaElements(es[1..]) + [ArrayClose])
            && Follows(data, q) && |Elements(es)| == |Encode(es[0])| + |CommaElements(es[1..])|
  {
    hide ParseValue, Dispatch, Literal, ParseArray, ArrayItems, ParseObject, ObjectMembers, ParseString, SkipColon, ParseNumber;
    ArrayTextSplit(es);
    AtSplit(data, pos, Encode(es[0]), CommaElements(es[1..]) + [ArrayClose]);
    FollowsElements(data, pos + |Encode(es[0])|, es[1..]);
  }

  /** A comma, the next element and the text after it. */
  lemma {:induction false} CommaElementLayout(data: seq<byte>, pos: nat, es: seq<Json>)
    requires |es| > 0 && AllEncodable(es) && At(data, pos, CommaElements(es) + [ArrayClose])
    ensures var q := pos + 1 + |Encode(es[0])|;
            && pos < |data| && data[pos] == Comma
            && Encodable(es[0]) && AllEncodable(es[1..])
            && At(data, pos + 1, Encode(es[0])) && At(data, q, CommaElements(es[1..]) + [ArrayClose])
            && Follows(data, q) && |CommaElements(es)| == 1 + |Encode(es[0])| + |CommaElements(es[1..])|
  {
    hide ParseValue, Dispatch, Literal, ParseArray, ArrayItems, ParseObject, ObjectMembers, ParseString, SkipColon, ParseNumber;
    ArrayTextSplit(es);
    AtSplitAfter(data, pos, Comma, Encode(es[0]), CommaElements(es[1..]) + [ArrayClose]);
    FollowsElements(data, pos + 1 + |Encode(es[0])|, es[1..]);
  }

  /** An empty array is its two brackets. */
  lemma {:induction false} EmptyArrayParses(data: seq<byte>, pos: nat, es: seq<Json>)
    requires |es| == 0 && At(data, pos, [ArrayOpen] + Elements(es) + [ArrayClose])
    ensures pos < |data| && data[pos] == ArrayOpen
    ensures ParseArray(data, pos) == Ok(Array(es), pos + |Elements(es)| + 2)
  {
    hide ParseValue, Dispatch, Literal, ParseArray, ArrayItems, ParseObject, ObjectMembers, ParseString, SkipColon, ParseNumber;
    ArrayOpenLayout(data, pos, es);
    ArrayTextSplit(es);
    AtHead(data, pos + 1, [ArrayClose]);
    EmptyArrayRule(data, pos);
  }

  /** The closing bracket once no element is left ends the array. */
  lemma {:induction false} ArrayTailEnd(data: seq<byte>, pos: nat, items: seq<Json>, es: seq<Json>)
    requires |es| == 0 && At(data, pos, CommaElements(es) + [ArrayClose])
    ensures ArrayItems(data, pos, items, false) == Ok(Array(items + es), pos + |CommaElements(es)| + 1)
  {
    hide ParseValue, Dispatch, Literal, ParseArray, ArrayItems, ParseObject, ObjectMembers, ParseString, SkipColon, ParseNumber;
    ArrayTextSplit(es);
    AtHead(data, pos, [ArrayClose]);
    ArrayCloseStep(data, pos, items);
    assert items + es == items;
  }

  /** An encoded array is read back by the array parser, up to its closing
      bracket. */
  lemma {:induction false} ArrayParses(data: seq<byte>, pos: nat, es: seq<Json>)
    requires AllEncodable(es)
    requires At(data, pos, [ArrayOpen] + Elements(es) + [ArrayClose])
    ensures pos < |data| && data[pos] == ArrayOpen
    ensures ParseArray(data, pos) == Ok(Array(es), pos + |Elements(es)| + 2)
    decreases es, 2
  {
    hide ParseValue, Dispatch, Literal, ParseArray, ArrayItems, ParseObject, ObjectMembers, ParseString, SkipColon, ParseNumber;
    if |es| == 0 {
      EmptyArrayParses(data, pos, es);
    } else {
      NonEmptyArrayParses(data, pos, es);
    }
  }

  /** A non-empty array: its first element, then the rest. */
  lemma {:induction false} NonEmptyArrayParses(data: seq<byte>, pos: nat, es: seq<Json>)
    requires |es| > 0 && AllEncodable(es)
    requires At(data, pos, [ArrayOpen] + Elements(es) + [ArrayClose])
    ensures pos < |data| && data[pos] == ArrayOpen
    ensures ParseArray(data, pos) == Ok(Array(es), pos + |Elements(es)| + 2)
    decreases es, 1
  {
    hide ParseValue, Dispatch, Literal, ParseArray, ArrayItems, ParseObject, ObjectMembers, ParseString, SkipColon, ParseNumber;
    ArrayOpenLayout(data, pos, es);
    var q := pos + 1 + |Encode(es[0])|;
    FirstElementParses(data, pos + 1, es);
    ArrayOpenRule(data, pos);
    ArrayTail(data, q, [es[0]], es[1..]);
    FirstAndRest(es);
  }

  /** The array loop, empty so far, reads the first element and goes on
      after it. */
  lemma {:induction false} FirstElementParses(data: seq<byte>, pos: nat, es: seq<Json>)
    requires |es| > 0 && AllEncodable(es) && At(data, pos, Elements(es) + [ArrayClose])
    ensures var q := pos + |Encode(es[0])|;
            && pos < |data| && !IsWhitespace(data[pos])
            && ArrayItems(data, pos, [], false) == ArrayItems(data, q, [es[0]], false)
            && AllEncodable(es[1..]) && At(data, q, CommaElements(es[1..]) + [ArrayClose])
            && |Elements(es)| == |Encode(es[0])| + |CommaElements(es[1..])|
    decreases es, 0
  {
    hide ParseValue, Dispatch, Literal, ParseArray, ArrayItems, ParseObject, ObjectMembers, ParseString, SkipColon, ParseNumber;
    var e := pos + |Encode(es[0])|;
    FirstElementLayout(data, pos, es);
    assert pos < |data| && StartsValue(data[pos]) && !IsWhitespace(data[pos])
           && ParseValue(data, pos) == Ok(es[0], e) && SkipWhitespace(data, e) == e by {
      ValueReads(data, pos, es[0]);
    }
    FirstElementRule(data, pos, es[0], e);
  }

  /** A comma and the next element: the array loop appends the element and
      goes on after it. */
  lemma {:induction false} CommaElementParses(data: seq<byte>, pos: nat, items: seq<Json>, es: seq<Json>)
    requires |items| > 0 && |es| > 0 && AllEncodable(es)
    requires At(data, pos, CommaElements(es) + [ArrayClose])
    ensures var q := pos + 1 + |Encode(es[0])|;
            && ArrayItems(data, pos, items, false) == ArrayItems(data, q, items + [es[0]], false)
            && AllEncodable(es[1..]) && At(data, q, CommaElements(es[1..]) + [ArrayClose])
            && |CommaElements(es)| == 1 + |Encode(es[0])| + |CommaElements(es[1..])|
    decreases es, 0
  {
    hide ParseValue, Dispatch, Literal, ParseArray, ArrayItems, ParseObject, ObjectMembers, ParseString, SkipColon, ParseNumber;
    var e := pos + 1 + |Encode(es[0])|;
    CommaElementLayout(data, pos, es);
    assert pos + 1 < |data| && StartsValue(data[pos + 1]) && !IsWhitespace(data[pos + 1])
           && ParseValue(data, pos + 1) == Ok(es[0], e) && SkipWhitespace(data, e) == e by {
      ValueReads(data, pos + 1, es[0]);
    }
    CommaElementRule(data, pos, items, es[0], e);
  }

  /** After an element, the array loop reads the comma-separated rest and
      the closing bracket, appending the elements in order. */
  lemma {:induction false} ArrayTail(data: seq<byte>, pos: nat, items: seq<Json>, es: seq<Json>)
    requires |items| > 0
    requires AllEncodable(es)
    requires At(data, pos, CommaElements(es) + [ArrayClose])
    ensures ArrayItems(data, pos, items, false) == Ok(Array(items + es), pos + |CommaElements(es)| + 1)
    decreases es, 2
  {
    hide ParseValue, Dispatch, Literal, ParseArray, ArrayItems, ParseObject, ObjectMembers, ParseString, SkipColon, ParseNumber;
    if |es| == 0 {
      ArrayTailEnd(data, pos, items, es);
    } else {
      ArrayTailStep(data, pos, items, es);
    }
  }

  /** The next element, then the rest of the array after it. */
  lemma {:induction false} ArrayTailStep(data: seq<byte>, pos: nat, items: seq<Json>, es: seq<Json>)
    requires |items| > 0 && |es| > 0
    requires AllEncodable(es)
    requires At(data, pos, CommaElements(es) + [ArrayClose])
    ensures ArrayItems(data, pos, items, false) == Ok(Array(items + es), pos + |CommaElements(es)| + 1)
    decreases es, 1
  {
    hide ParseValue, Dispatch, Literal, ParseArray, ArrayItems, ParseObject, ObjectMembers, ParseString, SkipColon, ParseNumber;
    var q := pos + 1 + |Encode(es[0])|;
    CommaElementParses(data, pos, items, es);
    ArrayTail(data, q, items + [es[0]], es[1..]);
    MoveFirst(items, es);
  }

  /** The opening brace of an encoded object and the text after it. */
  lemma {:induction false} ObjectOpenLayout(data: seq<byte>, pos: nat, ms: seq<(seq<byte>, Json)>)
    requires At(data, pos, [ObjectOpen] + Members(ms) + [ObjectClose])
    ensures pos < |data| && data[pos] == ObjectOpen && At(data, pos + 1, Members(ms) + [ObjectClose])
  {
    hide ParseValue, Dispatch, Literal, ParseArray, ArrayItems, ParseObject, ObjectMembers, ParseString, SkipColon, ParseNumber;
    ObjectTextSplit(ms);
    AtSplit(data, pos, [ObjectOpen], Members(ms) + [ObjectClose]);
    AtHead(data, pos, [ObjectOpen]);
  }

  /** The first member of a non-empty object and the text after it. */
  lemma {:induction false} FirstMemberLayout(data: seq<byte>, pos: nat, ms: seq<(seq<byte>, Json)>)
    requires |ms| > 0 && At(data, pos, Members(ms) + [ObjectClose])
    ensures var q := pos + |Member(ms[0])|;
            && At(data, pos, Member(ms[0])) && At(data, q, CommaMembers(ms[1..]) + [ObjectClose])
            && Follows(data, q) && |Members(ms)| == |Member(ms[0])| + |CommaMembers(ms[1..])|
  {
    hide ParseValue, Dispatch, Literal, ParseArray, ArrayItems, ParseObject, ObjectMembers, ParseString, SkipColon, ParseNumber;
    ObjectTextSplit(ms);
    AtSplit(data, pos, Member(ms[0]), CommaMembers(ms[1..]) + [ObjectClose]);
    FollowsMembers(data, pos + |Member(ms[0])|, ms[1..]);
  }

  /** A comma, the next member and the text after it. */
  lemma {:induction false} CommaMemberLayout(data: seq<byte>, pos: nat, ms: seq<(seq<byte>, Json)>)
    requires |ms| > 0 && At(data, pos, CommaMembers(ms) + [ObjectClose])
    ensures var q := pos + 1 + |Member(ms[0])|;
            && pos < |data| && data[pos] == Comma
            && At(data, pos + 1, Member(ms[0])) && At(data, q, CommaMembers(ms[1..]) + [ObjectClose])
            && Follows(data, q) && |CommaMembers(ms)| == 1 + |Member(ms[0])| + |CommaMembers(ms[1..])|
  {
    hide ParseValue, Dispatch, Literal, ParseArray, ArrayItems, ParseObject, ObjectMembers, ParseString, SkipColon, ParseNumber;
    ObjectTextSplit(ms);
    AtSplitAfter(data, pos, Comma, Member(ms[0]), CommaMembers(ms[1..]) + [ObjectClose]);
    FollowsMembers(data, pos + 1 + |Member(ms[0])|, ms[1..]);
  }

  /** An empty object is its two braces. */
  lemma {:induction false} EmptyObjectParses(data: seq<byte>, pos: nat, ms: seq<(seq<byte>, Json)>)
    requires |ms| == 0 && At(data, pos, [ObjectOpen] + Members(ms) + [ObjectClose])
    ensures pos < |data| && data[pos] == ObjectOpen
    ensures ParseObject(data, pos) == Ok(Object(ms), pos + |Members(ms)| + 2)
  {
    hide ParseValue, Dispatch, Literal, ParseArray, ArrayItems, ParseObject, ObjectMembers, ParseString, SkipColon, ParseNumber;
    ObjectOpenLayout(data, pos, ms);
    ObjectTextSplit(ms);
    AtHead(data, pos + 1, [ObjectClose]);
    EmptyObjectRule(data, pos);
  }

  /** The closing brace once no member is left ends the object. */
  lemma {:induction false} MembersTailEnd(data: seq<byte>, pos: nat, members: seq<(seq<byte>, Json)>, ms: seq<(seq<byte>, Json)>)
    requires |ms| == 0 && At(data, pos, CommaMembers(ms) + [ObjectClose])
    ensures ObjectMembers(data, pos, members) == Ok(Object(members + ms), pos + |CommaMembers(ms)| + 1)
  {
    hide ParseValue, Dispatch, Literal, ParseArray, ArrayItems, ParseObject, ObjectMembers, ParseString, SkipColon, ParseNumber;
    ObjectTextSplit(ms);
    AtHead(data, pos, [ObjectClose]);
    ObjectCloseStep(data, pos, members);
    assert members + ms == members;
  }

  lemma {:induction false} MemberTextSplit(m: (seq<byte>, Json))
    ensures Member(m) == StringText(m.0) + ([Colon] + Encode(m.1))
  {
    hide ParseValue, Dispatch, Literal, ParseArray, ArrayItems, ParseObject, ObjectMembers, ParseString, SkipColon, ParseNumber;
    Associate(StringText(m.0), [Colon], Encode(m.1));
  }

  /** The three parts of an encoded member and where each starts. */
  lemma {:induction false} MemberLayout(data: seq<byte>, pos: nat, m: (seq<byte>, Json))
    requires At(data, pos, Member(m))
    ensures var c := pos + |StringText(m.0)|;
            && At(data, pos, StringText(m.0)) && c < |data| && data[c] == Colon
            && At(data, c + 1, Encode(m.1)) && |Member(m)| == c + 1 + |Encode(m.1)| - pos
  {
    hide ParseValue, Dispatch, Literal, ParseArray, ArrayItems, ParseObject, ObjectMembers, ParseString, SkipColon, ParseNumber;
    var key, value := StringText(m.0), Encode(m.1);
    var c := pos + |key|;
    MemberTextSplit(m);
    AtSplit(data, pos, key, [Colon] + value);
    AtSplit(data, c, [Colon], value);
    AtHead(data, c, [Colon]);
  }

  /** An encoded object is read back by the object parser, up to its closing
      brace. */
  lemma {:induction false} ObjectParses(data: seq<byte>, pos: nat, ms: seq<(seq<byte>, Json)>)
    requires AllMembersEncodable(ms)
    requires At(data, pos, [ObjectOpen] + Members(ms) + [ObjectClose])
    ensures pos < |data| && data[pos] == ObjectOpen
    ensures ParseObject(data, pos) == Ok(Object(ms), pos + |Members(ms)| + 2)
    decreases ms, 8
  {
    hide ParseValue, Dispatch, Literal, ParseArray, ArrayItems, ParseObject, ObjectMembers, ParseString, SkipColon, ParseNumber;
    if |ms| == 0 {
      EmptyObjectParses(data, pos, ms);
    } else {
      NonEmptyObjectParses(data, pos, ms);
    }
  }

  /** A non-empty object: the opening brace, then the members. */
  lemma {:induction false} NonEmptyObjectParses(data: seq<byte>, pos: nat, ms: seq<(seq<byte>, Json)>)
    requires |ms| > 0 && AllMembersEncodable(ms)
    requires At(data, pos, [ObjectOpen] + Members(ms) + [ObjectClose])
    ensures pos < |data| && data[pos] == ObjectOpen
    ensures ParseObject(data, pos) == Ok(Object(ms), pos + |Members(ms)| + 2)
    decreases ms, 7
  {
    hide ParseValue, Dispatch, Literal, ParseArray, ArrayItems, ParseObject, ObjectMembers, ParseString, SkipColon, ParseNumber;
    ObjectOpenLayout(data, pos, ms);
    ObjectBodyParses(data, pos + 1, ms);
    ObjectOpenRule(data, pos);
  }

  /** The members of a non-empty object and its closing brace: the first
      member, then the rest. */
  lemma {:induction false} ObjectBodyParses(data: seq<byte>, pos: nat, ms: seq<(seq<byte>, Json)>)
    requires |ms| > 0 && AllMembersEncodable(ms)
    requires At(data, pos, Members(ms) + [ObjectClose])
    ensures pos < |data| && data[pos] == Quote
    ensures ObjectMembers(data, pos, []) == Ok(Object(ms), pos + |Members(ms)| + 1)
    decreases ms, 6
  {
    hide ParseValue, Dispatch, Literal, ParseArray, ArrayItems, ParseObject, ObjectMembers, ParseString, SkipColon, ParseNumber;
    var q := pos + |Member(ms[0])|;
    FirstMemberLayout(data, pos, ms);
    NextMemberParses(data, pos, [], ms);
    FirstAndRest(ms);
    assert ObjectMembers(data, pos, []) == ObjectMembers(data, q, [ms[0]]);
    MembersTail(data, q, [ms[0]], ms[1..]);
    assert ObjectMembers(data, q, [ms[0]]) == Ok(Object(ms), q + |CommaMembers(ms[1..])| + 1);
  }

  /** One encoded member, followed by the rest of an object, is read back:
      its key, its colon, and its value up to the end of its text. */
  lemma {:induction false} MemberParses(data: seq<byte>, pos: nat, m: (seq<byte>, Json))
    requires Encodable(m.1) && At(data, pos, Member(m)) && Follows(data, pos + |Member(m)|)
    ensures var c := pos + |StringText(m.0)|;
            && pos < |data| && data[pos] == Quote && ParseString(data, pos) == Ok(m.0, c)
            && SkipColon(data, c) == Ok((), c + 1) && ParseValue(data, c + 1) == Ok(m.1, pos + |Member(m)|)
    decreases m, 3
  {
    hide ParseValue, Dispatch, Literal, ParseArray, ArrayItems, ParseObject, ObjectMembers, ParseString, SkipColon, ParseNumber;
    MemberLayout(data, pos, m);
    var c := pos + |StringText(m.0)|;
    ParseStringText(data, pos, m.0);
    ValueReads(data, c + 1, m.1);
    ColonAt(data, c);
  }

  /** The key, colon and value of the first of `ms` at `pos`. */
  lemma {:induction false} MemberReads(data: seq<byte>, pos: nat, ms: seq<(seq<byte>, Json)>)
    requires |ms| > 0 && AllMembersEncodable(ms) && At(data, pos, Members(ms) + [ObjectClose])
    ensures var c, e := pos + |StringText(ms[0].0)|, pos + |Member(ms[0])|;
            && pos < |data| && data[pos] == Quote && ParseString(data, pos) == Ok(ms[0].0, c)
            && SkipColon(data, c) == Ok((), c + 1) && ParseValue(data, c + 1) == Ok(ms[0].1, e)
    decreases ms, 0
  {
    hide ParseValue, Dispatch, Literal, ParseArray, ArrayItems, ParseObject, ObjectMembers, ParseString, SkipColon, ParseNumber;
    FirstMemberLayout(data, pos, ms);
    MemberParses(data, pos, ms[0]);
  }

  /** The object loop at the first of `ms` appends it and goes on after
      it. */
  lemma {:induction false} NextMemberParses(data: seq<byte>, pos: nat, members: seq<(seq<byte>, Json)>,
                                            ms: seq<(seq<byte>, Json)>)
    requires |ms| > 0 && AllMembersEncodable(ms) && At(data, pos, Members(ms) + [ObjectClose])
    ensures pos < |data| && data[pos] == Quote
    ensures ObjectMembers(data, pos, members) == ObjectMembers(data, pos + |Member(ms[0])|, members + [ms[0]])
    decreases ms, 1
  {
    hide ParseValue, Dispatch, Literal, ParseArray, ArrayItems, ParseObject, ObjectMembers, ParseString, SkipColon, ParseNumber;
    var c, e := pos + |StringText(ms[0].0)|, pos + |Member(ms[0])|;
    assert && pos < |data| && data[pos] == Quote && ParseString(data, pos) == Ok(ms[0].0, c)
           && SkipColon(data, c) == Ok((), c + 1) && ParseValue(data, c + 1) == Ok(ms[0].1, e) by {
      MemberReads(data, pos, ms);
    }
    ObjectMemberStep(data, pos, members, ms[0], c, e);
  }

  /** A comma in front of the members. */
  lemma {:induction false} CommaMembersLayout(data: seq<byte>, pos: nat, ms: seq<(seq<byte>, Json)>)
    requires |ms| > 0 && At(data, pos, CommaMembers(ms) + [ObjectClose])
    ensures pos < |data| && data[pos] == Comma && At(data, pos + 1, Members(ms) + [ObjectClose])
  {
    hide ParseValue, Dispatch, Literal, ParseArray, ArrayItems, ParseObject, ObjectMembers, ParseString, SkipColon, ParseNumber;
    ObjectTextSplit(ms);
    AtSplit(data, pos, [Comma], Members(ms) + [ObjectClose]);
    AtHead(data, pos, [Comma]);
  }

  /** A comma and the next member: the object loop appends the member and
      goes on after it. */
  lemma {:induction false} CommaMemberParses(data: seq<byte>, pos: nat, members: seq<(seq<byte>, Json)>,
                                             ms: seq<(seq<byte>, Json)>)
    requires |ms| > 0 && AllMembersEncodable(ms)
    requires At(data, pos, CommaMembers(ms) + [ObjectClose])
    ensures ObjectMembers(data, pos, members) ==
              ObjectMembers(data, pos + 1 + |Member(ms[0])|, members + [ms[0]])
    decreases ms, 3
  {
    hide ParseValue, Dispatch, Literal, ParseArray, ArrayItems, ParseObject, ObjectMembers, ParseString, SkipColon, ParseNumber;
    CommaMembersLayout(data, pos, ms);
    MemberAfterComma(data, pos, members, ms);
  }

  /** The object loop at a comma that precedes an encoded member. */
  lemma {:induction false} MemberAfterComma(data: seq<byte>, pos: nat, members: seq<(seq<byte>, Json)>,
                                            ms: seq<(seq<byte>, Json)>)
    requires |ms| > 0 && AllMembersEncodable(ms) && pos < |data| && data[pos] == Comma
    requires At(data, pos + 1, Members(ms) + [ObjectClose])
    ensures ObjectMembers(data, pos, members) ==
              ObjectMembers(data, pos + 1 + |Member(ms[0])|, members + [ms[0]])
    decreases ms, 2
  {
    hide ParseValue, Dispatch, Literal, ParseArray, ArrayItems, ParseObject, ObjectMembers, ParseString, SkipColon, ParseNumber;
    NextMemberParses(data, pos + 1, members, ms);
    CommaBeforeMemberRule(data, pos, members);
  }

  /** After a member, the object loop reads the comma-separated rest and the
      closing brace, appending the members in order. */
  lemma {:induction false} MembersTail(data: seq<byte>, pos: nat, members: seq<(seq<byte>, Json)>, ms: seq<(seq<byte>, Json)>)
    requires AllMembersEncodable(ms)
    requires At(data, pos, CommaMembers(ms) + [ObjectClose])
    ensures ObjectMembers(data, pos, members) ==
              Ok(Object(members + ms), pos + |CommaMembers(ms)| + 1)
    decreases ms, 5
  {
    hide ParseValue, Dispatch, Literal, ParseArray, ArrayItems, ParseObject, ObjectMembers, ParseString, SkipColon, ParseNumber;
    if |ms| == 0 {
      MembersTailEnd(data, pos, members, ms);
    } else {
      MembersTailStep(data, pos, members, ms);
    }
  }

  /** The next member, then the rest of the object after it. */
  lemma {:induction false} MembersTailStep(data: seq<byte>, pos: nat, members: seq<(seq<byte>, Json)>, ms: seq<(seq<byte>, Json)>)
    requires |ms| > 0 && AllMembersEncodable(ms)
    requires At(data, pos, CommaMembers(ms) + [ObjectClose])
    ensures ObjectMembers(data, pos, members) ==
              Ok(Object(members + ms), pos + |CommaMembers(ms)| + 1)
    decreases ms, 4
  {
    hide ParseValue, Dispatch, Literal, ParseArray, ArrayItems, ParseObject, ObjectMembers, ParseString, SkipColon, ParseNumber;
    var q := pos + 1 + |Member(ms[0])|;
    CommaMemberLayout(data, pos, ms);
    CommaMemberParses(data, pos, members, ms);
    MembersTail(data, q, members + [ms[0]], ms[1..]);
    MoveFirst(members, ms);
  }

  /** Every encodable document is read back unchanged, whenever the options
      admit its root; a scalar root under the strict options is refused at
      the end of its text. */
  lemma {:induction false} RoundTrip(j: Json, options: Options)
    requires Encodable(j)
    ensures IsTopLevel(j) || options.allowFragments ==> Parse(Encode(j), options) == Success(j)
    ensures !IsTopLevel(j) && !options.allowFragments ==>
              Parse(Encode(j), options) == Failure(Error(|Encode(j)|, FragmentedJson))
  {
    hide ParseValue, Dispatch, Literal, ParseArray, ArrayItems, ParseObject, ObjectMembers, ParseString, SkipColon, ParseNumber;
    var data := Encode(j);
    EncodeStart(j);
    assert At(data, 0, data);
    SkipWhitespaceUnique(data, 0, 0);
    EncodeParses(data, 0, j);
  }
}
