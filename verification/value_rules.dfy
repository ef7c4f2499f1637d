/** The rules the array and object loops enforce, one step of the loop at
    a time: what each kind of byte does to the comma state, and which
    reason each misplaced byte is refused with. */
module ValueRules {
  import opened Ascii
  import opened JsonTypes
  import opened Cursor
  import opened Strings
  import opened Values

  /** `]` ends an array after an element or at once, and is refused as a
      trailing comma right after a comma. */
  lemma {:induction false} ArrayCloseStep(data: seq<byte>, pos: nat, items: seq<Json>)
    requires pos < |data| && data[pos] == ArrayClose
    ensures ArrayItems(data, pos, items, false) == Ok(Array(items), pos + 1)
    ensures ArrayItems(data, pos, items, true) == Err(TrailingComma, pos)
  {
  }

  /** A comma is accepted only right after an element; a leading comma and
      a second comma in a row are both refused as invalid syntax, before
      the comma is consumed. */
  lemma {:induction false} ArrayCommaStep(data: seq<byte>, pos: nat, items: seq<Json>)
    requires pos < |data| && data[pos] == Comma
    ensures |items| > 0 ==>
              ArrayItems(data, pos, items, false) == ArrayItems(data, SkipWhitespace(data, pos + 1), items, true)
    ensures |items| == 0 ==> ArrayItems(data, pos, items, false) == Err(InvalidSyntax, pos)
    ensures ArrayItems(data, pos, items, true) == Err(InvalidSyntax, pos)
  {
  }

  /** Any other byte starts an element when the array is empty so far or a
      comma came before it; the element is appended, and an element that
      fails fails the array at the same place. */
  lemma {:induction false} ArrayValueStep(data: seq<byte>, pos: nat, items: seq<Json>, wasComma: bool)
    requires pos <= |data| && Peek(data, pos) != Comma && Peek(data, pos) != ArrayClose
    requires |items| == 0 || wasComma
    ensures var v := ParseValue(data, pos);
            v.Ok? ==> ArrayItems(data, pos, items, wasComma) ==
                        ArrayItems(data, SkipWhitespace(data, v.pos), items + [v.value], false)
    ensures var v := ParseValue(data, pos);
            v.Err? ==> ArrayItems(data, pos, items, wasComma) == Err(v.reason, v.pos)
  {
  }

  /** Two elements without a comma between them, or an array that is cut
      off after an element, are refused with `ExpectedComma` at the
      offending position. */
  lemma {:induction false} ArrayMissingComma(data: seq<byte>, pos: nat, items: seq<Json>)
    requires pos <= |data| && Peek(data, pos) != Comma && Peek(data, pos) != ArrayClose
    requires |items| > 0
    ensures ArrayItems(data, pos, items, false) == Err(ExpectedComma, pos)
  {
  }

  /** `}` ends an object wherever a member may start; it is never refused,
      not even after a comma. */
  lemma {:induction false} ObjectCloseStep(data: seq<byte>, pos: nat, members: seq<(seq<byte>, Json)>)
    requires pos < |data| && data[pos] == ObjectClose
    ensures ObjectMembers(data, pos, members) == Ok(Object(members), pos + 1)
  {
  }

  /** A comma inside an object is skipped without any check, so leading,
      repeated and trailing commas are all accepted. */
  lemma {:induction false} ObjectCommaStep(data: seq<byte>, pos: nat, members: seq<(seq<byte>, Json)>)
    requires pos < |data| && data[pos] == Comma
    ensures ObjectMembers(data, pos, members) ==
              ObjectMembers(data, SkipWhitespace(data, pos + 1), members)
  {
  }

  /** A member is a string key, a colon and a value; the member is appended
      and the loop goes on right after the value. */
  lemma {:induction false} ObjectMemberStep(data: seq<byte>, pos: nat, members: seq<(seq<byte>, Json)>,
                         m: (seq<byte>, Json), c: nat, e: nat)
    requires pos < |data| && data[pos] == Quote && ParseString(data, pos) == Ok(m.0, c)
    requires SkipColon(data, c).Ok? && ParseValue(data, SkipColon(data, c).pos) == Ok(m.1, e)
    ensures ObjectMembers(data, pos, members) == ObjectMembers(data, e, members + [m])
  {
    assert (m.0, m.1) == m;
  }

  /** A key that fails, or a key without its colon, fails the object with
      the same reason at the same offset. */
  lemma {:induction false} ObjectKeyFailure(data: seq<byte>, pos: nat, members: seq<(seq<byte>, Json)>)
    requires pos < |data| && data[pos] == Quote
    ensures var k := ParseString(data, pos);
            k.Err? ==> ObjectMembers(data, pos, members) == Err(k.reason, k.pos)
    ensures var k := ParseString(data, pos);
            k.Ok? && SkipColon(data, k.pos).Err? ==>
              ObjectMembers(data, pos, members) == Err(SkipColon(data, k.pos).reason, SkipColon(data, k.pos).pos)
  {
  }

  /** A comma directly before a key is skipped. */
  lemma {:induction false} CommaBeforeMemberRule(data: seq<byte>, pos: nat, members: seq<(seq<byte>, Json)>)
    requires pos + 1 < |data| && data[pos] == Comma && data[pos + 1] == Quote
    ensures ObjectMembers(data, pos, members) == ObjectMembers(data, pos + 1, members)
  {
    SkipWhitespaceUnique(data, pos + 1, pos + 1);
    ObjectCommaStep(data, pos, members);
  }

  /** A comma after an element, directly followed by the next element:
      the element is appended and the loop goes on after it. */
  lemma {:induction false} CommaElementRule(data: seq<byte>, pos: nat, items: seq<Json>, v: Json, e: nat)
    requires |items| > 0 && pos + 1 < |data| && data[pos] == Comma
    requires !IsWhitespace(data[pos + 1]) && data[pos + 1] != Comma && data[pos + 1] != ArrayClose
    requires ParseValue(data, pos + 1) == Ok(v, e) && SkipWhitespace(data, e) == e
    ensures ArrayItems(data, pos, items, false) == ArrayItems(data, e, items + [v], false)
  {
    SkipWhitespaceUnique(data, pos + 1, pos + 1);
    ArrayCommaStep(data, pos, items);
    ArrayValueStep(data, pos + 1, items, true);
  }

  /** The array loop, empty so far, at the first element: the element is
      appended and the loop goes on after it. */
  lemma {:induction false} FirstElementRule(data: seq<byte>, pos: nat, v: Json, e: nat)
    requires pos < |data| && data[pos] != Comma && data[pos] != ArrayClose
    requires ParseValue(data, pos) == Ok(v, e) && SkipWhitespace(data, e) == e
    ensures ArrayItems(data, pos, [], false) == ArrayItems(data, e, [v], false)
  {
    ArrayValueStep(data, pos, [], false);
    assert [] + [v] == [v];
  }

  /** `[` directly followed by a significant byte starts the array loop
      there. */
  lemma {:induction false} ArrayOpenRule(data: seq<byte>, pos: nat)
    requires pos + 1 < |data| && data[pos] == ArrayOpen && !IsWhitespace(data[pos + 1])
    ensures ParseArray(data, pos) == ArrayItems(data, pos + 1, [], false)
  {
    SkipWhitespaceUnique(data, pos + 1, pos + 1);
  }

  /** `{` directly followed by a key starts the object loop there. */
  lemma {:induction false} ObjectOpenRule(data: seq<byte>, pos: nat)
    requires pos + 1 < |data| && data[pos] == ObjectOpen && data[pos + 1] == Quote
    ensures ParseObject(data, pos) == ObjectMembers(data, pos + 1, [])
  {
    SkipWhitespaceUnique(data, pos + 1, pos + 1);
  }

  /** `[]` with nothing between the brackets is the empty array. */
  lemma {:induction false} EmptyArrayRule(data: seq<byte>, pos: nat)
    requires pos + 1 < |data| && data[pos] == ArrayOpen && data[pos + 1] == ArrayClose
    ensures ParseArray(data, pos) == Ok(Array([]), pos + 2)
  {
    SkipWhitespaceUnique(data, pos + 1, pos + 1);
  }

  /** `{}` with nothing between the braces is the empty object. */
  lemma {:induction false} EmptyObjectRule(data: seq<byte>, pos: nat)
    requires pos + 1 < |data| && data[pos] == ObjectOpen && data[pos + 1] == ObjectClose
    ensures ParseObject(data, pos) == Ok(Object([]), pos + 2)
  {
    SkipWhitespaceUnique(data, pos + 1, pos + 1);
  }

  /** A value the dispatcher reads up to a significant byte is the value
      read, with no whitespace to skip. */
  lemma {:induction false} ValueEndRule(data: seq<byte>, pos: nat, v: Json, e: nat)
    requires pos <= |data| && Dispatch(data, pos) == Ok(v, e) && AtSignificant(data, e)
    ensures ParseValue(data, pos) == Ok(v, e)
  {
    SkipWhitespaceUnique(data, e, e);
  }

  /** A colon directly after the key and directly before the value. */
  lemma {:induction false} ColonAt(data: seq<byte>, c: nat)
    requires c + 1 < |data| && data[c] == Colon && !IsWhitespace(data[c + 1])
    ensures SkipColon(data, c) == Ok((), c + 1)
  {
    SkipWhitespaceUnique(data, c, c);
    SkipWhitespaceUnique(data, c + 1, c + 1);
  }
}
