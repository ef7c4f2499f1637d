# GenericJsonParser engine in Dafny

This project models the single-pass JSON parsing engine of GenericJsonParser
(`Sources/GenericJsonParser.swift`). The engine is a recursive-descent decoder
over an in-memory UTF-8 byte buffer, and the model covers all of it:

- the byte cursor (`peek`, `pop`, `unsafePop`, `skipWhitespace`);
- the value dispatcher and its "top-level" flag;
- the literal matcher;
- the object parser with `skipColon`;
- the array parser with its comma state;
- the overflow-checked number scanner, with the integer classification of `constructNumber`;
- the string scanner with short escapes, `\uXXXX` escapes and surrogate pairs;
- the public `parse` entry point: the empty-input check, the fragment policy, the end-of-input check, and the wrapping of every reason into an `Error` carrying the cursor offset.

The source's raw cursor pointer becomes an index `pos` into an immutable `seq<byte>`. Every parse
function returns `Ok(value, pos)` or `Err(reason, pos)`:
- `Ok` carries the cursor just after the value;
- `Err` carries the cursor at the moment the reason was raised.

When `peek` reads one byte past the end of the buffer, as the source does, it
returns `EndMarker` (256). That value matches no ASCII class.

The construction callbacks are instantiated with the constructors of a
concrete `Json` tree. Its cases are null, bool, explicit-length byte string,
array, object with ordered members that keep duplicates, and number.

A number with a fraction or an exponent is kept as an exact `Decimal` record:
sign, significand, mantissa, fraction-digit count, exponent and exponent sign.
It replaces the IEEE double the source computes from those same accumulators.

The code is followed where it departs from RFC 8259:
- form feed is whitespace;
- there is no `\f` escape;
- leading zeros are accepted;
- raw control bytes are kept inside strings;
- an object's commas are consumed without any check, as its FIXME says.

Two behaviours differ from what the names in the code suggest. The model follows the code in both:
- **`skipNull`.** The option's name suggests that null members and elements are dropped. In the code, the `wasNull` flag that guards the dropping is never set (lines 252, 262-264, 296, 330-332), so nothing is dropped. `Parser.SkipNullHasNoEffect` states this.
- **Integers just past the 64-bit bounds.** The reason `numberOverflow` suggests it covers every integer that does not fit in an `Int64`. In the code, a significand that fits in 64 unsigned bits but not in the signed range (for example `9223372036854775808`) reaches the `default` of `constructNumber` and raises `invalidNumber` (lines 459-471). Only a significand of 2^64 or more overflows the accumulator and raises `numberOverflow` (lines 368-372). `Samples.OutOfRangeInteger` states this.

The partner of the engine as a whole is a reference encoder (`Encoder.Encode`),
together with the round trip `Parse(Encode(j)) == Success(j)`. The round trip
holds for every document whose numbers the scanner can produce, and whenever
the options admit the root.

Smaller partners:
- a reference grammar and meaning of number literals (`NumberSyntax.Render`, `NumberSyntax.Interpret`), with an exact characterisation of the scanner on every such literal, and the converse (`NumberReading.ParseNumberSound`): whatever the scanner accepts is such a literal and means what was returned;
- a string encoder (`StringSyntax.StringText`) that every byte string survives;
- surrogate joining and splitting (section 2.2 of RFC 2781), and the code units a scalar is written as (`Strings.UnitsAt`), with an exact characterisation of the `\u` reader over hex digits of either case (`StringSyntax.UnicodeScalarExactly`) and the refusal of every malformed surrogate sequence;
- a UTF-8 decoder checked against the encoder in both directions (sections 3 and 4 of RFC 3629);
- step rules (`ValueRules`) giving, byte by byte, what each token does to the array and object loops and which reason each misplaced token raises.

The round-trip proofs hide the parser's definitions and reason only through
those step rules.

Modules, in dependency order:

| module | contents |
|---|---|
| `Ascii` | bytes and their classes |
| `JsonTypes` | options, reasons, errors, numbers, `Json` |
| `Cursor` | peek, pop, whitespace |
| `Literals` | the literal matcher |
| `Digits` | decimal digit strings |
| `Numbers` | the number scanner |
| `Unicode` | surrogates and UTF-8 |
| `Strings` | the string scanner |
| `Values` | dispatcher, arrays, objects, the colon |
| `Parser` | the entry point |
| `ValueRules` | the loop step rules |
| `NumberSyntax` | number literal grammar and proofs |
| `NumberReading` | the converse: accepted number text is a literal of the grammar |
| `StringSyntax` | string literal encoder and proofs |
| `CStrings` | the C-string conversion as written |
| `Encoder` | the document encoder and the round trip |
| `Samples` | concrete documents |

## Model

| member | source | states |
|---|---|---|
| Ascii.HexValue | Sources/GenericJsonParser.swift:552-561 | a byte has a value 0..15 exactly when it is a decimal digit or a letter a-f or A-F, and the letters of either case are worth 10 to 15; for every other byte the value is -1, which the hex reader refuses |
| Ascii.HexDigit | Sources/GenericJsonParser.swift:553-558 | the lower-case hex digit written for a nibble reads back as that nibble |
| Cursor.Peek | Sources/GenericJsonParser.swift:606-609 | the end marker is seen exactly at the end of the buffer, and the byte under the cursor everywhere else |
| Cursor.Pop | Sources/GenericJsonParser.swift:611-616 | fails with EndOfStream exactly at the end, without moving; otherwise yields the byte and advances by one |
| Cursor.SkipWhitespace | Sources/GenericJsonParser.swift:626-632 | never moves backwards, never leaves the buffer, and stops at the end or at a byte that is not whitespace |
| Cursor.SkipWhitespaceRun | Sources/GenericJsonParser.swift:626-632 | every byte skipped is whitespace |
| Cursor.SkipWhitespaceUnique | Sources/GenericJsonParser.swift:626-632 | a run of whitespace that ends at a significant byte or the end is skipped exactly |
| Cursor.SkipWhitespaceStable | Sources/GenericJsonParser.swift:626-632 | skipping is idempotent, and reaches the same place from anywhere inside the run it skips |
| Literals.MatchLiteral | Sources/GenericJsonParser.swift:228-233 | never moves backwards, and fails only with EndOfStream or InvalidLiteral |
| Literals.MatchLiteralOk | Sources/GenericJsonParser.swift:228-233 | succeeds exactly when the input continues with the literal, and then stops just past it |
| Literals.MatchLiteralMismatch | Sources/GenericJsonParser.swift:228-233 | InvalidLiteral is reported just after the first byte that differs, and every byte before it matched |
| Literals.MatchLiteralEnd | Sources/GenericJsonParser.swift:228-233 | EndOfStream is reported, at the end, exactly when the remaining input is a proper prefix of the literal |
| Values.Literal | Sources/GenericJsonParser.swift:205-221 | after `f`, `t` or `n`, the value is produced exactly when `alse`, `rue` or `ull` follows, ending just past it; otherwise the failure is EndOfStream or InvalidLiteral |
| Values.SkipColon | Sources/GenericJsonParser.swift:595-601 | succeeds exactly when the first significant byte is `:`, and ends after the whitespace behind it; EndOfStream exactly when only whitespace is left; otherwise ExpectedColon just after the wrong byte |
| Values.ParseValue | Sources/GenericJsonParser.swift:179-226 | success consumes at least one byte; on success and on failure alike the cursor ends at a significant byte (the `defer`); the value is top-level exactly when its first byte is `{` or `[`; EmptyStream and FragmentedJson never arise inside |
| Values.Dispatch | Sources/GenericJsonParser.swift:184-225 | the top-level flag is set exactly for the `{` and `[` branches; failures are inner reasons only; any leading byte other than `{ [ " -`, a digit or `f t n` (the end of the input included) is refused with InvalidSyntax at that byte |
| Values.ParseArray | Sources/GenericJsonParser.swift:286-291 | a successful result is an array, and the cursor ends just after a `]` |
| Values.ArrayItems | Sources/GenericJsonParser.swift:299-338 | a successful result is an array ending just after a `]`; failures are inner reasons only |
| Values.ParseObject | Sources/GenericJsonParser.swift:235-245 | a successful result is an object, and the cursor ends just after a `}` |
| Values.ObjectMembers | Sources/GenericJsonParser.swift:254-283 | a successful result is an object ending just after a `}`; failures are inner reasons only; a byte where a member may start that is no `"`, `,` or `}` (so a key that is not a string) is refused with InvalidSyntax at that byte |
| ValueRules.ArrayCloseStep | Sources/GenericJsonParser.swift:313-318 | `]` closes the array with the elements so far, unless a comma came just before, which gives TrailingComma at the bracket |
| ValueRules.ArrayCommaStep | Sources/GenericJsonParser.swift:304-311 | a comma after an element is consumed with the whitespace behind it; a leading comma and a second comma are InvalidSyntax at the comma |
| ValueRules.ArrayValueStep | Sources/GenericJsonParser.swift:320-336 | at the start or after a comma, a value is parsed and appended, and the loop continues after it; a failing value fails the array with its own reason and offset |
| ValueRules.ArrayMissingComma | Sources/GenericJsonParser.swift:322-324 | any other byte, or the end, right after an element gives ExpectedComma at that position |
| ValueRules.ObjectCloseStep | Sources/GenericJsonParser.swift:275-278 | `}` closes the object with the members so far, even right after a comma |
| ValueRules.ObjectCommaStep | Sources/GenericJsonParser.swift:270-273 | a comma in an object is consumed without any check |
| ValueRules.ObjectMemberStep | Sources/GenericJsonParser.swift:256-268 | a key, a colon and a value append the member and continue after the value |
| ValueRules.ObjectKeyFailure | Sources/GenericJsonParser.swift:256-259 | a key that fails, or a key that is not followed by its colon, fails the object with the same reason at the same offset |
| ValueRules.CommaBeforeMemberRule | Sources/GenericJsonParser.swift:270-273 | a comma directly before a key is skipped |
| ValueRules.CommaElementRule | Sources/GenericJsonParser.swift:304-336 | a comma and an element after an element append the element |
| ValueRules.FirstElementRule | Sources/GenericJsonParser.swift:320-336 | the first element of an array is appended to the empty list |
| ValueRules.ArrayOpenRule | Sources/GenericJsonParser.swift:286-291 | `[` directly followed by a significant byte starts the loop there, empty and without a comma |
| ValueRules.ObjectOpenRule | Sources/GenericJsonParser.swift:235-245 | `{` followed by a key starts the member loop there |
| ValueRules.EmptyArrayRule | Sources/GenericJsonParser.swift:286-318 | `[]` is the empty array |
| ValueRules.EmptyObjectRule | Sources/GenericJsonParser.swift:235-245 | `{}` is the empty object |
| ValueRules.ValueEndRule | Sources/GenericJsonParser.swift:183 | a value that ends at a significant byte is not followed by any skipping |
| ValueRules.ColonAt | Sources/GenericJsonParser.swift:595-601 | a colon between key and value with no whitespace around it is consumed alone |
| Numbers.Accumulate | Sources/GenericJsonParser.swift:363-391 | a digit goes to the exponent after the marker, else to the mantissa after the point (and the fraction-digit count grows by one exactly then), else to the significand; the other two accumulators and the flags stay as they are |
| Numbers.PushDigit | Sources/GenericJsonParser.swift:368-390 | `acc * 10 + d` is accepted exactly when it fits in 64 unsigned bits; otherwise NumberOverflow, raised before the digit is consumed exactly when the multiplication already overflows |
| Numbers.ConstructNumber | Sources/GenericJsonParser.swift:441-473 | with a fraction or an exponent, the exact decimal record; otherwise an integer exactly when the signed significand lies in the 64-bit range, and then with that value |
| Numbers.ScanExponentStart | Sources/GenericJsonParser.swift:398-413 | after the marker: an optional sign, then a digit, else InvalidNumber at the byte that should be the digit; success ends at a delimiter or at the end |
| Numbers.ScanNumber | Sources/GenericJsonParser.swift:363-438 | success ends only at a delimiter (`,` `}` `]` or one of the five whitespace bytes) or at the end of the input; failures are InvalidNumber or NumberOverflow; a second `.` or a `.` after the exponent is refused at the `.`, a `.` not followed by a digit just after it, a second marker at the marker, and any other byte that is no digit, `.`, marker or delimiter where it stands |
| Numbers.ParseNumber | Sources/GenericJsonParser.swift:341-354 | a digit must follow the optional minus, else InvalidNumber at that byte; success consumes at least one byte and ends at a delimiter or at the end |
| NumberSyntax.ScanDigitStep | Sources/GenericJsonParser.swift:366-390 | a digit that fits is consumed into the current accumulator |
| NumberSyntax.ScanOverflowStep | Sources/GenericJsonParser.swift:366-390 | a digit that does not fit stops the scan with NumberOverflow |
| NumberSyntax.ScanPeriodStep | Sources/GenericJsonParser.swift:392-396 | the first `.` before any exponent, followed by a digit, switches to the fraction |
| NumberSyntax.ScanMarkerStep | Sources/GenericJsonParser.swift:398-402 | the first `e` or `E` starts the exponent |
| NumberSyntax.ExponentStartStep | Sources/GenericJsonParser.swift:404-413 | an exponent sign is consumed, and `-` makes the exponent negative |
| NumberSyntax.ScanStopStep | Sources/GenericJsonParser.swift:415-436 | at a delimiter or the end, the scan yields the constructed number, or InvalidNumber there |
| NumberSyntax.DigitRun | Sources/GenericJsonParser.swift:363-391 | a run of digits whose value fits is folded, most significant first, into the current accumulator |
| NumberSyntax.DigitRunOverflow | Sources/GenericJsonParser.swift:363-391 | a run of digits whose value does not fit fails with NumberOverflow |
| NumberSyntax.FinalScanBuilds | Sources/GenericJsonParser.swift:441-473 | the scanner's final state builds exactly what the literal denotes |
| NumberSyntax.IntegralPart | Sources/GenericJsonParser.swift:348-372 | the sign and the integral digits bring the scan to the fraction, or overflow |
| NumberSyntax.FractionPart | Sources/GenericJsonParser.swift:374-396 | the optional fraction brings the scan to the exponent, or overflows |
| NumberSyntax.FractionDigits | Sources/GenericJsonParser.swift:374-396 | a present fraction: the period and its digits bring the scan to the exponent, or overflow |
| NumberSyntax.ExponentDigits | Sources/GenericJsonParser.swift:398-413 | the marker and the optional sign bring the scan to the exponent digits |
| NumberSyntax.SignedExponentDigits | Sources/GenericJsonParser.swift:404-413 | the marker and a sign bring the scan to the exponent digits |
| NumberSyntax.UnsignedExponentDigits | Sources/GenericJsonParser.swift:398-413 | the marker alone brings the scan to the exponent digits |
| NumberSyntax.ExponentPresent | Sources/GenericJsonParser.swift:384-413 | an exponent that fits brings the scan to the delimiter with the final state |
| NumberSyntax.StopExpected | Sources/GenericJsonParser.swift:415-436 | at the delimiter the scan yields what the literal denotes |
| NumberSyntax.ExponentPart | Sources/GenericJsonParser.swift:384-436 | the optional exponent and the delimiter complete the scan with what the literal denotes |
| NumberSyntax.ExponentOverflow | Sources/GenericJsonParser.swift:384-390 | an exponent that does not fit fails with NumberOverflow |
| NumberSyntax.ParseNumberText | Sources/GenericJsonParser.swift:341-473 | for every well-formed literal followed by a delimiter: NumberOverflow exactly when some accumulator does not fit in 64 unsigned bits; otherwise the integer or decimal the literal denotes, ending at the delimiter, or InvalidNumber there for an integer outside the signed range |
| NumberReading.RunEnd | Sources/GenericJsonParser.swift:363-391 | the longest run of digits from a position: every byte in it is a digit, and the byte after it is not |
| NumberReading.TextAtRender | Sources/GenericJsonParser.swift:341-413 | the literal read greedily at a position (minus, digits, `.` and digits, marker, sign and digits) is written there exactly as read |
| NumberReading.TextAtWellFormed | Sources/GenericJsonParser.swift:341-413 | the greedy literal is well formed when its integral, fraction and exponent runs are non-empty |
| NumberReading.RunScan | Sources/GenericJsonParser.swift:363-391 | a successful scan from a digit run has folded the whole run into the current accumulator |
| NumberReading.EndScan | Sources/GenericJsonParser.swift:392-436 | a successful scan at a byte that is no digit and no admissible `.` or marker stops there, at a delimiter or the end |
| NumberReading.FractionScan | Sources/GenericJsonParser.swift:392-396 | a successful scan at the first `.` reads at least one digit after it |
| NumberReading.ExponentScan | Sources/GenericJsonParser.swift:398-413 | a successful scan at the first marker reads at least one digit after the optional sign and ends after the run |
| NumberReading.TailScan | Sources/GenericJsonParser.swift:363-436 | after the integral digits, a successful scan reads the greedy fraction and exponent and ends where the greedy literal ends |
| NumberReading.ScanShape | Sources/GenericJsonParser.swift:341-436 | a number the scanner accepts ends where the greedy literal ends, at a delimiter or the end, and that literal is well formed |
| NumberReading.ParseNumberSound | Sources/GenericJsonParser.swift:341-473 | every number the scanner accepts is a well-formed literal that fits in 64 bits, written exactly where the scan ran, and the number returned is what it means |
| NumberReading.ParseNumberExactly | Sources/GenericJsonParser.swift:341-473 | the scanner returns `Ok(n, e)` exactly when a well-formed literal that fits and means `n` is written at the cursor and followed by a delimiter or the end at `e` |
| Digits.FoldDigitsShift | Sources/GenericJsonParser.swift:368-372 | accumulating from a non-zero start shifts the start left by one decimal place per digit |
| Digits.DigitsValueBound | Sources/GenericJsonParser.swift:368-372 | the value of k digits is below 10^k |
| Digits.DigitsOfValue | Sources/GenericJsonParser.swift:368-372 | the zero-padded k-digit text of a number below 10^k accumulates back to that number |
| Digits.DecimalDigits | Sources/GenericJsonParser.swift:368-372 | the shortest decimal text of n is digits only and accumulates back to n |
| Digits.FoldRangeSlice | Sources/GenericJsonParser.swift:368-372 | accumulating the digits in place agrees with accumulating the slice |
| Strings.HexRun | Sources/GenericJsonParser.swift:546-565 | never moves backwards; failures are EndOfStream or InvalidEscape |
| Strings.CodeUnit | Sources/GenericJsonParser.swift:546-565 | a code unit is read from exactly four bytes and lies below 0x10000 |
| Strings.HexRunOk | Sources/GenericJsonParser.swift:546-565 | the reader succeeds exactly when n hex digits follow, and yields their value just past them |
| Strings.HexNumberBound | Sources/GenericJsonParser.swift:546-565 | n hex digits read into acc stay below (acc + 1) * 16^n |
| Strings.UnicodeScalar | Sources/GenericJsonParser.swift:567-593 | every scalar produced is a Unicode scalar value (no surrogate) whose code units stand in the input, one unit or lead unit, `\u` and trail unit, and the cursor ends just past them; failures are EndOfStream, InvalidEscape or InvalidUnicode |
| Strings.ShortEscape | Sources/GenericJsonParser.swift:502-523 | a one-letter escape exists exactly for `r t n b " / \` |
| Strings.Escape | Sources/GenericJsonParser.swift:500-535 | an escape consumes at least its letter; failures are EndOfStream, InvalidEscape or InvalidUnicode |
| Strings.StringBody | Sources/GenericJsonParser.swift:485-541 | success ends just after a quote byte; failures are EndOfStream, InvalidEscape or InvalidUnicode |
| Strings.ParseString | Sources/GenericJsonParser.swift:477-541 | success covers at least both quotes and ends just after the closing quote |
| Unicode.JoinSurrogates | Sources/GenericJsonParser.swift:575-592 | a lead and a trail surrogate join into a supplementary scalar |
| Unicode.LeadOf | Sources/GenericJsonParser.swift:575-580 | the lead unit of a supplementary scalar is a lead surrogate |
| Unicode.TrailOf | Sources/GenericJsonParser.swift:575-580 | the trail unit of a supplementary scalar is a trail surrogate |
| Unicode.JoinSplit | Sources/GenericJsonParser.swift:575-592 | splitting a supplementary scalar and joining the halves gives it back |
| Unicode.SplitJoin | Sources/GenericJsonParser.swift:575-592 | joining is injective: the halves are recovered from the scalar |
| Unicode.Utf8Encode | Sources/GenericJsonParser.swift:524-528 | a scalar is written as one to four bytes, the count fixed by its range |
| Unicode.Utf8Decode | Sources/GenericJsonParser.swift:524-528 | the reference decoder only yields scalar values |
| Unicode.Utf8RoundTrip | Sources/GenericJsonParser.swift:524-528 | decoding the bytes written for a scalar gives the scalar back |
| Unicode.Utf8EncodeDecoded | Sources/GenericJsonParser.swift:524-528 | every well-formed sequence is the encoding of the scalar it decodes to |
| StringSyntax.CodeUnitOfHex | Sources/GenericJsonParser.swift:546-565 | four hex digits written for a code unit read back as that code unit |
| StringSyntax.HexRunErr | Sources/GenericJsonParser.swift:549-561 | InvalidEscape comes just after the first byte that is no hex digit; EndOfStream comes at the end when the input stops early; every byte before the failure is a hex digit |
| StringSyntax.UnicodeScalarExactly | Sources/GenericJsonParser.swift:567-593 | after the `u`, scalar c is read with the cursor at q exactly when c's code units, in hex digits of either case, are written there and q is just past them |
| StringSyntax.EscapeTextUnits | Sources/GenericJsonParser.swift:546-565 | the lower-case escape an encoder writes for a scalar is one spelling of its code units |
| StringSyntax.EscapeOfScalar | Sources/GenericJsonParser.swift:524-528 | an escape whose letter is `u` contributes the UTF-8 bytes of scalar c exactly when c's code units, in hex digits of either case, follow |
| StringSyntax.BasicEscape | Sources/GenericJsonParser.swift:572-588 | `u` and any spelling of a code unit that is no surrogate contribute that scalar's UTF-8 bytes, five bytes on |
| StringSyntax.PairEscape | Sources/GenericJsonParser.swift:572-588 | `u`, any lead unit, `\u` and any trail unit, in hex digits of either case, contribute the UTF-8 bytes of the joined scalar, eleven bytes on |
| StringSyntax.LeadWithoutEscape | Sources/GenericJsonParser.swift:575-577 | a lead surrogate, in either case, not followed by a backslash gives InvalidUnicode just after the next byte, or EndOfStream at the end |
| StringSyntax.LeadBackslashNotU | Sources/GenericJsonParser.swift:575-577 | a lead surrogate and a backslash not followed by `u` give InvalidUnicode just after the byte after the backslash, or EndOfStream at the end |
| StringSyntax.LeadBadTrailDigits | Sources/GenericJsonParser.swift:575-579 | a lead surrogate and `\u` followed by malformed hex digits fail with the reason and offset of reading those digits |
| StringSyntax.LeadWithoutTrail | Sources/GenericJsonParser.swift:575-591 | a lead surrogate followed by `\u` and a unit that is no trail surrogate, in hex digits of either case, gives InvalidUnicode after that unit |
| StringSyntax.LoneTrail | Sources/GenericJsonParser.swift:582-591 | a trail surrogate on its own, in hex digits of either case, gives InvalidUnicode after its digits |
| StringSyntax.EscapeRefused | Sources/GenericJsonParser.swift:530-531 | any escape letter outside `r t n b " / \ u` gives InvalidEscape just after it |
| StringSyntax.EscapeLetter | Sources/GenericJsonParser.swift:502-523 | the escape letter chosen for a byte is read back as that byte |
| StringSyntax.BodyStep | Sources/GenericJsonParser.swift:485-539 | one encoded byte, plain or escaped, is scanned back as that byte |
| StringSyntax.BodyOfEscaped | Sources/GenericJsonParser.swift:485-541 | an encoded body followed by a quote is scanned back in full, ending after the quote |
| StringSyntax.BodyOfEscapedStep | Sources/GenericJsonParser.swift:485-541 | the same, one encoded byte and then the rest |
| StringSyntax.ParseStringText | Sources/GenericJsonParser.swift:477-541 | every byte string, NUL and control bytes included, is read back unchanged from its encoded literal |
| StringSyntax.BodyUnicodeStep | Sources/GenericJsonParser.swift:524-528 | a `\u` escape inside a string, in hex digits of either case, appends the UTF-8 bytes of its scalar and the scan goes on just past it |
| StringSyntax.UnterminatedString | Sources/GenericJsonParser.swift:485-541 | with no quote and no backslash ahead, the scanner fails with EndOfStream at the end |
| StringSyntax.NoQuoteNoString | Sources/GenericJsonParser.swift:485-541 | a string can only end at a quote byte of the input |
| CStrings.CStringText | Sources/GenericJsonParser.swift:494-497 | the text is the buffer's prefix before its first NUL |
| CStrings.CStringTextNulFree | Sources/GenericJsonParser.swift:494-497 | without a NUL the whole buffer is kept |
| CStrings.CStringTextLoses | Sources/GenericJsonParser.swift:494-497 | with a NUL everything from it on is lost |
| CStrings.NulEscapeTruncates | Sources/GenericJsonParser.swift:494-497 | `"a\u0000b"` scans to the three bytes a, NUL, b, which the conversion turns into the text `a` |
| Parser.Parse | Sources/GenericJsonParser.swift:80-122 | EmptyStream at offset 0 exactly for the empty input; every failure offset lies within the input; a success has a top-level root unless fragments are allowed |
| Parser.ParseFailureOffset | Sources/GenericJsonParser.swift:97-120 | a failing root value is reported with its own reason and offset; otherwise the failure is reported at the cursor after the root value: FragmentedJson for a scalar root under the strict option, else InvalidSyntax at a byte that is not whitespace |
| Parser.ParseSuccess | Sources/GenericJsonParser.swift:99-113 | a parsed document is its root value followed by nothing but whitespace |
| Parser.FragmentPolicy | Sources/GenericJsonParser.swift:101-105 | when the root value is a scalar read without error, the strict parser refuses with FragmentedJson at the cursor after the root and its whitespace, whatever follows; on every other input, failures included, strict and lax parsing give the same result |
| Parser.SkipNullHasNoEffect | Sources/GenericJsonParser.swift:252-268 | the `skipNull` option never changes the outcome; this records a modelling choice, since the model reads the option nowhere because the `wasNull` flag it guards is never set |
| Encoder.NumberSourceMeaning | Sources/GenericJsonParser.swift:441-473 | the literal written for a number the scanner can produce denotes that number, and its accumulators fit |
| Encoder.EncodeStart | Sources/GenericJsonParser.swift:184-221 | every encoded value starts with a byte the dispatcher accepts |
| Encoder.LiteralParses | Sources/GenericJsonParser.swift:205-221 | `null`, `true` and `false` are read back as themselves |
| Encoder.StringParses | Sources/GenericJsonParser.swift:195-198 | an encoded string value is read back |
| Encoder.NumberParses | Sources/GenericJsonParser.swift:200-203 | an encoded number value is read back |
| Encoder.NumberScans | Sources/GenericJsonParser.swift:341-439 | the scanner reads an encoded number up to its end |
| Encoder.ArrayValueParses | Sources/GenericJsonParser.swift:190-193 | an encoded array value is read back, elements in order |
| Encoder.ObjectValueParses | Sources/GenericJsonParser.swift:185-188 | an encoded object value is read back, members in order with duplicates |
| Encoder.EncodeParses | Sources/GenericJsonParser.swift:179-226 | every encodable value, followed by a comma, a closing bracket or brace, or the end, is read back as itself, ending just after its text |
| Encoder.ValueReads | Sources/GenericJsonParser.swift:179-226 | the same, and the value starts with a significant byte and ends at one |
| Encoder.ArrayParses | Sources/GenericJsonParser.swift:286-339 | an encoded array is read back by the array parser up to its closing bracket |
| Encoder.ArrayTail | Sources/GenericJsonParser.swift:299-338 | after an element, the comma-separated rest is appended in order |
| Encoder.ObjectParses | Sources/GenericJsonParser.swift:235-284 | an encoded object is read back by the object parser up to its closing brace |
| Encoder.MemberParses | Sources/GenericJsonParser.swift:256-268 | an encoded member is read back as its key, its colon and its value |
| Encoder.MembersTail | Sources/GenericJsonParser.swift:254-283 | after a member, the comma-separated rest is appended in order |
| Encoder.RoundTrip | Sources/GenericJsonParser.swift:80-122 | every encodable document parses back to itself whenever the options admit its root; a scalar root under the strict option is refused with FragmentedJson at the end of its text |
| Samples.NullMismatch | Sources/GenericJsonParser.swift:217-221 | `nall` fails with InvalidLiteral at offset 2 |
| Samples.FalseMismatch | Sources/GenericJsonParser.swift:205-209 | `fals ` fails with InvalidLiteral at offset 5 |
| Samples.MinusAlone | Sources/GenericJsonParser.swift:348-354 | `-` fails with InvalidNumber at offset 1 |
| Samples.IncompleteFraction | Sources/GenericJsonParser.swift:392-396 | `24.` fails with InvalidNumber at offset 3 |
| Samples.ExponentWithoutFraction | Sources/GenericJsonParser.swift:398-436 | `24E2` is the decimal 24 * 10^2 |
| Samples.ScalarRoot | Sources/GenericJsonParser.swift:101-105 | `-7` is accepted as a fragment and refused with FragmentedJson at offset 2 otherwise |
| Samples.MissingComma | Sources/GenericJsonParser.swift:320-324 | `[1 2]` fails with ExpectedComma at offset 3 |
| Samples.ExtraComma | Sources/GenericJsonParser.swift:304-306 | `[1,,2]` fails with InvalidSyntax at offset 3 |
| Samples.TrailingCommaRefused | Sources/GenericJsonParser.swift:313-315 | `[1,]` fails with TrailingComma at offset 3 |
| Samples.ObjectCommaAccepted | Sources/GenericJsonParser.swift:270-273 | `{,}` is the empty object |
| Samples.ExtraTokens | Sources/GenericJsonParser.swift:107-111 | `[] x` fails with InvalidSyntax at offset 3 |
| Samples.IntegerText | Sources/GenericJsonParser.swift:457-471 | the shortest decimal literal of an integer has the integer's sign and magnitude |
| Samples.OutOfRangeInteger | Sources/GenericJsonParser.swift:457-471 | an integer literal outside the signed 64-bit range gives InvalidNumber at its end while its magnitude fits in 64 unsigned bits, and NumberOverflow beyond that |
| Samples.UpperCasePair | Sources/GenericJsonParser.swift:546-593 | the string `"\uD83D\uDE00"`, in upper-case hex, reads as the four UTF-8 bytes of U+1F600 |
| Samples.UpperCaseLoneTrail | Sources/GenericJsonParser.swift:546-593 | the string `"\uDC00"`, in upper-case hex, gives InvalidUnicode at offset 7 |

## Left out

- Floating point. The source builds a `Double` from the accumulators, with a `Double` divisor and repeated multiplication or division by ten (lines 358, 376, 443-454, 635-645). The model returns the exact `Decimal` record those same accumulators describe. Rounding, infinities and the loss of precision of `Double(significand)` are not modelled.
- Callbacks. The six construction callbacks are fixed to the constructors of `Json`. The order in which they are called is not modelled.
- Text conversion. `String(cString:)` (lines 494-497) also repairs invalid UTF-8 in the decoded bytes. The model keeps strings as explicit-length byte sequences: raw bytes are kept as they are, and there is no repair. The NUL truncation of that conversion is modelled separately, as written, in `CStrings` (see Findings).
- Swift library decoders. `UTF16.decode` and `UTF8.encode` (lines 527, 582-592) are replaced by the surrogate formula of section 2.2 of RFC 2781 and the encoding of section 3 of RFC 3629, written out.
- Machine-level plumbing:
  - raw pointers, `endAddress` and `withUnsafeMutableBufferPointer` (lines 60-66, 92) become index arithmetic;
  - the reusable `stringBuffer` and its capacity management become a fresh accumulator;
  - the `Equatable` conformances (lines 43-47, 68-76) are left out.
- Debug-only checks. The `assert` calls at lines 181, 237, 288, 343 and 479 are debug-only. The model has release semantics; callers reach those functions only in the branch the assertion checks.
- Out-of-bounds reads. The source reads one byte past the buffer in `peek` and `skipWhitespace`. The model reads the end marker, which is no byte, instead of whatever memory follows.
- Byte-class constants. Constants such as `numbers`, `alphaNumericLower` and `validUnsigned64BitInteger` are defined in a file that is not part of this model. The model uses the ASCII values and the ranges the arithmetic at lines 553-558 implies, with `0...Int64.max` for the valid integers.
- Encoder.RoundTrip: only documents written by the compact reference encoder are covered. Its output has no whitespace, no `\u` escapes and no `\/` escape, writes every other byte raw or with a one-letter escape, and spells numbers with the shortest digits and a lower-case `e`. So the round trip never reaches the `\u` reader: `\u` decoding is stated separately, for hex digits of either case, by `StringSyntax.UnicodeScalarExactly`, `StringSyntax.EscapeOfScalar` and `StringSyntax.BodyUnicodeStep`. The step rules in `ValueRules` cover whitespace and the other spellings one token at a time, not as a single theorem.
- Encoder.EncodeParses: requires the value's numbers to be ones the scanner can produce. A decimal whose fraction has more digits than fit in a 64-bit mantissa has no literal that reads back as it.
- Samples.OutOfRangeInteger: for the NumberOverflow case, states the reason but not the offset.

## Findings

| source | as written | input that shows it | evidently intended | confidence | as-written member | corrected member |
|---|---|---|---|---|---|---|
| Sources/GenericJsonParser.swift:494-497 | the decoded bytes are NUL-terminated and read back as a C string, so the text ends at the first NUL byte | the string literal `"a\u0000b"` decodes to a, NUL, b but becomes the one-byte text `a` | the text is exactly the decoded bytes, NUL bytes included | not executed | CStrings.NulEscapeTruncates | StringSyntax.ParseStringText |
