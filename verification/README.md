# Verified model of the JSON library and the nng callbacks

This project models, in Dafny 4.11, the algorithms that the repository's message handling stands on, and proves what
they promise:

- **JSON text.** The UTF-8 automaton, string escaping and unescaping (buffered and in place), exact integer parsing,
  the recursive-descent reader, the table-driven reader, the document builder and the compact and pretty writers.
  The readers are proved against one grammar (`Grammar.dfy`) whose outcome is an event log with counts, or an error code
  with the events before it. Numbers, strings and whole texts are written down once more from RFC 8259 alone
  (`JsonNumbers`, `JsonStrings`, `JsonValues`): the readers accept exactly these, and the writers' texts are described in
  the same terms (`JsonWriting`, `JsonLayout`). Of any other text the tokens alone decide what is reported
  (`JsonTokens`). The table-driven reader is proved equal to recursive descent by giving its state and stack
  a meaning: what recursive descent would still do from there (`IterativeReader.Resume`).
- **Exact arithmetic.** Grisu2 digit generation with its error bound, and the multi-limb integer behind exact decimal
  conversion, in place and with every carry.
- **JSON pointers and URI paths.** Parsing and writing RFC 6901 pointers as strings and URI fragments, evaluating and
  creating them on document trees, and removing dot segments in place against section 5.2.4 of RFC 3986. The fragments,
  the written texts and the created trees are also described without the code's own tests and steps
  (`PointerFragment`, `PointerSpelling`, `PointerEffect`).
- **Memory and index structures.** The chunked bump allocator over flat addresses, and the multimap that indexes the
  members of an object.
- **Callback protocols.** The job pool of the REST demo and the socket worker, each as the code's own steps, driven by
  an environment that completes operations in any order with any result, and with a trace of what happened.

One module stands for one source file or component. Code that works by steps is a method with its loops over classes,
arrays and cursors; it is proved equal to a specification function, and the properties are lemmas about that function.
`Arithmetic`, `Bytes`, `Streams` and `Events` are shared vocabulary. Machine integers are newtypes where wrap-around
would matter, so that every operation carries a proof that it does not happen; where the code wraps on purpose the
wrap is written out.

To verify: `dafny verify dfyconfig.toml --resource-limit 2000000`.

## Where code and documentation differ

The model follows the code.

- A root that starts with `]`, `}`, `,` or `:` is DocumentEmpty for the table-driven reader and ValueInvalid for the
  other one.
- `BigInteger::Difference` detects borrows with a test that misses one case; `BigIntegers.Difference` gives
  the exact condition and `Limbs.DiffCounterexample` an input.
- `BigInteger::operator<<=` writes one limb more than its assertion allows for when bits and not only limbs are shifted:
  `BigIntegers.ShiftAssertedIff` says when, `ShiftCounterexample` gives an input, and `BigInteger.ShiftLeft` asks for
  exactly the room that `ShiftStaysIff` shows to be needed.
- The overflow test of pointer indices misses some numbers: `PointerText.OverflowFoundIff` says which,
  `OverflowMissed` gives one.
- Section 6 of RFC 6901 percent-decodes a URI fragment and reads the result as a string pointer. The code splits the
  tokens first. So `%2F` is part of a name, the first solidus and the digit behind a `~` may not be percent-encoded, and the
  characters ``!$&'()*+,;=:@?``, which section 3.5 of RFC 3986 lets stand for themselves in a fragment, are refused.
  `PointerFragment.FragmentExactIff` says that there is no other difference, and four lemmas give inputs.
- Behind the point `DigitGen` tests the rest strictly, so that it passes over a lower bound that would be shorter:
  `Grisu.ShortestIff` says when, `NotShortestInput` gives an input.
- The allocator's sums are made in `size_t`; `PoolAllocator.MallocExactIff` and `ReallocExactIff` say for which requests
  the block lies in memory that the allocator owns, branch by branch.
- The REST demo leaves a finished aio in a recycled job; the model shows that it is never used again.

## How the REST demo and the worker are driven

A callback of the REST demo works on its own job, and on the shared freelist only in one locked section; so a callback is
one step of the model. A handler has two locked sections and is two steps, with anything in between. A step is possible
whenever its operation is outstanding, with any result; jobs that nng and the HTTP server know are found through the
request they carry. In the worker, `stop` may come at any time and the code reads `m_stopping` once per entry: reading it
again can only confirm it.

## Model

| member | source | states |
|---|---|---|
| Utf8.TableIsGrammar | prebuild/include/rapidjson/encodings.h:146-177 | the byte-class table and the tail masks accept exactly the characters of section 4 of RFC 3629, also when the text ends inside one |
| Utf8.Decode | prebuild/include/rapidjson/encodings.h:146-177 | before the end, succeeds exactly when a well-formed character stands at the cursor, and then consumes it and gives its code point; at the end, decodes the NUL there |
| Utf8.Validate | prebuild/include/rapidjson/encodings.h:179-202 | before the end, succeeds exactly on a well-formed character, and copies just its bytes; at the end, copies the NUL there |
| Utf8.DecodeEncode | prebuild/include/rapidjson/encodings.h:102-123 | the encoding of a scalar value is well formed and stands for it |
| Utf8.EncodeDecode | prebuild/include/rapidjson/encodings.h:102-177 | encoding the code point of a well-formed character gives its bytes back |
| Utf8.DecodeAllEncodeAll | prebuild/include/rapidjson/encodings.h:102-177 | decoding the concatenated encodings of any scalar values gives them back |
| Utf8.EncodeAllDecodeAll | prebuild/include/rapidjson/encodings.h:102-177 | re-encoding what any accepted text decodes to gives the text back |
| Utf8.DecodeText | prebuild/include/rapidjson/encodings.h:146-177 | repeated `Decode` calls accept a text exactly when it is UTF-8 throughout, and give its code points |
| StringText.UnescapeEscape | prebuild/include/rapidjson/writer.h:383-455 | every byte string, NULs included, comes back from the UTF-8 escapes the writer puts for it |
| StringText.UnescapeAscii | prebuild/include/rapidjson/writer.h:383-455 | every UTF-8 string comes back from its `\u` escapes and surrogate pairs |
| StringWriter.WriteString | prebuild/include/rapidjson/writer.h:383-455 | fails exactly when it looks at encodings and the string is not UTF-8; otherwise puts the quoted text, within the 2+6n or 2+12n characters that were reserved |
| StringWriter.QuotedRoundTrip | prebuild/include/rapidjson/reader.h:991-1068 | the decoder gives back any string from its quoted text and stops after the closing quote |
| JsonWriting.EscapedIsSpelled | prebuild/include/rapidjson/writer.h:388-455 | the text of any string is, byte by byte and in order, the two-character escape of `"`, `\`, BS, TAB, LF, FF and CR, four upper-case digits for every other byte below 0x20, and every other byte itself |
| JsonWriting.AsciiIsSpelled | prebuild/include/rapidjson/writer.h:404-442 | for an ASCII target the same of every character, with four digits for one beyond ASCII and two surrogates for one beyond the basic plane |
| JsonWriting.PlainUnchanged | prebuild/include/rapidjson/writer.h:388-455 | a string without `"`, `\` and bytes below 0x20 is put unchanged between quotes |
| JsonWriting.AsciiPlainUnchanged | prebuild/include/rapidjson/writer.h:388-455 | for an ASCII target, when it is ASCII besides |
| JsonWriting.EscapedLength | prebuild/include/rapidjson/writer.h:383-455 | the text has one more character for each byte with a two-character escape and five more for each other control byte |
| JsonWriting.AsciiLength | prebuild/include/rapidjson/writer.h:383-455 | for an ASCII target, the sum of 1, 2, 6 or 12 for every character |
| JsonWriting.OnlyAscii | prebuild/include/rapidjson/writer.h:404-442 | nothing beyond ASCII is put for an ASCII target |
| JsonWriting.EscapedIsShortest | prebuild/include/rapidjson/writer.h:383-455 | no text that RFC 8259 allows for the same string is shorter |
| StringReader.ParseHex4 | prebuild/include/rapidjson/reader.h:906-925 | the value of four hexadecimal digits of either case, or failure exactly when one is missing |
| StringReader.ParseStringToStream | prebuild/include/rapidjson/reader.h:991-1068 | appends the decoded string and its NUL, or reports the first error, as the character-by-character meaning of the literal says |
| StringReader.InsituStringStream.Take | prebuild/include/rapidjson/stream.h:188-211 | reads the original byte: nothing unread was overwritten |
| StringReader.InsituStringStream.Put | prebuild/include/rapidjson/stream.h:188-211 | writes only behind the read cursor, so that all unread bytes stay |
| StringReader.InsituStringStream.Validate | prebuild/include/rapidjson/encodings.h:179-202 | the validating copy within one buffer, with the same acceptance as between two streams |
| StringReader.InsituStringStream.ParseStringInsitu | prebuild/include/rapidjson/reader.h:959-1068 | decodes in place: the string lies NUL-terminated at the head, the write cursor never passes the read cursor, and the error codes are those of the buffered path |
| StringReader.TerminatorIrrelevant | prebuild/include/rapidjson/reader.h:991-1068 | the NUL behind a text never changes what a literal in it means |
| StringReader.DecodeBothWays | prebuild/include/rapidjson/reader.h:959-1068 | buffered and in-situ decoding give the same error code, and the same string when there is none |
| JsonStrings.MeaningIff | prebuild/include/rapidjson/reader.h:1010-1046 | the bytes that are taken for a spelling are the only ones it denotes: those it is, the character listed with its letter, or the UTF-8 of the code point of its digits |
| JsonStrings.StringIsRead | prebuild/include/rapidjson/reader.h:991-1068 | every string of section 7 of RFC 8259, each character written in any allowed way (raw, one of the eight letters, four digits of either case, a surrogate pair), is read as the concatenation of what these denote |
| JsonStrings.ReadIsString | prebuild/include/rapidjson/reader.h:991-1068 | and nothing else is accepted |
| JsonStrings.RefusedString | prebuild/include/rapidjson/reader.h:1010-1063 | a refused string begins with allowed spellings, behind which stands what its error code says: the end of the text, a control byte or no UTF-8 character, a letter that is no escape, a digit that is missing, a surrogate without its partner |
| Numbers.Accumulate32 | prebuild/include/rapidjson/reader.h:1487-1522 | the 32-bit accumulator never wraps; it hands over to 64 bits exactly when the literal exceeds the 32-bit limit of its sign |
| Numbers.Accumulate64 | prebuild/include/rapidjson/reader.h:1550-1575 | the 64-bit accumulator never wraps; it gives up exactly when the literal is outside the 64-bit range of its sign |
| Numbers.ParseInteger | prebuild/include/rapidjson/reader.h:1484-1582 | the exact value of any run of digits, in the narrowest accumulator that holds it |
| Numbers.ParseNumber | prebuild/include/rapidjson/reader.h:1468-1747 | the event is Uint or Uint64 for non-negative and Int or Int64 for negative integers, the narrower one that fits, with the exact value; Double exactly outside these ranges or with a fraction or exponent |
| JsonNumbers.ReadIsNumber | prebuild/include/rapidjson/reader.h:1468-1747 | where a number is accepted, the consumed bytes are a number of section 6 of RFC 8259 and cannot be extended; the event is their text as a double exactly when they have a point or an exponent or lie outside the integer range of their sign, and else the integer of the narrowest type |
| JsonNumbers.NumberIsRead | prebuild/include/rapidjson/reader.h:1468-1747 | every number of RFC 8259 is accepted with this event where no character of a number follows, unless it is a double that is too big |
| JsonNumbers.RefusedNumber | prebuild/include/rapidjson/reader.h:1468-1747 | a refused number is refused for what stands there: no number at all, a point or an `e` without digits behind a number, or a double that is too big |
| Numbers.DecimalDigits | prebuild/include/rapidjson/writer.h:314-348 | plain decimal printing is inverse to the digits' value and makes no leading zero |
| Numbers.PrintedInteger | prebuild/include/rapidjson/reader.h:1731-1744 | every 64-bit integer, printed and read back, is reported with the same value, whatever non-number character follows |
| Reader.ParseObject | prebuild/include/rapidjson/reader.h:740-805 | does what the grammar of objects says: same end, same events with the member count, same error code |
| Reader.ParseArray | prebuild/include/rapidjson/reader.h:808-853 | the same for arrays and element counts, with or without trailing commas |
| Reader.ParseElementEnd | prebuild/include/rapidjson/reader.h:828-848 | what follows an element ends the array, fails, or leads to the next element |
| Reader.ParseValue | prebuild/include/rapidjson/reader.h:1751-1765 | the same for every value, chosen by its first character |
| Reader.ParseString | prebuild/include/rapidjson/reader.h:959-989 | a literal becomes a String or Key event |
| Reader.ParseWord | prebuild/include/rapidjson/reader.h:856-893 | `null`, `true` and `false` are read whole or refused |
| Reader.Parse | prebuild/include/rapidjson/reader.h:559-590 | a whole document by recursive descent, with the errors of an empty document and of a second root |
| IterativeReader.ValueStep | prebuild/include/rapidjson/reader.h:2057-2071 | in every state that takes a value, what recursive descent would still do equals the value and then the rest from the state the table moves to |
| IterativeReader.OpenStep | prebuild/include/rapidjson/reader.h:2018-2043 | pushing the return state and count of a container changes nothing that recursive descent would report |
| IterativeReader.KeyStep | prebuild/include/rapidjson/reader.h:2045-2050 | a member name leads to the colon state |
| IterativeReader.ColonStep | prebuild/include/rapidjson/reader.h:2052-2055 | a colon leads to the member's value |
| IterativeReader.CommaStep | prebuild/include/rapidjson/reader.h:2073-2078 | a comma counts the member or element before it |
| IterativeReader.CloseStep | prebuild/include/rapidjson/reader.h:2080-2140 | a closing bracket reports the count of recursive descent and pops the frame, unless it follows a comma that may not trail |
| IterativeReader.Stuck | prebuild/include/rapidjson/reader.h:2163-2189 | the error of a state with no step is the one recursive descent reports there |
| IterativeReader.StrayIffStuck | prebuild/include/rapidjson/reader.h:1844-1862 | the table has no step from the start exactly on `]`, `}`, `,` and `:` |
| IterativeReader.StrayRootError | prebuild/include/rapidjson/reader.h:1751-1765 | on such a root the recursive parser reports ValueInvalid before any event |
| IterativeReader.Parser.Transit | prebuild/include/rapidjson/reader.h:2011-2161 | one step of the table-driven parser keeps what recursive descent would still report |
| IterativeReader.Parser.HandleError | prebuild/include/rapidjson/reader.h:2163-2189 | an error found while stepping stays; where the table has no step, the error is the one that recursive descent would report from there; on a stray root it is DocumentEmpty |
| IterativeReader.Parser.IterativeParse | prebuild/include/rapidjson/reader.h:2192-2224 | the outcome of the table-driven parser is that of recursive descent, except the error code of a stray root |
| IterativeReader.ParseBothWays | prebuild/include/rapidjson/reader.h:2192-2224 | on every text both parsers accept alike and log the same events; the codes differ only as DocumentEmpty and ValueInvalid on a stray root |
| JsonValues.TermIsRead | prebuild/include/rapidjson/reader.h:1751-1765 | every value of RFC 8259, with any spaces and spellings, is read to its end as its events |
| JsonValues.ReadIsTerm | prebuild/include/rapidjson/reader.h:1751-1765 | what is read as a value is one of RFC 8259, or one with trailing commas where these are allowed |
| JsonValues.AcceptedIff | prebuild/include/rapidjson/reader.h:559-590 | a text without NUL is accepted if and only if it is a JSON text of section 2 of RFC 8259 (or one with trailing commas where these are allowed); its events are those of its value |
| JsonValues.SpacesDoNotMatter | prebuild/include/rapidjson/reader.h:266-275 | JSON texts that differ only in the space, tab, line feed and carriage return characters between their tokens are accepted with the same events |
| JsonTokens.TokensDecide | prebuild/include/rapidjson/reader.h:559-590 | whatever the texts are, accepted or refused: the same tokens up to the end, or to the first that is none, give the same events and the same error code or none |
| JsonTokens.SpacesAdded | prebuild/include/rapidjson/reader.h:266-275 | spaces added anywhere between two tokens change no token, and no error inside one |
| JsonTokens.SpacesChangeNothing | prebuild/include/rapidjson/reader.h:266-275 | so space, tab, line feed and carriage return characters between tokens leave events and error code of every text as they are |
| Dom.FlagsAreExact | prebuild/include/rapidjson/document.h:792-828 | every integer constructor sets exactly the flags of the types that hold the value |
| Dom.Builder.EndArray | prebuild/include/rapidjson/document.h:2855-2861 | pops the elements into the array below them |
| Dom.Builder.EndObject | prebuild/include/rapidjson/document.h:2845-2853 | pops names and values in pairs into the object below them |
| Dom.Builder.Handle | prebuild/include/rapidjson/document.h:2821-2861 | every event changes the stack as its meaning says |
| Printer.Writer.Prefix | prebuild/include/rapidjson/writer.h:479-504 | puts the separator and indentation the level asks for and counts the value; no assertion of it can fail when the caller keeps to names and values in turn |
| Printer.Writer.Str | prebuild/include/rapidjson/writer.h:204-209 | prefix and quoted string |
| Printer.Writer.Start | prebuild/include/rapidjson/prettywriter.h:123-161 | prefix, opening bracket and a new level |
| Printer.Writer.End | prebuild/include/rapidjson/prettywriter.h:137-179 | the level is popped, both assertions about it hold, and the closing bracket gets a line of its own exactly after a value |
| Printer.Accept | prebuild/include/rapidjson/document.h:1948-1985 | walking any tree puts exactly the text of the tree, compact or pretty, and leaves the levels as a value should |
| JsonLayout.PrintIsLaid | prebuild/include/rapidjson/prettywriter.h:208-255 | the text of every tree, in every style and at every depth, is its JSON text with just these spaces: a line feed and depth times `indentCount` indent characters before every member, before every element (or one space behind commas when arrays stay on one line) and before the closing bracket of what is not empty, and one space behind colons |
| JsonLayout.CompactIsTight | prebuild/include/rapidjson/writer.h:479-504 | taking out the spaces of any style gives the compact text, which has none |
| RoundTrip.Rebuild | prebuild/include/rapidjson/document.h:2821-2861 | the events of a tree, given to the builder in any context, push exactly that tree, duplicate names and number flags included |
| RoundTrip.ParsePrinted | prebuild/include/rapidjson/reader.h:1751-1765 | the text of any tree, anywhere in a document, is parsed as the events of the tree and nothing more |
| RoundTrip.PrintParse | prebuild/include/rapidjson/writer.h:217-253 | printing a tree and parsing the text gives the tree |
| RoundTrip.ValueBuilds | prebuild/include/rapidjson/document.h:2402-2432 | every value the parser accepts builds exactly one value on any stack |
| RoundTrip.AcceptedBuildsRoot | prebuild/include/rapidjson/document.h:2402-2432 | every accepted document builds one root: the stack never underflows and the counts always match it |
| RoundTrip.ParseDocument | prebuild/include/rapidjson/reader.h:559-590 | parsing into a document gives an error or one root |
| RoundTrip.WriteThenParse | prebuild/include/rapidjson/prettywriter.h:208-255 | the code of writer, reader and builder in a row is the identity on trees |
| Grisu.GrisuRound | prebuild/include/rapidjson/internal/dtoa.h:35-42 | the last digit is lowered by the number of steps that brings the rest closest to W within the interval, and every step comes strictly closer |
| Grisu.StopsAtClosest | prebuild/include/rapidjson/internal/dtoa.h:35-42 | the conditions under which the rounding loop stops are those of a closest rest |
| Grisu.CountDecimalDigit32 | prebuild/include/rapidjson/internal/dtoa.h:44-58 | the number of decimal digits of every number below 10^9; nine for those from 10^9 on, which `DigitGen` does not meet |
| Grisu.RoundedIsNearest | prebuild/include/rapidjson/internal/dtoa.h:35-42 | a closest rest makes the digits nearest to W among all numbers of that unit in the interval |
| Grisu.RemainderRulesOut | prebuild/include/rapidjson/internal/dtoa.h:60-114 | as long as the rest exceeds delta, no number of that unit lies in the interval; a rest equal to delta leaves the lower bound only |
| Grisu.GenerateIntegral | prebuild/include/rapidjson/internal/dtoa.h:60-97 | the digits before the point, none of them a leading zero |
| Grisu.GenerateFraction | prebuild/include/rapidjson/internal/dtoa.h:98-113 | the digits behind the point, generated without wrap of 64 bits and in at most nineteen rounds |
| Grisu.FractionBounds | prebuild/include/rapidjson/internal/dtoa.h:98-113 | the fraction loop ends before the scaled interval exceeds one, so the power table is never left |
| Grisu.DigitGen | prebuild/include/rapidjson/internal/dtoa.h:60-114 | at most 21 decimal digits that denote, rescaled, a number in [Mp - delta, Mp], nearest to W of its unit; no decimal of a coarser unit lies in (Mp - delta, Mp], and before the point not even in [Mp - delta, Mp] |
| Grisu.OnlyTheLowerBound | prebuild/include/rapidjson/internal/dtoa.h:98-113 | a decimal of a coarser unit in the closed interval can only be Mp - delta itself, behind the point |
| Grisu.ShortestIff | prebuild/include/rapidjson/internal/dtoa.h:60-114 | the digits fail to be the shortest of the closed interval if and only if what is below the point exceeds delta and Mp - delta is a decimal whose last place, behind the point, is worth more than delta |
| Grisu.NotShortestInput | prebuild/include/rapidjson/internal/dtoa.h:98-113 | for Mp = W = 1.5 + 2^-32 and delta = 2^-32 the digits are 1.5000000002 although 1.5 is in the interval |
| BigIntegers.MulAdd64 | prebuild/include/rapidjson/internal/biginteger.h:269-282 | the four half products and their carries give a*b+k over 128 bits |
| BigIntegers.HalfStep | prebuild/include/rapidjson/internal/biginteger.h:110-131 | the two 32-bit halves of a limb product, with the carry below 2^32 |
| Limbs.AddValue | prebuild/include/rapidjson/internal/biginteger.h:75-90 | carrying through the limbs adds |
| Limbs.MulValue | prebuild/include/rapidjson/internal/biginteger.h:92-108 | carrying through the limbs multiplies and adds the first carry |
| Limbs.ShiftAt | prebuild/include/rapidjson/internal/biginteger.h:133-157 | every limb of a product by 2^n consists of the low part of its own limb and the high part of the one below |
| Limbs.NormalUnique | prebuild/include/rapidjson/internal/biginteger.h:213-224 | two normal forms of one number are equal |
| Limbs.ShorterSmaller | prebuild/include/rapidjson/internal/biginteger.h:213-224 | fewer limbs below a top limb that is not zero make a smaller number |
| Limbs.TopDecides | prebuild/include/rapidjson/internal/biginteger.h:213-224 | the highest limb that differs decides |
| BigIntegers.BigInteger.AddAssign | prebuild/include/rapidjson/internal/biginteger.h:75-90 | `+=` adds and keeps the normal form |
| BigIntegers.BigInteger.MulAssign64 | prebuild/include/rapidjson/internal/biginteger.h:92-108 | `*=` by 64 bits multiplies and keeps the normal form |
| BigIntegers.BigInteger.MulAssign32 | prebuild/include/rapidjson/internal/biginteger.h:110-131 | `*=` by 32 bits does the same |
| BigIntegers.BigInteger.ShiftLeft | prebuild/include/rapidjson/internal/biginteger.h:133-157 | `<<=` multiplies by 2^shift, although limbs are written where others are still to be read, and assigns no limbs but those of `ShiftAssigns` |
| BigIntegers.ShiftStaysIff | prebuild/include/rapidjson/internal/biginteger.h:133-157 | no limb beyond the last is assigned if and only if the moved limbs, and one more when bits move too, fit the capacity |
| BigIntegers.ShiftAssertedIff | prebuild/include/rapidjson/internal/biginteger.h:133-138 | the code's assertion misses exactly the shifts by bits that fill the last limb |
| BigIntegers.ShiftCounterexample | prebuild/include/rapidjson/internal/biginteger.h:133-157 | a full number shifted by one bit passes the assertion and the limb behind the last is assigned |
| BigIntegers.BigInteger.MultiplyPow5 | prebuild/include/rapidjson/internal/biginteger.h:167-187 | 5^27, 5^13 and the table together make 5^n for every n |
| BigIntegers.BigInteger.AppendDecimal64 | prebuild/include/rapidjson/internal/biginteger.h:230-238 | up to 19 digits are appended, whenever the result fits the limbs and one is free before the last shift |
| BigIntegers.ParseUint64 | prebuild/include/rapidjson/internal/biginteger.h:246-253 | nineteen digits never wrap |
| BigIntegers.BigInteger.FromDecimal | prebuild/include/rapidjson/internal/biginteger.h:45-58 | for every digit string whose value fits the limbs, with one free before the shift of the last block, the limbs denote that value in normal form |
| BigIntegers.BigInteger.Compare | prebuild/include/rapidjson/internal/biginteger.h:213-224 | agrees with numeric order |
| BigIntegers.Difference | prebuild/include/rapidjson/internal/biginteger.h:191-211 | tells which operand is smaller; the result is the absolute difference if and only if no limb of the smaller operand is 2^64-1 while the limbs below it exceed those of the larger operand |
| Limbs.DiffExactIff | prebuild/include/rapidjson/internal/biginteger.h:191-211 | the same about the limbs: otherwise the result is too large |
| Limbs.FullLimbFromOperands | prebuild/include/rapidjson/internal/biginteger.h:200-208 | whether the borrow test meets a full limb can be told from the operands without the loop |
| Limbs.DiffCounterexample | prebuild/include/rapidjson/internal/biginteger.h:191-211 | 2^128 less 2^128-2^64+1 comes out as 2^128+2^64-1 |
| PointerText.ParseText | prebuild/include/rapidjson/pointer.h:1069-1101 | parsing what was written for any names, as a string or as a URI fragment, gives the names back (what sections 3 and 6 of RFC 6901 ask of a writer and its reader) |
| PointerText.TextMeaning | prebuild/include/rapidjson/pointer.h:930-1065 | writing what a string pointer was parsed into gives the string back |
| PointerText.FragmentIffUtf8 | prebuild/include/rapidjson/pointer.h:1069-1101 | a pointer can be written as a fragment exactly when its names are UTF-8, and always as a string |
| PointerSpelling.TextIsSpelled | prebuild/include/rapidjson/pointer.h:1069-1101 | every name is written behind a solidus with `~0` and `~1`; in a fragment exactly the unreserved characters of RFC 3986 stay and every other byte is a triplet |
| PointerSpelling.TextIsFragment | prebuild/include/rapidjson/pointer.h:1069-1101 | what is written behind `#` is a fragment of section 3.5 of RFC 3986 |
| PointerFragment.FragmentAcceptedIff | prebuild/include/rapidjson/pointer.h:930-1065 | of the fragments that section 6 of RFC 6901 accepts, the code accepts exactly those without an encoded first solidus, a reserved character that stands for itself, or an encoded digit behind a `~`; and no others |
| PointerFragment.FragmentMeansIff | prebuild/include/rapidjson/pointer.h:930-1065 | an accepted fragment means what its percent-decoded text means if and only if no `%2F` stands in it |
| PointerFragment.FragmentExactIff | prebuild/include/rapidjson/pointer.h:930-1065 | for every text behind `#`, code and section 6 agree if and only if section 6 refuses it or none of these four things stands in it |
| PointerFragment.NeedIffNotUnreserved | prebuild/include/rapidjson/pointer.h:918-920 | the code encodes everything but the unreserved characters of section 2.3 of RFC 3986 |
| PointerFragment.EncodedSolidusInput | prebuild/include/rapidjson/pointer.h:968-1021 | `#/a%2Fb` is one name for the code and two in section 6 |
| PointerFragment.EncodedDigitInput | prebuild/include/rapidjson/pointer.h:999-1015 | `#/~%30` is refused; section 6 reads the name `~` |
| PointerFragment.ReservedInput | prebuild/include/rapidjson/pointer.h:991-994 | `#/a:b` is refused; section 6 reads the name `a:b` |
| PointerFragment.EncodedFirstInput | prebuild/include/rapidjson/pointer.h:949-959 | `#%2Fa` is refused; section 6 reads the name `a` |
| PointerText.TripletsDecode | prebuild/include/rapidjson/pointer.h:1108-1168 | the triplets written for bytes are read back as these bytes, whatever follows |
| PointerText.IndexIsValue | prebuild/include/rapidjson/pointer.h:1028-1045 | a number without leading zero that SizeType holds is the token's index |
| PointerText.IndexIsWrapped | prebuild/include/rapidjson/pointer.h:1028-1045 | every number without leading zero becomes its value modulo 2^32, or no index when a digit makes the wrapped value smaller |
| PointerText.OverflowFoundIff | prebuild/include/rapidjson/pointer.h:1028-1045 | a number gets the index that is promised (its value, or none when SizeType cannot hold it) if and only if SizeType holds it, some digit makes the value modulo 2^32 smaller, or it wraps to the invalid index |
| PointerText.OverflowMissed | prebuild/include/rapidjson/pointer.h:1028-1045 | 8589934590 is taken for the index 4294967294 |
| PointerParser.PercentDecodeStream.Take | prebuild/include/rapidjson/pointer.h:1108-1150 | the next decoded byte, or 0 and an invalid stream exactly when there is no triplet |
| PointerParser.Validate | prebuild/include/rapidjson/encodings.h:179-202 | copies one percent-encoded UTF-8 character into the name buffer; on no path does it write past the buffer's end |
| PointerParser.ParsePiece | prebuild/include/rapidjson/pointer.h:968-1023 | one character of a name: percent-decoded, unescaped, copied, and the cursor stays behind the source |
| PointerParser.ParseName | prebuild/include/rapidjson/pointer.h:960-1024 | a whole name up to the next solidus |
| PointerParser.ParseIndex | prebuild/include/rapidjson/pointer.h:1032-1045 | the index is a function of the name |
| PointerParser.TokenHasName | prebuild/include/rapidjson/pointer.h:1024-1027 | a token's stretch of the buffer is its name, and a NUL follows |
| PointerParser.GenericPointer.Parse | prebuild/include/rapidjson/pointer.h:930-1065 | every text gets the tokens, or the error code and offset, of its meaning; as many tokens as solidi, and all names within the buffer |
| PointerParser.GenericPointer.StringifyName | prebuild/include/rapidjson/pointer.h:1069-1101 | one name is written as its text, or refused exactly when that does not exist |
| PointerParser.GenericPointer.Stringify | prebuild/include/rapidjson/pointer.h:1069-1101 | the whole pointer is written as its text, or refused exactly when that does not exist |
| PointerTree.ExistIffResolved | prebuild/include/rapidjson/pointer.h:458-505 | `alreadyExist` holds exactly when `Get` resolved the pointer before; then the document is unchanged |
| PointerTree.CreatedIsNull | prebuild/include/rapidjson/pointer.h:458-505 | what did not exist is created as null |
| PointerTree.GetAfterCreate | prebuild/include/rapidjson/pointer.h:458-505 | afterwards `Get` reaches the created value, exactly unless a `-` landed on an array |
| PointerTree.OthersKept | prebuild/include/rapidjson/pointer.h:458-505 | a pointer that resolved before, and takes another child at a container that was not retyped, resolves to the same place and value (section 4 of RFC 6901) |
| PointerTree.ParsedIsProper | prebuild/include/rapidjson/pointer.h:1028-1045 | a parsed `-` has no index |
| PointerTree.GetAfterSet | prebuild/include/rapidjson/pointer.h:732-738 | what was set is what `Get` finds, unless a `-` landed on an array |
| PointerTree.OthersKeptBySet | prebuild/include/rapidjson/pointer.h:732-738 | and the other pointers keep their values |
| PointerEffect.MakesIff | prebuild/include/rapidjson/pointer.h:458-505 | what `Create` and `Set` make of any tree, said without the code's steps: an array of just index+1 elements, nulls but for the child, for an index on what is no container; an object of one member for another token; an array that is too short keeps its elements and is padded with nulls; a `-` appends; a name goes to the first member of that name or to a new last one; everything else is unchanged. Only that tree is so described |
| PointerEffect.BesideIsKept | prebuild/include/rapidjson/pointer.h:458-505 | every value off the created path stays at its place, as long as the containers above it are not replaced |
| PointerTree.Document.Descend | prebuild/include/rapidjson/pointer.h:462-500 | one round of the loop changes the container under the pointer and moves to the child, as one step of creation says |
| PointerTree.Document.Create | prebuild/include/rapidjson/pointer.h:458-505 | the walk changes the document in place into the created tree and returns the place and `alreadyExist` |
| PointerTree.Document.Set | prebuild/include/rapidjson/pointer.h:732-734 | the created place gets the value |
| PointerTree.Document.Get | prebuild/include/rapidjson/pointer.h:601-629 | the value's place, or the index of the first token that does not resolve |
| Uri.RemoveDotsTwice | prebuild/include/rapidjson/uri.h:411-458 | removing dot segments a second time changes nothing on any absolute path |
| Uri.AbsoluteStays | prebuild/include/rapidjson/uri.h:411-458 | the result of an absolute path is absolute and not empty, so that it may be removed from again |
| Uri.RelativeInput | prebuild/include/rapidjson/uri.h:411-458 | of `a/..` the standard leaves a slash; of the same path behind a slash it also leaves a slash, so the code leaves nothing |
| Uri.ResultClean | prebuild/include/rapidjson/uri.h:411-458 | no segment of the result is `.` or `..` |
| Uri.DotDotStands | prebuild/include/rapidjson/uri.h:425-440 | backing up in the new path is what section 5.2.4 of RFC 3986 does to its output buffer |
| Uri.UriPath.BackUp | prebuild/include/rapidjson/uri.h:429-440 | finds the slash before the last segment and never goes below the first slash of an absolute path |
| Uri.UriPath.KeepSegment | prebuild/include/rapidjson/uri.h:444-453 | the segment moves towards the front, and what is unread stays; the write position does not pass the read position |
| Uri.UriPath.RemoveDotSegments | prebuild/include/rapidjson/uri.h:411-458 | the result of an absolute path is that of section 5.2.4 of RFC 3986; that of a relative path without empty segments is what the standard makes of it behind a slash, less this slash; both assertions hold for every path, and the bytes after the old path stay |
| RestServer.NoJobTwice | demo/rest/server.c:104-129 | a freelist that is linked as its jobs say has no job twice, so it ends |
| RestServer.Account.SettleOnce | demo/rest/server.c:131-140 | settling what is held keeps the account: everything is held or settled once |
| RestServer.Server.PopFree | demo/rest/server.c:108-129 | the head of the freelist leaves it, and no other job does |
| RestServer.Server.RestGetJob | demo/rest/server.c:108-129 | a job that holds nothing, taken from the freelist or new; none only when the allocation fails |
| RestServer.Server.RestRecycleJob | demo/rest/server.c:91-106 | the job's message is freed when it has one, and the job is the head of the freelist |
| RestServer.Server.RestHttpFatal | demo/rest/server.c:131-140 | the request is finished with the error and the job is recycled, although its stale aio stays in it |
| RestServer.Server.RestJobCb | demo/rest/server.c:142-183 | what every completion does to its request, its message, the job and the freelist, for any result |
| RestServer.Server.RestHandle | demo/rest/server.c:188-199 | a request without a job fails at once with ENOMEM; else it waits with its handler |
| RestServer.Server.RestHandleGoOn | demo/rest/server.c:200-219 | a context or message that cannot be had finishes the request; else the job sends a new message |
| RestServer.Server.ValidIsSafe | demo/rest/server.c:72-219 | the invariant means: requests finished at most once; unfinished ones with one handler or in one job with one operation; freelist without cycle or duplicate and apart from jobs in use; messages freed or handed over at most once |
| RestServer.Server.AllDone | demo/rest/server.c:72-219 | when nothing is at work, every request was finished and every message settled exactly once |
| RestServer.RoundJustified | demo/rest/server.c:131-183 | what one section tells keeps the promise about results: a request is finished with 0 only after its reply was received and copied, and otherwise with the code of what failed right before |
| RestServer.Step | demo/rest/server.c:72-219 | one arrival, handler or completion tells no more than its own codes allow, and the results told are those in the bookkeeping |
| RestServer.Run | demo/rest/server.c:72-219 | after every interleaving of arrivals, handlers and completions with any codes: the safety promises hold, and every result of every request is justified by the entries before it in the trace |
| AioWorkers.RoundGood | NngIpcAioWorker.cpp:105-216 | one entry into `process` keeps every promise about the whole run |
| AioWorkers.RoundApart | NngIpcAioWorker.cpp:105-216 | never two operations outstanding |
| AioWorkers.RoundAnswers | NngIpcAioWorker.cpp:148-194 | every send follows its own successful receive and callback |
| AioWorkers.RoundDecides | NngIpcAioWorker.cpp:148-194 | the callback is called for successful receives only, and its reply decides between send, receive and sleep |
| AioWorkers.RoundLeads | NngIpcAioWorker.cpp:105-136 | an error code leads to sleep, a canceled or closed aio or a stop to nothing ever after |
| AioWorkers.AioWorker.Process | NngIpcAioWorker.cpp:105-216 | one entry adds exactly what its code, its state and the reply ask for |
| AioWorkers.AioWorker.ProcessWrapper | NngIpcAioWorker.cpp:98-103 | RECV, SEND and ERROR mean that a receive, a send and a sleep are outstanding, after every completion |
| AioWorkers.Run | NngIpcAioWorker.cpp:93-226 | the promises hold in every run from one `start` with any codes, replies and stops |
| PoolAllocator.HeadTestExactIff | prebuild/include/rapidjson/allocators.h:326-329 | a block that the wrapping head test lets through lies in the chunk if and only if its end does not wrap |
| PoolAllocator.HeadTestCounterexample | prebuild/include/rapidjson/allocators.h:326-329 | 2^64-8 bytes pass the test on a chunk of 64 |
| PoolAllocator.MallocExactIff | prebuild/include/rapidjson/allocators.h:321-334 | `Malloc` places the block in the head chunk, or in the memory it asks for, if and only if the sums it needs for this request do not wrap; the size of a chunk counts only when one is needed |
| PoolAllocator.ChunkCounterexample | prebuild/include/rapidjson/allocators.h:390-402 | for 2^64-16 bytes the head test is right, but eight bytes are asked for |
| PoolAllocator.ReallocExactIff | prebuild/include/rapidjson/allocators.h:337-377 | the same for `Realloc`, with its rounding, its test whether the last block can grow, and its call of `Malloc` |
| PoolAllocator.GrowCounterexample | prebuild/include/rapidjson/allocators.h:346-362 | a last block of 16 bytes is granted 2^64-8 bytes in place; 2^64-7 bytes round to none and are granted too |
| PoolAllocator.MemoryPoolAllocator.NoByteShared | prebuild/include/rapidjson/allocators.h:321-377 | no byte belongs to two live blocks; every byte of a block is in the used part of one chunk |
| PoolAllocator.MemoryPoolAllocator.BeyondBlocks | prebuild/include/rapidjson/allocators.h:321-334 | the unused bytes of the head chunk meet no live block |
| PoolAllocator.MemoryPoolAllocator.LastIsInHead | prebuild/include/rapidjson/allocators.h:354-362 | a block whose end is the head's end is in the head chunk, although only addresses are compared |
| PoolAllocator.MemoryPoolAllocator.AddChunk | prebuild/include/rapidjson/allocators.h:390-402 | a new head chunk, or nothing when the base allocator fails |
| PoolAllocator.MemoryPoolAllocator.Malloc | prebuild/include/rapidjson/allocators.h:321-334 | a block apart from all others, aligned to eight in one chunk; none exactly for no bytes or when no chunk is to be had |
| PoolAllocator.MemoryPoolAllocator.Realloc | prebuild/include/rapidjson/allocators.h:337-377 | grows in place exactly when it can, moves otherwise, keeps the contents of this and of every other block, and changes nothing when it fails |
| PoolAllocator.MemoryPoolAllocator.Clear | prebuild/include/rapidjson/allocators.h:277-289 | only the first chunk is left, and it is empty |
| PoolAllocator.MemoryPoolAllocator.Size | prebuild/include/rapidjson/allocators.h:304-310 | the used bytes of all chunks, at most their capacity |
| PoolAllocator.MemoryPoolAllocator.Capacity | prebuild/include/rapidjson/allocators.h:293-299 | the capacity of all chunks |
| MemberIndex.IndexIsExact | prebuild/include/rapidjson/document.h:2191-2264 | nodes and members that agree are the same pairs of name and position, each once |
| MemberIndex.MoveNode | prebuild/include/rapidjson/document.h:2320-2342 | moving a member with its iterator and telling the node keeps them in agreement |
| MemberIndex.ObjectMembers.HoldsExactly | prebuild/include/rapidjson/document.h:2304-2318 | after every operation the multimap holds exactly the pairs (name of member i, i) |
| MemberIndex.ObjectMembers.NodesAreMembers | prebuild/include/rapidjson/document.h:2191-2210 | the multimap has as many nodes as there are members, which is what the reallocation copies |
| MemberIndex.ObjectMembers.FindMember | prebuild/include/rapidjson/document.h:2228-2238 | the indexed lookup finds a member of that name exactly when there is one |
| MemberIndex.ObjectMembers.FindMemberLinear | prebuild/include/rapidjson/document.h:2281-2288 | the linear lookup finds the first one |
| MemberIndex.ObjectMembers.SameLookup | prebuild/include/rapidjson/document.h:2228-2288 | with distinct names both find the same position |
| MemberIndex.ObjectMembers.DoReserveMembers | prebuild/include/rapidjson/document.h:2191-2226 | more places, same members and same nodes |
| MemberIndex.ObjectMembers.DoAddMember | prebuild/include/rapidjson/document.h:2304-2318 | one more member at the end, with the growth of the capacity |
| MemberIndex.ObjectMembers.DoRemoveMember | prebuild/include/rapidjson/document.h:2320-2342 | the last member takes the removed one's place |
| MemberIndex.ObjectMembers.DoEraseMembers | prebuild/include/rapidjson/document.h:2344-2376 | a stretch goes, the order of the others stays |
| MemberIndex.ObjectMembers.DoClearMembers | prebuild/include/rapidjson/document.h:2240-2250 | no member and no node is left |
| MemberIndex.ObjectMembers.DoCopyMembers | prebuild/include/rapidjson/document.h:2378-2399 | the same members in as many places, indexed afresh |

## Left out

- PoolAllocator.MemoryPoolAllocator.Malloc: is stated for the requests of `MallocExactIff`; for all others the code does not return memory of its own.
- PoolAllocator.MemoryPoolAllocator.Realloc: is stated for those of `ReallocExactIff`, and the size given for the old block is the one it was asked for with, as the allocator concept demands.
- BigIntegers.BigInteger.ShiftLeft: is stated where `ShiftStaysIff` holds; for all other shifts the code writes behind its limbs.
- BigIntegers.BigInteger.FromDecimal: is stated for values that fit the limbs with one free before the last shift, because the shift writes it.
- BigIntegers.BigInteger.AppendDecimal64: the same.
- BigIntegers.Difference: the operands differ, as the code asserts.
- Grisu.DigitGen: the operands are those the caller scales to (32 <= -e <= 60, integral part from 1 to 10^9 - 1, delta covering W).
- Uri.UriPath.RemoveDotSegments: for relative paths with an empty segment only the assertions, the bounds and the untouched bytes are stated.
- StringWriter.WriteString: what was put before a failure is not described.
- PointerParser.GenericPointer.Stringify: what was written before a failure is not described.
- PointerParser.GenericPointer.StringifyName: the same.
- Printer.Writer.Str: is the writer's for UTF-8 without validation, whose strings cannot fail; the other encodings are those of `StringWriter.WriteString`.
- RestServer.Server.RestRecycleJob: closing the job's context is not described, as a stale context id after a failed open makes it depend on nng.
- AioWorkers.AioWorker.Process: the freeing of messages when an aio was canceled or failed is not described.
- JsonValues.AcceptedIff: is for texts without NUL, at which the code stops reading, and without the option to stop behind the root.
- RoundTrip.WriteThenParse: byte strings must be UTF-8 when the reader validates encodings, since it refuses others.
- Doubles: their values, printing (`Grisu2`, `Prettify`, cached powers) and conversion are not part of this model; a double literal is kept as its text, and whether it overflows is a parameter (`Flags.tooBig`).
- Handlers that abort a parse, error offsets of the JSON readers, `IterativeParseNext`, comments, NaN and Inf, numbers as strings, escaped apostrophes, full precision.
- UTF-16 and UTF-32, transcoding between encodings other than UTF-8 and ASCII output, SIMD scanners.
- The 32-bit wrap of element, member and value counts (`SizeType`): counts are unbounded, as 2^32 values do not fit a document.
- Copy flags of strings, 48-bit pointer packing, union layouts and move constructors of values: values are trees.
- The escape digits of an in-place string are read through a read-only view of the buffer: the code writes nothing while it reads them.
- The compact and the pretty writer are one class with a style; the code's second class overrides the prefix and the ends.
- The name buffer and the token array of a pointer are two arrays; the code allocates them as one block.
- Pointers into a document are paths from its root, and an assignment through one replaces the value at that path.
- `FindMember` in pointer evaluation is the linear one, which finds the first member of a name.
- The allocator's shared data, reference count and destructor; base allocators other than one that returns unused memory or nothing.
- Comparison of names in the multimap and its balancing: nodes have identities, and a lookup returns any node of the name.
- Freeing of the callback's reply buffer in the worker.
- Sockets, processes, threads, the publish, subscribe, request and response handlers, the C wrappers, the other demos and `implement/`: they pass messages between nng and fixed layouts and keep no state of their own over a run.
- The schema code, error-text tables, and file and stream wrappers.
