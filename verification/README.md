# A verified model of the agent host's JSON core

The agent host reads its configuration, decodes query results and reports its state through RapidJSON, which is kept
in `src/lib/rapidjson`. This project models that library's parsers, document, writers, object index, memory pool,
JSON Pointer and schema validator, and the host's own watchdog loop, and proves what they promise their callers.

Run `dafny verify dfyconfig.toml` in this directory to check everything.

## How it is organised

A component appears twice where the program updates state: as functions that say what it computes, and as a class or
method that does it step by step the way the program does and is proved to compute exactly that. The laws are
lemmas about the functions.

| Files | Component |
|---|---|
| `Bytes`, `Encodings`, `Strings`, `Numbers`, `NumberArithmetic`, `Events` | code units, UTF-8 and UTF-16, string escapes, number tokens, handler events |
| `Grammar`, `RecursiveParser`, `IterativeParser`, `Simulation`, `GrammarAccepted`, `Language`, `Reader` | concrete JSON trees as the reference, the two parsers and their agreement, the reader object |
| `Completions`, `ParseErrors` | texts that break off and what completes them, and so what each error code and offset tells |
| `Values`, `Documents`, `NumberMeaning` | stored values and number flags, the document's value stack, what becomes of each number written |
| `Writers`, `Printing`, `WriterRuns`, `RoundTrip`, `Layout`, `Accepting` | both writers, what runs of calls print, round trips through text, where the white space goes |
| `Schemas`, `SchemaValidation`, `SchemaValidators` | the recursive meaning of a schema, the one-pass validator, its object |
| `Reordering`, `Equality`, `RepeatedNames`, `Fnv`, `Hashing`, `HashCodes` | reordered objects, value comparison, the hash, what its codes depend on and what not |
| `MemberMaps`, `PoolAllocators` | the two member stores of an object, the memory pool and its handles |
| `PointerTrees`, `PointerOperations`, `Pointers`, `PointerParsers`, `Fragments`, `FragmentGrammar`, `PointerEvaluation`, `PointerFaults` | JSON Pointer on trees and as text, its evaluation by RFC 6901, its errors |
| `Watchdog` | the list of agents and the loop over it |

Conventions. A failed `RAPIDJSON_ASSERT` throws (`src/core/agent_config.h:7`), so its condition is a guard, a result or
a precondition here. Bytes are integers below 256, machine words carry their ranges as subset types, and wrap-around is
a remainder, in the 64-bit hash as well. A text ends at its length or at an embedded NUL, as the stream does. A parse
gets its surroundings as one value: the text, the two flags, a handler that answers each event from the
whole history of events, and the verdict of the floating-point conversion on each number token. `AcceptsAll` says that
the handler never stops the parse; a number token that overflows is not part of a legal tree.

The main results, in one place:

- both parsers, and the token-by-token driver, accept exactly the trees of the grammar, send the same events with the
  same counts, and refuse together with the same error at the same offset but for two cases, under any handler
  (`ParsersAgree`, `TokenParserAgrees`, `DriversRecogniseTheGrammar`);
- an error tells where the text broke off: what stands before can be completed to a JSON text with what the code says
  was due there, and the byte at the offset is not that (`ErrorsExplained`);
- every number of an accepted text is reported and stored with its sign and value, or as its whole text when it is a
  double (`NumbersAsWritten`, `TreeStored`);
- writing a value and reading the text gives the value back, through either writer and any of the three parsers
  (`WriteThenRead`, `WriteAndRead`), and so it does for whatever a complete run of writer calls has written
  (`CompleteRunReadsBack`);
- after any sequence of writer calls that passes its guards the output can be completed to a JSON text, and it is one
  exactly when `IsComplete` says so (`OutputIsPrefixOfText`); the indenting writer puts exactly the white space that
  the tokens before ask for (`TapeLaidOut`);
- the one-pass validator with its parallel sub-validators decides the recursive meaning of the schema
  (`OnePassDecides`, `Validate`);
- the pool keeps live blocks aligned, inside chunks and apart over any run, and the test for growth in place cannot
  match a block of an older chunk (`Realloc`, `LastIsInHead`);
- a hash code changes with every byte, with the code of the value at any place and with the order of array elements,
  and with no order of members (`ByteCounts`, `PlaceCounts`, `OrderOfElementsCounts`, `MemberOrderIsIgnored`);
- the map-backed object holds what the linear one holds after any run (`RunBoth`), and with unique names both find
  the same member;
- a JSON Pointer text is accepted exactly when RFC 6901 says so, and survives both printed forms
  (`StringFormIsRfc6901`, `ParsedSurvives`), and a fragment exactly when it is one by section 6 of RFC 6901 and
  spelled in the narrower way the code asks for (`FragmentIsRfc6901`, `FragmentForm`); `Get` finds what section 4 of
  RFC 6901 leads to (`GetIsEvaluation`), and `Create` and `Erase` change that place and nothing else
  (`ExistIffResolved`, `CreatedResolves`, `CreateKeeps`, `CreatedOnTheWay`, `ErasedInParent`);
- the watchdog loop ends, deletes every agent once, checks each until its first refusal, and goes round the list in
  order (`MainLoop`, `EveryAgentIsDeletedOnce`, `CheckedUntilItFails`, `RoundRobin`).

Where the code departs from its documentation or from what a reader may expect, the model follows the code:

- the comment at `src/lib/rapidjson/document.h:1021` says that objects with repeated names never compare equal. An
  object whose member values have unique names equals something, and then also itself, exactly when its members of
  one name agree (`EqualsSomethingIffNamesakesAgree`, with `RepeatedNamesMayAgree` as an instance). With names repeated
  below that level it may equal something else only (`EqualToAnotherOnly`); any set of values has a common equal
  exactly when they are compatible (`EqualSomethingIffCompatible`). The comparison is transitive always
  (`SameIsTransitive`), and goes both ways exactly when the right value equals itself and has no other names at any
  depth (`SymmetricIffNamesFound`; `SymmetricIffNamesakesAgree` says it for one level, with
  `RepeatedNamesBreakSymmetry` as an instance where it does not);
- `src/lib/rapidjson/pointer.h:90-92` says that a number out of range is only a name; the overflow test misses some
  of them (`OverflowMissed`), and `IndexAsDocumented` gives the exact condition under which the index is the
  documented one, which is when a document is always evaluated as section 4 of RFC 6901 says
  (`EvaluationIffDocumented`);
- to the table-driven parser a text that begins with a comma, colon or closing bracket is an empty document, and to the
  token driver one of white space alone is an invalid value; all other errors of the three ways to parse are the same,
  up to one byte in the offset of a bracket that the handler refused (`ParsersAgree`, `TokenParserAgrees`);
- a percent-encoded solidus in a URI fragment becomes part of a name, while section 6 of RFC 6901 decodes first and
  splits afterwards (`EncodedSolidus`); an accepted fragment means what that section says exactly when decoding adds
  no solidus (`FragmentMeaning`);
- a fragment that RFC 6901 and RFC 3986 allow is refused exactly when it starts with an encoded solidus, has a bare
  character that is neither unreserved nor a solidus, or encodes the digit behind a tilde (`FragmentIsRfc6901`);
  "#/a:b" is one (`ColonRefused`);
- a malformed character is taken as long as its first byte announces, even where the string ends before. Printing a
  name as a fragment, and the escaping writer, read past the byte behind the string exactly when behind a well-formed
  stretch stands a byte that announces at least two bytes more than are left (`ReadsStayInside`); well-formed strings
  are never read past their end;
- an empty `items` array in a schema constrains nothing, not even `additionalItems`: an item is judged differently
  from the literal reading exactly when the tuple is empty and the item fails `additionalItems`
  (`EmptyTupleIsIgnored`, with `EmptyTupleLetsThrough` as an instance);
- zero is refused as too big exactly when its exponent is positive and above 308 plus the number of its fraction
  digits (`ZeroRefused`); `0e309` is such a number (`ZeroWithLargeExponent`), and zero is the only one refused without
  being too big (`GuardRefusesOnlyZeroAndHuge`);
- a container with 2^32 or more items wraps its 32-bit count and leaves values behind on the document stack, so that
  the single-root assertion fires; a successful parse leaves one value exactly when there is no such container
  (`SingleRoot`, `NoExcessIffCountable`), and an array of 2^32 nulls is one (`SingleRootMayFail`). Texts shorter than
  2^32 bytes hold none.

## Model

| member | source | states |
|---|---|---|
| Encodings.EncodeIsWellFormed | src/lib/rapidjson/encodings.h:102-121 | UTF-8 `Encode` writes a character of RFC 3629 exactly for the scalar values, and something else for surrogates |
| Encodings.EncodeDenotes | src/lib/rapidjson/encodings.h:102-121 | it is the one character of RFC 3629 whose lead and tail bits, weighted as section 3 has it, add up to the code point |
| Encodings.DecodeInvertsEncode | src/lib/rapidjson/encodings.h:146-176 | `Decode` reads back every scalar value that `Encode` wrote, wherever it stands, and stops right behind it |
| Encodings.DecodeAcceptsWellFormed | src/lib/rapidjson/encodings.h:146-176 | `Decode` succeeds at a position if and only if a UTF8-char of section 4 of RFC 3629 stands there: no overlong form, no surrogate, nothing truncated |
| Encodings.DecodedIsEncoding | src/lib/rapidjson/encodings.h:146-176 | what `Decode` accepted is the encoding of the code point it returns, which is a scalar value |
| Encodings.ValidateAgreesWithDecode | src/lib/rapidjson/encodings.h:179-202 | `Validate` gives the verdict of `Decode`, consumes as much, and has copied exactly the bytes it consumed |
| Encodings.ReadsAnnounced | src/lib/rapidjson/encodings.h:146-202 | both take as many bytes as the first one announces, whether they continue it or not |
| Encodings.ReadsStayInside | src/lib/rapidjson/encodings.h:146-202 | a loop of such reads that ends at the first malformed character goes past the byte behind the text if and only if behind some well-formed stretch stands a byte that announces at least two bytes more than are left; a well-formed text is read to its end and no further |
| Encodings.Decode16InvertsEncode16 | src/lib/rapidjson/encodings.h:276-322 | UTF-16 `Decode` reads back every scalar value, in one unit or as a surrogate pair |
| Encodings.Encode16Denotes | src/lib/rapidjson/encodings.h:276-290 | `Encode` writes the unit or surrogate pair that stands for the code point by section 2.1 of RFC 2781, high ten bits first, and nothing else stands for one |
| Encodings.Decode16Denotes | src/lib/rapidjson/encodings.h:307-322 | `Decode` succeeds if and only if such a unit or pair stands there, with the number it stands for |
| Encodings.WellFormedTranscodes | src/lib/rapidjson/encodings.h:657-664 | transcoding a string to UTF-16 succeeds if and only if the string is well-formed UTF-8 |
| Encodings.TranscodingRoundTrip | src/lib/rapidjson/encodings.h:657-676 | UTF-8 to UTF-16 to UTF-8 is the identity on every well-formed string |
| Strings.BodySound | src/lib/rapidjson/reader.h:991-1068 | whatever the string scan accepts is a sequence of pieces of section 7 of RFC 8259 (plain bytes, short escapes, `\u` escapes, surrogate pairs) closed by a quote, decoded to their value; the grammar has its own table of short escapes |
| Strings.BodyComplete | src/lib/rapidjson/reader.h:991-1068 | every sequence of legal pieces closed by a quote is accepted with that value, and the scan stops behind the quote |
| Strings.EscapeTable | src/lib/rapidjson/reader.h:994-999 | the table of the reader is that of section 7 of RFC 8259: eight letters, each with its character, and no other |
| Strings.QuadDenoted | src/lib/rapidjson/reader.h:906-926 | four bytes are taken for a number if and only if they are its hexadecimal digits, the highest first, each in either case |
| Strings.ShortEscape | src/lib/rapidjson/reader.h:1014-1018 | behind a backslash each of the eight letters gives its character, and every other byte but "u" is refused |
| Strings.NumericEscape | src/lib/rapidjson/reader.h:1023-1045 | "\u" and the digits of a scalar value give its UTF-8 encoding |
| Strings.PairedEscape | src/lib/rapidjson/reader.h:1026-1045 | two such escapes of a high and a low surrogate give the encoding of the code point of the pair |
| Strings.RefusedEscape | src/lib/rapidjson/reader.h:1023-1048 | every other "\u" is refused at its backslash |
| Strings.EscapedSolidus | src/lib/rapidjson/reader.h:994-999 | "\/" is read as a solidus |
| Strings.EscapesPrinted | src/lib/rapidjson/writer.h:377-392 | the writer escapes the quotation mark, the reverse solidus and the control characters, those with a letter by that letter and the others by four upper-case digits, and copies every other byte |
| Strings.QuadPrinted | src/lib/rapidjson/writer.h:407-430 | numeric escapes have four upper-case digits, the highest first |
| Strings.LiteralReadsBack | src/lib/rapidjson/writer.h:377-449 | the literal `WriteString` prints for any byte string, NUL and invalid UTF-8 included, is read back as that string |
| Strings.AsciiReadsBack | src/lib/rapidjson/writer.h:400-430 | the numeric escapes and surrogate pairs printed for an ASCII target are undone by the reader |
| Strings.AsciiAcceptsWellFormed | src/lib/rapidjson/writer.h:403-404 | printing for an ASCII target gives up if and only if the string is not well-formed UTF-8 |
| Numbers.ScanNumeralSound | src/lib/rapidjson/reader.h:1468-1700 | an accepted number token is exactly the text of the numeral it is taken apart into |
| Numbers.ScanNumeralComplete | src/lib/rapidjson/reader.h:1468-1700 | every legal numeral that is not followed by something that continues it is accepted whole |
| NumberArithmetic.ShortTokenNeverOverflows | src/lib/rapidjson/reader.h:1497-1678 | for tokens shorter than 200 million bytes no `int` operation on `significandDigit`, `expFrac`, `exp`, `maxExp` or `exp + expFrac` overflows |
| NumberArithmetic.ShortFractionNeverOverflows | src/lib/rapidjson/reader.h:1497-1678 | the same for every token whose fraction has at most 214748055 digits, whatever its other parts |
| NumberArithmetic.FractionBoundIsExact | src/lib/rapidjson/reader.h:1632-1678 | that bound is the exact one: for every larger number of fraction digits some legal token overflows |
| NumberArithmetic.ExactlyTheNumberWritten | src/lib/rapidjson/reader.h:1591-1711 | when no digit was cut off, the pair of 64-bit significand and total exponent denotes exactly the rational number written |
| NumberArithmetic.FractionTruncates | src/lib/rapidjson/reader.h:1591-1626 | when digits are cut off, the exact integer of the digits kept is the written number rounded down to them; beyond 53 bits the code holds that integer rounded to a double |
| NumberArithmetic.DigitsKept | src/lib/rapidjson/reader.h:1591-1626 | digits are cut off only behind exactly 17 significant ones when the integer part is zero and 18 when it is not; an integer part as long as that keeps no fraction digit |
| NumberArithmetic.FastStopsAt53Bits | src/lib/rapidjson/reader.h:1597-1606 | the fast loop takes fraction digits exactly as long as the significand is below 2^53 |
| NumberArithmetic.MaxNegativeIsExact | src/lib/rapidjson/reader.h:1645-1653 | `maxExp` is the largest exponent to which one more digit can be added without underflow of `exp + expFrac` |
| NumberArithmetic.NegativeExponentTaken | src/lib/rapidjson/reader.h:1642-1662 | a negative exponent is that of all its digits, or of the shortest run of at least two that passes `maxExp` |
| NumberArithmetic.ZeroRefused | src/lib/rapidjson/reader.h:1666-1673 | a written zero is refused whatever the conversion says if and only if its exponent is positive and above 308 plus its number of fraction digits |
| NumberArithmetic.GuardRefusesOnlyZeroAndHuge | src/lib/rapidjson/reader.h:1664-1673 | what the exponent guard refuses is a written zero or denotes at least 10^309 |
| NumberArithmetic.ZeroWithLargeExponent | src/lib/rapidjson/reader.h:1666-1673 | 0e309 is a legal numeral, denotes 0, and is refused |
| NumberMeaning.EventReports | src/lib/rapidjson/reader.h:1700-1746 | the event for a numeral has its signed value, by the handler of its sign and the narrowest width that holds it, or is a double that carries its whole text, sign included |
| NumberMeaning.NumberReported | src/lib/rapidjson/reader.h:1468-1746 | what the scan of a number token reports is the numeral that stands there, from its sign to its last digit |
| NumberMeaning.NumbersAsWritten | src/lib/rapidjson/reader.h:559-591 | the number events of an accepted text are its numerals, one for one and in order |
| NumberMeaning.TreeStored | src/lib/rapidjson/document.h:2804-2844 | and so are the numbers that the document stores for it |
| NumberMeaning.NegativeFraction | src/lib/rapidjson/reader.h:1724 | "-1.5" is sent with its sign and denotes one and a half below zero |
| Simulation.ParsersAgree | src/lib/rapidjson/reader.h:2161-2222 | for every text, flag setting and handler, the table-driven parse and the recursive one both fail or both succeed, with the same events, counts and end position; they report the same error at the same offset, up to one byte for a bracket the handler refused, unless the text begins with a comma, colon or closing bracket, which is an empty document to one and an invalid value to the other |
| Simulation.TokenParserAgrees | src/lib/rapidjson/reader.h:620-672 | so does driving the automaton token by token until it is complete; its error is that of the table-driven parse, except that white space alone is an invalid value and not an empty document |
| Simulation.OneEventPerCall | src/lib/rapidjson/reader.h:614-672 | every call of the token-by-token driver that succeeds sends exactly one event, and one that fails at most one |
| IterativeParser.NextAtEnd | src/lib/rapidjson/reader.h:660-671 | a call at the end of the text succeeds exactly on a complete one and clears the stack |
| GrammarAccepted.ValueSound | src/lib/rapidjson/reader.h:1750-1764 | an accepted value is the text of a legal tree, and the events sent are those of the tree, counts included |
| GrammarAccepted.ValueComplete | src/lib/rapidjson/reader.h:1750-1764 | the text of every legal tree is accepted where it stands, with the events of the tree |
| Language.EveryTreeAccepted | src/lib/rapidjson/reader.h:559-591 | white space around a legal tree (anything behind it, with stop-when-done) is accepted, with the events of the tree |
| Language.EveryAcceptedIsTree | src/lib/rapidjson/reader.h:559-591 | nothing else is: an accepted NUL-free text is such a text |
| Language.DriversRecogniseTheGrammar | src/lib/rapidjson/reader.h:559-672 | each of the three ways to parse succeeds if and only if the text is in the language of the grammar, and all send the same events |
| Grammar.Characters | src/lib/rapidjson/reader.h:266-274 | white space, digits, literals and structural bytes of the grammar are the characters of RFC 8259 |
| ParseErrors.ErrorsExplained | src/lib/rapidjson/reader.h:559-591 | every error of a parse is explained: there was only white space; a JSON text was followed by something; the handler refused the last event, whose token is at the offset; or the text up to some place, with any white space, whatever is due there and the brackets still open, is a JSON text, the code names what is due, and the bytes from there to the offset are not that |
| ParseErrors.HandlerAsked | src/lib/rapidjson/reader.h:740-853 | every event is put to the handler, and the parse stops at the first one it refuses and not before |
| ParseErrors.ValueBreaks | src/lib/rapidjson/reader.h:740-853 | the same for a value at any place, through arrays and objects |
| ParseErrors.BodyBreaks | src/lib/rapidjson/reader.h:1011-1068 | a refused string is legal up to the offset of the error, where stands the end of the text, a control character, a letter that is no escape, or a "\u" without its digits or without the other half of its pair, as the code says |
| ParseErrors.NumeralBreaks | src/lib/rapidjson/reader.h:1534-1674 | a number refused for its form is a minus sign, a numeral with a decimal point, or one with an "e" and a sign, and no digit comes next |
| Reader.GenericReader.SkipWhitespace | src/lib/rapidjson/reader.h:266-274 | the loop moves over white space only and stops at the first other byte |
| Reader.GenericReader.ParseHex4 | src/lib/rapidjson/reader.h:906-926 | four hexadecimal digits of either case give their value; otherwise the error carries the offset of the escape |
| Reader.GenericReader.ParseEscape | src/lib/rapidjson/reader.h:1014-1048 | one escape, surrogate pairs included, decoded or refused as the scan function says |
| Reader.GenericReader.ParseStringToStream | src/lib/rapidjson/reader.h:991-1068 | the loop over a string decodes and fails exactly as the scan that `BodySound` and `BodyComplete` characterise |
| Reader.GenericReader.ParseLiteral | src/lib/rapidjson/reader.h:856-893 | `null`, `true` and `false`, byte by byte, with the error offset where they break off |
| Reader.GenericReader.TakeDigits | src/lib/rapidjson/reader.h:1493-1562 | each of the four digit loops keeps the exact value of the digits taken, never above the largest value of its 32-bit or 64-bit word, and stops early exactly when the next digit would pass it |
| Reader.GenericReader.ParseInt | src/lib/rapidjson/reader.h:1482-1573 | digit runs of any length: the result is the exact value while it fits 64 bits, and the switches to 64 bits and to double happen exactly when the value leaves the 32-bit and the 64-bit range of its sign |
| Reader.GenericReader.ParseFrac | src/lib/rapidjson/reader.h:1583-1629 | the fraction loops end with the fraction shift the specification computes |
| Reader.GenericReader.ParseExp | src/lib/rapidjson/reader.h:1630-1678 | the exponent, capped when negative and refused when positive and above 308 minus the fraction shift |
| Reader.GenericReader.ParseNumeral | src/lib/rapidjson/reader.h:1468-1678 | a whole number token: integer exactly when it has no fraction or exponent and fits, and then the exact magnitude |
| Reader.GenericReader.ParseNumber | src/lib/rapidjson/reader.h:1468-1746 | a number without fraction or exponent is sent as the exact integer, by `Uint` or `Uint64` when it has no minus sign and by `Int` or `Int64` when it has, the narrow one exactly when it fits; by `Double` only outside those ranges |
| Reader.GenericReader.ParseString | src/lib/rapidjson/reader.h:959-986 | a string or a key is sent with its decoded bytes, or the parse stops at its error |
| Reader.GenericReader.ParseArray | src/lib/rapidjson/reader.h:808-853 | the array loop reaches the position, events, count and error of the recursive specification |
| Reader.GenericReader.ParseObject | src/lib/rapidjson/reader.h:740-805 | the object loop does too |
| Reader.GenericReader.ParseValue | src/lib/rapidjson/reader.h:1750-1764 | so does the dispatch on the first byte |
| Reader.GenericReader.Parse | src/lib/rapidjson/reader.h:559-591 | so does the whole recursive parse, and it leaves the stack empty |
| Reader.GenericReader.Open | src/lib/rapidjson/reader.h:2016-2041 | opening a container pushes the state to resume and a zero count, and sends the start event |
| Reader.GenericReader.Close | src/lib/rapidjson/reader.h:2078-2136 | closing a container pops its count, sends it, and resumes the saved state |
| Reader.GenericReader.Transit | src/lib/rapidjson/reader.h:2009-2159 | one transition of the automaton on the state and count stack equals the specified one; on failure it keeps the first error |
| Reader.GenericReader.HandleError | src/lib/rapidjson/reader.h:2161-2178 | a failed transition always ends with an error, and never replaces an earlier one |
| Reader.GenericReader.IterativeParse | src/lib/rapidjson/reader.h:2190-2222 | the table-driven loop refines the specified run |
| Reader.GenericReader.IterativeParseNext | src/lib/rapidjson/reader.h:620-672 | one call of the token-by-token driver, delimiters skipped, refines the specified call |
| Values.ConstructorsAgree | src/lib/rapidjson/document.h:792-828 | all four integer constructors store the same word and the same flags for the same integer, each flag set if and only if its range holds the integer |
| Values.EventStored | src/lib/rapidjson/document.h:2806-2809 | whichever event reports an integer, it is stored in that one form |
| Values.NumberReplays | src/lib/rapidjson/document.h:1962-1969 | `Accept` reports a stored integer by an event with its value, the first of int, unsigned, 64-bit and unsigned 64-bit that holds it, and storing that event gives the same number back |
| Documents.ReplayBuilds | src/lib/rapidjson/document.h:2606-2613 | the events of `Accept`, handled by a document, push exactly the value they came from |
| Documents.TreeBuilds | src/lib/rapidjson/document.h:2804-2844 | the events of a legal tree push its value, plus one value for every element lost to the 32-bit count |
| Documents.ShortTextHasNoExcess | src/lib/rapidjson/document.h:2832-2844 | nothing is lost in a tree whose text is shorter than 2^32 bytes |
| Documents.SingleRoot | src/lib/rapidjson/document.h:2626-2637 | a successful parse leaves one value and what wrapped counts lost; it leaves exactly one, the value of the tree, if and only if every container has fewer than 2^32 items, as in every text shorter than that |
| Documents.NoExcessIffCountable | src/lib/rapidjson/document.h:2832-2844 | values are lost if and only if some container, at any depth, has 2^32 or more items |
| Documents.NullsParsed | src/lib/rapidjson/document.h:2626-2637 | an array of n nulls, for every n, is parsed and leaves one value and the items its 32-bit count lost |
| Documents.SingleRootMayFail | src/lib/rapidjson/document.h:2626-2637 | for n = 2^32 the parse succeeds and leaves 2^32 values too many, so the single-root assertion fires |
| Documents.GenericDocument.EndObject | src/lib/rapidjson/document.h:2832-2836 | the names and values above the placeholder become its members, in order |
| Documents.GenericDocument.EndArray | src/lib/rapidjson/document.h:2840-2844 | the values above the placeholder become its elements, in order |
| Documents.GenericDocument.ParseStream | src/lib/rapidjson/document.h:2626-2637 | the root becomes the value of the parsed tree, the single-root guard fails if and only if counts wrapped, an error leaves the root alone, and the stack is cleared |
| Documents.GenericDocument.Populate | src/lib/rapidjson/document.h:2606-2613 | populating a document from a value clones the value |
| Writers.WriteString | src/lib/rapidjson/writer.h:377-449 | the escaped literal is appended and stays within the room that was reserved without further checks |
| Writers.WriteAsciiString | src/lib/rapidjson/writer.h:393-449 | the numeric escapes are appended, failure exactly on malformed UTF-8, never beyond the reserved twelve bytes for each byte of the string; the source is read exactly as far as `ReadsStayInside` speaks of |
| Writers.Writer.Prefix | src/lib/rapidjson/writer.h:473-491 | the delimiter a call needs at its place, the count of its level, and the root flag |
| Writers.Writer.Leaf | src/lib/rapidjson/writer.h:182-208 | a scalar or a name is appended behind its delimiter |
| Writers.Writer.StartObject | src/lib/rapidjson/writer.h:216-220 | a brace behind its delimiter, and a new level |
| Writers.Writer.EndObject | src/lib/rapidjson/writer.h:231-238 | a brace, and the level is left |
| Writers.Writer.StartArray | src/lib/rapidjson/writer.h:240-244 | a bracket behind its delimiter, and a new level |
| Writers.Writer.EndArray | src/lib/rapidjson/writer.h:246-252 | a bracket, and the level is left |
| Writers.Writer.IsComplete | src/lib/rapidjson/writer.h:144-146 | the object reports complete exactly when the sheet that `OutputIsPrefixOfText` speaks of is |
| Writers.PrettyWriter.WriteIndent | src/lib/rapidjson/prettywriter.h:252-255 | as many indentation bytes as the depth asks for |
| Writers.PrettyWriter.PrettyPrefix | src/lib/rapidjson/prettywriter.h:208-250 | delimiter, line break and indentation for every call and indent setting, and the level count |
| Writers.PrettyWriter.EndObject | src/lib/rapidjson/prettywriter.h:137-155 | a non-empty object closes on its own line |
| Writers.PrettyWriter.EndArray | src/lib/rapidjson/prettywriter.h:163-179 | a non-empty array does unless arrays are kept on one line |
| Printing.IntegerReadsBack | src/lib/rapidjson/writer.h:313-347 | a printed integer is a legal numeral that is read as an integer event of the same value, over the whole signed and unsigned 64-bit range |
| Printing.FormatLegal | src/lib/rapidjson/prettywriter.h:208-250 | every double-free value has a legal JSON text in every format |
| Printing.ItemAdded | src/lib/rapidjson/prettywriter.h:208-250 | what a call prints between two items extends the text of the open container to the text with the item in it |
| Printing.FrameCloses | src/lib/rapidjson/prettywriter.h:137-179 | what closing prints completes an open container to the text of the closed value |
| WriterRuns.CallShows | src/lib/rapidjson/writer.h:182-252 | every call that fits the partly written value passes the guards and leaves the output showing the value with the call applied |
| WriterRuns.RunShows | src/lib/rapidjson/writer.h:182-252 | a run of calls passes all guards if and only if it follows the structure of JSON values, and the output always shows how far it got |
| WriterRuns.CanFinish | src/lib/rapidjson/writer.h:182-252 | from every reachable unfinished state some further calls complete a value, adding to the output |
| WriterRuns.OutputIsPrefixOfText | src/lib/rapidjson/writer.h:144-146 | after any guarded run the output is a prefix of a JSON text, and `IsComplete` holds if and only if it is one |
| RoundTrip.WritingPrints | src/lib/rapidjson/document.h:1933-1970 | `Accept` into either writer passes every guard and prints the format of the value |
| RoundTrip.TreeDenotes | src/lib/rapidjson/document.h:2804-2844 | that text denotes the value: same tree, member order, number flags and string bytes |
| RoundTrip.WriteThenRead | src/lib/rapidjson/document.h:1933-1970 | reading what either writer printed, with any of the three parsers, builds exactly the value again |
| RoundTrip.CompleteRunReadsBack | src/lib/rapidjson/writer.h:183-246 | the writer is complete exactly when the calls have written a whole value, the same for every style; its output is accepted by all three parsers with the same events, and builds that value if and only if no container has 2^32 or more items |
| RoundTrip.TapeIsOutput | src/lib/rapidjson/prettywriter.h:95-179 | the output of a run is its tokens and gaps in order |
| RoundTrip.WritersPrintTheSameTokens | src/lib/rapidjson/prettywriter.h:95-255 | for every sequence of calls both writers accept alike and print the same tokens; the gaps of the indenting one are JSON white space and the compact one has none |
| Layout.TapeLaidOut | src/lib/rapidjson/prettywriter.h:95-255 | for every guarded run the gaps of the indenting writer are the ones its tokens determine: a new line and the indentation of all brackets open there before every name, element and closing bracket of a container that is not empty (a closing bracket counts as closed), one space behind a colon, and for arrays on one line one space behind a comma |
| Layout.OutputLaidOut | src/lib/rapidjson/prettywriter.h:95-255 | so its output is determined by its tokens and the style |
| Accepting.Accept | src/lib/rapidjson/document.h:1933-1970 | the recursive walk over a value, calling a writer object, leaves it showing the value at its place |
| Accepting.TreeHasNoNul | src/lib/rapidjson/reader.h:559-591 | no legal JSON text contains the byte that ends the stream |
| Accepting.WriteAndRead | src/lib/rapidjson/document.h:2626-2637 | writing a value with a writer object and parsing the text into a document object makes its root that value |
| Schemas.PropertySchemaDecides | src/lib/rapidjson/schema.h:929-978 | the schema chosen for a name (declared, additional, none) decides what the recursive meaning asks of the member |
| Schemas.ItemSchemaDecides | src/lib/rapidjson/schema.h:704-733 | the schema chosen for a position (list, tuple, additional, none) decides what the recursive meaning asks of the item |
| Schemas.EmptyTupleIsIgnored | src/lib/rapidjson/schema.h:621-631 | an item is judged differently from section 5.3.1 read literally if and only if the tuple is empty and the item fails `additionalItems` |
| Schemas.EmptyTupleLetsThrough | src/lib/rapidjson/schema.h:621-631 | with an empty tuple and additional items forbidden every item passes, and none would by the literal reading |
| SchemaValidation.ValueValidated | src/lib/rapidjson/schema.h:2365-2439 | running a value through the validator, at any depth of its stack, returns to the stack below it and stays valid if and only if the value meets the schema |
| SchemaValidation.OnePassDecides | src/lib/rapidjson/schema.h:2201-2273 | for every well-formed schema and document the single pass ends valid if and only if the recursive meaning holds, and then the stack is empty again |
| SchemaValidators.GenericSchemaValidator.BeginValue | src/lib/rapidjson/schema.h:2365-2394 | the schema of the next value is pushed, or the item is disallowed |
| SchemaValidators.GenericSchemaValidator.Parallel | src/lib/rapidjson/schema.h:2208-2218 | the event reaches every sub-validator of every context on the stack |
| SchemaValidators.GenericSchemaValidator.EndValue | src/lib/rapidjson/schema.h:735-820 | the verdicts are combined by all, some, exactly one and none of, and the context is popped |
| SchemaValidators.GenericSchemaValidator.Begin | src/lib/rapidjson/schema.h:2201-2227 | a scalar or an opening event has the specified effect on stack and verdict |
| SchemaValidators.GenericSchemaValidator.Key | src/lib/rapidjson/schema.h:2247-2253 | so does a name |
| SchemaValidators.GenericSchemaValidator.End | src/lib/rapidjson/schema.h:2255-2272 | so does a closing event, with the size limits |
| SchemaValidators.Accept | src/lib/rapidjson/document.h:1933-1970 | the walk over a value feeds the validator object all its events |
| SchemaValidators.Validate | src/lib/rapidjson/schema.h:2201-2273 | the verdict of the validator object on any document is the recursive meaning of the schema |
| Equality.FindMember | src/lib/rapidjson/document.h:2267-2273 | the first member of that name, or the end |
| Equality.Equals | src/lib/rapidjson/document.h:1025-1064 | the comparison loops decide the recursive comparison |
| Equality.SameMeansEqual | src/lib/rapidjson/document.h:1025-1064 | with unique names, two values compare equal if and only if they mean the same: objects as maps from names, numbers as 64-bit words |
| Equality.SameIsEquivalence | src/lib/rapidjson/document.h:1025-1064 | with unique names on all sides the comparison is reflexive, symmetric and transitive |
| Equality.ShuffledMeansSame | src/lib/rapidjson/document.h:1025-1064 | reordering the members of objects at any depth does not change it |
| Equality.SameIsTransitive | src/lib/rapidjson/document.h:1025-1064 | the comparison is transitive on all values, repeated names or not |
| Equality.SameKeepsUnique | src/lib/rapidjson/document.h:1025-1038 | a value that compares equal to one with unique names on its left has unique names itself: equal sizes make every right member a looked-up one |
| Equality.AgreePairwise | src/lib/rapidjson/document.h:1025-1038 | members of one name equal the first of them if and only if any two of them are equal |
| Equality.EqualsSomethingIffNamesakesAgree | src/lib/rapidjson/document.h:1021-1038 | for an object whose member values have unique names: some object on the right compares equal to it, and then it also equals itself, if and only if its members of one name have equal values |
| Equality.SymmetricIffNamesakesAgree | src/lib/rapidjson/document.h:1021-1038 | when the comparison holds from left to right, it holds from right to left if and only if the right object has no name the left one lacks and its members of one name agree with the first |
| Equality.RepeatedNamesMayAgree | src/lib/rapidjson/document.h:1021-1038 | an object with a repeated name that equals itself |
| Equality.RepeatedNamesBreakSymmetry | src/lib/rapidjson/document.h:1021-1038 | two objects for which it holds in one direction and fails in the other, as the condition above predicts |
| RepeatedNames.SymmetricIffNamesFound | src/lib/rapidjson/document.h:1021-1064 | for any two values, whatever names they repeat at whatever depth: what holds from left to right holds from right to left if and only if the right value equals itself and, level by level, has only names that are found on the left |
| RepeatedNames.EqualSomethingIffCompatible | src/lib/rapidjson/document.h:1021-1064 | some value is equal to all values of a set if and only if they are alike, so are all values at one place of their arrays and all values under one name of their objects, recursively, and no object is smaller than the number of names; for one value this is when it equals anything |
| RepeatedNames.DepthOf | src/lib/rapidjson/document.h:1025-1064 | every value has a depth, so the condition above is defined for it |
| RepeatedNames.EqualToAnotherOnly | src/lib/rapidjson/document.h:1021-1038 | an object with repeated names on two levels that equals another one and not itself |
| Hashing.OneCodePerValue | src/lib/rapidjson/schema.h:252-295 | hashing the events of any value leaves exactly one code above what was on the stack |
| Hashing.IntegerKindIsIgnored | src/lib/rapidjson/schema.h:254-257 | if the casts to double agree on common integers, the codes do not depend on which of the four integer handlers reported a number: sign and zero extension fill the union word alike |
| Hashing.KindIgnoredIffCastsAgree | src/lib/rapidjson/schema.h:254-257 | the bytes hashed for a number are independent of the handler if and only if the four casts to double agree |
| Hashing.MemberOrderIsIgnored | src/lib/rapidjson/schema.h:278-285 | permuting object members at any depth leaves the code unchanged |
| Hashing.Hasher.WriteBuffer | src/lib/rapidjson/schema.h:318-326 | the byte loop pushes the hash of the type and the bytes |
| Hashing.Hasher.EndObject | src/lib/rapidjson/schema.h:278-285 | the codes of the members are replaced by their combination |
| Hashing.Hasher.EndArray | src/lib/rapidjson/schema.h:288-295 | the codes of the elements are replaced by their combination, in order |
| Fnv.HashCancels | src/lib/rapidjson/schema.h:328-333 | one round of the hash, exclusive or and multiplication modulo 2^64, is one-to-one in either argument |
| Fnv.OrderMatters | src/lib/rapidjson/schema.h:328-333 | two rounds with different words that differ in their lowest byte only depend on their order |
| HashCodes.ByteCounts | src/lib/rapidjson/schema.h:318-326 | replacing one byte of a buffer by another one always changes its code |
| HashCodes.ByteOrderCounts | src/lib/rapidjson/schema.h:318-326 | exchanging two different neighbouring bytes always changes it |
| HashCodes.KindCounts | src/lib/rapidjson/schema.h:314-326 | the same bytes under another type have another code |
| HashCodes.LeavesDiffer | src/lib/rapidjson/schema.h:252-254 | null, false, true and the empty string have four different codes |
| HashCodes.KnownCodes | src/lib/rapidjson/schema.h:252-333 | the codes of null, false, true, "", {} and [] are the numbers that FNV-1a gives for their types |
| HashCodes.IntegerCounts | src/lib/rapidjson/schema.h:254-257 | integers with different 64-bit words are hashed from different bytes, whatever the casts to double give |
| HashCodes.ElementCounts | src/lib/rapidjson/schema.h:288-295 | an array code changes exactly when the code of an element does |
| HashCodes.ElementOrderCounts | src/lib/rapidjson/schema.h:288-295 | exchanging two neighbouring elements whose codes differ in their lowest byte only changes the code of the array |
| HashCodes.OrderOfElementsCounts | src/lib/rapidjson/schema.h:288-295 | [null, false] and [false, null] have different codes |
| HashCodes.MemberCounts | src/lib/rapidjson/schema.h:278-285 | an object code changes exactly when the code of a member does |
| HashCodes.NameCounts | src/lib/rapidjson/schema.h:278-285 | renaming a member changes the code of the object exactly when the code of the name changes |
| HashCodes.PlaceCounts | src/lib/rapidjson/schema.h:252-295 | replacing the value at any place of a document changes its code exactly when the codes of the two values differ |
| MemberMaps.LessIsTotal | src/lib/rapidjson/document.h:2108-2114 | the order of the name index is total: names are neither less nor greater exactly when they are equal, bytes and length |
| MemberMaps.LessIsTransitive | src/lib/rapidjson/document.h:2108-2114 | and transitive, as a multimap asks of its comparison |
| MemberMaps.LessIsLexicographic | src/lib/rapidjson/document.h:2108-2114 | it is the lexicographic order of the bytes: the first difference decides, and else the shorter name comes first |
| MemberMaps.RemovedMembers | src/lib/rapidjson/document.h:2305-2327 | removing by exchange with the last keeps every other member |
| MemberMaps.RemovedAt | src/lib/rapidjson/document.h:2305-2327 | all others stay at their places but the last, which fills the hole |
| MemberMaps.ErasedAt | src/lib/rapidjson/document.h:2329-2361 | erasing a range keeps the members before it and moves those behind it down by its length |
| MemberMaps.LinearObject.RemoveMember | src/lib/rapidjson/document.h:2305-2327 | the last member takes the place of the removed one |
| MemberMaps.LinearObject.EraseMembers | src/lib/rapidjson/document.h:2329-2361 | the range goes and the order of the rest stays |
| MemberMaps.LinearObject.Find | src/lib/rapidjson/document.h:2267-2273 | the first member of that name, or the end |
| MemberMaps.MapObject.AddMember | src/lib/rapidjson/document.h:2289-2303 | the member is appended, and the index still holds exactly one entry (name, position) for each member, reached by its iterator |
| MemberMaps.MapObject.RemoveMember | src/lib/rapidjson/document.h:2305-2327 | the last member takes the place of the removed one, and the index again holds exactly one entry for each member, the moved one included |
| MemberMaps.MapObject.EraseMembers | src/lib/rapidjson/document.h:2329-2361 | the range goes, the order of the rest stays, and the entries behind the range are renumbered so that the index again holds exactly one entry for each member |
| MemberMaps.MapObject.Clear | src/lib/rapidjson/document.h:2225-2235 | every entry is erased through its iterator and the index is empty |
| MemberMaps.MapObject.Find | src/lib/rapidjson/document.h:2214-2223 | found through the order, a member of that name if there is one; with unique names, the one the linear form finds |
| MemberMaps.RunBoth | src/lib/rapidjson/document.h:2289-2361 | over every run of operations both forms hold the members that the operations define, up to the first failing guard |
| PoolAllocators.SharedData.constructor | src/lib/rapidjson/allocators.h:169-188 | a new pool has one chunk, no block, and a reference count of one |
| PoolAllocators.SharedData.AddChunk | src/lib/rapidjson/allocators.h:389-401 | a new empty head chunk of that capacity where the base allocator offered it, in front of the others, or nothing changes |
| PoolAllocators.SharedData.Malloc | src/lib/rapidjson/allocators.h:320-333 | a new block, aligned, inside a chunk and apart from every live block: at the mark of the head, which moves behind it, if there is room, and else at the start of a new chunk; no other mark moves; null exactly for size zero or when the base allocator has nothing and the head no room |
| PoolAllocators.SharedData.RoomIff | src/lib/rapidjson/allocators.h:325-326 | there is room exactly for a block that ends inside the head; a new chunk has the usual capacity or the size of the block, whichever is larger |
| PoolAllocators.HeaderSizes | src/lib/rapidjson/allocators.h:132-147 | headers and shared data take their words in aligned units |
| PoolAllocators.SharedData.LastIsInHead | src/lib/rapidjson/allocators.h:352 | the pointer test for growth in place matches no block of an older chunk, only the last block of the head |
| PoolAllocators.SharedData.Realloc | src/lib/rapidjson/allocators.h:336-368 | the block stays exactly when it fits already or can grow in place, and then at most the mark of the head moves; otherwise it moves to a block placed as by `Malloc`; its old bytes and all bytes of every other live block are preserved; null exactly for size zero or when it must move and nothing is left; without a block it is `Malloc` |
| PoolAllocators.SharedData.InPlaceIff | src/lib/rapidjson/allocators.h:347-357 | a live block is resized in place exactly when its aligned length is enough, or it ends at the mark and would end inside the head with the new one |
| PoolAllocators.SharedData.Clear | src/lib/rapidjson/allocators.h:276-287 | every chunk but the first is given back once, newest first, and the first is emptied |
| PoolAllocators.MemoryPoolAllocator.OnBuffer | src/lib/rapidjson/allocators.h:200-213 | a pool on a caller's buffer starts at the first aligned address of the buffer and ends at its end |
| PoolAllocators.MemoryPoolAllocator.Copy | src/lib/rapidjson/allocators.h:215-222 | a copy is one more handle, and the reference count stays the number of handles |
| PoolAllocators.MemoryPoolAllocator.Move | src/lib/rapidjson/allocators.h:235-242 | a move takes the place of the other handle, which holds nothing afterwards |
| PoolAllocators.MemoryPoolAllocator.Release | src/lib/rapidjson/allocators.h:258-273 | all but the last handle only count down; the last one gives back each chunk once, and the first only if it is not the caller's |
| PoolAllocators.MemoryPoolAllocator.Destroy | src/lib/rapidjson/allocators.h:258-273 | a pool is released exactly when its last handle goes; until then its blocks live |
| PoolAllocators.MemoryPoolAllocator.Assign | src/lib/rapidjson/allocators.h:223-232 | assignment to any handle, of the same pool, of another one, itself or a moved-from one, keeps all counts right and never releases the assigned pool |
| PointerTrees.ExistIffResolved | src/lib/rapidjson/pointer.h:461-508 | `alreadyExist` is true if and only if `Get` resolved before, and then `Create` changes nothing and returns that value |
| PointerTrees.CreatedResolves | src/lib/rapidjson/pointer.h:461-508 | after `Create`, `Get` resolves to the value it returned if and only if no "-" token met an array on the way |
| PointerTrees.CreatedIsNull | src/lib/rapidjson/pointer.h:461-508 | a value that was not there before is created as null |
| PointerTrees.GrownFillsWithNulls | src/lib/rapidjson/pointer.h:480-499 | an array grows exactly to the index asked for, keeps its elements and is filled with nulls; an object gains one null member at the end |
| PointerTrees.GrownAsDocumented | src/lib/rapidjson/pointer.h:467-500 | one token of `Create`, case by case: "-" appends to an array; a name that is no index makes anything but an object an empty object; an index makes anything but an array or object an empty array; then the child is there, behind as many nulls as it takes |
| PointerTrees.CreatedOnTheWay | src/lib/rapidjson/pointer.h:461-508 | every node on the way to the created value is the node that was there, grown by its token, with the next node on the way as that child and no other change |
| PointerTrees.CreateKeeps | src/lib/rapidjson/pointer.h:461-508 | every value that resolved before, and does not lie below a node whose type was replaced, resolves afterwards at the same place, unchanged unless the new value is at or below it |
| PointerTrees.EraseIffResolved | src/lib/rapidjson/pointer.h:772-810 | `Erase` succeeds if and only if the pointer is not empty and resolves, and then exactly that child is taken out of its parent |
| PointerTrees.ErasedInParent | src/lib/rapidjson/pointer.h:772-810 | where the pointer resolved to the k-th child of a parent, the parent has one child fewer, those before the k-th at their places and those behind it one place down, in objects with their names; every place apart from the parent is unchanged, and the nodes above it keep kind, size and names |
| PointerTrees.ReplaceFrame | src/lib/rapidjson/pointer.h:772-810 | a change at one place leaves every place apart from it alone |
| PointerTrees.ErasedIsGone | src/lib/rapidjson/pointer.h:799-801 | in an object with unique names the erased member no longer resolves |
| PointerOperations.Tree.Get | src/lib/rapidjson/pointer.h:540-568 | the loop finds the place the pointer resolves to, or the index of the first token that does not |
| PointerOperations.Tree.Grow | src/lib/rapidjson/pointer.h:467-500 | one token of `Create`, step by step: retype, push nulls until the index exists, or look the name up and add a null member; the node, place and flag are the specified ones |
| PointerOperations.Tree.Create | src/lib/rapidjson/pointer.h:461-508 | the loop of such steps, changing the tree in place on the way down, builds the specified tree, place and flag |
| PointerOperations.Tree.Erase | src/lib/rapidjson/pointer.h:772-810 | the loop removes the specified child, or leaves the tree as it was |
| Pointers.IndexIsWord | src/lib/rapidjson/pointer.h:961-978 | the index of a numeral is its value modulo 2^32 unless some digit made the 32-bit word smaller; below 2^32 it is the value |
| Pointers.IndexAsDocumented | src/lib/rapidjson/pointer.h:961-978 | the index is the documented one if and only if the numeral fits 32 bits, or the word dropped at some digit, or it ends as the mark for no index |
| Pointers.LateOverflow | src/lib/rapidjson/pointer.h:969-970 | a numeral that first overflows at its last digit, to a word no smaller than before, is given that wrong index |
| Pointers.OverflowMissed | src/lib/rapidjson/pointer.h:969-970 | ten thousand million is such a numeral: it gets index 1410065408 |
| Pointers.IndexOfDecimal | src/lib/rapidjson/pointer.h:297-305 | the digits `Append` prints for an index are parsed back to it, for every 32-bit index |
| PointerEvaluation.NumeralIsArrayIndex | src/lib/rapidjson/pointer.h:943-954 | only an array-index of section 4 of RFC 6901, without a leading zero, is ever taken for an index |
| PointerEvaluation.GetIsEvaluation | src/lib/rapidjson/pointer.h:540-568 | `Get` finds exactly the value that the reference tokens lead to by section 4 of RFC 6901 (member of that name, the first one, or element at that index), if every index is the documented one |
| PointerEvaluation.EvaluationIffDocumented | src/lib/rapidjson/pointer.h:540-568 | a numeral is evaluated so in every document if and only if its index is the documented one |
| PointerEvaluation.UndocumentedFinds | src/lib/rapidjson/pointer.h:540-568 | otherwise an array too short for the number has an element that is found |
| Pointers.ParseUndoesStringify | src/lib/rapidjson/pointer.h:1002-1033 | parsing what was printed gives the tokens back, in the string form and in the fragment form |
| Pointers.StringifySucceeds | src/lib/rapidjson/pointer.h:1002-1033 | the string form always prints; the fragment form if and only if all names are well-formed UTF-8 |
| PointerEvaluation.CharacterPrinted | src/lib/rapidjson/pointer.h:1010-1030 | each character of a name is printed as "~0" or "~1", bare when it is unreserved or the form is the string form, and else as the triplets of all bytes of a well-formed character, with upper-case digits |
| PointerEvaluation.TripletSpells | src/lib/rapidjson/pointer.h:1052-1073 | a triplet is read as the byte whose two digits it has, the high one first, in either case |
| PointerEvaluation.UnreservedStaysBare | src/lib/rapidjson/pointer.h:851-853 | the characters that need no triplet are the unreserved ones of section 2.3 of RFC 3986 |
| Pointers.ParsedSurvives | src/lib/rapidjson/pointer.h:863-993 | every parsed pointer survives the string form, and the fragment form if and only if its names are well-formed UTF-8, which holds when it was parsed from a fragment; "-" is never an index |
| Pointers.TokenIsPrinted | src/lib/rapidjson/pointer.h:1009-1027 | a reference token is how its two-pass evaluation of section 4 of RFC 6901 is printed |
| Pointers.PointerAccepted | src/lib/rapidjson/pointer.h:863-993 | every json-pointer of RFC 6901 is parsed to its evaluated reference tokens |
| Pointers.StringFormIsRfc6901 | src/lib/rapidjson/pointer.h:863-993 | a text without a leading "#" is accepted if and only if it is a json-pointer of section 3 of RFC 6901, with the meaning of section 4, and printing it gives the text back |
| PointerFaults.FaultsExplained | src/lib/rapidjson/pointer.h:863-993 | every refused text is explained: it does not begin with a solidus, or it is a pointer up to some character, and that is a tilde without its digit, a triplet that begins no UTF-8 character, or one that needs a triplet, as code and offset say |
| Fragments.FragmentForm | src/lib/rapidjson/pointer.h:863-993 | a text that starts with "#" is accepted if and only if it is solidi and names spelled from unreserved characters, "~0" and "~1" with a plain or encoded tilde, and percent-encoded UTF-8 characters; the tokens are the values spelled |
| Fragments.FragmentMeaning | src/lib/rapidjson/pointer.h:904-931 | an accepted fragment has the tokens of its percent-decoded pointer, as section 6 of RFC 6901 asks, if and only if decoding adds no solidus |
| Fragments.EncodedSolidus | src/lib/rapidjson/pointer.h:904-931 | "#/%2F" is one token named "/" where the decoded pointer has two |
| FragmentGrammar.FragmentIsRfc6901 | src/lib/rapidjson/pointer.h:863-993 | a fragment is accepted if and only if it is one of RFC 3986 that decodes to the UTF-8 of a JSON Pointer, is empty or starts with a bare solidus, and outside its triplets holds only unreserved characters and solidi, with a bare character behind every tilde |
| FragmentGrammar.ColonRefused | src/lib/rapidjson/pointer.h:924-927 | "#/a:b" is legal and refused |
| Pointers.AppendedReadsBack | src/lib/rapidjson/pointer.h:244-314 | appending an index gives the pointer the longer text parses to; appending a name does if and only if the name does not read as an index |
| PointerParsers.ParseName | src/lib/rapidjson/pointer.h:900-955 | decoding and unescaping one name into the buffer gives the specified name, end and error offset; the write cursor stays behind the read position |
| PointerParsers.Convert | src/lib/rapidjson/pointer.h:956-978 | the conversion loop computes the specified index |
| PointerParsers.GenericPointer.Parse | src/lib/rapidjson/pointer.h:863-993 | the whole parse into a name buffer as long as the source and as many tokens as solidi: never outside either, every token filled, names packed and NUL-terminated, tokens and errors as specified |
| PointerParsers.GenericPointer.PrintName | src/lib/rapidjson/pointer.h:1010-1030 | one name is printed as specified, and read exactly as far as `ReadsStayInside` speaks of in the fragment form, to its end in the string form |
| PointerParsers.GenericPointer.Stringify | src/lib/rapidjson/pointer.h:1002-1033 | printing from the buffer gives the specified text or false; it reads past the terminator of a name if and only if it prints a fragment and a name behind well-formed ones holds, behind a well-formed stretch, a byte that announces at least two bytes more than are left |
| PointerParsers.GenericPointer.CopyFromRaw | src/lib/rapidjson/pointer.h:820-844 | copying as many bytes as tokens and names need copies all names, because names are packed |
| PointerParsers.GenericPointer.Append | src/lib/rapidjson/pointer.h:244-253 | a new pointer with one more token; the old one is untouched and names stay packed |
| PointerParsers.GenericPointer.AppendName | src/lib/rapidjson/pointer.h:262-265 | the same for a name without index |
| PointerParsers.GenericPointer.AppendIndex | src/lib/rapidjson/pointer.h:297-314 | the same for an index printed in decimal |
| Watchdog.EveryAgentIsDeletedOnce | src/core/agent_config.cpp:38-69 | each agent of the list is deleted exactly once, and the loop checks exactly as often as all agents have answers |
| Watchdog.CheckedUntilItFails | src/core/agent_config.cpp:38-69 | every agent is checked until it first refuses, however the others interleave, and never afterwards; one that throws stays |
| Watchdog.ReportsNameTheLastCheck | src/core/agent_config.cpp:41-54 | the loop count printed for a deleted agent is the number of the check it refused, and it is never checked again |
| Watchdog.RoundRobin | src/core/agent_config.cpp:38-69 | as long as no agent refuses, the checks go round the list in order |
| Watchdog.FirstRefusal | src/core/agent_config.cpp:41-54 | the first agent deleted is the one whose turn it is, and then the loop goes on as from the start, at the head of the others in their order |
| Watchdog.LastExceptionIsKept | src/core/agent_config.cpp:56-59 | the message kept is that of the last exception any check has thrown |
| Watchdog.PluginImpl.AddAgent | src/core/agent_config.h:46-49 | the agent becomes the head, the rest of the list follows unchanged |
| Watchdog.PluginImpl.CountModules | src/core/agent_config.cpp:136-139 | the count reported is the number of agents on the list |
| Watchdog.PluginImpl.Unlink | src/core/agent_config.cpp:45-50 | relinking around an agent, at the head or behind `prev`, removes it alone and keeps the order of the others |
| Watchdog.PluginImpl.MainLoop | src/core/agent_config.cpp:38-69 | the loop terminates with an empty list, having checked, deleted and reported in the specified order, with the last exception remembered |

## Left out

- Floating point: `strtod`, `dtoa`, NaN, infinity and `IsLossless` are not part of this model. A double is the text of its token; whether the conversion overflows is a parameter, and values with doubles are outside the round trips, equality and hash laws.
- Encodings.ReadsStayInside: what the program finds in memory that does not belong to the string is not modelled. The byte behind the text is taken to be a terminator there; it ends every character, so later bytes play no part in a verdict.
- Parse flags other than trailing commas and stop-when-done: in-situ parsing, comments, NaN and infinity, numbers as strings, full precision and encoding validation; SIMD scans.
- Simulation.ParsersAgree: the stream position after an error is not compared; the error code and its offset are.
- Accepting.Accept: only the compact writer is walked as an object (both styles are covered on values by `WritingPrints`); handlers that refuse an event half-way are not modelled for the walk over a value; parsers are proved against refusing handlers.
- NumberArithmetic.FractionTruncates: the rounding of the double that holds the significand beyond 53 bits is not modelled.
- Documents.GenericDocument.ParseStream: the document receives the events after the parse instead of during it; its handlers never refuse, so the order of the two cannot be observed.
- Reader.GenericReader.IterativeParseNext: the state and the count that the code pushes as two stack entries are one frame here, and the scratch stack for string bytes is a local sequence.
- Strings of 2^32 bytes or more are not modelled; lengths are unbounded here.
- Writers.Writer.Leaf: runs that fail a guard are outside the statement about prefixes; a failed assertion may already have written a delimiter. Raw values and doubles are not written.
- Output streams are sequences of bytes; flushing and capacity other than the reserve of `WriteString` are left out.
- Schema compilation from JSON, `$ref`, remote schemas, `required`, `dependencies`, `enum`, `uniqueItems`, `pattern` and `patternProperties`, string and number limits, error reports and continue-on-error.
- SchemaValidators.GenericSchemaValidator.EndValue: the checks of `enum`, `uniqueItems` and `patternProperties` are left out with those keywords.
- SchemaValidators.GenericSchemaValidator.Parallel: hashers and pattern validators are left out; sub-validators are values stepped by the specification, not objects; sharing between them is not modelled.
- Equality.Equals: values that hold doubles are not compared. Integers are compared as 64-bit words like the code does, so an integer and the unsigned one with the same bits are equal; that is part of the meaning, not an omission.
- Hashing.IntegerKindIsIgnored: the eight bytes of the double stored beside an integer are an unknown function for each of the four integer types; that the casts agree on common integers is a hypothesis.
- MemberMaps.MapObject.Find: with repeated names the index may return any of the members of that name, as a multimap lookup may.
- MemberMaps: capacity growth, the memory layout behind the members and the destruction of values are left out; the index is a set of entry objects with an order on names.
- PoolAllocators.SharedData.Malloc: `size_t` does not wrap, and the base allocator's answer is a parameter that is assumed to be aligned and apart from all chunks. Which handle owns the base allocator is left out.
- PoolAllocators.MemoryPoolAllocator.Assign: move assignment is left out; the chunk capacity that every handle copies is kept once in the shared data.
- PointerTrees: positions in a tree are paths instead of addresses; trees may contain doubles.
- PointerParsers.ParseName: the bytes an invalid percent sequence leaves in the buffer before the buffer is released are not those of the code. Pointers over caller-supplied constant tokens are left out.
- Watchdog.PluginImpl.MainLoop: what a check answers is a finite script for each agent, which is the assumption under which the loop ends; time stamps, sleeping and printing are left out, the loop counts that are printed are recorded.
- Short-string layout, pointer packing, move semantics of values, plug-ins, threads, MQTT, InfluxDB and the user interface.
