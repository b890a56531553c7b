# Verified models of the bundled libraries

The repository's own SIP and RTP code is mostly headers; the code that runs is in the libraries it
bundles and in a few small classes. This project models the parts of them that are hard to get
right and proves what they promise:

- **jsoncpp** (`Json*.dfy`, `Utf8.dfy`): `Reader` as a character-level, stateful parser, refined to
  a lexer and a parser on token lists given as functions; `FastWriter` and `StyledWriter`; 64-bit
  decimal conversion with its wrap-around; string escapes; the order on `Value`; the grammar of
  RFC 8259 with its meaning. The main results are the round trips through both writers, the
  agreement of reader and writers with that grammar, the exact set of texts that the reader accepts
  with their values (`JsonReadable`), the one error it reports on every other text (`JsonFaults`), and
  the exact condition under which `decodeNumber` stores the number that was written.
- **TinyXML** (`Xml*.dfy`): entities, `ReadText`, the parsers of all nodes and the document, the
  printer, the child lists of the DOM with `Clone`, and the ring of attributes. The main results are
  the entity round trip with its exact condition, the round trip of whole documents in every
  encoding and both white space modes, the exact set of texts that are read without an error and the
  nodes they stand for (`XmlGrammar`, `XmlConformance`), and,
  for every DOM operation, that the five pointers of all nodes keep standing for one sequence of
  children per node.
- **State machines**: the pool of `BatchAllocator` with its free list threaded through released
  blocks (`BatchAllocator.dfy`), the monitor queue `CSyncQueue` under all interleavings
  (`SyncQueue.dfy`), log4cpp's categories (`Categories.dfy`) and the in-place cutting of syslog
  messages (`Syslog.dfy`).

How the files are built: a module such as `JsonParser`, `XmlParser`, `XmlText` or `XmlPrint` states
as functions what a component computes; the class or methods beside it (`JsonReader`, `XmlDocument`,
`XmlBase`, `XmlPrinter`) have the loops, cursors and buffers of the source and are proved to compute
exactly that; the lemmas about the functions then hold of the code. What the functions compute is
stated once more without them: by grammars (`JsonGrammar`, `JsonSpelling`, `JsonReadable`,
`XmlCharacters`, `XmlGrammar`), outlines of lines (`JsonLayout`, `XmlLayout`), an order told by first
differences, a reader of packets, a decoder of UTF-8. `dafny verify dfyconfig.toml` checks everything.

A C++ `char` is a Dafny `char`. Where the source works with pointers into a NUL-terminated text,
the functions take the text from the pointer on, and the methods positions. Machine integers are
written out where they can wrap: `LargestInt` and `LargestUInt`, and the 32-bit multiplier of
`GetEntity`. What the C library does with doubles is a parameter (`JsonText.Doubles`).

Where the code does not do what its documentation says, the code is modelled, and the condition
under which the promise holds is proved:

- `decodeNumber` has no overflow guard for the last digit (`LastDigitOverflow`,
  `DecodesAsDocumentedExactly`).
- `EncodeString` passes hexadecimal references through, so exactly the strings without one survive
  (`EntityRoundTripExactly`).
- The reader reports an error on a high surrogate without another unicode escape behind it, which the
  grammar of RFC 8259 allows (`JsonTextIsParsed`), and combines it with any escape behind it, a low
  surrogate or not; strings have their meaning exactly if their surrogates are well paired
  (`MeaningExactly`, `BadlyPaired`).
- `GetEntity` looks for the digits of a reference from its end, so what stands in front of a second
  mark is passed over (`SecondMark`); without one, a reference is an error exactly if a character is no
  digit (`ReferenceExactly`).
- A comment, a CDATA section, a declaration or an unknown tag that is not closed is no error for
  TinyXML; exactly these texts end in one (`DocumentIsMarkup`, `OpenIsRead`).
- In strict mode the message says that a document must be an array or an object, but null passes for
  both: the promise holds exactly for the texts whose first token is not null (`StrictRootExactly`,
  `StrictAcceptsNull`).
- `pushBackEv` tests the capacity with `if`, so a push that waited may exceed it: the queue is
  bounded in all runs exactly if no push may wait (`BoundedExactly`, `CapacityIsExceeded`,
  `BoundIsReached`).
- `BatchAllocator` compares `used_` and `end_` for equality while the page size counts objects, so
  it is safe exactly when the block size divides the page size (`SafeExactly`); the pages of eight
  values in `json_internalarray.inl` do not divide the default of 255 (`PagesOfEight`).
- `Next` takes an attribute without name and value for the sentinel (`NamedAreSeen`,
  `HiddenAttribute`).
- `CopyTo` copies values as C strings, attributes only as far as `Next` shows them, and children only
  below elements and documents, so a clone is equal exactly to what loses nothing by that
  (`CopiedExactly`, `BlankIsNotCopied`).

Further readings of the code that the model keeps: the reader accepts `{"":1,}`, since an empty
member name also lets the brace end the object behind a comma; in an object any token behind a
comment passes for the separator (both are part of the grammar of `JsonReadable`); `-` alone is read
as 0 (`LoneMinus`); attributes need no gap between them, and words without quotes are values; strings are cut at their first NUL when
they become values; an empty log message sends no packet.

## Model

| member | source | states |
|---|---|---|
| `JsonValue.AssignIsMapUpdate` | open_src/jsoncpp-src-0.6.0-rc2/source/src/lib_json/json_value.cpp:1132-1153 | Setting a member by its key is a map update: the key gets the value, every other key keeps its own, and the keys stay sorted. |
| `JsonValue.AssignTwice` | open_src/jsoncpp-src-0.6.0-rc2/source/src/lib_json/json_value.cpp:1132-1153 | A repeated key replaces the value of the first occurrence and adds no member. |
| `JsonValue.AssignAtEnd` | open_src/jsoncpp-src-0.6.0-rc2/source/src/lib_json/json_value.cpp:1132-1153 | A key greater than all others is appended, so members read in sorted order rebuild the map. |
| `JsonValue.IsMemberIsHasKey` | open_src/jsoncpp-src-0.6.0-rc2/source/src/lib_json/json_value.cpp:1292-1297 | The lookup by lower bound finds a key exactly if some member has it. |
| `JsonOrder.StrictTotalOrder` | open_src/jsoncpp-src-0.6.0-rc2/source/src/lib_json/json_value.cpp:526-641 | operator< is irreflexive, transitive and total up to operator==, which is its equivalence; compare agrees with both and is antisymmetric; and it is the order that is told without it. |
| `JsonOrder.LessExactly` | open_src/jsoncpp-src-0.6.0-rc2/source/src/lib_json/json_value.cpp:537-579 | operator< is the order by kind in the sequence of the enumeration, then numbers by size, false below true, strings by the first byte that differs, containers by size and then by the first item or member that differs; told without operator<. |
| `JsonOrder.ItemsLessExactly` | open_src/jsoncpp-src-0.6.0-rc2/source/src/lib_json/json_value.cpp:562-577 | Of two arrays the lesser has the lesser item at the first position where they differ, or ends there. |
| `JsonOrder.MembersLessExactly` | open_src/jsoncpp-src-0.6.0-rc2/source/src/lib_json/json_value.cpp:562-577 | The same for members, which are compared by key first and then by value. |
| `JsonOrder.EqualIsIdentity` | open_src/jsoncpp-src-0.6.0-rc2/source/src/lib_json/json_value.cpp:599-641 | operator== holds exactly between identical trees, type tags included, through nested arrays and objects. |
| `JsonOrder.LessTransitive` | open_src/jsoncpp-src-0.6.0-rc2/source/src/lib_json/json_value.cpp:537-579 | Transitivity through containers compared by size and then item by item or member by member. |
| `JsonOrder.LessTotal` | open_src/jsoncpp-src-0.6.0-rc2/source/src/lib_json/json_value.cpp:537-579 | Two trees neither of which is less are equal. |
| `CString.StrLessTotal` | open_src/jsoncpp-src-0.6.0-rc2/source/src/lib_json/json_value.cpp:185-191 | The key order by strcmp is total; with transitivity and irreflexivity it is a strict total order. |
| `CString.StrLessExactly` | open_src/jsoncpp-src-0.6.0-rc2/source/src/lib_json/json_value.cpp:185-191 | One string is less than another exactly if it has the smaller byte at the first position where they differ, or ends there. |
| `JsonNumber.UIntToString` | open_src/jsoncpp-src-0.6.0-rc2/source/src/lib_json/json_tool.h:78-89 | The digits and the final NUL are written backwards and stay inside the 25 bytes of the buffer, at least four bytes of which stay free. |
| `JsonNumber.UIntToText` | open_src/jsoncpp-src-0.6.0-rc2/source/src/lib_json/json_writer.cpp:50-57 | The text is the digits of the value. |
| `JsonNumber.IntToText` | open_src/jsoncpp-src-0.6.0-rc2/source/src/lib_json/json_writer.cpp:35-47 | The text is the sign and the digits of the magnitude, for the least 64-bit integer too, whose negation wraps to itself; the buffer is not left. |
| `JsonNumber.IntTextIsSignAndMagnitude` | open_src/jsoncpp-src-0.6.0-rc2/source/src/lib_json/json_writer.cpp:35-47 | The text read as a sign and a decimal number is the value. |
| `JsonNumber.DecimalOfDigits` | open_src/jsoncpp-src-0.6.0-rc2/source/src/lib_json/json_tool.h:78-89 | The digits of a number denote it, with no leading zero but for zero itself. |
| `JsonNumber.DigitsOfDecimal` | open_src/jsoncpp-src-0.6.0-rc2/source/src/lib_json/json_tool.h:78-89 | A digit string without a superfluous zero is the one written for its number. |
| `JsonNumber.AddDigitsClosed` | open_src/jsoncpp-src-0.6.0-rc2/source/src/lib_json/json_reader.cpp:582-593 | The loop over the digits, with its wrap-around, computes the decimal value whenever its guard lets the digits pass; exactly when it does not is said in arithmetic. |
| `JsonNumber.DecodeNumberExact` | open_src/jsoncpp-src-0.6.0-rc2/source/src/lib_json/json_reader.cpp:553-603 | Within [-2^63, 2^64-1], leading zeros included, the integer path is taken, nothing wraps, and the result is the exact value with its canonical tag. |
| `JsonNumber.DecodesAsDocumentedExactly` | open_src/jsoncpp-src-0.6.0-rc2/source/src/lib_json/json_reader.cpp:582-603 | For every optionally signed digit string: the stored number is the written one, or the text is handed to the double path for being too large, if and only if the magnitude is in range or a guard refuses it. The gap is the last digit, which has no guard of its own. |
| `JsonNumber.LastDigitOverflow` | open_src/jsoncpp-src-0.6.0-rc2/source/src/lib_json/json_reader.cpp:584-593 | 18446744073709551620 is read as 4. |
| `JsonNumber.NumberRoundTrip` | open_src/jsoncpp-src-0.6.0-rc2/source/src/lib_json/json_reader.cpp:553-603 | decodeNumber inverts valueToString for every signed and unsigned 64-bit integer, up to the canonical tag. |
| `JsonNumber.Limits` | open_src/jsoncpp-src-0.6.0-rc2/source/src/lib_json/json_reader.cpp:571-603 | 2147483647 is the last number with the tag of a signed integer; 18446744073709551615 and -9223372036854775808 are read exactly. |
| `JsonString.ValueToQuotedString` | open_src/jsoncpp-src-0.6.0-rc2/source/src/lib_json/json_writer.cpp:120-181 | The early exit for strings without special characters and the escaping loop produce the same text, that of Quote. |
| `JsonString.ContainsControlCharacter` | open_src/jsoncpp-src-0.6.0-rc2/source/src/lib_json/json_writer.cpp:24-32 | True exactly if some character is in the control range. |
| `JsonString.DecodeQuoted` | open_src/jsoncpp-src-0.6.0-rc2/source/src/lib_json/json_reader.cpp:644-688 | decodeString inverts valueToQuotedString for every NUL-free string. |
| `JsonString.ScanQuoted` | open_src/jsoncpp-src-0.6.0-rc2/source/src/lib_json/json_reader.cpp:435-448 | Whatever follows it, the scan of a quoted string stops exactly behind its closing quote. |
| `JsonString.DecodingReachesTheEnd` | open_src/jsoncpp-src-0.6.0-rc2/source/src/lib_json/json_reader.cpp:644-688 | On the body of any string token the scanner accepted, the decoding cursor never passes the closing quote and never stops short of it without an error. |
| `JsonString.DecodeEscaped` | open_src/jsoncpp-src-0.6.0-rc2/source/src/lib_json/json_reader.cpp:644-688 | Decoding any escaped string in front of its quote returns it, whatever was decoded before. |
| `Utf8.EncodedIsDecoded` | open_src/jsoncpp-src-0.6.0-rc2/source/src/lib_json/json_tool.h:18-53 | Encoded code points are decoded to themselves by a decoder written from section 3 of RFC 3629, whatever follows. |
| `Utf8.DecodedIsEncoded` | open_src/jsoncpp-src-0.6.0-rc2/source/src/lib_json/json_tool.h:18-53 | The decoder accepts nothing but what the encoder writes: every well-formed, shortest-form sequence is the encoding of its code point. |
| `Utf8.EncodedExactly` | open_src/jsoncpp-src-0.6.0-rc2/source/src/lib_json/json_tool.h:18-53 | There is an encoding of a code point exactly if it is at most U+10FFFF. |
| `Utf8.PrefixFree` | open_src/jsoncpp-src-0.6.0-rc2/source/src/lib_json/json_tool.h:18-53 | No encoding is a prefix of that of another code point, so the encoding is injective. |
| `Utf8.EncodersAgree` | open_src/tinyxml/tinyxml/tinyxmlparser.cpp:88-126 | For every code point up to U+10FFFF both libraries write the same bytes. |
| `Utf8.ConvertUtf32ToUtf8` | open_src/tinyxml/tinyxml/tinyxmlparser.cpp:88-126 | The bytes filled in from the last one down are those of the closed form; nothing is written from 0x200000 on, and nothing outside the length. |
| `Utf8.TableGivesLength` | open_src/tinyxml/tinyxml/tinyxmlparser.cpp:66-85 | The lead-byte table gives the length of every encoding. |
| `Utf8.NoLeadByte` | open_src/tinyxml/tinyxml/tinyxmlparser.cpp:66-85 | Only the lead bytes of encodings of two to four bytes have such a length in the table. |
| `Utf8.CombineInvertsPair` | open_src/jsoncpp-src-0.6.0-rc2/source/src/lib_json/json_reader.cpp:690-718 | Two escapes that form a surrogate pair give the code point whose pair they are by section 2 of RFC 2781, and every code point beyond U+FFFF comes back from its pair. |
| `JsonReader.Reader.SkipSpaces` | open_src/jsoncpp-src-0.6.0-rc2/source/src/lib_json/json_reader.cpp:320-331 | The cursor moves behind the leading white space and no further. |
| `JsonReader.Reader.Match` | open_src/jsoncpp-src-0.6.0-rc2/source/src/lib_json/json_reader.cpp:334-346 | The cursor moves behind the word if and only if it stands there. |
| `JsonReader.Reader.ReadCStyleComment` | open_src/jsoncpp-src-0.6.0-rc2/source/src/lib_json/json_reader.cpp:397-407 | The cursor stops behind the first end mark, or at the end with failure. |
| `JsonReader.Reader.ReadCppStyleComment` | open_src/jsoncpp-src-0.6.0-rc2/source/src/lib_json/json_reader.cpp:410-420 | The cursor stops at the end of the line. |
| `JsonReader.Reader.ReadComment` | open_src/jsoncpp-src-0.6.0-rc2/source/src/lib_json/json_reader.cpp:349-374 | Either kind of comment is passed over by its second character. |
| `JsonReader.Reader.ReadNumber` | open_src/jsoncpp-src-0.6.0-rc2/source/src/lib_json/json_reader.cpp:423-433 | The cursor passes exactly the number characters. |
| `JsonReader.Reader.ReadString` | open_src/jsoncpp-src-0.6.0-rc2/source/src/lib_json/json_reader.cpp:435-448 | The cursor stops behind the first quote that no backslash escapes. |
| `JsonReader.Reader.ReadToken` | open_src/jsoncpp-src-0.6.0-rc2/source/src/lib_json/json_reader.cpp:245-317 | The token is the next one of the token list of the text, the rest of which is the rest of the list. |
| `JsonSpelling.ScannedExactly` | open_src/jsoncpp-src-0.6.0-rc2/source/src/lib_json/json_reader.cpp:245-317 | readToken finds a token of a kind exactly where one is spelled that may end there: brackets and words literally, strings up to the quote that no backslash escapes, comments up to their first end mark or the end of the line, numbers as far as number characters go. The spelling is told without the scanner. |
| `JsonSpelling.LaidIsLexed` | open_src/jsoncpp-src-0.6.0-rc2/source/src/lib_json/json_reader.cpp:245-331 | A text made of spelled tokens with white space of section 2 of RFC 8259 between them is cut into those tokens. |
| `JsonSpelling.LexedIsLaid` | open_src/jsoncpp-src-0.6.0-rc2/source/src/lib_json/json_reader.cpp:245-331 | A text that is cut into tokens none of which is an error is made of them and white space. |
| `JsonSpelling.BlockIsScanned` | open_src/jsoncpp-src-0.6.0-rc2/source/src/lib_json/json_reader.cpp:397-407 | A comment of the C style ends at its first end mark, wherever stars and slashes stand before. |
| `JsonReader.Reader.DecodeUnicodeEscapeSequence` | open_src/jsoncpp-src-0.6.0-rc2/source/src/lib_json/json_reader.cpp:720-743 | Four hexadecimal digits are decoded and passed, or the error is reported. |
| `JsonReader.Reader.DecodeUnicodeCodePoint` | open_src/jsoncpp-src-0.6.0-rc2/source/src/lib_json/json_reader.cpp:690-718 | A high surrogate takes the following escape with it; a missing one is an error. |
| `JsonReader.Reader.DecodeStringToken` | open_src/jsoncpp-src-0.6.0-rc2/source/src/lib_json/json_reader.cpp:644-688 | The decoded text is that of the string specification, or one error more is recorded and none is lost. |
| `JsonReader.Reader.DecodeNumber` | open_src/jsoncpp-src-0.6.0-rc2/source/src/lib_json/json_reader.cpp:553-603 | The value on top of the stack becomes the number the specification gives, or an error is added. |
| `JsonReader.Reader.RecoverFromError` | open_src/jsoncpp-src-0.6.0-rc2/source/src/lib_json/json_reader.cpp:760-774 | Tokens are skipped up to and with the first one of the given kind, or to the end; errors_ is not touched. |
| `JsonReader.Reader.AddErrorAndRecover` | open_src/jsoncpp-src-0.6.0-rc2/source/src/lib_json/json_reader.cpp:777-784 | One error is added before the skipping and survives it. |
| `JsonReader.Reader.SkipCommentTokens` | open_src/jsoncpp-src-0.6.0-rc2/source/src/lib_json/json_reader.cpp:217-232 | The token returned is the first one that is not a comment. |
| `JsonReader.Reader.ReadValue` | open_src/jsoncpp-src-0.6.0-rc2/source/src/lib_json/json_reader.cpp:166-214 | Result, value, errors and the tokens left are those of the token-level parser; nodes_ has its old depth again with only the top changed; the cursor never moves back. |
| `JsonReader.Reader.ReadArray` | open_src/jsoncpp-src-0.6.0-rc2/source/src/lib_json/json_reader.cpp:510-550 | The same for an array from behind its bracket. |
| `JsonReader.Reader.ReadObject` | open_src/jsoncpp-src-0.6.0-rc2/source/src/lib_json/json_reader.cpp:451-507 | The same for an object from behind its brace. |
| `JsonReader.Reader.Parse` | open_src/jsoncpp-src-0.6.0-rc2/source/src/lib_json/json_reader.cpp:122-163 | For every text and feature set parse ends and returns what the token-level parser gives for the tokens of the text; the strict-root test uses isArray and isObject, which null passes. |
| `JsonReadable.ParsedExactly` | open_src/jsoncpp-src-0.6.0-rc2/source/src/lib_json/json_reader.cpp:122-163 | parse accepts exactly the texts whose tokens start with a tree of a grammar that is told without the parser, and gives its value: RFC 8259, with comments in front of values where they are allowed and behind values anywhere, a brace behind an empty name, any token for the separator behind a comment in an object, and anything behind the root. |
| `JsonReadable.TreeIsRead` | open_src/jsoncpp-src-0.6.0-rc2/source/src/lib_json/json_reader.cpp:166-214 | Every such tree is read as its value, its tokens and no more are consumed, and no error is recorded. |
| `JsonReadable.ReadIsTree` | open_src/jsoncpp-src-0.6.0-rc2/source/src/lib_json/json_reader.cpp:166-214 | Whatever is read without an error is such a tree: items are separated by commas and nothing else, names are followed by colons, brackets are closed by their own kind. |
| `JsonReadable.ReadIsSlot` | open_src/jsoncpp-src-0.6.0-rc2/source/src/lib_json/json_reader.cpp:524-548 | A turn of readArray without an error has an item, comments, and a comma or the closing bracket. |
| `JsonReadable.ReadIsEntry` | open_src/jsoncpp-src-0.6.0-rc2/source/src/lib_json/json_reader.cpp:456-503 | A turn of readObject without an error has a name, a colon, a value, comments, and the brace or a separator. |
| `JsonReadable.CommentAhead` | open_src/jsoncpp-src-0.6.0-rc2/source/src/lib_json/json_reader.cpp:217-232 | A comment in front of a value changes nothing where comments are allowed, and is the one error where they are not. |
| `JsonReadable.NumberIsAccepted` | open_src/jsoncpp-src-0.6.0-rc2/source/src/lib_json/json_reader.cpp:553-622 | decodeNumber accepts exactly the number tokens that are an optional sign and digits within the overflow guards, or that sscanf scans. |
| `JsonReadable.LoneMinus` | open_src/jsoncpp-src-0.6.0-rc2/source/src/lib_json/json_reader.cpp:568-603 | A minus sign alone is the number 0. |
| `JsonReadable.StringIsAccepted` | open_src/jsoncpp-src-0.6.0-rc2/source/src/lib_json/json_reader.cpp:644-688 | decodeString accepts exactly the tokens made of escapes of the grammar and of characters that are neither quote nor backslash, with every high surrogate in front of another escape. |
| `JsonReadable.BodyHasFault` | open_src/jsoncpp-src-0.6.0-rc2/source/src/lib_json/json_reader.cpp:644-743 | A string that is not accepted has a backslash with a fault behind it, and the message names that fault: no escape letter, fewer than four digits, another character, or no second escape. |
| `JsonReadable.ReadTextIsLaid` | open_src/jsoncpp-src-0.6.0-rc2/source/src/lib_json/json_reader.cpp:122-163 | The accepted text itself is spelled as the tokens of its tree with white space between them. |
| `JsonReadable.LaidTextIsParsed` | open_src/jsoncpp-src-0.6.0-rc2/source/src/lib_json/json_reader.cpp:122-163 | Every text spelled so is accepted with the value of the tree. |
| `JsonFaults.ReportedExactly` | open_src/jsoncpp-src-0.6.0-rc2/source/src/lib_json/json_reader.cpp:122-163 | A text that is not read as a value breaks off at a token, and the first error is about that token with the message for what was expected there; there is no other error but the one about the root in strict mode. |
| `JsonFaults.FaultIsReported` | open_src/jsoncpp-src-0.6.0-rc2/source/src/lib_json/json_reader.cpp:166-214 | Wherever a value breaks off, at any depth, exactly one error is added: for the token that fits nowhere. |
| `JsonFaults.GapIsReported` | open_src/jsoncpp-src-0.6.0-rc2/source/src/lib_json/json_reader.cpp:451-507 | The same for the members of an object, with the messages for a missing name, colon or separator. |
| `JsonFaults.FailedIsFault` | open_src/jsoncpp-src-0.6.0-rc2/source/src/lib_json/json_reader.cpp:166-214 | Every failure of readValue is such a place. |
| `JsonFaults.ColonInArray` | open_src/jsoncpp-src-0.6.0-rc2/source/src/lib_json/json_reader.cpp:538-545 | A colon between two items is reported as a missing comma or bracket. |
| `JsonParser.RecoverExactly` | open_src/jsoncpp-src-0.6.0-rc2/source/src/lib_json/json_reader.cpp:760-774 | Recovering drops the tokens up to and with the first one of the kind or the end of the stream, or all of them. |
| `JsonParser.ParseAccounts` | open_src/jsoncpp-src-0.6.0-rc2/source/src/lib_json/json_reader.cpp:122-163 | parse returns true exactly when errors_ is empty, for every token list and feature set. |
| `JsonParser.StrictRootExactly` | open_src/jsoncpp-src-0.6.0-rc2/source/src/lib_json/json_reader.cpp:149-161 | In strict mode a successful parse has an array or an object for its root, as the error message says, if and only if the first token of the text, behind comments where they are allowed, is not null. |
| `JsonParser.StrictAcceptsNull` | open_src/jsoncpp-src-0.6.0-rc2/source/src/lib_json/json_reader.cpp:149-161 | The text null is parsed to null without an error in strict mode. |
| `JsonParser.ReadValueAccounts` | open_src/jsoncpp-src-0.6.0-rc2/source/src/lib_json/json_reader.cpp:166-214 | readValue keeps every error recorded before it, and fails exactly when it has added one. |
| `JsonParser.ReadItemsAccounts` | open_src/jsoncpp-src-0.6.0-rc2/source/src/lib_json/json_reader.cpp:510-550 | The same for the items of an array, also through recovery. |
| `JsonParser.ReadMembersAccounts` | open_src/jsoncpp-src-0.6.0-rc2/source/src/lib_json/json_reader.cpp:451-507 | The same for the members of an object. |
| `JsonText.ReadLexemes` | open_src/jsoncpp-src-0.6.0-rc2/source/src/lib_json/json_reader.cpp:166-214 | The token list of a value, followed by anything, is read as the value with canonical integer tags, with no error and exactly the rest left. |
| `JsonText.SpelledIsParsed` | open_src/jsoncpp-src-0.6.0-rc2/source/src/lib_json/json_reader.cpp:122-163 | Any text with the token list of a value is parsed to that value; it succeeds unless the strict-root feature refuses what is no array, object or null, which is then the one error. |
| `JsonGrammar.JsonSpells` | open_src/jsoncpp-src-0.6.0-rc2/source/src/lib_json/json_reader.cpp:245-317 | A text of the grammar of RFC 8259, given without reference to tokens, is cut into the tokens of its tree. |
| `JsonGrammar.CharsAreDecoded` | open_src/jsoncpp-src-0.6.0-rc2/source/src/lib_json/json_reader.cpp:644-743 | decodeString reports an error on characters of section 7 of RFC 8259 exactly if a high surrogate has no other unicode escape behind it; otherwise it combines the surrogate with whatever that escape is. |
| `JsonGrammar.MeaningExactly` | open_src/jsoncpp-src-0.6.0-rc2/source/src/lib_json/json_reader.cpp:644-718 | A string is read as the characters it stands for by RFC 8259 and section 2.2 of RFC 2781, if and only if every high surrogate is followed by a low one and no low one is alone. |
| `JsonGrammar.BadlyPaired` | open_src/jsoncpp-src-0.6.0-rc2/source/src/lib_json/json_reader.cpp:690-718 | The escapes D800 and 0041 are read as U+10041, a lone DC00 as three bytes of no character. |
| `JsonGrammar.CodeIsPositional` | open_src/jsoncpp-src-0.6.0-rc2/source/src/lib_json/json_reader.cpp:720-743 | Four hexadecimal digits, each told by its place among the digits of either case, are an escape for their number. |
| `JsonGrammar.NumeralIsDecoded` | open_src/jsoncpp-src-0.6.0-rc2/source/src/lib_json/json_reader.cpp:553-622 | decodeNumber accepts every number of section 6 of RFC 8259. |
| `JsonGrammar.NumberExactly` | open_src/jsoncpp-src-0.6.0-rc2/source/src/lib_json/json_reader.cpp:553-603 | A number is stored as what it means, an integer in range exactly and any other number as the double, if and only if it is no integer that slips past the overflow guards. |
| `JsonGrammar.IntegerIsExact` | open_src/jsoncpp-src-0.6.0-rc2/source/src/lib_json/json_reader.cpp:553-603 | An integer of that grammar in the range of the 64-bit types is stored exactly. |
| `JsonConformance.ValueIsRead` | open_src/jsoncpp-src-0.6.0-rc2/source/src/lib_json/json_reader.cpp:166-214 | readValue on the tokens of a tree of the grammar gives what the reader makes of it and leaves the rest, if every high surrogate has another escape behind it, and fails otherwise. |
| `JsonConformance.JsonTextIsParsed` | open_src/jsoncpp-src-0.6.0-rc2/source/src/lib_json/json_reader.cpp:122-163 | Every JSON text of RFC 8259, with any white space, any escapes and names in any order, also repeated ones, is parsed without an error, if and only if every high surrogate has another unicode escape behind it and, in strict mode, the root is an array, an object or null. |
| `JsonConformance.JsonTextHasItsMeaning` | open_src/jsoncpp-src-0.6.0-rc2/source/src/lib_json/json_reader.cpp:122-163 | The value is what the text means by RFC 8259 if its surrogates are well paired and no integer slips past the overflow guards. |
| `JsonConformance.WrittenIsJson` | open_src/jsoncpp-src-0.6.0-rc2/source/src/lib_json/json_writer.cpp:206-489 | Every text with the tokens of a value, so what FastWriter and StyledWriter write, is a JSON text of RFC 8259. |
| `JsonWriter.CompactTextSpells` | open_src/jsoncpp-src-0.6.0-rc2/source/src/lib_json/json_writer.cpp:206-272 | The compact text of every value has exactly the tokens of the value, in both comma styles. |
| `JsonWriter.FastWriter.Write` | open_src/jsoncpp-src-0.6.0-rc2/source/src/lib_json/json_writer.cpp:206-213 | The document is the compact text and a line feed, and lexes to the tokens of the value. |
| `JsonWriter.FastWriter.WriteValue` | open_src/jsoncpp-src-0.6.0-rc2/source/src/lib_json/json_writer.cpp:216-272 | Exactly the compact text of the value is appended. |
| `JsonConformance.CompactIsShortest` | open_src/jsoncpp-src-0.6.0-rc2/source/src/lib_json/json_writer.cpp:206-272 | No text with the tokens of a value is shorter than the compact one: it has no white space. |
| `JsonConformance.YamlAddsBlanks` | open_src/jsoncpp-src-0.6.0-rc2/source/src/lib_json/json_writer.cpp:262-266 | The YAML mode adds one blank for every colon. |
| `JsonStyledWriter.StyledWriter.Write` | open_src/jsoncpp-src-0.6.0-rc2/source/src/lib_json/json_writer.cpp:285-296 | The text is the pretty form of the value, character by character, and a line feed; it is read as the tokens of the value, hence like the compact text; the indentation and the flag are back at their start. |
| `JsonStyledWriter.StyledWriter.WriteValue` | open_src/jsoncpp-src-0.6.0-rc2/source/src/lib_json/json_writer.cpp:299-357 | On every return indentString_ and addChildValues_ are as before; in the one mode exactly the pretty form of the value is added to the document, in the other its compact text to childValues_. |
| `JsonStyledWriter.StyledWriter.WriteArrayValue` | open_src/jsoncpp-src-0.6.0-rc2/source/src/lib_json/json_writer.cpp:360-410 | The same for arrays on one line and on many; the asserted equality of childValues_.size() and the array size holds on the single-line path. |
| `JsonStyledWriter.StyledWriter.IsMultilineArray` | open_src/jsoncpp-src-0.6.0-rc2/source/src/lib_json/json_writer.cpp:413-441 | An array gets lines of its own exactly by the layout rule over item count, filled containers and total length; childValues_ holds the text of every item when it is filled. |
| `JsonStyledWriter.StyledWriter.PushValue` | open_src/jsoncpp-src-0.6.0-rc2/source/src/lib_json/json_writer.cpp:444-451 | The value goes to the end of the document or of childValues_, depending on the flag, and the other stays as it is. |
| `JsonStyledWriter.StyledWriter.WriteIndent` | open_src/jsoncpp-src-0.6.0-rc2/source/src/lib_json/json_writer.cpp:454-466 | Nothing is added behind a blank; otherwise the indentation, on a new line unless one has begun. |
| `JsonStyledWriter.PrettySpells` | open_src/jsoncpp-src-0.6.0-rc2/source/src/lib_json/json_writer.cpp:285-489 | The pretty form of a value has the tokens of the value, whatever the indentation: it means the same as the compact form. |
| `JsonLayout.PrettyIsOutline` | open_src/jsoncpp-src-0.6.0-rc2/source/src/lib_json/json_writer.cpp:285-489 | The pretty form is an outline of lines: brackets of filled containers on lines of their own, one member or item a line, commas at the ends of lines, each line behind three blanks for every level. |
| `JsonLayout.OutlineIsNested` | open_src/jsoncpp-src-0.6.0-rc2/source/src/lib_json/json_writer.cpp:469-489 | Every line has a margin of three blanks for each bracket that is open there, and all are closed at the end. |
| `JsonLayout.NeedsLinesExactly` | open_src/jsoncpp-src-0.6.0-rc2/source/src/lib_json/json_writer.cpp:413-441 | An array gets lines of its own exactly if it has 25 or more items, a filled container among them, or a line of 74 or more characters. |
| `JsonRoundTrip.WriteFastAndParse` | open_src/jsoncpp-src-0.6.0-rc2/source/src/lib_json/json_writer.cpp:206-272 | Whatever is built and written by FastWriter is a JSON text by RFC 8259 and is read back as the same value with canonical integer tags; parse succeeds unless the strict-root feature refuses a root that is no array, object or null, and errors_ is empty exactly then. |
| `JsonRoundTrip.ParseRewriteParse` | open_src/jsoncpp-src-0.6.0-rc2/source/src/jsontestrunner/main.cpp:94-268 | The cycle of the test runner: a text that parses is rewritten by StyledWriter to the pretty form of its value, a JSON text by RFC 8259, which parses again to that value. |
| `JsonRoundTrip.ReadValueBuilt` | open_src/jsoncpp-src-0.6.0-rc2/source/src/lib_json/json_reader.cpp:166-214 | Whatever the text, every value the reader builds has 64-bit integers, NUL-free strings and sorted keys, also after errors. |
| `JsonRoundTrip.CanonicalLexemes` | open_src/jsoncpp-src-0.6.0-rc2/source/src/lib_json/json_writer.cpp:206-272 | Without reals, writing the value that was read back gives the same tokens again: one round trip reaches a fixed point. |
| `XmlBase.SkipWhiteSpace` | open_src/tinyxml/tinyxml/tinyxmlparser.cpp:314-362 | The pointer moves behind the white space, and in UTF-8 behind byte order marks; it is null at the end of the text. |
| `XmlBase.ReadName` | open_src/tinyxml/tinyxml/tinyxmlparser.cpp:401-436 | The longest name at the pointer, or null where no name starts. |
| `XmlBase.StringEqual` | open_src/tinyxml/tinyxml/tinyxmlparser.cpp:534-572 | True exactly if the text starts with the tag, or does so up to letter case; the pointer must not be at the end of the text, as the source asserts. |
| `XmlBase.EncodeString` | open_src/tinyxml/tinyxml/tinyxml.cpp:52-133 | The entities, the character references and the references passed through are those of the specification, character by character. |
| `XmlBase.ReadDigits` | open_src/tinyxml/tinyxml/tinyxmlparser.cpp:461-506 | The digits read backwards from the semicolon with a 32-bit multiplier, or nothing at a character that is no digit. |
| `XmlBase.GetEntity` | open_src/tinyxml/tinyxml/tinyxmlparser.cpp:438-531 | Numeric references, the five named entities, and an ampersand dropped from anything else, with the pointer behind. |
| `XmlCharacters.WrittenIsRead` | open_src/tinyxml/tinyxml/tinyxmlparser.cpp:438-531 | Every written character, which is told without GetEntity, is read as what it stands for, whatever follows: a sequence by its lead byte, a named entity, a decimal or hexadecimal reference, or an ampersand that begins neither. |
| `XmlCharacters.ReadIsWritten` | open_src/tinyxml/tinyxml/tinyxmlparser.cpp:438-531 | GetChar reads nothing else: where none of these stands it gives a null pointer. |
| `XmlCharacters.DecimalIsRead` | open_src/tinyxml/tinyxml/tinyxmlparser.cpp:478-512 | A decimal reference with any number of leading zeros is read as its character: in UTF-8 by the encoder, else as its low byte. |
| `XmlCharacters.HexadecimalIsRead` | open_src/tinyxml/tinyxml/tinyxmlparser.cpp:451-512 | The same for hexadecimal references with digits of either case. |
| `XmlCharacters.ReferenceExactly` | open_src/tinyxml/tinyxml/tinyxmlparser.cpp:451-512 | A reference without a second mark is an error exactly if one of its characters up to the semicolon is no digit. |
| `XmlCharacters.SecondMark` | open_src/tinyxml/tinyxml/tinyxmlparser.cpp:465-476 | What stands in front of a second mark is passed over: &#x4x1; is read as U+0001. |
| `XmlCharacters.SumIsPositioned` | open_src/tinyxml/tinyxml/tinyxmlparser.cpp:447-503 | Below 2^32 the sum with the multiplier of 32 bits is the number of the digits. |
| `XmlBase.GetChar` | open_src/tinyxml/tinyxml/tinyxml.h:327-361 | One entity, one byte, or one sequence by its lead byte. |
| `XmlBase.ReadText` | open_src/tinyxml/tinyxml/tinyxmlparser.cpp:574-637 | The text up to the end mark with all or with condensed white space, and null when the mark is missing or last. |
| `XmlText.EntityRoundTrip` | open_src/tinyxml/tinyxml/tinyxmlparser.cpp:574-637 | Reading without trimming over an encoded string and its quote returns the string and stops just behind the quote: any bytes in the byte-wise encodings, all texts of whole sequences in UTF-8. |
| `XmlText.EncodedIsSafe` | open_src/tinyxml/tinyxml/tinyxml.cpp:52-133 | No bracket, quote or control character is left in an encoded string without a hexadecimal reference. |
| `XmlText.Utf8IsWhole` | open_src/tinyxml/tinyxml/tinyxmlparser.cpp:66-85 | Every well-formed UTF-8 text consists of whole sequences. |
| `XmlText.BytewiseIsWhole` | open_src/tinyxml/tinyxml/tinyxml.h:329-337 | In the byte-wise encodings every text does. |
| `XmlText.CondensedRoundTrip` | open_src/tinyxml/tinyxml/tinyxmlparser.cpp:594-634 | With white space condensed, an encoded text without leading, trailing or doubled blanks comes back, whatever white space stands between it and the next tag. |
| `XmlEntities.EntityRoundTripExactly` | open_src/tinyxml/tinyxml/tinyxml.cpp:52-133 | Reading undoes EncodeString if and only if no hexadecimal reference seems to start in the string. |
| `XmlEntities.PassedReferenceIsDecoded` | open_src/tinyxml/tinyxml/tinyxml.cpp:60-84 | The string &#x41; is written unchanged and read back as the letter A. |
| `XmlEntities.ReadIsNoLonger` | open_src/tinyxml/tinyxml/tinyxmlparser.cpp:438-531 | If reading stops at the quote it returns at most the length of the string, and less once a reference was passed through. |
| `XmlDocument.Document.SetError` | open_src/tinyxml/tinyxml/tinyxmlparser.cpp:798-815 | Only the first error is recorded. |
| `XmlDocument.Document.ParseAttribute` | open_src/tinyxml/tinyxml/tinyxmlparser.cpp:1392-1463 | Name, equals sign and value; nothing is reported for an attribute without a document. |
| `XmlDocument.Document.ParseUnknown` | open_src/tinyxml/tinyxml/tinyxmlparser.cpp:1275-1307 | Everything up to the next closing bracket. |
| `XmlDocument.Document.ParseComment` | open_src/tinyxml/tinyxml/tinyxmlparser.cpp:1337-1389 | Everything up to the end mark, or to the end of the text without an error. |
| `XmlDocument.Document.ParseCdata` | open_src/tinyxml/tinyxml/tinyxmlparser.cpp:1508-1533 | Everything up to the end mark, entities untouched. |
| `XmlDocument.Document.ParseText` | open_src/tinyxml/tinyxml/tinyxmlparser.cpp:1535-1545 | Text with the pointer left at the tag behind it. |
| `XmlDocument.Document.ParseDeclaration` | open_src/tinyxml/tinyxml/tinyxmlparser.cpp:1572-1629 | Version, encoding and standalone by name, as C strings, other words skipped; the loop ends on every text. The assertion of StringEqual fails exactly if a turn of the loop has nothing but white space left. |
| `XmlParser.EndsBlankIsUnclosed` | open_src/tinyxml/tinyxml/tinyxmlparser.cpp:1594-1629 | Only a declaration without its closing bracket gets to that assertion. |
| `XmlParser.HeaderAndBlank` | open_src/tinyxml/tinyxml/tinyxmlparser.cpp:1594-1603 | The header followed by a blank gets there, the header alone does not. |
| `XmlDocument.Document.Identify` | open_src/tinyxml/tinyxml/tinyxmlparser.cpp:818-899 | The kind of node that starts at the pointer. |
| `XmlDocument.Document.ParseElement` | open_src/tinyxml/tinyxml/tinyxmlparser.cpp:1043-1176 | Start tag, attributes, content and end tag, with the error of the step that fails. |
| `XmlDocument.Document.ParseInTag` | open_src/tinyxml/tinyxml/tinyxmlparser.cpp:1076-1175 | The loop over the attributes; an attribute of a known name is an error. |
| `XmlDocument.Document.ReadValue` | open_src/tinyxml/tinyxml/tinyxmlparser.cpp:1179-1247 | The children up to an end tag, blank texts dropped, in both white space modes. |
| `XmlDocument.Document.Blank` | open_src/tinyxml/tinyxml/tinyxmlparser.cpp:1631-1637 | True exactly if all characters are white space. |
| `XmlDocument.Document.Parse` | open_src/tinyxml/tinyxml/tinyxmlparser.cpp:704-796 | For every text, encoding and white space mode parse ends, and children, pointer and error are those of the specification; the encoding follows a byte order mark or a declaration. |
| `XmlGrammar.MarkupIsRead` | open_src/tinyxml/tinyxml/tinyxmlparser.cpp:1043-1247 | Every markup of a grammar that is told without the parser is identified and read as its node, with any gaps, attributes in quotes or as words, and content, and the pointer stands behind it. |
| `XmlGrammar.ReadIsMarkup` | open_src/tinyxml/tinyxml/tinyxmlparser.cpp:1043-1247 | A node that is read without an error, up to something behind it, is such a markup; so every other text leaves an error. |
| `XmlGrammar.ReadIsElement` | open_src/tinyxml/tinyxml/tinyxmlparser.cpp:1043-1176 | An element that is read without an error has a start tag, distinct attributes, content and an end tag of the same name with a closing bracket, or is closed as an empty one. |
| `XmlGrammar.ReadIsContent` | open_src/tinyxml/tinyxml/tinyxmlparser.cpp:1179-1247 | Content read without an error is texts in front of tags, and markup that is no end tag, up to an end tag. |
| `XmlGrammar.PiecesAreRead` | open_src/tinyxml/tinyxml/tinyxmlparser.cpp:1179-1247 | Content is read piece by piece, blank texts dropped. |
| `XmlGrammar.TextIsRead` | open_src/tinyxml/tinyxml/tinyxmlparser.cpp:1535-1545 | A text in front of a tag has the value of its characters: with the gap in front of it, or with white space condensed. |
| `XmlGrammar.ReadIsText` | open_src/tinyxml/tinyxml/tinyxmlparser.cpp:1535-1545 | Whatever is read as text in front of a tag is made of written characters. |
| `XmlGrammar.RunIsCondensed` | open_src/tinyxml/tinyxml/tinyxmlparser.cpp:594-634 | Condensing drops white space at the ends and leaves one blank for every stretch between. |
| `XmlGrammar.FieldIsRead` | open_src/tinyxml/tinyxml/tinyxmlparser.cpp:1392-1463 | An attribute with gaps around its equals sign is read as its name and value, in either kind of quotes or as a word. |
| `XmlGrammar.ReadIsField` | open_src/tinyxml/tinyxml/tinyxmlparser.cpp:1392-1463 | Whatever is read as an attribute is spelled like that. |
| `XmlGrammar.PartsAreRead` | open_src/tinyxml/tinyxml/tinyxmlparser.cpp:1594-1629 | The parts of a declaration are read up to its bracket: of the three names the last value counts, other words are passed over. |
| `XmlGrammar.ReadIsParts` | open_src/tinyxml/tinyxml/tinyxmlparser.cpp:1594-1629 | A declaration that is closed is made of such parts. |
| `XmlGrammar.PassedIsGap` | open_src/tinyxml/tinyxml/tinyxmlparser.cpp:314-362 | SkipWhiteSpace stops where neither white space nor, in UTF-8, a byte order mark stands. |
| `XmlConformance.DocumentIsRead` | open_src/tinyxml/tinyxml/tinyxmlparser.cpp:704-796 | Every text of a gap, markups with gaps behind them and a tail that is no tag is read without an error as the nodes of the markups, in the encoding that is known at each. |
| `XmlConformance.DocumentIsMarkup` | open_src/tinyxml/tinyxml/tinyxmlparser.cpp:704-796 | A text that is read without an error is of this form, but that it may end in a comment, section, declaration or unknown tag that is not closed; all elements have their end tags. |
| `XmlConformance.OpenIsRead` | open_src/tinyxml/tinyxml/tinyxmlparser.cpp:1275-1389 | A comment, section or unknown tag that is not closed is read to the end of the text without an error. |
| `XmlConformance.DeclaredIsAnnounced` | open_src/tinyxml/tinyxml/tinyxmlparser.cpp:764-776 | A declaration announces UTF-8 exactly with no encoding or one that starts with UTF-8 or UTF8 in either case. |
| `XmlConformance.StartIsRead` | open_src/tinyxml/tinyxml/tinyxmlparser.cpp:1043-1085 | A start tag is read up to where its attributes end, whatever stands there. |
| `XmlConformance.StartTagIsCutOff` | open_src/tinyxml/tinyxml/tinyxmlparser.cpp:1078-1085 | The error of a text that ends in a start tag. |
| `XmlConformance.NameIsCutOff` | open_src/tinyxml/tinyxml/tinyxmlparser.cpp:1067-1072 | The error of a text that ends in the name of an element. |
| `XmlConformance.SlashAlone` | open_src/tinyxml/tinyxml/tinyxmlparser.cpp:1086-1096 | The error of a slash without its bracket. |
| `XmlConformance.AttributeTwice` | open_src/tinyxml/tinyxml/tinyxmlparser.cpp:1157-1169 | The error of an attribute whose name the element has already. |
| `XmlConformance.NoAttribute` | open_src/tinyxml/tinyxml/tinyxmlparser.cpp:1141-1155 | What is no attribute with something behind it is an error of the attribute or the element. |
| `XmlConformance.ContentIsCutOff` | open_src/tinyxml/tinyxml/tinyxmlparser.cpp:1105-1110 | The error of a text that ends in the content. |
| `XmlConformance.OtherEndTag` | open_src/tinyxml/tinyxml/tinyxmlparser.cpp:1112-1136 | An element closed by anything but its own end tag leaves the error of the end tag. |
| `XmlConformance.ClosedByAnother` | open_src/tinyxml/tinyxml/tinyxmlparser.cpp:1132-1136 | The error of an element a that an end tag of b closes. |
| `XmlConformance.FirstErrorStays` | open_src/tinyxml/tinyxml/tinyxmlparser.cpp:798-815 | The error of anything inside an element is the error of the whole. |
| `XmlConformance.DocumentIsEmpty` | open_src/tinyxml/tinyxml/tinyxmlparser.cpp:788-792 | A text without any markup has the error of an empty document. |
| `XmlWellFormed.DocumentIsWellFormed` | open_src/tinyxml/tinyxml/tinyxmlparser.cpp:704-796 | Whatever the text, a document parsed without an error is not empty, and all its elements have proper names and unique, properly named attributes, and no text is blank. |
| `XmlWellFormed.NodeIsWellFormed` | open_src/tinyxml/tinyxml/tinyxmlparser.cpp:1043-1176 | The same for every node, whose parser also keeps the first error. |
| `XmlPrinter.Printer.DoIndent` | open_src/tinyxml/tinyxml/tinyxml.h:1785-1788 | The indentation is repeated once for every level. |
| `XmlPrinter.Printer.PrintAttribute` | open_src/tinyxml/tinyxml/tinyxml.cpp:1210-1233 | Name, equals sign and value, in single quotes if the value has a double quote. |
| `XmlPrinter.Printer.PrintAttributes` | open_src/tinyxml/tinyxml/tinyxml.cpp:1773-1777 | Each attribute behind a space, up to a blank one behind the first. |
| `XmlPrinter.Printer.VisitEnter` | open_src/tinyxml/tinyxml/tinyxml.cpp:1766-1800 | The start tag with the attributes that First and Next show; the flag is set exactly for a single text child. |
| `XmlPrinter.Printer.VisitExit` | open_src/tinyxml/tinyxml/tinyxml.cpp:1803-1826 | The end tag; level and flag are back. |
| `XmlPrinter.Printer.Accept` | open_src/tinyxml/tinyxml/tinyxml.cpp:875-886 | Exactly the printed form of the node is appended; level and flag are restored. |
| `XmlPrinter.Printer.AcceptAll` | open_src/tinyxml/tinyxml/tinyxml.cpp:1156-1167 | The children in order. |
| `XmlLayout.PrintIsOutline` | open_src/tinyxml/tinyxml/tinyxml.cpp:1766-1885 | The printed form is an outline of lines: a node without children or with a single text is one line, other elements have their tags on lines of their own and their children one level deeper. |
| `XmlLayout.IndentationIsRepeated` | open_src/tinyxml/tinyxml/tinyxml.h:1785-1788 | The indentation repeats its string once for every level. |
| `XmlRoundTrip.DocumentRoundTrip` | open_src/tinyxml/tinyxml/tinyxmlparser.cpp:704-796 | Parsing the printed form of every writable document rebuilds its tree without an error, in every encoding, also one that its declaration announces: condensing white space, in every layout of white space; keeping it, in every layout if each text is the only child of its element, and in the dense one for all texts that are not blank. |
| `XmlRoundTrip.NodeIsRead` | open_src/tinyxml/tinyxml/tinyxmlparser.cpp:1043-1176 | A printed element, comment, CDATA section, declaration or unknown tag followed by anything is identified and read back, and the pointer stands behind it. |
| `XmlRoundTrip.DeclarationIsRead` | open_src/tinyxml/tinyxml/tinyxmlparser.cpp:1572-1629 | A printed declaration is read back: empty values are not printed, the others without escapes. |
| `XmlRoundTrip.TextIsRead` | open_src/tinyxml/tinyxml/tinyxmlparser.cpp:1179-1212 | A printed text is read back in front of the next tag, without the white space around it when that is condensed. |
| `XmlRoundTrip.ChildrenAreRead` | open_src/tinyxml/tinyxml/tinyxmlparser.cpp:1179-1247 | The printed children of an element are read back up to its end tag, whatever white space surrounds them. |
| `XmlRoundTrip.AttributesAreRead` | open_src/tinyxml/tinyxml/tinyxmlparser.cpp:1076-1175 | The attributes of a printed start tag are read back in order. |
| `XmlRoundTrip.DocumentIsCStr` | open_src/tinyxml/tinyxml/tinyxml.cpp:1766-1885 | No NUL is printed, so the printer text is a whole C string. |
| `XmlRoundTrip.PrintAndParse` | open_src/tinyxml/tinyxml/tinyxml.h:1725-1737 | Printing, in stream mode or any other layout that suits the way the text is read, and then parsing gives a document with the same children and no error. |
| `XmlDom.Node.LinkEndChild` | open_src/tinyxml/tinyxml/tinyxml.cpp:186-211 | The pointers of all nodes stand for the old sequences with the node added at the end, whether its parent pointer was null or already this node; a document is deleted instead. |
| `XmlDom.Node.LinkLastAgain` | open_src/tinyxml/tinyxml/tinyxml.cpp:186-211 | Linking the last child once more, which the assertion lets pass, makes it its own neighbour. |
| `XmlDom.Node.InsertEndChild` | open_src/tinyxml/tinyxml/tinyxml.cpp:214-227 | The same with a clone. |
| `XmlDom.Node.InsertBeforeChild` | open_src/tinyxml/tinyxml/tinyxml.cpp:230-260 | The same with a clone inserted at the position of the given child; nothing changes if that is no child or the new node a document. |
| `XmlDom.Node.InsertAfterChild` | open_src/tinyxml/tinyxml/tinyxml.cpp:263-293 | The same one position later. |
| `XmlDom.Node.ReplaceChild` | open_src/tinyxml/tinyxml/tinyxml.cpp:296-332 | The clone stands at the position of the child, whose whole tree is deleted, each node once. |
| `XmlDom.Node.RemoveChild` | open_src/tinyxml/tinyxml/tinyxml.cpp:335-359 | The child leaves the sequence and its whole tree is deleted; nothing changes if it is no child. |
| `XmlDom.Node.Clear` | open_src/tinyxml/tinyxml/tinyxml.cpp:169-183 | The sequence is empty and everything below is deleted. |
| `XmlDom.Node.Delete` | open_src/tinyxml/tinyxml/tinyxml.cpp:147-158 | The destructor reaches every node below exactly once; the pointers it follows are read through functions that ask for a living node. |
| `XmlDom.Node.Clone` | open_src/tinyxml/tinyxml/tinyxml.cpp:889-897 | New nodes only, all of them below the clone; the old nodes are unchanged and the tree of the clone is the copy of the tree, the CDATA flag and the fields of declarations included. |
| `XmlDom.Node.CopyAttributes` | open_src/tinyxml/tinyxml/tinyxml.cpp:858-866 | The attributes that First and Next show are set one after the other. |
| `XmlDom.RelistedIsLinked` | open_src/tinyxml/tinyxml/tinyxml.cpp:186-359 | If one node gets a new list of children and only their pointers and its own change, first, last, prev, next and parent of every node stand for one sequence per node again. |
| `XmlDom.InsertedTrees` | open_src/tinyxml/tinyxml/tinyxml.cpp:186-293 | After an insertion the parent has one child tree more, at the position; every tree without the parent is as before. |
| `XmlDom.RemovedTrees` | open_src/tinyxml/tinyxml/tinyxml.cpp:335-359 | After a removal the parent has one child tree less; every tree with neither the parent nor the removed child is as before. |
| `XmlDom.ReplacedTrees` | open_src/tinyxml/tinyxml/tinyxml.cpp:296-332 | After a replacement the new tree stands where the old one stood. |
| `XmlDom.ClearedTree` | open_src/tinyxml/tinyxml/tinyxml.cpp:169-183 | After Clear the tree has no children. |
| `XmlDom.SiblingsAreDisjoint` | open_src/tinyxml/tinyxml/tinyxml.cpp:147-158 | The trees of two children have no node in common, so nothing is deleted twice. |
| `XmlDom.CopiedExactly` | open_src/tinyxml/tinyxml/tinyxml.cpp:853-897 | A copy equals the original exactly if no value or attribute has a NUL, attribute names are unique, none behind the first is blank, and only elements and documents have children. |
| `XmlDom.BlankIsNotCopied` | open_src/tinyxml/tinyxml/tinyxml.cpp:858-866 | Of the attributes set by SetAttribute("b", "2") and SetAttribute("", "") a clone has only the first. |
| `XmlAttributes.AttributeSet.Add` | open_src/tinyxml/tinyxml/tinyxml.cpp:1514-1527 | The ring gets the attribute at its end. |
| `XmlAttributes.AttributeSet.Remove` | open_src/tinyxml/tinyxml/tinyxml.cpp:1529-1545 | The attribute leaves the ring and its pointers are null; nothing happens if it is not in it. |
| `XmlAttributes.AttributeSet.Find` | open_src/tinyxml/tinyxml/tinyxml.cpp:1549-1557 | The attribute of that name, or null exactly if there is none. |
| `XmlAttributes.AttributeSet.FindOrCreate` | open_src/tinyxml/tinyxml/tinyxml.cpp:1559-1568 | The attribute of that name, new and last if there was none; any name, but the assertion of Add asks that no attribute is unnamed when a new one is made. |
| `XmlAttributes.AttributeSet.SetAttribute` | open_src/tinyxml/tinyxml/tinyxml.cpp:780-788 | The ring with unique names becomes the sequence with one attribute set, names still unique, the empty name included. |
| `XmlAttributes.WithAttributeIsMapUpdate` | open_src/tinyxml/tinyxml/tinyxml.cpp:780-788 | As a map: one name gets the value, all others keep theirs. |
| `XmlAttributes.AttributeSet.First` | open_src/tinyxml/tinyxml/tinyxml.h:912-913 | The first attribute, or null. |
| `XmlAttributes.AttributeSet.Last` | open_src/tinyxml/tinyxml/tinyxml.h:914-915 | The last attribute, or null. |
| `XmlAttributes.AttributeSet.Forward` | open_src/tinyxml/tinyxml/tinyxml.cpp:1170-1177 | First and Next show the attributes in order up to the first, after the very first, that has neither name nor value; with names that is all of them. |
| `XmlAttributes.AttributeSet.Backward` | open_src/tinyxml/tinyxml/tinyxml.cpp:1190-1197 | Last and Previous show the attributes in reverse up to the first, after the very last, that has neither name nor value; with names that is all of them. |
| `XmlAttributes.NamedAreSeen` | open_src/tinyxml/tinyxml/tinyxml.cpp:1170-1177 | All attributes are shown if and only if none behind the first is blank. |
| `XmlAttributes.HiddenAttribute` | open_src/tinyxml/tinyxml/tinyxml.cpp:1170-1197 | After SetAttribute("b", "2") and SetAttribute("", "") First and Next show one attribute, Last and Previous two. |
| `BatchAllocator.BatchInfo.constructor` | open_src/jsoncpp-src-0.6.0-rc2/source/src/lib_json/json_batchallocator.h:106-115 | The buffer has objectPerAllocation times the page size of objects, the end mark is at the page size. |
| `BatchAllocator.Allocator.Allocate` | open_src/jsoncpp-src-0.6.0-rc2/source/src/lib_json/json_batchallocator.h:58-82 | A block that is not live: the head of the free list if there is one, else a block never handed out before, which is the one the value model gives; it is inside its batch if the block size divides the page size. |
| `BatchAllocator.Allocator.NextBatch` | open_src/jsoncpp-src-0.6.0-rc2/source/src/lib_json/json_batchallocator.h:66-78 | Every batch behind the current one is full, so the search ends with a new batch at the head. |
| `BatchAllocator.Allocator.Cut` | open_src/jsoncpp-src-0.6.0-rc2/source/src/lib_json/json_batchallocator.h:79-81 | The block starts at used_ of the newest batch, which goes on by one block, past end_ too if it never meets it. |
| `BatchAllocator.Allocator.Release` | open_src/jsoncpp-src-0.6.0-rc2/source/src/lib_json/json_batchallocator.h:86-91 | The block becomes the head of the free list, which is threaded through exactly the released blocks, as in the value model; it must be inside its batch for the link to be written. |
| `BatchAllocator.Allocator.Store` | open_src/jsoncpp-src-0.6.0-rc2/source/src/lib_json/json_batchallocator.h:56-57 | What clients write into live blocks disturbs neither the free list nor anything else. |
| `BatchAllocator.Allocator.BlocksAreDisjoint` | open_src/jsoncpp-src-0.6.0-rc2/source/src/lib_json/json_batchallocator.h:79-81 | Two blocks of one batch do not overlap. |
| `BatchAllocator.Allocator.BlocksAreInside` | open_src/jsoncpp-src-0.6.0-rc2/source/src/lib_json/json_batchallocator.h:66-81 | If the block size divides the page size, every block handed out is inside the buffer of its batch. |
| `BatchAllocator.Allocator.InsideIsFits` | open_src/jsoncpp-src-0.6.0-rc2/source/src/lib_json/json_batchallocator.h:56-91 | A block of the class is inside its buffer exactly if it fits in the value model. |
| `BatchAllocator.RunStaysInStep` | open_src/jsoncpp-src-0.6.0-rc2/source/src/lib_json/json_batchallocator.h:56-91 | The same over every run of allocate and release of the value model that the class is proved to follow. |
| `BatchAllocator.CutForever` | open_src/jsoncpp-src-0.6.0-rc2/source/src/lib_json/json_batchallocator.h:66-81 | If it does not divide it, used_ never meets end_: allocation number m + 1 returns the objects from m * k on of one and the same batch, for every m. |
| `BatchAllocator.SafeExactly` | open_src/jsoncpp-src-0.6.0-rc2/source/src/lib_json/json_batchallocator.h:66-81 | No run of allocate and release has a live block outside its batch, if and only if objectPerAllocation divides the page size. |
| `BatchAllocator.PagesOfEight` | open_src/jsoncpp-src-0.6.0-rc2/source/src/lib_json/json_batchallocator.h:35-44 | With pages of eight values and the default page size of 255 the block of the 256th allocate starts behind the buffer. |
| `SyncQueue.StepKeepsInvariant` | source/SipSDK/sipsdk/dcg/inc/depend/CSyncQueue.h:71-138 | Every step of every thread keeps: popped events followed by the queue are the pushed events; only the thread that holds the monitor is inside; what it has tested still holds. |
| `SyncQueue.QueueIsFifo` | source/SipSDK/sipsdk/dcg/inc/depend/CSyncQueue.h:71-138 | Over all interleavings: first in first out, no loss and no duplicate, and the queue exceeds its maximal length at most by the number of pushes that went through after a wait. |
| `SyncQueue.PopFindsAnEvent` | source/SipSDK/sipsdk/dcg/inc/depend/CSyncQueue.h:77-101 | front and pop never run on an empty queue. |
| `SyncQueue.OneInside` | source/SipSDK/sipsdk/dcg/inc/depend/CSyncQueue.h:71-138 | Waiting gives the monitor up and takes it back: at most one thread is inside. |
| `SyncQueue.CodesAreRight` | source/SipSDK/sipsdk/dcg/inc/depend/CSyncQueue.h:71-138 | Over all interleavings: a pop that may wait never returns VOS_ERR_QUE_EMPTY and a push that may wait never VOS_ERR_QUE_LEN; without waiting these codes are right about the queue; a failed wait is returned as it is by a pop and as VOS_ERR_SYS by a push; VOS_OK goes with the event pushed or popped. |
| `SyncQueue.NoWaitIsBounded` | source/SipSDK/sipsdk/dcg/inc/depend/CSyncQueue.h:109-138 | If no push waits, the queue never exceeds its maximal length. |
| `SyncQueue.BoundedExactly` | source/SipSDK/sipsdk/dcg/inc/depend/CSyncQueue.h:71-138 | For every maximal length the queue stays within it in all runs, if and only if no push may wait. |
| `SyncQueue.BoundIsReached` | source/SipSDK/sipsdk/dcg/inc/depend/CSyncQueue.h:109-138 | The excess over the maximal length can be as large as any number of pushes that waited. |
| `SyncQueue.CapacityIsExceeded` | source/SipSDK/sipsdk/dcg/inc/depend/CSyncQueue.h:116-130 | For every positive maximal length, a run in which the queue exceeds it: a push that waited is overtaken by another and does not test again. |
| `Categories.HierarchyMaintainer.GetInstance` | open_src/log4cpp-1.1.1/log4cpp/src/HierarchyMaintainer.cpp:61-82 | The category of the name; old entries are the same objects, new ones are exactly those of the missing ancestors, and the map stays closed under parent names. |
| `Categories.HierarchyMaintainer.Create` | open_src/log4cpp-1.1.1/log4cpp/src/HierarchyMaintainer.cpp:65-80 | The recursion ends on the length of the name; new categories have no priority of their own but for the root, which has INFO. |
| `Categories.ClosedUnderParents` | open_src/log4cpp-1.1.1/log4cpp/src/HierarchyMaintainer.cpp:69-77 | With a name all names of its ancestry are in the map. |
| `Categories.ChainIsAncestry` | open_src/log4cpp-1.1.1/log4cpp/src/HierarchyMaintainer.cpp:69-77 | The chain of parents of a category is made of the categories of its ancestry, and ends at the root. |
| `Categories.HierarchyMaintainer.SetPriority` | open_src/log4cpp-1.1.1/log4cpp/src/Category.cpp:71-81 | Setting a priority anywhere in the hierarchy keeps the root below NOTSET; only the root refuses. |
| `Categories.Category.SetPriority` | open_src/log4cpp-1.1.1/log4cpp/src/Category.cpp:71-81 | The priority is set unless the root would get NOTSET or more. |
| `Categories.HierarchyMaintainer.GetChainedPriority` | open_src/log4cpp-1.1.1/log4cpp/src/Category.cpp:83-92 | In every hierarchy the walk ends, with the priority of the nearest ancestor that has one. |
| `Categories.Category.GetChainedPriority` | open_src/log4cpp-1.1.1/log4cpp/src/Category.cpp:83-92 | The same for any chain whose last category has a priority. |
| `Categories.Category.CallAppenders` | open_src/log4cpp-1.1.1/log4cpp/src/Category.cpp:220-233 | Every appender gets the event as often as it is attached to a category from here up to the first that is not additive. |
| `Categories.ReachedExactly` | open_src/log4cpp-1.1.1/log4cpp/src/Category.cpp:220-233 | An appender is reached exactly if it is attached to a category of the chain that only additive ones precede. |
| `Categories.Category.AddAppender` | open_src/log4cpp-1.1.1/log4cpp/src/Category.cpp:94-120 | The first addition decides about ownership; later ones change nothing; a null pointer to own is refused. |
| `Categories.Category.RemoveAppender` | open_src/log4cpp-1.1.1/log4cpp/src/Category.cpp:168-183 | The appender is detached, and deleted exactly if it was attached and owned. |
| `Categories.Category.RemoveAllAppenders` | open_src/log4cpp-1.1.1/log4cpp/src/Category.cpp:151-166 | Exactly the owned appenders are deleted. |
| `Syslog.Append` | open_src/log4cpp-1.1.1/log4cpp/src/RemoteSyslogAppender.cpp:135-164 | The in-place loop ends, stays inside the buffer and sends exactly the packets of the specification; a reader of the PRI part finds facility plus severity in every one, and the contents behind it are the message; nothing is sent for an empty message. |
| `Syslog.PacketsCarryTheMessage` | open_src/log4cpp-1.1.1/log4cpp/src/RemoteSyslogAppender.cpp:149-161 | Every packet starts with the preamble, carries something and has at most 900 bytes, below the 1024 of section 4.1 of RFC 3164, and the payloads in order are the message. |
| `Syslog.OnlyTheLastIsShort` | open_src/log4cpp-1.1.1/log4cpp/src/RemoteSyslogAppender.cpp:152-154 | All packets but the last have 900 bytes. |
| `Syslog.PacketsArePri` | open_src/log4cpp-1.1.1/log4cpp/src/RemoteSyslogAppender.cpp:139-161 | Every packet starts with a PRI part by section 4.1.1 of RFC 3164, a number between angle brackets without a superfluous zero, which is the priority; what stands behind these parts is the message. |
| `Syslog.ToSyslogPriority` | open_src/log4cpp-1.1.1/log4cpp/src/RemoteSyslogAppender.cpp:36-54 | The severity is the last one from 0 to 7 whose hundred the priority plus one has reached. |

## Left out

- JSON comments: they are scanned and skipped, but not attached to values, and the writers do not
  write any.
- JSON error positions and the second location of an error; an error is its message and token.
- JsonText.Doubles: doubles are `real` numbers, without NaN and infinities; how `sprintf` and
  `sscanf` treat them is a parameter.
- JsonOrder.StrictTotalOrder: NaN, which is neither less than nor equal to anything, is no `real`.
- JsonOrder.EqualIsIdentity: NaN, which is not equal to itself, is no `real`.
- JsonOrder.LessTotal: NaN is no `real`.
- Sparse arrays, `resize`, `removeMember`, `Path`, `ValueInternalMap` and `ValueInternalArray`.
- JsonReader.Reader: `nodes_` is a stack of values that are written back to their parents when they
  are popped, not of pointers into the tree; the depth of the call stack is unbounded.
- JsonGrammar.IsJsonText: characters are bytes from U+0020 on; that texts are valid UTF-8 is not part
  of the grammar. That the C library prints and scans doubles as numbers of the grammar is assumed of
  the parameter, in `PrintsNumerals` and `Scans`.
- JsonStyledWriter.StyledWriter.IsMultilineArray: sizes are unbounded, so `size * 3` does not wrap.
- Utf8.ConvertUtf32ToUtf8: masks and shifts are written as quotients and remainders.
- XmlBase.GetChar: a UTF-8 sequence that the end of the text cuts off is read up to the end; the
  source steps over the final NUL.
- XmlBase.GetEntity: the sum of a character reference is unbounded where `unsigned long` has 64 bits.
- Row and column reporting of TinyXML: tab size 0.
- XmlDocument.Document.Parse: a node under construction is a value that is linked when its parser
  returns; the pointers of the DOM are the subject of `XmlDom`.
- XmlRoundTrip.DocumentRoundTrip: values of declarations have no quotes and ampersands, since they are
  printed without escapes.
- `StreamIn`, loading and saving of XML files, `Print` to a file.
- XmlDom.Node: `userData` and the error that a document reports when it is inserted as a child are not
  modelled; deletion is a mark on the node.
- XmlDom.Node.LinkEndChild: a node that is in a list of children already is outside the contract. The
  assertion of the source lets a child of this very node pass, but linking it again breaks the list
  (`LinkLastAgain`).
- XmlDocument.Document.ParseComment: called with nothing but white space left, the source fails the
  assertion of `StringEqual` first; `ParseNode` never does that.
- XmlDocument.Document.ParseCdata: the same at the end of the text.
- XmlDom.Node.CopyAttributes: the attributes of a node are the sequence that the ring of `XmlAttributes`
  stands for. That `Add` asserts no unnamed attribute to be there is part of the ring only; without
  assertions an attribute is set behind an unnamed one as behind any other.
- BatchAllocator.BatchInfo.constructor: the buffer is a sequence that is updated, not raw memory; a
  link takes the first object of a block.
- SyncQueue.QueueIsFifo: liveness is not stated; a wait may return at any time, which covers lost,
  late and spurious notifications. Failing mutex calls of the Windows variant are not modelled.
- Categories: the locks, the configurators, the layouts and the appenders behind `doAppend`.
- Categories.Category.CallAppenders: the order in which the appenders of one category are called is
  not stated.
- Syslog.Append: the socket is the sequence of packets sent.
- The SIP headers, of which only declarations are here, and the operating system wrappers.
- JsonFaults.ReportedExactly: what is left in the root after a failed parse is not stated apart from the
  parser; of recovery, that it drops the tokens up to the right one (`RecoverExactly`).
- XmlConformance.DocumentIsMarkup: of a declaration that is not closed, only that it is one is stated.
- XmlConformance.NoAttribute: which of the two errors an attribute leaves is not stated apart from the
  parser.
