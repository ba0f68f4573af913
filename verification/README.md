# CanMonitor in Dafny

A model of the data-handling core of CanMonitor, with proofs. It has four parts.

**The JSON library** (`parson.c`). Text is a sequence of bytes whose end is the terminating NUL. `JsonParser` and
`JsonPrinter` say what the parser accepts and what the serializer appends; `JsonReader` and `JsonWriter` are the code that
does it, a cursor over the text and a position in a buffer, and every method there is tied to its function. What these
functions come to is said apart from them: `LiteralGrammar` and `JsonGrammar` are grammars in bytes, and the parser reads
exactly their texts; `CompactText` is the compact text in bytes, and `JsonLayout` says byte by byte how the pretty one
differs from it. `RoundTrip` puts them together: a tree is printed and parsed back unchanged exactly if it is storable.
strtod and `sprintf("%1.17g")` are parameters with one promise, that a printed number is read back; `IntegerNumbers` meets
it for whole numbers up to 2^53. `ObjectStore` and `ArrayStore` are the growable containers, with their arrays and capacities.
`JsonEquality`, `JsonPaths` and `JsonTree` are comparison, deep copy and dotted paths, the last over nodes on the heap that
own one another; a node keeps its children in sequences, and both the containers and the nodes are specified by the same
functions `Added`, `Assigned` and `Removed` of `ObjectStore`.

**The token scanner** (`json.c`). `TokenSpec` is one lexeme at a time, `TokenScanner` is the parser state and token array
changed in place, and `TokenRuns` is what holds of every run. `TokenLexemes` and `TokenRounds` spell in bytes what a lexeme
is, what one round does with it, and what a size counts. `TokenTexts` puts the two JSON readers side by side: a text that
`parson.c` reads is split by `json.c` into the tokens of the value read.

**The registry** (`sensor.c`, `sensorgroup.c`, the hash tables). `HashTable` is the chained table against a finite map; one
generic class serves sensors and groups. `RegistrySpec` is the state machine of the REST handlers, `RegistryRuns` says which
requests keep every listed id stored, and `Registry` is the handlers over the two tables. `StoredSensors` says what stands
under the ids, field by field, after every request and frame.

**The bit-field extractor** (`mask_can_frame`). `BitField` has 64-bit words as natural numbers with explicit wrap-around and
shifts as doubling and halving.

`Spellings` has the elementary steps of the other modules in positions and literals.

`dafny verify dfyconfig.toml` checks everything.

## Where the code is not what it seems

- "Every id a group lists is a stored sensor" is read without a check by `mqtt_payload_helpers.c:112-118` and
  `sensorgroup.c:256-261`, and it is not an invariant of the handlers. `RegistryRuns.StepClosedIff` gives the exact
  condition for each request, in terms of the tables and the request, and three lemmas give requests that break it.
- `update_sensors_configuration` does not leave the groups alone: it takes the first occurrence of the id out of every
  list and never puts it back. The lists stay as they are exactly if none held the id, and are rid of it exactly if none
  repeated it (`RegistryRuns.UpdateListsExactly`, `RegistryRuns.UpdatePurgesLists`).
- The comment on `node_handler_sensors` promises that a put on a present key replaces the sensor; the code also frees the
  sensor it has just stored (`HashTable.HashTable.Put` says which values are freed). The handlers only put absent keys.
- `json_value_equals` compares numbers up to 0.000001, so it is not transitive on fractions
  (`JsonEquality.NearnessDoesNotChain`); `JsonEquality.EqualIsTransitiveExactlyIf` says on which trees it is.
- The counting pass of `iot_json_parse` does not look at brackets (`TokenRuns.CountingIgnoresBrackets`), so its count
  predicts a run only of balanced texts (`TokenRuns.CountingPass`).
- `parson.c` skips vertical tabs and form feeds between values and `json.c` refuses them, which is why
  `TokenTexts.ParsedTextIsTokenized` asks for texts without them.
- Where strtod reads a sign without a digit as zero and leaves errno at 0, which C permits and does not require, such a sign
  is the number zero and consumes nothing (`JsonParser.LoneSignIsZero`).

## Model

| member | source | states |
|---|---|---|
| `Utf8.IsValidUtf8` | src/CanMonitor/common/parson.c:283-296 | accepts a NUL-free byte string exactly when it is a concatenation of encodings of Unicode scalar values (sections 3 and 4 of RFC 3629) |
| `Utf8.VerifyAcceptsEncoded` | src/CanMonitor/common/parson.c:228-281 | wherever the encoding of a scalar value stands, the sequence check accepts it with its length and reads that scalar from it |
| `Utf8.VerifiedIsEncoded` | src/CanMonitor/common/parson.c:228-281 | what the sequence check accepts is the encoding of a scalar value: no overlong form, surrogate or value above 0x10FFFF |
| `StringLiteral.DecodeStaysInside` | src/CanMonitor/common/parson.c:738-819 | decoding between delimited quotes consumes exactly up to the closing quote and writes no more bytes than it reads |
| `StringLiteral.DecodeKeepsUtf8` | src/CanMonitor/common/parson.c:677-819 | if the raw bytes between the quotes are well-formed UTF-8, the decoded bytes are too |
| `StringLiteral.DecodedScalar` | src/CanMonitor/common/parson.c:677-736 | an accepted escape writes the encoding of its code unit, or of the code point of its surrogate pair (section 7 of RFC 8259) |
| `StringLiteral.LiteralFailsExactlyIf` | src/CanMonitor/common/parson.c:738-832 | a string literal fails if and only if it does not open, does not close, or decoding comes to a control character, an unknown escape or a malformed unicode escape before the closing quote |
| `StringLiteral.EscapeIsMalformedExactlyIf` | src/CanMonitor/common/parson.c:677-736 | a unicode escape is malformed if and only if it has no four hexadecimal digits or is a surrogate that is not the lead of a complete pair |
| `StringLiteral.LoneSurrogateIsRejected` | src/CanMonitor/common/parson.c:706-729 | so a literal fails that has such a surrogate anywhere decoding comes to |
| `StringLiteral.EscapeUnitIsSkipped` | src/CanMonitor/common/parson.c:650-675 | a decoded escape holds no quote: the quote scan passes over it as a whole |
| `StringLiteral.EscapedIsDecoded` | src/CanMonitor/common/parson.c:1255-1386 | the quote scan stops right after an escaped NUL-free string, whatever follows, and decoding gives the string back |
| `StringLiteral.QuotedRoundTrip` | src/CanMonitor/common/parson.c:821-832 | reading a printed string literal gives the string and the position right after its closing quote, whatever follows |
| `LiteralGrammar.DigitExactlyIf` | src/CanMonitor/common/parson.c:167-182 | a byte is read as the digit d exactly if it is the d-th character of 0123456789abcdef or of 0123456789ABCDEF |
| `LiteralGrammar.Hex4ExactlyIf` | src/CanMonitor/common/parson.c:184-201 | a code unit is read exactly where four digits, each in either case, spell it in base 16 |
| `LiteralGrammar.EncodeSpelled` | src/CanMonitor/common/parson.c:677-736 | the encoding bit by bit: the marks 110, 1110 and 11110, and six bits of the code point in each byte after the first (section 3 of RFC 3629) |
| `LiteralGrammar.QuotedExactlyIf` | src/CanMonitor/common/parson.c:650-832 | a literal is read as a string, up to a position, if and only if one that stands for that string ends there in a grammar of literals written in bytes (section 7 of RFC 8259): plain bytes, the eight short escapes, single code units and surrogate pairs |
| `JsonReader.ParseUtf16` | src/CanMonitor/common/parson.c:677-736 | in place: the output array receives the bytes of the code point from the output position on and nothing before it changes; failure exactly where the escape is malformed |
| `JsonReader.ProcessEscape` | src/CanMonitor/common/parson.c:752-790 | one escape is decoded into the output without outrunning the input, and what has been decoded plus what is left is still the whole outcome |
| `JsonReader.ProcessString` | src/CanMonitor/common/parson.c:738-819 | the output buffer of len+1 bytes is never overrun; the result is the decoded bytes and a terminator, or NULL exactly for a malformed literal |
| `JsonReader.Cursor.SkipWhitespaces` | src/CanMonitor/common/parson.c:51-55 | the cursor stops at the first byte that is not white space |
| `JsonReader.Cursor.SkipQuotes` | src/CanMonitor/common/parson.c:650-675 | succeeds exactly if a closing quote is found before the terminator, and then stands right after it |
| `JsonReader.Cursor.GetQuotedString` | src/CanMonitor/common/parson.c:821-832 | value, failure and final position of a string literal; strings are read up to their first NUL |
| `JsonReader.Cursor.Parse` | src/CanMonitor/common/parson.c:834-869 | terminates on every text, never moves back or past the terminator, and its value, failure and final position are those of the parser function |
| `JsonReader.Cursor.ParseArrayValue` | src/CanMonitor/common/parson.c:944-997 | the same for arrays, whose items are collected in a growing container |
| `JsonReader.Cursor.ReadItems` | src/CanMonitor/common/parson.c:966-997 | the array loop progresses by its commas even where a number consumes nothing, and trims the container to its contents |
| `JsonReader.Cursor.ParseObjectValue` | src/CanMonitor/common/parson.c:871-942 | the same for objects; a repeated name fails |
| `JsonReader.Cursor.ReadEntries` | src/CanMonitor/common/parson.c:894-942 | the object loop adds each new name once, in order, and fails on a name that is there already |
| `JsonReader.Cursor.ParseNumberValue` | src/CanMonitor/common/parson.c:1033-1045 | a number is what strtod reads, provided there was no range error and the literal is decimal |
| `JsonReader.Cursor.ParseBooleanValue` | src/CanMonitor/common/parson.c:1016-1031 | true and false, compared byte by byte, with the cursor after them |
| `JsonReader.Cursor.ParseNullValue` | src/CanMonitor/common/parson.c:1047-1056 | null, with the cursor after it |
| `JsonReader.ParseJson` | src/CanMonitor/common/parson.c:1438-1449 | parsing a whole text, after a byte order mark if there is one |
| `JsonParser.ParseValue` | src/CanMonitor/common/parson.c:834-869 | the mutually recursive parser is total: it never moves back or past the terminator |
| `JsonParser.ParsedValueIsStorable` | src/CanMonitor/common/parson.c:834-1056 | every tree the parser returns has NUL-free strings, distinct names in each object and at most 2048 levels below its root |
| `JsonParser.ParsedEntriesAreStorable` | src/CanMonitor/common/parson.c:871-942 | the object loop keeps names distinct and NUL-free and values within the nesting limit |
| `Text.Matches` | src/CanMonitor/common/parson.c:1016-1056 | the byte-by-byte comparison with a token holds exactly if the token stands there |
| `JsonGrammar.TokensAreRead` | src/CanMonitor/common/parson.c:1016-1056 | null, true and false are recognised exactly where their bytes stand |
| `JsonGrammar.GapIsSkipped` | src/CanMonitor/common/parson.c:51-55 | white space is skipped exactly over the bytes 9 to 13 and 32 |
| `JsonGrammar.DecimalSpelled` | src/CanMonitor/common/parson.c:298-316 | a literal is decimal exactly if no x, X or NUL is in it and a leading 0, or a 0 after a leading -, stands alone or has a point behind it |
| `JsonGrammar.ValueExactlyIf` | src/CanMonitor/common/parson.c:834-1056 | parse_value reads a value up to a position if and only if the text derives that value there in a grammar written in bytes, apart from the parser, with at most 2048 levels |
| `JsonGrammar.TextExactlyIf` | src/CanMonitor/common/parson.c:1438-1449 | json_parse_string gives a value if and only if the text, after the bytes EF BB BF if they are there, starts with what derives it |
| `JsonWriter.AppendString` | src/CanMonitor/common/parson.c:1399-1406 | writes the piece and a terminator, counts it, and touches nothing before it or beyond the terminator; without a buffer it only counts |
| `JsonWriter.AppendIndent` | src/CanMonitor/common/parson.c:1388-1397 | writes four spaces a level |
| `JsonWriter.SerializeString` | src/CanMonitor/common/parson.c:1255-1386 | writes the quoted and escaped string; the count is the same with and without a buffer |
| `JsonWriter.SerializeValue` | src/CanMonitor/common/parson.c:1089-1253 | with a buffer exactly the printed form stands where writing began and nothing beyond the terminator has changed; the count returned is its length with and without a buffer |
| `JsonWriter.SerializeArray` | src/CanMonitor/common/parson.c:1101-1140 | the same for the loop over items, with separators and indentation |
| `JsonWriter.SerializeObject` | src/CanMonitor/common/parson.c:1141-1200 | the same for the loop over names, whose values are looked up by name |
| `JsonWriter.SerializationSize` | src/CanMonitor/common/parson.c:1888-1893 | the measuring pass returns the length of the text plus one for the terminator |
| `JsonWriter.SerializeToBuffer` | src/CanMonitor/common/parson.c:1895-1909 | fails and writes nothing if the buffer is too small; otherwise the text, a NUL at size-1, and every later byte unchanged |
| `JsonWriter.SerializeToString` | src/CanMonitor/common/parson.c:1938-1959 | the allocated buffer is filled exactly by the text and its terminator |
| `CompactText.TokensPrinted` | src/CanMonitor/common/parson.c:1218-1250 | null, true and false are printed as just their bytes, compact or pretty |
| `CompactText.QuotedIsSpelled` | src/CanMonitor/common/parson.c:1255-1386 | a string is printed between quotes, each byte as itself, as one of seven short escapes or as \u00 and two lower-case digits |
| `CompactText.ValuePrinted` | src/CanMonitor/common/parson.c:1089-1253 | the compact text of any value is the text that a reference in bytes gives: a comma between two items and nothing else, a colon after each name and nothing else |
| `CompactText.ArrayLength` | src/CanMonitor/common/parson.c:1101-1140 | the length of the compact text of an array: two brackets, its items, and a comma less than items |
| `CompactText.ObjectLength` | src/CanMonitor/common/parson.c:1141-1200 | of an object: two braces, the literals of its names, its values, a colon for each and a comma less |
| `JsonLayout.CompactHasNoLayout` | src/CanMonitor/common/parson.c:1089-1253 | no white space of a compact text stands outside a string literal, given that printed numbers have none |
| `JsonLayout.PrettyIsLaidOut` | src/CanMonitor/common/parson.c:1101-1200 | the pretty text is the compact text laid out byte by byte: a new line with four spaces a level after each opening bracket and comma and before each closing bracket, nothing between empty brackets, a space after each colon, and literals untouched |
| `JsonLayout.PrettyStripsToCompact` | src/CanMonitor/common/parson.c:1089-1253 | the pretty text without the white space outside its literals is the compact text |
| `JsonLayout.StripUndoesLay` | src/CanMonitor/common/parson.c:1101-1200 | laying out adds white space outside literals and nothing else, to any text |
| `RoundTrip.ValueRoundTrip` | src/CanMonitor/common/parson.c:1089-1253 | printed at any depth, in either style, and followed by nothing that lengthens a number, a value is parsed as itself and the cursor stops right after it |
| `RoundTrip.ItemsRoundTrip` | src/CanMonitor/common/parson.c:944-997 | the array loop over the printed items gives the items in order and stops after the bracket |
| `RoundTrip.EntriesRoundTrip` | src/CanMonitor/common/parson.c:871-942 | the object loop over the printed entries gives the entries in order, although the printer looked the values up by name |
| `RoundTrip.PrintedIsCString` | src/CanMonitor/common/parson.c:1089-1253 | printed text holds no NUL |
| `RoundTrip.PrintThenParse` | src/CanMonitor/common/parson.c:1438-1449 | json_parse_string of the compact or pretty text of a tree is that tree, in the same key order, with the cursor at the end |
| `RoundTrip.ParsePrintParse` | src/CanMonitor/common/parson.c:834-1056 | whatever text was parsed, printing the tree and parsing again gives the same tree |
| `RoundTrip.RoundTripExactlyIfStorable` | src/CanMonitor/common/parson.c:834-1253 | a tree survives printing and parsing if and only if its strings are NUL-free, its names distinct and its depth at most 2048 |
| `RoundTrip.PrintIsInjective` | src/CanMonitor/common/parson.c:1089-1253 | two storable trees that print alike, in whichever styles, are the same tree |
| `IntegerNumbers.WholeNumbersReadBack` | src/CanMonitor/common/parson.c:298-316 | whole numbers up to 2^53 are printed as decimal literals that are read back in full before any byte that can follow them |
| `Spellings.WholeNumberSpelled` | src/CanMonitor/common/parson.c:1227-1239 | a whole number is printed in base 10, with a sign if it is negative |
| `Spellings.WholeNumbersArePlain` | src/CanMonitor/common/parson.c:1227-1239 | printed whole numbers have no layout and no quotes in them |
| `IntegerNumbers.WholeTreeRoundTrip` | src/CanMonitor/common/parson.c:1033-1045 | the round trip of trees with whole numbers, in both styles, with nothing left to the C library: exactly the storable ones survive |
| `IntegerNumbers.ParsedValueIsWhole` | src/CanMonitor/common/parson.c:1033-1045 | every tree parsed from a text with whole numbers has whole numbers only |
| `IntegerNumbers.WholeParsePrintParse` | src/CanMonitor/common/parson.c:834-1253 | whatever text was parsed with whole numbers, printing the tree and parsing again gives the same tree, with nothing left to the C library |
| `JsonParser.NothingConsumedExactlyIf` | src/CanMonitor/common/parson.c:1033-1045 | a number leaves the cursor where it was if and only if strtod consumes nothing, reports no error and gives a finite number |
| `JsonParser.LoneSignIsZero` | src/CanMonitor/common/parson.c:1033-1045 | with a C library that reads a sign without a digit as zero and sets no error, such a text is accepted as zero and nothing is consumed: progress cannot rest on the value |
| `JsonParser.LoneSignInArrayFails` | src/CanMonitor/common/parson.c:966-997 | inside an array such a sign makes the array fail, for want of a comma or a bracket |
| `ObjectStore.JsonObject.Get` | src/CanMonitor/common/parson.c:493-509 | the value under the first matching name |
| `ObjectStore.JsonObject.Add` | src/CanMonitor/common/parson.c:427-456 | appends a new name, doubling the capacity when full; a present name fails and changes nothing |
| `ObjectStore.JsonObject.Resize` | src/CanMonitor/common/parson.c:458-491 | keeps all entries in new arrays of the given capacity; zero fails |
| `ObjectStore.JsonObject.Set` | src/CanMonitor/common/parson.c:2209-2233 | overwrites the value of a present name in place, adds a new one, and refuses a value that has a parent |
| `ObjectStore.JsonObject.Remove` | src/CanMonitor/common/parson.c:511-538 | the last pair takes the place of the removed one; an unknown name fails and changes nothing |
| `Spellings.AssignedByPosition` | src/CanMonitor/common/parson.c:2209-2233 | a set changes the value of the first entry of that name in its place, or puts a new entry behind all others |
| `Spellings.RemovedByPosition` | src/CanMonitor/common/parson.c:511-538 | a removal puts the last entry in the place of the removed one and moves no other |
| `Spellings.GrownExactly` | src/CanMonitor/common/parson.c:438-447 | a full container of at most 8 places grows to 16, a larger one to twice its places |
| `ObjectStore.JsonObject.Clear` | src/CanMonitor/common/parson.c:2375-2389 | no entry is left, the capacity stays |
| `ObjectStore.StepRefinesMap` | src/CanMonitor/common/parson.c:427-538 | each operation acts on the pairs as it does on a finite map, and names stay distinct |
| `ObjectStore.RunRefinesMap` | src/CanMonitor/common/parson.c:427-538 | so does any sequence of add, set, swap-remove, clear and resize |
| `ArrayStore.JsonArray.Add` | src/CanMonitor/common/parson.c:586-600 | appends in place, doubling the capacity when full and only then |
| `ArrayStore.JsonArray.Remove` | src/CanMonitor/common/parson.c:2039-2051 | the later items move one place down |
| `JsonEquality.EqualIsMapEquality` | src/CanMonitor/common/parson.c:2468-2540 | although only one side is scanned, json_value_equals is order-insensitive map equality at every level: the same names bound to equal values |
| `Spellings.ScalarsEqualExactly` | src/CanMonitor/common/parson.c:2468-2540 | values that are no containers are equal exactly if they have one type and the same bytes or truth value, or are numbers less than 0.000001 apart |
| `JsonEquality.SameNames` | src/CanMonitor/common/parson.c:2502-2519 | the counting argument: as many names, and each of one side found on the other, are the same names |
| `JsonEquality.EqualIsSymmetric` | src/CanMonitor/common/parson.c:2468-2540 | the arguments can be exchanged |
| `JsonEquality.EqualIsReflexive` | src/CanMonitor/common/parson.c:2468-2540 | every stored tree equals itself |
| `JsonEquality.EqualIsTransitiveExactlyIf` | src/CanMonitor/common/parson.c:2468-2540 | for any set of numbers: equality is transitive on the stored trees with these numbers if and only if being less than a millionth apart is transitive on the numbers |
| `JsonEquality.EqualIsTransitive` | src/CanMonitor/common/parson.c:2468-2540 | so with whole numbers equality is transitive |
| `JsonEquality.NearnessDoesNotChain` | src/CanMonitor/common/parson.c:2531-2532 | and with these three fractions it is not |
| `JsonEquality.EqualWholeIsExact` | src/CanMonitor/common/parson.c:2468-2540 | with whole numbers json_value_equals is order-insensitive map equality at every level, with equal numbers |
| `JsonTree.Node.Equals` | src/CanMonitor/common/parson.c:2468-2540 | the comparison of two trees of nodes, with its loops and lookups, decides that equality |
| `JsonTree.Node.DeepCopy` | src/CanMonitor/common/parson.c:1796-1886 | a new tree that shares no node with the original, has no parent, and stands for the same tree, so that it equals it and prints the same text |
| `JsonTree.Node.AddEntry` | src/CanMonitor/common/parson.c:427-456 | a child joins an object under a new name and gets it as its parent; a present name changes nothing |
| `JsonTree.Node.AddItem` | src/CanMonitor/common/parson.c:586-600 | a child joins an array at its end |
| `JsonTree.Node.SetValue` | src/CanMonitor/common/parson.c:2209-2233 | a child joins an object or replaces the one under its name, and has the object as its parent; a value with a parent, wherever it is, is refused and nothing changes |
| `JsonTree.Node.Remove` | src/CanMonitor/common/parson.c:511-538 | swap-remove of a child |
| `JsonTree.Node.NodeAtStands` | src/CanMonitor/common/parson.c:1504-1513 | the node that a path leads to, child by child, is in the tree and stands for the value at the path; there is none exactly if there is no such value |
| `JsonTree.Node.DotGet` | src/CanMonitor/common/parson.c:1504-1513 | the result is the node the path leads to: it stands for the value there, and is NULL exactly if there is none |
| `JsonTree.Node.DotSet` | src/CanMonitor/common/parson.c:2255-2303 | on success the tree is the one with the value set at the path, missing objects made, and the path leads to the value's own node, which has got a parent; a value with a parent, be it in the same tree, fails; on failure no node of the tree and no field of the value has changed |
| `JsonTree.Node.DotRemove` | src/CanMonitor/common/parson.c:540-556 | on success the tree without the value at the path, otherwise the same tree |
| `JsonPaths.SplitJoined` | src/CanMonitor/common/parson.c:1504-1513 | the segments of two paths joined by a dot are the segments of the one and then of the other |
| `Spellings.SplitExactlyIf` | src/CanMonitor/common/parson.c:1504-1513 | a path is split into segments exactly if none of them has the byte 46 in it and they are the path with that byte between them |
| `JsonPaths.LeadsIsJoin` | src/CanMonitor/common/parson.c:1504-1513 | one path continues another exactly if it is that path, a dot and a rest |
| `JsonPaths.GetAfterSet` | src/CanMonitor/common/parson.c:2255-2303 | after a successful set the value is found at its path |
| `JsonPaths.GetElsewhereAfterSet` | src/CanMonitor/common/parson.c:2255-2303 | every path that is neither a segment-prefix nor a continuation of it finds what it found before |
| `JsonPaths.GetOnTheWay` | src/CanMonitor/common/parson.c:2255-2303 | at every prefix stands an object in which the rest of the path has been set |
| `JsonPaths.GetThroughSet` | src/CanMonitor/common/parson.c:2255-2303 | at every continuation stands what is inside the set value |
| `JsonPaths.SetFailsExactlyIfBlocked` | src/CanMonitor/common/parson.c:2255-2303 | setting fails if and only if the value has a parent or a non-object stands on the way |
| `JsonPaths.RemoveSucceedsExactlyIfFound` | src/CanMonitor/common/parson.c:540-556 | removing succeeds if and only if something is found at the path |
| `JsonPaths.GetAfterRemove` | src/CanMonitor/common/parson.c:540-556 | after removing nothing is found at the path |
| `JsonPaths.GetElsewhereAfterRemove` | src/CanMonitor/common/parson.c:540-556 | unrelated paths find what they found before |
| `JsonPaths.RemoveUndoesSet` | src/CanMonitor/common/parson.c:2255-2303 | removing what was set where nothing stood, in an object that was there, restores the entries and their order |
| `TokenScanner.Parser.constructor` | src/CanMonitor/common/json.c:350-355 | a fresh parser: position 0, no token, no superior token |
| `TokenScanner.Parser.AllocToken` | src/CanMonitor/common/json.c:17-27 | the next token if there is room, with start and end unset, and every other place of the array unchanged; otherwise nothing changes |
| `TokenScanner.Parser.ParsePrimitive` | src/CanMonitor/common/json.c:43-94 | accepts, rejects or runs out of room as the text says, with one token added or nothing changed |
| `TokenScanner.Parser.ParseString` | src/CanMonitor/common/json.c:99-170 | the same for strings with their escapes |
| `TokenScanner.Parser.FindOpen` | src/CanMonitor/common/json.c:218-245 | the backward loop finds the last token whose end is unset |
| `TokenScanner.Parser.Open` | src/CanMonitor/common/json.c:190-209 | an opening bracket: one token more, counted under the superior one, which it becomes; nothing changes without room |
| `TokenScanner.Parser.Close` | src/CanMonitor/common/json.c:210-246 | a closing bracket closes the last open token if the types match, and the one around it becomes superior |
| `TokenScanner.Parser.Round` | src/CanMonitor/common/json.c:182-328 | one round of the main loop on the token array does what the step function says |
| `TokenScanner.Parser.Parse` | src/CanMonitor/common/json.c:175-344 | return value, position, tokens and superior token of a whole call are those of the run; without a token array the call counts |
| `TokenRuns.SuccessfulSpans` | src/CanMonitor/common/json.c:182-344 | after a successful run from a fresh parser every token is closed and lies between its own delimiters, starts strictly increase, any two spans are nested or disjoint, and the code is the number of tokens |
| `TokenRuns.StepKeepsSound` | src/CanMonitor/common/json.c:182-328 | every round keeps that, with open containers having only their opening bracket |
| `TokenRuns.StackSimulatesTake` | src/CanMonitor/common/json.c:210-282 | a round with an explicit stack of open containers does the same, and its stack is always the open tokens |
| `TokenRuns.StackSimulatesRun` | src/CanMonitor/common/json.c:182-344 | the backward scans of a whole run find exactly what that stack holds |
| `TokenRuns.Resumption` | src/CanMonitor/common/json.c:182-209 | a run that stopped for want of tokens, continued with more, ends with the state and the code of one run with all of them; a run that did not is the same with more |
| `TokenRuns.ShortExactlyIf` | src/CanMonitor/common/json.c:17-27 | a run is short of tokens if and only if it makes more of them, given enough, than there is room for |
| `TokenRuns.EnoughRoom` | src/CanMonitor/common/json.c:17-27 | room for every byte to make a token is enough |
| `TokenRuns.CountingPass` | src/CanMonitor/common/json.c:175-344 | a run succeeds if and only if the brackets balance and there is room for as many tokens as the pass without tokens counts; it returns that count, and with less room NOMEM |
| `TokenRuns.CountingIgnoresBrackets` | src/CanMonitor/common/json.c:210-215 | the counting pass accepts a text whose brackets do not match |
| `TokenRuns.SizesAreConserved` | src/CanMonitor/common/json.c:190-281 | at every point of a run the sizes of all tokens and the tokens made without a superior one add up to the number of tokens, and the superior token is -1 or allocated |
| `TokenRuns.RunIsRounds` | src/CanMonitor/common/json.c:182-328 | a run is its rounds, one after another |
| `TokenLexemes.PrimitiveExactlyIf` | src/CanMonitor/common/json.c:43-94 | a primitive ends exactly before the first tab, line feed, carriage return, space, comma, colon, closing bracket or NUL, with only the characters 33 to 126 before it |
| `TokenLexemes.ClosedExactlyIf` | src/CanMonitor/common/json.c:99-170 | a string ends exactly at a quote behind bytes other than NUL, quote and backslash, the eight short escapes, and \u with four digits |
| `TokenLexemes.BadEscapeExactlyIf` | src/CanMonitor/common/json.c:128-164 | a string is refused exactly if the scan comes to a backslash with another letter behind it, or to \u with something else than a digit in the next four places |
| `TokenRounds.OpeningRound` | src/CanMonitor/common/json.c:187-209 | an opening bracket makes a token without an end, one more under the superior one, which it becomes; without room the code is -1 |
| `TokenRounds.ClosingRound` | src/CanMonitor/common/json.c:210-246 | a closing bracket ends the last token without an end, if the types match, and the one without an end before it becomes superior; else the code is -2 |
| `TokenRounds.CommaRound` | src/CanMonitor/common/json.c:263-281 | after a comma the last object or array without an end is superior, if the superior token was neither |
| `TokenRounds.PlainRound` | src/CanMonitor/common/json.c:255-262 | a colon makes the last token superior; white space changes nothing |
| `TokenRounds.StringRound` | src/CanMonitor/common/json.c:247-254 | a quote makes a token of the string behind it, counted under the superior one; a wrong escape gives -2, a missing quote -3 |
| `TokenRounds.PrimitiveRound` | src/CanMonitor/common/json.c:303-326 | any other byte makes a token of the primitive it starts, or gives -2 |
| `TokenRounds.EndOfText` | src/CanMonitor/common/json.c:330-344 | at the end of the text the code is -3 if a token has no end, and else the number of tokens |
| `TokenRounds.SizeIsRounds` | src/CanMonitor/common/json.c:190-326 | at every point of a run the size of each token is the number of rounds that made a token while it was superior |
| `TokenTexts.ValueIsTokenized` | src/CanMonitor/common/json.c:182-328 | wherever a value stands and the run comes to it, rounds lead behind it and have added exactly its tokens, the first counted under the superior one; the container around an array or object is superior after it |
| `TokenTexts.TextIsTokenized` | src/CanMonitor/common/json.c:175-344 | a whole text that derives a value is split into the tokens of the derivation, a value before what is in it: an array has the size of its items, an object of its names, a name 1 and any other value 0 |
| `TokenTexts.ParsedTextIsTokenized` | src/CanMonitor/common/json.c:175-344 | so every text that parson.c reads as a value is split by json.c into the tokens of that value, provided it has no vertical tab or form feed and its numbers are written as RFC 8259 writes them |
| `HashTable.Hash` | src/CanMonitor/implementation/tables/hashtable_common.c:10-23 | the bucket index, with signed characters and unsigned wrap-around, is below the size |
| `HashTable.HashIsSum` | src/CanMonitor/implementation/tables/hashtable_common.c:10-23 | in a table of ten buckets, the size the program gives both, an ASCII key goes into the bucket of the sum of its characters |
| `Spellings.HashStepSpelled` | src/CanMonitor/implementation/tables/hashtable_common.c:10-23 | one byte of a key, among ten buckets: a byte of 128 and more counts 256 less, and a negative sum 2^32 more |
| `Spellings.BucketStarts` | src/CanMonitor/implementation/tables/hashtable_common.c:10-23 | the empty key is in bucket 0, and each further byte is one such step |
| `HashTable.HashTable.constructor` | src/CanMonitor/implementation/tables/hashtable_sensors.c:13-38 | an empty table |
| `HashTable.HashTable.Get` | src/CanMonitor/implementation/tables/hashtable_sensors.c:131-160 | the value of the key in the map, or NULL |
| `HashTable.HashTable.Put` | src/CanMonitor/implementation/tables/hashtable_sensors.c:51-117 | binds the key in the map, and every key still sits once, in its own bucket; nothing is freed for an absent key, and for a present one both the value it had and the one just stored |
| `HashTable.HashTable.Delete` | src/CanMonitor/implementation/tables/hashtable_sensors.c:162-205 | unlinks the key, at the head or inside the chain, and returns what it was bound to |
| `HashTable.HashTable.Sweep` | src/CanMonitor/CanMonitor.c:445-468 | a bucket-by-bucket sweep lists every entry of the table exactly once |
| `HashTable.HashTable.SetValue` | src/CanMonitor/CanMonitor.c:461-461 | an entry is overwritten in place and no other changes |
| `Registry.GroupRecord.Purge` | src/CanMonitor/implementation/sensor.c:200-218 | in place: the first occurrence of the id is gone, the later ids have moved one place down |
| `Registry.CheckSettings` | src/CanMonitor/implementation/sensor.c:52-106 | the settings loop: exactly three settings, each with a known key and a value |
| `Registry.DeleteQueried` | src/CanMonitor/implementation/sensor.c:163-184 | the query loop deletes id after id until one is not there; earlier deletions stand |
| `Registry.Registry.CreateSensor` | src/CanMonitor/implementation/sensor.c:19-137 | the handler is the state machine's step: state, tables and answer |
| `Registry.Registry.DeleteSensors` | src/CanMonitor/implementation/sensor.c:157-225 | the same; the lists are purged of the last id alone, and only if every id was there |
| `Registry.Registry.PurgeGroups` | src/CanMonitor/implementation/sensor.c:193-222 | the sweep over the groups takes the id out of every list once |
| `Registry.Registry.UpdateSensors` | src/CanMonitor/implementation/sensor.c:139-155 | delete, then create |
| `Registry.Registry.AddItems` | src/CanMonitor/implementation/sensorgroup.c:48-186 | the loop over a group's sensors, with the table put and deleted from as it goes, and its failures |
| `Registry.Registry.AddFull` | src/CanMonitor/implementation/sensorgroup.c:54-158 | a whole configuration: a stored sensor with its id is deleted first and, if the settings fail, not put back |
| `Registry.Registry.CreateGroup` | src/CanMonitor/implementation/sensorgroup.c:21-209 | the handler is the state machine's step; a key is only put where it is absent |
| `Registry.Registry.UpdateGroups` | src/CanMonitor/implementation/sensorgroup.c:212-229 | delete, then create |
| `Registry.Registry.DeleteGroups` | src/CanMonitor/implementation/sensorgroup.c:311-364 | the groups go, their sensors stay |
| `Registry.Registry.Serve` | src/CanMonitor/implementation/sensorgroup.c:21-364 | requests served one after another leave the tables as the run of the state machine says |
| `Registry.Registry.ReadGroup` | src/CanMonitor/implementation/sensorgroup.c:256-261 | where every listed id is stored, no lookup of a reader comes back empty, and the sensors found are those of the list |
| `Registry.Registry.ParseFrame` | src/CanMonitor/CanMonitor.c:442-469 | where the shifts for the sensors with the frame's id are defined, each of them gets the cast of its bits and the time, and nothing else changes |
| `StoredSensors.KeysSpelled` | src/CanMonitor/implementation/sensor.c:62-76 | the keys id, can-id, init-bit and end-bit in bytes |
| `StoredSensors.IdsGrow` | src/CanMonitor/implementation/sensor.c:163-184 | the ids of a query are the values of the pairs with the name id, in order |
| `StoredSensors.SettingsHoldLast` | src/CanMonitor/implementation/sensor.c:52-106 | the settings are read exactly if there are three, each with a value and a known key, and each field is then the last value under its key |
| `StoredSensors.CreatedSensorIsStored` | src/CanMonitor/implementation/sensor.c:19-137 | a sensor request succeeds exactly if it is complete, its id free and its settings acceptable; then, field by field, the sensor stored is the one described, with no value and time 0, and every other sensor and the groups are as they were |
| `StoredSensors.UpdatedSensorIsStored` | src/CanMonitor/implementation/sensor.c:139-155 | the same of the sensor that a successful update stores |
| `StoredSensors.CreatedGroupIsStored` | src/CanMonitor/implementation/sensorgroup.c:21-209 | after a successful group request the group has the rate and the ids of its items in order, and under every id stands what its last whole configuration describes, field by field, or what stood there before |
| `StoredSensors.RejectedGroupIsStored` | src/CanMonitor/implementation/sensorgroup.c:48-186 | after a refused one the groups are as they were, and what still stands under an id is what an item before the first that fails described, or what stood there |
| `StoredSensors.DeletedSensorsExactly` | src/CanMonitor/implementation/sensor.c:157-225 | a sensor delete request succeeds exactly if it names at least one id and each is stored, once; what it deletes, and which lists lose the last id |
| `StoredSensors.DeletedGroupsExactly` | src/CanMonitor/implementation/sensorgroup.c:311-364 | a group delete request in the same way, and no sensor goes |
| `StoredSensors.UpdatedGroupIsStored` | src/CanMonitor/implementation/sensorgroup.c:212-229 | a group update is the delete and, if that succeeded, the create |
| `StoredSensors.MeasuredExactly` | src/CanMonitor/CanMonitor.c:442-469 | a frame gives each sensor with its id a value and a time; every other field and every other sensor is as it was |
| `StoredSensors.FrameIsStored` | src/CanMonitor/CanMonitor.c:414-469 | end to end: a sensor created for bits inside the frame holds, after a frame with its id, the number that these bits spell, cast to its type |
| `RegistryRuns.StepClosedIff` | src/CanMonitor/implementation/sensorgroup.c:48-229 | given that every listed id is stored, a request keeps it so if and only if it is safe: a condition on the tables and the request alone |
| `RegistryRuns.RunClosedIff` | src/CanMonitor/mqtt/mqtt_payload_helpers.c:112-118 | at every point of a run every listed id is stored if and only if every request of the run is safe |
| `RegistryRuns.DeleteClosedIff` | src/CanMonitor/implementation/sensor.c:157-225 | a delete request leaves nothing dangling if and only if each id it deletes is listed nowhere, or is the last one and stands at most once in each list |
| `RegistryRuns.UpdateClosedIff` | src/CanMonitor/implementation/sensor.c:139-155 | an update likewise, or if the id is stored again |
| `RegistryRuns.GroupClosedIff` | src/CanMonitor/implementation/sensorgroup.c:48-186 | a group request leaves nothing dangling if and only if no group lists an id that its first failing item takes out: its own and, if its settings are good but not complete, all ids before it |
| `RegistryRuns.DeleteEachDeletes` | src/CanMonitor/implementation/sensor.c:163-184 | the query loop deletes exactly the ids before the first that is not there or comes again, and gets through if and only if every id is there, once |
| `RegistryRuns.SettingsAreComplete` | src/CanMonitor/implementation/sensorgroup.c:70-134 | a whole configuration is accepted in a group if and only if it has the three known keys, once each, with values other than -1 |
| `RegistryRuns.ItemsAddedExactly` | src/CanMonitor/implementation/sensorgroup.c:48-186 | the item loop gets through if and only if no item fails, an id alone failing exactly if it is neither stored nor that of an earlier whole configuration; the ids stored after it, in both cases |
| `RegistryRuns.SucceededIsStored` | src/CanMonitor/implementation/sensorgroup.c:136-186 | every id of a group request that gets through is stored |
| `RegistryRuns.DisciplinedRunsStayClosed` | src/CanMonitor/implementation/sensor.c:139-225 | over every run with one id per delete or update and with group requests that, if created, repeat no id and, if rejected, take no stored sensor, every listed id is stored |
| `RegistryRuns.MeasuringKeeps` | src/CanMonitor/CanMonitor.c:442-469 | a frame changes readings and no id, so every listed id stays stored |
| `RegistryRuns.TwoIdsDangle` | src/CanMonitor/implementation/sensor.c:163-225 | two ids in one delete request: the first stays listed |
| `RegistryRuns.RepeatedIdDangles` | src/CanMonitor/implementation/sensor.c:202-218 | an id that a list repeats stays listed |
| `RegistryRuns.RejectedGroupDangles` | src/CanMonitor/implementation/sensorgroup.c:61-134 | a rejected group request can take away a sensor that another group lists |
| `RegistryRuns.DeleteUndoesCreate` | src/CanMonitor/implementation/sensor.c:19-225 | deleting a sensor that was just created is answered with success and restores both tables if and only if no group listed its id, as is so where every listed id is stored |
| `RegistryRuns.DeleteUndoesCreateGroup` | src/CanMonitor/implementation/sensorgroup.c:311-364 | deleting a group that was just created takes away the group alone |
| `RegistryRuns.UpdateSucceedsExactlyIf` | src/CanMonitor/implementation/sensor.c:139-155 | an update succeeds if and only if every id it names is stored, once, there is one, and its body has good settings and an id that is then free |
| `RegistryRuns.UpdateListsExactly` | src/CanMonitor/implementation/sensor.c:139-225 | an update that succeeds purges every list of the last id once, whatever it stores: the lists are unchanged if and only if none held that id, and are rid of it if and only if none repeated it |
| `RegistryRuns.UpdatePurgesLists` | src/CanMonitor/implementation/sensor.c:139-225 | so a stored sensor updated under its own id is stored again and every list loses its id once, with the same two conditions |
| `RegistryRuns.UpdateChangesGroup` | src/CanMonitor/implementation/sensor.c:193-222 | two concrete groups: the updated sensor is gone from the one that lists it once, and still listed in the one that lists it twice |
| `BitField.MaskCanFrame` | src/CanMonitor/CanMonitor.c:414-435 | wherever both shifts are defined in C: the number spelled by the payload bits that the wrapped-around width and shift name, with zeros before the payload |
| `BitField.FieldInside` | src/CanMonitor/CanMonitor.c:421-432 | for a field inside the frame, empty ones included, these are the bits init..end counted from the most significant bit; and when its shifts are defined |
| `Spellings.ShiftSpelled` | src/CanMonitor/CanMonitor.c:421-424 | the width and the shift of a field, modulo 2^32 |
| `Spellings.BitsSpellByte` | src/CanMonitor/CanMonitor.c:425-428 | the eight bits of a byte, most significant first, are its value in base 2 |
| `BitField.ReadPayload` | src/CanMonitor/CanMonitor.c:425-428 | the loop reads the payload as one number |
| `BitField.FieldIsCut` | src/CanMonitor/CanMonitor.c:429-432 | mask and shifts cut exactly those bits out, although the shifted mask can lose its high bits |
| `BitField.ByteShiftedIn` | src/CanMonitor/CanMonitor.c:426-428 | one byte shifted in appends its eight bits, and none is lost while the payload has at most eight bytes |
| `BitField.MaskFits` | src/CanMonitor/CanMonitor.c:422-424 | a one shifted by less than 64 stays in the word |
| `BitField.JoinAdjacent` | src/CanMonitor/CanMonitor.c:414-435 | two adjacent fields, joined, are the field that spans them |
| `BitField.NumberTellsBits` | src/CanMonitor/CanMonitor.c:414-435 | equal fields have equal bits |

## Left out

- RoundTrip.PrintThenParse: numbers are reals and rely on the promise that strtod reads back what sprintf prints; the
  promise is proved for whole numbers up to 2^53 only. Rounding, negative zero, infinities, NaN and subnormal numbers, for
  which strtod may set errno, are the C library's.
- RoundTrip.ParsePrintParse: the same promise is asked of the parsed tree's numbers; `IntegerNumbers.WholeParsePrintParse`
  asks nothing.
- BitField.MaskCanFrame: calls in which one of the two shifts is by 64 or more, which C leaves undefined; checks for them
  are a to-do in the source.
- HashTable.HashTable.Sweep: returns the nodes in order, and the loops that visit them are separate; in the source the work
  is done as the chains are walked.
- JsonTree.Node.DotSet: a value without a parent shares no node with the object's tree; setting an object inside itself
  makes a cycle, which no tree stands for. A value with a parent may be anywhere.
- JsonTree.Node.SetValue: the same.
- JsonTree.Node.Remove: freeing is not modelled; a removed or overwritten child is only no longer part of the tree.
- TokenScanner.Parser.Parse: positions and counts are unbounded, so texts of 2^31 bytes and more are not described.
- TokenTexts.ParsedTextIsTokenized: what strtod takes for a number is asked to be digits, signs, points and exponent marks,
  at least one; which of its literals are is the C library's.
- JsonLayout.PrettyIsLaidOut: printed numbers are asked to have no white space, brackets, commas, colons or quotes in them;
  `Spellings.WholeNumbersArePlain` proves it for whole numbers.
- JsonWriter.SerializeValue: the `int` that counts written bytes is unbounded.
- Registry.Registry.CreateSensor: request bodies are given as their fields; reading the fields out of the JSON body, and the
  crash of the source on fields of the wrong type, are not modelled. The number in a setting is what sscanf or atoi reads.
- Registry.Registry.AddItem: ids are copied into the list whole; the source copies them into eight bytes.
- Registry.Registry.ParseFrame: var_cast is a parameter, and the shifts for the sensors with the frame's id are those that C
  defines.
- Registry.Registry.Serve: handlers run one at a time; nothing in the source locks the tables.
- Allocation failure: every allocation succeeds.
- Error messages of the handlers, the JSON text the readers build, and status start and stop commands.
- remove_comments, file reading, json_validate and the typed getters and setters of parson.c.
- Sockets, the CAN interface, the MQTT client, the REST server, signals and time.
