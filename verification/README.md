# Verified models of the JSON code and the event queue

These Dafny modules model four components of the repository and prove what they are for:

- **parson** (`EAP-TLS_Solution/EAP-TLS Client/parson.c`), the vendored JSON library. `Utf8` and
  `StringCodec` are the UTF-8 validator and the string escapes in both directions. `ObjectTable` and
  `ArrayTable` are the growable containers as classes over arrays. `Serializer` is the recursive
  serializer, run once to measure and once to write. `Parser` is the grammar as functions, `Cursors`
  the recursive-descent parser as methods over a moving cursor. `Grammar` is JSON itself (RFC 8259), as
  documents that remember how they are spelled; `GrammarLaws` shows that the parser accepts exactly its
  texts, and `RoundTrip` that the serializer writes one of them. `Comments` adds the in-place comment
  removal, `Equality` the comparison. `Forest`, `ValueStore`,
  `StoreCopy` and `DotPath` are the mutable trees with parent pointers, deep copy, and the dotted-name
  layer.
- **The Squirrel JSON encoder and string decoder** (`AzureSphereSquirrel/HLCore/json.cpp`):
  `GrowBuffer`, `SquirrelString`, `SquirrelEncoder` and `EncoderLaws`. `EncodedMeaning` says which tree the
  encoded text of an object graph denotes, `DecodedMeaning` which JSON strings the decoder gets right; both are
  stated on the grammar.
- **The event queue** (`AzureSphereSquirrel/HLCore/event_queue.cpp`): `EventQueue`, with the linked
  list and callbacks that insert while their event is still in the list.
- **The pretty printer** (`AzureSphereSquirrel/HLCore/pretty_print.cpp`): `PrettyPrint`; `TextScan` and
  `PrettyEncoded` apply it to what the encoder writes.

Code that works step by step is a method with the source's loops, proved against a specification
function; the theorems are lemmas about those functions. Bytes are integers from 0 to 255, a C string
is a byte sequence in which reading at the end gives the NUL, and allocation always succeeds.

Results that show the code falling short of its own description, each with an input and its exact condition:

- A wakeup that a running callback requests with a deadline earlier than its own event's is unlinked
  with that event and never fires; the 10 ms buffer makes this reachable (`EventQueue.NothingLostIff`,
  `EventQueue.EarlyFiringCanLoseAWakeup`). Without such wakeups, and only then, a run serves the events of each
  deadline completely and in the order in which they were added (`EventQueue.ArrivalOrderIff`).
- The Squirrel string decoder refuses the legal escape `\u005c`, and a decoded byte 255 is deleted as a
  marker and shifts what follows (`SquirrelString.DecodedIff`, `SquirrelString.DecodedIsMeaningIff`,
  `SquirrelString.UnicodeCounterexamples`).
- Of the \u escapes it decodes only those of ASCII characters to UTF-8: \u00e9 comes out as the single byte 233,
  and everything from \u0100 on is refused (`DecodedMeaning.JsonStringDecodesIff`,
  `DecodedMeaning.LatinEscapeGoesWrong`).
- The Squirrel encoder writes control bytes without a two-character escape as they are, which JSON does not allow;
  valid UTF-8 is read back exactly if it holds none of them and no NUL (`EncodedMeaning.StringReadsBackIff`,
  `EncodedMeaning.ControlByteIsRefused`).
- An error left pending by an instance that is encoded inside another one makes the encoder discard the
  outer one's members (`EncoderLaws.WrittenAsMembersIff`, `EncoderLaws.NestedErrorDiscardsMembers`).
- The pretty printer loses track of strings at a quote that follows a backslash without being escaped by
  it, and a space between tokens takes the next character with it (`PrettyPrint.TracksIff`,
  `PrettyPrint.LayoutErasesIff`, `PrettyPrint.SpaceHidesAString`). On encoder output whose numbers are plain
  and whose written strings, blobs, keys and raw texts are proper string bodies (no quote in them closes the
  string, no escape is left open at the end), it goes wrong exactly if one of these bodies, as written, ends in
  a backslash (`PrettyEncoded.EncodedTracksIff`, `PrettyEncoded.BackslashAtEndMisleads`,
  `PrettyEncoded.BackslashKeyMisleads`, `PrettyEncoded.DroppedByteMisleads`). Keys and raw texts are written
  as they are, so what needs an escape must come with it.
- The 10 ms buffer of the event queue ends with the second: an event 7 ms ahead in the next one has to wait
  (`EventQueue.DueIff`, `EventQueue.BufferStopsAtTheSecond`).
- parson reads a lone minus sign as 0; apart from that it accepts exactly the texts of the grammar
  (`GrammarLaws.DocumentIff`).
- parson accepts `\u0000` and the C string it stores ends there (`StringCodec.StoredWholeIff`,
  `StringCodec.NulCutsTheString`).
- A document higher than 2048 is serialized but not parsed again (`RoundTrip.SerializedReadsBack`,
  `RoundTrip.TooHighIsRefused`).

## Model

| member | source | states |
|---|---|---|
| `Utf8.IsValidUtf8` | EAP-TLS_Solution/EAP-TLS Client/parson.c:260-271 | the validator loop accepts a byte string exactly when it is a concatenation of encodings of Unicode scalar values (section 4 of RFC 3629) |
| `Utf8.ValidRangeIffWellEncoded` | EAP-TLS_Solution/EAP-TLS Client/parson.c:219-271 | for every range: stepping by verified sequence lengths reaches its end if and only if the range is such a concatenation |
| `Utf8.EncodingIsAccepted` | EAP-TLS_Solution/EAP-TLS Client/parson.c:203-258 | the encoding of any scalar value passes the verifier with its own length and is assembled back to the same code point |
| `Utf8.AcceptedIsEncoding` | EAP-TLS_Solution/EAP-TLS Client/parson.c:203-258 | whatever the verifier accepts is the shortest encoding of one scalar value: no overlong forms, no surrogates, nothing above U+10FFFF |
| `StringCodec.DecodeUtf16` | EAP-TLS_Solution/EAP-TLS Client/parson.c:567-614 | decodes an escape or a surrogate pair in place, failing exactly on bad digits and unpaired surrogates, and writes the encoding of the code point behind what was there |
| `StringCodec.EmitUtf8` | EAP-TLS_Solution/EAP-TLS Client/parson.c:578-606 | the masked bytes written for a code point are its RFC 3629 encoding, nothing before them changes |
| `StringCodec.EncodeByMasks` | EAP-TLS_Solution/EAP-TLS Client/parson.c:578-606 | shift-and-mask form of the encoder equals the standard's table for every scalar value |
| `StringCodec.ProcessString` | EAP-TLS_Solution/EAP-TLS Client/parson.c:618-688 | the in-place loop computes the unescaped text, is no longer than its input, and is valid UTF-8 whenever the input is |
| `StringCodec.UnescapePreservesUtf8` | EAP-TLS_Solution/EAP-TLS Client/parson.c:618-688 | raw bytes mixed with simple escapes, \uXXXX and surrogate pairs: a valid input gives a valid output |
| `StringCodec.UnescapeIsNoLonger` | EAP-TLS_Solution/EAP-TLS Client/parson.c:618-688 | the output fits the buffer that is allocated from the input's length |
| `StringCodec.PieceStaysInside` | EAP-TLS_Solution/EAP-TLS Client/parson.c:546-565 | an accepted character or escape ends before the closing quote that was found without decoding it, and skipping from there finds the same quote |
| `StringCodec.UnescapeIgnoresTail` | EAP-TLS_Solution/EAP-TLS Client/parson.c:618-702 | decoding never depends on a byte behind the closing quote |
| `GrammarLaws.UnitIff` | EAP-TLS_Solution/EAP-TLS Client/parson.c:186-201 | four characters are read as a UTF-16 unit if and only if they are its four hexadecimal digits, in either case |
| `GrammarLaws.PieceIff` | EAP-TLS_Solution/EAP-TLS Client/parson.c:567-688 | what the reader takes as one character and the bytes it gives are exactly the characters of RFC 8259: plain bytes, two-character escapes, and for every scalar value its \u escape or, above U+FFFF, its surrogate pair, lead first |
| `GrammarLaws.CharsAreUnescaped` | EAP-TLS_Solution/EAP-TLS Client/parson.c:546-688 | every string of such characters, in any spelling, is scanned up to its closing quote and unescaped to the bytes it stands for |
| `GrammarLaws.UnescapedIff` | EAP-TLS_Solution/EAP-TLS Client/parson.c:618-688 | between two quotes a text is unescaped if and only if it spells such characters, and then to their bytes |
| `GrammarLaws.StringIsRead` | EAP-TLS_Solution/EAP-TLS Client/parson.c:692-702 | a quoted string in any spelling, anywhere in a text, is read as the C string it stands for |
| `RoundTrip.QuotedReadsBack` | EAP-TLS_Solution/EAP-TLS Client/parson.c:692-702 | get_quoted_string inverts json_serialize_string wherever its output stands in a text |
| `StringCodec.CStringKeepsUtf8` | EAP-TLS_Solution/EAP-TLS Client/parson.c:618-688 | cutting the output at its first NUL, as a C string is, keeps it valid UTF-8 |
| `StringCodec.StoredWholeIff` | EAP-TLS_Solution/EAP-TLS Client/parson.c:692-702 | the string that is stored is the whole decoded string if and only if no escape \u0000 stands in it |
| `StringCodec.NulCutsTheString` | EAP-TLS_Solution/EAP-TLS Client/parson.c:692-702 | the quoted text a\u0000b is stored as a |
| `ObjectTable.JsonObject.AddN` | EAP-TLS_Solution/EAP-TLS Client/parson.c:348-373 | appends unless the name is taken, doubling the capacity (at least 16) when full; the entries become exactly the specified ones |
| `ObjectTable.JsonObject.Resize` | EAP-TLS_Solution/EAP-TLS Client/parson.c:375-403 | both arrays move to the new capacity with the entries unchanged; a zero capacity is refused |
| `ObjectTable.JsonObject.GetN` | EAP-TLS_Solution/EAP-TLS Client/parson.c:405-419 | finds the value stored under the name, or nothing |
| `ObjectTable.JsonObject.Remove` | EAP-TLS_Solution/EAP-TLS Client/parson.c:421-444 | moves the last entry into the gap; fails and changes nothing when the name is missing |
| `ObjectTable.JsonObject.SetValue` | EAP-TLS_Solution/EAP-TLS Client/parson.c:1876-1896 | overwrites the entry in place or appends a new one |
| `ObjectTable.JsonObject.Clear` | EAP-TLS_Solution/EAP-TLS Client/parson.c:2024-2036 | forgets all entries and keeps both arrays |
| `ObjectTable.AddRefines` | EAP-TLS_Solution/EAP-TLS Client/parson.c:348-373 | add is a map insertion that fails exactly on present names, and keeps names distinct |
| `ObjectTable.SetRefines` | EAP-TLS_Solution/EAP-TLS Client/parson.c:1876-1896 | set is a map update, and keeps names distinct |
| `ObjectTable.RemoveRefines` | EAP-TLS_Solution/EAP-TLS Client/parson.c:421-444 | swap-with-last removal is a map deletion that fails exactly on missing names: only the order changes |
| `ObjectTable.StepRefines` | EAP-TLS_Solution/EAP-TLS Client/parson.c:348-444 | each operation gives the map's new value and the map's reply |
| `ObjectTable.RunRefinesMap` | EAP-TLS_Solution/EAP-TLS Client/parson.c:348-444 | over every run of add, set, get, remove and clear the table stays a finite map with distinct names and gives the same replies |
| `ArrayTable.JsonArray.Add` | EAP-TLS_Solution/EAP-TLS Client/parson.c:489-501 | appends, growing when full |
| `ArrayTable.JsonArray.Resize` | EAP-TLS_Solution/EAP-TLS Client/parson.c:503-520 | moves the elements to the new capacity unchanged |
| `ArrayTable.JsonArray.ReplaceAt` | EAP-TLS_Solution/EAP-TLS Client/parson.c:1739-1749 | exactly one element changes; an index out of range is refused |
| `ArrayTable.JsonArray.RemoveAt` | EAP-TLS_Solution/EAP-TLS Client/parson.c:1726-1737 | closes the gap by moving the tail and keeps the order; an index out of range is refused |
| `Serializer.SerializeToBuffer` | EAP-TLS_Solution/EAP-TLS Client/parson.c:926-1061 | with a buffer it writes exactly the value's text and a NUL, nothing outside; without one it returns the same length |
| `Serializer.SerializeArray` | EAP-TLS_Solution/EAP-TLS Client/parson.c:938-969 | the array branch in both modes and layouts |
| `Serializer.SerializeObject` | EAP-TLS_Solution/EAP-TLS Client/parson.c:970-1017 | the object branch in both modes and layouts |
| `Serializer.SerializeString` | EAP-TLS_Solution/EAP-TLS Client/parson.c:1063-1193 | writes the quoted, escaped string; every intermediate terminator stays in the room of the text and its NUL |
| `Serializer.AppendString` | EAP-TLS_Solution/EAP-TLS Client/parson.c:1205-1211 | writes the piece and a terminator, or only counts |
| `Serializer.AppendIndent` | EAP-TLS_Solution/EAP-TLS Client/parson.c:1195-1203 | writes or counts four spaces a level |
| `Serializer.SerializationSize` | EAP-TLS_Solution/EAP-TLS Client/parson.c:1636-1642 | the measuring pass gives the text's length plus one, for both layouts |
| `Serializer.SerializeInto` | EAP-TLS_Solution/EAP-TLS Client/parson.c:1644-1656 | fails exactly when the buffer is too small, and then changes nothing; otherwise the text, a NUL and the old rest |
| `Serializer.SerializeToString` | EAP-TLS_Solution/EAP-TLS Client/parson.c:1658-1676 | the buffer of the measured size is filled exactly |
| `Cursors.Cursor.ReadValue` | EAP-TLS_Solution/EAP-TLS Client/parson.c:704-737 | the recursive-descent parser over a moving cursor computes the grammar function, terminates on every text, and its cursor never moves back or past the NUL |
| `Cursors.Cursor.ReadObject` | EAP-TLS_Solution/EAP-TLS Client/parson.c:739-800 | objects: duplicate names and missing commas or braces fail; the table that is returned holds exactly the members, and its capacity equals its count |
| `Cursors.Cursor.ReadArray` | EAP-TLS_Solution/EAP-TLS Client/parson.c:802-847 | arrays: the buffer that is returned holds exactly the items, and its capacity equals its count |
| `Cursors.Cursor.ReadMember` | EAP-TLS_Solution/EAP-TLS Client/parson.c:759-783 | one key, colon and value; on success the cursor has advanced |
| `Cursors.Cursor.ReadQuotedString` | EAP-TLS_Solution/EAP-TLS Client/parson.c:692-702 | returns the decoded C string and stands behind the closing quote; valid UTF-8 stays valid |
| `Cursors.Cursor.SkipOverQuotes` | EAP-TLS_Solution/EAP-TLS Client/parson.c:546-565 | stops behind the first unescaped quote, fails on the NUL |
| `Cursors.Cursor.SkipWhitespaces` | EAP-TLS_Solution/EAP-TLS Client/parson.c:58-61 | stops at the first byte that is not white space |
| `Cursors.Cursor.ReadNumber` | EAP-TLS_Solution/EAP-TLS Client/parson.c:878-889 | decimal integers only: a leading zero is refused and the cursor may stay |
| `Cursors.Cursor.ReadBoolean` | EAP-TLS_Solution/EAP-TLS Client/parson.c:864-876 | the two literals |
| `Cursors.ParseString` | EAP-TLS_Solution/EAP-TLS Client/parson.c:1217-1226 | returns a value exactly if the text is a text of it in the grammar, with any white space in every gap and any spelling of its strings, the names in each object are distinct and the height is within 2048; a leading byte order mark is skipped, and a lone minus sign gives 0 |
| `Cursors.CheckDecimal` | EAP-TLS_Solution/EAP-TLS Client/parson.c:273-287 | the loop refuses exactly leading zeros (also behind a minus sign) and the letters x and X |
| `Parser.ParsedIsWellFormed` | EAP-TLS_Solution/EAP-TLS Client/parson.c:704-847 | every value returned has distinct names in each object, C strings only, and a height within the nesting limit |
| `GrammarLaws.DocumentIff` | EAP-TLS_Solution/EAP-TLS Client/parson.c:704-900 | the same of what the parser finds in a text, both directions |
| `GrammarLaws.WrittenIsRead` | EAP-TLS_Solution/EAP-TLS Client/parson.c:704-737 | every document of the grammar, anywhere in a text and at any nesting, is read up to its last byte as the value it stands for if it fits, and refused otherwise |
| `GrammarLaws.ItemsAreRead` | EAP-TLS_Solution/EAP-TLS Client/parson.c:802-847 | the element loop likewise, with any white space around elements and commas |
| `GrammarLaws.MembersAreRead` | EAP-TLS_Solution/EAP-TLS Client/parson.c:739-800 | the member loop likewise, with any white space around keys, colons, values and commas; a name that is already there refuses the object |
| `GrammarLaws.NumberIsRead` | EAP-TLS_Solution/EAP-TLS Client/parson.c:878-889 | decimal digits after an optional minus are read as the number they spell |
| `GrammarLaws.ReadIsWritten` | EAP-TLS_Solution/EAP-TLS Client/parson.c:704-737 | conversely, a value that is read was spelled as a document of the grammar behind white space |
| `GrammarLaws.ReadIsItems` | EAP-TLS_Solution/EAP-TLS Client/parson.c:802-847 | so no comma may be missing, doubled or trail in an array |
| `GrammarLaws.ReadIsMembers` | EAP-TLS_Solution/EAP-TLS Client/parson.c:739-800 | nor in an object |
| `RoundTrip.SerializedReadsBack` | EAP-TLS_Solution/EAP-TLS Client/parson.c:704-1061 | the serialized text of any well-formed value, compact or pretty, with integers of at most 2^53 in size, parses to exactly that value with the cursor on the NUL if and only if its height is at most 2048, and is refused otherwise |
| `RoundTrip.ValueReadsBack` | EAP-TLS_Solution/EAP-TLS Client/parson.c:704-737 | the same wherever the text stands, at every nesting depth |
| `RoundTrip.TextIsWritten` | EAP-TLS_Solution/EAP-TLS Client/parson.c:926-1193 | byte by byte, the serialized text is that of one spelling: in the pretty layout every element and member on its own line with four spaces for each level and a space behind the colon, slashes escaped, control bytes as \u00 and two lower-case digits |
| `RoundTrip.SpellingIsGood` | EAP-TLS_Solution/EAP-TLS Client/parson.c:926-1193 | that spelling is a document of the grammar and stands for the serialized value |
| `RoundTrip.TooHighIsRefused` | EAP-TLS_Solution/EAP-TLS Client/parson.c:704-708 | arrays nested to height 2049 are written but refused, those of height 2048 are read back |
| `RoundTrip.ParsedReadsBack` | EAP-TLS_Solution/EAP-TLS Client/parson.c:1217-1226 | serializing any parsed document of integers, strings, arrays, objects and literals and parsing again gives the same value |
| `Comments.RemoveComments` | EAP-TLS_Solution/EAP-TLS Client/parson.c:289-323 | the in-place pass computes the specified blanking and leaves the rest of the buffer alone |
| `Comments.StripOnlyBlanks` | EAP-TLS_Solution/EAP-TLS Client/parson.c:289-323 | a pass keeps the length and changes bytes to spaces only |
| `Comments.StripIsIdentityIff` | EAP-TLS_Solution/EAP-TLS Client/parson.c:289-323 | a pass changes nothing if and only if its scan meets no opening token outside a string |
| `Comments.StripBlanksTheComments` | EAP-TLS_Solution/EAP-TLS Client/parson.c:289-323 | a pass turns exactly the comments into spaces: each one starts at an opening token outside the strings and ends with the first closing token behind it; of a comment that is never closed only the opening token goes |
| `Comments.EveryTextHasParts` | EAP-TLS_Solution/EAP-TLS Client/parson.c:289-323 | every text is made of such comments and the bytes between them |
| `Comments.WithoutCommentsIs` | EAP-TLS_Solution/EAP-TLS Client/parson.c:1228-1242 | first the block comments are blanked, then the line comments of what that leaves |
| `Comments.SerializedHasNoComments` | EAP-TLS_Solution/EAP-TLS Client/parson.c:289-323 | both passes are the identity on every serialized text, compact or pretty |
| `Comments.TextIsNeutral` | EAP-TLS_Solution/EAP-TLS Client/parson.c:926-1193 | the pass's quote tracking agrees with the serializer's quoting on every text it writes |
| `Comments.SerializedReadsBackWithComments` | EAP-TLS_Solution/EAP-TLS Client/parson.c:1228-1242 | json_parse_string_with_comments round-trips every well-formed value up to the height limit |
| `Comments.ParseStringWithComments` | EAP-TLS_Solution/EAP-TLS Client/parson.c:1228-1242 | both passes on a copy, then the parser |
| `Equality.JsonValueEquals` | EAP-TLS_Solution/EAP-TLS Client/parson.c:2103-2166 | returns true if and only if both values are missing or both are the same tree, arrays in order and objects as finite maps from names |
| `Equality.OneSidedIsEnough` | EAP-TLS_Solution/EAP-TLS Client/parson.c:2132-2150 | with equal counts and distinct names, finding each member of one object in the other is the same as equality |
| `Equality.SameIffSameTree` | EAP-TLS_Solution/EAP-TLS Client/parson.c:2103-2166 | the relation that is decided holds of two well-formed values if and only if their trees are identical |
| `Equality.SameReflexive` | EAP-TLS_Solution/EAP-TLS Client/parson.c:2103-2166 | equality is reflexive |
| `Equality.SameSymmetric` | EAP-TLS_Solution/EAP-TLS Client/parson.c:2103-2166 | equality is symmetric, although the loop looks in one direction only |
| `Equality.SameTransitive` | EAP-TLS_Solution/EAP-TLS Client/parson.c:2103-2166 | equality is transitive |
| `Equality.OrderIsIgnored` | EAP-TLS_Solution/EAP-TLS Client/parson.c:2103-2166 | objects with the same finite map are equal whatever the order of their members |
| `Forest.LinkKeepsForest` | EAP-TLS_Solution/EAP-TLS Client/parson.c:489-501 | putting a root into a container that is not below it keeps the structure a forest |
| `Forest.CutKeepsForest` | EAP-TLS_Solution/EAP-TLS Client/parson.c:421-444 | taking children out with all that is below them keeps the structure a forest |
| `ValueStore.ExactlyOneSlot` | EAP-TLS_Solution/EAP-TLS Client/parson.c:348-373 | in a forest every value with a parent sits in exactly one slot of exactly that parent, and a root sits in none |
| `ValueStore.Store.Free` | EAP-TLS_Solution/EAP-TLS Client/parson.c:1444-1460 | frees the value and everything below it, nothing else, each once |
| `ValueStore.Store.ArrayAppend` | EAP-TLS_Solution/EAP-TLS Client/parson.c:1816-1822 | fails on a value that has a parent; else one slot and the parent pointer are added, and the forest is kept |
| `ValueStore.Store.ArrayReplace` | EAP-TLS_Solution/EAP-TLS Client/parson.c:1739-1749 | frees the old element's subtree and links the new one in its place, and the forest is kept |
| `ValueStore.Store.ArrayRemove` | EAP-TLS_Solution/EAP-TLS Client/parson.c:1726-1737 | frees one subtree and closes the gap, and the forest is kept |
| `ValueStore.Store.ObjectSet` | EAP-TLS_Solution/EAP-TLS Client/parson.c:1876-1896 | replaces or adds, freeing the replaced subtree, and the forest is kept |
| `ValueStore.Store.ObjectAdd` | EAP-TLS_Solution/EAP-TLS Client/parson.c:340-373 | adds under a new name, and the forest is kept |
| `ValueStore.Store.ObjectRemove` | EAP-TLS_Solution/EAP-TLS Client/parson.c:2014-2017 | frees one subtree by swap with the last entry, and the forest is kept |
| `ValueStore.Store.Clear` | EAP-TLS_Solution/EAP-TLS Client/parson.c:1803-1814 | frees all children and keeps the container, and the forest is kept |
| `StoreCopy.DeepCopy` | EAP-TLS_Solution/EAP-TLS Client/parson.c:1556-1634 | always succeeds with a fresh root that stands for the same tree, leaves everything that was live as it was, and makes nothing live but the copy and what is below it |
| `StoreCopy.CopyArray` | EAP-TLS_Solution/EAP-TLS Client/parson.c:1566-1586 | the array branch |
| `StoreCopy.CopyObject` | EAP-TLS_Solution/EAP-TLS Client/parson.c:1587-1608 | the object branch: each member is looked up by its key, and no name is refused |
| `StoreCopy.EveryValueMeans` | EAP-TLS_Solution/EAP-TLS Client/parson.c:1556-1634 | every live value of a forest stands for a tree, so deep copy applies to all of them |
| `StoreCopy.MeaningIsUnique` | EAP-TLS_Solution/EAP-TLS Client/parson.c:1556-1634 | and for one tree only |
| `StoreCopy.MeaningKept` | EAP-TLS_Solution/EAP-TLS Client/parson.c:348-373 | changing a root's slots changes no other value's meaning |
| `DotPath.DotGetValue` | EAP-TLS_Solution/EAP-TLS Client/parson.c:1279-1288 | for the parts of the name, which hold no dot and give the name when joined by dots, the result is that of plain lookups one after the other from the left |
| `DotPath.SegmentsSplit` | EAP-TLS_Solution/EAP-TLS Client/parson.c:1279-1288 | every name has such parts |
| `DotPath.SplitIsUnique` | EAP-TLS_Solution/EAP-TLS Client/parson.c:1279-1288 | and only one list of them |
| `DotPath.SettableIff` | EAP-TLS_Solution/EAP-TLS Client/parson.c:1918-1931 | setting is possible if and only if the walk along the parts meets no existing non-object before the last one |
| `DotPath.DotSetValue` | EAP-TLS_Solution/EAP-TLS Client/parson.c:1918-1960 | succeeds exactly if the value has no parent and the walk along the parts of the name meets no existing non-object before the last one; then looking the path up gives the value, paths that are neither prefix nor extension keep their lookup, and values outside are untouched; a failure changes nothing |
| `DotPath.DotRemove` | EAP-TLS_Solution/EAP-TLS Client/parson.c:446-461 | succeeds exactly if the walk along the parts finds a value; then it is gone and diverging paths keep their lookup; a failure changes nothing |
| `DotPath.DivergesMeans` | EAP-TLS_Solution/EAP-TLS Client/parson.c:1279-1288 | two dotted names diverge exactly when neither list of parts is a prefix of the other |
| `DotPath.PlainSetOther` | EAP-TLS_Solution/EAP-TLS Client/parson.c:1918-1931 | setting a plain name keeps every diverging path's lookup |
| `DotPath.NewOthersKept` | EAP-TLS_Solution/EAP-TLS Client/parson.c:1943-1959 | neither do the intermediate objects that are created disturb any diverging path |
| `SquirrelString.EscapeAndEncode` | AzureSphereSquirrel/HLCore/json.cpp:962-1064 | appends exactly the quoted encoding, whatever growths occur; fails exactly when a multi-byte group is cut off, with the earlier bytes unaltered |
| `SquirrelString.ValidIsEncodedBytewise` | AzureSphereSquirrel/HLCore/json.cpp:962-1064 | on valid UTF-8 the group logic is a bytewise escape: nothing cut off, nothing dropped |
| `SquirrelString.MarkEscapes` | AzureSphereSquirrel/HLCore/json.cpp:239-315 | the first in-place pass writes a marker over every byte to be deleted and counts them |
| `SquirrelString.DropMarkers` | AzureSphereSquirrel/HLCore/json.cpp:317-325 | the second in-place pass compacts the bytes that are not markers |
| `SquirrelString.ParseString` | AzureSphereSquirrel/HLCore/json.cpp:232-329 | both passes in place give the decoded text |
| `SquirrelString.MarkersAreTheReduction` | AzureSphereSquirrel/HLCore/json.cpp:239-325 | on encoder output the markers number exactly the difference of the two lengths, and without them the data remains |
| `SquirrelString.EscapedDecodes` | AzureSphereSquirrel/HLCore/json.cpp:232-329 | decoding gives back all escaped data that does not contain the marker byte 255 |
| `SquirrelString.ValidUtf8RoundTrips` | AzureSphereSquirrel/HLCore/json.cpp:232-329 | every valid UTF-8 string, embedded NULs included, survives encoding and decoding |
| `SquirrelString.UnicodeResumes` | AzureSphereSquirrel/HLCore/json.cpp:280-313 | after a \u escape the loop looks at the decoded byte again: it goes on behind the escape if and only if that byte is not a backslash |
| `SquirrelString.DecodedIff` | AzureSphereSquirrel/HLCore/json.cpp:232-329 | a token is decoded if and only if, read from left to right, every escape is a simple one or a \u with four characters left whose code is one byte and not a backslash |
| `SquirrelString.DecodedIsMeaningIff` | AzureSphereSquirrel/HLCore/json.cpp:307-328 | what is handed over is what the token means if and only if from the first byte 255 of the meaning on both the meaning and the token after the first pass hold nothing but 255; without a byte 255 always |
| `SquirrelString.UnicodeCounterexamples` | AzureSphereSquirrel/HLCore/json.cpp:280-328 | two legal one-byte escapes that go wrong: \u005c is refused, and \u00ffA is handed over as A followed by the byte 255 |
| `DecodedMeaning.UnitValue` | AzureSphereSquirrel/HLCore/json.cpp:280-292 | four hexadecimal digits give the number they spell |
| `DecodedMeaning.JsonStringDecodesIff` | AzureSphereSquirrel/HLCore/json.cpp:232-329 | a string of the grammar without the byte 255 is decoded to the UTF-8 bytes it stands for if and only if its \u escapes are all of ASCII characters other than the backslash |
| `DecodedMeaning.LatinEscapeGoesWrong` | AzureSphereSquirrel/HLCore/json.cpp:280-313 | \u00e9 comes out as the byte 233, and \u20ac is refused |
| `SquirrelString.EscapedBackslashIsRefused` | AzureSphereSquirrel/HLCore/json.cpp:280-313 | so \u005c is refused wherever it stands, although RFC 8259 allows it |
| `SquirrelString.MarkBounds` | AzureSphereSquirrel/HLCore/json.cpp:232-329 | the final length is never negative nor longer than the token, for every input |
| `GrowBuffer.Buffer.GrowStorage` | AzureSphereSquirrel/HLCore/json.cpp:35-43 | afterwards the storage has the required size and every byte written so far is kept |
| `SquirrelEncoder.WriteObject` | AzureSphereSquirrel/HLCore/json.cpp:394-454 | refines the pure encoding of any closed object graph, cyclic or not: the same text behind what was in the buffer, the same effect on the virtual machine's last error, failure exactly when there is no text, earlier bytes never altered; terminates by the depth left and instance before class |
| `SquirrelEncoder.WriteClassTable` | AzureSphereSquirrel/HLCore/json.cpp:465-537 | braces around the comma-joined members without the functions, the trailing comma overwritten |
| `SquirrelEncoder.WriteArray` | AzureSphereSquirrel/HLCore/json.cpp:549-602 | brackets around the comma-joined elements |
| `SquirrelEncoder.WriteNode` | AzureSphereSquirrel/HLCore/json.cpp:743-951 | instances: raw text, the returned object one deeper, or the iteration |
| `SquirrelEncoder.WriteInstance` | AzureSphereSquirrel/HLCore/json.cpp:833-947 | the last error is cleared and the members are written; if afterwards there is an error, raised by the iteration or left by anything encoded inside, the output is taken back and the class is encoded at the same depth |
| `EncoderLaws.WrittenAsMembersIff` | AzureSphereSquirrel/HLCore/json.cpp:833-947 | an instance is written as its members if and only if its own iteration raises no error and the last member that has an effect on the error leaves none |
| `EncoderLaws.LastEffectDecides` | AzureSphereSquirrel/HLCore/json.cpp:846-901 | the effect of a list of members on the last error is that of the last one that has any |
| `EncoderLaws.InstanceDecides` | AzureSphereSquirrel/HLCore/json.cpp:833-947 | every instance that is iterated decides about the last error |
| `EncoderLaws.EffectIsLastWrite` | AzureSphereSquirrel/HLCore/json.cpp:833-947 | the effect of encoding an object on the last error is the last of the writes that happen on the way: fetching a member before encoding its value, clearing before and marking after an iteration, the class last |
| `EncoderLaws.NestedErrorDiscardsMembers` | AzureSphereSquirrel/HLCore/json.cpp:833-947 | a nested instance that cannot be iterated makes the outer one's members be discarded although its own iteration succeeds |
| `EncoderLaws.ShallowerIsSame` | AzureSphereSquirrel/HLCore/json.cpp:394-454 | what can be encoded at a depth is encoded the same, with the same effect on the error, at every smaller depth |
| `SquirrelEncoder.WriteText` | AzureSphereSquirrel/HLCore/json.cpp:614-634 | strings and blobs |
| `SquirrelEncoder.Encode` | AzureSphereSquirrel/HLCore/json.cpp:96-136 | the encode operation from an empty buffer of 50 bytes |
| `EncodedMeaning.EncodedIsDocument` | AzureSphereSquirrel/HLCore/json.cpp:394-951 | if an object stands for a value at a depth (tables and instances for objects with their members in order and without functions, arrays, literals, integers, strings and blobs of readable bytes, the result of `_serialize`, an instance left with an error for its class), it is encoded and its text is a document of that value |
| `EncodedMeaning.EncodedReadsBack` | AzureSphereSquirrel/HLCore/json.cpp:96-136 | so a JSON parser reads the encoded text as exactly that tree if no two members of one object share a name, and refuses it otherwise |
| `EncodedMeaning.EncodedHasTree` | AzureSphereSquirrel/HLCore/json.cpp:394-951 | whatever is encoded of a graph of readable strings, plain keys and integers stands for a value |
| `EncodedMeaning.StringReadsBackIff` | AzureSphereSquirrel/HLCore/json.cpp:962-1064 | valid UTF-8 is read back from its quoted text if and only if every control byte in it has a two-character escape |
| `EncodedMeaning.ControlByteIsRefused` | AzureSphereSquirrel/HLCore/json.cpp:962-1064 | the byte 1 is written as it is, and a JSON parser refuses it |
| `SquirrelEncoder.TrailedIsJoined` | AzureSphereSquirrel/HLCore/json.cpp:524-534 | overwriting the last comma leaves the comma-joined parts |
| `EncoderLaws.EncodingFailsIff` | AzureSphereSquirrel/HLCore/json.cpp:394-454 | encoding fails if and only if some walk through what is encoded, the class of an instance left with an error included, leads deeper than 32 or to something unserializable, nameless or badly encoded |
| `EncoderLaws.CycleFails` | AzureSphereSquirrel/HLCore/json.cpp:394-402 | an object from which a cycle can be reached, along references of any length between tables, arrays, `_serialize` results, instance members and the classes of instances whose iteration fails, ends in an error at every depth |
| `EncoderLaws.PathFails` | AzureSphereSquirrel/HLCore/json.cpp:394-454 | along such references, whatever the depth, what cannot be encoded at the end makes the start fail |
| `EncoderLaws.HandsOverIff` | AzureSphereSquirrel/HLCore/json.cpp:833-947 | whether an instance's iteration fails does not depend on the depth: any depth at which its members can be encoded decides for all of them |
| `EncoderLaws.RingsFail` | AzureSphereSquirrel/HLCore/json.cpp:394-402 | arrays in a ring fail however many they are |
| `EncoderLaws.WalkFails` | AzureSphereSquirrel/HLCore/json.cpp:394-454 | what cannot be encoded where a walk ends makes its start fail too |
| `EncoderLaws.LoopGoesDeeper` | AzureSphereSquirrel/HLCore/json.cpp:924-942 | the step from an instance to its class does not count as deeper, but every cycle has a step that does |
| `EventQueue.Queue.Wakeup` | AzureSphereSquirrel/HLCore/event_queue.cpp:76-97 | the do-while search inserts behind every event that is not later; the list of nodes stays chained and gains exactly the new event |
| `EventQueue.Queue.Process` | AzureSphereSquirrel/HLCore/event_queue.cpp:109-137 | fires the head exactly if it is due; with the wakeups of its callback the queue becomes what the specification says |
| `EventQueue.Queue.Callback` | AzureSphereSquirrel/HLCore/event_queue.cpp:122-129 | while the callback runs, its event stays behind exactly the wakeups that are earlier than it |
| `EventQueue.InsertKeepsSorted` | AzureSphereSquirrel/HLCore/event_queue.cpp:76-97 | insertion keeps the queue sorted by seconds, then nanoseconds |
| `EventQueue.InsertIsStable` | AzureSphereSquirrel/HLCore/event_queue.cpp:76-97 | among equal deadlines events stay in arrival order, and other deadlines are not disturbed |
| `EventQueue.InsertKeepsItems` | AzureSphereSquirrel/HLCore/event_queue.cpp:76-97 | insertion adds the event and loses none |
| `EventQueue.SortedIsDetermined` | AzureSphereSquirrel/HLCore/event_queue.cpp:76-97 | sortedness and arrival order within each deadline leave only one possible queue |
| `EventQueue.FireConserves` | AzureSphereSquirrel/HLCore/event_queue.cpp:109-137 | firing accounts for every event: the fired one, those still queued, and exactly the callback's earlier wakeups, which are lost |
| `EventQueue.NothingLostIff` | AzureSphereSquirrel/HLCore/event_queue.cpp:109-137 | no event is lost if and only if no wakeup of the callback is earlier than the running event |
| `EventQueue.EarlyFiringCanLoseAWakeup` | AzureSphereSquirrel/HLCore/event_queue.cpp:113-130 | with the 10 ms buffer this happens: an event due in 9 ms asks for a wakeup in 5 ms that never fires |
| `EventQueue.RunAccounts` | AzureSphereSquirrel/HLCore/event_queue.cpp:76-137 | over every run the queue stays sorted, every event added has fired, is queued or was lost, and none fires more often than it was added |
| `EventQueue.RunLosesNothingIff` | AzureSphereSquirrel/HLCore/event_queue.cpp:76-137 | a run loses nothing if and only if none of its callbacks asks for a deadline earlier than its own event's |
| `EventQueue.RunIsStable` | AzureSphereSquirrel/HLCore/event_queue.cpp:76-137 | over every run and for every deadline, the events that have fired followed by those queued are the earlier ones and then the accepted ones in the order of their wakeup calls |
| `EventQueue.ArrivalOrderIff` | AzureSphereSquirrel/HLCore/event_queue.cpp:76-137 | a run fires and queues the events of each deadline in exactly the order in which they were added, none missing, if and only if none of its callbacks asks for a deadline earlier than its own event's |
| `EventQueue.DrainFiresTheDue` | AzureSphereSquirrel/HLCore/event_queue.cpp:109-137 | with the clock held, processing until false fires a front part of the queue, every due event and no other |
| `EventQueue.DrainIsOnTime` | AzureSphereSquirrel/HLCore/event_queue.cpp:113-121 | with normalized times it fires exactly the events that are less than 10 ms ahead and not in a later second |
| `EventQueue.DueIff` | AzureSphereSquirrel/HLCore/event_queue.cpp:113-121 | the due test of one event likewise: the 10 ms are added without carrying |
| `EventQueue.BufferStopsAtTheSecond` | AzureSphereSquirrel/HLCore/event_queue.cpp:113-121 | 5 ms before the end of a second an event 7 ms ahead is not fired |
| `PrettyPrint.Print` | AzureSphereSquirrel/HLCore/pretty_print.cpp:61-129 | the loop over the growing buffer computes the layout of every text on which the indent level never falls below zero |
| `PrettyPrint.Show` | AzureSphereSquirrel/HLCore/pretty_print.cpp:74-124 | one character: quote flag, indent level and the bytes written |
| `PrettyPrint.TracksIff` | AzureSphereSquirrel/HLCore/pretty_print.cpp:72-97 | for every text: at each position its loop visits, skips included, the printer knows whether it is inside a string and how deep the brackets are nested, if and only if no skipped space stands in front of a quote or bracket and no other quote that opens or closes a string follows a backslash |
| `PrettyPrint.SafeIff` | AzureSphereSquirrel/HLCore/pretty_print.cpp:81-91 | on such texts the indent level never falls below zero if and only if no bracket closes more than has been opened |
| `PrettyPrint.LayoutIsLaidOut` | AzureSphereSquirrel/HLCore/pretty_print.cpp:66-125 | on such texts the layout is, byte by byte, the one the text calls for: outside strings a new line with four spaces for each open bracket behind commas and opening brackets and in front of closing ones, and a space behind colons |
| `PrettyPrint.LayoutErasesIff` | AzureSphereSquirrel/HLCore/pretty_print.cpp:66-125 | on such texts the layout without blanks equals the text without blanks if and only if every skipped space takes nothing but a blank with it |
| `PrettyPrint.SpaceHidesAString` | AzureSphereSquirrel/HLCore/pretty_print.cpp:92-97 | a space in front of a string: its comma is laid out as structure although no quote is misread |
| `PrettyPrint.PrettyTextErases` | AzureSphereSquirrel/HLCore/pretty_print.cpp:61-129 | on a clean text the layout is defined, the printer tracks it, and erasing the blanks outside strings gives the text back |
| `PrettyPrint.SpaceSwallowsItsSuccessor` | AzureSphereSquirrel/HLCore/pretty_print.cpp:92-97 | skipping a space outside quotes also skips the next character, whatever it is |
| `PrettyEncoded.EncodedTracksIff` | AzureSphereSquirrel/HLCore/pretty_print.cpp:66-125 | if the numbers in the output of a graph are plain and the strings, blobs, keys and raw texts are written as proper string bodies, the encoder's text is balanced, and the printer tracks it if and only if none of these bodies, as written, ends in a backslash |
| `PrettyEncoded.PlainGraphsPrintFaithfully` | AzureSphereSquirrel/HLCore/pretty_print.cpp:66-125 | with such bodies and none of them ending in a backslash, the text can be printed, and the print without its blanks is the encoder's text |
| `PrettyEncoded.PlainGraphIsTidy` | AzureSphereSquirrel/HLCore/json.cpp:962-1064 | the bodies are proper wherever no key or raw text holds a quote or backslash and no multi-byte group of a string or blob takes one along, whether or not the data is valid UTF-8 |
| `TextScan.PlainGroupsGiveBody` | AzureSphereSquirrel/HLCore/json.cpp:962-1064 | data in which no multi-byte group takes a quote or backslash along is written as a proper string body, whatever bytes are dropped |
| `TextScan.ValidGivesBody` | AzureSphereSquirrel/HLCore/json.cpp:962-1064 | valid UTF-8 is written as a proper string body, and the body ends in a backslash if and only if the data does |
| `PrettyEncoded.BackslashAtEndMisleads` | AzureSphereSquirrel/HLCore/pretty_print.cpp:76-91 | otherwise it can go wrong: a concrete array of two strings drives the indent level below zero |
| `PrettyEncoded.BackslashKeyMisleads` | AzureSphereSquirrel/HLCore/pretty_print.cpp:76-80 | a table whose key is two backslashes, written as it is, makes the printer lose track |
| `PrettyEncoded.DroppedByteMisleads` | AzureSphereSquirrel/HLCore/pretty_print.cpp:76-80 | so does a blob that ends in a byte the encoder drops, behind a backslash |
| `PrettyEncoded.PrintObject` | AzureSphereSquirrel/HLCore/pretty_print.cpp:33-137 | encode, then lay out and terminate |

## Left out

- Numbers in parson are unbounded integers, printed and parsed in decimal. Floating point, `strtod`
  beyond an optional sign and digits, NaN and infinity, the epsilon in comparisons and rounding beyond
  2^53 are not modelled. A bare minus sign is accepted as 0 without the cursor moving, as in the code.
- Allocation failure and the replaceable allocator; sizes and counts are unbounded, so lengths are
  assumed to stay below 2^31.
- Cursors.Cursor.ReadNumber: fractions, exponents and hexadecimal forms, which strtod would convert, are
  not read.
- GrammarLaws.DocumentIff: the numbers of the grammar are integers; fractions and exponents, which RFC 8259
  allows, are not spelled in it.
- RoundTrip.ParsedReadsBack: documents with fractions, exponents or hexadecimal numbers lie outside the
  integer model.
- RoundTrip.SerializedReadsBack: integers beyond 2^53 are outside what the code keeps exactly, and from 10^17
  on it prints an exponent; the text of the model is the code's for integers of at most 2^53 in size.
- Parsed trees are immutable values, taken from the verified tables; pointers are not part of the value.
- ValueStore.Store.ObjectSet: objects in the store keep their entries in a sequence; the array form with
  growth and swap is proved separately, in `ObjectTable`.
- EventQueue.Queue.Process: the clock and the wakeups of the callback are parameters, and the memory of
  fired events and the destructor are not modelled.
- Deadline arithmetic of wakeup is left out: a deadline is an input.
- SquirrelEncoder.WriteNode: what the virtual machine does in `_serialize`, `_serializeRaw` and nexti is
  data of the node: the result, whether it failed, and what it leaves as the machine's last error.
  Table keys are strings, and no strict JSON is claimed for keys that need escapes.
- PrettyEncoded.EncodedTracksIff: output in which a quote of a key, of a raw text or taken along by a multi-byte group
  closes a string is not JSON; on it `PrettyPrint.TracksIff` still says exactly when the printer tracks.
- PrettyPrint.Print: requires that the indent level never falls below zero, because the code then calls
  memset with a negative size; which texts meet this is proved in `SafeIff` and `PrettyTextErases`.
- JSON decode through jsmn and its token arithmetic; jsmn is not part of this model.
- json_validate, and the typed getters and setters that wrap the modelled operations.
- The heap tracker, the DRAM driver, and the network, device and certificate code.
