# Models of InferUI's data structures and layout core

InferUI synthesizes Android layouts. This project models the parts of it that carry the most state, and
proves with Dafny what they are for. Each module stands for one source file or one component of it.

- **JSON** (`JsonValue`, `JsonText`, `JsonNumber`, `JsonString`, `JsonScan`, `JsonToken`, `JsonTree`, `JsonReader`,
  `JsonLayout`, `JsonWriter`, `JsonRoundTrip`): values with their order and equality, the recursive-descent `Reader`
  with its node stack and error recovery, `FastWriter` and `StyledWriter`. `JsonText` gives a grammar as concrete
  syntax trees with a text, a meaning and a depth, independently of reader and writers. It holds the texts of RFC 8259
  without fractions and exponents, which `Strict` singles out, and more: raw control bytes, leading zeros, a comma
  behind the last member. The writers are proved to print strict texts only, and `StyledWriter` in the one layout that
  `JsonLayout` describes (`LaidUnique`); the reader is proved to read every text of the grammar to its meaning, or to
  fail for the one reason that its outcome names. `JsonTree` gives the whole language of the reader, over tokens, on
  arbitrary bytes. The main results are what `parse` does on every input at all (`Reader.Parse`: it succeeds if and
  only if the document begins with a sentence of that language within the bounds, and gives its meaning;
  `ReadsUnique`: there is at most one), the round trips with their exact conditions (`FastRoundTrip`,
  `StyledRoundTrip`), and the order on values with its direction and its exact extent (`TotalOrder`,
  `ComparableExact`).
- **String set** (`StringSet`): an open-addressing table of offsets into one growing buffer, against the list of
  distinct strings (`AddThenFind`).
- **Sparse table** (`SparseBits`, `SparseGroup`, `SparseTable`, `SparseIterator`, `SparseBytes`, `SparseFile`):
  rank and select on bitmaps, groups with packed arrays, the table of groups, its two-level iterator and its file
  format, all against one array of optional values (`PerformAll`, `Traverse`, `SaveAndRestore`).
- **Layout** (`LayoutGraph`, `LayoutConstraints`, `NormalizeMargins`, `FeedbackLoop`): reachability over a mutable
  visited set, the check against circular attributes, anchored views, the attributes generated from positions and
  the equations that a solver makes of them (`OneSolution`), margin normalization against a renderer, and the loop
  that pins misplaced views.
- **K-way merge** (`MultiSorted`): the iterator over several descending lists.

`dafny verify dfyconfig.toml` checks everything.

## How the source's terms appear

- Classes whose methods update their fields are classes here (`Reader`, `FastWriter`, `StyledWriter`, `StringSet`,
  `SparseGroup`, `SparseTable`, `Iterator`, `UserFeedbackSynthesis`, `MultiSortedIterator`), with the source's loops
  as loops. Constant expressions and type switches are functions.
- A byte is a `char` in the JSON and string-set modules; the file format uses numbers below 256.
- A call that the source aborts with an exception or a failed check is a result of its own: `Outcome.StackLimit` for
  the reader's depth limit, `Outcome.TooLarge` for a string that is too long to store and for the array element at
  which `readArray`'s int counter would overflow, `ok == false` in `FeedbackLoop`, `None` in `LayoutGraph`.
- `size()` of an array is an unsigned of 32 bits and wraps, as in the source (`Size`); `FullSize` is what it would be
  without that.
- The layout of a styled document is stated for printed doubles that are not empty and do not end in a blank or a line
  feed (`SolidDoubles`), which `writeIndent` would take for its own; that the text spells the value needs no such
  condition.
- Foreign code is a parameter: reading and printing of doubles (`toDouble`, `showDouble`), the byte behind the
  document that `readArray` may look at (`past`), the value serializer and its inverse, the renderer, the
  synthesizers and the repair passes. A synthesizer may answer the same question differently at another call;
  the renderer depends on its input alone.
- Several ghost parameters name what a caller expects to find (`Expect`, `c`, `tail`). They restrict nothing: the
  contract speaks of that case, for every such argument, and of every other input as well. A ghost result names what
  was found (`tree`).
- The solver's source has equations for attributes with two anchors and none of its own for match-parent; that one is
  taken to keep the margins to both ends of the content frame, as the comment at `constraints.h:87-88` has it.
- Views are referred to by id, as the source's own `operator==` on views does, and the attributes of one orientation
  form a map from ids, a `Graph`.
- Margins between centres are kept doubled, which is exact for the bias of one half.

## Where the code does not do what it is for

- `Value::operator<` is not an order on values with NaN, nor on maps of 2^31 entries (samples in `OrderBreaks`). Of a
  valid value whose maps hold fewer than 2^32 entries, it is in order with every comparable value and with itself if
  and only if it is NaN-free and no map in it holds 2^31 entries (`ComparableExact`). `operator==` equates a value
  with itself if and only if it holds no NaN (`EqualSelf`).
- An array with an entry at index 2^32-1 says that its size is 0, and is written as an empty one (`SizeWraps`); and the
  reader counts elements in an int. A value that nests at most 1000 deep comes back from FastWriter's text if and only
  if every array index in it lies below 2^31-1 (`FastRoundTrip`, `CountableExact`).
- `StyledWriter` prints member names up to their first NUL (`NameCut`), so its text denotes the value if and only if no
  name holds one (`StyledExact`).
- `readObject` accepts a closing brace after a comma when the member before it has the empty name, because it tests the
  last name and not the position: it reads `{"":1,}` and refuses `{"a":1,}` (`TrailingCommas`). Members followed by a
  comma and the brace are read if and only if the last of their names is empty (`ReadTrailingComma`).
- A view of fixed size that is centred on both sides of the content frame and sticks out of it gets an attribute that
  the solver's equations do not admit at the view's own position (`CentredOutside`); the original layout is a solution
  if and only if there is no such view (`OriginalSolves`).

## Model

| member | source | states |
|---|---|---|
| JsonValue.TotalOrder | inferui/json/jsoncpp.cpp:2949-3045 | On NaN-free values whose maps hold at most maxInt entries, operator< is a strict total order, nested arrays and objects included, that agrees with operator==, which is then equality of values; and it points the way that Below says: by type in the order null, int, uint, real, string, bool, array, object; numbers by size, false before true, strings by the first byte that differs or as prefixes, containers by their number of entries and then by the first entry that differs |
| JsonValue.LessExact | inferui/json/jsoncpp.cpp:2949-2994 | One value is less than another exactly when it is below it in that order, by recursion over both |
| JsonValue.BytesExact | inferui/json/jsoncpp.cpp:2710-2718 | Comparing by memcmp and then by length puts a string first exactly when it is a proper prefix, or has the smaller byte where the two first differ |
| JsonValue.KeyExact | inferui/json/jsoncpp.cpp:2708-2720 | Keys go by index, or by name in that order of strings |
| JsonValue.OrderBreaks | inferui/json/jsoncpp.cpp:2949-2994 | Two values beyond these bounds: a NaN is neither below, above nor equal to itself, and an array of 2^31 entries and an empty one are each below the other, because the size difference overflows its int |
| JsonValue.ComparableExact | inferui/json/jsoncpp.cpp:2949-3045 | The bounds are exact: a valid value whose maps hold fewer than 2^32 entries is in order with itself and with every value within the bounds if and only if it lies within them; of every other value a counterpart is built that is both below and above it, or it is not equal to itself |
| JsonValue.BigWitness | inferui/json/jsoncpp.cpp:2949-2994 | A map of 2^31 entries or more at any depth of a NaN-free value gives a value within the bounds that is both below and above it |
| JsonValue.EqualIsEquality | inferui/json/jsoncpp.cpp:3002-3045 | operator== on values without NaN decides structural equality, by recursion over the two maps at once |
| JsonValue.EqualSelf | inferui/json/jsoncpp.cpp:3002-3045 | operator== equates a value with itself if and only if there is no NaN in it, at whatever depth |
| JsonValue.LessTrichotomy | inferui/json/jsoncpp.cpp:2949-2994 | Of two values one is below the other, or they are equal, and never two of these |
| JsonValue.LessTransitive | inferui/json/jsoncpp.cpp:2949-2994 | operator< chains through nested values of mixed types |
| JsonValue.KeyTransitive | inferui/json/jsoncpp.cpp:2708-2720 | The key order is transitive: indices by number, names by bytes and then by length |
| JsonValue.KeyTrichotomy | inferui/json/jsoncpp.cpp:2708-2732 | The key order is total, and incomparable keys are the same key |
| JsonValue.HasKeyExact | inferui/json/jsoncpp.cpp:3384-3398 | lower_bound finds a key of a map exactly when it is there |
| JsonValue.PutAscending | inferui/json/jsoncpp.cpp:3384-3398 | Entering a key keeps the map strictly ascending, so without duplicates |
| JsonValue.PutTwice | inferui/json/jsoncpp.cpp:3457-3474 | A key entered twice keeps its last value only, as when an object repeats a member name |
| JsonValue.PutAllAscending | inferui/json/jsoncpp.cpp:649-741 | Entries put one after the other in ascending order give just their list; in any order they give an ascending map |
| JsonNumber.TooLarge | inferui/json/jsoncpp.cpp:753-793 | A digit string of which a prefix fails the threshold test lies beyond the maximum, whatever digits follow |
| JsonNumber.DecodeNumber | inferui/json/jsoncpp.cpp:753-793 | Every minus-optional digit string decodes to its exact integer if and only if that lies in [-2^63, 2^64-1], with the int tag exactly up to 2^31-1, and otherwise to the double that the parser finds, or to nothing when it finds none; the accumulator stays within 64 bits |
| JsonNumber.UIntToString | inferui/json/jsoncpp.cpp:149-155 | The right-to-left loop prints the decimal digits into a 25-byte buffer, never beyond 21 of them, and ends at the NUL |
| JsonNumber.IntToString | inferui/json/jsoncpp.cpp:4124-4138 | Printing a signed 64-bit integer gives its decimal text, the minimum included |
| JsonNumber.UIntToText | inferui/json/jsoncpp.cpp:4140-4146 | Printing an unsigned 64-bit integer gives its decimal text |
| JsonNumber.PrintThenDecode | inferui/json/jsoncpp.cpp:753-793 | decodeNumber gives back every integer that valueToString printed |
| JsonText.DecimalTextExact | inferui/json/jsoncpp.cpp:149-155 | The decimal text consists of digits that denote the number |
| JsonText.NumberExact | inferui/json/jsoncpp.cpp:783-792 | An integer is an int if and only if it is at most 2^31-1, and keeps its number either way |
| JsonString.ValueToQuotedStringN | inferui/json/jsoncpp.cpp:4271-4332 | The quoted text spells exactly the bytes of the string, in pieces that section 7 of RFC 8259 allows: control characters, quotes and backslashes are escaped, on the short way and on the escaping one |
| JsonString.ValueToQuotedString | inferui/json/jsoncpp.cpp:4194-4254 | The overload without a length spells the bytes before the first NUL |
| JsonText.PiecesOfExact | inferui/json/jsoncpp.cpp:4271-4332 | The pieces that the writer chooses denote exactly the bytes of the string, NUL included |
| JsonText.UpperHexExact | inferui/json/jsoncpp.cpp:4319-4323 | Control characters are spelled with upper-case digits |
| JsonText.EscapesExact | inferui/json/jsoncpp.cpp:843-873 | There are eight short escapes, and each stands for its byte |
| JsonText.Utf8Exact | inferui/json/jsoncpp.cpp:98-130 | The bytes of a code point are read back to it by a decoder that goes by lead and continuation bytes (section 3 of RFC 3629); they are one to four by its range, and no other code point has them |
| JsonText.HexDigitExact | inferui/json/jsoncpp.cpp:910-937 | Digits and letters of either case have their values, and nothing else has one |
| JsonText.HexValueExact | inferui/json/jsoncpp.cpp:910-937 | Four hexadecimal digits are a number in base 16 |
| JsonText.SurrogatesExact | inferui/json/jsoncpp.cpp:888-905 | Two escapes with the halves of a code point beyond 0xFFFF, as section 2.1 of RFC 2781 splits it, denote that code point |
| JsonString.DecodeString | inferui/json/jsoncpp.cpp:828-879 | decodeString succeeds exactly when the bytes up to the first bare quote are spelled by valid escapes and plain bytes; then it gives the text that these denote, and the spelling is unique |
| JsonString.DecodeEscape | inferui/json/jsoncpp.cpp:843-873 | A backslash and what follows decode to the one escape that the text spells, or fail when it spells none |
| JsonString.DecodeCodePoint | inferui/json/jsoncpp.cpp:881-908 | A unicode escape, or two for a surrogate pair, decodes to its code point, whose UTF-8 it is that the text denotes, and fails exactly on what is none |
| JsonString.DecodeHex4 | inferui/json/jsoncpp.cpp:910-937 | Four hexadecimal digits decode to their value, and anything else fails |
| JsonString.UnicodeAtExact | inferui/json/jsoncpp.cpp:881-937 | An escape decodes to the one piece that the text spells, or to none exactly when it spells none |
| JsonString.UnicodePiece | inferui/json/jsoncpp.cpp:881-908 | A valid piece behind a unicode prefix is determined by the text |
| JsonScan.SkipBlankExact | inferui/json/jsoncpp.cpp:515-523 | The first non-blank position is the only one with blanks before it and none at it |
| JsonScan.QuotedToken | inferui/json/jsoncpp.cpp:637-646 | The string token of a quoted name ends exactly behind its closing quote, whatever escapes it holds |
| JsonScan.StringEndPieces | inferui/json/jsoncpp.cpp:637-646 | No piece of a spelled string ends the token early |
| JsonReader.Reader.SkipSpaces | inferui/json/jsoncpp.cpp:515-523 | The cursor moves to the first byte that is no blank |
| JsonReader.Reader.Match | inferui/json/jsoncpp.cpp:525-534 | The cursor passes a pattern exactly when it is there |
| JsonReader.Reader.ReadString | inferui/json/jsoncpp.cpp:637-647 | The cursor stops behind the first quote that no backslash escapes, or at the end of the document |
| JsonReader.Reader.ReadNumber | inferui/json/jsoncpp.cpp:615-636 | The cursor passes the digits, the fraction and the exponent that the text has, and nothing else |
| JsonReader.Reader.ReadComment | inferui/json/jsoncpp.cpp:536-613 | A block comment ends behind the first star with a slash after it, a line comment behind the first line end of any of the three kinds, and anything else fails where the source stops looking |
| JsonReader.Reader.ReadToken | inferui/json/jsoncpp.cpp:444-513 | The token at the cursor is the one that the document fixes: its kind and its end, of errors and comments too |
| JsonReader.Reader.SkipCommentTokens | inferui/json/jsoncpp.cpp:434-442 | The first token from the cursor on that is no comment |
| JsonReader.Reader.RecoverFromError | inferui/json/jsoncpp.cpp:949-960 | Recovery always ends, behind the first token of the kind looked for or of the end of the stream, returns false, and drops the errors met on the way |
| JsonReader.Reader.ReadScalar | inferui/json/jsoncpp.cpp:371-418 | The cases of readValue that read one token: the value that the token denotes, an error and false exactly when it denotes none, or an exception when its string is too long to store |
| JsonReader.Reader.ReadValue | inferui/json/jsoncpp.cpp:350-432 | On every input: true if and only if a sentence of the reader's language within the bounds begins at the cursor, which is then read to its meaning and to its end; an exception names the bound that the sentence exceeds; the node stack is left as it was but for the top, and true is returned exactly when no error was recorded. Of a grammar text every outcome names the reason: read to its meaning when it is neither too deep, too long nor has a comma behind a named last member |
| JsonReader.Reader.ReadArray | inferui/json/jsoncpp.cpp:705-741 | The same for the inside of an array: elements in order, separators, the peek for an empty array, recovery at the first failure, and the int counter that overflows behind 2^31-1 elements |
| JsonReader.Reader.ReadObject | inferui/json/jsoncpp.cpp:649-703 | The same for the inside of an object: names, colons, members with the last of equal names kept, any token for a comma behind a comment, and a trailing comma exactly behind an empty name |
| JsonReader.Reader.ReadChild | inferui/json/jsoncpp.cpp:681-685 | A child is read into a slot of its parent while the stack holds one entry more, and the stack is back afterwards |
| JsonReader.Reader.ArrayNext | inferui/json/jsoncpp.cpp:725-738 | Behind an element comes a comma, the closing bracket, or an error, whatever comments stand between |
| JsonReader.Reader.ObjectNext | inferui/json/jsoncpp.cpp:688-702 | Behind a member comes a comma or any token behind a comment, the closing brace, or an error |
| JsonReader.Reader.ReadName | inferui/json/jsoncpp.cpp:664-680 | A member name is decoded and its colon passed, or an error recorded, exactly when the token denotes no text or no colon follows at once |
| JsonReader.Reader.ReadNextElement | inferui/json/jsoncpp.cpp:713-740 | One round of the array loop: one more element of the sentence and its comma, the end of the sentence, or proof that no sentence goes on this way |
| JsonReader.Reader.ReadNextMember | inferui/json/jsoncpp.cpp:664-699 | One round of the object loop: one more member of the sentence and what passes for its comma, the end, or proof that no sentence goes on this way |
| JsonReader.Reader.Parse | inferui/json/jsoncpp.cpp:308-348 | On every document parse ends, or throws; it returns true, which is exactly when no error was recorded, if and only if the document begins with a sentence of the reader's language that nests at most 1000 deep and has no list longer than an int counts, and then root is the meaning of that sentence; an exception says which bound a sentence exceeds. On grammar text root is the text's meaning, and every other outcome names what is wrong with it |
| JsonTree.ReadsUnique | inferui/json/jsoncpp.cpp:350-741 | The reader's language is unambiguous: one token begins at most one sentence, whatever its comments, odd commas and numbers |
| JsonTree.ListMust | inferui/json/jsoncpp.cpp:713-740 | A list of the language goes on behind every element that a comma follows, with the element that the next token begins |
| JsonTree.RecordMust | inferui/json/jsoncpp.cpp:655-699 | A record goes on behind every member that something passing for a comma follows, or ends there exactly when the last name is empty and a brace follows |
| JsonTree.ListEnd | inferui/json/jsoncpp.cpp:713-740 | Elements read one by one, with commas between and the bracket behind, are a list of the language with the meaning of the map built on the way |
| JsonTree.MembersLast | inferui/json/jsoncpp.cpp:655-699 | So are members read one by one, with the last of equal names kept |
| JsonTree.DenotesUnique | inferui/json/jsoncpp.cpp:828-879 | A string token denotes at most one text |
| JsonTree.StoredText | inferui/json/jsoncpp.cpp:2526-2547 | A string is stored if and only if its length modulo 2^32 is at most 2^31-6, cut to that length; so it is stored whole when its length is |
| JsonTree.StoredName | inferui/json/jsoncpp.cpp:2664-2673 | A member name is kept whole when it has fewer than 2^30 bytes, and otherwise cut to its length modulo 2^30 |
| JsonString.SpellsUnique | inferui/json/jsoncpp.cpp:828-879 | No two spellings have the same text |
| JsonReader.FirstToken | inferui/json/jsoncpp.cpp:444-513 | The first token of a grammar text is settled by its first byte |
| JsonReader.ElemsStep | inferui/json/jsoncpp.cpp:649-741 | One more element of a list or record puts one more entry under its key |
| JsonReader.RecordHead | inferui/json/jsoncpp.cpp:655-663 | At the head of the object loop a grammar text has a name, or its closing brace, which is taken exactly when the last name is empty |
| JsonReader.Separator | inferui/json/jsoncpp.cpp:688-738 | Behind the i-th element of a grammar text stands a comma, or at the last one the bracket unless a trailing comma comes first |
| JsonWriter.FastWriter.WriteValue | inferui/json/jsoncpp.cpp:4359-4411 | FastWriter appends the text of one concrete syntax tree, whatever the nesting |
| JsonWriter.FastWriter.Write | inferui/json/jsoncpp.cpp:4351-4357 | The document is that text and a line feed |
| JsonText.FastMeaning | inferui/json/jsoncpp.cpp:4359-4411 | What FastWriter prints is strict text that denotes the value in normal form, nested exactly as deep as the value, with an array too long to be counted exactly when the value has one |
| JsonText.StrictAccepted | inferui/json/jsoncpp.cpp:649-741 | Every strict text of the grammar is one that the reader takes |
| JsonText.NormShape | inferui/json/jsoncpp.cpp:4359-4411 | The normal form keeps the children, their keys and their order |
| JsonText.FastSyntaxNorm | inferui/json/jsoncpp.cpp:4359-4411 | FastWriter prints a value and its normal form alike |
| JsonWriter.StyledWriter.Write | inferui/json/jsoncpp.cpp:4419-4428 | The document is one syntax tree and a line feed. It spells the value, and it is laid out: members, and elements of an array on many lines, stand on lines of their own, three blanks further in per level, the closing bracket on its own line back out; an array on one line has one blank at each bracket and behind each comma; and an array goes on one line exactly when it has fewer than 25 elements, no non-empty container among them, and a line of fewer than 74 characters, at every depth |
| JsonLayout.LaidUnique | inferui/json/jsoncpp.cpp:4419-4587 | A value has only one layout, so that the document is determined to the byte |
| JsonWriter.LineLengthExact | inferui/json/jsoncpp.cpp:4543-4556 | The length that is added up in 32 bits is that of the whole line, brackets, commas and blanks included, cut to 32 bits once |
| JsonWriter.StyledSample | inferui/json/jsoncpp.cpp:4419-4580 | The object with two integer members is written on four lines, its members three blanks in |
| JsonWriter.StyledWriter.WriteValue | inferui/json/jsoncpp.cpp:4430-4487 | One value is spelled and laid out at the level that the indentation stands for, into the document or into one new entry of the child cache |
| JsonWriter.StyledWriter.WriteIndent | inferui/json/jsoncpp.cpp:4566-4575 | What is added in front of a line is settled by the last byte written |
| JsonWriter.StyledWriter.WriteObjectValue | inferui/json/jsoncpp.cpp:4460-4485 | An object is spelled member by member, each laid out on its own line one level further in, and the indentation is as before |
| JsonWriter.StyledWriter.WriteMember | inferui/json/jsoncpp.cpp:4469-4474 | A member is a line feed, three blanks per level, its name up to the first NUL, a colon between blanks and its value laid out at that level |
| JsonWriter.StyledWriter.WriteArrayValue | inferui/json/jsoncpp.cpp:4489-4530 | An array is laid out on one line or on many, as the rule decides, from the cache or anew |
| JsonWriter.StyledWriter.WriteOneLine | inferui/json/jsoncpp.cpp:4518-4527 | The one-line layout of the whole array, from the cache |
| JsonWriter.StyledWriter.WriteManyLines | inferui/json/jsoncpp.cpp:4495-4517 | The many-line layout of the whole array, and the indentation is as before |
| JsonWriter.StyledWriter.WriteElements | inferui/json/jsoncpp.cpp:4500-4515 | Every element on its own line, in order, with a comma right behind all but the last |
| JsonWriter.StyledWriter.WriteSingleLine | inferui/json/jsoncpp.cpp:4518-4527 | The one-line layout prints every cached element once, in order, with one blank behind the bracket and behind every comma and none elsewhere |
| JsonWriter.StyledWriter.WriteElement | inferui/json/jsoncpp.cpp:4501-4515 | A line of the multi-line layout is a line feed, three blanks per level and its element, which comes from the cache when there is one |
| JsonWriter.StyledWriter.IsMultilineArray | inferui/json/jsoncpp.cpp:4532-4557 | Many lines are picked exactly for a size of 25 or more, a non-empty container among the elements, or a line of 74 or more, in 32-bit arithmetic; the child cache is left empty, or with exactly one string per element, each the text of its element |
| JsonWriter.StyledWriter.FillCache | inferui/json/jsoncpp.cpp:4543-4553 | Filling the cache prints nothing and stores one string per element |
| JsonRoundTrip.StyledExact | inferui/json/jsoncpp.cpp:4419-4587 | The text of StyledWriter denotes the normal form if and only if no member name holds a NUL |
| JsonRoundTrip.ParseText | inferui/json/jsoncpp.cpp:308-348 | Parsing a document that begins with grammar text gives its meaning if and only if it is nested at most 1000 deep, holds no array longer than an int counts and no comma behind a last member with a name; otherwise the outcome names which of these fails; so these texts are in the reader's language, with the same meaning |
| JsonRoundTrip.FastRoundTrip | inferui/json/jsoncpp.cpp:4351-4411 | Write, parse, write: for real-free values the same value comes back, with the same integers, sizes, names and entries at every depth, if and only if it nests at most 1000 deep and all its array indices lie below 2^31-1; what comes back is the normal form and prints to the same text; never a syntax error |
| JsonRoundTrip.StyledRoundTrip | inferui/json/jsoncpp.cpp:4419-4587 | Write with any layout and parse: the same value comes back if and only if besides no member name holds a NUL |
| JsonRoundTrip.CountableExact | inferui/json/jsoncpp.cpp:3327-3332 | The condition on array indices, at every depth, is that no size wraps in its 32 bits and none exceeds an int |
| JsonRoundTrip.NormSame | inferui/json/jsoncpp.cpp:3327-3332 | The normal form is the same value if and only if no array's size wraps |
| JsonRoundTrip.CutNormSame | inferui/json/jsoncpp.cpp:4467-4474 | With names cut at their first NUL it is the same value if and only if besides no name holds one |
| JsonRoundTrip.SizeWraps | inferui/json/jsoncpp.cpp:3327-3332 | The array with one entry at index 2^32-1 is valid, has size 0, and is written as an empty array, which is not the same value |
| JsonRoundTrip.NameCut | inferui/json/jsoncpp.cpp:4467-4474 | An object whose one name has a NUL in it comes back with the name cut |
| JsonRoundTrip.ReadTrailingComma | inferui/json/jsoncpp.cpp:655-663 | Readable members, a comma and the closing brace are read, to the meaning they have without the comma, if and only if the last of their names is empty; otherwise parse fails |
| JsonRoundTrip.TrailingCommas | inferui/json/jsoncpp.cpp:655-663 | The object with the empty name and a trailing comma is read, and the one with the name a is refused |
| JsonRoundTrip.ReadNested | inferui/json/jsoncpp.cpp:350-356 | n arrays, each inside the other, are read if n is at most 1000, and otherwise end with the exception |
| JsonRoundTrip.CutNormNulFree | inferui/json/jsoncpp.cpp:4467-4474 | What is read back from StyledWriter has NUL-free names at every depth |
| StringSet.StringSet.FindStringL | inferui/base/stringset.cpp:56-69 | Probing ends at the offset of the string, or at a free slot with -1, and -1 is returned exactly when the string was not added |
| StringSet.StringSet.AddHashNoRehash | inferui/base/stringset.cpp:87-96 | The offset goes into the first free slot behind its home, and every string stays reachable |
| StringSet.StringSet.RehashAll | inferui/base/stringset.cpp:98-107 | Walking the buffer enters every string again into a fresh table that has room |
| StringSet.StringSet.AddHash | inferui/base/stringset.cpp:79-85 | The table grows to 2n+3 slots exactly when it is half full, once at most, until the new load is at most half of it |
| StringSet.StringSet.AddString | inferui/base/stringset.cpp:45-54 | Adding returns the buffer offset of the string, appends it only when it is new, for which alone it needs room, and only extends the buffer |
| StringSet.StringSet.GetAllStrings | inferui/base/stringset.cpp:109-117 | The offsets of all strings, in the order of the buffer |
| StringSet.StringSet.ContainsString | inferui/base/stringset.cpp:35-38 | True exactly for the strings added |
| StringSet.TableInsert | inferui/base/stringset.cpp:87-96 | A table keeps every earlier string reachable from its home without a gap when one free slot is taken |
| StringSet.TableGrows | inferui/base/stringset.cpp:79-85 | A table stays one when the list of strings gets longer behind the entered ones |
| StringSet.DedupExact | inferui/base/stringset.cpp:45-54 | The strings kept are the distinct ones in the order of their first addition, and earlier ones never move |
| StringSet.OffsetStable | inferui/base/stringset.cpp:45-54 | An offset given out once is that string's offset ever after |
| StringSet.HashExact | inferui/base/stringset.cpp:71-77 | The hash is 13 times the polynomial in 33 of the signed bytes with 5381 in front, modulo 2^32 and as a signed number: the 64-bit steps and the sign extension lose nothing |
| StringSet.HomeExact | inferui/base/stringset.cpp:87-90 | A negative hash is taken modulo 2^64 before it is reduced to the table |
| StringSet.OffsetsAgreeStep | inferui/base/stringset.cpp:45-54 | One more addition leaves all offsets given out before agreeing with the buffer |
| StringSet.AddThenFind | inferui/base/stringset.cpp:40-117 | Over every run of additions whose distinct strings fit the buffer, repeats without limit and every rehash on the way: each addition returns its string's offset in the final buffer, equal strings share one, the entries are the distinct strings, and a look-up finds a string exactly when it was added |
| StringSet.LoadFromFile | inferui/base/stringset.cpp:127-139 | Loading a saved buffer rebuilds a table that finds every string of it |
| StringSet.SaveThenLoad | inferui/base/stringset.cpp:119-139 | Saving and loading gives the same strings at the same offsets |
| SparseBits.BitsInChar | inferui/base/sparsehash/sparsetable.h:904-926 | The 256-entry table holds the number of set bits of every byte |
| SparseBits.PosToOffset | inferui/base/sparsehash/sparsetable.h:937-945 | Counts the set bits below a position of any bitmap, the shortcut over whole bytes included |
| SparseBits.OffsetToPos | inferui/base/sparsehash/sparsetable.h:956-979 | Returns the position of the set bit of a given rank, or, where there is none, the number of positions in 16 bits, which wraps to 0 for the largest bitmap |
| SparseBits.SelectInByte | inferui/base/sparsehash/sparsetable.h:963-978 | Clearing lowest bits leads to the bit of the given rank within a byte |
| SparseBits.ClearLowest | inferui/base/sparsehash/sparsetable.h:966-970 | Clearing the lowest set bit keeps the others and lowers their ranks by one |
| SparseBits.LowestPosition | inferui/base/sparsehash/sparsetable.h:970-976 | The bits below the lowest set one count its position |
| SparseBits.RankInByte | inferui/base/sparsehash/sparsetable.h:937-945 | The rank of a position is the count of whole bytes and a masked one |
| SparseBits.RankInjective | inferui/base/sparsehash/sparsetable.h:937-945 | Different assigned positions have different ranks |
| SparseBits.RankUpdate | inferui/base/sparsehash/sparsetable.h:1110-1197 | Flipping one bit shifts by one the ranks behind it, and no other |
| SparseBits.RankSelect | inferui/base/sparsehash/sparsetable.h:937-979 | offset_to_pos undoes pos_to_offset on every assigned position |
| SparseBits.UpdatedByte | inferui/base/sparsehash/sparsetable.h:876-880 | Setting or clearing a bit changes that position of the bitmap and no other |
| SparseBits.SameBitmap | inferui/base/sparsehash/sparsetable.h:1269-1273 | Bitmaps that mark the same positions are the same bytes |
| SparseGroup.PackedSplit | inferui/base/sparsehash/sparsetable.h:1046-1066 | The packed array holds the assigned values before an index, then its own, then those behind |
| SparseGroup.RankPacked | inferui/base/sparsehash/sparsetable.h:937-945 | The rank of an index in the bitmap is its place in the packed array |
| SparseGroup.SparseGroup.SetAux | inferui/base/sparsehash/sparsetable.h:1086-1107 | Makes room at an offset by moving the rest up by one |
| SparseGroup.SparseGroup.EraseAux | inferui/base/sparsehash/sparsetable.h:1149-1172 | Closes the gap at an offset by moving the rest down by one |
| SparseGroup.SparseGroup.Get | inferui/base/sparsehash/sparsetable.h:1046-1052 | The assigned value, or the default value |
| SparseGroup.SparseGroup.Set | inferui/base/sparsehash/sparsetable.h:1110-1130 | The group holds the new value at its index and what it held elsewhere, packed in index order |
| SparseGroup.SparseGroup.MutatingGet | inferui/base/sparsehash/sparsetable.h:1062-1066 | An unassigned index is given the default value first; nothing else changes |
| SparseGroup.SparseGroup.Erase | inferui/base/sparsehash/sparsetable.h:1178-1197 | The index is unassigned, everything else is as before, still packed in index order |
| SparseGroup.SparseGroup.EraseRange | inferui/base/sparsehash/sparsetable.h:1203-1209 | The indices of a range are unassigned and no others |
| SparseGroup.SparseGroup.Clear | inferui/base/sparsehash/sparsetable.h:1029-1036 | No index is assigned |
| SparseGroup.SparseGroup.Equals | inferui/base/sparsehash/sparsetable.h:1269-1273 | operator== on groups decides equality of what they hold |
| SparseGroup.SparseGroup.OffsetToPos | inferui/base/sparsehash/sparsetable.h:981-983 | The index whose value lies at an offset of the packed array |
| SparseGroup.PackedLast | inferui/base/sparsehash/sparsetable.h:1269-1273 | What is assigned, and the packed values, determine the whole group |
| SparseGroup.BitmapMarks | inferui/base/sparsehash/sparsetable.h:1216-1226 | The stored bitmap marks exactly the assigned indices |
| SparseGroup.MarksUnique | inferui/base/sparsehash/sparsetable.h:1216-1226 | No other bitmap of that length does |
| SparseGroup.SparseGroup.ReadMetadata | inferui/base/sparsehash/sparsetable.h:1228-1239 | Restores the count and bitmap that write_metadata wrote, and reads not a byte more; other input leaves a group of consistent shape |
| SparseGroup.SparseGroup.ReadValues | inferui/base/sparsehash/sparsetable.h:1757-1766 | Restores a group's values from what the serializer wrote for them |
| SparseTable.IndexUnique | inferui/base/sparsehash/sparsetable.h:1457-1462 | A group and a place in it stand for one index, and back |
| SparseTable.GroupsCover | inferui/base/sparsehash/sparsetable.h:1453-1455 | num_groups groups cover all indices, and all but the last lie below the size |
| SparseTable.TakeWindow | inferui/base/sparsehash/sparsetable.h:1512-1525 | The packed array of the table is that of its groups, one after the other |
| SparseTable.WindowCut | inferui/base/sparsehash/sparsetable.h:1512-1525 | Which places of the groups survive a shrink, with and without a partial last group |
| SparseTable.ShrinkThenGrow | inferui/base/sparsehash/sparsetable.h:1512-1525 | Indices cut off by a shrink are unassigned after a later grow |
| SparseTable.SparseTable.Set | inferui/base/sparsehash/sparsetable.h:1605-1611 | Through group, bitmap and both counts, the table holds the value at that index and what it held elsewhere |
| SparseTable.SparseTable.MutatingGet | inferui/base/sparsehash/sparsetable.h:1557-1563 | An unassigned index is given the default value first; the value is returned |
| SparseTable.SparseTable.Erase | inferui/base/sparsehash/sparsetable.h:1615-1620 | The index is unassigned, everything else is as before |
| SparseTable.SparseTable.Clear | inferui/base/sparsehash/sparsetable.h:1487-1493 | Nothing is assigned, the size stays |
| SparseTable.SparseTable.Resize | inferui/base/sparsehash/sparsetable.h:1512-1525 | The contents are cut off or filled up with unassigned indices, the tail of the last group is cleared, and the count is that of what is left |
| SparseTable.SparseTable.ResizeGroups | inferui/base/sparsehash/sparsetable.h:1513 | Groups are dropped from the end, or empty ones added, none shared |
| SparseTable.SparseTable.OneGroup | inferui/base/sparsehash/sparsetable.h:1557-1620 | An operation on one group leaves every other group valid and as it was |
| SparseTable.SparseTable.OneIndex | inferui/base/sparsehash/sparsetable.h:1557-1620 | An operation on one index keeps the table valid, its count included |
| SparseTable.SparseTable.Equals | inferui/base/sparsehash/sparsetable.h:1771-1775 | operator== decides equality of the arrays of optional values |
| SparseTable.PerformAll | inferui/base/sparsehash/sparsetable.h:1487-1620 | Over every run of set, mutating_get, erase, clear and resize the table holds what an array of optional values would hold, and every bucket count is the number of assigned indices |
| SparseTable.IndicesIndependent | inferui/base/sparsehash/sparsetable.h:1487-1620 | What a run makes of an index depends on the operations on that index, clear and resize alone |
| SparseTable.CountAssigned | inferui/base/sparsehash/sparsetable.h:1509 | The packed array is as long as the set of assigned indices |
| SparseIterator.Iterator.AdvancePastEnd | inferui/base/sparsehash/sparsetable.h:569-577 | Any run of empty groups is skipped without passing a value |
| SparseIterator.Iterator.Increment | inferui/base/sparsehash/sparsetable.h:579-584 | The place goes on by exactly one assigned index |
| SparseIterator.Iterator.Decrement | inferui/base/sparsehash/sparsetable.h:585-594 | The place goes back by exactly one assigned index, from the end, too |
| SparseIterator.Iterator.Equals | inferui/base/sparsehash/sparsetable.h:600-605 | Iterators are equal exactly when they have passed equally many assigned indices |
| SparseIterator.Iterator.AtEnd | inferui/base/sparsehash/sparsetable.h:1416-1420 | The end is met exactly when all assigned indices have been passed |
| SparseIterator.Iterator.GetPos | inferui/base/sparsehash/sparsetable.h:1594-1600 | The assigned index whose rank is the iterator's |
| SparseIterator.IncrementThenDecrement | inferui/base/sparsehash/sparsetable.h:579-594 | Decrement undoes increment: same row, same column |
| SparseIterator.IterThenPos | inferui/base/sparsehash/sparsetable.h:1575-1600 | get_pos undoes get_iter on every assigned index |
| SparseIterator.Traverse | inferui/base/sparsehash/sparsetable.h:569-584 | A walk from begin to end meets every assigned index exactly once, in ascending order, with its value |
| SparseIterator.PlaceUnique | inferui/base/sparsehash/sparsetable.h:600-605 | Different places hold values of different ranks, in row order |
| SparseBytes.WriteBigEndian | inferui/base/sparsehash/internal/hashtable-common.h:175-187 | Writes the last length digits of a number in base 256, most significant first |
| SparseBytes.ReadBigEndian | inferui/base/sparsehash/internal/hashtable-common.h:162-173 | Reads that many bytes as a number, or fails exactly when there are fewer |
| SparseBytes.NumberRoundTrip | inferui/base/sparsehash/internal/hashtable-common.h:162-187 | A number that fits its bytes is read back |
| SparseBytes.ReadSize | inferui/base/sparsehash/sparsetable.h:1666-1678 | A size below 2^64 is read back from its 4 bytes, or its marker and 8 bytes, and not a byte more |
| SparseBytes.SizeStart | inferui/base/sparsehash/sparsetable.h:1652-1678 | The first four bytes tell the two encodings apart |
| SparseFile.WriteMetadata | inferui/base/sparsehash/sparsetable.h:1683-1692 | By position: the bytes 24 68 75 31, the size of the table, the number of values, and then just enough groups for the size, each as wide as the other, with two bytes for its count and a bit for every index, the lowest of a byte first |
| SparseFile.MetadataExact | inferui/base/sparsehash/sparsetable.h:1683-1692 | The metadata of every array of optional values have that form |
| SparseGroup.GroupExact | inferui/base/sparsehash/sparsetable.h:1216-1226 | A group's metadata are two bytes of its count, most significant first, and bit j of byte b for index 8b+j, padded with zeros |
| SparseBytes.SizeExact | inferui/base/sparsehash/sparsetable.h:1652-1664 | A size below 4294967295 is its four bytes, and any other is four times 255 and its eight bytes, most significant first |
| SparseFile.Serialize | inferui/base/sparsehash/sparsetable.h:1745-1752 | The file is the metadata and all assigned values in index order |
| SparseFile.ReadMetadata | inferui/base/sparsehash/sparsetable.h:1695-1711 | Restores sizes, counts and bitmaps of a written table into any table |
| SparseFile.Unserialize | inferui/base/sparsehash/sparsetable.h:1757-1766 | Restores the table from its file, whatever it held before, and reads not a byte more |
| SparseFile.SaveAndRestore | inferui/base/sparsehash/sparsetable.h:1745-1766 | unserialize after serialize restores the same size, assigned indices and values, given a deserializer that inverts the serializer on the values in the table |
| LayoutGraph.SplitThenJoin | inferui/inferui/model/model.cpp:173-201 | Joining the halves of a centre anchor gives it back, and exactly the centre anchors can be split |
| LayoutGraph.JoinThenSplit | inferui/inferui/model/model.cpp:173-201 | Exactly a start anchor and an end anchor of one orientation can be joined, and splitting gives them back |
| LayoutGraph.ReferencedNodesInner | inferui/inferui/model/model.cpp:390-411 | The search ends on every graph, cyclic or not, adds only reachable views, and leaves no target of a new one out |
| LayoutGraph.ReferencedNodes | inferui/inferui/model/model.h:217-221 | Exactly the views that a view reaches, itself among them |
| LayoutGraph.IsCircularRelation | inferui/inferui/model/model.cpp:413-420 | True exactly when some target reaches the view |
| LayoutGraph.AssignKeepsAcyclic | inferui/inferui/model/model.cpp:413-420 | On an acyclic graph, giving a view an attribute keeps the graph acyclic if and only if the check finds it not circular |
| LayoutGraph.AssignAll | inferui/inferui/model/model.h:246-254 | Over any sequence of assignments that the check admits, an acyclic graph stays acyclic |
| LayoutGraph.IsAnchoredInner | inferui/inferui/model/model.cpp:365-388 | On acyclic graphs the recursion ends, never meets a visited view, and its sharing of the visited set does not change the result |
| LayoutGraph.IsAnchored | inferui/inferui/model/model.h:227-230 | True exactly when every view reached from the start is the content frame or has an attribute |
| LayoutGraph.IsAnchoredWithAttr | inferui/inferui/model/model.cpp:422-429 | True exactly when all targets are anchored, which for a non-circular attribute is whether the view will be anchored once it has it |
| LayoutGraph.NotReached | inferui/inferui/model/model.cpp:365-388 | Being anchored does not depend on the attribute of a view that is not reached |
| LayoutConstraints.GenFixedSizeRelationalConstraints | inferui/inferui/model/constraints.h:62-83 | For every other view, and near and far ends of both in turn, it emits the attribute with the distance of the two ends as margin, the margin of the end that the anchor fixes, if that is at least zero and the ends do not cross the content frame: these, each once and in this order, and nothing else |
| LayoutConstraints.GenFixedSizeCenteringConstraints | inferui/inferui/model/constraints.h:37-59 | For every pair of other views, in row order, and near and far ends of both in turn, it emits the attribute with twice the distance between the middle of the view and the middle of the two ends as start or end margin, unless one view gives both ends, they are equal, and the distance is not zero: these, each once and in this order, and nothing else |
| LayoutConstraints.GenMatchParentCenteringConstraints | inferui/inferui/model/constraints.h:86-103 | Emits one attribute, whose margins are the view's distances to both ends of the content frame, when the view lies within the frame, and nothing when it sticks out |
| LayoutConstraints.GenMatchConstraintCenteringConstraints | inferui/inferui/model/constraints.h:106-128 | For every pair of other views, in row order, and near and far ends of both in turn, it emits the attribute with the distances of both ends as margins if both are at least zero: these, each once and in this order, and nothing else |
| LayoutConstraints.RelationalMember | inferui/inferui/model/constraints.h:62-83 | An attribute is among the relational ones exactly when some view and some type give it |
| LayoutConstraints.PairMember | inferui/inferui/model/constraints.h:37-59 | An attribute is among those of the pairs exactly when some two views and some type give it |
| LayoutConstraints.RelationalEdges | inferui/inferui/model/constraints.h:62-83 | The types in turn are the four pairs of ends, and margins and conditions are their distances |
| LayoutConstraints.AllEdges | inferui/inferui/model/constraints.h:62-83 | So are those of all views, in order |
| LayoutConstraints.RelationalByEdges | inferui/inferui/model/constraints.h:62-83 | An attribute is emitted exactly when some view and some pair of ends give it |
| LayoutConstraints.PairedEdges | inferui/inferui/model/constraints.h:37-59 | So for pairs of views, of fixed size and of match-constraint |
| LayoutConstraints.CenterMarginExact | inferui/inferui/model/constraints.cpp:21-43 | The doubled margin of a centring attribute is the distance between the doubled middles, for every type |
| LayoutConstraints.RelationalExact | inferui/inferui/model/constraints.cpp:45-67 | A relational attribute is true of the original position of its view, and of no other |
| LayoutConstraints.MatchExact | inferui/inferui/model/constraints.cpp:45-67 | So are match-parent and match-constraint attributes |
| LayoutConstraints.CenteringExact | inferui/inferui/model/constraints.cpp:21-43 | A centring attribute, rounding included, is true of no other position than the original, and of that exactly when the view does not stick out of a content frame on which both its targets lie |
| LayoutConstraints.CenteredExactly | inferui/inferui/synthesis/z3inference.cpp:30-33 | Rounding to zero leaves two doubled distances, of which the parity admits one |
| LayoutConstraints.SolutionIsOriginal | inferui/inferui/model/constraints.h:36-128 | In every solution of an acyclic, anchored system of generated attributes every view is where it was |
| LayoutConstraints.OriginalSolves | inferui/inferui/synthesis/z3inference.cpp:51-63 | The original layout is a solution if and only if every view of fixed size that is centred on both sides of the content frame lies inside it |
| LayoutConstraints.OneSolution | inferui/inferui/model/constraints.h:36-128 | A layout solves an acyclic, anchored system of generated attributes if and only if it is the original layout and no view that is centred on both sides of the content frame sticks out of it |
| LayoutConstraints.CentredOutside | inferui/inferui/model/constraints.h:37-59 | A generated attribute that the original layout does not satisfy: a view centred on the content frame that sticks out of it |
| NormalizeMargins.AppMatch | inferui/inferui/model/syn_helper.cpp:399-409 | True exactly when both applications have equally many views, each with the same extent in both orientations |
| NormalizeMargins.FindUnnormalizedAttributes | inferui/inferui/model/syn_helper.cpp:237-251 | Exactly the unresolved views, but for the content frame, with margins (0,1) or (1,0), in ascending order |
| NormalizeMargins.OnePixelExact | inferui/inferui/model/syn_helper.cpp:240-247 | The margins in question are one pixel on one side and none on the other |
| NormalizeMargins.SetIntersection | inferui/inferui/model/syn_helper.cpp:215-219 | The merge of two ascending lists gives their common elements |
| NormalizeMargins.IsIndependent | inferui/inferui/model/syn_helper.cpp:209-222 | True exactly when the view reaches no other view of the list |
| NormalizeMargins.SomeIndependent | inferui/inferui/model/syn_helper.cpp:276-295 | Every non-empty list of views of an acyclic graph has an independent one |
| NormalizeMargins.ChangeOne | inferui/inferui/model/syn_helper.cpp:276-295 | A pass over the unresolved views always finds an independent one, and changes its margins to (0,0) and nothing else |
| NormalizeMargins.NormalizeOrientation | inferui/inferui/model/syn_helper.cpp:272-307 | The loop ends, keeps the application matching its own rendering after every iteration, changes only margins (0,1) or (1,0) to (0,0), and leaves such a margin only where the renderer rejected its change on the way |
| NormalizeMargins.NormalizeMargins | inferui/inferui/model/syn_helper.cpp:263-310 | For every deterministic renderer the result is the input or matches its own rendering, with the same positions and only one-pixel margins set to zero; such a margin is left, in either orientation, only where the renderer rejected its change on the way, and an input that does not match its rendering comes back as it is |
| NormalizeMargins.NormalizesAcyclic | inferui/inferui/model/syn_helper.cpp:263-310 | Changing margins changes no edge, so an acyclic graph stays acyclic |
| FeedbackLoop.FindNonEqualViews | inferui/inferui/datasets/dataset_util.cpp:250-263 | Exactly the indices, from 1 on, of views whose extents differ in an orientation |
| FeedbackLoop.FixedPositionExact | inferui/inferui/model/model.h:262-264 | A view has a position exactly when none of its four coordinates is -1 |
| FeedbackLoop.EmptyViewExact | inferui/inferui/model/syn_helper.cpp:372-386 | What is told of an unpinned view is its id and no position; the content frame is always told |
| FeedbackLoop.AddInconsistentViewToSpec | inferui/inferui/datasets/dataset_util.cpp:265-293 | Pins the first misplaced view, of the first device that has one, that was not pinned, to the ground truth, or leaves all as it was exactly when there is none |
| FeedbackLoop.NumInconsistentViewsNotInSpec | inferui/inferui/datasets/dataset_util.cpp:295-312 | The number of misplaced views that are not pinned |
| FeedbackLoop.ReportedBound | inferui/inferui/datasets/dataset_util.cpp:363-372 | Pinned views and misplaced ones that are not pinned are together at most the views of the devices |
| FeedbackLoop.UserFeedbackSynthesis.Rounds | inferui/inferui/datasets/dataset_util.cpp:327-351 | At most devices*(views-1)+1 rounds; the k-th specification pins exactly k views, each to the ground truth, and leaves the others empty, and it comes from the one before by the first view that its answer, repaired if repair is on, misplaces. A success is the last answer, repaired so, and leaves nothing wrong but what is pinned; otherwise the last answer is none, and the last success is the one before, as it was |
| FeedbackLoop.UserFeedbackSynthesis.Synthesize | inferui/inferui/datasets/dataset_util.cpp:314-374 | Which application the call returns: the last answer, repaired if and only if repair is on, when the loop converged, and then nothing is wrong but what is pinned; else the last success, unrepaired; or the final fallback's answer to the only specification. What it adds to the statistics: the pins, and what the result misplaces beyond them. When it aborts: a view has no position, or there is no fallback or no answer of its own where one is needed |
| MultiSorted.MultiSortedIterator.SetNext | inferui/base/iterutil.h:93-105 | The current list is the first of those with the greatest head, or 0 when all are exhausted |
| MultiSorted.MultiSortedIterator.AtEnd | inferui/base/iterutil.h:83-85 | Equality with the end iterator holds exactly when all lists are exhausted |
| MultiSorted.MultiSortedIterator.Increment | inferui/base/iterutil.h:68-72 | The current list goes on by one element and the next list is chosen |
| MultiSorted.MultiSortedIterator.Reset | inferui/base/iterutil.h:42-45 | Back to the heads of all lists |
| MultiSorted.NextAhead | inferui/base/iterutil.h:93-105 | The next element comes before everything that remains |
| MultiSorted.Walk | inferui/base/iterutil.h:26-105 | A walk from begin to end visits every place of every list once, in descending order, with ties in the order of the lists, and yields exactly the combined multiset |

## Left out

- StringSet.StringSet.AddString: demands NUL-free strings, as the C-string interface does, and of a new string that the buffer stays within `INT_MAX` bytes, because offsets are ints.
- StringSet.LoadFromFile: speaks of files that were saved; a file with other contents is refused only when its size does not fit.
- SparseFile.Unserialize: of input that `serialize` did not write it says nothing but that reading ends; the source leaves the table in a state that its own operations do not expect.
- NormalizeMargins.NormalizeMargins: asks for ascending view ids and acyclic graphs, because the independence test merges sorted lists and the loop needs an independent view to make progress.
- LayoutGraph.IsAnchored: is stated for graphs that are acyclic without the content frame's own attribute; on cyclic ones the secondary branch restarts its path.
- Rounding of doubles, their parsing and printing, and the rounding of margins beyond 2^24 in single precision.
- Offsets of JSON values in the document, `getFormattedErrorMessages`, and the texts of error messages beyond their kind.
- The references on the reader's node stack: a child is read into a value that is put into its parent when it is complete, so sharing between the two is not modelled.
- `collectComments` is off, and with it comment placement, `addComment` and the writers' comment lines.
- JSON values with strings longer than 2^31-6 bytes, member names of 2^30 bytes or more, or 2^32 members of one object; the source cannot hold the first two, and counts the last in 32 bits. Whether the bytes of a string are well-formed UTF-8.
- The options `allowDroppedNullPlaceholders`, `allowNumericKeys`, `strictRoot`, `dropNullPlaceholders`, `omitEndingLineFeed` and YAML compatibility, which keep their defaults.
- `OurReader`, `StyledStreamWriter`, `BuiltStyledStreamWriter`, `Path` and `Value::resize`.
- Raw memory, `realloc` and the destructive iterators of the sparse table; arrays are allocated anew when they change size. `operator<` on groups and tables.
- The dense and sparse hash maps built on these tables.
- `SetCurrentToEnd` of the merge iterator, after which the current list need not hold the greatest head.
- Biases other than one half, and the parts of the solver that choose among attributes.
- `TryFixInconsistencies`, which `FeedbackLoop` takes as the repair pass.
- Sockets, HTTP, JSON-RPC dispatch, probability models, command lines, logging, files and threads.
