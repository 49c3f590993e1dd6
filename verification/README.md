# LightSocks: verified models

Dafny models, with proofs, of the code that LightSocks ships with and adds: the ArduinoJson
document engine that reads and writes its configuration, the queue and the rotating file of its
logger, the relay of its client, and the key table and stream cipher of both sides.

`dafny verify dfyconfig.toml` checks the whole project.

## How it is built

**ArduinoJson.** `JsonGrammar` and `MsgPackFormat` say, as functions, what the two deserializers
make of any input, under a nesting limit and a pool of a given size: value, error, position and
room left. The classes in `JsonDeserializer` and `MsgPackDeserializer` do it with a latch, a
character buffer and a write cursor that, in place, moves through the very buffer being read;
they are proved to do what the functions say. `StringStorage` is the copying and the in-place
string storage both use. `JsonPrinter` and `MsgPackFormat` say what the serializers write, and
the serializer classes write it, cut to a bounded buffer. `JsonRoundTrip` and
`MsgPackRoundTrip` bring the two directions together; `DocumentExchange` composes the classes.

What these functions compute is pinned down by definitions that use none of them. `JsonSyntax` has
JSON texts as syntax trees: how a tree is spelled, what it stands for, how deep it is and what room
it takes, and which trees are those of RFC 8259; `NumberSyntax` has the numerals. `JsonDecides`
proves that the deserializer accepts exactly these texts, `JsonErrors` why it refuses the others,
`JsonSkipSyntax` what it skips, and `JsonLayout` which texts the serializers write.
`MsgPackEncoding` has the forms of a value in MessagePack, all of which the deserializer reads, and
of which the serializer writes the shortest.

`SlotMemory` lays a document out in memory as the library does: slots at addresses, linked by
16-bit relative distances, strings at character addresses, owned or linked. `SlotLists` and
`SlotTrees` show what list operations do to such a layout, `PooledTree` and `PooledSteps` what
they do inside a pool whose strings grow from the left and slots from the right. The class
`JsonDocument` has the operations on a document; each contract gives the whole new value as the
old one changed at one place. `DocumentRuns` says what each operation means for the value and the
room left, and runs any sequence of them against that. `DocumentComparison` is `operator==` on that
memory, with its shortcut for equal addresses; `DocumentEquality` says what it decides, and
`JsonKeys` and `DocumentKeys` that keys stay unique through parsing and through any run. `DocumentLaws`
says what lookups, additions, removals and truncated copies leave as it was.
`PooledParser` is the JSON deserializer on that memory: it links slots and stores strings, in the
pool or in place, and builds what the grammar says; `JsonLinks` says which links it makes.
`Relocation` and `BasicJsonDocument` move a document
(`shrinkToFit`) and copy it into a new block (`garbageCollect`).

**spdlog.** `CircularQueue` is the ring buffer as a class over an array, refining a bounded FIFO.
`ThreadPool` is the blocking queue and the pool as interleaved steps of any number of threads,
each with its place in the code, around an explicit mutex and two condition variables with
spurious wake-ups and timeouts; the first thread runs the destructor. `ThreadPoolLaws` follows the
messages through a run: their order, and which of them may be lost. `RotatingFileSink` is the
rename cascade over a directory that maps names to texts.

**The relay and the cipher.** `Bufferevents` has the two buffers, the callbacks and the liveness of
a bufferevent; every operation on one requires that it has not been freed. `Client` has the
callbacks and an event loop that feeds them any sequence of network events. `KeyTable`, `Base64`,
`KeySetup`, `Cipher` and `Tunnel` follow the key table from its random draws through its base64
text to both sides, and a stream through both.

## What turned out false

- A string that was parsed in place is flagged as owned although the pool does not hold it.
  `shrinkToFit` then moves its pointer along with the block (`PointersFollow` has the exact
  condition, `ShrinkingLosesString` a document that loses its string), and `garbageCollect`
  drops what does not fit and still returns true (`GarbageCollect` has the exact condition,
  `CollectingLosesString` a document that loses its string).
- A MessagePack integer below -2^63 is read back positive, and a negative zero as zero
  (`MsgPackRoundTrip.RoundTrip` has the exact condition, `NegativeTurnsPositive` the inputs).
- A number whose digits begin with one from 2^64 to 2^64 + 3 is read as one about ten times as large
  (`NearUnlessSlips` has the exact condition, `ReadTenfold` the four integers), and zero with an exponent
  above 308 as infinite (`ZeroOverflows`).
- The deserializer accepts more than JSON: any word of the right length that starts like a literal
  (`WordsByLetter`), and what `JsonSyntax` lists. A `null` for a key that is repeated leaves the value that
  was there (`NullKeepsValue`). What is left of a text behind a cut is incomplete input, but not if the cut
  is right behind a sign (`TextCut` has the exact condition, `SignIsInvalid` an input).
- The serializers write control characters that have no short escape as they are, which section 7 of
  RFC 8259 forbids (`PrintStrict` has the exact condition, `ControlWrittenRaw` a string).
- `skipVariant` runs past a number of more than 63 characters that parsing cuts off
  (`JsonSkip.VariantSkips` has the exact condition, `LongTokenOverrun` the inputs). It is only
  called inside collections; there parsing fails at the rest of the number, so what differs is
  that skipping accepts such a collection (`LongTokenInArray`), while whatever parses is skipped
  to the same position (`CollectionSkips`).
- A document with a repeated key may differ from a copy of it under `==` (`EqualsCopy` has the exact
  condition). Only MessagePack input has repeated keys (`RepeatedKeyUnpacked` has the inputs); JSON
  input and the operations on documents have not (`DeserializedEqualsCopy`, `RunRegular`). Compared
  with itself every document is equal, because of the shortcut for equal addresses
  (`CompareDocuments`).
- A collection that is copied onto itself becomes empty; any other value is kept, as far as its
  string fits in the pool once more (`CopyOnto`).
- A slot's 16-bit link does not reach farther than 2^15 slots; a list whose next slot is farther
  away is not in memory (`LinkLastLaid` and `UnlinkLaid` have the exact conditions for one link,
  `CompleteFits` for all links of a copy; `JsonLinks` follows those of a parse).
- After `rotate_on_open` has rotated a file the sink still counts that file's size, and the next
  message may rotate the empty file and drop an old one (the constructor of the sink and
  `OpeningRotatesAgain` have the exact conditions, `OpeningLosesLog` a log that is lost).

## Model

| member | source | states |
|---|---|---|
| Numbers.ReadNumber | lib/json/ArduinoJson-v6.15.0.hpp:4119-4208 | Sign, digits with their two overflow guards, and everything that makes a float: the loops compute the numeral that `ParseNumber` prescribes for any text, also when they stop early |
| Numbers.ReadFloatTail | lib/json/ArduinoJson-v6.15.0.hpp:4162-4183 | Surplus digits, scaling and the fraction leave the mantissa and exponent that the recursive definitions prescribe |
| Numbers.ReadExponent | lib/json/ArduinoJson-v6.15.0.hpp:4184-4206 | The exponent is added, unless it leaves the range, and anything after it is no number |
| Numbers.DigitsDenote | lib/json/ArduinoJson-v6.15.0.hpp:4150-4159 | The decimal numeral of a number denotes that number |
| Numbers.UIntDigits | lib/json/ArduinoJson-v6.15.0.hpp:5554-5563 | A 64-bit number has at most 20 digits, so the printer's buffer of 22 never overflows |
| NumberSyntax.ParserDecides | lib/json/ArduinoJson-v6.15.0.hpp:4119-4208 | For every text without a NUL: it is read as a given number exactly when it is spelled as a numeral - a sign, digits, a point and digits, an exponent - that stands for that number; only behind an exponent out of range there may be anything else |
| NumberSyntax.NearUnlessSlips | lib/json/ArduinoJson-v6.15.0.hpp:4146-4180 | The digits that are kept are those that were written, cut off behind the last one kept, exactly when the whole part does not begin with a number from 2^64 to 2^64 + 3 |
| NumberSyntax.ReadTenfold | lib/json/ArduinoJson-v6.15.0.hpp:4150-4158 | 2^64 and the three integers behind it are read as numbers ten times as large: the loop has multiplied when it finds that the digit does not fit, and counts the digit once more |
| NumberSyntax.ZeroOverflows | lib/json/ArduinoJson-v6.15.0.hpp:4190-4198 | Zero with an exponent above 308 is read as infinite |
| NumberSyntax.NumberCut | lib/json/ArduinoJson-v6.15.0.hpp:4119-4208 | What is left of a number behind any cut is a number, but for a sign alone |
| NumberSyntax.ParsesInteger | lib/json/ArduinoJson-v6.15.0.hpp:4119-4161 | Every 64-bit integer, of either sign, is read back from its numeral |
| JsonDecides.DeserializeDecides | lib/json/ArduinoJson-v6.15.0.hpp:4924-5316 | For every input, limit and pool: the deserializer accepts it with a given value, up to a given position, exactly when it is a text of that value - a syntax tree spelled out, with any blanks between any two tokens, either quote, every escape, words and numbers, bare keys - that is no deeper than the limit and fits in the pool |
| JsonDecides.TextRead | lib/json/ArduinoJson-v6.15.0.hpp:4924-5316 | Every text of a value is read as that value and takes exactly its room, or it is too deep, or has no room |
| JsonDecides.TreeRead | lib/json/ArduinoJson-v6.15.0.hpp:4948-4976 | The same for a tree found anywhere in a text, whatever the variant held before |
| JsonDecides.RowsRead | lib/json/ArduinoJson-v6.15.0.hpp:4994-5098 | The same for the elements or members from any one on, blanks around keys, colons, values and commas included; a repeated key goes to the slot that has it |
| JsonDecides.LettersRead | lib/json/ArduinoJson-v6.15.0.hpp:5145-5188 | Characters and escapes in either quotes are read as what they stand for, `\/` among them |
| JsonDecides.TreeFound | lib/json/ArduinoJson-v6.15.0.hpp:4948-4976 | Whatever is accepted is the spelling of a tree for the value that was read |
| JsonDecides.RowsFound | lib/json/ArduinoJson-v6.15.0.hpp:4994-5098 | The same for elements and members |
| JsonDecides.StrictIsValid | lib/json/ArduinoJson-v6.15.0.hpp:4924-5316 | Every text of RFC 8259 is such a text, if no number has more than 63 characters and there is no escape of four hexadecimal digits |
| JsonDecides.WordsByLetter | lib/json/ArduinoJson-v6.15.0.hpp:5235-5248 | A word that starts with t, f or n is a literal exactly when it has its length, whatever the other characters |
| JsonDecides.NullKeepsValue | lib/json/ArduinoJson-v6.15.0.hpp:5245-5248 | A null does not replace the value of a key that is repeated |
| JsonErrors.TextCut | lib/json/ArduinoJson-v6.15.0.hpp:4924-5316 | Whatever is left of any text behind any cut is incomplete input; but it is invalid exactly if it ends in a sign that starts a number, and some digits of a number, with no array or object around it, are a number |
| JsonErrors.SignIsInvalid | lib/json/ArduinoJson-v6.15.0.hpp:5249-5261 | The input `[-` is invalid, not incomplete |
| JsonErrors.DeserializeBlamed | lib/json/ArduinoJson-v6.15.0.hpp:4924-5316 | For every input: incomplete input is reported at the end, at a last backslash, or behind a literal of the wrong length; invalid input at a character that is neither a blank nor the end, or behind a word that is no number; an unsupported escape at its backslash; too deep an array or object at its bracket; and there may be something behind a number |
| JsonLimits.DeserializeBounded | lib/json/ArduinoJson-v6.15.0.hpp:3981-3989 | For every input and limit: an accepted document is no deeper than the nesting limit, and whatever was built, even by a parse that failed, uses no more than was taken from the pool |
| JsonLimits.CollectionBounded | lib/json/ArduinoJson-v6.15.0.hpp:4994-5098 | The same for one array or object, the nesting limit counting from there |
| JsonLimits.DeserializeMonotone | lib/json/ArduinoJson-v6.15.0.hpp:4924-4932 | A parse that ran out neither of memory nor of depth ends the same way, with the same document, under any larger budget; an in-place run counts as one with more room |
| JsonLimits.VariantMonotone | lib/json/ArduinoJson-v6.15.0.hpp:4948-4976 | The same for one value at any position |
| JsonSkip.VariantSkips | lib/json/ArduinoJson-v6.15.0.hpp:4977-4993 | Skipping accepts every value that parsing accepts, and stops at the same position exactly when the text there starts a collection or a string, or has a run of at most 63 token characters |
| JsonSkip.LongTokenOverrun | lib/json/ArduinoJson-v6.15.0.hpp:5224-5270 | Of any longer run of zeros the parser reads 63 and the skipper all |
| JsonSkip.LongTokenInArray | lib/json/ArduinoJson-v6.15.0.hpp:5028-5046 | Such a number in an array is an error to the parser, which the skipper does not see |
| JsonSkip.CollectionSkips | lib/json/ArduinoJson-v6.15.0.hpp:5028-5129 | Whenever an array or object parses, skipping it succeeds and stops at the same position, whatever numbers it holds |
| JsonSkip.RowsSkip | lib/json/ArduinoJson-v6.15.0.hpp:5028-5129 | The same from any element or member on, by induction over the rest of the collection |
| JsonSkipSyntax.SkipDecides | lib/json/ArduinoJson-v6.15.0.hpp:4977-5129 | For every input: the skipper accepts it up to a position exactly when a tree that is not too deep is written there - a run of word characters or nothing at all, a string with any escapes, an array or an object, with anything for a key |
| JsonSkipSyntax.TreeSkipped | lib/json/ArduinoJson-v6.15.0.hpp:4977-4993 | Every such tree found anywhere is skipped to its end, or it is too deep |
| JsonSkipSyntax.LinesSkipped | lib/json/ArduinoJson-v6.15.0.hpp:5028-5129 | The same for the elements or members from any one on |
| JsonSkipSyntax.TextSkipped | lib/json/ArduinoJson-v6.15.0.hpp:5207-5223 | A string is skipped up to the first quote of its kind that is not behind a backslash |
| JsonSkip.TokenCut | lib/json/ArduinoJson-v6.15.0.hpp:5224-5270 | The 63-character cut-off of a number or word stops where the uncut run stops exactly when the next character is not of the run |
| JsonSkip.QuotedSkips | lib/json/ArduinoJson-v6.15.0.hpp:5207-5223 | A quoted string that parses is skipped to the same position, escapes included |
| StringStorage.Storage.AllocSlot | lib/json/ArduinoJson-v6.15.0.hpp:745-750 | A slot takes its 32 bytes from the right end of the room exactly when they are there |
| StringStorage.Storage.CopierAppend | lib/json/ArduinoJson-v6.15.0.hpp:4668-4676 | A character is added to the copy; past the end of the pool the string is lost but its length keeps counting; nothing before the string changes |
| StringStorage.Storage.MoverAppend | lib/json/ArduinoJson-v6.15.0.hpp:4703-4708 | A character lands at the write cursor; everything before the string and after the cursor stays |
| StringStorage.Storage.StartString | lib/json/ArduinoJson-v6.15.0.hpp:4656-4704 | A builder starts at the end of what is stored, and a copying one takes all the room |
| StringStorage.Storage.Complete | lib/json/ArduinoJson-v6.15.0.hpp:4677-4712 | A closed string reads back as what was appended, up to its first NUL; a copy succeeds exactly when string and NUL fit, and the rest of the room is given back |
| StoredDocument.NodeSurvives | lib/json/ArduinoJson-v6.15.0.hpp:4701-4726 | A stored document denotes the same value after any later writes behind it |
| JsonDeserializer.Deserializer.Current | lib/json/ArduinoJson-v6.15.0.hpp:4935-4937 | The latch yields the character at the reading position, or NUL at the end, without consuming it |
| JsonDeserializer.Deserializer.SkipBlanks | lib/json/ArduinoJson-v6.15.0.hpp:5301-5316 | Reading stops at the first character that is no blank, and only the end is reported as incomplete; that the blanks are the four of RFC 8259 is in `JsonDecides.TreeRead` |
| JsonDeserializer.Deserializer.ParseQuotedBody | lib/json/ArduinoJson-v6.15.0.hpp:5145-5188 | The characters between quotes, unescaped, are what the builder receives, or the same error arises |
| JsonDeserializer.Deserializer.ParseQuotedString | lib/json/ArduinoJson-v6.15.0.hpp:5145-5188 | The stored string is the unescaped text, or the error is the grammar's; nothing stored before changes |
| JsonDeserializer.Deserializer.ParseNonQuotedString | lib/json/ArduinoJson-v6.15.0.hpp:5189-5206 | The stored string is the longest run of token characters |
| JsonDeserializer.Deserializer.FillBuffer | lib/json/ArduinoJson-v6.15.0.hpp:5225-5233 | The run of token characters, cut at 63, is copied to the local buffer |
| JsonDeserializer.Deserializer.ReadToken | lib/json/ArduinoJson-v6.15.0.hpp:5224-5234 | The token is that run of the text |
| JsonDeserializer.Deserializer.ParseNumericValue | lib/json/ArduinoJson-v6.15.0.hpp:5224-5262 | Words, numbers and errors as the grammar prescribes; `null` leaves the prior value |
| JsonDeserializer.Deserializer.ParseValue | lib/json/ArduinoJson-v6.15.0.hpp:4948-4976 | The value in memory denotes what the grammar makes of the text, with the same error and room left for every outcome, and on success the same position |
| JsonDeserializer.Deserializer.ParseElement | lib/json/ArduinoJson-v6.15.0.hpp:5006-5018 | One slot is taken and filled, as the grammar prescribes |
| JsonDeserializer.Deserializer.ParseArray | lib/json/ArduinoJson-v6.15.0.hpp:4994-5027 | The elements in memory are the grammar's, for every outcome |
| JsonDeserializer.Deserializer.GetSlot | lib/json/ArduinoJson-v6.15.0.hpp:3900-3909 | The first member with an equal key is found, comparing NUL-terminated strings in memory |
| JsonDeserializer.Deserializer.ReadMemberHead | lib/json/ArduinoJson-v6.15.0.hpp:5062-5080 | A member's key selects the slot it already has, or a new one |
| JsonDeserializer.Deserializer.ParseMember | lib/json/ArduinoJson-v6.15.0.hpp:5062-5090 | The member's value replaces what its key held |
| JsonDeserializer.Deserializer.ParseObject | lib/json/ArduinoJson-v6.15.0.hpp:5047-5098 | The members in memory are the grammar's, for every outcome |
| JsonDeserializer.Deserializer.Parse | lib/json/ArduinoJson-v6.15.0.hpp:4924-4932 | The document in memory denotes the grammar's result, which `JsonDecides.DeserializeDecides` relates to the syntax; a number must end the input |
| JsonDeserializer.Deserializer.SkipString | lib/json/ArduinoJson-v6.15.0.hpp:5207-5223 | Stops where the grammar's skipper stops |
| JsonDeserializer.Deserializer.SkipValue | lib/json/ArduinoJson-v6.15.0.hpp:4977-4993 | Stops where the grammar's skipper stops, with the same error |
| JsonDeserializer.Deserializer.SkipArray | lib/json/ArduinoJson-v6.15.0.hpp:5028-5046 | Stops where the grammar's skipper stops, with the same error |
| JsonDeserializer.Deserializer.SkipObject | lib/json/ArduinoJson-v6.15.0.hpp:5099-5129 | Stops where the grammar's skipper stops, with the same error |
| JsonDeserializer.ParseBothWays | lib/json/ArduinoJson-v6.15.0.hpp:4656-4726 | Parsing in place, where strings overwrite the buffer being read, and parsing with copied strings both end with the error and the document that the grammar makes of the text for their memory; these are the same, unless the copies ran out of memory |
| StaticWriter.StaticStringWriter.Write | lib/json/ArduinoJson-v6.15.0.hpp:5638-5646 | The buffer keeps as much of the text as fits before its NUL |
| StaticWriter.StaticStringWriter.WriteChar | lib/json/ArduinoJson-v6.15.0.hpp:5632-5637 | The same for one character |
| JsonSerializer.Serializer.WriteString | lib/json/ArduinoJson-v6.15.0.hpp:5502-5516 | The quoted and escaped text is emitted; `JsonLayout.TextEscaped` says which characters are escaped, and how |
| JsonSerializer.Serializer.WritePositiveInteger | lib/json/ArduinoJson-v6.15.0.hpp:5553-5563 | The loop that fills its buffer from the end emits the decimal numeral |
| JsonSerializer.Serializer.Visit | lib/json/ArduinoJson-v6.15.0.hpp:5787-5850 | What is emitted is the compact or pretty text of the value |
| JsonSerializer.Serializer.VisitCollection | lib/json/ArduinoJson-v6.15.0.hpp:5876-5909 | The same for a collection, with separators, line ends and indentation; the nesting counter is restored |
| JsonSerializer.SerializeJson | lib/json/ArduinoJson-v6.15.0.hpp:5627-5650 | The buffer holds the printed text, cut to leave room for a NUL, and the number of characters kept is returned; `JsonLayout` says what the text is |
| JsonLayout.PrintSpells | lib/json/ArduinoJson-v6.15.0.hpp:5787-5909 | For every float-free document: the printed text is the spelling of its layout, a syntax tree that says which characters are escaped and where there are line breaks, spaces and commas |
| JsonLayout.LayoutMeans | lib/json/ArduinoJson-v6.15.0.hpp:5787-5909 | The layout is a valid tree; if keys are unique it stands for the document, and it needs exactly the document's depth and room |
| JsonLayout.TextEscaped | lib/json/ArduinoJson-v6.15.0.hpp:5502-5516 | Between the quotes a character is written as an escape of two characters that stands for it exactly if it is a quote, a backslash, or one of \b \f \n \r \t, and as itself otherwise |
| JsonLayout.PrintTame | lib/json/ArduinoJson-v6.15.0.hpp:5787-5909 | None of those control characters is in the compact text, and in the pretty text they are only in line breaks |
| JsonLayout.PrintStrict | lib/json/ArduinoJson-v6.15.0.hpp:5502-5516 | The printed text is one of RFC 8259 exactly when no string or key has a control character without such an escape |
| JsonLayout.ControlWrittenRaw | lib/json/ArduinoJson-v6.15.0.hpp:5502-5516 | A character such as 1 is written as it is, which the standard forbids |
| JsonRoundTrip.EscapeInverse | lib/json/ArduinoJson-v6.15.0.hpp:4794-4817 | Exactly a quote, a backslash and those five control characters have an escape, which unescaping undoes |
| JsonRoundTrip.QuotedRoundTrip | lib/json/ArduinoJson-v6.15.0.hpp:5145-5188 | Scanning an escaped string found anywhere in a text gives the string back and stops behind its quote |
| JsonRoundTrip.VariantRoundTrip | lib/json/ArduinoJson-v6.15.0.hpp:4948-4976 | A printed value found anywhere in a text is read back, given its depth and room |
| JsonRoundTrip.CollectionRoundTrip | lib/json/ArduinoJson-v6.15.0.hpp:4994-5098 | The same for an array or an object in either style |
| JsonRoundTrip.RoundTrip | lib/json/ArduinoJson-v6.15.0.hpp:4924-5098 | For every float-free document with unique keys and NUL-free strings: parsing its compact or pretty text succeeds exactly when its depth respects the limit and its slots and strings fit in the pool, and then gives the same document and takes exactly that room |
| DocumentEquality.EqualsDecides | lib/json/ArduinoJson-v6.15.0.hpp:1468-1500 | `==` on documents with unique keys holds exactly when they mean the same, members compared without order |
| DocumentEquality.ObjectDecides | lib/json/ArduinoJson-v6.15.0.hpp:3875-3885 | Comparing objects by looking up each member decides whether they have the same members |
| DocumentEquality.EqualsCopy | lib/json/ArduinoJson-v6.15.0.hpp:3875-3898 | A document equals a copy of it at other addresses exactly when it holds no NaN and, in each of its objects, every slot that repeats a key, or the lack of one, equals the first slot with it |
| DocumentEquality.RepeatedKeyDiffers | lib/json/ArduinoJson-v6.15.0.hpp:3875-3885 | The document {"a":1,"a":n} equals a copy of it exactly when n is 1 |
| DocumentExchange.RepeatedKeyUnpacked | lib/json/ArduinoJson-v6.15.0.hpp:6201-6217 | The MessagePack deserializer yields {"a":1,"a":n} from its packed bytes, given depth and room; then it differs from its copies unless n is 1 |
| JsonKeys.DeserializedEqualsCopy | lib/json/ArduinoJson-v6.15.0.hpp:5047-5098 | For every text, limit and pool, and for every outcome: a document parsed from JSON has unique keys and no NaN, and so equals every copy of it |
| DocumentComparison.VariantEquals | lib/json/ArduinoJson-v6.15.0.hpp:2186-2192 | Two variants in memory are equal exactly when they are one and the same, or when their contents compare equal |
| DocumentComparison.ArrayEquals | lib/json/ArduinoJson-v6.15.0.hpp:3886-3898 | Two lists are walked in step and compared slot by slot; they meet only at their ends |
| DocumentComparison.ObjectEquals | lib/json/ArduinoJson-v6.15.0.hpp:3875-3885 | Every member is found by its key in the other object and compared, and the sizes agree |
| DocumentComparison.ComparePlaces | lib/json/ArduinoJson-v6.15.0.hpp:2465-2467 | Two places of a document, also one inside the other, are equal exactly when they are the same place or their contents compare equal |
| DocumentComparison.CompareDocuments | lib/json/ArduinoJson-v6.15.0.hpp:2552-2554 | A document is always equal to itself, repeated keys or not; two documents are equal exactly when their contents compare equal |
| DocumentComparison.CompareWithCopy | lib/json/ArduinoJson-v6.15.0.hpp:3422-3424 | A document that was copied completely equals its copy exactly when it holds no NaN and all slots that repeat a key agree |
| DocumentComparison.PlacesNeverSame | lib/json/ArduinoJson-v6.15.0.hpp:2186-2189 | Comparing different places of a document never brings a slot together with itself, so that the shortcut for equal addresses decides the whole comparison or nothing |
| MsgPackDeserializer.FixEndianness | lib/json/ArduinoJson-v6.15.0.hpp:5946-5970 | The unrolled swaps reverse the bytes of each width |
| MsgPackDeserializer.SwappedBytes | lib/json/ArduinoJson-v6.15.0.hpp:5946-5970 | Reversed bytes read in the processor's order are the big-endian number |
| MsgPackDeserializer.Deserializer.ReadBytes | lib/json/ArduinoJson-v6.15.0.hpp:6084-6090 | All the bytes asked for are read, in order, or fewer were left |
| MsgPackDeserializer.Deserializer.ReadInteger | lib/json/ArduinoJson-v6.15.0.hpp:6091-6105 | The big-endian number of the given width is read, or the input is incomplete |
| MsgPackDeserializer.Deserializer.ReadCharacters | lib/json/ArduinoJson-v6.15.0.hpp:6167-6174 | The next characters reach the builder, and in place the write cursor stays behind the reading position, also for the shortest string header |
| MsgPackDeserializer.Deserializer.ReadCString | lib/json/ArduinoJson-v6.15.0.hpp:6165-6179 | The stored string is the characters read, up to a NUL |
| MsgPackDeserializer.Deserializer.ReadString | lib/json/ArduinoJson-v6.15.0.hpp:6142-6164 | The string of any of the four headers is read |
| MsgPackDeserializer.Deserializer.ParseKey | lib/json/ArduinoJson-v6.15.0.hpp:6218-6235 | Only strings are accepted as keys |
| MsgPackDeserializer.Deserializer.ReadScalar | lib/json/ArduinoJson-v6.15.0.hpp:5993-6052 | Null, booleans, integers and raw float bits of every format code, which `MsgPackEncoding.FormDecoded` relates to what the bytes stand for |
| MsgPackDeserializer.Deserializer.Parse | lib/json/ArduinoJson-v6.15.0.hpp:5988-6063 | The value in memory denotes what the format makes of the bytes, with the same error and room left for every outcome, and on success the same position; `MsgPackEncoding.UnpackDecides` says what that is |
| MsgPackDeserializer.Deserializer.ReadHead | lib/json/ArduinoJson-v6.15.0.hpp:6203-6213 | A slot is opened before its key is read, and stays unnamed if there is none |
| MsgPackDeserializer.Deserializer.ReadRow | lib/json/ArduinoJson-v6.15.0.hpp:6188-6216 | One element or member more |
| MsgPackDeserializer.Deserializer.ReadSlots | lib/json/ArduinoJson-v6.15.0.hpp:6180-6217 | The slots in memory are the format's, for every outcome |
| MsgPackDeserializer.UnpackBothWays | lib/json/ArduinoJson-v6.15.0.hpp:6165-6179 | Deserializing in place and deserializing with copied strings both end with the error and the document that the format makes of the bytes for their memory; these are the same, unless the copies ran out of memory |
| MsgPackEncoding.UnpackDecides | lib/json/ArduinoJson-v6.15.0.hpp:5988-6235 | For all bytes, every limit and pool: the deserializer reads a given value up to a given position exactly when those bytes are a form of it - any of its codes and headers, not only the shortest - that is not too deep and fits in the pool |
| MsgPackEncoding.FormDecoded | lib/json/ArduinoJson-v6.15.0.hpp:5988-6235 | Every form found anywhere is read as the value it stands for and takes exactly its room, or it is too deep, or has no room |
| MsgPackEncoding.SignedRead | lib/json/ArduinoJson-v6.15.0.hpp:6030-6042 | A payload of 1, 2, 4 or 8 bytes is read as the one integer in the range of its width that is congruent to the big-endian number modulo its power |
| MsgPackEncoding.FormFound | lib/json/ArduinoJson-v6.15.0.hpp:5988-6235 | Whatever is read has such a form |
| MsgPackEncoding.FormCut | lib/json/ArduinoJson-v6.15.0.hpp:5988-6235 | A form that is cut off anywhere is incomplete input |
| MsgPackEncoding.OtherCodes | lib/json/ArduinoJson-v6.15.0.hpp:6060-6061 | Binary data, extensions and the unused code are not supported, and nothing else is refused so at once |
| MsgPackEncoding.UnpackBlamed | lib/json/ArduinoJson-v6.15.0.hpp:5988-6235 | For all bytes: what is not supported is at a code that is no string's, what is too deep is at the code of an array or an object, and no input is invalid |
| MsgPackEncoding.PackIsShortest | lib/json/ArduinoJson-v6.15.0.hpp:6289-6379 | No form of a value has fewer bytes than the packed one |
| MsgPackEncoding.PackFamily | lib/json/ArduinoJson-v6.15.0.hpp:6340-6379 | A positive integer has an unsigned form, also where a signed one is as short, and a negative one a signed form |
| MsgPackEncoding.PackEncodes | lib/json/ArduinoJson-v6.15.0.hpp:6289-6379 | The packed bytes are a form of the value exactly when its negative integers are in the range of 64 bits, and then no form is shorter |
| MsgPackLimits.UnpackBounded | lib/json/ArduinoJson-v6.15.0.hpp:5988-6063 | For every input: no accepted document is deeper than the limit, and what was built uses no more than was taken from the pool |
| MsgPackLimits.UnpackMonotone | lib/json/ArduinoJson-v6.15.0.hpp:5988-6063 | A run that hit no bound ends the same way under any larger budget |
| MsgPackSerializer.SwappedInteger | lib/json/ArduinoJson-v6.15.0.hpp:6395-6399 | The reversed memory image of an integer is its big-endian form |
| MsgPackSerializer.Serializer.WriteInteger | lib/json/ArduinoJson-v6.15.0.hpp:6395-6399 | The low bytes of a number are emitted, most significant first |
| MsgPackSerializer.Serializer.VisitNegativeInteger | lib/json/ArduinoJson-v6.15.0.hpp:6340-6360 | The shortest signed form of the two's complement is emitted |
| MsgPackSerializer.Serializer.VisitPositiveInteger | lib/json/ArduinoJson-v6.15.0.hpp:6361-6379 | The shortest unsigned form is emitted |
| MsgPackSerializer.Serializer.VisitString | lib/json/ArduinoJson-v6.15.0.hpp:6320-6336 | The shortest string header and the characters are emitted |
| MsgPackSerializer.Serializer.Visit | lib/json/ArduinoJson-v6.15.0.hpp:6289-6385 | What is emitted is the packed form of the value |
| MsgPackSerializer.SerializeMsgPack | lib/json/ArduinoJson-v6.15.0.hpp:6405-6408 | The buffer holds the packed bytes, cut to leave room for a NUL, and the number of bytes kept is returned |
| MsgPackRoundTrip.BigEndianRead | lib/json/ArduinoJson-v6.15.0.hpp:5946-5970 | Reading w big-endian bytes of n gives n modulo 256 to the w |
| MsgPackRoundTrip.PositiveRoundTrip | lib/json/ArduinoJson-v6.15.0.hpp:6361-6379 | Every 64-bit unsigned integer is read back through each of its five forms |
| MsgPackRoundTrip.NegativeRoundTrip | lib/json/ArduinoJson-v6.15.0.hpp:6340-6360 | Every negative magnitude is read back as its 64-bit two's complement, through each of its five forms |
| MsgPackRoundTrip.TextRoundTrip | lib/json/ArduinoJson-v6.15.0.hpp:6320-6336 | Every NUL-free string below 2^32 characters is read back through each of its four headers |
| MsgPackRoundTrip.CollectionRoundTrip | lib/json/ArduinoJson-v6.15.0.hpp:6289-6319 | Every array and object below 2^32 slots is read back through each of its three headers |
| MsgPackRoundTrip.RoundTrip | lib/json/ArduinoJson-v6.15.0.hpp:5988-6400 | For every float-free document of 32-bit sizes: deserializing its packed form succeeds exactly when depth and pool suffice, consumes exactly those bytes, and gives the document back exactly when its negative integers lie in -2^63..-1 |
| DocumentExchange.ExchangeJson | lib/json/ArduinoJson-v6.15.0.hpp:4924-5850 | Printing into a big enough buffer and parsing it, in place or copying, gives the document back exactly when it is not too deep and fits |
| DocumentExchange.ExchangeMsgPack | lib/json/ArduinoJson-v6.15.0.hpp:5988-6408 | The same for MessagePack, with the range of negative integers as the exact condition |
| DocumentExchange.NegativeTurnsPositive | lib/json/ArduinoJson-v6.15.0.hpp:6340-6360 | Every integer below -2^63, which the JSON deserializer accepts, is read back from MessagePack as a positive one, and a negative zero as zero |
| SlotMemory.LinkReadsBack | lib/json/ArduinoJson-v6.15.0.hpp:617-653 | A slot's 16-bit relative link leads back to the slot it was set to exactly when it is from 2^15 slots before it to 2^15 - 1 slots behind it |
| SlotLists.LinkLastLaid | lib/json/ArduinoJson-v6.15.0.hpp:3820-3833 | Linking a fresh slot at the tail makes the list of slots one longer exactly when the tail's 16-bit link reaches it |
| SlotLists.UnlinkLaid | lib/json/ArduinoJson-v6.15.0.hpp:3957-3968 | Relinking around a slot leaves the list of the others, head and tail repaired, exactly when the link between its neighbours fits |
| MemoryPool.Pool.AllocVariant | lib/json/ArduinoJson-v6.15.0.hpp:745-750 | A slot is taken from the right end, on the slot grid, exactly when there is room |
| MemoryPool.Pool.Save | lib/json/ArduinoJson-v6.15.0.hpp:782-793 | A C string is copied to the left end exactly when it is not null and fits with its NUL; only free memory is written |
| MemoryPool.Pool.Squash | lib/json/ArduinoJson-v6.15.0.hpp:753-763 | The slots slide down to the aligned end of the strings, by the distance returned, or nothing happens |
| CollectionData.AddSlot | lib/json/ArduinoJson-v6.15.0.hpp:3820-3833 | A slot from the pool is linked after the last one, or there is no room and nothing changes |
| CollectionData.GetPreviousSlot | lib/json/ArduinoJson-v6.15.0.hpp:3913-3922 | Following the links finds the predecessor of a slot, and null for the first |
| CollectionData.RemoveSlot | lib/json/ArduinoJson-v6.15.0.hpp:3957-3968 | The slot is unlinked from its neighbours, head or tail |
| CollectionData.GetSlotAt | lib/json/ArduinoJson-v6.15.0.hpp:636-644 | Following the links gives the slot at an index, and null past the end |
| CollectionData.GetSlotNamed | lib/json/ArduinoJson-v6.15.0.hpp:3900-3909 | Following the links finds the first slot whose key compares equal, and a slot without a key for a null key |
| CollectionData.Size | lib/json/ArduinoJson-v6.15.0.hpp:1732-1739 | Following the links counts the slots |
| PooledTree.Changed | lib/json/ArduinoJson-v6.15.0.hpp:683-781 | One place of a sound document changes, using what the pool has given out: slots and strings stay in their disjoint ends, no slot is used twice, and the value changes at that place only |
| PooledSteps.Assigned | lib/json/ArduinoJson-v6.15.0.hpp:1540-1635 | The same for writing a null, boolean, number, string or empty collection |
| PooledSteps.Appended | lib/json/ArduinoJson-v6.15.0.hpp:3820-3846 | The same for adding an element or a named member |
| PooledSteps.Removed | lib/json/ArduinoJson-v6.15.0.hpp:3957-3971 | The same for removing a slot |
| OwnedDocument.WithUsage | lib/json/ArduinoJson-v6.15.0.hpp:3972-3980 | Live memory changes by what the changed place used before and uses now |
| OwnedDocument.CopyComplete | lib/json/ArduinoJson-v6.15.0.hpp:3855-3874 | A deep copy is complete exactly when the live memory of the original fits, whatever the order of its strings and slots, and then takes exactly that much |
| OwnedDocument.CopyAccounted | lib/json/ArduinoJson-v6.15.0.hpp:3855-3874 | Whatever a copy made before running out of room is live in the room it took |
| OwnedDocument.CopySame | lib/json/ArduinoJson-v6.15.0.hpp:3855-3874 | A copy equals the original exactly when the original's live memory fits |
| OwnedDocument.CompleteFits | lib/json/ArduinoJson-v6.15.0.hpp:648-654 | The 16-bit links of a complete copy all fit exactly when no value but the last one of a collection has 2^15 slots |
| OwnedDocument.SmallFits | lib/json/ArduinoJson-v6.15.0.hpp:648-654 | In a room of a mebibyte every link of a copy fits, complete or not |
| JsonDocument.JsonDocument.constructor | lib/json/ArduinoJson-v6.15.0.hpp:3584-3592 | A new document is null, sound and tidy |
| JsonDocument.JsonDocument.Clear | lib/json/ArduinoJson-v6.15.0.hpp:3399-3402 | The document is null and its pool empty |
| JsonDocument.JsonDocument.Set | lib/json/ArduinoJson-v6.15.0.hpp:3422-3424 | The document is a copy of another one in the same memory, as far as its pool has room, provided that every link of the copy fits; the other one is as before |
| JsonDocument.JsonDocument.SetAtom | lib/json/ArduinoJson-v6.15.0.hpp:1540-1546 | The value at a place is a null, boolean or number, and nothing else changes |
| JsonDocument.JsonDocument.SetLinkedString | lib/json/ArduinoJson-v6.15.0.hpp:1594-1601 | The value at a place is a shared string, or null for a null pointer |
| JsonDocument.JsonDocument.SetOwnedInPlace | lib/json/ArduinoJson-v6.15.0.hpp:1605-1608 | The value at a place is an owned string outside the pool, as the parsers leave it when they read in place; the only operation that does not keep the document tidy |
| JsonDocument.JsonDocument.SetOwnedString | lib/json/ArduinoJson-v6.15.0.hpp:1609-1621 | The value at a place is a copy of a string, which may be one of the pool itself, or null exactly when there is none or it does not fit |
| JsonDocument.JsonDocument.ToCollection | lib/json/ArduinoJson-v6.15.0.hpp:1626-1635 | The value at a place is an empty array or object |
| JsonDocument.JsonDocument.AddElement | lib/json/ArduinoJson-v6.15.0.hpp:3834-3836 | An array has one more null at its end, exactly when there is room, provided that the tail's link reaches the new slot |
| JsonDocument.JsonDocument.AddMember | lib/json/ArduinoJson-v6.15.0.hpp:3837-3846 | An object has one more member with that key, exactly when there is a key and slot and key fit; otherwise the slot is unlinked again and its memory stays taken |
| JsonDocument.JsonDocument.RemoveAt | lib/json/ArduinoJson-v6.15.0.hpp:3957-3968 | A collection has one slot less, and the others keep their order, provided that the link between its neighbours fits |
| JsonDocument.JsonDocument.RemoveElement | lib/json/ArduinoJson-v6.15.0.hpp:3969-3971 | The element at an index is gone; past the end nothing happens |
| JsonDocument.JsonDocument.GetOrAddElement | lib/json/ArduinoJson-v6.15.0.hpp:3942-3956 | The element at an index is returned and the array padded with nulls up to it, exactly when there is room; otherwise padded as far as there is room |
| JsonDocument.JsonDocument.GetMember | lib/json/ArduinoJson-v6.15.0.hpp:3923-3927 | The first member whose key compares equal is found by following the links |
| JsonDocument.JsonDocument.GetOrAddMember | lib/json/ArduinoJson-v6.15.0.hpp:3928-3937 | The member with a key is found or added, exactly when there is a key and, for a new one, slot and key fit; the value becomes what `DocumentLaws.MemberGot` says |
| JsonDocument.JsonDocument.RemoveMember | lib/json/ArduinoJson-v6.15.0.hpp:212-214 | The first member with a key is gone and the others keep their order; without one nothing happens |
| JsonDocument.JsonDocument.CopyFrom | lib/json/ArduinoJson-v6.15.0.hpp:1451-1467 | The value at a place is a deep copy of a value in any other memory or elsewhere in the document, complete or as far as the pool has room, provided that every link of the copy fits; nothing else in memory changes |
| JsonDocument.JsonDocument.CopyWithin | lib/json/ArduinoJson-v6.15.0.hpp:1451-1467 | A value of the document is copied to any place that is not inside it |
| JsonDocument.JsonDocument.CopyOnto | lib/json/ArduinoJson-v6.15.0.hpp:1451-1467 | A value that is copied onto itself keeps its value, as far as its string fits once more, but a collection becomes empty |
| JsonDocument.JsonDocument.FewSlotsFit | lib/json/ArduinoJson-v6.15.0.hpp:617-653 | While a pool has at most 2^15 slots in use, every link of an addition or a removal fits |
| JsonDocument.JsonDocument.CopyCollection | lib/json/ArduinoJson-v6.15.0.hpp:3855-3874 | The same for the slots of a collection |
| JsonDocument.JsonDocument.CopyOne | lib/json/ArduinoJson-v6.15.0.hpp:3858-3872 | One slot is copied with its key; a slot whose key does not fit is unlinked again |
| Relocation.MovedBelow | lib/json/ArduinoJson-v6.15.0.hpp:4001-4007 | With head, tail and strings adjusted and relative links untouched, the moved slots form the same lists at their new addresses |
| Relocation.MovedImage | lib/json/ArduinoJson-v6.15.0.hpp:1684-1689 | The moved document has the same value, if every string reads at its new address what it read before |
| BasicJsonDocument.MoveVariant | lib/json/ArduinoJson-v6.15.0.hpp:1684-1689 | Every pointer of a variant and of all slots below it is adjusted once, and nothing else changes |
| BasicJsonDocument.MoveSlots | lib/json/ArduinoJson-v6.15.0.hpp:4001-4007 | The same for a chain of slots, following links that have already moved |
| BasicJsonDocument.MoveSlot | lib/json/ArduinoJson-v6.15.0.hpp:674-681 | The same for a slot and its key |
| BasicJsonDocument.Shrunk | lib/json/ArduinoJson-v6.15.0.hpp:3668-3678 | After sliding the slots, moving the block and adjusting pointers by the two distances, the document is sound and has the same value |
| BasicJsonDocument.MoveBlock | lib/json/ArduinoJson-v6.15.0.hpp:3672-3677 | Once the slots have slid, moving the block and adjusting every pointer keeps the value, if the owned strings are in the pool or the block stays |
| BasicJsonDocument.ShrinkToFit | lib/json/ArduinoJson-v6.15.0.hpp:3668-3678 | For documents of any size: the value is kept, and the pool gives back the space between strings and slots, if nothing is given back, the block stays where it is, or all owned strings are in the pool; a block of no bytes may become null |
| BasicJsonDocument.PointersFollow | lib/json/ArduinoJson-v6.15.0.hpp:3668-3678 | After the move all pointers lead to their strings exactly when the block has not moved or all owned strings are in the pool |
| BasicJsonDocument.ShrinkingLosesString | lib/json/ArduinoJson-v6.15.0.hpp:3668-3678 | The document ["a"] parsed in place, with its slot in the pool, becomes [""] when shrinking moves the block |
| BasicJsonDocument.CollectingLosesString | lib/json/ArduinoJson-v6.15.0.hpp:3679-3686 | A sound document with a 40-character string parsed in place, and a pool of 32 bytes: a copy comes out null |
| BasicJsonDocument.Duplicate | lib/json/ArduinoJson-v6.15.0.hpp:3702-3705 | The copy constructor and the assignment after it make a deep copy in a block of the same capacity |
| BasicJsonDocument.GarbageCollect | lib/json/ArduinoJson-v6.15.0.hpp:3679-3686 | False exactly for a document without capacity; otherwise the value is kept exactly when its live memory fits in the capacity, which it does in every tidy document, and then the pool's size is its live memory |
| DocumentRuns.Locate | lib/json/ArduinoJson-v6.15.0.hpp:3910-3912 | Following indices from the root leads to the variant at a place, or there is no such place |
| DocumentRuns.WillFit | lib/json/ArduinoJson-v6.15.0.hpp:3855-3874 | Whether every link of a copy will fit, whether the copy will be complete, and the room it will leave |
| DocumentRuns.Execute | lib/json/ArduinoJson-v6.15.0.hpp:1451-1683 | A command at any place is carried out exactly when it is sensible and every link it makes fits; then the whole document and the room left are what the command means (`DocumentLaws` has its laws), and else nothing changes; it stays sound and tidy |
| DocumentRuns.SmallPool | lib/json/ArduinoJson-v6.15.0.hpp:617-653 | In a pool of a mebibyte every sensible command is carried out |
| DocumentRuns.Run | lib/json/ArduinoJson-v6.15.0.hpp:1451-1683 | Any run of commands - values, strings, collections, additions by index and by key, removals by index and by key, copies - is carried out up to the first one that is not sensible or whose links do not fit, of which there is none in a pool of a mebibyte if all are sensible; the document and the room left are the fold of what the commands mean, its live memory is at most the pool's size, and a copy into a block of the same capacity is complete |
| DocumentLaws.MemberGot | lib/json/ArduinoJson-v6.15.0.hpp:3928-3937 | Getting or adding a member leaves every slot that is there as it is; a member that is there is given back and takes no room; with a key and room enough the key is found afterwards; and every name that was found is found with the same value |
| DocumentLaws.ElementGot | lib/json/ArduinoJson-v6.15.0.hpp:3942-3956 | Getting or adding an element leaves every slot that is there as it is, and adds nulls only up to the index, as far as there is room |
| DocumentLaws.KeyRemoved | lib/json/ArduinoJson-v6.15.0.hpp:212-214 | A removed name is found no more if it was there once, and all other names are found with the values they had |
| DocumentLaws.ElementRemoved | lib/json/ArduinoJson-v6.15.0.hpp:3969-3971 | The others keep their order |
| DocumentLaws.CopyCut | lib/json/ArduinoJson-v6.15.0.hpp:3855-3874 | A copy that runs out of room is the original cut off: all slots but the last on each level are complete; it stops only when the room that is left holds no slot, or is too small for one of the strings, and at most the room of one slot is lost |
| DocumentLaws.PlaceAfter | lib/json/ArduinoJson-v6.15.0.hpp:1451-1683 | What is at the place of each command afterwards, and the room that is left: the value, the string up to its NUL, null if it does not fit, an empty collection, one null more, the copy |
| DocumentLaws.OnTheWay | lib/json/ArduinoJson-v6.15.0.hpp:1451-1683 | A collection on the way to the place keeps its slots and their keys, and all values but the one on the way |
| DocumentLaws.OtherPlaces | lib/json/ArduinoJson-v6.15.0.hpp:1451-1683 | Changing one place leaves every place that is not on the way to it, also the slots below it if they are kept |
| DocumentLaws.AddingKeeps | lib/json/ArduinoJson-v6.15.0.hpp:3834-3956 | Adding by index or by key changes no value that is in the document already |
| DocumentKeys.RunRegular | lib/json/ArduinoJson-v6.15.0.hpp:3928-3937 | Keys stay unique over any run of commands that starts with unique ones, and so the document equals every copy of it |
| DocumentKeys.ParsedAndRun | lib/json/ArduinoJson-v6.15.0.hpp:4759-4782 | That goes for every document that was parsed from JSON, whatever the text and the outcome, and then changed by any run of commands |
| DocumentKeys.CopyRegular | lib/json/ArduinoJson-v6.15.0.hpp:3855-3874 | Every copy of a document with unique keys has unique keys, complete or not |
| JsonLinks.VariantInRoom | lib/json/ArduinoJson-v6.15.0.hpp:617-653 | Parsing takes 32 bytes of the pool for each slot, and in a pool of a mebibyte every link fits, whatever the text |
| JsonLinks.VariantInText | lib/json/ArduinoJson-v6.15.0.hpp:617-653 | A text takes no more slots than it has characters, and with at most 2^15 characters every link fits, whatever the pool |
| PooledParser.PooledParser.Store | lib/json/ArduinoJson-v6.15.0.hpp:4656-4712 | A string is stored behind the strings in the pool, or in the part of the input that was read, and the document built so far stays as it is |
| PooledParser.PooledParser.OpenMember | lib/json/ArduinoJson-v6.15.0.hpp:5062-5080 | A key is stored and selects the slot it has already, or a new linked slot |
| PooledParser.PooledParser.ParseRowsInto | lib/json/ArduinoJson-v6.15.0.hpp:4994-5098 | The slots linked in the pool are the grammar's elements or members, for every outcome, provided that every link fits |
| PooledParser.PooledParser.ParseValue | lib/json/ArduinoJson-v6.15.0.hpp:4948-4976 | The variant becomes what the grammar makes of the text, provided that every link fits; no slot that was there changes, and as many are taken as the text says |
| PooledParser.DeserializeJson | lib/json/ArduinoJson-v6.15.0.hpp:4759-4782 | For every text, limit and pool for which every 16-bit link fits, among them every pool of a mebibyte and every text of 2^15 characters: the document in memory has the grammar's value, error and room; it is sound, and tidy if strings were copied; in place its strings lie in the input |
| PooledParser.OwnUsage | lib/json/ArduinoJson-v6.15.0.hpp:1636-1651 | The live memory of a deserialized value is what the value needs of the pool |
| CircularQueue.CircularQ.constructor | lib/spdlog/details/circular_q.h:35-38 | A queue of the given capacity is enabled and empty |
| CircularQueue.CircularQ.PushBack | lib/spdlog/details/circular_q.h:49-62 | The FIFO gets the item; a full one loses its oldest item and counts it; a disabled one ignores it |
| CircularQueue.CircularQ.PopFront | lib/spdlog/details/circular_q.h:101-104 | The FIFO loses its oldest item |
| CircularQueue.CircularQ.Front | lib/spdlog/details/circular_q.h:66-74 | The oldest item |
| CircularQueue.CircularQ.At | lib/spdlog/details/circular_q.h:93-97 | The i-th oldest item |
| CircularQueue.CircularQ.Tests | lib/spdlog/details/circular_q.h:77-120 | `size`, `empty` and `full` tell the state of the FIFO |
| CircularQueue.CircularQ.CopyMoveable | lib/spdlog/details/circular_q.h:127-139 | The items, the capacity and the count move over, and the other queue is left disabled and empty |
| CircularQueue.LastItems | lib/spdlog/details/circular_q.h:49-104 | After any history of pushes, pops and moves the items are the last ones pushed, in order, no more than the capacity, and pushes equal pops plus overruns plus size |
| CircularQueue.DisabledStays | lib/spdlog/details/circular_q.h:127-139 | A queue that was moved from stays empty and counts nothing, whatever is pushed |
| ThreadPool.WakeupsKeptByPush | lib/spdlog/details/mpmc_blocking_q.h:34-53 | A producer's turn with the mutex keeps the wake-up invariant: while a producer sleeps, every free place has a producer that will test again or a worker about to notify, and likewise for workers and stored messages |
| ThreadPool.WakeupsKeptByTake | lib/spdlog/details/mpmc_blocking_q.h:57-70 | The same for a worker's turn, also when its wait has timed out |
| ThreadPool.WakeupsKeptByNotify | lib/spdlog/details/mpmc_blocking_q.h:41-41 | The same for a notification, whichever sleeper it wakes, or none |
| ThreadPool.NoSleepBesideWork | lib/spdlog/details/mpmc_blocking_q.h:34-71 | When no thread can move by itself, producers sleep only at a full queue and workers only at an empty one |
| ThreadPool.BooksStep | lib/spdlog/details/thread_pool-inl.h:71-121 | Every step keeps the books: each message ever pushed is handled, overrun and counted, stored, or in one worker's hand; terminates follow all the work and are never overrun |
| ThreadPool.RolesStep | lib/spdlog/details/thread_pool-inl.h:38-53 | Every step keeps the roles: only the destructor posts terminates, one for each worker, after everyone else has finished posting |
| ThreadPool.MutexStep | lib/spdlog/details/mpmc_blocking_q.h:34-71 | Every step keeps the mutex with exactly the thread that is inside |
| ThreadPool.InvStep | lib/spdlog/details/thread_pool-inl.h:38-121 | Every step, spurious wake-ups and timeouts included, keeps the whole invariant |
| ThreadPool.InvRun | lib/spdlog/details/thread_pool-inl.h:38-121 | So does every run |
| ThreadPool.ShutdownDrains | lib/spdlog/details/thread_pool-inl.h:38-53 | In every run of a fresh pool that has ended: the queue is empty, each worker has exited after exactly one terminate, and every message posted was handled exactly once or counted as overrun; which ones may be is in `ThreadPoolLaws.LostByHaste` |
| ThreadPoolLaws.TurnTurns | lib/spdlog/details/mpmc_blocking_q.h:34-71 | A turn with the mutex: whatever is posted goes behind all others; what leaves is the oldest message, to a worker, or lost, and lost only when a post that does not wait finds the queue full; a post that waits is made exactly when there is room, any other at once |
| ThreadPoolLaws.RunAccounts | lib/spdlog/details/thread_pool-inl.h:71-121 | Over every run, posts made and posts still to make are all that there were to make, and a lost message is paid for by a post that does not wait |
| ThreadPoolLaws.FirstOut | lib/spdlog/details/mpmc_blocking_q.h:34-71 | Over every run the queue is first in, first out |
| ThreadPoolLaws.QueueKeepsOrder | lib/spdlog/details/thread_pool-inl.h:71-121 | In every run of a fresh pool the messages that have left the queue are the first ones posted, and each was handled, is in a worker's hand, or is lost |
| ThreadPoolLaws.LostByHaste | lib/spdlog/details/thread_pool-inl.h:71-81 | In every run of a fresh pool no more messages are lost than posts were made that do not wait; if every post waits, none is lost and nothing is overrun |
| ThreadPoolLaws.AllHandled | lib/spdlog/details/thread_pool-inl.h:38-53 | When the destructor returns, all that any thread had to post was handled or lost; if every post waits, all of it was handled |
| ThreadPool.Progress | lib/spdlog/details/mpmc_blocking_q.h:34-71 | Until the workers are joined some thread can take a step, without any spurious wake-up or timeout |
| ThreadPool.StepShrinks | lib/spdlog/details/thread_pool-inl.h:71-121 | Every step makes a measure smaller, but for spurious wake-ups and timeouts, which add a bounded amount |
| ThreadPool.BoundedRun | lib/spdlog/details/thread_pool-inl.h:38-121 | A run is no longer than the measure of its start and a few steps for each disturbance |
| ThreadPool.ShutdownEnds | lib/spdlog/details/thread_pool-inl.h:38-53 | Every run of a fresh pool is bounded so, and ends joined or can go on |
| Client.Connection.constructor | client.cpp:162-199 | Both ends are alive, cross-linked and reading, with nothing carried yet |
| Client.Connection.ContextsLive | client.cpp:195-196 | A registered context is null or the other end, alive; a read callback is only registered with a live one |
| Client.Connection.LocalReadCb | client.cpp:53-81 | All input, in chunks of up to 1023 bytes, is substituted and appended to the peer's output |
| Client.Connection.RemoteReadCb | client.cpp:121-152 | The same with the inverse table |
| Client.Connection.CloseOnFinishedWriteCb | client.cpp:154-160 | An end is freed exactly when its output is empty |
| Client.Connection.Finish | client.cpp:14-34 | What the ending side had received is handed on; the peer lives on exactly when it has something to flush, without reading and with no context; the end is noted |
| Client.Connection.LocalEventCb | client.cpp:9-51 | An end or error finishes the connection; anything else, while linked, frees both ends |
| Client.Connection.RemoteEventCb | client.cpp:83-119 | Connecting changes nothing; an end or error finishes the connection; a read timeout frees both ends; anything else changes nothing |
| Client.Connection.Arrive | client.cpp:195-198 | Arriving data keeps the invariant: what a side has received is, substituted, what its peer has sent or will send |
| Client.Connection.Flush | client.cpp:154-160 | Flushing keeps it, and an end that only flushes is freed when nothing is left |
| Client.Connection.Signal | client.cpp:195-196 | So does any event that may be signalled; it is noted, and one that is final frees its end |
| Client.Connection.Run | client.cpp:162-199 | Any run of network events is carried out one after the other, those that are not enabled being dropped: buffers, liveness and what was received and sent of both ends are the fold of what the events mean. Each end is freed at most once and never used afterwards; both live exactly until a final event is signalled; and when both are freed and one end or error of one side was the only final event, everything that side had received was sent by its peer, substituted |
| Client.EndingNext | client.cpp:9-51 | The first final event - an end, an error, or a read timeout of the remote end - decides how a connection ends; a second one aborts it |
| KeySetup.GenPassword | util.cpp:23-48 | The password is the base64 text of the 256 bytes in the order in which they are drawn first; the draws suffice exactly when every byte is drawn |
| KeySetup.DrawnInOrder | util.cpp:29-46 | A byte in front of another one in the table was drawn before that one was |
| KeySetup.SetConfig | client.cpp:201-210 | The table starts with the decoded password and is otherwise unchanged |
| KeySetup.SetUpBothSides | server.cpp:158-165 | One generated password makes the same permutation on both sides, the one that was drawn, whatever their tables held |
| KeyTable.EveryByte | util.cpp:29-46 | 256 bytes without repeats are all the bytes, by the pigeonhole principle |
| KeyTable.MappedAt | cipher.cpp:13-21 | Substitution replaces each byte by its entry in the table, once, and nothing else does |
| KeyTable.InverseAt | cipher.cpp:9-12 | The inverse of a permutation is the only table that leads back from every byte |
| KeyTable.InverseMapped | cipher.cpp:9-21 | Substitution by a permutation is undone by the table the loop builds, in both orders |
| KeyTable.RepeatsLose | cipher.cpp:35-37 | Different streams are always encoded differently exactly when the table is a permutation |
| KeyTable.MappedSegments | client.cpp:67-76 | Where a stream is cut does not matter to its substitution |
| KeyTable.EndToEnd | client.cpp:67-76 | A stream encoded in any segments and decoded in any others arrives as it was, in both directions |
| Cipher.InvertTable | cipher.cpp:9-12 | The loop builds the inverse table |
| Cipher.Carry | cipher.cpp:13-24 | Reading, substituting and writing in chunks empties the input and appends its substitution, whatever the chunk size |
| Cipher.Decrypt | cipher.cpp:8-25 | All input of the client's end reaches the target's, substituted by the inverse table |
| Cipher.Encrypt | cipher.cpp:27-40 | All input of the target's end reaches the client's, substituted by the table |
| Cipher.EncryptBytes | cipher.cpp:42-50 | The first bytes, up to 32, are substituted in place and the others kept |
| Cipher.DecryptBytes | cipher.cpp:52-64 | The same with the inverse table |
| Cipher.Handshake | cipher.cpp:42-64 | Bytes encrypted in place on one side and decrypted on the other are as before |
| Tunnel.Forward | client.cpp:53-81 | Any stream, in any segments, encrypted by the client in chunks of 1023, cut by the network in any way, and decrypted by the server in chunks of 2047, arrives as it was |
| Tunnel.Backward | server.cpp:112-134 | The same from the server to the client |
| Base64.Base64Encode | lib/base64/base64.cpp:45-85 | The loop with its three-byte buffer computes the encoding of section 4 of RFC 4648, padding included |
| Base64.Base64Decode | lib/base64/base64.cpp:87-122 | The loop with its four-character buffer decodes the valid prefix |
| Base64.RoundTrip | lib/base64/base64.cpp:45-122 | Decoding what was encoded gives the bytes back |
| Base64.EncodedLength | lib/base64/base64.cpp:45-85 | n bytes become 4 * ceil(n / 3) characters |
| Base64.DecodedLength | lib/base64/base64.cpp:87-122 | Decoding depends only on the longest prefix of k alphabet characters, and gives 3 * (k / 4) + max(0, k % 4 - 1) bytes |
| Base64.AlphabetOrder | lib/base64/base64.cpp:35-38 | The characters are those of table 1 of RFC 4648, in order |
| Base64.EncodedAt | lib/base64/base64.cpp:45-85 | Each character of an encoding is the one for its six bits of the 24 bits of its group, or a padding |
| Base64.DecodedAt | lib/base64/base64.cpp:87-122 | Each byte that is decoded is its eight bits of the 24 bits of its four characters |
| Base64.Alphabet | lib/base64/base64.cpp:35-43 | Characters and 6-bit values correspond one to one |
| RotatingFileSink.NamesDiffer | lib/spdlog/sinks/rotating_file_sink-inl.h:43-54 | Different indices give different file names, whatever the base name |
| RotatingFileSink.IndexBeforeExtension | lib/spdlog/sinks/rotating_file_sink-inl.h:43-54 | The index goes between the name and its extension, whatever folder it is in |
| RotatingFileSink.IndexAtEnd | lib/spdlog/sinks/rotating_file_sink-inl.h:43-54 | Without an extension - no dot in the file's name, or only one that starts it, or one that ends it - the index goes to the end |
| RotatingFileSink.SunkByFit | lib/spdlog/sinks/rotating_file_sink-inl.h:62-74 | A message that fits goes behind the others; one that does not starts a new file, and the others have the next index, as far as they are kept |
| RotatingFileSink.MoveStep | lib/spdlog/sinks/rotating_file_sink-inl.h:93-116 | One rename of the cascade moves one more file up, and leaves the others |
| RotatingFileSink.Sink.constructor | lib/spdlog/sinks/rotating_file_sink-inl.h:26-39 | In a directory that holds what a previous sink has left, or nothing, the sink starts valid; the size it believes the current file has is exact unless it rotated a file that was not empty |
| RotatingFileSink.Sink.RenameFile | lib/spdlog/sinks/rotating_file_sink-inl.h:122-128 | The target is replaced by the source |
| RotatingFileSink.Sink.Rotate | lib/spdlog/sinks/rotating_file_sink-inl.h:87-118 | Every file has moved to the next index, the last one is lost, and the current one is empty |
| RotatingFileSink.Sink.SinkIt | lib/spdlog/sinks/rotating_file_sink-inl.h:62-74 | The message is logged, after a rotation exactly if the believed size would exceed the limit: the files stay a contiguous range of indices, hold a suffix of the log cut between messages, and each is within the limit, as it was before, or a single message; the believed size is exact if it was or if it rotated |
| RotatingFileSink.Sink.LogAll | lib/spdlog/sinks/rotating_file_sink-inl.h:62-74 | So they are after any number of messages, also of a sink that has rotated on opening |
| RotatingFileSink.KeepsSuffix | lib/spdlog/sinks/rotating_file_sink-inl.h:87-118 | A rotation keeps a suffix of the log |
| RotatingFileSink.FilesEndTheLog | lib/spdlog/sinks/rotating_file_sink-inl.h:62-118 | The files in the directory have contiguous indices; concatenated, the oldest first, they are the end of the text that was logged; and none is longer than the limit, the files there were, or the longest message |
| RotatingFileSink.OpeningRotatesAgain | lib/spdlog/sinks/rotating_file_sink-inl.h:26-39 | After a rotation on opening, the first message rotates the empty file, too, and costs one more old file, exactly when old files are kept and it would not have fitted in the old one |
| RotatingFileSink.OpeningLosesLog | lib/spdlog/sinks/rotating_file_sink-inl.h:26-39 | With one old file kept, a log of 90 characters set aside on opening is lost with the first message of 20, for a limit of 100 |

## Left out

- Floating point: `make_float`, `FloatParts` and `writeFloat` are not modelled; a fraction or an
  exponent is kept as the exact decimal operands the parser has gathered.
- JsonSyntax: escapes of four hexadecimal digits are not spelled by any tree; the deserializer refuses
  them as not supported (`JsonErrors.DeserializeBlamed`).
- NumberSyntax.ParserDecides: a number that is no integer stands for its digits and their power of ten, not for the
  float that is made of them.
- JsonErrors.DeserializeBlamed: it goes one way: which error an input that is not a text ends with is not decided otherwise.
- Raw JSON values, comments, filters, and sources other than a bounded buffer.
- DocumentEquality.EqualsCopy: floats are compared by the operands they were made of; only a NaN is told apart.
- PooledParser.DeserializeJson: the text is an immutable sequence here; that reading through the latch
  sees the original text while strings overwrite it is proved in `JsonDeserializer`. A text whose slots
  are too far apart for a 16-bit link is excluded by a precondition on what parsing takes
  (`VariantLinks`). The MessagePack deserializer is not run over pool memory; its slot lists are
  sequences.
- JsonDeserializer.Deserializer.ParseValue: the position after a failure is not related to the grammar's.
- MsgPackDeserializer.Deserializer.Parse: the position after a failure is not related to the format's.
- JsonDocument.JsonDocument.RemoveElement: an empty array is excluded, since the source dereferences its null head; likewise reading an index of one (`GetSlotAt`).
- JsonDocument.JsonDocument.CopyFrom: a value is not copied into its own inside, where the source follows the list it is
  extending; and every link that the copy makes fits (`CopyFits`), which `CompleteFits` turns into a
  condition on the value alone.
- JsonDocument.JsonDocument.Set: every link of the copy fits, as for `CopyFrom`; likewise for `CopyWithin`, `CopyCollection` and `CopyOne`.
- JsonDocument.JsonDocument.AddMember: a key that is shared, not copied, lies outside the document's pool, since nothing
  would adjust a pointer that is not owned.
- JsonDocument.JsonDocument.SetLinkedString: a string that is shared lies outside the pool for the same reason.
- JsonDocument.JsonDocument.AddElement: additions and removals whose link does not fit are excluded by preconditions that a
  caller can check (`FewSlotsFit`); what they would do is in `LinkLastLaid` and `UnlinkLaid`.
- BasicJsonDocument.ShrinkToFit: reallocation succeeds; where the block goes is the allocator's choice, as long as nothing that is alive lies there.
- BasicJsonDocument.GarbageCollect: the links of the copy fit, as for copying; allocation succeeds; freed memory is not marked, but no sound document refers to it.
- ThreadPool.InvStep: testing the queue, pushing or taking, and releasing the mutex are one step, since nothing else can see the queue while the mutex is held; the queue in it is the FIFO that `CircularQueue` refines, of capacity at least one.
- ThreadPool.RolesStep: the destructor begins when no other thread has anything left to post, because posting holds a reference to the pool.
- The variant of the queue for MinGW, which notifies while it holds the mutex, and worker start-up callbacks.
- Client.Connection.Signal: no timeout is signalled to the local end, which has none armed, nor a read timeout to an end whose reading is disabled; libevent's sockets and event loop are otherwise any sequence of events.
- Client.Connection.LocalReadCb: without a partner the source drains the input and then dereferences null; such a callback is never registered (`ContextsLive`), so the partner is a bufferevent here.
- Client.Connection.Finish: the branch for an end or error is the same in both event callbacks and is written once.
- DocumentRuns.Run: it stops where the source would corrupt a list, by a link that does not fit or a value copied into its own inside, or dereference the null head of an empty array; strings that the commands name lie outside the pool.
- KeySetup.SetConfig: a password that decodes to more than 256 bytes overruns the table in the source and is excluded by a precondition.
- KeySetup.GenPassword: the random device is a finite sequence of draws; its quality and the termination of the loop are not modelled.
- Bit operations of base64 and MessagePack are written as division and remainder, of bytes that are integers below 256.
- RotatingFileSink.Sink.Rotate: renames succeed; the retry, the delay and the exception after a second failure are not modelled.
- RotatingFileSink.Sink.constructor: the directory holds what a sink has left, files without gaps in their numbers, or nothing.
- RotatingFileSink.NamesDiffer: the folder separator is `/`.
- The SOCKS5 handshake, DNS, sockets, the server's connection life times, configuration file access, and the logger's formatting and registry.
