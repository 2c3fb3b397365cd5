# A verified model of libbson's hard parts

mongolite bundles libbson, the C library that reads, writes, checks and prints BSON. This project is a Dafny model of
the parts of it that are hard to get right, with proofs of what they promise: the document builder, the iterator, the
validator and the stream reader; the extended JSON printer and the reader's state machine; the calendar conversion and
the date texts; Decimal128, base64, packed-bit vectors and JSON string escaping.

`dafny verify dfyconfig.toml` checks the whole project.

Code that updates fields or buffers step by step is modelled by classes and methods over arrays, in the shape of the
C functions; each is proved against a specification on values (trees, byte strings, dates, digit strings), and the
promises of the library are proved about those specifications. A declared subtype such as `int64` obliges every
assignment to it not to overflow, so the absence of signed overflow is part of what is proved.

## How the files fit together

- `CInt`, `BsonTree` (with `LittleEndian`): C integers, little-endian integers, documents as trees, and the pure
  encoding of the BSON specification, version 1.1.
- `BsonLayout`, `BsonArguments`, `BsonWire`, `BsonBuilder`, `BsonBuild`: one growable buffer shared by a document and
  the children open inside it (`BsonBuilder.Bson`), and whole runs of calls on it. `BsonWire` writes every element out
  byte by byte.
- `BsonIter`, `BsonDecode`, `BsonAccess`, `BsonRead`: the iterator, what reading with it means (`DecodeIff`), the typed
  accessors, and the iterator's clients.
- `Utf8`, `Utf8Text`: what valid UTF-8 is, and the validating loop. `ValidateRules`, `Validate`: the rules on trees,
  flag by flag, and the recursive validator that decides them.
- `StreamReader`: documents out of a block of memory and out of a buffer refilled by a callback that splits the stream
  as it likes.
- `JsonText`, `JsonMachine`, `JsonPrint`, `JsonScalars`, `JsonRoundTrip`, `JsonDecimal`: the canonical printer as a
  producer of events, the reader as a state machine on values, and the round trip.
- `JsonShape`, `JsonLag`, `JsonEarlyEnd`, `JsonCode`: what holds along every run of that machine on a text: how its
  frames correspond to the containers of the text, when it is done, and that an assertion of the source cannot fail.
- `JsonReader`, `JsonReadBack`: the callbacks of the source as methods updating a reader object. Each of them is the
  machine's step for its event, so the theorems about the machine are theorems about them; `JsonReadBack` draws the
  conclusions for reading whole texts.
- `JsonForms`, `JsonRelaxed`, `JsonRefusals`: the other ways to write a value that the reader knows (plain numbers, date
  texts, legacy wrappers), the relaxed printer as a second producer, and wrappers that are refused or read oddly.
- `JsonEscape`: the escaper that copies runs, against the byte-by-byte map and a decoder after RFC 8259, section 7.
- `Calendar`, `Timegm`, `Iso8601`, `Iso8601Parse`: the proleptic Gregorian calendar, the conversions between instants
  and civil time, and date texts.
- `Decimal`, `Decimal128`, `Decimal128Print`, `Decimal128Scan`, `Decimal128Parse`, `Decimal128RoundTrip`: Decimal128 in
  binary integer decimal encoding. `Decimal128Ieee` states the fields and the texts after IEEE 754-2008, section 3.5.2,
  `Decimal128Grammar` the grammar of the texts that are parsed.
- `Base64`, `Base64Text`, `Base64Codec`: RFC 4648, section 4. `PackedBits`, `PackedVector`: vectors of single bits.

## Where the code does less than one would expect

Each of these is a fact about the code as it is. Where one is a property the code fails, the exact condition is named.

- **A text that breaks off can be read as complete.** The middle map of `$timestamp`, and a few other wrappers, take a
  map in place of a value; the reader then has a level less than the text, and the next ends close too much
  (`JsonEarlyEnd.DoneTooEarly`: success with the outermost map still open). `JsonLag.StepTrails` counts the levels lost
  event by event, `StepInStep` and `AlwaysInStep` say when none is. An array of the text takes up the ends of levels
  lost inside it, so the condition for being done is another: a run that came to an end, for the reader or in the text,
  was done exactly on time all along if and only if no map was misplaced and no subtype misread while no array was open
  (`JsonLag.DoneOnTimeIff`). Whole texts that do not fail are always done on time (`WholeTextOnTime`).
- **Decimal texts with very small exponents lose them.** The branch that keeps the exponent from overflowing sets it
  to the minimum whatever the digits are, so `1E-20000` is stored as 1E-6176 (`Decimal128RoundTrip.ExponentIsLost`).
- **A long decimal text with leading zeros can lose digits.** Of more than 34 digits those past the 34th are meant to be
  zeros, but the code looks for them as if the text had no leading zeros, so that 0, 1, thirty-four zeros and 5 are
  accepted without the 5 (`Decimal128RoundTrip.DigitIsLost`). `AcceptedIsExact`, for both: an accepted number is exact
  if and only if it is zero, or has at most 34 significant digits and its exponent was not lost. The comment in the
  source speaks of rounding to nearest; otherwise the code rejects numbers it would have to round.
- **Some decimals that could be stored are rejected**, for two reasons. A point is looked at in place of a digit: when
  the digits dropped, for an exponent below the minimum or past the 34th, begin right before it (`PointTrips`), or when
  it stands behind more than 34 digits but no more than there are from the first nonzero one on (`FarPointTrips`). Or
  there are zeros in front of more than 34 digits, and earlier digits are taken for those past the 34th
  (`ZeroInFrontTrips`). `Decimal128RoundTrip.ConvertsIff` is the exact condition for every text: it is converted to the
  number it says if and only if that is zero, or can be stored at all, its exponent is not lost, and neither reason
  applies; numbers above the exponent range are spared both.
- **Not every Decimal128 survives printing.** `RoundTrip`: the same bits come back exactly for coefficients below
  10^34, both infinities and one NaN. Coefficients between 10^34 and 2^113 are printed although they are not canonical.
- **The two stream readers disagree about the end.** Both give the same documents, but for a stream that ends inside a
  document the buffered reader reports the end of the stream and the in-memory reader does not; and a callback that
  fails on its very first read is taken for the end (`StreamReader.HandleReader.Read`, `ReadBothWays`). Beyond the int
  range a cast can hide documents: from the in-memory reader exactly those longer than the cast of what is left, from
  the buffered reader only with more than 2^31 - 1 bytes left, and none if no length declared is above 2^30.
- **Base64 lengths are measured more leniently than texts are decoded**: the measuring pass accepts nonzero bits in the
  last digit of an incomplete group, the decoding pass does not (`Base64Codec.Pton`).
- **A regular expression can inherit options.** One written as `$regex` alone, without `$options`, takes what the last
  one that had options left in the reader's buffer; it has none exactly when none of the letters i, l, m, s, u and x is
  left there (`JsonForms.ReadRegexAlone`). `OptionsLinger`: of any two in a document, the second written alone is read
  with the options of the first.
- **Relaxed JSON does not keep the type of 64-bit integers that fit 32 bits.** They come back as 32-bit ones, and the
  same document comes back exactly when it has none (`JsonRelaxed.RelaxedRoundTrip`, `NarrowedIff`).
- **Any text of 24 bytes is read as an object id**, bytes that are no hexadecimal digits as zeros
  (`JsonRefusals.ReadOidText`); what is read has that text, in small letters, exactly when it is hexadecimal (`HexIff`).
  `{"$date": {}}` is read as 1970 (`ReadEmptyDate`), and code inside a scope as a document with the key `$code`
  (`ReadCodeInScope`).
- **Scopes of code values are validated under rules of their own**: their texts are checked for UTF-8 whatever the
  flags say (`ValidateRules.NoFlagsOnlyDepth` excludes them for that reason).
- **A dotted path follows the first match only.** If the first element with a key is no container the lookup fails,
  even when a later element with the same key would do (`BsonRead.FindDescendant`).

## Model

| member | source | states |
|---|---|---|
| BsonTree.EncodeAppend | src/bson/bson.c:2516-2533 | the element bytes of two documents joined are their element bytes one after the other |
| BsonLayout.RoundUpAllocSize | src/bson/bson.c:62-70 | rounding never shrinks a request and exceeds the maximum size only if the request does |
| BsonLayout.LayoutChange | src/bson/bson.c:340-357 | rewriting the deepest document leaves every enclosing document where and as it was |
| BsonLayout.LayoutBegin | src/bson/bson.c:452-466 | the empty document just appended becomes the open child, its offset tied to its parent's end |
| BsonLayout.LayoutEnd | src/bson/bson.c:500-513 | rewriting the parent's length and terminator makes its bytes the frame with the closed child inside |
| BsonWire.StoredValue | src/bson/bson.c:1507-1550 | a regular expression is stored with ascending options, each of i, l, m, s, u, x exactly when given and no other; any other value as given |
| BsonWire.StoredRegex | src/bson/bson.c:1507-1550 | what the append adds for it, byte by byte |
| BsonWire.SelectedAscending | src/bson/bson.c:1507-1550 | letters chosen from an ascending template come out ascending |
| BsonWire.ElementBytes | src/bson/bson.c:728-1853 | the bytes of every element type written out: type byte, key, and the value in little-endian order |
| BsonWire.DocumentBytes | src/bson/bson.c:340-357 | a document is its length, its elements in order and a zero |
| BsonArguments.CollectArguments | src/bson/bson.c:294-336 | the arguments of an append are collected exactly while their sum fits the maximum size |
| BsonArguments.ArgumentsEncode | src/bson/bson.c:728-1760 | what every append function lines up to copy is the specification's encoding of the element |
| BsonArguments.ElementsInside | src/bson/bson.c:2516-2533 | between header and last byte of a document stand its elements; it is empty exactly when it has five bytes |
| BsonBuilder.Bson.InlineGrow | src/bson/bson.c:91-126 | an inline document stays inline exactly while the bytes fit, and keeps its contents when it moves to the heap |
| BsonBuilder.Bson.AllocGrow | src/bson/bson.c:148-179 | room is made exactly when the size with all owed terminators allows; the bytes in use are kept |
| BsonBuilder.Bson.AppendArguments | src/bson/bson.c:294-357 | an append to the deepest open document adds exactly its bytes, or fails and changes no document, offset or length |
| BsonBuilder.Bson.AppendElement | src/bson/bson.c:728-1853 | an element append succeeds exactly when key and pattern are C strings and there is room, and adds its encoding; a regular expression with its options sorted |
| BsonBuilder.Bson.Concatenate | src/bson/bson.c:2516-2533 | concatenation adds exactly the other document's elements, or fails and changes nothing |
| BsonBuilder.Bson.AppendBegin | src/bson/bson.c:383-469 | opening a child adds the element's head and an empty open document, or fails and changes nothing |
| BsonBuilder.Bson.Promote | src/bson/bson.c:406-418 | moving an inline document to the heap before its first child keeps every document |
| BsonBuilder.Bson.AppendEnd | src/bson/bson.c:490-516 | closing the child needs no room and leaves the parent with the framed child as its last element |
| BsonBuild.InPlaceIsWhole | src/bson/bson.c:383-516 | building a child in place equals appending the child built on its own, whatever happens inside it |
| BsonBuild.ExecInside | src/bson/bson.c:383-516 | what happens inside a child does not depend on the documents around it |
| BsonBuild.ReservedTotal | src/bson/bson.c:452-515 | offset, length and depth of the deepest document add up to the size everything will have once closed |
| BsonBuild.ReservedEverywhere | src/bson/bson.c:452-515 | no open document, with the terminators it owes, reaches past what the deepest has reserved |
| BsonBuild.RoomIsTotal | src/bson/bson.c:148-179 | there is room for n more bytes exactly when the finished document would not exceed the maximum size |
| BsonBuild.TotalStep | src/bson/bson.c:490-516 | accepted calls keep that size within the maximum, and closing a child does not change it |
| BsonBuild.TotalRun | src/bson/bson.c:383-516 | the same over whole runs |
| BsonBuild.Call | src/bson/bson.c:294-516 | one call succeeds exactly when the specification accepts it; a failed one leaves every document as it was |
| BsonBuild.Close | src/bson/bson.c:490-516 | ending the deepest child always succeeds, without moving the buffer |
| BsonBuild.Run | src/bson/bson.c:294-516 | any run of begins, appends and ends, through inline storage, promotion and reallocation, leaves exactly the tree's encoding |
| BsonBuild.DecodeBuilt | src/bson/bson-iter.c:517-818 | whatever an accepted balanced run builds is decoded to the tree that was built |
| BsonBuild.ConcatDecodes | src/bson/bson.c:2516-2533 | a concatenation decodes to the elements of the one followed by those of the other |
| BsonIter.FirstNul | src/bson/bson-iter.c:548-562 | the end of a key or a regular expression is the first NUL at or after a position |
| BsonIter.LocateCodeWithScope | src/bson/bson-iter.c:735-777 | an accepted code with scope has text and scope inside the value and the value inside the buffer, despite 32-bit wrap-around |
| BsonIter.Locate | src/bson/bson-iter.c:564-817 | for every type byte the value ends at or behind its start, or an error offset is set |
| BsonIter.MoveFrom | src/bson/bson-iter.c:531-817 | the value of an element located lies inside the buffer, which goes on behind it; the error is zero exactly when no key is left |
| BsonIter.ErrorPlace | src/bson/bson-iter.c:548-817 | the error offset lies in the corrupt element: at its value, or at the byte, length or scope to blame |
| BsonIter.ScanNul | src/bson/bson-iter.c:548-562 | the scan finds exactly the first NUL |
| BsonIter.Iter.Init | src/bson/bson-iter.c:47-72 | an iterator can be set up on any document of at least five bytes |
| BsonIter.Iter.InitFromData | src/bson/bson-iter.c:92-134 | raw bytes are accepted exactly when header and length agree and the last byte is zero |
| BsonIter.Iter.Next | src/bson/bson-iter.c:517-818 | the iterator stands on the next element exactly when there is one, otherwise it is invalid with the specified error offset, also for a regular expression that ends with the buffer |
| BsonDecode.StringIff | src/bson/bson-iter.c:576-609 | a length-prefixed string is located exactly where its encoding stands |
| BsonDecode.CodeWithScopeIff | src/bson/bson-iter.c:735-777 | a code with scope is located exactly where its encoding stands |
| BsonDecode.ElementsIff | src/bson/bson-iter.c:517-818 | a list of elements is read from a position exactly when its encoding fills the space up to the last byte |
| BsonDecode.DecodeIff | src/bson/bson-iter.c:517-818 | a buffer decodes to a tree if and only if it is that tree's encoding |
| BsonRead.IterationTiles | src/bson/bson-iter.c:531-817 | on any bytes ending in zero, offsets strictly increase inside the buffer and the error is zero exactly when the elements tile it |
| BsonRead.Walk | src/bson/bson-iter.c:92-134 | iterating any buffer terminates, meets exactly those offsets and leaves exactly that error |
| BsonRead.Recurse | src/bson/bson-iter.c:155-185 | recursing iterates exactly the bytes of the sub-document |
| BsonRead.ReadValue | src/bson/bson-iter.c:2489-2573 | the typed accessors, and recursion for containers, give the value the specification decodes for the element the iterator stands on |
| BsonRead.ReadElements | src/bson/bson-iter.c:517-818 | reading on from any element gives the elements the specification decodes |
| BsonRead.ReadBack | src/bson/bson-iter.c:517-818 | reading back the encoding of any document gives that document: same keys, types and values in order |
| BsonRead.FindWLen | src/bson/bson-iter.c:297-316 | on any bytes the search stops on the first position with the key that iteration reaches, or ends with the error there is; what follows the match may be corrupt |
| BsonRead.FindDescendant | src/bson/bson-iter.c:402-434 | on any bytes a dotted path is found exactly when each part in turn is the first position with that key and all but the last hold a document or an array |
| BsonRead.PositionIsKey | src/bson/bson-iter.c:297-316 | where the bytes decode, that position is that of the first element with the key in the tree |
| BsonRead.DescendIsLookup | src/bson/bson-iter.c:402-434 | where the bytes decode, a dotted path is found exactly when the lookup in the tree finds it |
| BsonAccess.PartsInside | src/bson/bson-iter.c:564-817 | whatever the bytes are, the parts of a value the accessors read lie inside the buffer |
| BsonAccess.IterText | src/bson/bson-iter.c:1439-1471 | a text accessor gives the bytes between the length and the final NUL, and nothing for other types |
| BsonAccess.IterBinary | src/bson/bson-iter.c:886-928 | the bytes of a binary, with the second length of the deprecated subtype taken off, are those the specification decodes |
| BsonAccess.IterRegex | src/bson/bson-iter.c:1396-1415 | pattern and options are the two C strings, which reach up to their NULs |
| BsonAccess.IterDbPointer | src/bson/bson-iter.c:1641-1665 | collection and object id are the bytes before and behind the end of the text |
| BsonAccess.IterCodeWithScope | src/bson/bson-iter.c:1574-1612 | code and scope fill the value, in spite of the 32-bit sum of the lengths |
| BsonAccess.IterFixed | src/bson/bson-iter.c:1090-1834 | the accessors of values of fixed size read what the specification decodes |
| Validate.Validator.MaybeValidateUtf8 | src/bson/validate.c:189-216 | text passes exactly under the rules selected by the flags; an error code is set exactly on failure |
| Validate.Validator.ValidateElementKey | src/bson/validate.c:313-342 | a key passes exactly under the key rules |
| Validate.Validator.ValidateCodeWithScope | src/bson/validate.c:260-309 | code and scope pass exactly under the rules for scopes |
| Validate.Validator.ValidateElementValue | src/bson/validate.c:358-416 | a value of any type passes exactly when the specification accepts it, recursing on strictly shorter documents |
| Validate.Validator.ValidateRemainingElements | src/bson/validate.c:432-442 | the remaining elements pass exactly when each does |
| Validate.Validator.ValidateDbRef | src/bson/validate.c:446-490 | a document starting with $ref passes exactly with $ref, $id and optionally $db first, of the right types |
| Validate.Validator.ValidateDollarDoc | src/bson/validate.c:494-505 | a first key with a dollar is a database reference or is rejected |
| Validate.Validator.ValidateDoc | src/bson/validate.c:508-538 | a document passes exactly when the specification on bytes accepts it |
| Validate.BsonValidate | src/bson/validate.c:542-568 | true exactly for bytes that decode to a document accepted under the flags, bit by bit; otherwise the code names a rule that the flags select and the document breaks, or corrupt bytes |
| Validate.AcceptsExactly | src/bson/validate.c:244-538 | the accepted byte strings are exactly the encodings of trees within the depth limit that satisfy the rules of the flags |
| ValidateRules.AcceptedIff | src/bson/validate.c:542-568 | which bit selects which rule: 1 and 8 UTF-8 with and without NULs, 2 dollar keys, 4 dots, 16 empty keys; depth at most 500 always |
| ValidateRules.DocRules | src/bson/validate.c:244-538 | the recursive rules are the conjunction of one property for each |
| ValidateRules.DepthLimit | src/bson/validate.c:508-516 | nothing nested deeper than the limit is accepted under any flags |
| ValidateRules.NoFlagsOnlyDepth | src/bson/validate.c:508-538 | without flags, and without scopes, the depth limit is the only rule |
| Utf8Text.ValidIff | src/bson/bson-utf8.c:65-169 | valid texts are exactly the sequences of allowed characters encoded by the standard's table, or C0 80 where NULs are allowed |
| Utf8Text.Validate | src/bson/bson-utf8.c:65-169 | the loop accepts exactly those texts |
| Utf8Text.GetSequence | src/common/common-utf8-private.h:44-81 | the mask tests give the length a first byte announces, and its bits that count |
| Utf8Text.ReadContinuations | src/bson/bson-utf8.c:98-108 | the inner loop joins six bits a byte, or finds one that is no continuation |
| StreamReader.DocumentsTile | src/bson/bson-reader.c:556-587 | the documents of a stream tile it up to where reading stops |
| StreamReader.JoinedFrames | src/bson/bson-reader.c:454-495 | documents written one after another are framed as they were, up to bytes that are no document |
| StreamReader.DataReader.Read | src/bson/bson-reader.c:556-587 | the in-memory reader returns the document at its offset, except one longer than the cast of what is left, and reports the end exactly at the end |
| StreamReader.DataReader.ReadAll | src/bson/bson-reader.c:556-587 | reading until there is nothing gives all documents and stops where they stop; beyond the int range a prefix, up to one the cast hides |
| StreamReader.HandleReader.constructor | src/bson/bson-reader.c:163-186 | a new reader has filled its buffer once and tells position zero |
| StreamReader.HandleReader.FillBuffer | src/bson/bson-reader.c:94-136 | refilling keeps what is left and the position told, asks for at least one byte, and makes progress or is done |
| StreamReader.HandleReader.GrowBuffer | src/bson/bson-reader.c:394-401 | the doubled buffer holds what the old one held |
| StreamReader.HandleReader.Read | src/bson/bson-reader.c:454-495 | the next document is the one at the position told, for every way the callback splits the stream; when the end is reported, and that only more than an int of bytes left can be taken for it |
| StreamReader.HandleReader.ReadAll | src/bson/bson-reader.c:421-495 | all documents in order, or a prefix with more than an int of bytes left; the position told is the total length of those returned |
| StreamReader.ReadBothWays | src/bson/bson-reader.c:454-587 | for every splitting both readers give the same documents within the int range, and documents of the stream in order beyond; when their reports of the end differ |
| JsonText.ParseDecimalInt | src/bson/bson-json.c:784-807 | the decimal text of every 64-bit integer is read back as that integer |
| JsonText.HexRoundTrip | src/common/common-json.c:635-639 | hexadecimal digits are read back as the bytes they were printed from |
| JsonText.HexText | src/common/common-json.c:635-657 | each byte is printed as the letters 0-9, a-f of its two halves |
| JsonText.DecimalText | src/common/common-json-private.h:131-160 | integers are printed in the letters 0-9 without zeros in front, a minus before negative ones |
| JsonText.ParseIntIff | src/bson/bson-json.c:784-807 | a text is read as an integer exactly when it is space, perhaps a sign and digits of a number that fits 64 bits |
| JsonReader.Reader.ReadInteger | src/bson/bson-json.c:611-724 | the overflow tests on magnitude and sign accept exactly the signed values in range; which value is appended then is stated by JsonReadBack.ReadInteger |
| JsonReader.Reader.ReadAppendDbPointer | src/bson/bson-json.c:1499-1548 | a database pointer needs a $ref text and an $id, found by iterating the collected document |
| JsonReader.Reader.Feed | src/bson/bson-json.c:1875-1963 | feeding any events, to the first failure, is the machine's run |
| JsonReader.ReadJson | src/bson/bson-json.c:2017-2106 | reading one document succeeds exactly when the machine ends done without failure; what is read then is stated by the members of JsonReadBack |
| JsonReadBack.ReadPrinted | src/bson/bson-json.c:2017-2106 | reading what the canonical printer printed of a readable document succeeds and appends exactly that document |
| JsonReadBack.ReadPrintedArray | src/bson/bson-json.c:2017-2106 | the same for a document printed as an array |
| JsonReadBack.ReadInteger | src/bson/bson-json.c:611-724 | an integer written plainly under any key is read with its sign, as 32 bits if it fits and as 64 if not; refused exactly beyond 64 bits |
| JsonReadBack.ReadWritten | src/bson/bson-json.c:2017-2106 | a document written in any mixture of the forms, at any depth below the limit, is read as the values they stand for |
| JsonReadBack.ReadRelaxed | src/bson/bson-json.c:2017-2106 | what the relaxed printer prints of a readable document is read back, 64-bit integers that fit 32 bits narrowed |
| JsonReadBack.ReadText | src/bson/bson-json.c:2017-2106 | a whole text below the depth limit is accepted exactly when nothing fails; an accepted text is whole exactly when nothing was misplaced or misread outside its arrays |
| JsonPrint.ScalarForm | src/common/common-json.c:586-640 | the canonical form of scalars and wrapped scalars, token by token with the names spelled out |
| JsonPrint.MapForm | src/common/common-json.c:642-704 | the same of binaries, dates, timestamps and regular expressions |
| JsonPrint.NestedForm | src/common/common-json.c:707-751 | the same of containers, database pointers and code with scope |
| JsonScalars.ReadBinary | src/common/common-json.c:642-657 | the printed wrapper of any binary is read back as that binary |
| JsonScalars.ReadDate | src/common/common-json.c:660-674 | the canonical wrapper of any date is read back as that date |
| JsonScalars.ReadTimestamp | src/common/common-json.c:677-681 | the printed wrapper of any timestamp is read back |
| JsonScalars.ReadRegex | src/common/common-json.c:684-704 | the printed wrapper of any regular expression is read back |
| JsonScalars.ReadDecimal | src/common/common-json.c:625-632 | the printed wrapper of any decimal whose text is parsed back is read back |
| JsonDecimal.DecimalReadableIff | src/common/common-json.c:625-632 | with the library's own conversions a decimal survives the JSON round trip exactly when its bits survive printing and parsing |
| JsonRoundTrip.ReadDbPointer | src/common/common-json.c:707-727 | the printed wrapper of any database pointer is read back |
| JsonRoundTrip.ReadCodeWithScope | src/common/common-json.c:737-751 | the printed wrapper of any code with scope is read back, scope included |
| JsonRoundTrip.ReadDocument | src/common/common-json.c:315-326 | a nested document that does not start with a reserved key is read back |
| JsonRoundTrip.ReadArray | src/common/common-json.c:329-340 | a nested array is read back with its indices as keys |
| JsonRoundTrip.ReadValue | src/common/common-json.c:343-367 | every printable value below the depth limit adds exactly itself to the document being read |
| JsonRoundTrip.RoundTrip | src/common/common-json.c:343-411 | feeding the canonical printer's events of a readable document to the reader ends in DONE with exactly that document |
| JsonRoundTrip.RoundTripArray | src/common/common-json.c:405-411 | the same for a document printed as an array |
| JsonForms.PlainIntegerText | src/bson/bson-json.c:611-724 | the same of the machine on whole texts |
| JsonForms.ReadPlainInteger | src/bson/bson-json.c:611-724 | a plain integer anywhere in a text adds its signed value in the smaller type, or fails exactly beyond 64 bits |
| JsonForms.ReadPlainDouble | src/bson/bson-json.c:770-780 | a plain double adds that double |
| JsonForms.ReadDateText | src/bson/bson-json.c:1060-1069 | a date written as a text adds the instant its text stands for |
| JsonForms.ReadDateNumber | src/bson/bson-json.c:648-651 | a date written as a plain number adds that many milliseconds, sign included |
| JsonForms.ReadLegacyRegex | src/bson/bson-json.c:994-1006 | $regex and $options in either order add the expression, its options sorted |
| JsonForms.ReadRegexAlone | src/bson/bson-json.c:1433-1457 | $regex alone takes the options left in the buffer, which are none exactly when no known letter is there |
| JsonForms.OptionsLinger | src/bson/bson-json.c:1433-1457 | of two regular expressions in a document, the second written alone is read with the options of the first |
| JsonForms.ReadLegacyBinary | src/bson/bson-json.c:833-926 | $binary and $type in either order add the bytes under the subtype |
| JsonForms.ReadUuid | src/bson/bson-json.c:875-926 | a $uuid adds its bytes under subtype 4 |
| JsonForms.ReadScopedCode | src/bson/bson-json.c:1461-1495 | code whose scope is written in any forms is read with that scope |
| JsonForms.ReadForm | src/bson/bson-json.c:957-1105 | every form adds the value it stands for, containers included |
| JsonForms.ReadForms | src/bson/bson-json.c:2017-2106 | a whole document in any forms ends done with exactly the values they stand for |
| JsonRelaxed.RelaxedRoundTrip | src/common/common-json.c:586-674 | the relaxed printer's events of a readable document end done with it, narrow 64-bit integers as 32-bit ones |
| JsonRelaxed.NarrowedIff | src/common/common-json-private.h:146-160 | the same document comes back exactly when it has no 64-bit integer that fits 32 bits |
| JsonRelaxed.DateIsRead | src/common/common-json.c:660-674 | the relaxed date text of every instant from 1970 up to the year 10000 is read back |
| JsonRefusals.ReadInt32Text | src/bson/bson-json.c:1022-1037 | a $numberInt adds what its text says, or fails exactly when that is no 32-bit integer |
| JsonRefusals.ReadInt64Text | src/bson/bson-json.c:1039-1053 | a $numberLong adds what its text says, or fails exactly when that is no 64-bit integer |
| JsonRefusals.ReadOidText | src/bson/bson-json.c:1006-1015 | a text is taken for an object id exactly when it has 24 bytes |
| JsonRefusals.HexIff | src/bson/bson-oid.h:211-220 | the id read has that text in small letters exactly when it is hexadecimal |
| JsonRefusals.BinaryNeedsSubtype | src/bson/bson-json.c:1398-1427 | a binary without its subtype is refused |
| JsonRefusals.BinaryNeedsData | src/bson/bson-json.c:1398-1427 | a binary without its data is refused |
| JsonRefusals.TimestampNeedsBoth | src/bson/bson-json.c:1572-1582 | a timestamp without one of its parts is refused |
| JsonRefusals.RegexNeedsBoth | src/bson/bson-json.c:1433-1457 | a regular expression without one of its parts is refused |
| JsonRefusals.ReadEmptyDate | src/bson/bson-json.c:1723-1733 | a date with an empty map is read as 1970 |
| JsonRefusals.ReadBinarySwapped | src/bson/bson-json.c:1383-1390 | the parts of a binary are read in the other order too |
| JsonRefusals.ReadTimestampSwapped | src/bson/bson-json.c:1368-1375 | so are those of a timestamp |
| JsonRefusals.ReadRegexSwapped | src/bson/bson-json.c:1376-1382 | so are those of a regular expression, unknown options dropped and the rest sorted |
| JsonRefusals.ReadCodeInScope | src/bson/bson-json.c:1227-1255 | inside a scope what is written as code is read as a document |
| JsonLag.FollowText | src/bson/bson-json.c:957-1105 | a string leaves the containers as they are, except the binary subtype that is misread, which costs one level |
| JsonLag.FollowStartMap | src/bson/bson-json.c:1109-1179 | the start of a map opens a map for the reader too, unless it is misplaced |
| JsonLag.FollowKey | src/bson/bson-json.c:1219-1394 | a key opens no container and closes none, whichever pending map or wrapper it decides |
| JsonLag.FollowEndMap | src/bson/bson-json.c:1398-1763 | the end of a map closes exactly one map, with whatever was collected in it, or is passed over in an array |
| JsonLag.FollowStartArray | src/bson/bson-json.c:1767-1787 | the start of an array opens one for the reader |
| JsonLag.FollowEndArray | src/bson/bson-json.c:1791-1804 | the end of an array closes the reader's innermost array |
| JsonLag.StepTrails | src/bson/bson-json.c:267-353 | after every event the reader has the containers of the text but for some maps, and how many is accounted for exactly |
| JsonLag.StepInStep | src/bson/bson-json.c:1599-1804 | a state in step with the text stays so if and only if no map is misplaced and no subtype misread |
| JsonLag.AlwaysInStep | src/bson/bson-json.c:267-353 | over every run the two are in step throughout if and only if neither happens along it |
| JsonLag.RunTrails | src/bson/bson-json.c:267-353 | over every run the lag below the outermost array never shrinks, and grows exactly when one happens outside arrays |
| JsonLag.DoneOnTimeIff | src/bson/bson-json.c:1599-1763 | a run that ended, for the reader or in the text, was done exactly at the end of the root all along if and only if neither happened outside arrays |
| JsonLag.WholeTextOnTime | src/bson/bson-json.c:1599-1804 | a whole text that does not fail ends done, and is done at no time before |
| JsonLag.AcceptedTexts | src/bson/bson-json.c:2017-2106 | whole texts below the depth limit are accepted exactly when nothing fails; of the accepted, exactly those that disturb the reader outside arrays break off |
| JsonLag.NeverUnreachable | src/bson/bson-json.c:1132-1168 | on no text does a map start where the source calls it unreachable |
| JsonLag.StackIndexCounts | src/bson/bson-json.c:267-353 | the stack index counts the open containers that are not type wrappers, less those lost |
| JsonEarlyEnd.DoneTooEarly | src/bson/bson-json.c:1109-1179 | a concrete balanced text on which the reader is done, without failure, while the root is open |
| JsonCode.CodeStaysOutside | src/bson/bson-json.c:1461-1495 | whatever the events, a code value never ends inside a scope, so the assertion of the code reader holds |
| JsonEscape.TableHolds | src/common/common-json.c:435-444 | the 256-bit table holds exactly the control bytes, quote, backslash and C0 |
| JsonEscape.CountNonSpecial | src/common/common-json.c:450-464 | the run counted holds no special byte and ends at one or at the end |
| JsonEscape.EscapeTable | src/common/common-json.c:467-549 | the escape of each byte, in characters |
| JsonEscape.EscapeRun | src/common/common-json.c:467-549 | copying a run, also one that a lone C0 begins, is escaping it byte by byte |
| JsonEscape.AppendSpecial | src/common/common-json.c:477-543 | each special byte gets its escape, and the default case only ever sees control bytes |
| JsonEscape.AppendEscaped | src/common/common-json.c:467-549 | the run-skipping escaper appends the byte-by-byte escape, and fails exactly on a NUL of either length that is not allowed |
| JsonEscape.EscapeIff | src/common/common-json.c:514-529 | escaping is defined exactly without forbidden NULs |
| JsonEscape.EscapedIsClean | src/common/common-json.c:467-549 | the output has no control byte and no quote without a backslash before it |
| JsonEscape.UnescapeEscape | src/common/common-json.c:467-549 | decoding the output by the standard gives the input back, C0 80 read as NUL |
| JsonEscape.EscapeAndDecode | src/common/common-json.c:467-549 | the escaper's output, for every byte string, decodes to that string |
| Calendar.MonthFormula | src/bson/bson-timegm.c:167-168 | the days before each month are a closed formula |
| Calendar.DayNumberMonotone | src/bson/bson-timegm.c:394-404 | later dates have greater day numbers |
| Calendar.YearStep | src/bson/bson-timegm.c:444-455 | moving a date back by a year and its length in days keeps the day number |
| Timegm.LeapsClosedForm | src/bson/bson-timegm.c:206-209 | the recursive leap count equals the closed form with rounding down, for negative years too |
| Timegm.LeapsRecurrence | src/bson/bson-timegm.c:206-209 | the count rises by one exactly in leap years, before year zero as well |
| Timegm.DaysBetweenYears | src/bson/bson-timegm.c:259-261 | the days between two New Years, as the year loop computes them |
| Timegm.TmcompOrders | src/bson/bson-timegm.c:394-404 | the comparison of dates has the sign of the comparison of the instants |
| Timegm.CivilUnique | src/bson/bson-timegm.c:212-326 | an instant has at most one civil date |
| Timegm.CivilRepresentable | src/bson/bson-timegm.c:212-326 | an instant with a civil date that fits is representable |
| Timegm.RepresentableBounds | src/bson/bson-timegm.c:243-296 | the representable instants lie well inside 64 bits |
| Timegm.IncrementOverflow | src/bson/bson-timegm.c:346-360 | overflow is reported exactly when the sum leaves the int range on the side tested |
| Timegm.NormalizeOverflow | src/bson/bson-timegm.c:374-381 | units come into range and the total is kept, or overflow is reported |
| Timegm.JumpLength | src/bson/bson-timegm.c:252-255 | the jump of the year search is never zero and never passes the year sought |
| Timegm.FindYear | src/bson/bson-timegm.c:243-263 | the year search conserves days, terminates, and ends in the day's year or fails beyond the int range |
| Timegm.CorrectSeconds | src/bson/bson-timegm.c:264-283 | the seconds come into the day, the instant kept |
| Timegm.CorrectYear | src/bson/bson-timegm.c:284-293 | the day comes into its year, the day number kept |
| Timegm.Weekday | src/bson/bson-timegm.c:298-305 | the weekday formula is the day number modulo seven from a Thursday |
| Timegm.DayNumberClosed | src/bson/bson-timegm.c:167-209 | the day number of every date is a closed formula of year, month and day |
| Timegm.TotalClosed | src/bson/bson-timegm.c:407-573 | so is the instant of every civil date |
| Timegm.CivilMeans | src/bson/bson-timegm.c:212-326 | the civil date of an instant has its closed formula, its fields in range and its weekday counted from Thursday 1970-01-01 |
| Timegm.MonthAndDay | src/bson/bson-timegm.c:314-320 | month and day are those whose closed formula is the day of the year |
| Timegm.Timesub | src/bson/bson-timegm.c:212-326 | for every int64 instant a civil date whose closed formula is that instant, with day of year and weekday, or NULL exactly when the year or the year less 1900 leaves int |
| Timegm.NormalizeDay | src/bson/bson-timegm.c:435-468 | overlong days roll over months and years, the day number kept; failure only for days far beyond every int year |
| Timegm.Normalize | src/bson/bson-timegm.c:425-490 | all fields come into range and the instant is kept; failure exactly when a carry is refused, or the day is far off |
| Timegm.SearchInstant | src/bson/bson-timegm.c:491-533 | the binary search over all int64 instants keeps the answer between its bounds, shrinks each step, and finds it exactly when it exists |
| Timegm.Time2sub | src/bson/bson-timegm.c:407-573 | for all 64-bit fields: success exactly when no carry is refused and there is a civil date with and without the seconds set aside; then the instant and its civil date |
| Timegm.TimegmInternal | src/bson/bson-timegm.c:663-668 | for all 64-bit fields: the instant is the closed formula of the date and the time of day; success exactly when one of the two attempts converts, and for moderate times of day exactly when the instant has a civil date |
| Iso8601.ReadDateIff | src/bson/bson-iso8601.c:96-282 | a text is read as a date if and only if it is the text of that date with every field in range |
| Iso8601.AcceptedIff | src/bson/bson-iso8601.c:170-266 | which dates these are, field by field in numbers |
| Iso8601Parse.GetTok | src/bson/bson-iso8601.c:28-55 | the cursor stops behind the first terminal, or at the end |
| Iso8601Parse.ParseNum | src/bson/bson-iso8601.c:72-93 | a number is accepted exactly with the right number of digits and in range, and has the value of its digits |
| Iso8601Parse.ParseZone | src/bson/bson-iso8601.c:211-242 | Z and the two offset forms are accepted, as the seconds they add, always less than a day |
| Iso8601Parse.ParseFraction | src/bson/bson-iso8601.c:244-266 | one to three digits are read as thousandths |
| Iso8601Parse.DateParse | src/bson/bson-iso8601.c:96-282 | the parser accepts exactly the readable texts and returns the milliseconds of the date |
| Iso8601Parse.DateParseIff | src/bson/bson-iso8601.c:96-282 | texts of in-range dates give their instant; nothing else is accepted |
| Iso8601Parse.MillisClosed | src/bson/bson-iso8601.c:268-279 | the milliseconds of a date are the closed formula of its civil date, less the offset |
| Iso8601Parse.DayLiteral | src/bson/bson-iso8601.c:137-182 | the letters of year, month and day |
| Iso8601Parse.ClockLiteral | src/bson/bson-iso8601.c:145-266 | the letters of hour, minute, second and thousandths |
| Iso8601Parse.ZoneLiteral | src/bson/bson-iso8601.c:211-242 | the letters of the offset |
| Iso8601Parse.ZoneShifts | src/bson/bson-iso8601.c:211-279 | replacing Z by an accepted offset shifts the result by exactly that offset |
| Iso8601Parse.Print | src/common/common-json.c:552-583 | the printed text is the text of an in-range date at exactly that instant |
| Iso8601Parse.PrintAndParse | src/common/common-json.c:552-583 | every millisecond count from 0 up to the year 10000 is parsed back from its printed text |
| Decimal128.PackFields | src/bson/bson-decimal128.c:750-768 | the packed bits have exactly the sign, exponent and coefficient packed |
| Decimal128.PackUnpacked | src/bson/bson-decimal128.c:159-203 | a canonical value is the packing of its fields |
| Decimal128Ieee.FieldsIff | src/bson/bson-decimal128.c:750-768 | the bits of a canonical value written out: sign, exponent biased by 6176, coefficient below 10^34 |
| Decimal128Ieee.ShortForm | src/bson/bson-decimal128.c:159-203 | exponent and coefficient of all finite bit patterns of the shorter form |
| Decimal128Ieee.LongFormIs | src/bson/bson-decimal128.c:172-208 | the longer form: the exponent two bits further down, the coefficient zero |
| Decimal128Ieee.SpecialsIff | src/bson/bson-decimal128.c:172-189 | which bits are infinities and NaNs |
| Decimal128Ieee.SpecialText | src/bson/bson-decimal128.c:172-189 | they are written "Infinity", "-Infinity" and "NaN" |
| Decimal128Ieee.NumberText | src/bson/bson-decimal128.c:249-313 | the letters of every canonical number: plain or scientific, where the point stands, the sign of the exponent |
| Decimal128.LongExponent | src/bson/bson-decimal128.c:172-189 | in the longer form of the combination field the exponent still has its two leading bits |
| Decimal128.TextFits | src/bson/bson-decimal128.c:131-314 | for all 2^128 patterns the text and its NUL fit in 43 bytes |
| Decimal128Print.Divide1B | src/bson/bson-decimal128.c:83-107 | the long division by a billion is exact |
| Decimal128Print.SignificandDigits | src/bson/bson-decimal128.c:196-231 | the digits taken nine at a time are those of the coefficient |
| Decimal128Print.ToString | src/bson/bson-decimal128.c:131-314 | the buffer receives exactly the specified text and its NUL, without running over |
| Decimal128Parse.ReadNumeral | src/bson/bson-decimal128.c:536-576 | the reading loop keeps the first 34 significant digits and counts digits, places and leading zeros correctly |
| Decimal128Parse.CountSignificant | src/bson/bson-decimal128.c:608-621 | only trailing zeros are marked as not significant |
| Decimal128Parse.ShiftUp | src/bson/bson-decimal128.c:637-656 | too great an exponent moves into the coefficient exactly when there is room for its zeros |
| Decimal128Parse.ShiftDown | src/bson/bson-decimal128.c:658-695 | digits are dropped exactly when zeros are found in their place and one digit is left, the exponent raised by one for each |
| Decimal128Parse.Multiply64 | src/bson/bson-decimal128.c:337-368 | the product of two 64-bit words is exact, no carry lost |
| Decimal128Parse.EncodeSignificand | src/bson/bson-decimal128.c:711-740 | the two 17-digit halves together are the coefficient |
| Decimal128Parse.PackBits | src/bson/bson-decimal128.c:742-768 | joining the halves carries into the high word, and the bits are the packing |
| Decimal128Parse.Normalize | src/bson/bson-decimal128.c:604-709 | an accepted coefficient and exponent are the digits kept and their exponent; exactly which numbers are accepted |
| Decimal128Parse.AcceptsShort | src/bson/bson-decimal128.c:658-709 | of at most 34 digits those in the exponent range are accepted, above it those with room for the zeros, below it those that can be shortened |
| Decimal128Parse.AcceptsFitting | src/bson/bson-decimal128.c:658-709 | a number of any length that fits is accepted exactly when it is above the range, or no point is in the way and the digits found for those past the 34th are zeros |
| Decimal128Parse.AcceptedFits | src/bson/bson-decimal128.c:604-709 | an accepted number of at most 34 significant digits fits |
| Decimal128Parse.FromString | src/bson/bson-decimal128.c:481-771 | malformed texts, infinities, NaN and numbers are told apart and converted as specified |
| Decimal128Grammar.NumberIff | src/bson/bson-decimal128.c:481-602 | a text is a number exactly when it is a spelling: sign, digits, point, digits, e, space, sign, digits, at least one digit; it is read as spelled |
| Decimal128Grammar.NamesIff | src/bson/bson-decimal128.c:512-530 | infinities and NaN are exactly "inf", "infinity" and "nan" in letters of either case behind an optional sign |
| Decimal128RoundTrip.WrittenParses | src/bson/bson-decimal128.c:512-602 | a numeral as the printer writes it is read as the number it was written from |
| Decimal128RoundTrip.FormIsNumber | src/bson/bson-decimal128.c:249-313 | scientific and plain notation both keep value and exponent |
| Decimal128RoundTrip.RoundTrip | src/bson/bson-decimal128.c:131-771 | parsing the printed text gives the same 128 bits if and only if they are canonical, an infinity of the parser's, or its NaN |
| Decimal128RoundTrip.PrintAndParse | src/bson/bson-decimal128.c:131-771 | the same of the two C functions, one after the other |
| Decimal128RoundTrip.AcceptedIsExact | src/bson/bson-decimal128.c:604-770 | an accepted number is exact if and only if it is zero, or has at most 34 significant digits and its exponent was not lost |
| Decimal128RoundTrip.StorableIff | src/bson/bson-decimal128.c:711-768 | a number can be stored at all exactly when at most 34 digits are significant and zeros put on or taken off bring its exponent into range |
| Decimal128RoundTrip.ConvertsIff | src/bson/bson-decimal128.c:481-771 | a text is converted to the number it says if and only if that is zero, or storable, its exponent not lost, and neither the point nor zeros in front mislead the checks |
| Decimal128Parse.SeenAt | src/bson/bson-decimal128.c:671-702 | the character inspected for a digit before the point is the next one, which may be the point |
| Decimal128RoundTrip.PointTrips | src/bson/bson-decimal128.c:697-709 | 110.E-6177 is rejected although it equals 11E-6176, which is accepted |
| Decimal128RoundTrip.FarPointTrips | src/bson/bson-decimal128.c:671-678 | 1 and 39 zeros are accepted and exact, but rejected with a point behind |
| Decimal128RoundTrip.ZeroInFrontTrips | src/bson/bson-decimal128.c:671-678 | 34 ones and a zero are accepted and exact, but rejected with a zero in front |
| Decimal128RoundTrip.DigitIsLost | src/bson/bson-decimal128.c:671-709 | a text of 37 digits with a zero in front is accepted without its last digit |
| Decimal128RoundTrip.ExponentIsLost | src/bson/bson-decimal128.c:629-635 | 1E-20000 is accepted as 1E-6176 |
| Base64.DecodeEncode | src/common/common-b64.c:121-188 | decoding undoes encoding for every byte string |
| Base64Text.AlphabetLetter | src/common/common-b64.c:55 | the letter of each six bits is that of the 64-character table |
| Base64Text.EncodedText | src/common/common-b64.c:121-188 | every character of an encoded text: six bits through the table, or the padding |
| Base64Text.EncodeDecode | src/common/common-b64.c:292-404 | a text that decodes is the encoding of what it decodes to |
| Base64Text.DecodeIff | src/common/common-b64.c:292-404 | a text decodes to given bytes exactly when, without its spaces, it is their encoding |
| Base64Text.Stripped | src/common/common-b64.c:266-289 | which bytes are spaces |
| Base64.SpaceAnywhere | src/common/common-b64.c:292-404 | space put anywhere in a text does not change the result |
| Base64.EncodedLetters | src/common/common-b64.c:121-188 | encoded text has four letters per three bytes and no space or NUL |
| Base64Codec.InitializeReverseMap | src/common/common-b64.c:266-289 | the reverse map classifies all 256 bytes and inverts the alphabet |
| Base64Codec.Ntop | src/common/common-b64.c:121-188 | the encoder writes the text of the 64-character table, four characters per three bytes, and its NUL, or fails exactly when the target is too small |
| Base64Codec.NtopTargetSizeExact | src/common/common-b64.c:518-528 | the computed target size is exactly the encoded length plus one |
| Base64Codec.PtonTargetSizeEnough | src/common/common-b64.c:531-539 | the computed size for decoding always suffices |
| Base64Codec.PtonDo | src/common/common-b64.c:292-404 | decoding succeeds exactly on texts that are encodings but for space, when the target has the room needed: the decoded size, and one byte more if the last group is incomplete |
| Base64Codec.PtonLength | src/common/common-b64.c:408-497 | the measuring pass gives the decoded length exactly for well-padded texts |
| Base64Codec.Pton | src/common/common-b64.c:501-515 | measuring and decoding agree, given one spare byte, except for nonzero leftover bits |
| PackedBits.UnusedClear | src/bson/bson-vector.c:67-70 | the mask test finds exactly the bits behind the last element |
| PackedVector.PayloadIff | src/bson/bson-vector.c:53-75 | the valid payloads are exactly those of bit sequences: 0x10, the number of unused bits, eight bits a byte from weight 128 down, zeros behind |
| PackedVector.PayloadElements | src/bson/bson-vector.h:545-564 | the elements of such a payload are the bits it was made of |
| PackedVector.Uninit | src/bson/bson-vector.c:342-374 | a new payload is valid whatever its bytes were, and its length is the count asked for, up to 34359738344 |
| PackedVector.ViewInit | src/bson/bson-vector.c:155-172 | a view is made exactly of payloads with no bit set behind their last element |
| PackedVector.SameElementsSameBytes | src/bson/bson-vector.h:577-610 | a valid payload is determined by its elements, so both packing paths write the same bytes |
| PackedVector.CompleteByte | src/bson/bson-vector.h:587-592 | the byte of the fast path has the eight values as its bits |
| PackedVector.PackBool | src/bson/bson-vector.h:577-610 | packing replaces exactly the elements addressed and keeps the payload valid, or fails and changes nothing |
| PackedVector.UnpackBool | src/bson/bson-vector.h:545-564 | unpacking returns exactly the elements addressed |
| PackedVector.ReadPacked | src/bson/bson-vector.h:491-505 | whole bytes are read exactly when they are inside the payload; their bits are the elements from there on, and zeros behind the last |
| PackedVector.WritePacked | src/bson/bson-vector.h:518-541 | whole bytes replace exactly their elements and the unused bits stay zero |
| PackedVector.FromArray | src/bson/bson-vector.c:496-545 | an array is packed exactly when every key is its index and every value is a bit, into the payload written out for those bits; the first fault is reported |
| PackedVector.ToArray | src/bson/bson-vector.c:581-594 | a vector becomes the array of its bits with indices as keys |
| PackedVector.BitArrayBack | src/bson/bson-vector.c:496-594 | the array made from a vector is packed into the same bits again |

## Left out

- R interface and network client: foreign calls into R and the driver.
- The tokenizer jsonsl, string buffers and UTF-8 conversion helpers: jsonsl is not part of this model; its callbacks are
  the events the reader is fed. String appends are concatenation and never fail.
- Allocation failure, aborts by assertion on misuse, null or negative arguments, and error message texts.
- `bson_append_iter`, `bson_append_value` dispatch, `bson_copy`, the array builder and the other wrappers around the
  append layer; `bson_append_binary_uninit` inside a document (vectors are modelled on their payload alone).
- The smearing of bits in `bson_next_power_of_two`: only the power it finds.
- Conversions done by libc or by other files (doubles in both directions, date texts, base64, decimals) are parameters
  of the JSON machine. Doubles are opaque 64-bit values.
- JSON printing with a maximum length or depth and in the legacy mode (legacy wrappers are read), and documents whose
  appends exceed the maximum size while JSON is read. That a plain double's text stands for the double printed.
- Validate.BsonValidate: which of several broken rules the code names, and the offset reported with it.
- Texts that print but do not read back: nested documents starting with a reserved dollar key, strings with C0 80,
  decimals that are not canonical. `JsonPrint.Readable` is a sufficient condition: a document such
  as `{"$type": "string"}` starts with a reserved key and is read back all the same.
- Time zones, leap seconds and daylight saving in `bson-timegm.c`: their tables stay empty and the offset is zero. The
  type `int_fast32_t` is taken to have 64 bits.
- Timegm.TimegmInternal: three signed overflows of the source at the very ends of 64 bits wrap around in the model: the
  product for units within 60 of the least value, the year 2^63 - 1 plus one, and seconds set aside that carry the
  instant out of range.
- `bson_decimal128_from_string_w_len` with an explicit length, and locale-dependent `isdigit` and `isspace`.
- The memory of the stream reader's buffer does not run out, however often its size is doubled.
- Iso8601Parse.Print: `gmtime_r` is the civil date proved for `Timesub`; `strftime` prints four digits for the year.
- Vectors of int8 and float32, and the conversions between vectors and binary elements of a document.
- `bson-writer.c`, `bson-bcon.c`, atomics, hashing, object-id generation, clocks, file descriptors, byte order and
  Windows variants.
