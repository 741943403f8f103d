# IntelHex in Dafny

A verified model of the core of the `net.alenzen.intelHex` Java library,
which reads, edits and writes Intel HEX firmware images (Intel's
*Hexadecimal Object File Format Specification, Rev. A*: the general
record format, data records, extended segment address records and
extended linear address records).

The model follows the library layer by layer:

| module | models |
|---|---|
| `ByteUtils` | `ByteUtils`: big-endian packing and unpacking, the two's-complement checksum, array concatenation |
| `RecordTypes`, `HexFormats` | the six record kinds with their codes, and the I8HEX/I16HEX/I32HEX classification |
| `AddressExtensionUtils` | extension payload to absolute offset and back |
| `HexText` | the hex-digit parsing (`Integer.parseInt`, `Short.parseShort`, `Byte.parseByte` in radix 16, `String.trim`) and `%02X`/`%04X` formatting the record codec uses |
| `HexFileLines` | `HexFileLine`: parsing a `:LLAAAATT…CC` line, printing it, checksum and length validity, full start address through the linked extension record, `containsAddress`, and the per-record `readBytes`, `updateBytes` and `extendLine` |
| `IndexLayout`, `Documents`, `IndexRules`, `DocumentEdits`, `IndexState` | the address index of `HexLineIndex`: data records sorted by full start address, the flat `[start0, end0, start1, end1, …]` range list, binary search over it, gap sizing, the choice or synthesis of an extension record for a new data record, and the invariant that the index and the document stay in step while records are spliced in |
| `IntelHex` | the classes `IntelHexFile`, `HexLineIndex`, `HexFileIterator` and the iterator's entry, with their state and methods |
| `LineReader` | `BufferedReaderHexLines`: splitting physical lines at `:` and queueing the pieces |
| `FileParsing` | what the `parse` loop builds from the reader's output, and the write-then-read round trip |
| `Iteration` | what `HexFileIterator` walks: the entries to come from a cursor, in address order |

Record objects are shared between the document's record list and the
index and are changed in place. The model keeps them as immutable
`HexFileLine` values in a store `map<Id, HexFileLine>` held by the
`IntelHexFile` object. An `Id` stands for the identity of a Java record
object: the record list, the index's sorted list and every extension
link hold `Id`s. Changing a record in place replaces its store entry, so
a change made through the index shows in the document and the other way
round.

Java `long` and `int` addresses are mathematical integers. The `(short)`,
`(int)` and `(byte)` casts the code relies on are written out. Java bytes
are held as their unsigned bit pattern `0..255`; `ByteUtils.Signed`
gives the signed value where the code depends on it. Java's truncating
`/` and `%` appear as `ByteUtils.JavaDiv` and `ByteUtils.JavaRem` where
the operands can be negative.

## Model

| member | source | states |
|---|---|---|
| ByteUtils.ToLong | src/main/java/net/alenzen/intelHex/ByteUtils.java:8-14 | the result is the bytes read as an unsigned big-endian number, and it is below 256^length |
| ByteUtils.BigEndianBound | src/main/java/net/alenzen/intelHex/ByteUtils.java:8-14 | an unsigned big-endian number of n bytes is below 256^n |
| ByteUtils.Checksum | src/main/java/net/alenzen/intelHex/ByteUtils.java:16-22 | the checksum added to the byte sum gives 0 modulo 256 |
| ByteUtils.IntelHexChecksum | src/main/java/net/alenzen/intelHex/ByteUtils.java:16-22 | the accumulating loop returns the byte c with (sum of bytes + c) ≡ 0 mod 256 |
| ByteUtils.IntToByteArray | src/main/java/net/alenzen/intelHex/ByteUtils.java:24-26 | an int becomes exactly 4 bytes |
| ByteUtils.ShortToByteArray | src/main/java/net/alenzen/intelHex/ByteUtils.java:28-30 | a short becomes exactly 2 bytes |
| ByteUtils.LongToByteArray | src/main/java/net/alenzen/intelHex/ByteUtils.java:48-51 | a long becomes exactly 8 bytes |
| ByteUtils.ShortRoundTrip | src/main/java/net/alenzen/intelHex/ByteUtils.java:28-30 | toLong(shortToByteArray(v)) is v modulo 2^16: the bytes are most significant first |
| ByteUtils.ShortCastRoundTrip | src/main/java/net/alenzen/intelHex/ByteUtils.java:28-30 | an offset 0..0xFFFF cast to short and packed reads back as itself |
| ByteUtils.IntRoundTrip | src/main/java/net/alenzen/intelHex/ByteUtils.java:24-26 | toLong(intToByteArray(v)) is v modulo 2^32 |
| ByteUtils.LongRoundTrip | src/main/java/net/alenzen/intelHex/ByteUtils.java:48-51 | toLong(longToByteArray(v)) is v modulo 2^64 |
| ByteUtils.FlattenLength | src/main/java/net/alenzen/intelHex/ByteUtils.java:32-46 | the concatenation is as long as the input arrays together |
| ByteUtils.FlattenIndex | src/main/java/net/alenzen/intelHex/ByteUtils.java:32-46 | byte j of part i sits in the concatenation right after all earlier parts |
| ByteUtils.ConcatByteArrays | src/main/java/net/alenzen/intelHex/ByteUtils.java:32-46 | the nested copy loops fill a fresh array with the parts laid end to end, in order, and of the summed length |
| ByteUtils.ByteUtilsExamples | src/main/java/net/alenzen/intelHex/ByteUtils.java:8-22 | {6F,47,A9,0F} reads as 0x6F47A90F; [03,00,30,00,02,33,7A] has checksum 0x1E and [01] has 0xFF |
| RecordTypes.RecordType.Ordinal | src/main/java/net/alenzen/intelHex/RecordType.java:21-23 | every kind's code lies in 0..5 |
| RecordTypes.FromValue | src/main/java/net/alenzen/intelHex/RecordType.java:25-42 | a code is accepted iff it is in 0..5, and then yields the kind with that code; any other code fails with EnumConstantNotPresent carrying the code |
| RecordTypes.OrdinalRoundTrip | src/main/java/net/alenzen/intelHex/RecordType.java:25-42 | fromValue(getOrdinal(t)) == t for every kind |
| RecordTypes.OrdinalInjective | src/main/java/net/alenzen/intelHex/RecordType.java:4-9 | the six codes are pairwise distinct |
| HexFormats.HexFormat.AddressExtension | src/main/java/net/alenzen/intelHex/HexFormat.java:16-18 | I8HEX has no extension kind; I16HEX and I32HEX have an address-extension kind |
| HexFormats.HexFormat.StartRecord | src/main/java/net/alenzen/intelHex/HexFormat.java:24-26 | I8HEX has no start kind; the others have a start kind that is neither data, end of file nor an extension |
| HexFormats.DetermineFormat | src/main/java/net/alenzen/intelHex/HexFormat.java:32-42 | linear kinds give I32HEX, segment kinds give I16HEX, data and end of file give I8HEX, each as an if-and-only-if |
| HexFormats.DetermineFormatOfOwnRecords | src/main/java/net/alenzen/intelHex/HexFormat.java:4-6 | for I16HEX and I32HEX, the format of the format's own extension and start kinds is that format |
| AddressExtensionUtils.ExtensionOffset | src/main/java/net/alenzen/intelHex/AddressExtensionUtils.java:6-16 | fails iff the kind is not an extension kind; a linear offset is the big-endian payload value times 65536 and a segment offset that value times 16, so each is a non-negative multiple of 65536 or 16; a segment offset a non-negative multiple of 16; for a 2-byte payload, as the standard prescribes, a linear offset is at most 0xFFFF0000 and a segment offset at most 0xFFFF0 |
| AddressExtensionUtils.ExtensionOffsetFromFullAddress | src/main/java/net/alenzen/intelHex/AddressExtensionUtils.java:18-31 | fails iff the kind is not an extension kind; otherwise a 16-bit payload value whose offset lies at most 0xFFFF below the address (linear), or at most 15 below it for addresses up to 0xFFFFF (segment) |
| AddressExtensionUtils.FullAddress | src/main/java/net/alenzen/intelHex/AddressExtensionUtils.java:33-35 | fails iff the kind is not an extension kind; otherwise the extension's offset plus the relative address |
| AddressExtensionUtils.NewExtensionCoversAddress | src/main/java/net/alenzen/intelHex/AddressExtensionUtils.java:18-31 | an extension made from an address within reach, packed into 2 bytes, reaches that address with a local part in 0..0xFFFF |
| HexText.HexCharValue | src/main/java/net/alenzen/intelHex/HexFileLine.java:203-205 | every upper-case hex digit reads back as its value |
| HexText.DigitsRoundTrip | src/main/java/net/alenzen/intelHex/HexFileLine.java:215-217 | a fixed-width digit string of a value that fits reads back as that value |
| HexText.ParseInt | src/main/java/net/alenzen/intelHex/HexFileLine.java:203-205 | succeeds iff the text is an optional '+' or '-' followed by one or more hexadecimal digits of either case, and then gives the digits' value with that sign |
| HexText.DigitsValueDefined | src/main/java/net/alenzen/intelHex/HexFileLine.java:203-205 | a digit string has a value iff every character is a hexadecimal digit |
| HexText.ParseIntBound | src/main/java/net/alenzen/intelHex/HexFileLine.java:203-205 | n digits read as a value of magnitude below 16^n, non-negative without a minus sign |
| HexText.ParseUnsignedInt | src/main/java/net/alenzen/intelHex/HexFileLine.java:215-217 | four characters read as a value in 0..0xFFFF |
| HexText.ParseShortHex | src/main/java/net/alenzen/intelHex/HexFileLine.java:219-221 | two characters read as a short in -0xFF..0xFF |
| HexText.ParseByte | src/main/java/net/alenzen/intelHex/HexFileLine.java:207-213 | a pair is accepted only if its value is a signed byte, -128..127, and yields that value's bit pattern |
| HexText.ParseHexPerByte | src/main/java/net/alenzen/intelHex/HexFileLine.java:207-213 | the data field yields |s|/2 bytes: an odd trailing digit is ignored |
| HexText.HexBytesRoundTrip | src/main/java/net/alenzen/intelHex/HexFileLine.java:207-213 | printed data bytes below 0x80 parse back to the same bytes |
| HexText.HexBytesHighByteRejected | src/main/java/net/alenzen/intelHex/HexFileLine.java:207-213 | printed data holding a byte 0x80..0xFF does not parse |
| HexText.ParseHexByte | src/main/java/net/alenzen/intelHex/HexFileLine.java:203-205 | fails iff Integer.parseInt fails; otherwise the (byte) cast keeps the value modulo 256 |
| HexText.ParseHexByteOfHex | src/main/java/net/alenzen/intelHex/HexFileLine.java:203-205 | a byte printed with %02X parses back through the type and checksum fields |
| HexText.ParseShortHexOfHex | src/main/java/net/alenzen/intelHex/HexFileLine.java:219-221 | a length below 256 printed with %02X parses back |
| HexText.HexFourDigits | src/main/java/net/alenzen/intelHex/HexFileLine.java:215-217 | an address up to 0xFFFF printed with %04X parses back |
| HexText.Hex | src/main/java/net/alenzen/intelHex/HexFileLine.java:146-158 | %0wX output is at least w characters, exactly w when the value fits |
| HexText.Trim | src/main/java/net/alenzen/intelHex/HexFileLine.java:115 | the result is a slice of the input with only characters at or below space cut from either end, and it neither starts nor ends with such a character |
| HexText.TrimUnchanged | src/main/java/net/alenzen/intelHex/HexFileLine.java:115 | trimming a string with no such character at either end changes nothing |
| HexFileLines.CalculateChecksum | src/main/java/net/alenzen/intelHex/HexFileLine.java:177-185 | the checksum brings the sum of the concatenated length, address, type and data bytes to 0 modulo 256 |
| HexFileLines.IsChecksumValid | src/main/java/net/alenzen/intelHex/HexFileLine.java:160-162 | true iff the stored checksum completes that byte sum to 0 modulo 256 |
| HexFileLines.IsLengthValid | src/main/java/net/alenzen/intelHex/HexFileLine.java:164-166 | true iff the length field is what updateLength would set and the data has fewer than 256 bytes |
| HexFileLines.IsMetadataValid | src/main/java/net/alenzen/intelHex/HexFileLine.java:173-175 | true iff updateMetadata would change nothing and the data has fewer than 256 bytes |
| HexFileLines.ChecksumRule | src/main/java/net/alenzen/intelHex/HexFileLine.java:177-185 | for a length below 256 and a 16-bit address, the checksum satisfies the standard rule: checksum + length + address high + address low + type + data ≡ 0 mod 256 |
| HexFileLines.UpdateMetadata | src/main/java/net/alenzen/intelHex/HexFileLine.java:198-201 | only length and checksum change; afterwards the checksum is valid, and the length is valid iff the data has fewer than 256 bytes |
| HexFileLines.NewLine | src/main/java/net/alenzen/intelHex/HexFileLine.java:30-38 | a synthesised record has line number -1, the given fields, length = data length, a valid checksum, and valid metadata iff the data has fewer than 256 bytes |
| HexFileLines.Normalize | src/main/java/net/alenzen/intelHex/HexFileLine.java:115-120 | the trimmed line always starts with ':' |
| HexFileLines.Parse | src/main/java/net/alenzen/intelHex/HexFileLine.java:113-143 | a line is TooShort iff it is under 11 characters after trimming and adding ':'; a parsed record keeps the line number and the latest extension link, has a 16-bit address, a length in -0xFF..0xFF and (length − 11)/2 data bytes; each field of a parsed record is read from its own columns (length 1..3, address 3..7, type 7..9, data up to the last two characters, checksum from those) |
| HexFileLines.ParseErrors | src/main/java/net/alenzen/intelHex/HexFileLine.java:127-143 | a long enough line is dropped as InvalidHexSymbols iff one of its fields is not hexadecimal; with every field hexadecimal it is dropped as UnknownRecordType(code) iff the signed type code is outside 0..5 |
| HexFileLines.ExampleInvalidHex | src/main/java/net/alenzen/intelHex/HexFileLine.java:127-139 | ":0G00000000" is dropped for an invalid hex symbol |
| HexFileLines.ExampleUnknownType | src/main/java/net/alenzen/intelHex/HexFileLine.java:127-143 | ":00000006FA" is dropped for the unknown type code 6 |
| HexFileLines.ToString | src/main/java/net/alenzen/intelHex/HexFileLine.java:146-158 | the text starts with ':' |
| HexFileLines.ToStringLayout | src/main/java/net/alenzen/intelHex/HexFileLine.java:146-158 | the text is ':' then %02X length, %04X address, %02X type code, %02X per data byte and %02X checksum, at fixed positions |
| HexFileLines.ToStringOneColon | src/main/java/net/alenzen/intelHex/HexFileLine.java:146-158 | the printed record holds exactly one ':', at its head, followed by something |
| HexFileLines.ParseToString | src/main/java/net/alenzen/intelHex/HexFileLine.java:113-158 | a printable record (length below 256, 16-bit address, data bytes below 0x80) parses back to itself with the given line number and link |
| HexFileLines.ParseToStringDropsHighBytes | src/main/java/net/alenzen/intelHex/HexFileLine.java:207-213 | a printed record holding a data byte 0x80..0xFF does not parse back: the line is dropped as InvalidHexSymbols |
| HexFileLines.NormalizeToString | src/main/java/net/alenzen/intelHex/HexFileLine.java:115-120 | trimming and the ':' rule leave a printed record unchanged |
| HexFileLines.FullStartAddress | src/main/java/net/alenzen/intelHex/HexFileLine.java:40-46 | without a linked extension the start is the record's own address; it fails only when the link is not an extension kind |
| HexFileLines.ExtendedAddressOffset | src/main/java/net/alenzen/intelHex/HexFileLine.java:48-59 | an extension record's offset is its own payload's offset; every offset is non-negative |
| HexFileLines.FullStartIsOffsetPlusAddress | src/main/java/net/alenzen/intelHex/HexFileLine.java:40-59 | for a non-extension record the full start address is its extended offset plus its address |
| HexFileLines.ContainsAddress | src/main/java/net/alenzen/intelHex/HexFileLine.java:231-234 | an empty record contains no address; a record contains its first and last byte's address but not the one after; from a contained address at least one byte is left |
| HexFileLines.ReadBytes | src/main/java/net/alenzen/intelHex/HexFileLine.java:250-259 | copies n = min(max, bytes left in the record from the start address) bytes into the caller's array at the offset, returns n and leaves every other array cell as it was |
| HexFileLines.UpdateBytes | src/main/java/net/alenzen/intelHex/HexFileLine.java:261-270 | writes n = min(bytes left in bs, bytes left in the record) bytes of bs into the data at the start address, returns n and changes nothing else (length and checksum are kept) |
| HexFileLines.ExtendLine | src/main/java/net/alenzen/intelHex/HexFileLine.java:272-285 | the data becomes the old data followed by bs[offset..offset+size); nothing else changes |
| HexFileLines.ExampleToString | src/main/java/net/alenzen/intelHex/HexFileLine.java:146-158 | the record (3, 0x0030, data, [02,33,7A], 0x1E) prints as ":0300300002337A1E" |
| HexFileLines.ExampleParse | src/main/java/net/alenzen/intelHex/HexFileLine.java:113-143 | ":0300300002337A1E" parses to that record |
| HexFileLines.ExampleMetadata | src/main/java/net/alenzen/intelHex/HexFileLine.java:160-175 | that record's length and checksum are valid |
| IndexLayout.Bounds | src/main/java/net/alenzen/intelHex/HexLineIndex.java:31-40 | the range list has two entries per record |
| IndexLayout.BoundsSorted | src/main/java/net/alenzen/intelHex/HexLineIndex.java:31-40 | the range list of ordered, non-overlapping non-empty records is strictly ascending |
| IndexLayout.BinarySearch | src/main/java/net/alenzen/intelHex/HexLineIndex.java:51-64 | Collections.binarySearch over a strictly ascending list: a non-negative result is a hit; a negative result r encodes the insertion point −r−1, before which exactly the smaller entries lie |
| IndexLayout.InsertionPointMeaning | src/main/java/net/alenzen/intelHex/HexLineIndex.java:51-64 | an odd insertion point ip lies inside record ip/2; an even one lies in a gap, after record ip/2−1 and before record ip/2 |
| IndexLayout.SearchOutcome | src/main/java/net/alenzen/intelHex/HexLineIndex.java:51-64 | a hit or an odd insertion point names the record containing the key; an even one (the Java remainder is non-zero) means no record contains it |
| IndexLayout.SegmentAt | src/main/java/net/alenzen/intelHex/HexLineIndex.java:51-64 | the first record containing the address, and none iff no record contains it |
| IndexLayout.ByteAt | src/main/java/net/alenzen/intelHex/IntelHexFile.java:187-204 | an address has a byte iff some record contains it |
| IndexLayout.ByteAtDisjoint | src/main/java/net/alenzen/intelHex/IntelHexFile.java:187-204 | over non-overlapping records the byte at an address is the containing record's byte |
| IndexLayout.OrderedIsDisjoint | src/main/java/net/alenzen/intelHex/HexLineIndex.java:21-40 | ordered records do not overlap and their starts ascend |
| IndexLayout.InsertOrdered | src/main/java/net/alenzen/intelHex/HexLineIndex.java:199-215 | a non-empty record placed in the gap between its neighbours keeps the records ordered |
| IndexLayout.InsertByteAt | src/main/java/net/alenzen/intelHex/HexLineIndex.java:199-215 | after inserting a record, its addresses carry its bytes and every other address keeps its byte |
| IndexLayout.UpdateByteAt | src/main/java/net/alenzen/intelHex/HexFileLine.java:261-270 | overwriting a record's bytes in place keeps the order and the range list, and changes the bytes of that record only |
| Documents.StartAndOffset | src/main/java/net/alenzen/intelHex/HexFileLine.java:40-59 | in a valid document a record's start is its offset plus its address, with the offset non-negative |
| Documents.Layout | src/main/java/net/alenzen/intelHex/HexLineIndex.java:21-40 | one address segment per record, in the same order |
| Documents.RangesAreBounds | src/main/java/net/alenzen/intelHex/HexLineIndex.java:31-49 | the index entries [start, start + length − 1] are the bounds of the records' segments when lengths count the bytes |
| Documents.DataIds | src/main/java/net/alenzen/intelHex/HexLineIndex.java:21-26 | exactly the document's data records, without duplicates |
| Documents.SortByStart | src/main/java/net/alenzen/intelHex/HexLineIndex.java:21-26 | the sort is a permutation of its input |
| Documents.SortByStartSorted | src/main/java/net/alenzen/intelHex/HexLineIndex.java:21-26 | the sort's result is ordered by full start address |
| Documents.InsertByKeySorted | src/main/java/net/alenzen/intelHex/HexLineIndex.java:21-26 | inserting into a list sorted by key keeps it sorted |
| Documents.SortedDisjointIsOrdered | src/main/java/net/alenzen/intelHex/HexLineIndex.java:21-40 | non-overlapping non-empty records sorted by start are ordered segments |
| Documents.FindLine | src/main/java/net/alenzen/intelHex/IntelHexFile.java:224-226 | the first record in document order containing the address, of any kind; none iff no record contains it |
| Documents.FirstExtensionKind | src/main/java/net/alenzen/intelHex/HexLineIndex.java:233-243 | always an extension kind; extended linear when the document has no extension record |
| Documents.FirstExtensionKindIsFirst | src/main/java/net/alenzen/intelHex/HexLineIndex.java:233-243 | it is the kind of the first extension record in document order |
| Documents.IndexOf | src/main/java/net/alenzen/intelHex/HexLineIndex.java:181 | List.indexOf: the first position holding the record, −1 iff absent |
| IndexRules.DetermineGapSize | src/main/java/net/alenzen/intelHex/HexLineIndex.java:131-144 | no upper record gives Long.MAX_VALUE; otherwise the gap never reaches past the upper record's start |
| IndexRules.DetermineGapSizeAsWritten | src/main/java/net/alenzen/intelHex/HexLineIndex.java:131-144 | equals the corrected gap except with no lower record and an upper one, where it is the address larger |
| IndexRules.GapSizeIsRoom | src/main/java/net/alenzen/intelHex/HexLineIndex.java:131-144 | every address from the write address up to the gap size is free of indexed records |
| IndexRules.GapOvershootAsWritten | src/main/java/net/alenzen/intelHex/HexLineIndex.java:136-138 | with one 16-byte record at 0x10 and a write at 8, the code as written sizes the gap 16 and the new record overlaps it; the corrected size is 8 and does not |
| IndexRules.FirstLengthAsWritten | src/main/java/net/alenzen/intelHex/HexLineIndex.java:88-91 | the first count min(bs.length − offset, gap) is the same under the gap as written and the corrected one iff there is a lower record, or no upper one, or the address is 0, or the bytes left fit below the upper record |
| IndexRules.RoomAtStart | src/main/java/net/alenzen/intelHex/HexLineIndex.java:66-99 | a free address has a gap of at least one byte, and the room before the upper record is bounded by its start |
| IndexRules.GapAfterInsert | src/main/java/net/alenzen/intelHex/HexLineIndex.java:99-108 | after a new record, the next gap starts at its end, between it and the same upper record |
| IndexRules.NeighboursAfterInsert | src/main/java/net/alenzen/intelHex/HexLineIndex.java:99-108 | after insertion at p, the new record is the lower neighbour of position p+1 and the upper one is unchanged |
| IndexRules.DetermineNumberOfLines | src/main/java/net/alenzen/intelHex/HexLineIndex.java:111-117 | for a positive line size, no lines iff no bytes, and never more lines than bytes |
| IndexRules.NumberOfLinesFits | src/main/java/net/alenzen/intelHex/HexLineIndex.java:111-117 | the line count is the ceiling of length / line size |
| IndexRules.LineSlice | src/main/java/net/alenzen/intelHex/HexLineIndex.java:159-162 | the new record's bytes are bs[offset..offset+l) with l = min(maxLength, line size, bytes left), and l ≥ 1 |
| IndexRules.CreateNewAddressExtension | src/main/java/net/alenzen/intelHex/HexLineIndex.java:217-231 | a synthesised extension has the document's first extension kind, address 0, a 2-byte payload, valid metadata, and an offset at most 0xFFFF below the start |
| IndexRules.PositionAfter | src/main/java/net/alenzen/intelHex/HexLineIndex.java:181 | the position right after the anchor record, or the head without one |
| DocumentEdits.InsertAt | src/main/java/net/alenzen/intelHex/HexLineIndex.java:194 | List.add(i, x): one longer, x at i, the same members plus x |
| DocumentEdits.InsertRecordValid | src/main/java/net/alenzen/intelHex/HexLineIndex.java:193-194 | adding a fresh record object keeps the document valid and changes no existing record |
| DocumentEdits.ExtendsKeepsStarts | src/main/java/net/alenzen/intelHex/HexLineIndex.java:193-194 | adding records moves no existing record's start or offset |
| DocumentEdits.LayoutInsert | src/main/java/net/alenzen/intelHex/HexLineIndex.java:199-205 | inserting a record into the sorted list inserts its segment at the same place |
| DocumentEdits.UpdateDataRecord | src/main/java/net/alenzen/intelHex/HexFileLine.java:261-270 | changing a data record's bytes keeps the document valid and sound and keeps its data records |
| DocumentEdits.UpdateKeepsStarts | src/main/java/net/alenzen/intelHex/HexFileLine.java:261-270 | changing a record's bytes moves no record's start |
| IndexState.IndexView | src/main/java/net/alenzen/intelHex/HexLineIndex.java:21-64 | an index in step with the document has a strictly ascending range list and defines exactly the bytes the document's data records define |
| IndexState.BuiltIndexValid | src/main/java/net/alenzen/intelHex/HexLineIndex.java:21-40 | a freshly built index of a valid, sound document is in step with it |
| IndexState.AddOtherRecord | src/main/java/net/alenzen/intelHex/HexLineIndex.java:181 | adding an extension record to the document keeps the index in step |
| IndexState.InsertPending | src/main/java/net/alenzen/intelHex/HexLineIndex.java:42-49 | inserting a new data record at its gap position p and its range pair at 2p restores the index invariant |
| IndexState.PlacePending | src/main/java/net/alenzen/intelHex/HexLineIndex.java:199-215 | the binary search finds exactly the gap position p of the new record |
| IndexState.UpdateIndexed | src/main/java/net/alenzen/intelHex/HexFileLine.java:261-270 | overwriting bytes of an indexed record keeps the index in step and its segments' shape |
| IndexState.OverwriteIndexed | src/main/java/net/alenzen/intelHex/IntelHexFile.java:243-246 | an in-place overwrite keeps the index in step and patches exactly the written addresses |
| IndexState.PatchesCompose | src/main/java/net/alenzen/intelHex/IntelHexFile.java:237-247 | two consecutive patches of the update loop form one patch of the combined range |
| IndexState.FilledIsPatched | src/main/java/net/alenzen/intelHex/IntelHexFile.java:241-242 | filling a gap is a patch of the written addresses |
| IndexState.GapFillStep | src/main/java/net/alenzen/intelHex/HexLineIndex.java:88-109 | each new record extends the filled range by its length, with its bytes from bs at matching offsets |
| IndexState.AddNewExtension | src/main/java/net/alenzen/intelHex/HexLineIndex.java:217-231 | adding a synthesised extension keeps the index, the layout and the first extension kind, and reaches the start |
| IndexState.AddNewDataLine | src/main/java/net/alenzen/intelHex/HexLineIndex.java:193-194 | a new data record added to the document starts at the intended address and waits only to be indexed |
| IndexState.ChosenThenPlaced | src/main/java/net/alenzen/intelHex/HexLineIndex.java:164-197 | choosing the extension and then inserting the record yields the placement createAndInsertNewLine promises |
| IntelHex.IntelHexFile.constructor | src/main/java/net/alenzen/intelHex/IntelHexFile.java:31-34 | a file over the given records and format, with 32 bytes per line and no index yet |
| IntelHex.IntelHexFile.Create | src/main/java/net/alenzen/intelHex/IntelHexFile.java:40-42 | a fresh file with no records, the given format, 32 bytes per line, valid and sound |
| IntelHex.IntelHexFile.CreateDefault | src/main/java/net/alenzen/intelHex/IntelHexFile.java:36-38 | the same with format I32HEX |
| IntelHex.IntelHexFile.Parse | src/main/java/net/alenzen/intelHex/IntelHexFile.java:62-102 | fails iff the reader fails, with its error; otherwise a fresh valid file whose records are, in input order, every line that parses, each linked to the latest earlier extension record, with the format of the first record implying one |
| IntelHex.IntelHexFile.ReadRecords | src/main/java/net/alenzen/intelHex/IntelHexFile.java:67-99 | the read loop gathers exactly what ParseRecords describes for the reader's output |
| IntelHex.IntelHexFile.ParseLine | src/main/java/net/alenzen/intelHex/IntelHexFile.java:74-97 | one loop round keeps the gathered state equal to the parse of the lines read so far |
| IntelHex.IntelHexFile.FromParsedLines | src/main/java/net/alenzen/intelHex/IntelHexFile.java:101 | the file built from parsed records is valid |
| IntelHex.IntelHexFile.ToHexFileString | src/main/java/net/alenzen/intelHex/IntelHexFile.java:104-107 | each record's text in document order, each followed by the separator |
| IntelHex.IntelHexFile.AddRecord | src/main/java/net/alenzen/intelHex/HexLineIndex.java:169-194 | `getRecords().add(i, r)` of a new record object: it gets a new identity, goes in at position i and nothing else in the document moves |
| IntelHex.IntelHexFile.SetupIndex | src/main/java/net/alenzen/intelHex/IntelHexFile.java:206-210 | builds an index only when there is none, and keeps an existing one |
| IntelHex.IntelHexFile.RefreshIndex | src/main/java/net/alenzen/intelHex/IntelHexFile.java:215-217 | always a fresh index over the current data records |
| IntelHex.IntelHexFile.IsDefined | src/main/java/net/alenzen/intelHex/IntelHexFile.java:266-268 | true iff some record of any kind contains the address |
| IntelHex.IntelHexFile.Iterator | src/main/java/net/alenzen/intelHex/IntelHexFile.java:283-286 | a fresh iterator with its own fresh index, at the start |
| IntelHex.IntelHexFile.SetMaximumLineByteCount | src/main/java/net/alenzen/intelHex/IntelHexFile.java:274-276 | sets the line size and nothing else |
| IntelHex.IntelHexFile.ReadBytes | src/main/java/net/alenzen/intelHex/IntelHexFile.java:178-204 | a negative address or count is rejected first, changing nothing; otherwise exactly numberOfBytes bytes, each the byte of the data record containing its address or 0; the document is unchanged |
| IntelHex.IntelHexFile.ReadThroughIndex | src/main/java/net/alenzen/intelHex/IntelHexFile.java:187-203 | the read loop fills every cell with the indexed byte or 0 |
| IntelHex.IntelHexFile.ReadStep | src/main/java/net/alenzen/intelHex/IntelHexFile.java:193-200 | one round fills at least one more cell and no earlier one |
| IntelHex.IntelHexFile.CopyFromLine | src/main/java/net/alenzen/intelHex/IntelHexFile.java:200 | the bytes copied from the containing record are the bytes at those addresses |
| IntelHex.IntelHexFile.UpdateBytes | src/main/java/net/alenzen/intelHex/IntelHexFile.java:228-248 | a negative address is rejected, changing nothing; otherwise afterwards the bytes at address..address+|bs| are bs and every other address keeps its byte, and the file stays valid and sound; proved with the first gap of each gap fill sized by the corrected determineGapSize of the Findings row (see Left out) |
| IntelHex.IntelHexFile.WriteAll | src/main/java/net/alenzen/intelHex/IntelHexFile.java:237-247 | the update loop patches exactly the written range, with gap fills sized as in UpdateBytes |
| IntelHex.IntelHexFile.UpdateStep | src/main/java/net/alenzen/intelHex/IntelHexFile.java:238-246 | one round writes at least one more byte, in place or in a gap sized as in UpdateBytes |
| IntelHex.IntelHexFile.WriteInLine | src/main/java/net/alenzen/intelHex/IntelHexFile.java:244-245 | an in-place overwrite writes at least one byte into the containing record and keeps the index valid |
| IntelHex.HexLineIndex.constructor | src/main/java/net/alenzen/intelHex/HexLineIndex.java:16-19 | the sorted list is the document's data records sorted by start, the range list their flattening; valid for a valid, sound document |
| IntelHex.HexLineIndex.SetupIndex | src/main/java/net/alenzen/intelHex/HexLineIndex.java:21-26 | the sorted list is the data records sorted by start, and the ranges are rebuilt |
| IntelHex.HexLineIndex.BuildIndexRanges | src/main/java/net/alenzen/intelHex/HexLineIndex.java:31-40 | the range list is [start, start + length − 1] per sorted record |
| IntelHex.HexLineIndex.AddLineToIndexRanges | src/main/java/net/alenzen/intelHex/HexLineIndex.java:42-49 | the pair for the record goes at 2·sortedIndex, after the earlier pairs |
| IntelHex.HexLineIndex.FindLineByAddress | src/main/java/net/alenzen/intelHex/HexLineIndex.java:51-64 | a record iff some indexed record contains the address, and then one that does |
| IntelHex.HexLineIndex.GetNewIndexByLine | src/main/java/net/alenzen/intelHex/HexLineIndex.java:207-215 | fails iff the record's start lies inside an indexed record; otherwise the gap position between its neighbours |
| IntelHex.HexLineIndex.CreateLineInGap | src/main/java/net/alenzen/intelHex/HexLineIndex.java:66-109 | fails, changing nothing, iff the address lies in an indexed record; otherwise writes w ≥ 1 bytes of bs from the offset into new data records at consecutive addresses, changes no other byte and keeps the index valid; the first gap is sized by the corrected determineGapSize, which differs from line 137 only as IndexRules.FirstLengthAsWritten states |
| IntelHex.HexLineIndex.WriteIntoGap | src/main/java/net/alenzen/intelHex/HexLineIndex.java:88-108 | the filling loop writes at least one byte and fills exactly the written range; its first gap is the corrected one |
| IntelHex.HexLineIndex.FillRound | src/main/java/net/alenzen/intelHex/HexLineIndex.java:93-107 | one round writes one more record and recomputes gap and line count as the code does |
| IntelHex.HexLineIndex.WriteNextLine | src/main/java/net/alenzen/intelHex/HexLineIndex.java:95-99 | the new record goes into the sorted list at the gap and ends where the written range now ends |
| IntelHex.HexLineIndex.NextGap | src/main/java/net/alenzen/intelHex/HexLineIndex.java:100-107 | the next gap, sized by determineGapSize as written with the new record as the lower one, starts after that record and ends at the same upper record |
| IntelHex.HexLineIndex.CreateAndInsertNewLine | src/main/java/net/alenzen/intelHex/HexLineIndex.java:157-197 | the new data record holds the slice, starts at the start address, goes into the document after its predecessor and into the sorted list at its gap ("preserves the index") |
| IntelHex.HexLineIndex.InsertDataLine | src/main/java/net/alenzen/intelHex/HexLineIndex.java:193-195 | the record is added to document and index at their places; nothing else moves |
| IntelHex.HexLineIndex.ChooseExtension | src/main/java/net/alenzen/intelHex/HexLineIndex.java:164-191 | picks or synthesises an extension as the code's branches do; start = chosen offset + local address, local address in 0..0xFFFF |
| IntelHex.HexLineIndex.ChooseWithoutPredecessor | src/main/java/net/alenzen/intelHex/HexLineIndex.java:166-175 | without a predecessor: a new extension at the head iff start > 0xFFFF |
| IntelHex.HexLineIndex.ChooseNearPredecessor | src/main/java/net/alenzen/intelHex/HexLineIndex.java:176-191 | with a predecessor: its extension when in reach, else the successor's, else a new one after the predecessor |
| IntelHex.HexLineIndex.InsertNewExtension | src/main/java/net/alenzen/intelHex/HexLineIndex.java:217-231 | adds the synthesised extension at the given place and keeps the index |
| IntelHex.HexLineIndex.AddLineToSortedList | src/main/java/net/alenzen/intelHex/HexLineIndex.java:199-205 | a data record goes into the sorted list and the ranges at its gap; any other record leaves the index unchanged |
| IntelHex.HexFileIterator.constructor | src/main/java/net/alenzen/intelHex/HexFileIterator.java:12-15 | a fresh index of the file, independent of the file's cached one; the cursor at (0, 0) |
| IntelHex.HexFileIterator.LineHasByteIndex | src/main/java/net/alenzen/intelHex/HexFileIterator.java:27-30 | true iff the cursor names a byte of an indexed record |
| IntelHex.HexFileIterator.HasNext | src/main/java/net/alenzen/intelHex/HexFileIterator.java:18-25 | advances at most to the start of the next record and answers whether the cursor names a byte; with no empty record ahead, true iff entries remain |
| IntelHex.HexFileIterator.Next | src/main/java/net/alenzen/intelHex/HexFileIterator.java:33-41 | after the same advance, the entry at the cursor and a step of exactly one byte, or IndexOutOfBounds; with no empty record ahead, the first remaining entry |
| IntelHex.HexFileIterator.CreateEntry | src/main/java/net/alenzen/intelHex/HexFileIterator.java:43-67 | the full address and byte at the cursor, or IndexOutOfBounds when it names none |
| IntelHex.HexEntry.constructor | src/main/java/net/alenzen/intelHex/HexFileIterator.java:43-50 | the entry holds its own copy of key and value |
| IntelHex.HexEntry.SetValue | src/main/java/net/alenzen/intelHex/HexFileIterator.java:62-65 | changes only the entry's own value and returns the new value |
| Iteration.NextOfRemaining | src/main/java/net/alenzen/intelHex/HexFileIterator.java:18-41 | with no empty record ahead, the advance keeps what is to come, a byte is named iff something is, and next yields the first entry to come |
| Iteration.HasNextRepeats | src/main/java/net/alenzen/intelHex/HexFileIterator.java:18-25 | with no empty record ahead, asking hasNext twice gives the same answer |
| Iteration.EmptyRecordEndsIteration | src/main/java/net/alenzen/intelHex/HexFileIterator.java:18-30 | an empty record stops the iteration although a later record still holds a byte |
| Iteration.RemainingAscending | src/main/java/net/alenzen/intelHex/HexFileIterator.java:33-41 | over ordered records the entries to come have strictly ascending addresses |
| Iteration.IterationInAddressOrder | src/main/java/net/alenzen/intelHex/HexFileIterator.java:18-67 | a fresh iterator yields exactly the defined bytes with their full addresses, in strictly ascending address order |
| LineReader.SplitAll | src/main/java/net/alenzen/intelHex/BufferedReaderHexLines.java:29 | at least one piece, none holding ':' |
| LineReader.JoinSplitAll | src/main/java/net/alenzen/intelHex/BufferedReaderHexLines.java:29 | the pieces joined with ':' give the line back |
| LineReader.DropTrailingEmpty | src/main/java/net/alenzen/intelHex/BufferedReaderHexLines.java:29 | String.split drops exactly the trailing empty pieces |
| LineReader.After | src/main/java/net/alenzen/intelHex/IntelHexFile.java:73 | the lines read so far followed by the rest, failing iff the rest fails |
| LineReader.AfterPrepend | src/main/java/net/alenzen/intelHex/IntelHexFile.java:73 | reading one line moves it from the rest to the lines read |
| LineReader.OutputStartsWithColon | src/main/java/net/alenzen/intelHex/BufferedReaderHexLines.java:19-36 | every line the reader returns starts with ':' |
| LineReader.OneRecordLine | src/main/java/net/alenzen/intelHex/BufferedReaderHexLines.java:29-35 | a physical line holding one record comes out unchanged |
| LineReader.TwoRecordsOnOneLine | src/main/java/net/alenzen/intelHex/BufferedReaderHexLines.java:19-36 | ":A:B" comes out as ":A" then ":B" |
| LineReader.BadLines | src/main/java/net/alenzen/intelHex/BufferedReaderHexLines.java:29-35 | an empty physical line ends reading with NoSuchElementException, a lone ":" with NullPointerException |
| LineReader.BufferedReaderHexLines.constructor | src/main/java/net/alenzen/intelHex/BufferedReaderHexLines.java:14-16 | a reader over the physical lines with an empty queue |
| LineReader.BufferedReaderHexLines.ReadLine | src/main/java/net/alenzen/intelHex/BufferedReaderHexLines.java:19-36 | a queued piece is returned with ':' first, without reading; no input gives null; otherwise the line's pieces are queued; every result is the head of what is still to come, and reading progresses |
| FileParsing.StoreOf | src/main/java/net/alenzen/intelHex/IntelHexFile.java:97 | record j of the parsed list is the object with identity j |
| FileParsing.LatestExtension | src/main/java/net/alenzen/intelHex/IntelHexFile.java:81-84 | the last extension record parsed so far, if any |
| FileParsing.FileFormat | src/main/java/net/alenzen/intelHex/IntelHexFile.java:86-95 | I8HEX iff no record implies another format; otherwise a format some record implies |
| FileParsing.FileFormatSnoc | src/main/java/net/alenzen/intelHex/IntelHexFile.java:88-95 | a record changes the format only while it is still I8HEX; later conflicts are ignored |
| FileParsing.ParseRecords | src/main/java/net/alenzen/intelHex/IntelHexFile.java:67-99 | at most one record per line read |
| FileParsing.ParseRecordsSnoc | src/main/java/net/alenzen/intelHex/IntelHexFile.java:75-97 | a line that parses appends its record, numbered by its position, linked to the latest extension |
| FileParsing.ParseRecordsSkip | src/main/java/net/alenzen/intelHex/IntelHexFile.java:77-79 | a line that does not parse is skipped and still counts towards the line number |
| FileParsing.LatestExtensionSnoc | src/main/java/net/alenzen/intelHex/IntelHexFile.java:81-84 | an extended linear or segment record becomes the latest extension |
| FileParsing.ParsedRecords | src/main/java/net/alenzen/intelHex/IntelHexFile.java:67-99 | every parsed record has a line number within the lines read, in increasing order, and its link is the latest earlier extension |
| FileParsing.ParsedDocValid | src/main/java/net/alenzen/intelHex/IntelHexFile.java:67-101 | the parsed records form a valid document |
| FileParsing.ParseWritten | src/main/java/net/alenzen/intelHex/IntelHexFile.java:104-107 | printing records as parsed (printable, numbered 1.., linked to the latest extension) and parsing the lines gives the records back |
| FileParsing.ReadWritten | src/main/java/net/alenzen/intelHex/BufferedReaderHexLines.java:19-36 | the reader returns printed records one per line, unchanged |
| FileParsing.WrittenFileReadsBack | src/main/java/net/alenzen/intelHex/IntelHexFile.java:62-107 | a file written as lines and read back through the reader and the parse loop has the same records |
| FileParsing.JoinedIsTerminated | src/main/java/net/alenzen/intelHex/IntelHexFile.java:104-107 | joining with the separator and adding one more is the same as ending every line with it |

## Left out

- Stream, file and charset I/O: the `writeTo` overloads and the filename and `InputStream` overloads of `parse`. Input is a sequence of physical lines; output is a string.
- `System.lineSeparator()` is a parameter of `IntelHexFile.ToHexFileString`.
- `IParsingError` logging is not modelled. A failed line is an error value of `HexFileLines.Parse` that the loop skips. A format conflict is ignored as in the code, without the log message.
- I/O errors of the underlying `BufferedReader` are not modelled; the reader's only failures are the two exceptions its own code can raise.
- HexText.ParseInt: `Integer.parseInt` and `Short.parseShort` are modelled with their sign prefix; their other corner cases (non-ASCII digits) are not.
- HexFileLines.ExtendedAddressOffset: looks through one link only. When the linked record is not itself an extension, the code recurses into that record's own link, and the model gives 0. Parsing and gap filling link records to extension records only, so a document built by the library never reaches this case.
- ByteUtils.ToLong: returns the unsigned big-endian value of any number of bytes. Java's `long` agrees for up to seven bytes, and for eight when the first is below 0x80; an eighth byte of 0x80 or more makes it negative, and from nine bytes on the shift count wraps modulo 64, so the leading bytes are added at the wrong weight. The source applies it to extension payloads, whose length parsing does not check.
- AddressExtensionUtils.ExtensionOffset: the offset is the unbounded payload value times 65536 or 16. Java's `<< 16` and `* 16` on `long` agree for linear payloads of up to five bytes (six with a first byte below 0x80) and segment payloads of up to seven bytes (eight with a first byte below 0x08); beyond that the value wraps modulo 2^64 and can be negative. Records this library writes carry 2-byte payloads.
- Java `assert` statements are preconditions: `AddressExtensionUtils.ExtensionOffsetFromFullAddress` requires the address to be within reach. The asserts of `createLineInGap` (no neighbour contains the address) follow from the binary search and are proved.
- IntelHex.HexLineIndex.CreateLineInGap: the class model sizes the first gap with the corrected `IndexRules.DetermineGapSize` of the Findings row, not with line 137 as written; later gaps have a lower record and are sized as the code does. On the input where they differ (no lower record, writing above address 0, more bytes than fit below the upper record, see `IndexRules.FirstLengthAsWritten`) the code writes a record overlapping the upper one, which the model does not capture.
- IntelHex.HexLineIndex.WriteIntoGap: runs the corrected first gap size, as `CreateLineInGap` above.
- IntelHex.IntelHexFile.UpdateBytes: its exact patch, and the validity it keeps, are proved of the gap filler running the corrected first gap size; on the overshoot input the code instead leaves overlapping records, after which its index is no longer sorted.
- IntelHex.IntelHexFile.WriteAll: runs the corrected first gap size, as `UpdateBytes` above.
- IntelHex.IntelHexFile.UpdateStep: its gap branch runs the corrected first gap size, as `UpdateBytes` above.
- IntelHex.HexLineIndex.CreateLineInGap: requires `offset < |bs|`, `1 <= maximumLineByteCount` and the reach bound below. `updateBytes`, its only caller, guarantees the first.
- IntelHex.IntelHexFile.UpdateBytes: requires `1 <= maximumLineByteCount` (0 divides by zero), and requires the written range to stay within the reach of the document's extension kind (0xFFFFFFFF for linear, 0xFFFFF for segment). Beyond it the code computes an offset that does not fit its 2-byte payload.
- IntelHex.IntelHexFile.UpdateBytes and IntelHex.IntelHexFile.ReadBytes: stated for a sound document, where data records hold as many bytes as their length says, hold at least one byte and do not overlap. `Collections.binarySearch` over an unsorted range list is unspecified.
- IntelHex.HexLineIndex.FillRound: the gap-filling loop of `createLineInGap` and the choice of extension in `createAndInsertNewLine` are split into helper methods (`WriteIntoGap`, `FillRound`, `WriteNextLine`, `NextGap`, `ChooseExtension`). The parse loop is split the same way (`ReadRecords`, `ParseLine`, `FromParsedLines`), and so is the read loop (`ReadThroughIndex`, `ReadStep`, `CopyFromLine`).
- IntelHex.IntelHexFile.UpdateStep: promises at least one byte per round, not the exact count each round writes.
- IntelHex.HexFileIterator.HasNext: the link to the entries to come is stated when no empty data record lies ahead. With an empty one, iteration stops early, which `Iteration.EmptyRecordEndsIteration` shows.
- The iterator's `remove` (the `Iterator` default) is not modelled.
- Round trips of whole files are stated for records as the parse loop builds them. Whether re-serialising keeps absolute addresses after extension records were spliced in is not stated: the code does not promise it.
- Trivial getters and setters, `getMaximumAddressOfExtension` and the deprecated `isDataDefined` alias are left out.
- `updateLength` and `updateChecksum` are covered by `HexFileLines.UpdateMetadata`, not as separate members.

## Findings

| source | as written | input that shows it | evidently intended | confidence | as-written member | corrected member |
|---|---|---|---|---|---|---|
| src/main/java/net/alenzen/intelHex/HexLineIndex.java:136-138 | with no lower record, `determineGapSize` returns the upper record's full start address, not the room between the write address and that record | a file with one 16-byte data record at 0x10, then `updateBytes(8, 16 bytes)`: the gap is sized 16, so a new record covers 8..0x17 and overlaps the existing record | the room up to the upper record, `upper.start − address` (8 here), as for the other branches | not executed | IndexRules.GapOvershootAsWritten | IndexRules.DetermineGapSize |
