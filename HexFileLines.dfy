/**
 * One record (line) of an Intel HEX file: `:LLAAAATT<data>CC`, with the
 * data length LL, the 16-bit address AAAA, the record type TT, the data
 * bytes and the checksum CC.
 *
 * A record object of the library is a value here.  Its link to the
 * extension record that governs its address is the identity (`Id`) of that
 * record; the record it links to is handed to the operations that need it.
 */
module HexFileLines {
  import opened Wrappers
  import opened ByteUtils
  import opened RecordTypes
  import opened AddressExtensionUtils
  import opened HexText

  /** The identity of a record object. */
  type Id = nat

  /** The largest address a record can hold in its 16-bit address field. */
  const ADDRESS_MAX: int := 0xFFFF

  /** The shortest line that can be a record: colon, length, address, type, checksum. */
  const MIN_LINE_LENGTH: int := 11

  datatype HexFileLine = HexFileLine(
    lineNumber: int,
    addressExtension: Option<Id>,
    length: int16,
    address: int32,
    kind: RecordType,
    data: seq<byte>,
    checksum: byte)

  /** Why a line of text is skipped by the parser. */
  datatype ParseError =
    | TooShort                   // fewer than 11 characters
    | InvalidHexSymbols          // NumberFormatException from one of the fields
    | UnknownRecordType(code: int)  // EnumConstantNotPresentException

  /** The bytes the checksum covers: length (2 bytes), address (4 bytes), type, data. */
  function ChecksumInput(length: int16, address: int32, kind: RecordType, data: seq<byte>): seq<byte>
  {
    Flatten([ShortToByteArray(length), IntToByteArray(address), [kind.Ordinal()], data])
  }

  /**
   * HexFileLine.calculateChecksum: the byte that brings the sum of the
   * length, address, type and data bytes to zero modulo 256.
   */
  function CalculateChecksum(r: HexFileLine): (c: byte)
    ensures (Sum(ChecksumInput(r.length, r.address, r.kind, r.data)) + c) % 256 == 0
  {
    Checksum(ChecksumInput(r.length, r.address, r.kind, r.data))
  }

  /**
   * For a record whose length fits a byte and whose address fits 16 bits,
   * the checksum computed by the library is the one Intel HEX prescribes:
   * length, both address bytes, type, all data bytes and the checksum sum
   * to zero modulo 256.  (The upper zero bytes of the short and int
   * encodings do not change the sum.)
   */
  lemma ChecksumRule(r: HexFileLine)
    requires 0 <= r.length < 256 && 0 <= r.address <= ADDRESS_MAX
    ensures (r.length + r.address / 256 + r.address % 256 + r.kind.Ordinal()
             + Sum(r.data) + CalculateChecksum(r)) % 256 == 0
  {
    var ls := ShortToByteArray(r.length);
    var addr := IntToByteArray(r.address);
    assert ls == [0, r.length as byte];
    assert addr == [0, 0, r.address / 256, r.address % 256];
    FlattenFour(ls, addr, [r.kind.Ordinal()], r.data);
    SumAppend(ls + addr + [r.kind.Ordinal()], r.data);
    SumAppend(ls + addr, [r.kind.Ordinal()]);
    SumAppend(ls, addr);
    SumTwo(0, r.length as byte);
    SumFour(0, 0, r.address / 256, r.address % 256);
    assert Sum([r.kind.Ordinal() as byte]) == r.kind.Ordinal() by {
      assert [r.kind.Ordinal() as byte][..0] == [];
    }
  }

  /**
   * HexFileLine.isChecksumValid: the stored checksum is valid iff it
   * completes the byte sum of the record to zero modulo 256.
   */
  function IsChecksumValid(r: HexFileLine): (ok: bool)
    ensures ok <==> (Sum(ChecksumInput(r.length, r.address, r.kind, r.data)) + r.checksum) % 256 == 0
  {
    ComplementUnique(Sum(ChecksumInput(r.length, r.address, r.kind, r.data)), CalculateChecksum(r), r.checksum);
    CalculateChecksum(r) == r.checksum
  }

  /** Only one byte completes a sum to zero modulo 256. */
  lemma ComplementUnique(s: int, a: byte, b: byte)
    requires (s + a) % 256 == 0
    ensures (s + b) % 256 == 0 <==> a == b
  {
    var q := (s + a) / 256;
    assert s + a == 256 * q;
    if (s + b) % 256 == 0 {
      var q2 := (s + b) / 256;
      assert s + b == 256 * q2;
      assert b - a == 256 * (q2 - q);
    }
  }

  /**
   * HexFileLine.isLengthValid: the length field counts the data and fits a
   * byte, so updateLength would leave it as it is.
   */
  function IsLengthValid(r: HexFileLine): (ok: bool)
    ensures ok <==> r.length == ToInt16(|r.data|) && |r.data| < 256
  {
    |r.data| == r.length && 0 <= r.length < 256
  }

  /**
   * HexFileLine.isMetadataValid: the metadata is valid iff the data fits a
   * byte's count and updateMetadata would change nothing.
   */
  function IsMetadataValid(r: HexFileLine): (ok: bool)
    ensures ok <==> UpdateMetadata(r) == r && |r.data| < 256
  {
    IsLengthValid(r) && IsChecksumValid(r)
  }

  /**
   * HexFileLine.updateMetadata: the length field becomes the data length
   * cast to short (updateLength), then the checksum is recomputed over the
   * new length (updateChecksum).
   */
  function UpdateMetadata(r: HexFileLine): (u: HexFileLine)
    ensures u == r.(length := u.length, checksum := u.checksum)
    ensures IsChecksumValid(u)
    ensures IsLengthValid(u) <==> |r.data| < 256
    ensures |r.data| < TWO_TO_15 ==> u.length == |r.data|
  {
    var withLength := r.(length := ToInt16(|r.data|));
    withLength.(checksum := CalculateChecksum(withLength))
  }

  /**
   * The constructor HexFileLine(address, type, data, addressExtension): a
   * record made by the library rather than read from text, with line
   * number -1 and its metadata filled in.
   */
  function NewLine(address: int32, kind: RecordType, data: seq<byte>, extension: Option<Id>): (r: HexFileLine)
    ensures r.lineNumber == -1 && r.address == address && r.kind == kind
    ensures r.data == data && r.addressExtension == extension
    ensures |data| < TWO_TO_15 ==> r.length as int == |data|
    ensures IsChecksumValid(r)
    ensures IsMetadataValid(r) <==> |data| < 256
  {
    UpdateMetadata(HexFileLine(-1, extension, 0, address, kind, data, 0))
  }

  /** The text a raw line is read from: trimmed, with a ':' put in front if missing. */
  function Normalize(raw: string): (line: string)
    ensures |line| > 0 && line[0] == ':'
  {
    var t := Trim(raw);
    if |t| > 0 && t[0] == ':' then t else ":" + t
  }

  /**
   * HexFileLine.parse: reads one line of text into a record linked to the
   * latest extension record, or says why the line is skipped.  The fields
   * are read in the source's order (length, address, type, checksum, data),
   * so a bad hex symbol anywhere is reported before an unknown type.
   */
  function Parse(lineNumber: int, raw: string, latestAddressExtension: Option<Id>): (r: Result<HexFileLine, ParseError>)
    ensures r == Err(TooShort) <==> |Normalize(raw)| < MIN_LINE_LENGTH
    ensures r.Ok? ==> r.value.lineNumber == lineNumber
    ensures r.Ok? ==> r.value.addressExtension == latestAddressExtension
    ensures r.Ok? ==> 0 <= r.value.address <= ADDRESS_MAX
    ensures r.Ok? ==> -0xFF <= r.value.length <= 0xFF
    ensures r.Ok? ==> |r.value.data| == (|Normalize(raw)| - MIN_LINE_LENGTH) / 2
    ensures r.Ok? ==> |Normalize(raw)| >= MIN_LINE_LENGTH && FieldsOf(Normalize(raw), r.value)
  {
    var line := Normalize(raw);
    if |line| < MIN_LINE_LENGTH then Err(TooShort)
    else
      var n := |line|;
      match (ParseShortHex(line[1..3]), ParseUnsignedInt(line[3..7]), ParseHexByte(line[7..9]),
             ParseHexByte(line[n - 2..]), ParseHexPerByte(line[9..n - 2]))
      case (Some(length), Some(address), Some(code), Some(checksum), Some(data)) =>
        (match FromValue(Signed(code))
         case Ok(kind) => Ok(HexFileLine(lineNumber, latestAddressExtension, length, address, kind, data, checksum))
         case Err(e) => Err(UnknownRecordType(e.code)))
      case _ => Err(InvalidHexSymbols)
  }

  /**
   * Every field of `r` is read from its own columns of `line`: the length
   * from 1..3, the address from 3..7, the type code from 7..9, the data
   * from 9 up to the last two characters, and the checksum from those.
   */
  predicate FieldsOf(line: string, r: HexFileLine)
    requires |line| >= MIN_LINE_LENGTH
  {
    var n := |line|;
    && ParseShortHex(line[1..3]) == Some(r.length)
    && ParseUnsignedInt(line[3..7]) == Some(r.address as int)
    && ParseHexByte(line[7..9]).Some? && Signed(ParseHexByte(line[7..9]).value) == r.kind.Ordinal()
    && ParseHexByte(line[n - 2..]) == Some(r.checksum)
    && ParseHexPerByte(line[9..n - 2]) == Some(r.data)
  }

  /** Every field of a long enough line is made of hexadecimal symbols the parser accepts. */
  predicate HexFieldsParse(line: string)
    requires |line| >= MIN_LINE_LENGTH
  {
    var n := |line|;
    && ParseShortHex(line[1..3]).Some?
    && ParseUnsignedInt(line[3..7]).Some?
    && ParseHexByte(line[7..9]).Some?
    && ParseHexByte(line[n - 2..]).Some?
    && ParseHexPerByte(line[9..n - 2]).Some?
  }

  /**
   * The two reasons besides length for which parse logs a line and skips
   * it: a field that is not hexadecimal (NumberFormatException), and a
   * type code outside 0..5 (EnumConstantNotPresentException), which is
   * only reached when every field is hexadecimal.
   */
  lemma ParseErrors(lineNumber: int, raw: string, latestAddressExtension: Option<Id>)
    requires |Normalize(raw)| >= MIN_LINE_LENGTH
    ensures var line := Normalize(raw);
      Parse(lineNumber, raw, latestAddressExtension) == Err(InvalidHexSymbols) <==> !HexFieldsParse(line)
    ensures var line := Normalize(raw); var r := Parse(lineNumber, raw, latestAddressExtension);
      HexFieldsParse(line) ==>
        var code := Signed(ParseHexByte(line[7..9]).value);
        (r.Err? <==> !(0 <= code <= 5)) && (r.Err? ==> r.error == UnknownRecordType(code))
  {
  }

  /**
   * HexFileLine.toString: colon, `%02X` length, `%04X` address, `%02X`
   * type, `%02X` per data byte and `%02X` checksum.  Java formats a
   * negative short or int by its unsigned bit pattern.
   */
  function ToString(r: HexFileLine): (s: string)
    ensures |s| > 0 && s[0] == ':'
  {
    ":" + Hex(r.length % TWO_TO_16, 2) + Hex(r.address % TWO_TO_32, 4) + Hex(r.kind.Ordinal(), 2)
      + HexBytes(r.data) + Hex(r.checksum, 2)
  }

  /** The record fields that can be written and read back faithfully. */
  predicate Printable(r: HexFileLine)
  {
    && 0 <= r.length < 256
    && 0 <= r.address <= ADDRESS_MAX
    && (forall i :: 0 <= i < |r.data| ==> r.data[i] < 0x80)
  }

  /** Where each part of a six-part concatenation sits. */
  lemma ConcatParts(a: string, b: string, c: string, d: string, e: string, f: string)
    ensures var s := a + b + c + d + e + f;
      && s[|a|..|a| + |b|] == b
      && s[|a| + |b|..|a| + |b| + |c|] == c
      && s[|a| + |b| + |c|..|a| + |b| + |c| + |d|] == d
      && s[|a| + |b| + |c| + |d|..|s| - |f|] == e
      && s[|s| - |f|..] == f
  {
  }

  lemma ToStringLayout(r: HexFileLine)
    requires 0 <= r.length < 256 && 0 <= r.address <= ADDRESS_MAX
    ensures var s := ToString(r);
      && |s| == MIN_LINE_LENGTH + 2 * |r.data|
      && s[1..3] == Hex(r.length, 2)
      && s[3..7] == Hex(r.address, 4)
      && s[7..9] == Hex(r.kind.Ordinal(), 2)
      && s[9..|s| - 2] == HexBytes(r.data)
      && s[|s| - 2..] == Hex(r.checksum, 2)
  {
    assert Pow16(2) == 256;
    assert Pow16(4) == 0x1_0000;
    assert r.length % TWO_TO_16 == r.length as int;
    assert r.address % TWO_TO_32 == r.address as int;
    var l := Hex(r.length as int, 2);
    var a := Hex(r.address as int, 4);
    var t := Hex(r.kind.Ordinal(), 2);
    var d := HexBytes(r.data);
    var c := Hex(r.checksum, 2);
    assert |l| == 2 && |a| == 4 && |t| == 2 && |c| == 2;
    ConcatParts(":", l, a, t, d, c);
  }

  /**
   * The text of a record is one ':' followed by hexadecimal digits only,
   * so the line reader hands it out unsplit.
   */
  lemma ToStringOneColon(r: HexFileLine)
    ensures var s := ToString(r);
      s == ":" + s[1..] && s[1..] != "" && ':' !in s[1..]
  {
    var l := Hex(r.length % TWO_TO_16, 2);
    var a := Hex(r.address % TWO_TO_32, 4);
    var t := Hex(r.kind.Ordinal(), 2);
    var d := HexBytes(r.data);
    var c := Hex(r.checksum as nat, 2);
    HexAllDigits(r.length % TWO_TO_16, 2);
    HexAllDigits(r.address % TWO_TO_32, 4);
    HexAllDigits(r.kind.Ordinal(), 2);
    HexBytesAllDigits(r.data);
    HexAllDigits(r.checksum as nat, 2);
    AllDigitsConcat(l, a);
    AllDigitsConcat(l + a, t);
    AllDigitsConcat(l + a + t, d);
    AllDigitsConcat(l + a + t + d, c);
    var text := l + a + t + d + c;
    assert ToString(r) == ":" + text;
    assert ToString(r)[1..] == text;
    assert DigitValue(':').None?;
  }

  /**
   * Writing a record and parsing the text again gives the same record
   * (under the new line number and extension link) whenever the length
   * fits a byte, the address fits 16 bits and every data byte is below
   * 0x80.
   */
  lemma ParseToString(r: HexFileLine, lineNumber: int, extension: Option<Id>)
    requires Printable(r)
    ensures Parse(lineNumber, ToString(r), extension)
         == Ok(r.(lineNumber := lineNumber, addressExtension := extension))
  {
    var s := ToString(r);
    NormalizeToString(r);
    ToStringLayout(r);
    var n := |s|;
    assert ParseShortHex(s[1..3]) == Some(r.length) by {
      ParseShortHexOfHex(r.length);
    }
    assert ParseUnsignedInt(s[3..7]) == Some(r.address as int) by {
      HexFourDigits(r.address);
    }
    assert ParseHexByte(s[7..9]) == Some(r.kind.Ordinal() as byte) by {
      ParseHexByteOfHex(r.kind.Ordinal() as byte);
    }
    assert ParseHexByte(s[n - 2..]) == Some(r.checksum) by {
      ParseHexByteOfHex(r.checksum);
    }
    assert ParseHexPerByte(s[9..n - 2]) == Some(r.data) by {
      HexBytesRoundTrip(r.data);
    }
    assert FromValue(Signed(r.kind.Ordinal() as byte)) == Ok(r.kind) by {
      OrdinalRoundTrip(r.kind);
    }
    ParseOfFields(lineNumber, s, extension, r.length, r.address, r.kind.Ordinal() as byte, r.checksum, r.data, r.kind);
  }

  /** Parse succeeds with the given fields once every field reads back. */
  lemma ParseOfFields(lineNumber: int, line: string, extension: Option<Id>, length: int16, address: int32,
                      code: byte, checksum: byte, data: seq<byte>, kind: RecordType)
    requires Normalize(line) == line && |line| >= MIN_LINE_LENGTH
    requires ParseShortHex(line[1..3]) == Some(length)
    requires ParseUnsignedInt(line[3..7]) == Some(address as int)
    requires ParseHexByte(line[7..9]) == Some(code)
    requires ParseHexByte(line[|line| - 2..]) == Some(checksum)
    requires ParseHexPerByte(line[9..|line| - 2]) == Some(data)
    requires FromValue(Signed(code)) == Ok(kind)
    ensures Parse(lineNumber, line, extension) == Ok(HexFileLine(lineNumber, extension, length, address, kind, data, checksum))
  {
  }

  /** The text of a record with a 16-bit address is already trimmed and starts with ':'. */
  lemma NormalizeToString(r: HexFileLine)
    requires 0 <= r.length < 256 && 0 <= r.address <= ADDRESS_MAX
    ensures Normalize(ToString(r)) == ToString(r)
  {
    var s := ToString(r);
    ToStringLayout(r);
    HexTwoDigits(r.checksum);
    DigitsAreDigits(r.checksum, 2, 1);
    assert s[|s| - 1] == Hex(r.checksum, 2)[1];
    TrimUnchanged(s);
  }

  /**
   * The same write-then-read loses a record holding a data byte of 0x80 or
   * more: `Byte.parseByte` refuses the pair and the whole line is skipped.
   */
  lemma ParseToStringDropsHighBytes(r: HexFileLine, lineNumber: int, extension: Option<Id>, k: int)
    requires 0 <= r.length < 256 && 0 <= r.address <= ADDRESS_MAX
    requires 0 <= k < |r.data| && r.data[k] >= 0x80
    ensures Parse(lineNumber, ToString(r), extension) == Err(InvalidHexSymbols)
  {
    var s := ToString(r);
    NormalizeToString(r);
    ToStringLayout(r);
    HexBytesHighByteRejected(r.data, k);
  }

  /**
   * HexFileLine.getFullStartAddress: the record's address, plus the offset
   * of the linked extension record when there is one.  Linking to a
   * record that is no extension raises InvalidParameterException (Err).
   */
  function FullStartAddress(r: HexFileLine, extension: Option<HexFileLine>): (a: Result<int, AddressError>)
    ensures a.Err? <==> extension.Some? && !extension.value.kind.IsAddressExtension()
    ensures extension.None? ==> a == Ok(r.address as int)
  {
    match extension
    case None => Ok(r.address as int)
    case Some(e) => FullAddress(e.kind, e.data, r.address)
  }

  /**
   * HexFileLine.getExtendedAddressOffset: an extension record's own offset;
   * for any other record, the offset of its linked record, or 0 without a
   * link.  The linked record's offset is computed as if it had no link of
   * its own.
   */
  function ExtendedAddressOffset(r: HexFileLine, extension: Option<HexFileLine>): (o: Result<int, AddressError>)
    ensures r.kind.IsAddressExtension() ==> o == ExtensionOffset(r.kind, r.data)
    ensures o.Ok? ==> o.value >= 0
  {
    if r.kind.IsAddressExtension() then ExtensionOffset(r.kind, r.data)
    else match extension
      case Some(e) => if e.kind.IsAddressExtension() then ExtensionOffset(e.kind, e.data) else Ok(0)
      case None => Ok(0)
  }

  /**
   * For a record that is not itself an extension, its full start address
   * is its 16-bit address above the offset of the extension that governs it.
   */
  lemma FullStartIsOffsetPlusAddress(r: HexFileLine, extension: Option<HexFileLine>)
    requires !r.kind.IsAddressExtension()
    requires extension.Some? ==> extension.value.kind.IsAddressExtension()
    ensures FullStartAddress(r, extension).Ok? && ExtendedAddressOffset(r, extension).Ok?
    ensures FullStartAddress(r, extension).value == ExtendedAddressOffset(r, extension).value + r.address
  {
  }

  /**
   * HexFileLine.containsAddress, for a record whose full start address is
   * `start`: an empty record contains no address, and from a contained
   * address on at least one byte of the record is left.
   */
  function ContainsAddress(r: HexFileLine, start: int, address: int): (ok: bool)
    ensures ok ==> 0 < |r.data| && 1 <= |r.data| - (address - start) <= |r.data|
    ensures 0 < |r.data| && address == start ==> ok
    ensures 0 < |r.data| && address == start + |r.data| - 1 ==> ok
    ensures address == start + |r.data| ==> !ok
  {
    start <= address < start + |r.data|
  }

  function Min(a: int, b: int): int { if a <= b then a else b }

  /**
   * HexFileLine.readBytes: copies the record's bytes from `startAddress`
   * on into `resultBytes` at `offset`, at most `maxNumberOfBytes` of them
   * and no further than the record's end, and returns how many it copied
   * (the loop copies nothing when the returned count is not positive).
   */
  method ReadBytes(r: HexFileLine, start: int, resultBytes: array<byte>, offset: int, startAddress: int, maxNumberOfBytes: int)
    returns (bulkByteRead: int)
    requires ContainsAddress(r, start, startAddress)
    requires 0 <= offset
    requires offset + Min(maxNumberOfBytes, |r.data| - (startAddress - start)) <= resultBytes.Length
    modifies resultBytes
    ensures bulkByteRead == Min(maxNumberOfBytes, |r.data| - (startAddress - start))
    ensures bulkByteRead <= |r.data| - (startAddress - start)
    ensures forall i :: 0 <= i < resultBytes.Length ==>
      resultBytes[i] == if offset <= i < offset + bulkByteRead then r.data[startAddress - start + i - offset]
                        else old(resultBytes[i])
  {
    var lineOffset := startAddress - start;
    bulkByteRead := Min(maxNumberOfBytes, |r.data| - lineOffset);
    var i := 0;
    var o := offset;
    var l := lineOffset;
    while i < bulkByteRead
      invariant 0 <= i <= (if bulkByteRead > 0 then bulkByteRead else 0)
      invariant o == offset + i && l == lineOffset + i
      invariant forall j :: 0 <= j < resultBytes.Length ==>
        resultBytes[j] == if offset <= j < offset + i then r.data[lineOffset + j - offset] else old(resultBytes[j])
    {
      resultBytes[o] := r.data[l];
      o := o + 1;
      l := l + 1;
      i := i + 1;
    }
  }

  /**
   * HexFileLine.updateBytes: overwrites the record's bytes from
   * `startAddress` on with `bs` from `offset` on, as many as both have,
   * and returns the new record and the count.  Length and checksum are
   * left as they were.
   */
  method UpdateBytes(r: HexFileLine, start: int, startAddress: int, offset: int, bs: seq<byte>)
    returns (updated: HexFileLine, bulkByteEdit: int)
    requires ContainsAddress(r, start, startAddress)
    requires 0 <= offset <= |bs|
    ensures bulkByteEdit == Min(|bs| - offset, |r.data| - (startAddress - start))
    ensures 0 <= bulkByteEdit
    ensures updated == r.(data := updated.data)
    ensures |updated.data| == |r.data|
    ensures forall i :: 0 <= i < |r.data| ==>
      updated.data[i] == if 0 <= i - (startAddress - start) < bulkByteEdit
                         then bs[offset + i - (startAddress - start)] else r.data[i]
  {
    var lineOffset := startAddress - start;
    bulkByteEdit := Min(|bs| - offset, |r.data| - lineOffset);
    var data := r.data;
    var i := 0;
    while i < bulkByteEdit
      invariant 0 <= i <= bulkByteEdit
      invariant |data| == |r.data|
      invariant forall j :: 0 <= j < |data| ==>
        data[j] == if 0 <= j - lineOffset < i then bs[offset + j - lineOffset] else r.data[j]
    {
      data := data[lineOffset + i := bs[offset + i]];
      i := i + 1;
    }
    updated := r.(data := data);
  }

  /**
   * HexFileLine.extendLine: a new data array holding the old bytes followed
   * by `extensionSize` bytes of `bs` from `offset` on.  Length and checksum
   * are left as they were.
   */
  method ExtendLine(r: HexFileLine, extensionSize: int, bs: seq<byte>, offset: int) returns (extended: HexFileLine)
    requires 0 <= extensionSize && 0 <= offset && offset + extensionSize <= |bs|
    ensures extended == r.(data := r.data + bs[offset..offset + extensionSize])
  {
    var newData := new byte[|r.data| + extensionSize];
    var i := 0;
    while i < |r.data|
      invariant 0 <= i <= |r.data|
      invariant newData[..i] == r.data[..i]
    {
      newData[i] := r.data[i];
      i := i + 1;
    }
    var o := offset;
    while i < newData.Length
      invariant |r.data| <= i <= newData.Length
      invariant o == offset + i - |r.data|
      invariant newData[..i] == r.data + bs[offset..o]
    {
      newData[i] := bs[o];
      o := o + 1;
      i := i + 1;
    }
    extended := r.(data := newData[..]);
  }

  /** A record of the library's own unit tests. */
  const EXAMPLE_RECORD: HexFileLine := HexFileLine(1, None, 3, 0x30, Data, [0x02, 0x33, 0x7A], 0x1E)

  lemma ExampleMetadata()
    ensures IsMetadataValid(EXAMPLE_RECORD)
  {
    var r := EXAMPLE_RECORD;
    ChecksumRule(r);
    assert Sum([0x02, 0x33, 0x7A]) == 0xAF by {
      SumAppend([0x02], [0x33, 0x7A]);
      assert [0x02] + [0x33, 0x7A] == [0x02 as byte, 0x33, 0x7A];
      assert [2 as byte][..0] == [];
      SumTwo(0x33, 0x7A);
    }
    var c := CalculateChecksum(r);
    assert (0xE2 + c as int) % 256 == 0;
  }

  lemma ExampleHexFields()
    ensures Hex(3, 2) == "03" && Hex(0x30, 4) == "0030" && Hex(0, 2) == "00" && Hex(0x1E, 2) == "1E"
  {
    HexTwoChars(3);
    HexFourChars(0x30);
    HexTwoChars(0);
    HexTwoChars(0x1E);
  }

  lemma ExampleHexBytes()
    ensures HexBytes([0x02, 0x33, 0x7A]) == "02337A"
  {
    HexTwoChars(2);
    HexTwoChars(0x33);
    HexTwoChars(0x7A);
    var d: seq<byte> := [0x02, 0x33, 0x7A];
    assert d[1..] == [0x33, 0x7A];
    assert d[1..][1..] == [0x7A];
    assert d[1..][1..][1..] == [];
  }

  lemma ExampleToString()
    ensures ToString(EXAMPLE_RECORD) == ":0300300002337A1E"
  {
    ExampleHexFields();
    ExampleHexBytes();
    var r := EXAMPLE_RECORD;
    assert r.length % TWO_TO_16 == 3 && r.address % TWO_TO_32 == 0x30 && r.kind.Ordinal() == 0;
    assert ToString(r) == ":" + "03" + "0030" + "00" + "02337A" + "1E";
    assert ":" + "03" + "0030" == ":030030";
    assert ":030030" + "00" + "02337A" == ":0300300002337A";
    assert ":0300300002337A" + "1E" == ":0300300002337A1E";
  }

  /** The line of the library's own unit test is read into the expected record. */
  /** A non-hexadecimal digit in the length field drops the line. */
  lemma ExampleInvalidHex()
    ensures Parse(1, ":0G00000000", None) == Err(InvalidHexSymbols)
  {
    var line := ":0G00000000";
    TrimUnchanged(line);
    assert Normalize(line) == line;
    assert |line| == 11 && line[1] == '0' && line[2] == 'G';
    assert line[1..3] == ['0', 'G'];
    assert DigitValue('G').None?;
    assert DigitsValue("0G").None?;
  }

  /** Type code 06 names no record type. */
  lemma ExampleUnknownType()
    ensures Parse(1, ":00000006FA", None) == Err(UnknownRecordType(6))
  {
    var line := ":00000006FA";
    TrimUnchanged(line);
    assert Normalize(line) == line;
    ExampleUnknownTypeFields();
    ParseErrors(1, line, None);
  }

  lemma ExampleUnknownTypeFields()
    ensures var line := ":00000006FA";
      && ParseShortHex(line[1..3]) == Some(0)
      && ParseUnsignedInt(line[3..7]) == Some(0)
      && ParseHexByte(line[7..9]) == Some(6)
      && ParseHexByte(line[9..]) == Some(0xFA)
      && ParseHexPerByte(line[9..9]) == Some([])
  {
    var line := ":00000006FA";
    HexTwoChars(0);
    HexTwoChars(6);
    HexTwoChars(0xFA);
    HexFourChars(0);
    assert line[1..3] == Hex(0, 2);
    assert line[3..7] == Hex(0, 4);
    assert line[7..9] == Hex(6, 2);
    assert line[9..] == Hex(0xFA, 2);
    ParseShortHexOfHex(0);
    HexFourDigits(0);
    ParseHexByteOfHex(6);
    ParseHexByteOfHex(0xFA);
  }

  lemma ExampleParse()
    ensures Parse(1, ":0300300002337A1E", None) == Ok(EXAMPLE_RECORD)
  {
    ExampleToString();
    ParseToString(EXAMPLE_RECORD, 1, None);
  }
}
