/**
 * The library's stateful objects: IntelHexFile, a document of records that
 * can be read and written byte-wise; HexLineIndex, the index of its data
 * records by address that reads and writes go through; and
 * HexFileIterator, which walks the defined bytes in address order.
 *
 * Record objects are the values of the file's record store, keyed by their
 * identity; the record list and the index hold identities, so a record
 * changed in place is seen through both.
 */
module IntelHex {
  import opened Wrappers
  import opened ByteUtils
  import opened RecordTypes
  import opened HexFormats
  import opened AddressExtensionUtils
  import opened HexFileLines
  import opened IndexLayout
  import opened Documents
  import opened IndexRules
  import opened DocumentEdits
  import opened IndexState
  import opened LineReader
  import opened FileParsing
  import opened Iteration

  /** The InvalidParameterException of the index: the address lies inside an indexed record. */
  datatype IndexError = AddressInExistingLine

  /** The IndexOutOfBoundsException createEntry raises when the cursor points at no byte. */
  datatype IteratorError = IndexOutOfBounds

  /** The IllegalArgumentExceptions of readBytes and updateBytes. */
  datatype ArgumentError = NegativeAddress | NegativeNumberOfBytes

  class IntelHexFile {
    static const BYTE_COUNT_16: int16 := 0x10
    static const BYTE_COUNT_32: int16 := 0x20
    static const BYTE_COUNT_MAX: int16 := 0xFF

    /** The record objects of the document, by identity. */
    var store: Store
    /** The document: record identities in file order. */
    var records: seq<Id>
    /** The identity the next new record object gets. */
    var nextId: Id
    var maximumLineByteCount: int16
    var hexFormat: HexFormat
    var index: HexLineIndex?

    /**
     * A valid document; the index, once made, belongs to this file and is
     * complete as long as the document is sound.
     */
    ghost predicate Valid()
      reads this, index
    {
      && DocValid(store, records, nextId)
      && (index != null ==> index.hf == this && (Sound() ==> index.Valid()))
    }

    /** Data records that hold their length in bytes and do not overlap. */
    ghost predicate Sound()
      reads this
    {
      DataSound(store) && DataDisjoint(store, records)
    }

    /** The private constructor: a file over the given records and format. */
    constructor (lines: Store, order: seq<Id>, next: Id, format: HexFormat)
      ensures store == lines && records == order && nextId == next && hexFormat == format
      ensures maximumLineByteCount == BYTE_COUNT_32 && index == null
    {
      store := lines;
      records := order;
      nextId := next;
      hexFormat := format;
      maximumLineByteCount := BYTE_COUNT_32;
      index := null;
    }

    /** IntelHexFile.create(format): an empty document. */
    static method Create(format: HexFormat) returns (file: IntelHexFile)
      ensures fresh(file)
      ensures file.records == [] && file.hexFormat == format && file.index == null
      ensures file.maximumLineByteCount == BYTE_COUNT_32
      ensures file.Valid() && file.Sound()
    {
      file := new IntelHexFile(map[], [], 0, format);
    }

    /** IntelHexFile.create(): an empty I32HEX document. */
    static method CreateDefault() returns (file: IntelHexFile)
      ensures fresh(file)
      ensures file.records == [] && file.hexFormat == I32HEX && file.index == null
      ensures file.Valid() && file.Sound()
    {
      file := Create(I32HEX);
    }

    /**
     * IntelHexFile.parse: reads the lines the reader delivers from the
     * physical lines `input`, keeps the records of those that parse, each
     * linked to the latest extension record kept before it, and takes the
     * variant from the first record implying one.  The exceptions of the
     * reader end the parse.
     */
    static method Parse(input: seq<string>) returns (result: Result<IntelHexFile, ReadError>)
      ensures result.Err? <==> Output([], input).Err?
      ensures result.Err? ==> result.error == Output([], input).error
      ensures result.Ok? ==>
        var recs := ParseRecords(Output([], input).value);
        && fresh(result.value)
        && result.value.store == StoreOf(recs)
        && result.value.records == Identities(|recs|)
        && result.value.nextId == |recs|
        && result.value.hexFormat == FileFormat(recs)
        && result.value.maximumLineByteCount == BYTE_COUNT_32
        && result.value.index == null
        && result.value.Valid()
    {
      var failure, store, records, nextId, format := ReadRecords(input);
      if failure.Some? {
        return Err(failure.value);
      }
      var file := FromParsedLines(Output([], input).value, store, records, nextId, format);
      return Ok(file);
    }

    /**
     * The loop of parse: the record objects, their order, the next
     * identity and the variant it has gathered when the reader is
     * exhausted, or the reader's exception.
     */
    static method ReadRecords(input: seq<string>)
      returns (failure: Option<ReadError>, store: Store, records: seq<Id>, nextId: Id, format: HexFormat)
      ensures failure.Some? <==> Output([], input).Err?
      ensures failure.Some? ==> failure.value == Output([], input).error
      ensures failure.None? ==>
        var recs := ParseRecords(Output([], input).value);
        && store == StoreOf(recs) && records == Identities(|recs|) && nextId == |recs|
        && format == FileFormat(recs)
    {
      var br := new BufferedReaderHexLines(input);
      store, records, nextId := map[], [], 0;
      format := I8HEX;
      var latestAddressExtension: Option<Id> := None;
      var linenumber := 0;
      ghost var done: seq<string> := [];
      AfterNothing(Output([], input));
      while true
        invariant Output([], input) == After(done, Output(br.hexLineBuffer, br.input))
        invariant linenumber == |done|
        invariant Gathered(done, latestAddressExtension, store, records, nextId, format)
        decreases |br.input|, |br.hexLineBuffer|
      {
        var line := br.ReadLine();
        match line
        case EndOfInput =>
          break;
        case Failure(e) =>
          return Some(e), store, records, nextId, format;
        case Line(text) =>
          AfterPrepend(done, text, Output(br.hexLineBuffer, br.input));
          linenumber := linenumber + 1;
          latestAddressExtension, store, records, nextId, format :=
            ParseLine(done, text, linenumber, latestAddressExtension, store, records, nextId, format);
          done := done + [text];
      }
      assert done == Output([], input).value;
      failure := None;
    }

    /**
     * One turn of the parse loop: line number `linenumber` is parsed,
     * linked to the latest extension record so far, and its record, when
     * it parses, is added, becomes the latest extension record when it is
     * one, and fixes the variant when none is fixed yet.
     */
    static method ParseLine(ghost done: seq<string>, line: string, linenumber: int, latestAddressExtension: Option<Id>,
                            store: Store, records: seq<Id>, nextId: Id, format: HexFormat)
      returns (latest': Option<Id>, store': Store, records': seq<Id>, nextId': Id, format': HexFormat)
      requires linenumber == |done| + 1
      requires Gathered(done, latestAddressExtension, store, records, nextId, format)
      ensures Gathered(done + [line], latest', store', records', nextId', format')
    {
      ghost var recs := ParseRecords(done);
      latest', store', records', nextId', format' := latestAddressExtension, store, records, nextId, format;
      var l := HexFileLines.Parse(linenumber, line, latestAddressExtension);
      if l.Err? {
        ParseRecordsSkip(done, line, recs, linenumber);
        return;
      }
      ParseRecordsSnoc(done, line, recs, l.value, linenumber);
      StoreOfSnoc(recs, l.value);
      IdentitiesSnoc(|recs|);
      LatestExtensionSnoc(recs, l.value);
      FileFormatSnoc(recs, l.value);
      if l.value.kind.IsAddressExtension() {
        latest' := Some(nextId);
      }
      var formatFromLine := DetermineFormat(l.value.kind);
      if format == I8HEX {
        format' := formatFromLine;
      }
      store', records', nextId' := store[nextId := l.value], records + [nextId], nextId + 1;
    }

    /** The file object parse returns for the records kept from `lines`. */
    static method FromParsedLines(ghost lines: seq<string>, store: Store, records: seq<Id>, nextId: Id, format: HexFormat)
      returns (file: IntelHexFile)
      requires var recs := ParseRecords(lines);
        store == StoreOf(recs) && records == Identities(|recs|) && nextId == |recs|
      ensures fresh(file)
      ensures file.store == store && file.records == records && file.nextId == nextId && file.hexFormat == format
      ensures file.maximumLineByteCount == BYTE_COUNT_32 && file.index == null
      ensures file.Valid()
    {
      ParsedDocValid(lines);
      file := new IntelHexFile(store, records, nextId, format);
    }

    /**
     * toHexFileString: the text of every record of the document, in order,
     * each followed by the line separator `separator`.
     */
    function ToHexFileString(separator: string): (text: string)
      reads this, index
      requires Valid()
      ensures |records| == 0 ==> text == separator
      ensures |records| > 0 ==> text == Terminated(Lines(RecordsIn(store, records)), separator)
    {
      var lines := Lines(RecordsIn(store, records));
      var text := JoinLines(lines, separator) + separator;
      assert |lines| > 0 ==> text == Terminated(lines, separator) by {
        if |lines| > 0 {
          JoinedIsTerminated(lines, separator);
        }
      }
      text
    }

    /**
     * records.add(at, r) of a new record object: it gets the next
     * identity.
     */
    method AddRecord(at: int, r: HexFileLine) returns (id: Id)
      requires 0 <= at <= |records|
      modifies this`store, this`records, this`nextId
      ensures id == old(nextId) && nextId == id + 1
      ensures store == old(store)[id := r]
      ensures records == InsertAt(old(records), at, id)
    {
      id := nextId;
      store := store[id := r];
      records := InsertAt(records, at, id);
      nextId := nextId + 1;
    }

    /** setupIndex: makes the index on first use. */
    method SetupIndex()
      requires Valid()
      modifies this`index
      ensures Valid() && index != null
      ensures old(index) != null ==> index == old(index)
      ensures old(index) == null ==> fresh(index)
    {
      if index == null {
        index := new HexLineIndex(this);
        assert store == old(store) && records == old(records) && nextId == old(nextId);
      }
    }

    /** refreshIndex: a new index over the records as they are now. */
    method RefreshIndex()
      requires Valid()
      modifies this`index
      ensures Valid() && index != null && fresh(index)
      ensures index.sortedDataLines == SortByStart(store, DataIds(store, records))
    {
      index := new HexLineIndex(this);
      assert store == old(store) && records == old(records) && nextId == old(nextId);
    }

    /**
     * findLineByAddress / isDefined: whether some record, of any type,
     * holds the address, searched through the whole list.
     */
    function IsDefined(address: int): (defined: bool)
      reads this
      ensures defined <==> exists k :: 0 <= k < |records| && SegmentOf(store, records[k]).Contains(address)
    {
      FindLine(store, records, address).Some?
    }

    /** iterator(): an iterator over the data bytes, with an index of its own. */
    method Iterator() returns (it: HexFileIterator)
      ensures fresh(it) && fresh(it.hexFileIndex) && it.hf == this && it.Valid()
      ensures it.Position() == Cursor(0, 0)
      ensures Valid() && Sound() ==> it.hexFileIndex.Valid()
    {
      it := new HexFileIterator(this);
    }

    method SetMaximumLineByteCount(count: int16)
      modifies this`maximumLineByteCount
      ensures maximumLineByteCount == count
    {
      maximumLineByteCount := count;
    }

    /**
     * readBytes: `numberOfBytes` bytes from `address` on, each the byte the
     * document's data records define there, or 0 where none does.
     */
    method ReadBytes(address: int, numberOfBytes: int) returns (result: Result<array<byte>, ArgumentError>)
      requires Valid() && Sound()
      modifies this`index
      ensures result == Err(NegativeAddress) <==> address < 0
      ensures result == Err(NegativeNumberOfBytes) <==> 0 <= address && numberOfBytes < 0
      ensures result.Err? ==> unchanged(this)
      ensures result.Ok? ==> fresh(result.value) && result.value.Length == numberOfBytes
      ensures result.Ok? ==> forall i :: 0 <= i < numberOfBytes ==>
        result.value[i] == DataByteAt(store, records, address + i).GetOr(0)
      ensures Valid() && unchanged(this`store, this`records, this`nextId)
    {
      if address < 0 {
        return Err(NegativeAddress);
      }
      if numberOfBytes < 0 {
        return Err(NegativeNumberOfBytes);
      }
      var bytes := new byte[numberOfBytes](_ => 0);
      SetupIndex();
      IndexView(store, records, nextId, index.sortedDataLines, index.hexlineIndex);
      ReadThroughIndex(index, address, bytes);
      return Ok(bytes);
    }

    /**
     * The loop of readBytes: each position of `bytes` gets the byte the
     * index's records define at `address` plus the position, or 0.
     */
    static method ReadThroughIndex(ix: HexLineIndex, address: int, bytes: array<byte>)
      requires ix.Searchable()
      modifies bytes
      ensures forall i :: 0 <= i < bytes.Length ==> bytes[i] == ByteAt(ix.Segments(), address + i).GetOr(0)
    {
      var readBytes := 0;
      while readBytes < bytes.Length
        invariant 0 <= readBytes <= bytes.Length
        invariant forall i :: 0 <= i < readBytes ==> bytes[i] == ByteAt(ix.Segments(), address + i).GetOr(0)
        decreases bytes.Length - readBytes
      {
        readBytes := ReadStep(ix, address, bytes, readBytes);
      }
    }

    /**
     * One pass of that loop: a byte no record holds reads as 0; otherwise
     * the record holding the address copies as many of its bytes as fit.
     */
    static method ReadStep(ix: HexLineIndex, address: int, bytes: array<byte>, readBytes: int) returns (next: int)
      requires ix.Searchable() && 0 <= readBytes < bytes.Length
      modifies bytes
      ensures readBytes < next <= bytes.Length
      ensures forall i :: 0 <= i < bytes.Length ==>
        bytes[i] == if readBytes <= i < next then ByteAt(ix.Segments(), address + i).GetOr(0) else old(bytes[i])
    {
      ghost var segs := ix.Segments();
      var readAddress := address + readBytes;
      var optLine := ix.FindLineByAddress(readAddress);
      assert ix.Segments() == segs;
      if optLine.None? {
        assert forall j :: 0 <= j < |segs| ==> !segs[j].Contains(readAddress);
        bytes[readBytes] := 0;
        return readBytes + 1;
      }
      var id := optLine.value;
      ghost var k :| 0 <= k < |ix.sortedDataLines| && ix.sortedDataLines[k] == id;
      var line := ix.hf.store[id];
      var start := Start(ix.hf.store, id);
      assert segs[k] == Segment(start, line.data);
      OrderedIsDisjoint(segs);
      next := CopyFromLine(line, start, bytes, address, readBytes, segs, k);
    }

    /**
     * The record branch of that pass: the record `line`, found for the
     * address at `readBytes`, is the `k`-th of the disjoint segments, and
     * its bytes from there on are copied as far as they go and fit.
     */
    static method CopyFromLine(line: HexFileLine, start: int, bytes: array<byte>, address: int, readBytes: int,
                               ghost segs: seq<Segment>, ghost k: int) returns (next: int)
      requires Disjoint(segs) && 0 <= k < |segs| && segs[k] == Segment(start, line.data)
      requires 0 <= readBytes < bytes.Length && segs[k].Contains(address + readBytes)
      modifies bytes
      ensures readBytes < next <= bytes.Length
      ensures forall i :: 0 <= i < bytes.Length ==>
        bytes[i] == if readBytes <= i < next then ByteAt(segs, address + i).GetOr(0) else old(bytes[i])
    {
      var n := HexFileLines.ReadBytes(line, start, bytes, readBytes, address + readBytes, bytes.Length - readBytes);
      CopiedFromSegment(segs, k, bytes[..], address, readBytes, n);
      return readBytes + n;
    }

    /**
     * updateBytes: writes `bs` from `address` on, overwriting in place the
     * bytes of the data records that hold an address and filling the gaps
     * between them with new data records. Afterwards the document defines
     * the bytes of `bs` at those addresses and, everywhere else, the bytes
     * it defined before.
     */
    method UpdateBytes(address: int, bs: seq<byte>) returns (result: Result<(), ArgumentError>)
      requires Valid() && Sound() && 1 <= maximumLineByteCount
      requires address + |bs| - 1 <= MaxReach(FirstExtensionKind(store, records))
      modifies this`index, this`store, this`records, this`nextId, index
      ensures result == Err(NegativeAddress) <==> address < 0
      ensures result.Err? ==> unchanged(this)
      ensures Valid() && Sound()
      ensures result.Ok? ==> forall a :: DataByteAt(store, records, a)
                                      == if address <= a < address + |bs| then Some(bs[a - address])
                                         else old(DataByteAt(store, records, a))
    {
      if address < 0 {
        return Err(NegativeAddress);
      }
      SetupIndex();
      ghost var s0 := index.Segments();
      IndexView(store, records, nextId, index.sortedDataLines, index.hexlineIndex);
      WriteAll(address, bs, s0);
      IndexView(store, records, nextId, index.sortedDataLines, index.hexlineIndex);
      forall a
        ensures DataByteAt(store, records, a)
          == if address <= a < address + |bs| then Some(bs[a - address]) else old(DataByteAt(store, records, a))
      {
        assert PatchedAt(s0, index.Segments(), address, |bs|, bs, 0, a);
      }
      return Ok(());
    }

    /**
     * The loop of updateBytes: writes all of `bs` from `address` on, round
     * by round, through the index.
     */
    method WriteAll(address: int, bs: seq<byte>, ghost s0: seq<Segment>)
      requires index != null && index.hf == this && index.Valid() && s0 == index.Segments()
      requires 1 <= maximumLineByteCount && 0 <= address
      requires address + |bs| - 1 <= MaxReach(FirstExtensionKind(store, records))
      modifies this`store, this`records, this`nextId, index`sortedDataLines, index`hexlineIndex
      ensures index.Valid() && Patched(s0, index.Segments(), address, |bs|, bs, 0)
      ensures FirstExtensionKind(store, records) == old(FirstExtensionKind(store, records))
    {
      var writtenBytes := 0;
      NothingPatchedYet(s0, address, bs, 0);
      while writtenBytes < |bs|
        invariant index.Valid() && 0 <= writtenBytes <= |bs|
        invariant Patched(s0, index.Segments(), address, writtenBytes, bs, 0)
        invariant FirstExtensionKind(store, records) == old(FirstExtensionKind(store, records))
        decreases |bs| - writtenBytes
      {
        writtenBytes := UpdateStep(address, bs, writtenBytes, s0);
      }
    }

    /**
     * One pass of the loop of updateBytes: at the first address not yet
     * written, the record holding it is overwritten in place, or, when no
     * record holds it, the gap there is filled with new records.
     */
    method UpdateStep(address: int, bs: seq<byte>, writtenBytes: int, ghost s0: seq<Segment>) returns (written': int)
      requires index != null && index.hf == this && index.Valid()
      requires 1 <= maximumLineByteCount && 0 <= address && 0 <= writtenBytes < |bs|
      requires address + |bs| - 1 <= MaxReach(FirstExtensionKind(store, records))
      requires Patched(s0, index.Segments(), address, writtenBytes, bs, 0)
      modifies this`store, this`records, this`nextId, index`sortedDataLines, index`hexlineIndex
      ensures index.Valid() && writtenBytes < written' <= |bs|
      ensures Patched(s0, index.Segments(), address, written', bs, 0)
      ensures FirstExtensionKind(store, records) == old(FirstExtensionKind(store, records))
    {
      ghost var s1 := index.Segments();
      var writeAddress := address + writtenBytes;
      var optLine := index.FindLineByAddress(writeAddress);
      var n: int;
      if optLine.None? {
        var r := index.CreateLineInGap(writeAddress, writtenBytes, bs);
        n := r.value;
        FilledIsPatched(s1, index.Segments(), writeAddress, n, bs, writtenBytes);
      } else {
        n := WriteInLine(optLine.value, writeAddress, writtenBytes, bs);
      }
      PatchesCompose(s0, s1, index.Segments(), address, writtenBytes, n, writeAddress, bs);
      written' := writtenBytes + n;
    }

    /**
     * HexFileLine.updateBytes called on an indexed record holding
     * `writeAddress`: its bytes from there on get those of `bs` from
     * `offset` on, as many as both have, and nothing else changes.
     */
    method WriteInLine(id: Id, writeAddress: int, offset: int, bs: seq<byte>) returns (n: int)
      requires index != null && index.hf == this && index.Valid()
      requires id in index.sortedDataLines && SegmentOf(store, id).Contains(writeAddress)
      requires 0 <= offset < |bs|
      modifies this`store
      ensures index.Valid() && 1 <= n <= |bs| - offset
      ensures Patched(old(index.Segments()), index.Segments(), writeAddress, n, bs, offset)
      ensures FirstExtensionKind(store, records) == old(FirstExtensionKind(store, records))
    {
      ghost var k :| 0 <= k < |index.sortedDataLines| && index.sortedDataLines[k] == id;
      var line := store[id];
      var start := Start(store, id);
      var updated;
      updated, n := HexFileLines.UpdateBytes(line, start, writeAddress, offset, bs);
      ghost var before := store;
      store := store[id := updated];
      OverwriteIndexed(before, records, nextId, index.sortedDataLines, index.hexlineIndex, k, line, start, updated,
                       store, writeAddress, n, bs, offset);
    }
  }

  /**
   * HexLineIndex: the data records of a file sorted by full start address,
   * and the flat list of their first and last addresses that binary
   * search runs on.
   */
  class HexLineIndex {
    var sortedDataLines: seq<Id>
    var hexlineIndex: seq<int>
    const hf: IntelHexFile

    /** The indexed records as address segments, in index order. */
    ghost function Segments(): seq<Segment>
      reads this, hf`store
    {
      Layout(hf.store, sortedDataLines)
    }

    /** What the searches rely on: sound, ordered data records and their bounds. */
    ghost predicate Searchable()
      reads this, hf`store
    {
      && DataSound(hf.store)
      && (forall k :: 0 <= k < |sortedDataLines| ==> IsData(hf.store, sortedDataLines[k]))
      && Ordered(Segments())
      && hexlineIndex == Ranges(hf.store, sortedDataLines)
    }

    /** A complete index of the file's document. */
    ghost predicate Valid()
      reads this, hf`store, hf`records, hf`nextId
    {
      IndexInv(hf.store, hf.records, hf.nextId, sortedDataLines, hexlineIndex)
    }

    /** Complete but for the record `x`, just added to the document. */
    ghost predicate Pending(x: Id)
      reads this, hf`store, hf`records, hf`nextId
    {
      IndexInvExcept(hf.store, hf.records, hf.nextId, sortedDataLines, hexlineIndex, x)
    }

    /** new HexLineIndex(file): indexes the file's data records as they are. */
    constructor (intelHexFile: IntelHexFile)
      ensures hf == intelHexFile
      ensures sortedDataLines == SortByStart(hf.store, DataIds(hf.store, hf.records))
      ensures hexlineIndex == Ranges(hf.store, sortedDataLines)
      ensures DocValid(hf.store, hf.records, hf.nextId) && DataSound(hf.store) && DataDisjoint(hf.store, hf.records)
              ==> Valid()
    {
      hf := intelHexFile;
      new;
      SetupIndex();
      if DocValid(hf.store, hf.records, hf.nextId) && DataSound(hf.store) && DataDisjoint(hf.store, hf.records) {
        BuiltIndexValid(hf.store, hf.records, hf.nextId);
      }
    }

    /** setupIndex: the data records sorted by full start address (stable), then their bounds. */
    method SetupIndex()
      modifies this`sortedDataLines, this`hexlineIndex
      ensures sortedDataLines == SortByStart(hf.store, DataIds(hf.store, hf.records))
      ensures hexlineIndex == Ranges(hf.store, sortedDataLines)
    {
      sortedDataLines := SortByStart(hf.store, DataIds(hf.store, hf.records));
      SortedDataInStore(hf.store, hf.records);
      BuildIndexRanges();
    }

    /** buildIndexRanges: first and last address (by the length field) of every indexed record. */
    method BuildIndexRanges()
      requires forall k :: 0 <= k < |sortedDataLines| ==> sortedDataLines[k] in hf.store
      modifies this`hexlineIndex
      ensures hexlineIndex == Ranges(hf.store, sortedDataLines)
    {
      var ranges: seq<int> := [];
      var i := 0;
      while i < |sortedDataLines|
        invariant 0 <= i <= |sortedDataLines|
        invariant ranges == Ranges(hf.store, sortedDataLines[..i])
      {
        var l := sortedDataLines[i];
        var start := Start(hf.store, l);
        var end := start + hf.store[l].length as int - 1;
        RangesSnoc(hf.store, sortedDataLines[..i], l);
        assert sortedDataLines[..i + 1] == sortedDataLines[..i] + [l];
        ranges := ranges + [start, end];
        i := i + 1;
      }
      assert sortedDataLines[..i] == sortedDataLines;
      hexlineIndex := ranges;
    }

    /**
     * findLineByAddress: the indexed record holding the address, if any,
     * found by binary search over the bounds.
     */
    method FindLineByAddress(address: int) returns (line: Option<Id>)
      requires Searchable()
      ensures line.Some? <==> exists k :: 0 <= k < |sortedDataLines| && Segments()[k].Contains(address)
      ensures line.Some? ==> line.value in sortedDataLines && SegmentOf(hf.store, line.value).Contains(address)
    {
      RangesAreBounds(hf.store, sortedDataLines);
      BoundsSorted(Segments());
      var result := BinarySearch(hexlineIndex, address);
      if result >= 0 {
        BoundInSegment(Segments(), result);
        return Some(sortedDataLines[result / 2]);
      }
      InsertionPointMeaning(Segments(), address, -result - 1);
      result := result * -1;
      if JavaRem(result, 2) != 0 {
        return None;
      }
      return Some(sortedDataLines[(result - 1) / 2]);
    }

    /**
     * getNewIndexByLine: the position in the sorted list for a record
     * whose full start address lies in a gap between indexed records; an
     * exception when the start lies inside an indexed record.
     */
    method GetNewIndexByLine(line: Id) returns (result: Result<int, IndexError>)
      requires Searchable()
      ensures result.Err? <==> exists k :: 0 <= k < |sortedDataLines| && Segments()[k].Contains(Start(hf.store, line))
      ensures result.Ok? ==> 0 <= result.value <= |sortedDataLines|
      ensures result.Ok? && 0 < result.value ==> Segments()[result.value - 1].End() <= Start(hf.store, line)
      ensures result.Ok? && result.value < |sortedDataLines| ==> Start(hf.store, line) < Segments()[result.value].start
    {
      ghost var segs := Segments();
      RangesAreBounds(hf.store, sortedDataLines);
      BoundsSorted(segs);
      var r := BinarySearch(hexlineIndex, Start(hf.store, line));
      ghost var inside := SearchOutcome(segs, Start(hf.store, line), r);
      if 0 <= r || JavaRem(r, 2) == 0 {
        assert Segments()[inside].Contains(Start(hf.store, line));
      }
      if r >= 0 {
        return Err(AddressInExistingLine);
      }
      if JavaRem(r, 2) == 0 {
        return Err(AddressInExistingLine);
      }
      return Ok(((r * -1) - 1) / 2);
    }

    /**
     * createLineInGap: writes the bytes of `bs` from `offset` on into the
     * gap of the index that holds `address`, as new data records of at most
     * the file's maximum size at consecutive addresses; returns how many
     * bytes were written, which can be fewer than fit, since the loop
     * compares its counter with a recomputed number of records. An
     * exception when `address` lies inside an indexed record.
     */
    method CreateLineInGap(address: int, offset: int, bs: seq<byte>) returns (result: Result<int, IndexError>)
      requires Valid()
      requires 1 <= hf.maximumLineByteCount && 0 <= offset < |bs|
      requires 0 <= address && address + (|bs| - offset) - 1 <= MaxReach(FirstExtensionKind(hf.store, hf.records))
      modifies this`sortedDataLines, this`hexlineIndex, hf`store, hf`records, hf`nextId
      ensures Valid()
      ensures result.Err? <==> exists k :: 0 <= k < |old(sortedDataLines)| && old(Segments())[k].Contains(address)
      ensures result.Err? ==> hf.store == old(hf.store) && hf.records == old(hf.records)
      ensures result.Ok? ==> 1 <= result.value <= |bs| - offset
      ensures result.Ok? ==> GapFilled(old(Segments()), Segments(), address, result.value, bs, offset)
      ensures FirstExtensionKind(hf.store, hf.records) == old(FirstExtensionKind(hf.store, hf.records))
    {
      ghost var segs0 := Segments();
      RangesAreBounds(hf.store, sortedDataLines);
      BoundsSorted(segs0);
      var r := BinarySearch(hexlineIndex, address);
      ghost var inside := SearchOutcome(segs0, address, r);
      if r >= 0 || JavaRem(r, 2) == 0 {
        assert Segments()[inside].Contains(address);
        return Err(AddressInExistingLine);
      }
      ghost var p := (r * -1 - 1) / 2;
      ghost var r0 := r;
      r := r * -1;
      NegatedOutcome(r0, r);
      var lower: Option<Id> := None;
      if r > 2 {
        lower := Some(sortedDataLines[(r - 3) / 2]);
      }
      var upper: Option<Id> := None;
      if r < |hexlineIndex| {
        upper := Some(sortedDataLines[(r - 1) / 2]);
      }
      assert lower == Lower(sortedDataLines, p) && upper == Upper(sortedDataLines, p);
      var writtenBytes := WriteIntoGap(lower, upper, address, offset, bs, p);
      return Ok(writtenBytes);
    }

    /**
     * The loop of createLineInGap: fills gap `p` of the index, between
     * `lower` and `upper`, from `address` on with the bytes of `bs` from
     * `offset` on, one record of at most the file's maximum size per round.
     */
    method WriteIntoGap(lower0: Option<Id>, upper: Option<Id>, address: int, offset: int, bs: seq<byte>, ghost p0: int)
      returns (writtenBytes: int)
      requires InGap(p0, lower0, upper, address, 1)
      requires 1 <= hf.maximumLineByteCount && 0 <= offset < |bs|
      requires 0 <= address && address + (|bs| - offset) - 1 <= MaxReach(FirstExtensionKind(hf.store, hf.records))
      modifies this`sortedDataLines, this`hexlineIndex, hf`store, hf`records, hf`nextId
      ensures Valid()
      ensures 1 <= writtenBytes <= |bs| - offset
      ensures GapFilled(old(Segments()), Segments(), address, writtenBytes, bs, offset)
      ensures FirstExtensionKind(hf.store, hf.records) == old(FirstExtensionKind(hf.store, hf.records))
    {
      ghost var segs0 := Segments();
      ghost var p := p0;
      var lower := lower0;
      var gapSize := DetermineGapSize(hf.store, address, lower, upper);
      writtenBytes := 0;
      var off := offset;
      var length := Min(|bs| - off, gapSize);
      var numberOfLines := DetermineNumberOfLines(length, hf.maximumLineByteCount);
      var i := 0;
      RoomAtStart(hf.store, sortedDataLines, p, address, length);
      NothingFilledYet(segs0, address, bs, offset);
      while i < numberOfLines
        invariant InGap(p, lower, upper, address + writtenBytes, length)
        invariant 0 <= writtenBytes && off == offset + writtenBytes && 0 <= length <= |bs| - off
        invariant numberOfLines == DetermineNumberOfLines(length, hf.maximumLineByteCount)
        invariant 0 <= i && (0 < i ==> 1 <= writtenBytes) && (i == 0 ==> 0 < numberOfLines)
        invariant FirstExtensionKind(hf.store, hf.records) == old(FirstExtensionKind(hf.store, hf.records))
        invariant GapFilled(segs0, Segments(), address, writtenBytes, bs, offset)
        decreases |bs| - off
      {
        lower, writtenBytes, off, length, numberOfLines, p :=
          FillRound(lower, upper, address, bs, offset, writtenBytes, off, length, p, segs0);
        i := i + 1;
      }
    }

    /**
     * One round of createLineInGap's loop: a new record with the next bytes
     * of `bs`, then the gap above it, the bytes to write into it and the
     * number of records they take.
     */
    method FillRound(lower: Option<Id>, upper: Option<Id>, address: int, bs: seq<byte>, offset: int,
                     written: int, off: int, length: int, ghost p: int, ghost s0: seq<Segment>)
      returns (lower': Option<Id>, written': int, off': int, length': int, numberOfLines': int, ghost p': int)
      requires InGap(p, lower, upper, address + written, length)
      requires 0 <= address && address + (|bs| - offset) - 1 <= MaxReach(FirstExtensionKind(hf.store, hf.records))
      requires 1 <= length <= |bs| - off && 1 <= hf.maximumLineByteCount
      requires 0 <= offset && 0 <= written && off == offset + written
      requires GapFilled(s0, Segments(), address, written, bs, offset)
      modifies this`sortedDataLines, this`hexlineIndex, hf`store, hf`records, hf`nextId
      ensures InGap(p', lower', upper, address + written', length')
      ensures written < written' && off' == offset + written' && 0 <= length' <= |bs| - off'
      ensures numberOfLines' == DetermineNumberOfLines(length', hf.maximumLineByteCount)
      ensures GapFilled(s0, Segments(), address, written', bs, offset)
      ensures FirstExtensionKind(hf.store, hf.records) == old(FirstExtensionKind(hf.store, hf.records))
    {
      ghost var sorted := sortedDataLines;
      var newLine;
      newLine, written', off', p' := WriteNextLine(lower, upper, address, bs, offset, written, off, length, p, s0);
      lower' := Some(newLine);
      length', numberOfLines' := NextGap(lower', upper, address, written', bs, off', sorted, p, p');
    }

    /**
     * The loop state of createLineInGap: a complete index whose gap `p`
     * lies between the records `lower` and `upper` and is free from
     * `start` for `room` bytes.
     */
    ghost predicate InGap(p: int, lower: Option<Id>, upper: Option<Id>, start: int, room: int)
      reads this, hf`store, hf`records, hf`nextId
    {
      && Valid()
      && 0 <= p <= |sortedDataLines|
      && lower == Lower(sortedDataLines, p) && upper == Upper(sortedDataLines, p)
      && (0 < p ==> Segments()[p - 1].End() <= start)
      && (p < |sortedDataLines| ==> start + room <= Segments()[p].start)
    }

    /**
     * The first half of a round of createLineInGap's loop: a new record
     * with the next bytes of `bs` at `address + written`, and the count
     * and offset moved past them. The bytes written so far stay written.
     */
    method WriteNextLine(lower: Option<Id>, upper: Option<Id>, address: int, bs: seq<byte>, offset: int,
                         written: int, off: int, length: int, ghost p: int, ghost s0: seq<Segment>)
      returns (newLine: Id, written': int, off': int, ghost p': int)
      requires InGap(p, lower, upper, address + written, length)
      requires 0 <= address + written <= MaxReach(FirstExtensionKind(hf.store, hf.records))
      requires 1 <= length <= |bs| - off && 1 <= hf.maximumLineByteCount
      requires 0 <= offset && 0 <= written && off == offset + written
      requires GapFilled(s0, Segments(), address, written, bs, offset)
      modifies this`sortedDataLines, this`hexlineIndex, hf`store, hf`records, hf`nextId
      ensures Valid()
      ensures p' == p + 1 && written + 1 <= written' <= written + length && off' == offset + written'
      ensures sortedDataLines == InsertAt(old(sortedDataLines), p, newLine)
      ensures newLine in hf.store && hf.store[newLine].length as int == |hf.store[newLine].data|
      ensures SegmentOf(hf.store, newLine).End() == address + written'
      ensures GapFilled(s0, Segments(), address, written', bs, offset)
      ensures FirstExtensionKind(hf.store, hf.records) == old(FirstExtensionKind(hf.store, hf.records))
    {
      ghost var segs := Segments();
      var start := address + written;
      ghost var x := Segment(start, LineSlice(bs, off, length, hf.maximumLineByteCount as int));
      GapFillStep(s0, segs, p, x, address, written, bs, offset, off);
      newLine := CreateAndInsertNewLine(lower, upper, start, bs, off, length, p);
      var bytesWritten := hf.store[newLine].length as int;
      written' := written + bytesWritten;
      off' := off + bytesWritten;
      p' := p + 1;
    }

    /**
     * The second half of a round of createLineInGap's loop: the gap above
     * the record just written, the bytes to write into it and the number
     * of records they take.
     */
    method NextGap(lower: Option<Id>, upper: Option<Id>, address: int, written: int, bs: seq<byte>, off: int,
                   ghost sorted0: seq<Id>, ghost p: int, ghost q: int)
      returns (length: int, numberOfLines: int)
      requires Valid() && 1 <= hf.maximumLineByteCount && lower.Some? && 0 <= p <= |sorted0| && q == p + 1
      requires 0 <= off <= |bs|
      requires sortedDataLines == InsertAt(sorted0, p, lower.value) && upper == Upper(sorted0, p)
      requires lower.value in hf.store && hf.store[lower.value].length as int == |hf.store[lower.value].data|
      requires SegmentOf(hf.store, lower.value).End() == address + written
      ensures InGap(q, lower, upper, address + written, length)
      ensures 0 <= length <= |bs| - off
      ensures numberOfLines == DetermineNumberOfLines(length, hf.maximumLineByteCount)
    {
      var gapSize := DetermineGapSizeAsWritten(hf.store, address + written, lower, upper);
      length := Min(|bs| - off, gapSize);
      numberOfLines := DetermineNumberOfLines(length, hf.maximumLineByteCount);
      GapAfterInsert(hf.store, sorted0, sortedDataLines, p, q, lower.value, address + written, upper, length);
    }

    /**
     * createAndInsertNewLine: a new data record holding the next bytes of
     * `bs` from `offset` on (at most `maxLength`, at most the file's
     * maximum, at most what is left) at `startAddress`, in gap `p` of the
     * index, put into the document behind the record the extension step
     * chose and into the index.
     */
    method CreateAndInsertNewLine(predecessor: Option<Id>, successor: Option<Id>, startAddress: int,
                                  bs: seq<byte>, offset: int, maxLength: int, ghost p: int) returns (line: Id)
      requires Valid()
      requires 0 <= p <= |sortedDataLines|
      requires predecessor == Lower(sortedDataLines, p) && successor == Upper(sortedDataLines, p)
      requires 0 < p ==> Segments()[p - 1].End() <= startAddress
      requires p < |sortedDataLines| ==> startAddress + maxLength <= Segments()[p].start
      requires 0 <= startAddress <= MaxReach(FirstExtensionKind(hf.store, hf.records))
      requires 1 <= maxLength && 1 <= hf.maximumLineByteCount && 0 <= offset < |bs|
      modifies this`sortedDataLines, this`hexlineIndex, hf`store, hf`records, hf`nextId
      ensures Valid()
      ensures LinePlaced(old(hf.store), old(hf.records), old(hf.nextId), hf.store, hf.records, hf.nextId,
                         predecessor, successor, startAddress, line)
      ensures hf.store[line].data == LineSlice(bs, offset, maxLength, old(hf.maximumLineByteCount) as int)
      ensures hf.store[line].length as int == |hf.store[line].data|
      ensures SegmentOf(hf.store, line) == Segment(startAddress, hf.store[line].data)
      ensures sortedDataLines == InsertAt(old(sortedDataLines), p, line)
      ensures Segments() == old(Segments())[..p]
                          + [Segment(startAddress, LineSlice(bs, offset, maxLength, old(hf.maximumLineByteCount) as int))]
                          + old(Segments())[p..]
      ensures FirstExtensionKind(hf.store, hf.records) == old(FirstExtensionKind(hf.store, hf.records))
    {
      var slice := LineSlice(bs, offset, maxLength, hf.maximumLineByteCount as int);
      ghost var store0, records0, nextId0 := hf.store, hf.records, hf.nextId;
      var address, addressExtension, anchor := ChooseExtension(predecessor, successor, startAddress, p);
      ghost var store1, records1, nextId1 := hf.store, hf.records, hf.nextId;
      var r := NewLine(address as int32, Data, slice, addressExtension);
      var at := PositionAfter(hf.records, anchor);
      line := InsertDataLine(at, r, startAddress, p);
      assert hf.store[line] == r;
      ChosenThenPlaced(store0, records0, nextId0, store1, records1, nextId1, hf.store, hf.records, hf.nextId,
                       predecessor, successor, startAddress, addressExtension, anchor, r);
    }

    /**
     * The end of createAndInsertNewLine: the new data record `r`, which
     * starts at `start` in gap `p` of the index, goes into the document at
     * `at` and into the index.
     */
    method InsertDataLine(at: int, r: HexFileLine, ghost start: int, ghost p: int) returns (line: Id)
      requires Valid() && 0 <= at <= |hf.records|
      requires r.kind == Data && 1 <= |r.data| && r.length as int == |r.data|
      requires 0 <= r.address <= ADDRESS_MAX
      requires r.addressExtension.Some? ==>
        r.addressExtension.value in hf.store && hf.store[r.addressExtension.value].kind.IsAddressExtension()
      requires start == (if r.addressExtension.Some? then Offset(hf.store, r.addressExtension.value) else 0) + r.address as int
      requires 0 <= p <= |sortedDataLines|
      requires 0 < p ==> Segments()[p - 1].End() <= start
      requires p < |sortedDataLines| ==> start + |r.data| <= Segments()[p].start
      modifies this`sortedDataLines, this`hexlineIndex, hf`store, hf`records, hf`nextId
      ensures Valid()
      ensures line == old(hf.nextId) && hf.nextId == line + 1
      ensures hf.store == old(hf.store)[line := r] && hf.records == InsertAt(old(hf.records), at, line)
      ensures SegmentOf(hf.store, line) == Segment(start, r.data)
      ensures sortedDataLines == InsertAt(old(sortedDataLines), p, line)
      ensures Segments() == old(Segments())[..p] + [Segment(start, r.data)] + old(Segments())[p..]
      ensures Extends(old(hf.store), hf.store)
      ensures FirstExtensionKind(hf.store, hf.records) == old(FirstExtensionKind(hf.store, hf.records))
    {
      ghost var st, rs, n := hf.store, hf.records, hf.nextId;
      ghost var segs := Segments();
      line := hf.AddRecord(at, r);
      assert hf.store == st[n := r] && hf.records == InsertAt(rs, at, n);
      AddNewDataLine(st, rs, n, sortedDataLines, hexlineIndex, at, r, start, p);
      AddLineToSortedList(line, p);
    }

    /**
     * The extension step of createAndInsertNewLine: the address of the new
     * data record is relative to the predecessor's extension when that
     * reaches the start, else to the successor's, else to a new extension
     * record put just behind the predecessor (at the head of the document
     * without one); `anchor` is the record the data record goes behind.
     */
    method ChooseExtension(predecessor: Option<Id>, successor: Option<Id>, startAddress: int, ghost p: int)
      returns (address: int, addressExtension: Option<Id>, anchor: Option<Id>)
      requires Valid()
      requires 0 <= p <= |sortedDataLines|
      requires predecessor == Lower(sortedDataLines, p) && successor == Upper(sortedDataLines, p)
      requires 0 < p ==> Segments()[p - 1].End() <= startAddress
      requires 0 <= startAddress <= MaxReach(FirstExtensionKind(hf.store, hf.records))
      modifies hf`store, hf`records, hf`nextId
      ensures Valid() && Segments() == old(Segments())
      ensures ExtensionChosen(old(hf.store), old(hf.records), old(hf.nextId), hf.store, hf.records, hf.nextId,
                              predecessor, successor, startAddress, addressExtension, anchor)
      ensures Extends(old(hf.store), hf.store)
      ensures FirstExtensionKind(hf.store, hf.records) == old(FirstExtensionKind(hf.store, hf.records))
      ensures 0 <= address <= ADDRESS_MAX
      ensures addressExtension.Some? ==>
        addressExtension.value in hf.store && hf.store[addressExtension.value].kind.IsAddressExtension()
      ensures startAddress == (if addressExtension.Some? then Offset(hf.store, addressExtension.value) else 0) + address
    {
      if predecessor.Some? {
        address, addressExtension, anchor := ChooseNearPredecessor(predecessor, successor, startAddress, p);
      } else {
        address, addressExtension, anchor := ChooseWithoutPredecessor(predecessor, successor, startAddress);
      }
    }

    /**
     * The extension step when the new data record has no predecessor: no
     * link for a start within 16 bits, else a new extension record at the
     * head of the document.
     */
    method ChooseWithoutPredecessor(predecessor: Option<Id>, successor: Option<Id>, startAddress: int)
      returns (address: int, addressExtension: Option<Id>, anchor: Option<Id>)
      requires Valid() && predecessor.None? && successor == Upper(sortedDataLines, 0)
      requires 0 <= startAddress <= MaxReach(FirstExtensionKind(hf.store, hf.records))
      modifies hf`store, hf`records, hf`nextId
      ensures Valid() && Segments() == old(Segments())
      ensures ExtensionChosen(old(hf.store), old(hf.records), old(hf.nextId), hf.store, hf.records, hf.nextId,
                              predecessor, successor, startAddress, addressExtension, anchor)
      ensures Extends(old(hf.store), hf.store)
      ensures FirstExtensionKind(hf.store, hf.records) == old(FirstExtensionKind(hf.store, hf.records))
      ensures 0 <= address <= ADDRESS_MAX
      ensures addressExtension.Some? ==>
        addressExtension.value in hf.store && hf.store[addressExtension.value].kind.IsAddressExtension()
      ensures startAddress == (if addressExtension.Some? then Offset(hf.store, addressExtension.value) else 0) + address
    {
      ghost var st, rs, n := hf.store, hf.records, hf.nextId;
      anchor := predecessor;
      if startAddress > ADDRESS_MAX {
        var extension := InsertNewExtension(0, startAddress);
        assert hf.store == st[n := CreateNewAddressExtension(st, rs, startAddress)];
        assert hf.records == InsertAt(rs, PositionAfter(rs, predecessor), n) && hf.nextId == n + 1;
        anchor := Some(extension);
        addressExtension := Some(extension);
        address := startAddress - Offset(hf.store, extension);
      } else {
        address := startAddress;
        addressExtension := None;
      }
      assert ExtensionChosen(st, rs, n, hf.store, hf.records, hf.nextId,
                             predecessor, successor, startAddress, addressExtension, anchor);
    }

    /** The extension step when the new data record has a predecessor in the index. */
    method ChooseNearPredecessor(predecessor: Option<Id>, successor: Option<Id>, startAddress: int, ghost p: int)
      returns (address: int, addressExtension: Option<Id>, anchor: Option<Id>)
      requires Valid() && predecessor.Some?
      requires 0 <= p <= |sortedDataLines|
      requires predecessor == Lower(sortedDataLines, p) && successor == Upper(sortedDataLines, p)
      requires 0 < p ==> Segments()[p - 1].End() <= startAddress
      requires 0 <= startAddress <= MaxReach(FirstExtensionKind(hf.store, hf.records))
      modifies hf`store, hf`records, hf`nextId
      ensures Valid() && Segments() == old(Segments())
      ensures ExtensionChosen(old(hf.store), old(hf.records), old(hf.nextId), hf.store, hf.records, hf.nextId,
                              predecessor, successor, startAddress, addressExtension, anchor)
      ensures Extends(old(hf.store), hf.store)
      ensures FirstExtensionKind(hf.store, hf.records) == old(FirstExtensionKind(hf.store, hf.records))
      ensures 0 <= address <= ADDRESS_MAX
      ensures addressExtension.Some? ==>
        addressExtension.value in hf.store && hf.store[addressExtension.value].kind.IsAddressExtension()
      ensures startAddress == (if addressExtension.Some? then Offset(hf.store, addressExtension.value) else 0) + address
    {
      anchor := predecessor;
      var pred := predecessor.value;
      StartAndOffset(hf.store, hf.records, hf.nextId, pred);
      if startAddress - Offset(hf.store, pred) > ADDRESS_MAX {
        if || successor.None?
           || startAddress - Offset(hf.store, successor.value) > ADDRESS_MAX
           || startAddress - Offset(hf.store, successor.value) < 0 {
          var extension := InsertNewExtension(PositionAfter(hf.records, predecessor), startAddress);
          addressExtension := Some(extension);
        } else {
          OffsetOfDataRecord(hf.store, hf.records, hf.nextId, successor.value);
          addressExtension := hf.store[successor.value].addressExtension;
        }
        anchor := addressExtension;
        address := startAddress - Offset(hf.store, addressExtension.value);
      } else {
        OffsetOfDataRecord(hf.store, hf.records, hf.nextId, pred);
        address := startAddress - Offset(hf.store, pred);
        addressExtension := hf.store[pred].addressExtension;
      }
    }

    /**
     * createNewAddressExtension and the insertion of its result into the
     * document at `at`: an extension record of the document's first
     * extension kind whose offset brings `startAddress` within 16 bits.
     */
    method InsertNewExtension(at: int, startAddress: int) returns (extension: Id)
      requires Valid() && 0 <= at <= |hf.records|
      requires 0 < startAddress <= MaxReach(FirstExtensionKind(hf.store, hf.records))
      modifies hf`store, hf`records, hf`nextId
      ensures Valid() && Segments() == old(Segments())
      ensures extension == old(hf.nextId) && hf.nextId == extension + 1
      ensures hf.store == old(hf.store)[extension := CreateNewAddressExtension(old(hf.store), old(hf.records), startAddress)]
      ensures hf.records == InsertAt(old(hf.records), at, extension)
      ensures Extends(old(hf.store), hf.store)
      ensures FirstExtensionKind(hf.store, hf.records) == old(FirstExtensionKind(hf.store, hf.records))
      ensures hf.store[extension].kind.IsAddressExtension()
      ensures 0 <= startAddress - Offset(hf.store, extension) <= ADDRESS_MAX
    {
      ghost var st, rs, n := hf.store, hf.records, hf.nextId;
      var line := CreateNewAddressExtension(hf.store, hf.records, startAddress);
      extension := hf.AddRecord(at, line);
      assert hf.store == st[n := line] && hf.records == InsertAt(rs, at, n);
      AddNewExtension(st, rs, n, sortedDataLines, hexlineIndex, at, startAddress);
    }

    /**
     * addLineToSortedList with addLineToIndexRanges: a new data record,
     * lying in gap `p` of the index, goes into the sorted list there and its
     * bounds into the range list; a record of another type is ignored.
     */
    method AddLineToSortedList(line: Id, ghost p: int)
      requires Pending(line)
      requires IsData(hf.store, line) ==>
        && 0 <= p <= |sortedDataLines|
        && (0 < p ==> Segments()[p - 1].End() <= Start(hf.store, line))
        && (p < |sortedDataLines| ==> SegmentOf(hf.store, line).End() <= Segments()[p].start)
      modifies this`sortedDataLines, this`hexlineIndex
      ensures Valid()
      ensures IsData(hf.store, line) ==> sortedDataLines == InsertAt(old(sortedDataLines), p, line)
      ensures IsData(hf.store, line) ==>
        Segments() == old(Segments())[..p] + [SegmentOf(hf.store, line)] + old(Segments())[p..]
      ensures !IsData(hf.store, line) ==> unchanged(this)
    {
      if hf.store[line].kind != Data {
        NothingPending(hf.store, hf.records, hf.nextId, sortedDataLines, hexlineIndex, line);
        return;
      }
      GapIsFree(Segments(), Start(hf.store, line), p);
      var r := GetNewIndexByLine(line);
      var sortedIndex := r.value;
      ghost var st := hf.store;
      ghost var placed := InsertAt(sortedDataLines, sortedIndex, line);
      ghost var ranges := hexlineIndex[..2 * sortedIndex] + [Start(st, line), Start(st, line) + st[line].length as int - 1]
                          + hexlineIndex[2 * sortedIndex..];
      PlacePending(st, hf.records, hf.nextId, sortedDataLines, hexlineIndex, line, p, sortedIndex);
      assert IndexInv(st, hf.records, hf.nextId, placed, ranges);
      sortedDataLines := InsertAt(sortedDataLines, sortedIndex, line);
      AddLineToIndexRanges(sortedIndex, line);
      assert hf.store == st && sortedDataLines == placed && hexlineIndex == ranges;
    }

    /**
     * addLineToIndexRanges: the first and last address of a record go into
     * the range list at twice its position in the sorted list.
     */
    method AddLineToIndexRanges(sortedIndex: int, line: Id)
      requires line in hf.store && 0 <= sortedIndex && 2 * sortedIndex <= |hexlineIndex|
      modifies this`hexlineIndex
      ensures var s := Start(hf.store, line);
        hexlineIndex == old(hexlineIndex)[..2 * sortedIndex] + [s, s + hf.store[line].length as int - 1]
                        + old(hexlineIndex)[2 * sortedIndex..]
    {
      var rangeIndex := sortedIndex * 2;
      var newLineStart := Start(hf.store, line);
      var newLineEnd := newLineStart + hf.store[line].length as int - 1;
      hexlineIndex := hexlineIndex[..rangeIndex] + [newLineStart, newLineEnd] + hexlineIndex[rangeIndex..];
    }
  }

  /**
   * HexFileIterator: walks the data bytes of a file, record by record in
   * the order of an index of its own, made when the iterator is, and byte
   * by byte within a record.
   */
  class HexFileIterator {
    const hf: IntelHexFile
    const hexFileIndex: HexLineIndex
    var lineIndex: int
    var byteIndex: int

    /** The records the iterator walks, as segments in index order. */
    ghost function Segs(): seq<Segment>
      reads hexFileIndex, hexFileIndex.hf`store
    {
      hexFileIndex.Segments()
    }

    /** The cursor: a position in the index and a byte position in that record. */
    ghost function Position(): Cursor
      reads this
    {
      Cursor(lineIndex, byteIndex)
    }

    ghost predicate Valid()
      reads this
    {
      hexFileIndex.hf == hf && 0 <= lineIndex && 0 <= byteIndex
    }

    /** new HexFileIterator(file): a fresh index of the file and a cursor at its first byte. */
    constructor (intelHexFile: IntelHexFile)
      ensures hf == intelHexFile && fresh(hexFileIndex) && Valid()
      ensures hexFileIndex.sortedDataLines == SortByStart(hf.store, DataIds(hf.store, hf.records))
      ensures Position() == Cursor(0, 0)
      ensures hf.Valid() && hf.Sound() ==> hexFileIndex.Valid()
    {
      hf := intelHexFile;
      hexFileIndex := new HexLineIndex(intelHexFile);
      lineIndex, byteIndex := 0, 0;
    }

    /** lineHasByteIndex: record `line` of the index exists and holds a byte at position `i`. */
    function LineHasByteIndex(line: int, i: int): (has: bool)
      reads hexFileIndex, hf`store
      requires hexFileIndex.hf == hf && 0 <= line && 0 <= i
      ensures has <==> HasByte(Segs(), Cursor(line, i))
    {
      line < |hexFileIndex.sortedDataLines| && i < |SegmentOf(hf.store, hexFileIndex.sortedDataLines[line]).data|
    }

    /**
     * hasNext: moves to the start of the next record when the cursor
     * points at no byte (once), then answers whether it points at one.
     * With no empty record ahead, the answer is whether any entry is to
     * come, and what is to come is unchanged.
     */
    method HasNext() returns (b: bool)
      requires Valid()
      modifies this`lineIndex, this`byteIndex
      ensures Valid() && Position() == Advance(Segs(), old(Position()))
      ensures b <==> HasByte(Segs(), Position())
      ensures Within(Segs(), old(Position())) && FilledAfter(Segs(), old(lineIndex)) ==>
        && Remaining(Segs(), Position()) == old(Remaining(Segs(), Position()))
        && (b <==> Remaining(Segs(), Position()) != [])
    {
      ghost var c := Position();
      if !LineHasByteIndex(lineIndex, byteIndex) {
        lineIndex := lineIndex + 1;
        byteIndex := 0;
      }
      b := LineHasByteIndex(lineIndex, byteIndex);
      if Within(Segs(), c) && FilledAfter(Segs(), c.line) {
        NextOfRemaining(Segs(), c);
      }
    }

    /**
     * next: the same single step as hasNext, then the entry at the cursor,
     * and the cursor moves one byte on.  With no empty record ahead, the
     * entry is the first to come and the others are still to come.
     */
    method Next() returns (e: Result<HexEntry, IteratorError>)
      requires Valid()
      modifies this`lineIndex, this`byteIndex
      ensures Valid()
      ensures var d := Advance(Segs(), old(Position()));
        if HasByte(Segs(), d) then
          && e.Ok? && fresh(e.value)
          && ByteEntry(e.value.key, e.value.value) == EntryAt(Segs(), d)
          && Position() == Cursor(d.line, d.index + 1)
        else e == Err(IndexOutOfBounds) && Position() == d
      ensures Within(Segs(), old(Position())) && FilledAfter(Segs(), old(lineIndex)) && e.Ok? ==>
        && old(Remaining(Segs(), Position())) != []
        && ByteEntry(e.value.key, e.value.value) == old(Remaining(Segs(), Position()))[0]
        && Remaining(Segs(), Position()) == old(Remaining(Segs(), Position()))[1..]
    {
      ghost var c := Position();
      if !LineHasByteIndex(lineIndex, byteIndex) {
        lineIndex := lineIndex + 1;
        byteIndex := 0;
      }
      e := CreateEntry();
      if e.Ok? {
        byteIndex := byteIndex + 1;
      }
      if Within(Segs(), c) && FilledAfter(Segs(), c.line) {
        NextOfRemaining(Segs(), c);
      }
    }

    /**
     * createEntry: the full start address of the record at the cursor plus
     * the byte position, with the byte there; out of bounds when the
     * cursor points at no byte.
     */
    method CreateEntry() returns (e: Result<HexEntry, IteratorError>)
      requires Valid()
      ensures HasByte(Segs(), Position()) ==>
        e.Ok? && fresh(e.value) && ByteEntry(e.value.key, e.value.value) == EntryAt(Segs(), Position())
      ensures !HasByte(Segs(), Position()) ==> e == Err(IndexOutOfBounds)
    {
      if lineIndex >= |hexFileIndex.sortedDataLines| {
        return Err(IndexOutOfBounds);
      }
      var r := SegmentOf(hf.store, hexFileIndex.sortedDataLines[lineIndex]);
      var address := r.start + byteIndex;
      if byteIndex >= |r.data| {
        return Err(IndexOutOfBounds);
      }
      var entry := new HexEntry(address, r.data[byteIndex]);
      return Ok(entry);
    }
  }

  /** The entry next returns: an address and a copy of the byte there. */
  class HexEntry {
    const key: int
    var value: byte

    constructor (address: int, v: byte)
      ensures key == address && value == v
    {
      key := address;
      value := v;
    }

    /**
     * setValue: changes the entry's own copy and nothing else (the
     * record's data stays as it is); returns the new value.
     */
    method SetValue(v: byte) returns (r: byte)
      modifies this`value
      ensures value == v && r == v
    {
      value := v;
      r := value;
    }
  }
}
