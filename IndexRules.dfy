/**
 * The calculations HexLineIndex makes while it fills a gap of the
 * address space: the neighbours of the gap, how many bytes fit into it,
 * how many records the bytes need, whether a new extension record has to
 * be made and what that record holds.
 */
module IndexRules {
  import opened Wrappers
  import opened ByteUtils
  import opened RecordTypes
  import opened AddressExtensionUtils
  import opened HexFileLines
  import opened IndexLayout
  import opened Documents
  import opened DocumentEdits

  /** Long.MAX_VALUE, the gap size when no record follows the gap. */
  const LONG_MAX: int := TWO_TO_63 - 1

  /** The indexed record just below the gap at position `p`, if any. */
  function Lower(sorted: seq<Id>, p: int): Option<Id>
    requires 0 <= p <= |sorted|
  {
    if p > 0 then Some(sorted[p - 1]) else None
  }

  /** The indexed record just above the gap at position `p`, if any. */
  function Upper(sorted: seq<Id>, p: int): Option<Id>
    requires 0 <= p <= |sorted|
  {
    if p < |sorted| then Some(sorted[p]) else None
  }

  /**
   * Once a record is inserted into gap `p`, the gap just above it has the
   * new record below and the old upper neighbour above.
   */
  lemma NeighboursAfterInsert(sorted: seq<Id>, p: int, x: Id)
    requires 0 <= p <= |sorted|
    ensures Lower(InsertAt(sorted, p, x), p + 1) == Some(x)
    ensures Upper(InsertAt(sorted, p, x), p + 1) == Upper(sorted, p)
  {
    if p < |sorted| {
      assert InsertAt(sorted, p, x)[p + 1] == sorted[p];
    }
  }

  /** The end a record's length field gives: full start address plus length. */
  function LengthEnd(store: Store, id: Id): int
  {
    Start(store, id) + (if id in store then store[id].length as int else 0)
  }

  /**
   * HexLineIndex.determineGapSize, as its @return describes it: the
   * number of addresses from `address` (or from the end of the lower
   * record, if that lies further up) to the start of the upper record;
   * Long.MAX_VALUE when there is no upper record.
   */
  function DetermineGapSize(store: Store, address: int, lower: Option<Id>, upper: Option<Id>): (gap: int)
    ensures upper.None? ==> gap == LONG_MAX
    ensures upper.Some? ==> gap <= Start(store, upper.value) - address
  {
    if upper.None? then LONG_MAX
    else if lower.None? then Start(store, upper.value) - address
    else
      var lowerEnd := LengthEnd(store, lower.value);
      Start(store, upper.value) - (if lowerEnd >= address then lowerEnd else address)
  }

  /**
   * HexLineIndex.determineGapSize as the source writes it: with no lower
   * record the gap is the full start address of the upper record, however
   * far `address` already lies above 0.
   */
  function DetermineGapSizeAsWritten(store: Store, address: int, lower: Option<Id>, upper: Option<Id>): (gap: int)
    ensures lower.Some? || upper.None? ==> gap == DetermineGapSize(store, address, lower, upper)
    ensures lower.None? && upper.Some? ==> gap == DetermineGapSize(store, address, lower, upper) + address
  {
    if upper.None? then LONG_MAX
    else if lower.None? then Start(store, upper.value)
    else
      var lowerEnd := LengthEnd(store, lower.value);
      Start(store, upper.value) - (if lowerEnd >= address then lowerEnd else address)
  }

  /**
   * The gap at position `p` of an ordered index: its size is the room up to
   * the next record, and no indexed record holds an address in that room.
   */
  lemma GapSizeIsRoom(store: Store, sorted: seq<Id>, p: int, address: int)
    requires DataSound(store)
    requires forall k :: 0 <= k < |sorted| ==> IsData(store, sorted[k])
    requires Ordered(Layout(store, sorted))
    requires 0 <= p <= |sorted|
    requires 0 < p ==> Layout(store, sorted)[p - 1].End() <= address
    requires p < |sorted| ==> address <= Layout(store, sorted)[p].start
    ensures p < |sorted| ==> DetermineGapSize(store, address, Lower(sorted, p), Upper(sorted, p))
                             == Layout(store, sorted)[p].start - address
    ensures p == |sorted| ==> DetermineGapSize(store, address, Lower(sorted, p), Upper(sorted, p)) == LONG_MAX
    ensures var gap := DetermineGapSize(store, address, Lower(sorted, p), Upper(sorted, p));
      forall a, k :: address <= a < address + gap && 0 <= k < |sorted| ==> !Layout(store, sorted)[k].Contains(a)
  {
    var l := Layout(store, sorted);
    if 0 < p {
      assert LengthEnd(store, sorted[p - 1]) == l[p - 1].End();
    }
    var gap := DetermineGapSize(store, address, Lower(sorted, p), Upper(sorted, p));
    forall a, k | address <= a < address + gap && 0 <= k < |sorted|
      ensures !l[k].Contains(a)
    {
      if k < p - 1 {
        assert Entry(l, k).End() <= Entry(l, p - 1).start;
      } else if p < k {
        assert Entry(l, p).End() <= Entry(l, k).start;
      }
    }
  }

  /**
   * Right after a record whose length field agrees with its data, the gap
   * determineGapSize finds reaches exactly to the next indexed record.
   */
  lemma GapAboveRecord(store: Store, sorted: seq<Id>, q: int, end: int)
    requires 0 < q <= |sorted| && Ordered(Layout(store, sorted))
    requires sorted[q - 1] in store && store[sorted[q - 1]].length as int == |store[sorted[q - 1]].data|
    requires Layout(store, sorted)[q - 1].End() == end
    ensures q < |sorted| ==> DetermineGapSize(store, end, Lower(sorted, q), Upper(sorted, q))
                             == Layout(store, sorted)[q].start - end >= 0
    ensures q == |sorted| ==> DetermineGapSize(store, end, Lower(sorted, q), Upper(sorted, q)) == LONG_MAX
  {
    var l := Layout(store, sorted);
    assert LengthEnd(store, sorted[q - 1]) == l[q - 1].End();
    if q < |sorted| {
      assert Entry(l, q - 1).End() <= Entry(l, q).start;
    }
  }

  /**
   * The gap left above a record just inserted into gap `p` of `sorted0`,
   * which ends at `end`: it lies between that record and the old upper
   * neighbour, and `room` bytes fit into it when `room` is no more than
   * the gap determineGapSize finds there.
   */
  lemma GapAfterInsert(store: Store, sorted0: seq<Id>, sorted: seq<Id>, p: int, q: int, line: Id, end: int,
                       upper: Option<Id>, room: int)
    requires Ordered(Layout(store, sorted)) && 0 <= p <= |sorted0| && sorted == InsertAt(sorted0, p, line) && q == p + 1
    requires line in store && store[line].length as int == |store[line].data| && SegmentOf(store, line).End() == end
    requires upper == Upper(sorted0, p)
    ensures q <= |sorted| && Lower(sorted, q) == Some(line) && upper == Upper(sorted, q)
    ensures 0 <= DetermineGapSize(store, end, Some(line), upper)
    ensures Layout(store, sorted)[q - 1].End() <= end
    ensures room <= DetermineGapSize(store, end, Some(line), upper) && q < |sorted|
            ==> end + room <= Layout(store, sorted)[q].start
  {
    NeighboursAfterInsert(sorted0, p, line);
    assert sorted[p] == line;
    GapAboveRecord(store, sorted, q, end);
  }

  /**
   * The first gap createLineInGap writes into: with the records around
   * gap `p` below and strictly above `address`, determineGapSize finds
   * room for at least one byte, and `room` bytes up to that size fit.
   */
  lemma RoomAtStart(store: Store, sorted: seq<Id>, p: int, address: int, room: int)
    requires DataSound(store)
    requires forall k :: 0 <= k < |sorted| ==> IsData(store, sorted[k])
    requires Ordered(Layout(store, sorted))
    requires 0 <= p <= |sorted|
    requires 0 < p ==> Layout(store, sorted)[p - 1].End() <= address
    requires p < |sorted| ==> address < Layout(store, sorted)[p].start
    ensures 1 <= DetermineGapSize(store, address, Lower(sorted, p), Upper(sorted, p))
    ensures room <= DetermineGapSize(store, address, Lower(sorted, p), Upper(sorted, p)) && p < |sorted|
            ==> address + room <= Layout(store, sorted)[p].start
  {
    GapSizeIsRoom(store, sorted, p, address);
  }

  /** The record of the overshoot example: 16 bytes at address 0x10, no extension. */
  const OVERSHOOT_STORE: Store := map[0 := NewLine(0x10, Data, seq(16, _ => 0xAA), None)]

  /**
   * Writing 16 bytes at address 8 below a 16-byte record at 0x10: the
   * gap the source computes is 16, so the first new record would cover
   * 8..0x17 and overlap the record at 0x10, and the index's bound list
   * would no longer be sorted; the documented gap is 8 and leaves the
   * record alone.
   */
  lemma GapOvershootAsWritten()
    ensures DetermineGapSizeAsWritten(OVERSHOOT_STORE, 8, None, Some(0)) == 16
    ensures var written := Segment(8, seq(16, _ => 0x55));
      && !Apart(written, SegmentOf(OVERSHOOT_STORE, 0))
      && !Sorted(Bounds([written, SegmentOf(OVERSHOOT_STORE, 0)]))
    ensures DetermineGapSize(OVERSHOOT_STORE, 8, None, Some(0)) == 8
    ensures Apart(Segment(8, seq(8, _ => 0x55)), SegmentOf(OVERSHOOT_STORE, 0))
  {
    var r := NewLine(0x10, Data, seq(16, _ => 0xAA), None);
    assert OVERSHOOT_STORE[0] == r;
    assert Start(OVERSHOOT_STORE, 0) == 0x10;
    var b := Bounds([Segment(8, seq(16, _ => 0x55)), SegmentOf(OVERSHOOT_STORE, 0)]);
    assert b[1] == 23 && b[2] == 16;
  }

  /**
   * Where the two gap sizes part: createLineInGap writes
   * min(room, gap) bytes into its first gap, and the source's gap gives the
   * same count as the documented one exactly when there is a lower record,
   * there is no upper one, writing starts at address 0, or the bytes left
   * fit below the upper record anyway. Every later gap has a lower record.
   */
  lemma FirstLengthAsWritten(store: Store, address: int, lower: Option<Id>, upper: Option<Id>, room: int)
    requires 0 <= address
    ensures Min(room, DetermineGapSizeAsWritten(store, address, lower, upper))
            == Min(room, DetermineGapSize(store, address, lower, upper))
            <==> lower.Some? || upper.None? || address == 0 || room <= DetermineGapSize(store, address, lower, upper)
  {
  }

  /**
   * HexLineIndex.determineNumberOfLines: how many records of at most
   * `maximum` bytes hold `length` bytes (Java's truncating division and
   * remainder).
   */
  function DetermineNumberOfLines(length: int, maximum: int16): (n: int)
    requires maximum != 0
    ensures 0 <= length && 0 < maximum ==> (0 < n <==> 0 < length) && n <= length
  {
    QuotientBounds(length, maximum as int);
    if JavaRem(length, maximum) == 0 then JavaDiv(length, maximum)
    else JavaDiv(length, maximum) + 1
  }

  /** Bounds on the quotient and remainder of a non-negative `length` by a positive `m`. */
  lemma QuotientBounds(length: int, m: int)
    ensures 0 <= length && 0 < m ==> length / m <= length
    ensures 0 <= length && 0 < m && length % m == 0 ==> (0 < length / m <==> 0 < length)
    ensures 0 <= length && 0 < m && length % m != 0 ==> 0 < length && length / m + 1 <= length
  {
    if 0 <= length && 0 < m {
      var q, r := length / m, length % m;
      assert length == m * q + r && 0 <= r < m;
      assert 0 <= q;
      ProductAtLeast(m, q);
    }
  }

  lemma ProductAtLeast(m: int, q: int)
    requires 1 <= m && 0 <= q
    ensures q <= m * q
    ensures 0 < q ==> 0 < m * q
  {
    assert m * q == q + (m - 1) * q;
  }

  /**
   * The records determineNumberOfLines counts are just enough: one fewer
   * would hold less than `length` bytes, and that many hold all of them.
   */
  lemma NumberOfLinesFits(length: int, maximum: int16)
    requires 0 < length && 0 < maximum
    ensures (DetermineNumberOfLines(length, maximum) - 1) * maximum as int < length
    ensures length <= DetermineNumberOfLines(length, maximum) * maximum as int
  {
  }

  /**
   * The bytes createAndInsertNewLine puts into its new record: those of `bs`
   * from `offset` on, but no more than `maxLength` and no more than the
   * record size limit `maximum`.
   */
  function LineSlice(bs: seq<byte>, offset: int, maxLength: int, maximum: int): (s: seq<byte>)
    requires 0 <= offset < |bs| && 1 <= maxLength && 1 <= maximum
    ensures 1 <= |s| <= maxLength && |s| <= maximum && offset + |s| <= |bs|
    ensures |s| == maxLength || |s| == maximum || offset + |s| == |bs|
    ensures s == bs[offset..offset + |s|]
  {
    bs[offset..offset + Min(Min(maxLength, maximum), |bs| - offset)]
  }

  /**
   * The source's rule for making a new extension record for a data record
   * starting at `start`: with no predecessor, when the start is beyond 16
   * bits; otherwise when the start is beyond the predecessor's extension
   * and the successor's extension does not reach it either.
   */
  predicate NeedsNewExtension(store: Store, predecessor: Option<Id>, successor: Option<Id>, start: int)
  {
    if predecessor.None? then start > ADDRESS_MAX
    else
      && start - Offset(store, predecessor.value) > ADDRESS_MAX
      && (|| successor.None?
          || start - Offset(store, successor.value) > ADDRESS_MAX
          || start - Offset(store, successor.value) < 0)
  }

  /**
   * HexLineIndex.createNewAddressExtension: an extension record of the
   * document's first extension kind, at address 0 and without a link,
   * whose two payload bytes give an offset that brings `start` within the
   * 16-bit address of a record.
   */
  function CreateNewAddressExtension(store: Store, records: seq<Id>, start: int): (r: HexFileLine)
    requires 0 < start <= MaxReach(FirstExtensionKind(store, records))
    ensures r.kind == FirstExtensionKind(store, records) && r.kind.IsAddressExtension()
    ensures r.address == 0 && r.addressExtension.None? && |r.data| == 2
    ensures IsMetadataValid(r)
    ensures ExtensionOffset(r.kind, r.data).Ok?
    ensures 0 <= start - ExtensionOffset(r.kind, r.data).value <= ADDRESS_MAX
  {
    var t := FirstExtensionKind(store, records);
    NewExtensionCoversAddress(t, start);
    var offset := ExtensionOffsetFromFullAddress(t, start).value;
    NewLine(0, t, ShortToByteArray(ToInt16(offset)), None)
  }

  /**
   * The position just behind a record of the document, or the head of the
   * document when there is none (List.indexOf(null) is -1).
   */
  function PositionAfter(records: seq<Id>, anchor: Option<Id>): (at: int)
    ensures 0 <= at <= |records|
    ensures anchor.Some? && anchor.value in records ==> at > 0 && records[at - 1] == anchor.value
    ensures anchor.None? ==> at == 0
  {
    (if anchor.None? then -1 else IndexOf(records, anchor.value)) + 1
  }

  /**
   * The extension record a new data record is linked to when no new one is
   * made: the successor's, when the start lies beyond the predecessor's
   * reach, otherwise the predecessor's own link; none without a
   * predecessor.
   */
  function ReusedExtension(store: Store, predecessor: Option<Id>, successor: Option<Id>, start: int): Option<Id>
  {
    if predecessor.None? then None
    else if start - Offset(store, predecessor.value) > ADDRESS_MAX then
      (if successor.Some? && successor.value in store then store[successor.value].addressExtension else None)
    else if predecessor.value in store then store[predecessor.value].addressExtension
    else None
  }

  /**
   * The record a new data record is placed behind when no new extension
   * record is made: the reused extension record when the start lies beyond
   * the predecessor's reach, otherwise the predecessor.
   */
  function ReuseAnchor(store: Store, predecessor: Option<Id>, successor: Option<Id>, start: int): Option<Id>
  {
    if predecessor.Some? && start - Offset(store, predecessor.value) > ADDRESS_MAX
    then ReusedExtension(store, predecessor, successor, start)
    else predecessor
  }

  /**
   * The extension step of createAndInsertNewLine, taking the document
   * (`before`, `order`, `next`) to (`after`, `order2`, `next2`): a new
   * extension record is made exactly when one is needed and goes just
   * behind the predecessor (at the head without one), and the new data
   * record is to be linked to `extension` and placed just behind
   * `anchor`, the new extension record or the reused anchor.
   */
  ghost predicate ExtensionChosen(before: Store, order: seq<Id>, next: Id, after: Store, order2: seq<Id>, next2: Id,
                                  predecessor: Option<Id>, successor: Option<Id>, start: int,
                                  extension: Option<Id>, anchor: Option<Id>)
  {
    if NeedsNewExtension(before, predecessor, successor, start) then
      && 0 < start <= MaxReach(FirstExtensionKind(before, order))
      && next2 == next + 1
      && after == before[next := CreateNewAddressExtension(before, order, start)]
      && order2 == InsertAt(order, PositionAfter(order, predecessor), next)
      && extension == Some(next) && anchor == Some(next)
    else
      && next2 == next && after == before && order2 == order
      && extension == ReusedExtension(before, predecessor, successor, start)
      && anchor == ReuseAnchor(before, predecessor, successor, start)
  }

  /**
   * What createAndInsertNewLine does to the document: with a new
   * extension record, that record and then the new data record `line`
   * go just behind the predecessor (at the head without one), the data
   * record linked to the extension record; otherwise only the data record
   * is added, linked to the reused extension and just behind the reused
   * anchor.
   */
  ghost predicate LinePlaced(before: Store, order: seq<Id>, next: Id, after: Store, order2: seq<Id>, next2: Id,
                             predecessor: Option<Id>, successor: Option<Id>, start: int, line: Id)
  {
    && line in after && line == next2 - 1
    && if NeedsNewExtension(before, predecessor, successor, start) then
      && 0 < start <= MaxReach(FirstExtensionKind(before, order))
      && next2 == next + 2
      && after == before[next := CreateNewAddressExtension(before, order, start)][line := after[line]]
      && order2 == InsertAt(InsertAt(order, PositionAfter(order, predecessor), next), PositionAfter(order, predecessor) + 1, line)
      && after[line].addressExtension == Some(next)
    else
      && next2 == next + 1
      && after == before[line := after[line]]
      && order2 == InsertAt(order, PositionAfter(order, ReuseAnchor(before, predecessor, successor, start)), line)
      && after[line].addressExtension == ReusedExtension(before, predecessor, successor, start)
  }
}
