/**
 * What HexLineIndex keeps true of its two lists (the data records sorted
 * by full start address, and the flat list of their first and last
 * addresses) and how each change the library makes to a document carries
 * that over: building the index, adding a record to the document,
 * splicing a new data record into a gap of the index, and overwriting
 * the bytes of an indexed record.
 */
module IndexState {
  import opened Wrappers
  import opened ByteUtils
  import opened RecordTypes
  import opened AddressExtensionUtils
  import opened HexFileLines
  import opened IndexLayout
  import opened Documents
  import opened IndexRules
  import opened DocumentEdits

  /**
   * An index of a valid, sound document: exactly its data records, ordered
   * without overlap, and the range list their bounds.
   */
  predicate IndexInv(store: Store, records: seq<Id>, nextId: Id, sorted: seq<Id>, ranges: seq<int>)
  {
    && DocValid(store, records, nextId)
    && DataSound(store)
    && (forall k :: 0 <= k < |sorted| ==> IsData(store, sorted[k]))
    && SameRecords(sorted, DataIds(store, records))
    && Ordered(Layout(store, sorted))
    && ranges == Ranges(store, sorted)
  }

  /**
   * The same, while the record `x` has already been added to the document
   * but, if it is a data record, not yet to the index.
   */
  ghost predicate IndexInvExcept(store: Store, records: seq<Id>, nextId: Id, sorted: seq<Id>, ranges: seq<int>, x: Id)
  {
    && DocValid(store, records, nextId)
    && DataSound(store)
    && (forall k :: 0 <= k < |sorted| ==> IsData(store, sorted[k]))
    && Distinct(sorted)
    && x in store && x !in sorted
    && (forall id :: id in DataIds(store, records) <==> id in sorted || (id == x && IsData(store, x)))
    && Ordered(Layout(store, sorted))
    && ranges == Ranges(store, sorted)
  }

  /**
   * What an index tells about its document: the data records do not
   * overlap, the range list is sorted (so binary search applies), and the
   * index defines exactly the bytes the document defines.
   */
  lemma IndexView(store: Store, records: seq<Id>, nextId: Id, sorted: seq<Id>, ranges: seq<int>)
    requires IndexInv(store, records, nextId, sorted, ranges)
    ensures DataDisjoint(store, records)
    ensures ranges == Bounds(Layout(store, sorted)) && Sorted(ranges)
    ensures forall a :: DataByteAt(store, records, a) == ByteAt(Layout(store, sorted), a)
  {
    var d := DataIds(store, records);
    OrderedIsDisjoint(Layout(store, sorted));
    DisjointReordered(store, sorted, d);
    RangesAreBounds(store, sorted);
    BoundsSorted(Layout(store, sorted));
    forall a
      ensures DataByteAt(store, records, a) == ByteAt(Layout(store, sorted), a)
    {
      ByteAtReordered(store, sorted, d, a);
    }
  }

  /**
   * HexLineIndex.setupIndex on a sound document (data records that hold
   * their length in bytes, at least one, and do not overlap) gives an index
   * in the sense of IndexInv.
   */
  lemma BuiltIndexValid(store: Store, records: seq<Id>, nextId: Id)
    requires DocValid(store, records, nextId) && DataSound(store) && DataDisjoint(store, records)
    ensures var sorted := SortByStart(store, DataIds(store, records));
      IndexInv(store, records, nextId, sorted, Ranges(store, sorted))
  {
    var d := DataIds(store, records);
    var sorted := SortByStart(store, d);
    PermutationSameRecords(d, sorted);
    forall k | 0 <= k < |sorted|
      ensures IsData(store, sorted[k])
    {
      assert sorted[k] in multiset(sorted);
    }
    DisjointReordered(store, d, sorted);
    SortByStartSorted(store, d);
    SortedDisjointIsOrdered(store, sorted);
  }

  /** A pending record that is no data record leaves a complete index. */
  lemma NothingPending(store: Store, records: seq<Id>, nextId: Id, sorted: seq<Id>, ranges: seq<int>, x: Id)
    requires IndexInvExcept(store, records, nextId, sorted, ranges, x) && !IsData(store, x)
    ensures IndexInv(store, records, nextId, sorted, ranges)
  {
  }

  /**
   * Adding a record that is no data record to the document (a new
   * extension record) keeps the index as it is.
   */
  lemma AddOtherRecord(store: Store, records: seq<Id>, nextId: Id, sorted: seq<Id>, ranges: seq<int>,
                       at: int, r: HexFileLine)
    requires IndexInv(store, records, nextId, sorted, ranges)
    requires 0 <= at <= |records| && r.kind != Data
    requires 0 <= r.address <= ADDRESS_MAX
    requires r.addressExtension.Some? ==>
      r.addressExtension.value in store && store[r.addressExtension.value].kind.IsAddressExtension()
    ensures IndexInv(store[nextId := r], InsertAt(records, at, nextId), nextId + 1, sorted, ranges)
    ensures Layout(store[nextId := r], sorted) == Layout(store, sorted)
  {
    var bigger := store[nextId := r];
    InsertRecordValid(store, records, nextId, at, r);
    ExtendsKeepsLayout(store, records, nextId, bigger, sorted);
    AddKeepsDataIds(store, records, nextId, sorted, at, r);
    assert DataSound(bigger);
    assert Ordered(Layout(bigger, sorted));
  }

  /** A new record that is no data record leaves the data records as they were. */
  lemma AddKeepsDataIds(store: Store, records: seq<Id>, nextId: Id, sorted: seq<Id>, at: int, r: HexFileLine)
    requires DocValid(store, records, nextId) && 0 <= at <= |records| && r.kind != Data
    requires DocValid(store[nextId := r], InsertAt(records, at, nextId), nextId + 1)
    requires SameRecords(sorted, DataIds(store, records))
    ensures SameRecords(sorted, DataIds(store[nextId := r], InsertAt(records, at, nextId)))
  {
    DataIdsInsert(store, records, nextId, at, r);
  }

  /**
   * Adding a data record to the document: the index is complete but for
   * that record.
   */
  lemma AddDataRecord(store: Store, records: seq<Id>, nextId: Id, sorted: seq<Id>, ranges: seq<int>,
                      at: int, r: HexFileLine)
    requires IndexInv(store, records, nextId, sorted, ranges)
    requires 0 <= at <= |records| && r.kind == Data && r.length as int == |r.data| >= 1
    requires 0 <= r.address <= ADDRESS_MAX
    requires r.addressExtension.Some? ==>
      r.addressExtension.value in store && store[r.addressExtension.value].kind.IsAddressExtension()
    ensures IndexInvExcept(store[nextId := r], InsertAt(records, at, nextId), nextId + 1, sorted, ranges, nextId)
    ensures Layout(store[nextId := r], sorted) == Layout(store, sorted)
  {
    var bigger := store[nextId := r];
    InsertRecordValid(store, records, nextId, at, r);
    ExtendsKeepsLayout(store, records, nextId, bigger, sorted);
    DataIdsInsert(store, records, nextId, at, r);
    assert nextId !in sorted;
    assert DataSound(bigger);
    assert Ordered(Layout(bigger, sorted));
  }

  /**
   * HexLineIndex.addLineToSortedList and addLineToIndexRanges: the pending
   * data record goes into the sorted list at the position of its gap and
   * its first and last address into the range list at twice that
   * position; the index is complete again.
   */
  lemma InsertPending(store: Store, records: seq<Id>, nextId: Id, sorted: seq<Id>, ranges: seq<int>, x: Id, p: int)
    requires IndexInvExcept(store, records, nextId, sorted, ranges, x) && IsData(store, x)
    requires 0 <= p <= |sorted|
    requires 0 < p ==> Layout(store, sorted)[p - 1].End() <= Start(store, x)
    requires p < |sorted| ==> SegmentOf(store, x).End() <= Layout(store, sorted)[p].start
    ensures var s := Start(store, x);
      IndexInv(store, records, nextId, InsertAt(sorted, p, x),
               ranges[..2 * p] + [s, s + store[x].length as int - 1] + ranges[2 * p..])
    ensures Layout(store, InsertAt(sorted, p, x))
         == Layout(store, sorted)[..p] + [SegmentOf(store, x)] + Layout(store, sorted)[p..]
  {
    var l := Layout(store, sorted);
    var t := InsertAt(sorted, p, x);
    LayoutInsert(store, sorted, p, x);
    InsertOrdered(l, p, SegmentOf(store, x));
    DistinctInsert(sorted, p, x);
    InsertedAreData(store, sorted, p, x);
    InsertedRanges(store, sorted, p, x);
  }

  /** Inserting a data record into a list of data records gives data records. */
  lemma InsertedAreData(store: Store, sorted: seq<Id>, p: int, x: Id)
    requires 0 <= p <= |sorted| && IsData(store, x)
    requires forall k :: 0 <= k < |sorted| ==> IsData(store, sorted[k])
    ensures forall k :: 0 <= k < |InsertAt(sorted, p, x)| ==> IsData(store, InsertAt(sorted, p, x)[k])
  {
    var t := InsertAt(sorted, p, x);
    forall k | 0 <= k < |t|
      ensures IsData(store, t[k])
    {
      InsertIndex(sorted, p, x, k);
    }
  }

  /** The range list of the longer list has the new record's first and last address at twice its position. */
  lemma InsertedRanges(store: Store, sorted: seq<Id>, p: int, x: Id)
    requires 0 <= p <= |sorted| && IsData(store, x) && DataSound(store)
    requires forall k :: 0 <= k < |sorted| ==> IsData(store, sorted[k])
    ensures var s := Start(store, x); var r := Ranges(store, sorted);
      Ranges(store, InsertAt(sorted, p, x)) == r[..2 * p] + [s, s + store[x].length as int - 1] + r[2 * p..]
  {
    var t := InsertAt(sorted, p, x);
    InsertedAreData(store, sorted, p, x);
    LayoutInsert(store, sorted, p, x);
    RangesAreBounds(store, sorted);
    RangesAreBounds(store, t);
    InsertBounds(Layout(store, sorted), p, SegmentOf(store, x));
  }

  /**
   * HexFileLine.updateBytes on an indexed record: same start, same length,
   * new bytes.  The index stays complete, and in its layout only that
   * record's bytes change.
   */
  lemma UpdateIndexed(store: Store, records: seq<Id>, nextId: Id, sorted: seq<Id>, ranges: seq<int>,
                      k: int, data: seq<byte>)
    requires IndexInv(store, records, nextId, sorted, ranges)
    requires 0 <= k < |sorted| && |data| == |store[sorted[k]].data|
    ensures IndexInv(store[sorted[k] := store[sorted[k]].(data := data)], records, nextId, sorted, ranges)
    ensures Layout(store[sorted[k] := store[sorted[k]].(data := data)], sorted)
         == Layout(store, sorted)[k := Segment(Layout(store, sorted)[k].start, data)]
    ensures FirstExtensionKind(store[sorted[k] := store[sorted[k]].(data := data)], records)
         == FirstExtensionKind(store, records)
  {
    var id := sorted[k];
    var updated := store[id := store[id].(data := data)];
    UpdateDataRecord(store, records, nextId, id, data);
    UpdateKeepsRanges(store, id, data, sorted);
    UpdateLayout(store, id, data, sorted, k);
    UpdateKeepsShape(Layout(store, sorted), k, data);
    FirstKindUpdate(store, updated, records);
  }

  /** The first extension kind depends on record kinds only. */
  lemma {:induction false} FirstKindUpdate(store: Store, other: Store, records: seq<Id>)
    requires forall id :: id in store <==> id in other
    requires forall id :: id in store ==> other[id].kind == store[id].kind
    ensures FirstExtensionKind(other, records) == FirstExtensionKind(store, records)
  {
    if |records| > 0 {
      FirstKindUpdate(store, other, records[1..]);
    }
  }

  /**
   * An address in the gap before segment `p` of an ordered layout has
   * insertion point `2 * p` in the bound list.
   */
  lemma GapIsInsertionPoint(segs: seq<Segment>, key: int, p: int)
    requires Ordered(segs) && 0 <= p <= |segs|
    requires 0 < p ==> segs[p - 1].End() <= key
    requires p < |segs| ==> key < segs[p].start
    ensures IsInsertionPoint(Bounds(segs), key, 2 * p)
  {
    var b := Bounds(segs);
    forall i | 0 <= i < |b|
      ensures (b[i] < key <==> i < 2 * p) && b[i] != key
    {
      var k := i / 2;
      assert i < 2 * p <==> k < p;
      assert segs[k].start <= b[i] < segs[k].End();
      if k < p - 1 {
        assert Entry(segs, k).End() <= Entry(segs, p - 1).start;
      } else if p < k {
        assert Entry(segs, p).End() <= Entry(segs, k).start;
      }
    }
  }

  /** A key has only one insertion point. */
  lemma InsertionPointUnique(a: seq<int>, key: int, i: int, j: int)
    requires 0 <= i <= |a| && 0 <= j <= |a|
    requires forall k :: 0 <= k < |a| ==> (a[k] < key <==> k < i)
    requires forall k :: 0 <= k < |a| ==> (a[k] < key <==> k < j)
    ensures i == j
  {
    if j < |a| {
      assert a[j] < key <==> j < i;
    }
    if i < |a| {
      assert a[i] < key <==> i < j;
    }
  }

  /**
   * The bytes written into a gap so far: the layout `s` holds the bytes of
   * `bs` from `offset` on at the addresses `address` to `address + n`,
   * which the layout `s0` left undefined, and the bytes of `s0` everywhere
   * else.
   */
  ghost predicate GapFilled(s0: seq<Segment>, s: seq<Segment>, address: int, n: int, bs: seq<byte>, offset: int)
    requires 0 <= offset && 0 <= n && offset + n <= |bs|
  {
    forall a :: FilledAt(s0, s, address, n, bs, offset, a)
  }

  /** `GapFilled` at the single address `a`. */
  ghost predicate FilledAt(s0: seq<Segment>, s: seq<Segment>, address: int, n: int, bs: seq<byte>, offset: int, a: int)
    requires 0 <= offset && 0 <= n && offset + n <= |bs|
  {
    if address <= a < address + n then ByteAt(s0, a).None? && ByteAt(s, a) == Some(bs[offset + a - address])
    else ByteAt(s, a) == ByteAt(s0, a)
  }

  /** Before anything is written, a gap is filled for no bytes. */
  lemma NothingFilledYet(s0: seq<Segment>, address: int, bs: seq<byte>, offset: int)
    requires 0 <= offset <= |bs|
    ensures GapFilled(s0, s0, address, 0, bs, offset)
  {
    forall a
      ensures FilledAt(s0, s0, address, 0, bs, offset, a)
    {
    }
  }

  /**
   * One round of filling a gap: a segment holding the next bytes of `bs`,
   * placed right behind the bytes written so far and before the next
   * segment, extends what has been written by its length.
   */
  lemma GapFillStep(s0: seq<Segment>, s: seq<Segment>, p: int, x: Segment, address: int, n: int, bs: seq<byte>,
                    offset: int, off: int)
    requires Ordered(s) && 0 <= p <= |s| && |x.data| >= 1
    requires 0 < p ==> s[p - 1].End() <= x.start
    requires p < |s| ==> x.End() <= s[p].start
    requires 0 <= offset && 0 <= n && x.start == address + n && off == offset + n
    requires off + |x.data| <= |bs| && x.data == bs[off..off + |x.data|]
    requires GapFilled(s0, s, address, n, bs, offset)
    ensures forall m :: m == n + |x.data| ==> GapFilled(s0, s[..p] + [x] + s[p..], address, m, bs, offset)
  {
    var t, m := s[..p] + [x] + s[p..], n + |x.data|;
    forall a
      ensures FilledAt(s0, t, address, m, bs, offset, a)
    {
      assert FilledAt(s0, s, address, n, bs, offset, a);
      GapFillByte(s0, s, p, x, address, n, bs, offset, a);
      if x.start <= a < x.End() {
        GapIsFree(s, a, p);
      }
    }
  }

  lemma GapFillByte(s0: seq<Segment>, s: seq<Segment>, p: int, x: Segment, address: int, n: int, bs: seq<byte>, offset: int,
                    a: int)
    requires Ordered(s) && 0 <= p <= |s| && |x.data| >= 1
    requires 0 < p ==> s[p - 1].End() <= x.start
    requires p < |s| ==> x.End() <= s[p].start
    requires 0 <= offset && 0 <= n && x.start == address + n && offset + n + |x.data| <= |bs|
    requires x.data == bs[offset + n..offset + n + |x.data|]
    requires GapFilled(s0, s, address, n, bs, offset)
    ensures ByteAt(s[..p] + [x] + s[p..], a)
         == if address <= a < x.End() then Some(bs[offset + a - address]) else ByteAt(s0, a)
  {
    assert FilledAt(s0, s, address, n, bs, offset, a);
    InsertByteAt(s, p, x, a);
  }

  /**
   * The bytes updateBytes has written so far: the layout `s` holds the
   * bytes of `bs` from `offset` on at the addresses `address` to
   * `address + n`, and the bytes of `s0` everywhere else.
   */
  ghost predicate Patched(s0: seq<Segment>, s: seq<Segment>, address: int, n: int, bs: seq<byte>, offset: int)
    requires 0 <= offset && 0 <= n && offset + n <= |bs|
  {
    forall a :: PatchedAt(s0, s, address, n, bs, offset, a)
  }

  /** `Patched` at the single address `a`. */
  ghost predicate PatchedAt(s0: seq<Segment>, s: seq<Segment>, address: int, n: int, bs: seq<byte>, offset: int, a: int)
    requires 0 <= offset && 0 <= n && offset + n <= |bs|
  {
    ByteAt(s, a) == if address <= a < address + n then Some(bs[offset + a - address]) else ByteAt(s0, a)
  }

  /** Before anything is written, nothing is patched. */
  lemma NothingPatchedYet(s0: seq<Segment>, address: int, bs: seq<byte>, offset: int)
    requires 0 <= offset <= |bs|
    ensures Patched(s0, s0, address, 0, bs, offset)
  {
    forall a
      ensures PatchedAt(s0, s0, address, 0, bs, offset, a)
    {
    }
  }

  /** Filling a gap patches the layout with the bytes written. */
  lemma FilledIsPatched(s0: seq<Segment>, s: seq<Segment>, address: int, n: int, bs: seq<byte>, offset: int)
    requires 0 <= offset && 0 <= n && offset + n <= |bs|
    requires GapFilled(s0, s, address, n, bs, offset)
    ensures Patched(s0, s, address, n, bs, offset)
  {
    forall a
      ensures PatchedAt(s0, s, address, n, bs, offset, a)
    {
      assert FilledAt(s0, s, address, n, bs, offset, a);
    }
  }

  /**
   * Two rounds of updateBytes: the first `n` bytes of `bs` written from
   * `address` on, then the next `w` right behind them, make the first
   * `n + w` bytes written from `address` on.
   */
  lemma PatchesCompose(s0: seq<Segment>, s1: seq<Segment>, s2: seq<Segment>, address: int, n: int, w: int,
                       next: int, bs: seq<byte>)
    requires 0 <= n && 0 <= w && n + w <= |bs| && next == address + n
    requires Patched(s0, s1, address, n, bs, 0)
    requires Patched(s1, s2, next, w, bs, n)
    ensures forall m :: m == n + w ==> Patched(s0, s2, address, m, bs, 0)
  {
    var m := n + w;
    forall a
      ensures PatchedAt(s0, s2, address, m, bs, 0, a)
    {
      assert PatchedAt(s0, s1, address, n, bs, 0, a);
      assert PatchedAt(s1, s2, next, w, bs, n, a);
    }
  }

  /**
   * HexFileLine.updateBytes on the `k`-th indexed record, from the address
   * `w` on, with `n` bytes of `bs` from `off` on: the index stays complete,
   * and its layout is patched with exactly those bytes.
   */
  lemma OverwriteIndexed(store: Store, records: seq<Id>, nextId: Id, sorted: seq<Id>, ranges: seq<int>, k: int,
                         line: HexFileLine, start: int, updated: HexFileLine, after: Store,
                         w: int, n: int, bs: seq<byte>, off: int)
    requires IndexInv(store, records, nextId, sorted, ranges) && 0 <= k < |sorted|
    requires line == store[sorted[k]] && start == Start(store, sorted[k])
    requires updated == line.(data := updated.data) && |updated.data| == |line.data|
    requires after == store[sorted[k] := updated]
    requires start <= w && 0 <= n && w + n <= start + |line.data|
    requires 0 <= off && off + n <= |bs|
    requires forall i :: 0 <= i < |line.data| ==>
      updated.data[i] == if 0 <= i - (w - start) < n then bs[off + i - (w - start)] else line.data[i]
    ensures IndexInv(after, records, nextId, sorted, ranges)
    ensures Patched(Layout(store, sorted), Layout(after, sorted), w, n, bs, off)
    ensures FirstExtensionKind(after, records) == FirstExtensionKind(store, records)
  {
    var s, data := Layout(store, sorted), updated.data;
    UpdateIndexed(store, records, nextId, sorted, ranges, k, data);
    assert after == store[sorted[k] := store[sorted[k]].(data := data)];
    assert Layout(after, sorted) == s[k := Segment(start, data)];
    OverwriteStep(s, k, start, line.data, data, w, n, bs, off);
  }

  /** Inserting a new element and looking it up again finds it where it was put. */
  lemma IndexOfInserted(s: seq<Id>, at: int, x: Id)
    requires 0 <= at <= |s| && x !in s
    ensures IndexOf(InsertAt(s, at, x), x) == at
  {
    var t := InsertAt(s, at, x);
    assert x !in t[..at] by {
      assert t[..at] == s[..at];
    }
    IndexOfFirst(t, x, at);
  }

  /** The first position holding an element is where IndexOf finds it. */
  lemma {:induction false} IndexOfFirst(t: seq<Id>, x: Id, j: int)
    requires 0 <= j < |t| && t[j] == x && x !in t[..j]
    ensures IndexOf(t, x) == j
  {
    if j > 0 {
      assert t[0] in t[..j];
      assert t[1..][j - 1] == x;
      assert t[1..][..j - 1] == t[1..j];
      assert forall y :: y in t[1..j] ==> y in t[..j];
      IndexOfFirst(t[1..], x, j - 1);
    }
  }

  /** buildIndexRanges, one record further: its first and last address go to the end. */
  lemma RangesSnoc(store: Store, ids: seq<Id>, id: Id)
    ensures var s := Start(store, id);
      Ranges(store, ids + [id])
      == Ranges(store, ids) + [s, s + (if id in store then store[id].length as int else 0) - 1]
  {
    var t := ids + [id];
    assert forall k :: 0 <= k < |ids| ==> t[k] == ids[k];
    assert forall k :: 0 <= k < 2 * |ids| ==> k / 2 < |ids|;
  }

  /** The sorted data records of a document are records of its store. */
  lemma SortedDataInStore(store: Store, records: seq<Id>)
    ensures forall k :: 0 <= k < |SortByStart(store, DataIds(store, records))| ==>
      IsData(store, SortByStart(store, DataIds(store, records))[k])
  {
    var d := DataIds(store, records);
    var sorted := SortByStart(store, d);
    forall k | 0 <= k < |sorted|
      ensures IsData(store, sorted[k])
    {
      assert sorted[k] in multiset(sorted);
      assert sorted[k] in d;
    }
  }

  /** An address lies in at most one gap of an ordered layout. */
  lemma GapUnique(segs: seq<Segment>, key: int, p: int, q: int)
    requires Ordered(segs) && 0 <= p <= |segs| && 0 <= q <= |segs|
    requires 0 < p ==> segs[p - 1].End() <= key
    requires p < |segs| ==> key < segs[p].start
    requires 0 < q ==> segs[q - 1].End() <= key
    requires q < |segs| ==> key < segs[q].start
    ensures p == q
  {
    GapIsInsertionPoint(segs, key, p);
    GapIsInsertionPoint(segs, key, q);
    InsertionPointUnique(Bounds(segs), key, 2 * p, 2 * q);
  }

  /** No segment of an ordered layout holds an address of one of its gaps. */
  lemma GapIsFree(segs: seq<Segment>, key: int, p: int)
    requires Ordered(segs) && 0 <= p <= |segs|
    requires 0 < p ==> segs[p - 1].End() <= key
    requires p < |segs| ==> key < segs[p].start
    ensures forall k :: 0 <= k < |segs| ==> !segs[k].Contains(key)
  {
    GapIsInsertionPoint(segs, key, p);
    InsertionPointMeaning(segs, key, 2 * p);
  }

  /**
   * One round of overwriting a record in place: segment `k` gets the bytes
   * of `bs` from `off` on at the addresses `w` to `w + n`, keeping its own
   * bytes elsewhere; the layout changes exactly at those addresses.
   */
  lemma OverwriteStep(s: seq<Segment>, k: int, start: int, oldData: seq<byte>, newData: seq<byte>, w: int, n: int,
                      bs: seq<byte>, off: int)
    requires Ordered(s) && 0 <= k < |s| && s[k] == Segment(start, oldData) && |newData| == |oldData|
    requires start <= w && 0 <= n && w + n <= start + |oldData|
    requires 0 <= off && off + n <= |bs|
    requires forall i :: 0 <= i < |newData| ==>
      newData[i] == if 0 <= i - (w - start) < n then bs[off + i - (w - start)] else oldData[i]
    ensures Patched(s, s[k := Segment(start, newData)], w, n, bs, off)
  {
    var t := s[k := Segment(start, newData)];
    forall a
      ensures PatchedAt(s, t, w, n, bs, off, a)
    {
      OverwriteAt(s, k, start, oldData, newData, w, n, bs, off, a);
    }
  }

  lemma OverwriteAt(s: seq<Segment>, k: int, start: int, oldData: seq<byte>, newData: seq<byte>, w: int, n: int,
                    bs: seq<byte>, off: int, a: int)
    requires Ordered(s) && 0 <= k < |s| && s[k] == Segment(start, oldData) && |newData| == |oldData|
    requires start <= w && 0 <= n && w + n <= start + |oldData|
    requires 0 <= off && off + n <= |bs|
    requires forall i :: 0 <= i < |newData| ==>
      newData[i] == if 0 <= i - (w - start) < n then bs[off + i - (w - start)] else oldData[i]
    ensures ByteAt(s[k := Segment(start, newData)], a)
         == if w <= a < w + n then Some(bs[off + a - w]) else ByteAt(s, a)
  {
    OrderedIsDisjoint(s);
    UpdateByteAt(s, k, newData, a);
    if s[k].Contains(a) {
      ByteAtDisjoint(s, k, a);
      var i := a - start;
      assert i - (w - start) == a - w;
    }
  }

  /**
   * A pending data record lying in gap `p` of the index: any gap position
   * found for its start is `p`, and placing it there completes the index.
   */
  lemma PlacePending(store: Store, records: seq<Id>, nextId: Id, sorted: seq<Id>, ranges: seq<int>, x: Id, p: int, q: int)
    requires IndexInvExcept(store, records, nextId, sorted, ranges, x) && IsData(store, x)
    requires 0 <= p <= |sorted|
    requires 0 < p ==> Layout(store, sorted)[p - 1].End() <= Start(store, x)
    requires p < |sorted| ==> SegmentOf(store, x).End() <= Layout(store, sorted)[p].start
    requires 0 <= q <= |sorted|
    requires 0 < q ==> Layout(store, sorted)[q - 1].End() <= Start(store, x)
    requires q < |sorted| ==> Start(store, x) < Layout(store, sorted)[q].start
    ensures q == p
    ensures IndexInv(store, records, nextId, InsertAt(sorted, q, x),
                     ranges[..2 * q] + [Start(store, x), Start(store, x) + store[x].length as int - 1] + ranges[2 * q..])
    ensures Layout(store, InsertAt(sorted, q, x))
         == Layout(store, sorted)[..q] + [SegmentOf(store, x)] + Layout(store, sorted)[q..]
  {
    GapUnique(Layout(store, sorted), Start(store, x), p, q);
    InsertPending(store, records, nextId, sorted, ranges, x, p);
  }

  /**
   * A new extension record from createNewAddressExtension put into the
   * document at `at`: the index stays complete and as it was, the first
   * extension kind stays, and the new record's offset brings `start`
   * within the 16-bit address of a record.
   */
  lemma AddNewExtension(store: Store, records: seq<Id>, nextId: Id, sorted: seq<Id>, ranges: seq<int>,
                        at: int, start: int)
    requires IndexInv(store, records, nextId, sorted, ranges)
    requires 0 <= at <= |records|
    requires 0 < start <= MaxReach(FirstExtensionKind(store, records))
    ensures IndexInv(store[nextId := CreateNewAddressExtension(store, records, start)],
                     InsertAt(records, at, nextId), nextId + 1, sorted, ranges)
    ensures Layout(store[nextId := CreateNewAddressExtension(store, records, start)], sorted) == Layout(store, sorted)
    ensures Extends(store, store[nextId := CreateNewAddressExtension(store, records, start)])
    ensures FirstExtensionKind(store[nextId := CreateNewAddressExtension(store, records, start)],
                               InsertAt(records, at, nextId))
         == FirstExtensionKind(store, records)
    ensures 0 <= start - Offset(store[nextId := CreateNewAddressExtension(store, records, start)], nextId) <= ADDRESS_MAX
  {
    var e := CreateNewAddressExtension(store, records, start);
    var bigger := store[nextId := e];
    AddOtherRecord(store, records, nextId, sorted, ranges, at, e);
    InsertRecordValid(store, records, nextId, at, e);
    FirstKindInsert(store, bigger, records, at, nextId);
    StartAndOffset(bigger, InsertAt(records, at, nextId), nextId + 1, nextId);
  }

  /**
   * A new data record put into the document at `at`, whose address and
   * link place it at `start`, in gap `p` of the index: the index is
   * complete but for that record, which starts at `start`.
   */
  lemma AddNewDataLine(store: Store, records: seq<Id>, nextId: Id, sorted: seq<Id>, ranges: seq<int>,
                       at: int, r: HexFileLine, start: int, p: int)
    requires IndexInv(store, records, nextId, sorted, ranges)
    requires 0 <= at <= |records|
    requires r.kind == Data && 1 <= |r.data| && r.length as int == |r.data|
    requires 0 <= r.address <= ADDRESS_MAX
    requires r.addressExtension.Some? ==>
      r.addressExtension.value in store && store[r.addressExtension.value].kind.IsAddressExtension()
    requires start == (if r.addressExtension.Some? then Offset(store, r.addressExtension.value) else 0) + r.address as int
    requires 0 <= p <= |sorted|
    requires 0 < p ==> Layout(store, sorted)[p - 1].End() <= start
    requires p < |sorted| ==> start + |r.data| <= Layout(store, sorted)[p].start
    ensures IndexInvExcept(store[nextId := r], InsertAt(records, at, nextId), nextId + 1, sorted, ranges, nextId)
    ensures IsData(store[nextId := r], nextId)
    ensures Layout(store[nextId := r], sorted) == Layout(store, sorted)
    ensures SegmentOf(store[nextId := r], nextId) == Segment(start, r.data)
    ensures Extends(store, store[nextId := r])
    ensures FirstExtensionKind(store[nextId := r], InsertAt(records, at, nextId)) == FirstExtensionKind(store, records)
  {
    var bigger := store[nextId := r];
    AddDataRecord(store, records, nextId, sorted, ranges, at, r);
    InsertRecordValid(store, records, nextId, at, r);
    StartOfNewRecord(store, records, nextId, r);
    assert Start(bigger, nextId) == start;
    assert bigger[nextId].data == r.data;
    FirstKindInsert(store, bigger, records, at, nextId);
  }

  /**
   * The data record added behind the anchor the extension step chose
   * completes what createAndInsertNewLine does to the document.
   */
  lemma ChosenThenPlaced(before: Store, order: seq<Id>, next: Id, mid: Store, order1: seq<Id>, next1: Id,
                         after: Store, order2: seq<Id>, next2: Id,
                         predecessor: Option<Id>, successor: Option<Id>, start: int,
                         extension: Option<Id>, anchor: Option<Id>, r: HexFileLine)
    requires next !in order
    requires ExtensionChosen(before, order, next, mid, order1, next1, predecessor, successor, start, extension, anchor)
    requires r.addressExtension == extension
    requires after == mid[next1 := r] && next2 == next1 + 1
    requires order2 == InsertAt(order1, PositionAfter(order1, anchor), next1)
    ensures LinePlaced(before, order, next, after, order2, next2, predecessor, successor, start, next1)
  {
    if NeedsNewExtension(before, predecessor, successor, start) {
      assert next !in order;
      IndexOfInserted(order, PositionAfter(order, predecessor), next);
    }
  }
}
