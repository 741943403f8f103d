/**
 * What the two kinds of change the library makes to a document do to the
 * derived views: adding a new record object (splicing it into the record
 * list) and overwriting the bytes of a data record in place.
 */
module DocumentEdits {
  import opened Wrappers
  import opened ByteUtils
  import opened RecordTypes
  import opened AddressExtensionUtils
  import opened HexFileLines
  import opened IndexLayout
  import opened Documents

  /** `s` with `x` put at position `at` (java.util.List.add(index, element)). */
  function InsertAt(s: seq<Id>, at: int, x: Id): (t: seq<Id>)
    requires 0 <= at <= |s|
    ensures |t| == |s| + 1 && t[at] == x
    ensures forall id :: id in t <==> id in s || id == x
  {
    assert forall id :: id in s ==> id in s[..at] || id in s[at..] by {
      assert s == s[..at] + s[at..];
    }
    s[..at] + [x] + s[at..]
  }

  /** Every record of `store` is still in `bigger`, with the same value. */
  predicate Extends(store: Store, bigger: Store)
  {
    forall id :: id in store ==> id in bigger && bigger[id] == store[id]
  }

  /**
   * Adding record objects leaves the full start address and extension
   * offset of every record of a valid document as they were.
   */
  lemma ExtendsKeepsStarts(store: Store, records: seq<Id>, nextId: Id, bigger: Store)
    requires DocValid(store, records, nextId) && Extends(store, bigger)
    ensures forall id :: id in store ==> Start(bigger, id) == Start(store, id) && Offset(bigger, id) == Offset(store, id)
    ensures forall id :: id in store ==> SegmentOf(bigger, id) == SegmentOf(store, id)
  {
    forall id | id in store
      ensures Linked(bigger, id) == Linked(store, id)
    {
    }
  }

  /** ... and so the layout and bound list of records of the document. */
  lemma ExtendsKeepsLayout(store: Store, records: seq<Id>, nextId: Id, bigger: Store, ids: seq<Id>)
    requires DocValid(store, records, nextId) && Extends(store, bigger)
    requires forall k :: 0 <= k < |ids| ==> ids[k] in store
    ensures Layout(bigger, ids) == Layout(store, ids)
    ensures Ranges(bigger, ids) == Ranges(store, ids)
    ensures forall k :: 0 <= k < |ids| ==> IsData(bigger, ids[k]) == IsData(store, ids[k])
  {
    ExtendsKeepsStarts(store, records, nextId, bigger);
  }

  /**
   * records.add(at, r) of a new record object: the document stays valid
   * when the record's address fits 16 bits and its link, if any, leads to
   * an extension record of the document.
   */
  lemma InsertRecordValid(store: Store, records: seq<Id>, nextId: Id, at: int, r: HexFileLine)
    requires DocValid(store, records, nextId)
    requires 0 <= at <= |records|
    requires 0 <= r.address <= ADDRESS_MAX
    requires r.addressExtension.Some? ==>
      r.addressExtension.value in store && store[r.addressExtension.value].kind.IsAddressExtension()
    ensures nextId !in store && nextId !in records
    ensures Extends(store, store[nextId := r])
    ensures DocValid(store[nextId := r], InsertAt(records, at, nextId), nextId + 1)
  {
    assert nextId !in records;
    DistinctInsert(records, at, nextId);
  }

  /** The data records of a list with one more record. */
  lemma DataIdsInsert(store: Store, records: seq<Id>, nextId: Id, at: int, r: HexFileLine)
    requires DocValid(store, records, nextId) && 0 <= at <= |records|
    ensures forall id :: id in DataIds(store[nextId := r], InsertAt(records, at, nextId))
                     <==> id in DataIds(store, records) || (id == nextId && r.kind == Data)
  {
    var bigger := store[nextId := r];
    var recs := InsertAt(records, at, nextId);
    forall id
      ensures id in DataIds(bigger, recs) <==> id in DataIds(store, records) || (id == nextId && r.kind == Data)
    {
      assert id in recs <==> id in records || id == nextId;
      assert id != nextId ==> IsData(bigger, id) == IsData(store, id);
    }
  }

  /** A sequence with an element inserted, seen through the layout. */
  lemma LayoutInsert(store: Store, s: seq<Id>, p: int, x: Id)
    requires 0 <= p <= |s|
    ensures Layout(store, InsertAt(s, p, x)) == Layout(store, s)[..p] + [SegmentOf(store, x)] + Layout(store, s)[p..]
  {
    var lhs := Layout(store, InsertAt(s, p, x));
    var l := Layout(store, s);
    var rhs := l[..p] + [SegmentOf(store, x)] + l[p..];
    forall k | 0 <= k < |lhs|
      ensures lhs[k] == rhs[k]
    {
      InsertIndex(s, p, x, k);
      InsertIndex(l, p, SegmentOf(store, x), k);
    }
  }

  /** Two lists of the same records, each grown by the same record. */
  lemma SameRecordsGrow(a: seq<Id>, b: seq<Id>, a2: seq<Id>, b2: seq<Id>, x: Id)
    requires SameRecords(a, b)
    requires Distinct(a2) && Distinct(b2)
    requires forall id :: id in a2 <==> id in a || id == x
    requires forall id :: id in b2 <==> id in b || id == x
    ensures SameRecords(a2, b2)
  {
  }

  /** Inserting an element that is not there keeps a list free of duplicates. */
  lemma DistinctInsert(s: seq<Id>, p: int, x: Id)
    requires Distinct(s) && 0 <= p <= |s| && x !in s
    ensures Distinct(InsertAt(s, p, x))
  {
    var t := InsertAt(s, p, x);
    forall i, j | 0 <= i < j < |t|
      ensures Entry(t, i) != Entry(t, j)
    {
      InsertIndex(s, p, x, i);
      InsertIndex(s, p, x, j);
      if i != p && j != p {
        var i', j' := if i < p then i else i - 1, if j < p then j else j - 1;
        assert Entry(s, i') != Entry(s, j');
      }
    }
  }

  /**
   * The offset a data record takes from its link: the linked extension
   * record's own offset, or 0 without a link.
   */
  lemma OffsetOfDataRecord(store: Store, records: seq<Id>, nextId: Id, id: Id)
    requires DocValid(store, records, nextId) && id in store && !store[id].kind.IsAddressExtension()
    ensures store[id].addressExtension.None? ==> Offset(store, id) == 0
    ensures store[id].addressExtension.Some? ==>
      Offset(store, id) == Offset(store, store[id].addressExtension.value)
  {
  }

  /** The full start address of a new non-extension record: its link's offset plus its address. */
  lemma StartOfNewRecord(store: Store, records: seq<Id>, nextId: Id, r: HexFileLine)
    requires DocValid(store, records, nextId) && !r.kind.IsAddressExtension()
    requires r.addressExtension.Some? ==>
      r.addressExtension.value in store && store[r.addressExtension.value].kind.IsAddressExtension()
    ensures r.addressExtension.None? ==> Start(store[nextId := r], nextId) == r.address as int
    ensures r.addressExtension.Some? ==>
      Start(store[nextId := r], nextId) == Offset(store, r.addressExtension.value) + r.address
  {
    var bigger := store[nextId := r];
    ExtendsKeepsStarts(store, records, nextId, bigger);
    if r.addressExtension.Some? {
      assert Linked(bigger, nextId) == Some(store[r.addressExtension.value]);
      FullStartIsOffsetPlusAddress(r, Linked(bigger, nextId));
    }
  }

  /** Whether any record of the list is an extension record. */
  lemma {:induction false} FirstKindExtends(store: Store, bigger: Store, records: seq<Id>)
    requires Extends(store, bigger)
    requires forall k :: 0 <= k < |records| ==> records[k] in store
    ensures FirstExtensionKind(bigger, records) == FirstExtensionKind(store, records)
  {
    if |records| > 0 {
      FirstKindExtends(store, bigger, records[1..]);
    }
  }

  /**
   * Splicing in a record that is no extension record, or one of the kind
   * the document's first extension record has, leaves that kind as it was.
   */
  lemma {:induction false} FirstKindInsert(store: Store, bigger: Store, records: seq<Id>, at: int, x: Id)
    requires Extends(store, bigger) && x in bigger
    requires forall k :: 0 <= k < |records| ==> records[k] in store
    requires 0 <= at <= |records|
    requires bigger[x].kind.IsAddressExtension() ==> bigger[x].kind == FirstExtensionKind(store, records)
    ensures FirstExtensionKind(bigger, InsertAt(records, at, x)) == FirstExtensionKind(store, records)
    decreases at
  {
    var t := InsertAt(records, at, x);
    if at == 0 {
      assert t[1..] == records;
      FirstKindExtends(store, bigger, records);
    } else {
      assert t[0] == records[0];
      assert t[1..] == InsertAt(records[1..], at - 1, x);
      if !store[records[0]].kind.IsAddressExtension() {
        FirstKindInsert(store, bigger, records[1..], at - 1, x);
      }
    }
  }

  /** The data records of the list do not depend on record values other than their kinds. */
  lemma {:induction false} DataIdsSameKinds(store: Store, other: Store, ids: seq<Id>)
    requires forall k :: 0 <= k < |ids| ==> IsData(store, ids[k]) == IsData(other, ids[k])
    ensures DataIds(other, ids) == DataIds(store, ids)
  {
    if |ids| > 0 {
      DataIdsSameKinds(store, other, ids[1..]);
    }
  }

  /**
   * Overwriting the bytes of a data record in place, keeping its length:
   * the document stays valid and sound and its data records stay the same.
   */
  lemma UpdateDataRecord(store: Store, records: seq<Id>, nextId: Id, id: Id, data: seq<byte>)
    requires DocValid(store, records, nextId) && id in store && store[id].kind == Data
    requires |data| == |store[id].data|
    ensures DocValid(store[id := store[id].(data := data)], records, nextId)
    ensures DataSound(store) ==> DataSound(store[id := store[id].(data := data)])
    ensures DataIds(store[id := store[id].(data := data)], records) == DataIds(store, records)
  {
    DataIdsSameKinds(store, store[id := store[id].(data := data)], records);
  }

  /** New bytes in a record move no record's full start address. */
  lemma UpdateKeepsStarts(store: Store, id: Id, data: seq<byte>)
    requires id in store && store[id].kind == Data
    ensures forall x :: Start(store[id := store[id].(data := data)], x) == Start(store, x)
  {
    var updated := store[id := store[id].(data := data)];
    forall x
      ensures Start(updated, x) == Start(store, x)
    {
      if x in store && Linked(updated, x) != Linked(store, x) {
        // only a link to the data record `id` itself sees the new bytes, and
        // such a link is no extension: both starts fall back to 0
        assert store[x].addressExtension == Some(id);
      }
    }
  }

  /** New bytes in a record leave every record's kind and index range as they were. */
  lemma UpdateKeepsRanges(store: Store, id: Id, data: seq<byte>, ids: seq<Id>)
    requires id in store && store[id].kind == Data
    ensures forall k :: 0 <= k < |ids| ==> IsData(store[id := store[id].(data := data)], ids[k]) == IsData(store, ids[k])
    ensures Ranges(store[id := store[id].(data := data)], ids) == Ranges(store, ids)
  {
    UpdateKeepsStarts(store, id, data);
  }

  /**
   * In the layout of a list of distinct records, new bytes for the record
   * at position `k` change that segment's bytes and nothing else.
   */
  lemma UpdateLayout(store: Store, id: Id, data: seq<byte>, ids: seq<Id>, k: int)
    requires id in store && store[id].kind == Data
    requires Distinct(ids) && 0 <= k < |ids| && ids[k] == id
    ensures Layout(store[id := store[id].(data := data)], ids)
         == Layout(store, ids)[k := Segment(Layout(store, ids)[k].start, data)]
  {
    UpdateKeepsStarts(store, id, data);
    var l := Layout(store, ids);
    var l2 := Layout(store[id := store[id].(data := data)], ids);
    forall j | 0 <= j < |ids|
      ensures l2[j] == l[k := Segment(l[k].start, data)][j]
    {
      if j != k {
        assert Entry(ids, j) != Entry(ids, k);
      }
    }
  }
}
