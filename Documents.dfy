/**
 * A hex document as the library holds it: the records in file order and,
 * for each record identity, the record's current value.  The functions
 * here derive what the library computes from records: full start
 * addresses, extension offsets, the data layout, the index's bound list,
 * the sort order of the index and the linear record search.
 */
module Documents {
  import opened Wrappers
  import opened ByteUtils
  import opened RecordTypes
  import opened AddressExtensionUtils
  import opened HexFileLines
  import opened IndexLayout

  /** The current value of every record object, by identity. */
  type Store = map<Id, HexFileLine>

  /** A list without repetitions. */
  predicate Distinct<T(==)>(s: seq<T>)
  {
    forall i, j :: 0 <= i < j < |s| ==> Entry(s, i) != Entry(s, j)
  }

  /** The head of a list without repetitions is not in its tail, which has none either. */
  lemma DistinctTail<T>(s: seq<T>)
    requires Distinct(s) && |s| > 0
    ensures s[0] !in s[1..] && Distinct(s[1..])
  {
    forall k | 0 <= k < |s| - 1
      ensures s[1..][k] != s[0]
    {
      assert Entry(s, 0) != Entry(s, k + 1);
    }
    forall i, j | 0 <= i < j < |s| - 1
      ensures Entry(s[1..], i) != Entry(s[1..], j)
    {
      assert Entry(s, i + 1) != Entry(s, j + 1);
    }
  }

  /** A new head keeps a list without repetitions. */
  lemma DistinctCons<T>(x: T, s: seq<T>)
    requires Distinct(s) && x !in s
    ensures Distinct([x] + s)
  {
    var t := [x] + s;
    forall i, j | 0 <= i < j < |t|
      ensures Entry(t, i) != Entry(t, j)
    {
      if 0 < i {
        assert Entry(s, i - 1) != Entry(s, j - 1);
      } else {
        assert t[j] == s[j - 1];
      }
    }
  }

  /** The record a record is linked to as its address extension, if any. */
  function Linked(store: Store, id: Id): Option<HexFileLine>
  {
    if id in store && store[id].addressExtension.Some? && store[id].addressExtension.value in store
    then Some(store[store[id].addressExtension.value])
    else None
  }

  /**
   * What every document the library builds satisfies: records are
   * distinct objects, all of them in the store, identities below
   * `nextId`, links lead to extension records of the document, and
   * record addresses fit 16 bits.
   */
  predicate DocValid(store: Store, records: seq<Id>, nextId: Id)
  {
    && Distinct(records)
    && (forall id :: id in store ==> id in records)
    && (forall id :: id in records ==> id in store)
    && (forall id :: id in store ==> id < nextId)
    && (forall id :: id in store && store[id].addressExtension.Some? ==>
          store[id].addressExtension.value in store
          && store[store[id].addressExtension.value].kind.IsAddressExtension())
    && (forall id :: id in store ==> 0 <= store[id].address <= ADDRESS_MAX)
  }

  /** HexFileLine.getFullStartAddress of a record of the document. */
  function Start(store: Store, id: Id): int
  {
    if id !in store then 0
    else match FullStartAddress(store[id], Linked(store, id))
      case Ok(a) => a
      case Err(_) => 0  // a link to a non-extension record: excluded by DocValid
  }

  /** HexFileLine.getExtendedAddressOffset of a record of the document. */
  function Offset(store: Store, id: Id): int
  {
    if id !in store then 0
    else match ExtendedAddressOffset(store[id], Linked(store, id))
      case Ok(o) => o
      case Err(_) => 0  // not reachable: ExtendedAddressOffset only fails for a non-extension link
  }

  /**
   * In a valid document a non-extension record starts at its 16-bit
   * address above the offset of its extension, and an extension record's
   * offset is its own.
   */
  lemma StartAndOffset(store: Store, records: seq<Id>, nextId: Id, id: Id)
    requires DocValid(store, records, nextId) && id in store
    ensures !store[id].kind.IsAddressExtension() ==> Start(store, id) == Offset(store, id) + store[id].address
    ensures !store[id].kind.IsAddressExtension() ==> 0 <= Offset(store, id) <= Start(store, id)
    ensures store[id].kind.IsAddressExtension() ==> Offset(store, id) == ExtensionOffset(store[id].kind, store[id].data).value
  {
    if !store[id].kind.IsAddressExtension() {
      FullStartIsOffsetPlusAddress(store[id], Linked(store, id));
    }
  }

  /** The segment of one record: its full start address and its bytes. */
  function SegmentOf(store: Store, id: Id): Segment
  {
    Segment(Start(store, id), if id in store then store[id].data else [])
  }

  /** The segments of a list of records, in list order. */
  function Layout(store: Store, ids: seq<Id>): (segs: seq<Segment>)
    ensures |segs| == |ids|
    ensures forall k :: 0 <= k < |ids| ==> segs[k] == SegmentOf(store, ids[k])
  {
    seq(|ids|, k requires 0 <= k < |ids| => SegmentOf(store, ids[k]))
  }

  /**
   * HexLineIndex.buildIndexRanges: first and last address of every record
   * of the list, the last one computed from the record's length field.
   */
  function Ranges(store: Store, ids: seq<Id>): (ranges: seq<int>)
    ensures |ranges| == 2 * |ids|
  {
    seq(2 * |ids|, k requires 0 <= k < 2 * |ids| =>
      if k % 2 == 0 then Start(store, ids[k / 2])
      else Start(store, ids[k / 2]) + (if ids[k / 2] in store then store[ids[k / 2]].length as int else 0) - 1)
  }

  predicate IsData(store: Store, id: Id)
  {
    id in store && store[id].kind == Data
  }

  /**
   * Data records whose length field counts their bytes and that hold at
   * least one byte (the records the index describes faithfully).
   */
  predicate DataSound(store: Store)
  {
    forall id :: id in store && store[id].kind == Data ==> store[id].length as int == |store[id].data| >= 1
  }

  /** Over sound data records the index ranges are the bounds of the layout. */
  lemma RangesAreBounds(store: Store, ids: seq<Id>)
    requires DataSound(store)
    requires forall k :: 0 <= k < |ids| ==> IsData(store, ids[k])
    ensures Ranges(store, ids) == Bounds(Layout(store, ids))
  {
  }

  /** The data records of a record list, in list order. */
  function DataIds(store: Store, ids: seq<Id>): (d: seq<Id>)
    ensures forall id :: id in d <==> id in ids && IsData(store, id)
    ensures Distinct(ids) ==> Distinct(d)
    ensures |d| <= |ids|
  {
    if |ids| == 0 then []
    else
      var rest := DataIds(store, ids[1..]);
      assert forall id :: id in ids[1..] ==> id in ids;
      assert Distinct(ids) ==> ids[0] !in ids[1..] && Distinct(ids[1..]) by {
        if Distinct(ids) {
          DistinctTail(ids);
        }
      }
      if IsData(store, ids[0]) then
        assert Distinct(ids) ==> Distinct([ids[0]] + rest) by {
          if Distinct(ids) {
            DistinctCons(ids[0], rest);
          }
        }
        [ids[0]] + rest
      else rest
  }

  /** The byte the document's data records define at an address (first record in file order). */
  function DataByteAt(store: Store, records: seq<Id>, address: int): Option<byte>
  {
    ByteAt(Layout(store, DataIds(store, records)), address)
  }

  /** No two data records of the document share an address. */
  predicate DataDisjoint(store: Store, records: seq<Id>)
  {
    Disjoint(Layout(store, DataIds(store, records)))
  }

  /** Two lists of the same distinct records. */
  predicate SameRecords(a: seq<Id>, b: seq<Id>)
  {
    && Distinct(a) && Distinct(b)
    && (forall id :: id in a ==> id in b)
    && (forall id :: id in b ==> id in a)
  }

  /** Disjointness does not depend on the order the records are listed in. */
  lemma DisjointReordered(store: Store, a: seq<Id>, b: seq<Id>)
    requires SameRecords(a, b)
    requires Disjoint(Layout(store, a))
    ensures Disjoint(Layout(store, b))
  {
    var la := Layout(store, a);
    var lb := Layout(store, b);
    forall i, j | 0 <= i < j < |lb|
      ensures Apart(lb[i], lb[j])
    {
      assert b[i] in a && b[j] in a;
      assert Entry(b, i) != Entry(b, j);
      var p :| 0 <= p < |a| && a[p] == b[i];
      var q :| 0 <= q < |a| && a[q] == b[j];
      if p < q {
        assert Apart(la[p], la[q]);
      } else {
        assert Apart(la[q], la[p]);
      }
    }
  }

  /** The bytes defined do not depend on the order the records are listed in. */
  lemma ByteAtReordered(store: Store, a: seq<Id>, b: seq<Id>, address: int)
    requires SameRecords(a, b)
    requires Disjoint(Layout(store, a))
    ensures ByteAt(Layout(store, a), address) == ByteAt(Layout(store, b), address)
  {
    DisjointReordered(store, a, b);
    var la := Layout(store, a);
    var lb := Layout(store, b);
    forall x | x in la
      ensures x in lb
    {
      var k :| 0 <= k < |la| && la[k] == x;
      assert a[k] in b;
      var j :| 0 <= j < |b| && b[j] == a[k];
      assert lb[j] == x;
    }
    forall x | x in lb
      ensures x in la
    {
      var k :| 0 <= k < |lb| && lb[k] == x;
      assert b[k] in a;
      var j :| 0 <= j < |a| && a[j] == b[k];
      assert la[j] == x;
    }
    ByteAtSameSegments(la, lb, address);
  }

  /** Records ordered by full start address. */
  predicate SortedByStart(store: Store, ids: seq<Id>)
  {
    forall i, j :: 0 <= i < j < |ids| ==> Start(store, ids[i]) <= Start(store, ids[j])
  }

  /** A sort key for every record. */
  type Keys = map<Id, int>

  function Key(keys: Keys, id: Id): int
  {
    if id in keys then keys[id] else 0
  }

  predicate SortedByKey(keys: Keys, ids: seq<Id>)
  {
    forall i, j :: 0 <= i < j < |ids| ==> Key(keys, ids[i]) <= Key(keys, ids[j])
  }

  /** Inserts a record after every record whose key is not above its own. */
  function InsertByKey(keys: Keys, id: Id, sorted: seq<Id>): (r: seq<Id>)
    ensures |r| == |sorted| + 1
    ensures multiset(r) == multiset(sorted) + multiset{id}
  {
    if |sorted| == 0 then [id]
    else if Key(keys, id) < Key(keys, sorted[0]) then [id] + sorted
    else
      assert sorted == [sorted[0]] + sorted[1..];
      [sorted[0]] + InsertByKey(keys, id, sorted[1..])
  }

  /** A key not above any key of a sorted sequence can be put in front. */
  lemma ConsSortedByKey(keys: Keys, a: Id, s: seq<Id>)
    requires SortedByKey(keys, s)
    requires forall k :: 0 <= k < |s| ==> Key(keys, a) <= Key(keys, s[k])
    ensures SortedByKey(keys, [a] + s)
  {
    var r := [a] + s;
    forall i, j | 0 <= i < j < |r|
      ensures Key(keys, r[i]) <= Key(keys, r[j])
    {
      assert r[j] == s[j - 1];
      if i > 0 {
        assert r[i] == s[i - 1];
      }
    }
  }

  lemma {:induction false} InsertByKeySorted(keys: Keys, id: Id, sorted: seq<Id>)
    requires SortedByKey(keys, sorted)
    ensures SortedByKey(keys, InsertByKey(keys, id, sorted))
  {
    if |sorted| == 0 {
    } else if Key(keys, id) < Key(keys, sorted[0]) {
      ConsSortedByKey(keys, id, sorted);
    } else {
      var rest := InsertByKey(keys, id, sorted[1..]);
      InsertByKeySorted(keys, id, sorted[1..]);
      forall k | 0 <= k < |rest|
        ensures Key(keys, sorted[0]) <= Key(keys, rest[k])
      {
        assert rest[k] in multiset(rest);
        assert rest[k] in multiset(sorted[1..]) || rest[k] == id;
        if rest[k] != id {
          var m :| 0 <= m < |sorted[1..]| && sorted[1..][m] == rest[k];
          assert sorted[m + 1] == rest[k];
        }
      }
      ConsSortedByKey(keys, sorted[0], rest);
    }
  }

  /**
   * A stable sort by key (an insertion sort: every record goes after the
   * records before it with the same key).
   */
  function SortByKey(keys: Keys, ids: seq<Id>): (r: seq<Id>)
    ensures multiset(r) == multiset(ids)
  {
    if |ids| == 0 then []
    else
      assert ids == ids[..|ids| - 1] + [ids[|ids| - 1]];
      InsertByKey(keys, ids[|ids| - 1], SortByKey(keys, ids[..|ids| - 1]))
  }

  lemma {:induction false} SortByKeySorted(keys: Keys, ids: seq<Id>)
    ensures SortedByKey(keys, SortByKey(keys, ids))
  {
    if |ids| > 0 {
      SortByKeySorted(keys, ids[..|ids| - 1]);
      InsertByKeySorted(keys, ids[|ids| - 1], SortByKey(keys, ids[..|ids| - 1]));
    }
  }

  /** The full start address of every record of the store. */
  function StartKeys(store: Store): (keys: Keys)
    ensures forall id :: Key(keys, id) == Start(store, id)
  {
    map id | id in store :: Start(store, id)
  }

  /**
   * The stream sort of HexLineIndex.setupIndex: records ordered by full
   * start address, records with equal starts kept in their list order.
   */
  function SortByStart(store: Store, ids: seq<Id>): (r: seq<Id>)
    ensures multiset(r) == multiset(ids)
  {
    SortByKey(StartKeys(store), ids)
  }

  /** The sort leaves the records ordered by full start address. */
  lemma SortByStartSorted(store: Store, ids: seq<Id>)
    ensures SortedByStart(store, SortByStart(store, ids))
  {
    SortByKeySorted(StartKeys(store), ids);
  }

  /** A permutation of distinct records lists the same records. */
  lemma PermutationSameRecords(a: seq<Id>, b: seq<Id>)
    requires Distinct(a) && multiset(a) == multiset(b)
    ensures SameRecords(a, b)
  {
    forall id
      ensures id in a <==> id in b
    {
      assert id in a <==> id in multiset(a);
      assert id in b <==> id in multiset(b);
    }
    forall i, j | 0 <= i < j < |b|
      ensures b[i] != b[j]
    {
      if b[i] == b[j] {
        DuplicateCount(b, i, j);
        CountAtMostOne(a, b[i]);
        assert false;
      }
    }
  }

  lemma {:induction false} DuplicateCount<T>(s: seq<T>, i: int, j: int)
    requires 0 <= i < j < |s| && s[i] == s[j]
    ensures multiset(s)[s[i]] >= 2
  {
    assert s == s[..i] + [s[i]] + s[i + 1..j] + [s[j]] + s[j + 1..];
  }

  lemma {:induction false} CountAtMostOne<T>(s: seq<T>, x: T)
    requires Distinct(s)
    ensures multiset(s)[x] <= 1
  {
    if |s| > 0 {
      assert s == [s[0]] + s[1..];
      DistinctTail(s);
      CountAtMostOne(s[1..], x);
    }
  }

  /**
   * An ordered layout listed by ascending start: records of a disjoint
   * document sorted by start follow one another without overlap.
   */
  lemma SortedDisjointIsOrdered(store: Store, ids: seq<Id>)
    requires SortedByStart(store, ids)
    requires Disjoint(Layout(store, ids))
    requires forall k :: 0 <= k < |ids| ==> |SegmentOf(store, ids[k]).data| >= 1
    ensures Ordered(Layout(store, ids))
  {
    var l := Layout(store, ids);
    forall i, j | 0 <= i < j < |l|
      ensures l[i].End() <= l[j].start
    {
      assert Apart(l[i], l[j]);
    }
  }

  /**
   * IntelHexFile.findLineByAddress: the first record in file order, of
   * any type, whose bytes cover the address.
   */
  function FindLine(store: Store, records: seq<Id>, address: int): (r: Option<Id>)
    ensures r.Some? ==> r.value in records && SegmentOf(store, r.value).Contains(address)
    ensures r.None? <==> forall k :: 0 <= k < |records| ==> !SegmentOf(store, records[k]).Contains(address)
    ensures r.Some? ==> exists k :: 0 <= k < |records| && records[k] == r.value
                                  && (forall j :: 0 <= j < k ==> !SegmentOf(store, records[j]).Contains(address))
  {
    match SegmentAt(Layout(store, records), address)
    case Some(k) => Some(records[k])
    case None => None
  }

  /**
   * HexLineIndex.determineAddressExtensionType: the type of the first
   * extension record of the document, or the linear type when there is none.
   */
  function FirstExtensionKind(store: Store, records: seq<Id>): (t: RecordType)
    ensures t.IsAddressExtension()
    ensures (forall k :: 0 <= k < |records| ==> !(records[k] in store && store[records[k]].kind.IsAddressExtension()))
            ==> t == ExtendedLinearAddress
  {
    if |records| == 0 then ExtendedLinearAddress
    else if records[0] in store && store[records[0]].kind.IsAddressExtension() then store[records[0]].kind
    else
      var t := FirstExtensionKind(store, records[1..]);
      assert forall k :: 1 <= k < |records| ==> records[k] == records[1..][k - 1];
      t
  }

  /** With `j` the first extension record of the list, the kind found is that record's. */
  lemma {:induction false} FirstExtensionKindIsFirst(store: Store, records: seq<Id>, j: int)
    requires 0 <= j < |records| && records[j] in store && store[records[j]].kind.IsAddressExtension()
    requires forall i :: 0 <= i < j ==> !(records[i] in store && store[records[i]].kind.IsAddressExtension())
    ensures FirstExtensionKind(store, records) == store[records[j]].kind
  {
    if j > 0 {
      assert records[1..][j - 1] == records[j];
      assert forall i :: 0 <= i < j - 1 ==> records[1..][i] == records[i + 1];
      FirstExtensionKindIsFirst(store, records[1..], j - 1);
    }
  }

  /** The index of a record in the list, or -1 (java.util.List.indexOf). */
  function IndexOf(records: seq<Id>, id: Id): (i: int)
    ensures -1 <= i < |records|
    ensures i >= 0 ==> records[i] == id && id !in records[..i]
    ensures i == -1 <==> id !in records
  {
    if |records| == 0 then -1
    else if records[0] == id then 0
    else
      var i := IndexOf(records[1..], id);
      if i == -1 then -1
      else
        assert records[..i + 1] == [records[0]] + records[1..][..i];
        i + 1
  }
}
