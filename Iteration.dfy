/**
 * What HexFileIterator walks: the indexed data records as address
 * segments, in index order, and a cursor of a record position and a byte
 * position within that record.
 */
module Iteration {
  import opened Wrappers
  import opened ByteUtils
  import opened IndexLayout

  /** The iterator's lineIndex and byteIndex. */
  datatype Cursor = Cursor(line: int, index: int)

  /** An entry of the iteration: a full address and the byte defined there. */
  datatype ByteEntry = ByteEntry(key: int, value: byte)

  /** lineHasByteIndex: the cursor points at a byte of an indexed record. */
  predicate HasByte(segs: seq<Segment>, c: Cursor)
  {
    0 <= c.line < |segs| && 0 <= c.index < |segs[c.line].data|
  }

  /**
   * The single step hasNext and next take first: when the cursor points at
   * no byte, it moves to the start of the next record.
   */
  function Advance(segs: seq<Segment>, c: Cursor): Cursor
  {
    if HasByte(segs, c) then c else Cursor(c.line + 1, 0)
  }

  /** createEntry: the full address of the byte at the cursor and the byte. */
  function EntryAt(segs: seq<Segment>, c: Cursor): ByteEntry
    requires HasByte(segs, c)
  {
    ByteEntry(segs[c.line].start + c.index, segs[c.line].data[c.index])
  }

  /** A cursor no further than one past the end of the record it points into. */
  predicate Within(segs: seq<Segment>, c: Cursor)
  {
    0 <= c.line && 0 <= c.index && (c.line < |segs| ==> c.index <= |segs[c.line].data|)
  }

  /** No empty record after record `line`. */
  predicate FilledAfter(segs: seq<Segment>, line: int)
  {
    forall k :: 0 <= k < |segs| && line < k ==> |segs[k].data| > 0
  }

  /**
   * The entries from the cursor on: the rest of its record's bytes, then
   * every byte of every later record, records in index order and bytes in
   * address order.
   */
  function Remaining(segs: seq<Segment>, c: Cursor): (r: seq<ByteEntry>)
    requires 0 <= c.line && 0 <= c.index
    decreases |segs| - c.line, if c.line < |segs| then |segs[c.line].data| - c.index else 0
  {
    if c.line >= |segs| then []
    else if c.index >= |segs[c.line].data| then Remaining(segs, Cursor(c.line + 1, 0))
    else [EntryAt(segs, c)] + Remaining(segs, Cursor(c.line, c.index + 1))
  }

  /**
   * With no empty record ahead, hasNext's step keeps what is to come, it
   * answers whether anything is, and next yields the first entry to come
   * and leaves the others.
   */
  lemma NextOfRemaining(segs: seq<Segment>, c: Cursor)
    requires Within(segs, c) && FilledAfter(segs, c.line)
    ensures Within(segs, Advance(segs, c)) && FilledAfter(segs, Advance(segs, c).line)
    ensures Remaining(segs, Advance(segs, c)) == Remaining(segs, c)
    ensures HasByte(segs, Advance(segs, c)) <==> Remaining(segs, c) != []
    ensures HasByte(segs, Advance(segs, c)) ==>
      var d := Advance(segs, c);
      && Within(segs, Cursor(d.line, d.index + 1))
      && Remaining(segs, c) == [EntryAt(segs, d)] + Remaining(segs, Cursor(d.line, d.index + 1))
  {
    if !HasByte(segs, c) && c.line + 1 < |segs| {
      assert |segs[c.line + 1].data| > 0;
    }
  }

  /**
   * hasNext answers the same when asked twice without next in between,
   * as long as no empty record lies ahead.
   */
  lemma HasNextRepeats(segs: seq<Segment>, c: Cursor)
    requires Within(segs, c) && FilledAfter(segs, c.line)
    ensures Advance(segs, Advance(segs, c)) == Advance(segs, c) || !HasByte(segs, Advance(segs, Advance(segs, c)))
    ensures HasByte(segs, Advance(segs, Advance(segs, c))) == HasByte(segs, Advance(segs, c))
  {
    NextOfRemaining(segs, c);
    NextOfRemaining(segs, Advance(segs, c));
  }

  /**
   * An empty record ends the iteration early: after the last byte of a
   * record followed by an empty one, hasNext answers false although a
   * later record still holds a byte.
   */
  lemma EmptyRecordEndsIteration()
    ensures var segs := [Segment(0x10, [0xAB]), Segment(0x20, []), Segment(0x30, [0xCD])];
      && !HasByte(segs, Advance(segs, Cursor(0, 1)))
      && Remaining(segs, Cursor(0, 1)) == [ByteEntry(0x30, 0xCD)]
  {
    var segs := [Segment(0x10, [0xAB]), Segment(0x20, []), Segment(0x30, [0xCD])];
    assert Remaining(segs, Cursor(2, 1)) == [];
    assert Remaining(segs, Cursor(2, 0)) == [ByteEntry(0x30, 0xCD)];
    assert Remaining(segs, Cursor(1, 0)) == Remaining(segs, Cursor(2, 0));
  }

  /** Entries to come lie at or above the cursor's address. */
  lemma {:induction false} RemainingAbove(segs: seq<Segment>, c: Cursor)
    requires Ordered(segs) && Within(segs, c) && c.line < |segs|
    ensures forall x :: x in Remaining(segs, c) ==> segs[c.line].start + c.index <= x.key
    decreases |segs| - c.line, |segs[c.line].data| - c.index
  {
    if c.index >= |segs[c.line].data| {
      if c.line + 1 < |segs| {
        assert Entry(segs, c.line).End() <= Entry(segs, c.line + 1).start;
        RemainingAbove(segs, Cursor(c.line + 1, 0));
      }
    } else {
      RemainingAbove(segs, Cursor(c.line, c.index + 1));
    }
  }

  /** Entries with strictly ascending addresses. */
  predicate Ascending(r: seq<ByteEntry>)
  {
    forall i, j :: 0 <= i < j < |r| ==> r[i].key < r[j].key
  }

  /** Over ordered records the entries to come have strictly ascending addresses. */
  lemma {:induction false} RemainingAscending(segs: seq<Segment>, c: Cursor)
    requires Ordered(segs) && Within(segs, c)
    ensures Ascending(Remaining(segs, c))
    decreases |segs| - c.line, if c.line < |segs| then |segs[c.line].data| - c.index else 0
  {
    if c.line < |segs| {
      if c.index >= |segs[c.line].data| {
        assert Remaining(segs, c) == Remaining(segs, Cursor(c.line + 1, 0));
        RemainingAscending(segs, Cursor(c.line + 1, 0));
      } else {
        var next := Cursor(c.line, c.index + 1);
        RemainingAscending(segs, next);
        RemainingAbove(segs, next);
        var r := Remaining(segs, c);
        assert r == [EntryAt(segs, c)] + Remaining(segs, next);
        forall i, j | 0 <= i < j < |r|
          ensures r[i].key < r[j].key
        {
          assert r[j] == Remaining(segs, next)[j - 1];
          if i > 0 {
            assert r[i] == Remaining(segs, next)[i - 1];
          } else {
            assert r[j] in Remaining(segs, next);
          }
        }
      }
    }
  }

  /** Every entry to come is a byte of a record `k`, at that byte's address. */
  lemma {:induction false} RemainingFromRecords(segs: seq<Segment>, c: Cursor, x: ByteEntry) returns (k: int)
    requires 0 <= c.line && 0 <= c.index && x in Remaining(segs, c)
    ensures 0 <= k < |segs| && segs[k].Contains(x.key) && segs[k].data[x.key - segs[k].start] == x.value
    decreases |segs| - c.line, if c.line < |segs| then |segs[c.line].data| - c.index else 0
  {
    if c.index >= |segs[c.line].data| {
      k := RemainingFromRecords(segs, Cursor(c.line + 1, 0), x);
    } else if x == EntryAt(segs, c) {
      k := c.line;
    } else {
      k := RemainingFromRecords(segs, Cursor(c.line, c.index + 1), x);
    }
  }

  /** Every byte of the cursor's record from the cursor on, and of every later record, is to come. */
  lemma {:induction false} RemainingComplete(segs: seq<Segment>, c: Cursor, k: int, j: int)
    requires 0 <= c.line <= k < |segs| && 0 <= c.index && 0 <= j < |segs[k].data|
    requires k == c.line ==> c.index <= j
    ensures EntryAt(segs, Cursor(k, j)) in Remaining(segs, c)
    decreases |segs| - c.line, |segs[c.line].data| - c.index
  {
    if c.index >= |segs[c.line].data| {
      RemainingComplete(segs, Cursor(c.line + 1, 0), k, j);
    } else if c != Cursor(k, j) {
      RemainingComplete(segs, Cursor(c.line, c.index + 1), k, j);
    }
  }

  /** Over ordered records an entry to come carries the byte the records define at its address. */
  lemma EntryDefined(segs: seq<Segment>, c: Cursor, x: ByteEntry)
    requires Ordered(segs) && 0 <= c.line && 0 <= c.index && x in Remaining(segs, c)
    ensures ByteAt(segs, x.key) == Some(x.value)
  {
    OrderedIsDisjoint(segs);
    var k := RemainingFromRecords(segs, c, x);
    ByteAtDisjoint(segs, k, x.key);
  }

  /** Over ordered records every defined byte is to come from a fresh cursor. */
  lemma DefinedIsEntry(segs: seq<Segment>, a: int)
    requires Ordered(segs) && ByteAt(segs, a).Some?
    ensures ByteEntry(a, ByteAt(segs, a).value) in Remaining(segs, Cursor(0, 0))
  {
    OrderedIsDisjoint(segs);
    var k :| 0 <= k < |segs| && segs[k].Contains(a);
    ByteAtDisjoint(segs, k, a);
    RemainingComplete(segs, Cursor(0, 0), k, a - segs[k].start);
  }

  /**
   * A fresh iterator over an ordered index yields exactly the bytes the
   * records define, each with its full address, in strictly ascending
   * address order.
   */
  lemma IterationInAddressOrder(segs: seq<Segment>)
    requires Ordered(segs)
    ensures var r := Remaining(segs, Cursor(0, 0));
      && Ascending(r)
      && (forall x :: x in r ==> ByteAt(segs, x.key) == Some(x.value))
      && (forall a :: ByteAt(segs, a).Some? ==> ByteEntry(a, ByteAt(segs, a).value) in r)
  {
    var r := Remaining(segs, Cursor(0, 0));
    RemainingAscending(segs, Cursor(0, 0));
    forall x | x in r
      ensures ByteAt(segs, x.key) == Some(x.value)
    {
      EntryDefined(segs, Cursor(0, 0), x);
    }
    forall a | ByteAt(segs, a).Some?
      ensures ByteEntry(a, ByteAt(segs, a).value) in r
    {
      DefinedIsEntry(segs, a);
    }
  }
}
