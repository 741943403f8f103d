/**
 * The address layout behind the record index: every data record seen as a
 * segment (full start address and data bytes), the sorted list of range
 * bounds the index searches, Java's binary search over it, and which byte
 * a layout holds at an address.
 */
module IndexLayout {
  import opened Wrappers
  import opened ByteUtils

  /**
   * Entry `i` of `s`. Pairwise properties of a sequence are stated over
   * this name rather than over `s[i]`, so that their quantifiers are only
   * instantiated where a proof asks about two entries.
   */
  function Entry<T>(s: seq<T>, i: int): T
    requires 0 <= i < |s|
  {
    s[i]
  }

  /** The bytes of one data record placed at its full start address. */
  datatype Segment = Segment(start: int, data: seq<byte>)
  {
    /** One past the last address the segment holds. */
    function End(): int { start + |data| }

    predicate Contains(address: int) { start <= address < End() }
  }

  /** Two segments that share no address. */
  predicate Apart(s: Segment, t: Segment)
  {
    s.End() <= t.start || t.End() <= s.start
  }

  /** No two segments of the layout share an address. */
  predicate Disjoint(segs: seq<Segment>)
  {
    forall i, j :: 0 <= i < j < |segs| ==> Apart(segs[i], segs[j])
  }

  /** Non-empty segments, each ending before the next one starts. */
  predicate Ordered(segs: seq<Segment>)
  {
    && (forall i :: 0 <= i < |segs| ==> |segs[i].data| >= 1)
    && (forall i, j :: 0 <= i < j < |segs| ==> Entry(segs, i).End() <= Entry(segs, j).start)
  }

  /** Start addresses in ascending order (the order the index sorts by). */
  predicate StartsAscending(segs: seq<Segment>)
  {
    forall i, j :: 0 <= i < j < |segs| ==> segs[i].start <= segs[j].start
  }

  /** Ascending, possibly with repetitions (what Java's binary search requires). */
  predicate Sorted(a: seq<int>)
  {
    forall i, j :: 0 <= i < j < |a| ==> a[i] <= a[j]
  }

  /**
   * The bound list the index keeps: first and last address of every
   * segment, in layout order.
   */
  function Bounds(segs: seq<Segment>): (b: seq<int>)
    ensures |b| == 2 * |segs|
  {
    seq(2 * |segs|, k requires 0 <= k < 2 * |segs| =>
      if k % 2 == 0 then segs[k / 2].start else segs[k / 2].start + |segs[k / 2].data| - 1)
  }

  /** The bound list of an ordered layout is sorted. */
  lemma BoundsSorted(segs: seq<Segment>)
    requires Ordered(segs)
    ensures Sorted(Bounds(segs))
  {
    var b := Bounds(segs);
    forall i, j | 0 <= i < j < |b|
      ensures b[i] <= b[j]
    {
      if i / 2 < j / 2 {
        assert Entry(segs, i / 2).End() <= Entry(segs, j / 2).start;
      }
    }
  }

  /**
   * Collections.binarySearch on a random-access list: returns an index
   * holding `key`, or `-(insertion point) - 1` when no element equals it.
   */
  method BinarySearch(a: seq<int>, key: int) returns (r: int)
    requires Sorted(a)
    ensures 0 <= r ==> r < |a| && a[r] == key
    ensures r < 0 ==> -r - 1 <= |a|
    ensures r < 0 ==> forall i :: 0 <= i < |a| ==> (a[i] < key <==> i < -r - 1)
    ensures r < 0 ==> key !in a
  {
    var low := 0;
    var high := |a| - 1;
    while low <= high
      invariant 0 <= low <= high + 1 <= |a|
      invariant forall i :: 0 <= i < low ==> a[i] < key
      invariant forall i :: high < i < |a| ==> a[i] > key
    {
      var mid := (low + high) / 2;
      if a[mid] < key {
        low := mid + 1;
      } else if a[mid] > key {
        high := mid - 1;
      } else {
        return mid;
      }
    }
    r := -(low + 1);
  }

  /** Where a key that is no bound falls in a sorted bound list. */
  predicate IsInsertionPoint(a: seq<int>, key: int, ip: int)
  {
    && 0 <= ip <= |a|
    && (forall i :: 0 <= i < |a| ==> (a[i] < key <==> i < ip))
    && key !in a
  }

  /** A key equal to a bound lies in that bound's segment. */
  lemma BoundInSegment(segs: seq<Segment>, k: int)
    requires Ordered(segs)
    requires 0 <= k < |Bounds(segs)|
    ensures segs[k / 2].Contains(Bounds(segs)[k])
  {
  }

  /**
   * A key strictly between two bounds lies in a segment exactly when the
   * insertion point is odd (between a first and a last address), and then
   * in segment `ip / 2`.
   */
  lemma InsertionPointMeaning(segs: seq<Segment>, key: int, ip: int)
    requires Ordered(segs)
    requires IsInsertionPoint(Bounds(segs), key, ip)
    ensures ip % 2 == 1 ==> segs[ip / 2].Contains(key)
    ensures ip % 2 == 0 ==> forall k :: 0 <= k < |segs| ==> !segs[k].Contains(key)
    ensures ip % 2 == 0 && 0 < ip ==> segs[ip / 2 - 1].End() <= key
    ensures ip % 2 == 0 && ip < |Bounds(segs)| ==> key < segs[ip / 2].start
  {
    var b := Bounds(segs);
    if ip % 2 == 0 {
      if 0 < ip {
        assert b[ip - 1] < key;
      }
      if ip < |b| {
        assert b[ip] >= key && b[ip] != key;
      }
      forall k | 0 <= k < |segs|
        ensures !segs[k].Contains(key)
      {
        if 2 * k < ip {
          assert b[2 * k + 1] < key;
        } else {
          assert b[2 * k] >= key;
          assert b[2 * k] != key;
        }
      }
    } else {
      assert b[ip - 1] < key;
      assert b[ip] >= key;
    }
  }

  /**
   * createLineInGap negates a search outcome `r` into `n`: the records
   * below and above the gap `(r * -1 - 1) / 2` then sit at `(n - 3) / 2`
   * and `(n - 1) / 2` of the index; for an odd outcome, `n` is twice the
   * gap plus one.
   */
  lemma NegatedOutcome(r: int, n: int)
    requires r < 0 && n == r * -1
    ensures (n - 1) / 2 == (r * -1 - 1) / 2 && (n - 3) / 2 == (r * -1 - 1) / 2 - 1
    ensures JavaRem(r, 2) != 0 ==> n == 2 * ((r * -1 - 1) / 2) + 1
  {
  }

  /**
   * What the outcome `r` of the binary search for `key` in the bound list
   * says about the layout: a found bound, or an odd insertion point, means
   * `key` lies in a segment; otherwise `key` lies in the gap before
   * segment `(-r - 1) / 2`.
   */
  lemma SearchOutcome(segs: seq<Segment>, key: int, r: int) returns (k: int)
    requires Ordered(segs)
    requires 0 <= r ==> r < |Bounds(segs)| && Bounds(segs)[r] == key
    requires r < 0 ==> IsInsertionPoint(Bounds(segs), key, -r - 1)
    ensures 0 <= r || JavaRem(r, 2) == 0 ==> 0 <= k < |segs| && segs[k].Contains(key)
    ensures r < 0 && JavaRem(r, 2) != 0 ==> forall j :: 0 <= j < |segs| ==> !segs[j].Contains(key)
    ensures r < 0 && JavaRem(r, 2) != 0 ==> 0 <= (r * -1 - 1) / 2 <= |segs|
    ensures r < 0 && JavaRem(r, 2) != 0 && 0 < (r * -1 - 1) / 2 ==> segs[(r * -1 - 1) / 2 - 1].End() <= key
    ensures r < 0 && JavaRem(r, 2) != 0 && (r * -1 - 1) / 2 < |segs| ==> key < segs[(r * -1 - 1) / 2].start
  {
    if 0 <= r {
      BoundInSegment(segs, r);
      k := r / 2;
    } else {
      InsertionPointMeaning(segs, key, -r - 1);
      assert (JavaRem(r, 2) == 0) == ((-r - 1) % 2 == 1);
      k := (-r - 1) / 2;
    }
  }

  /** The index of the first segment holding `address`, if any. */
  function SegmentAt(segs: seq<Segment>, address: int): (k: Option<nat>)
    ensures k.Some? ==> k.value < |segs| && segs[k.value].Contains(address)
    ensures k.Some? ==> forall j :: 0 <= j < k.value ==> !segs[j].Contains(address)
    ensures k.None? <==> forall j :: 0 <= j < |segs| ==> !segs[j].Contains(address)
  {
    if |segs| == 0 then None
    else if segs[0].Contains(address) then Some(0)
    else match SegmentAt(segs[1..], address)
      case Some(k) => Some(k + 1)
      case None => None
  }

  /** The byte a layout defines at `address`: from the first segment holding it. */
  function ByteAt(segs: seq<Segment>, address: int): (b: Option<byte>)
    ensures b.Some? <==> exists k :: 0 <= k < |segs| && segs[k].Contains(address)
  {
    match SegmentAt(segs, address)
    case Some(k) => Some(segs[k].data[address - segs[k].start])
    case None => None
  }

  /** In a disjoint layout the byte at an address comes from whichever segment holds it. */
  lemma ByteAtDisjoint(segs: seq<Segment>, k: int, address: int)
    requires Disjoint(segs)
    requires 0 <= k < |segs| && segs[k].Contains(address)
    ensures ByteAt(segs, address) == Some(segs[k].data[address - segs[k].start])
  {
    var j := SegmentAt(segs, address).value;
    assert j <= k;
  }

  /**
   * Bytes copied from segment `k` of a disjoint layout, for the addresses
   * `address + lo` up to `address + lo + n`, are the bytes the layout
   * defines there.
   */
  lemma CopiedFromSegment(segs: seq<Segment>, k: int, copy: seq<byte>, address: int, lo: int, n: int)
    requires Disjoint(segs) && 0 <= k < |segs|
    requires 0 <= lo && 0 <= n && lo + n <= |copy|
    requires segs[k].start <= address + lo && address + lo + n <= segs[k].End()
    requires forall i :: lo <= i < lo + n ==> copy[i] == segs[k].data[address + i - segs[k].start]
    ensures forall i :: lo <= i < lo + n ==> copy[i] == ByteAt(segs, address + i).GetOr(0)
  {
    forall i | lo <= i < lo + n
      ensures copy[i] == ByteAt(segs, address + i).GetOr(0)
    {
      ByteAtDisjoint(segs, k, address + i);
    }
  }

  lemma OrderedIsDisjoint(segs: seq<Segment>)
    requires Ordered(segs)
    ensures Disjoint(segs)
    ensures StartsAscending(segs)
  {
    forall i, j | 0 <= i < j < |segs|
      ensures Apart(segs[i], segs[j]) && segs[i].start <= segs[j].start
    {
      assert Entry(segs, i).End() <= Entry(segs, j).start;
    }
  }

  /**
   * Two disjoint layouts made of the same segments define the same bytes,
   * whatever their order.
   */
  lemma ByteAtSameSegments(s: seq<Segment>, t: seq<Segment>, address: int)
    requires Disjoint(s) && Disjoint(t)
    requires forall x :: x in s <==> x in t
    ensures ByteAt(s, address) == ByteAt(t, address)
  {
    match SegmentAt(s, address)
    case Some(k) =>
      assert s[k] in t;
      var j :| 0 <= j < |t| && t[j] == s[k];
      ByteAtDisjoint(t, j, address);
    case None =>
      if SegmentAt(t, address).Some? {
        var j := SegmentAt(t, address).value;
        assert t[j] in s;
        var k :| 0 <= k < |s| && s[k] == t[j];
      }
  }

  /** Placing a segment into a gap of an ordered layout keeps it ordered. */
  lemma InsertOrdered(segs: seq<Segment>, p: int, x: Segment)
    requires Ordered(segs)
    requires 0 <= p <= |segs| && |x.data| >= 1
    requires 0 < p ==> segs[p - 1].End() <= x.start
    requires p < |segs| ==> x.End() <= segs[p].start
    ensures Ordered(segs[..p] + [x] + segs[p..])
  {
    var t := segs[..p] + [x] + segs[p..];
    forall i, j | 0 <= i < j < |t|
      ensures Entry(t, i).End() <= Entry(t, j).start
    {
      InsertIndex(segs, p, x, i);
      InsertIndex(segs, p, x, j);
      if j < p {
        assert Entry(segs, i).End() <= Entry(segs, j).start;
      } else if i < p - 1 && j == p {
        assert Entry(segs, i).End() <= Entry(segs, p - 1).start;
      } else if i < p && j > p {
        assert Entry(segs, i).End() <= Entry(segs, j - 1).start;
      } else if i == p && j > p + 1 {
        assert Entry(segs, p).End() <= Entry(segs, j - 1).start;
      } else if i > p {
        assert Entry(segs, i - 1).End() <= Entry(segs, j - 1).start;
      }
    }
  }

  /** Where the elements of a sequence with one inserted element come from. */
  lemma InsertIndex<T>(s: seq<T>, p: int, x: T, j: int)
    requires 0 <= p <= |s| && 0 <= j <= |s|
    ensures (s[..p] + [x] + s[p..])[j] == if j < p then s[j] else if j == p then x else s[j - 1]
  {
  }

  /**
   * After placing a segment into a gap, the layout holds its bytes at its
   * addresses and the old bytes everywhere else.
   */
  lemma InsertByteAt(segs: seq<Segment>, p: int, x: Segment, address: int)
    requires Ordered(segs)
    requires 0 <= p <= |segs| && |x.data| >= 1
    requires 0 < p ==> segs[p - 1].End() <= x.start
    requires p < |segs| ==> x.End() <= segs[p].start
    ensures ByteAt(segs[..p] + [x] + segs[p..], address)
         == if x.Contains(address) then Some(x.data[address - x.start]) else ByteAt(segs, address)
  {
    var t := segs[..p] + [x] + segs[p..];
    InsertOrdered(segs, p, x);
    OrderedIsDisjoint(t);
    if x.Contains(address) {
      InsertIndex(segs, p, x, p);
      ByteAtDisjoint(t, p, address);
    } else {
      InsertByteElsewhere(segs, p, x, address);
    }
  }

  /** An inserted segment that does not hold `address` leaves its byte as it was. */
  lemma InsertByteElsewhere(segs: seq<Segment>, p: int, x: Segment, address: int)
    requires 0 <= p <= |segs| && !x.Contains(address)
    requires Disjoint(segs[..p] + [x] + segs[p..])
    ensures ByteAt(segs[..p] + [x] + segs[p..], address) == ByteAt(segs, address)
  {
    var t := segs[..p] + [x] + segs[p..];
    if SegmentAt(segs, address).Some? {
      var k := SegmentAt(segs, address).value;
      var k' := if k < p then k else k + 1;
      InsertIndex(segs, p, x, k');
      ByteAtDisjoint(t, k', address);
    } else {
      forall j | 0 <= j < |t|
        ensures !t[j].Contains(address)
      {
        InsertIndex(segs, p, x, j);
      }
    }
  }

  /** The bound list of a layout with an inserted segment has the segment's bounds inserted. */
  lemma InsertBounds(segs: seq<Segment>, p: int, x: Segment)
    requires 0 <= p <= |segs|
    ensures var b := Bounds(segs);
      Bounds(segs[..p] + [x] + segs[p..])
      == b[..2 * p] + [x.start, x.start + |x.data| - 1] + b[2 * p..]
  {
    var t := segs[..p] + [x] + segs[p..];
    var b := Bounds(segs);
    var lhs := Bounds(t);
    var rhs := b[..2 * p] + [x.start, x.start + |x.data| - 1] + b[2 * p..];
    assert |lhs| == |rhs|;
    forall k | 0 <= k < |lhs|
      ensures lhs[k] == rhs[k]
    {
      if k < 2 * p {
        assert t[k / 2] == segs[k / 2];
      } else if k >= 2 * p + 2 {
        assert t[k / 2] == segs[k / 2 - 1];
        assert (k - 2) / 2 == k / 2 - 1;
        assert (k - 2) % 2 == k % 2;
      }
    }
  }

  /**
   * Overwriting bytes of one segment in place (same start, same length)
   * keeps the layout ordered and changes the defined bytes exactly there.
   */
  lemma UpdateByteAt(segs: seq<Segment>, k: int, newData: seq<byte>, address: int)
    requires Ordered(segs)
    requires 0 <= k < |segs| && |newData| == |segs[k].data|
    ensures Ordered(segs[k := Segment(segs[k].start, newData)])
    ensures Bounds(segs[k := Segment(segs[k].start, newData)]) == Bounds(segs)
    ensures ByteAt(segs[k := Segment(segs[k].start, newData)], address)
         == if segs[k].Contains(address) then Some(newData[address - segs[k].start]) else ByteAt(segs, address)
  {
    var t := segs[k := Segment(segs[k].start, newData)];
    UpdateKeepsShape(segs, k, newData);
    OrderedIsDisjoint(t);
    if segs[k].Contains(address) {
      ByteAtDisjoint(t, k, address);
    } else {
      UpdateByteElsewhere(segs, k, newData, address);
    }
  }

  /** Overwriting a segment with as many bytes keeps every segment's bounds. */
  lemma UpdateKeepsShape(segs: seq<Segment>, k: int, newData: seq<byte>)
    requires Ordered(segs)
    requires 0 <= k < |segs| && |newData| == |segs[k].data|
    ensures Ordered(segs[k := Segment(segs[k].start, newData)])
    ensures Bounds(segs[k := Segment(segs[k].start, newData)]) == Bounds(segs)
  {
    var t := segs[k := Segment(segs[k].start, newData)];
    assert forall j :: 0 <= j < |t| ==> t[j].start == segs[j].start && |t[j].data| == |segs[j].data|;
    forall i, j | 0 <= i < j < |t|
      ensures Entry(t, i).End() <= Entry(t, j).start
    {
      assert Entry(segs, i).End() <= Entry(segs, j).start;
    }
    var bt, b := Bounds(t), Bounds(segs);
    forall i | 0 <= i < |bt|
      ensures bt[i] == b[i]
    {
    }
  }

  /** Overwriting a segment that does not hold `address` leaves its byte as it was. */
  lemma UpdateByteElsewhere(segs: seq<Segment>, k: int, newData: seq<byte>, address: int)
    requires 0 <= k < |segs| && |newData| == |segs[k].data| && !segs[k].Contains(address)
    requires Disjoint(segs[k := Segment(segs[k].start, newData)])
    ensures ByteAt(segs[k := Segment(segs[k].start, newData)], address) == ByteAt(segs, address)
  {
    var t := segs[k := Segment(segs[k].start, newData)];
    if SegmentAt(segs, address).Some? {
      var j := SegmentAt(segs, address).value;
      ByteAtDisjoint(t, j, address);
    } else {
      assert forall j :: 0 <= j < |t| ==> !t[j].Contains(address);
    }
  }
}
