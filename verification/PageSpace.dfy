/** How much room records need, and what that says about vacuuming: no page holds the same
    records in less space, and a heap page never survives it. */
module PageSpace {
  import opened Bytes
  import opened PageFormat
  import opened PageVacuum
  import HeapPage

  ghost predicate InRange(s: set<int>, lo: int, hi: int) {
    forall b | b in s :: lo <= b < hi
  }

  lemma UnionInRange(s: set<int>, r: set<int>, lo: int, hi: int)
    requires InRange(s, lo, hi) && InRange(r, lo, hi)
    ensures InRange(s + r, lo, hi)
  {
  }

  lemma RangesApart(s: set<int>, lo: int, hi: int, r: set<int>, lo': int, hi': int)
    requires InRange(s, lo, hi) && InRange(r, lo', hi') && (hi <= lo' || hi' <= lo)
    ensures s !! r
  {
    forall b: int | b in s ensures b !in r {
    }
  }

  lemma {:induction false} RangeBoundsSize(s: set<int>, lo: int, hi: int)
    requires lo <= hi && InRange(s, lo, hi)
    ensures |s| <= hi - lo
    decreases hi - lo
  {
    if lo == hi {
      RangesApart(s, lo, lo, s, lo, lo);
      assert s == s * s == {};
    } else {
      RangeBoundsSize(s - {hi - 1}, lo, hi - 1);
      assert |s| <= |s - {hi - 1}| + 1;
    }
  }

  /** The numbers from `lo` up to but not including `lo + n`. */
  ghost function Range(lo: int, n: nat): (r: set<int>)
    ensures InRange(r, lo, lo + n) && |r| == n
  {
    if n == 0 then {} else Range(lo, n - 1) + {lo + n - 1}
  }

  /** The bytes of the page that a slot occupies. */
  ghost function Span(x: Slot): (r: set<int>)
    ensures |r| == if x.deleted then 0 else x.size
  {
    if x.deleted then {} else Range(x.offset, x.size)
  }

  lemma ApartSpans(x: Slot, y: Slot)
    requires Apart(x, y)
    ensures Span(x) !! Span(y)
  {
    var a, b := Range(x.offset, x.size), Range(y.offset, y.size);
    if x.size > 0 && y.size > 0 {
      RangesApart(a, x.offset, x.offset + x.size, b, y.offset, y.offset + y.size);
    }
  }

  /** The bytes of the page that the live slots among the first `n` occupy. */
  ghost function Occupied(slots: seq<Slot>, n: nat): set<int>
    requires n <= |slots|
  {
    if n == 0 then {} else Occupied(slots, n - 1) + Span(slots[n - 1])
  }

  lemma UnionApart(a: set<int>, b: set<int>, c: set<int>)
    requires a !! c && b !! c
    ensures a + b !! c
  {
  }

  lemma UnionSize(a: set<int>, b: set<int>)
    requires a !! b
    ensures |a + b| == |a| + |b|
  {
  }

  /** No earlier slot shares a byte with the slot `x`. */
  lemma {:induction false} ApartFromEarlier(slots: seq<Slot>, n: nat, x: Slot)
    requires n <= |slots| && forall i | 0 <= i < n :: Apart(slots[i], x)
    ensures Occupied(slots, n) !! Span(x)
  {
    if n > 0 {
      ApartFromEarlier(slots, n - 1, x);
      ApartSpans(slots[n - 1], x);
      UnionApart(Occupied(slots, n - 1), Span(slots[n - 1]), Span(x));
    }
  }

  lemma OccupiedGrows(slots: seq<Slot>, n: nat)
    requires 0 < n <= |slots| && forall i | 0 <= i < n - 1 :: Apart(slots[i], slots[n - 1])
    ensures |Occupied(slots, n)| == |Occupied(slots, n - 1)| + if slots[n - 1].deleted then 0 else slots[n - 1].size
  {
    ApartFromEarlier(slots, n - 1, slots[n - 1]);
    UnionSize(Occupied(slots, n - 1), Span(slots[n - 1]));
  }

  lemma {:induction false} OccupiedWithin(l: Layout, limit: nat, n: nat)
    requires WfLayout(l, limit) && n <= |l.slots|
    ensures InRange(Occupied(l.slots, n), l.freeEnd, limit)
  {
    if n > 0 {
      OccupiedWithin(l, limit, n - 1);
      var x := l.slots[n - 1];
      assert Within(x, l.freeEnd, limit);
      UnionInRange(Occupied(l.slots, n - 1), Span(x), l.freeEnd, limit);
    }
  }

  /** Disjoint extents occupy as many bytes as their sizes add up to. */
  lemma {:induction false} OccupiedSize(l: Layout, limit: nat, n: nat)
    requires WfLayout(l, limit) && n <= |l.slots|
    ensures |Occupied(l.slots, n)| == PlacedBytes(l.slots, {}, n)
  {
    if n > 0 {
      OccupiedSize(l, limit, n - 1);
      OccupiedGrows(l.slots, n) by {
        forall i | 0 <= i < n - 1 ensures Apart(l.slots[i], l.slots[n - 1]) {
        }
      }
    }
  }

  /** The live records of a page fit between the end of free space and the limit. */
  lemma RecordsFit(l: Layout, limit: nat)
    requires WfLayout(l, limit)
    ensures LiveBytes(l.slots) <= limit - l.freeEnd
  {
    OccupiedSize(l, limit, |l.slots|);
    OccupiedWithin(l, limit, |l.slots|);
    RangeBoundsSize(Occupied(l.slots, |l.slots|), l.freeEnd, limit);
  }

  // ----- the size of the records is a matter of the records alone

  ghost function RecordBytes(m: map<nat, seq<byte>>, n: nat): nat {
    if n == 0 then 0 else RecordBytes(m, n - 1) + if n - 1 in m then |m[n - 1]| else 0
  }

  lemma {:induction false} LiveBytesOfRecords(slots: seq<Slot>, s: seq<byte>, n: nat)
    requires |s| == PAGE_SIZE && InPage(slots) && n <= |slots|
    ensures PlacedBytes(slots, {}, n) == RecordBytes(RecordsOf(slots, s), n)
  {
    if n > 0 {
      LiveBytesOfRecords(slots, s, n - 1);
    }
  }

  lemma {:induction false} NoMoreRecords(m: map<nat, seq<byte>>, n: nat, k: nat)
    requires n <= k && forall i | i in m :: i < n
    ensures RecordBytes(m, k) == RecordBytes(m, n)
  {
    if n < k {
      NoMoreRecords(m, n, k - 1);
    }
  }

  lemma SameRecordsSameBytes(s: seq<byte>, r: seq<byte>)
    requires Readable(s) && Readable(r) && Records(s) == Records(r)
    ensures LiveBytes(Slots(s)) == LiveBytes(Slots(r))
  {
    LiveBytesOfRecords(Slots(s), s, Capacity(s));
    LiveBytesOfRecords(Slots(r), r, Capacity(r));
    var n := if Capacity(s) <= Capacity(r) then Capacity(r) else Capacity(s);
    NoMoreRecords(Records(s), Capacity(s), n);
    NoMoreRecords(Records(r), Capacity(r), n);
  }

  // ----- consequences

  /** No well-formed page with the same records has its free space end higher. */
  lemma VacuumIsOptimal(s: seq<byte>, r: seq<byte>, other: seq<byte>, limit: nat)
    requires IsVacuumed(s, r) && Wf(other, limit) && Readable(other) && Records(other) == Records(s)
    ensures FreeEnd(other) <= FreeEnd(r)
  {
    RecordsFit(LayoutOf(other), limit);
    SameRecordsSameBytes(s, other);
  }

  /** Vacuuming compacts into the bytes of the links: what it leaves is never a heap page. */
  lemma VacuumBreaksHeapPages(s: seq<byte>, r: seq<byte>)
    requires HeapPage.Wf(s) && IsVacuumed(s, r)
    ensures !HeapPage.Wf(r)
  {
    SameRecordsSameBytes(s, r);
    if HeapPage.Wf(r) {
      RecordsFit(LayoutOf(r), HeapPage.LIMIT);
    }
  }
}
