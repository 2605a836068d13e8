/** `VacuumPage` compacts the live records of a page against its end.

    Records are moved in the order of a priority queue on their offsets, highest first, with
    moves that may overlap their own source. The invariant `Compacting` says why no move
    damages a record that is still waiting. */
module PageVacuum {
  import opened Bytes
  import opened PageFormat

  /** A queued record: the slot and the extent it had when the scan saw it. */
  datatype Entry = Entry(id: nat, offset: nat, size: nat)

  ghost function EntryOf(slots: seq<Slot>, i: nat): Entry
    requires i < |slots|
  {
    Entry(i, slots[i].offset, slots[i].size)
  }

  /** Bytes held by the live slots among the first `n` that are not in the queue. */
  ghost function PlacedBytes(slots: seq<Slot>, pq: set<Entry>, n: nat): nat
    requires n <= |slots|
  {
    if n == 0 then 0
    else PlacedBytes(slots, pq, n - 1) +
         if slots[n - 1].deleted || EntryOf(slots, n - 1) in pq then 0 else slots[n - 1].size
  }

  /** Total size of the live records. */
  ghost function LiveBytes(slots: seq<Slot>): nat { PlacedBytes(slots, {}, |slots|) }

  lemma {:induction false} PlacedAfterPop(slots: seq<Slot>, pq: set<Entry>, e: Entry, n: nat)
    requires n <= |slots| && e in pq && e.id < |slots| && e == EntryOf(slots, e.id) && !slots[e.id].deleted
    ensures PlacedBytes(slots, pq - {e}, n) == PlacedBytes(slots, pq, n) + if e.id < n then e.size else 0
  {
    if n > 0 {
      PlacedAfterPop(slots, pq, e, n - 1);
    }
  }

  lemma {:induction false} NothingPlaced(slots: seq<Slot>, pq: set<Entry>, n: nat)
    requires n <= |slots| && forall i | 0 <= i < n && !slots[i].deleted :: EntryOf(slots, i) in pq
    ensures PlacedBytes(slots, pq, n) == 0
  {
    if n > 0 {
      NothingPlaced(slots, pq, n - 1);
    }
  }

  ghost predicate Top(pq: set<Entry>, e: Entry) {
    e in pq && forall f | f in pq :: f.offset <= e.offset
  }

  lemma {:induction false} TopExists(pq: set<Entry>)
    requires pq != {}
    ensures exists e :: Top(pq, e)
  {
    var x :| x in pq;
    if pq - {x} == {} {
      assert pq == {x};
      assert Top(pq, x);
    } else {
      TopExists(pq - {x});
      var e :| Top(pq - {x}, e);
      assert Top(pq, if x.offset <= e.offset then e else x);
    }
  }

  /** How slot `i` of the current directory `b` relates to the original directory `a`: a
      deleted slot lost its extent, a queued record is where it was and ends below `fe`,
      and a placed record lies above `fe`. */
  ghost predicate SlotState(a: seq<Slot>, b: seq<Slot>, pq: set<Entry>, fe: nat, i: nat)
    requires i < |a| == |b|
  {
    && b[i].deleted == a[i].deleted
    && b[i].size == (if a[i].deleted then 0 else a[i].size)
    && b[i].offset + b[i].size <= PAGE_SIZE
    && (!a[i].deleted && EntryOf(a, i) in pq ==> b[i] == a[i] && (a[i].size > 0 ==> a[i].offset + a[i].size <= fe))
    && (!a[i].deleted && EntryOf(a, i) !in pq && a[i].size > 0 ==> fe <= b[i].offset)
  }

  ghost predicate Placed(a: seq<Slot>, pq: set<Entry>, i: nat)
    requires i < |a|
  {
    !a[i].deleted && EntryOf(a, i) !in pq
  }

  /** Directory part of the compaction invariant. */
  ghost predicate Compacting(a: seq<Slot>, b: seq<Slot>, pq: set<Entry>, fe: nat, low: nat) {
    && |a| == |b|
    && low <= fe <= PAGE_SIZE
    && fe + PlacedBytes(a, pq, |a|) == PAGE_SIZE
    && (forall e | e in pq :: e.id < |a| && e == EntryOf(a, e.id) && !a[e.id].deleted)
    && (forall i | 0 <= i < |a| :: SlotState(a, b, pq, fe, i))
    && (forall i, j {:trigger Apart(b[i], b[j])} | 0 <= i < j < |a| && Placed(a, pq, i)
          && Placed(a, pq, j) :: Apart(b[i], b[j]))
  }

  /** Slot `i` of `b` reads in `s` what slot `i` of `a` reads in `s0`. */
  ghost predicate SameRecord(a: seq<Slot>, s0: seq<byte>, b: seq<Slot>, s: seq<byte>, i: nat)
    requires |s0| == |s| == PAGE_SIZE && i < |a| == |b|
  {
    && a[i].offset + a[i].size <= PAGE_SIZE && b[i].offset + b[i].size <= PAGE_SIZE
    && (!a[i].deleted ==> Extent(s, b[i]) == Extent(s0, a[i]))
  }

  /** Byte part: every live slot of `b` still reads its original record. */
  ghost predicate SameRecords(a: seq<Slot>, s0: seq<byte>, b: seq<Slot>, s: seq<byte>) {
    && |s0| == |s| == PAGE_SIZE && |a| == |b|
    && forall i {:trigger SameRecord(a, s0, b, s, i)} | 0 <= i < |a| :: SameRecord(a, s0, b, s, i)
  }

  /** Every queued record ends below the place the top entry moves to. */
  lemma QueueBelowTop(l: Layout, limit: nat, b: seq<Slot>, pq: set<Entry>, fe: nat, e: Entry)
    requires WfLayout(l, limit) && Compacting(l.slots, b, pq, fe, l.freeEnd) && Top(pq, e)
    ensures e.size <= fe && l.freeEnd <= fe - e.size && e.offset + e.size <= PAGE_SIZE
    ensures e.size > 0 ==> e.offset <= fe - e.size
    ensures forall i | 0 <= i < |b| && !l.slots[i].deleted && EntryOf(l.slots, i) in pq && i != e.id && b[i].size > 0
            && e.size > 0 ::
              b[i].offset + b[i].size <= e.offset
  {
    var a := l.slots;
    assert SlotState(a, b, pq, fe, e.id);
    assert Within(a[e.id], l.freeEnd, limit);
    forall i | 0 <= i < |b| && !a[i].deleted && EntryOf(a, i) in pq && i != e.id && b[i].size > 0 && e.size > 0
      ensures b[i].offset + b[i].size <= e.offset
    {
      assert SlotState(a, b, pq, fe, i);
      assert if i < e.id then Apart(a[i], a[e.id]) else Apart(a[e.id], a[i]);
      assert EntryOf(a, i).offset <= e.offset;
    }
  }

  /** What moving the top record means for slot `i`. */
  lemma SlotAfterMove(a: seq<Slot>, b: seq<Slot>, pq: set<Entry>, fe: nat, e: Entry, i: nat)
    requires i < |a| == |b| && e.id < |a| && e in pq && e == EntryOf(a, e.id) && !a[e.id].deleted
             && e.size <= fe <= PAGE_SIZE
    requires SlotState(a, b, pq, fe, i) && SlotState(a, b, pq, fe, e.id)
    requires !a[i].deleted && EntryOf(a, i) in pq && i != e.id && b[i].size > 0 && e.size > 0 ==>
             b[i].offset + b[i].size <= fe - e.size
    ensures SlotState(a, b[e.id := b[e.id].(offset := fe - e.size)], pq - {e}, fe - e.size, i)
    ensures i != e.id ==> (Placed(a, pq - {e}, i) <==> Placed(a, pq, i))
    ensures i != e.id && Placed(a, pq, i) ==> Apart(b[i], b[e.id].(offset := fe - e.size))
  {
  }

  /** Moving the top record up to `fe` keeps the directory invariant. */
  lemma PlaceTop(l: Layout, limit: nat, b: seq<Slot>, pq: set<Entry>, fe: nat, e: Entry)
    requires WfLayout(l, limit) && Compacting(l.slots, b, pq, fe, l.freeEnd) && Top(pq, e) && e.size <= fe
    ensures Compacting(l.slots, b[e.id := b[e.id].(offset := fe - e.size)], pq - {e}, fe - e.size, l.freeEnd)
  {
    var a := l.slots;
    var fe', pq' := fe - e.size, pq - {e};
    var b' := b[e.id := b[e.id].(offset := fe')];
    QueueBelowTop(l, limit, b, pq, fe, e);
    PlacedAfterPop(a, pq, e, |a|);
    assert SlotState(a, b, pq, fe, e.id);
    forall i | 0 <= i < |a| ensures SlotState(a, b', pq', fe', i) {
      assert SlotState(a, b, pq, fe, i);
      SlotAfterMove(a, b, pq, fe, e, i);
    }
    forall i, j | 0 <= i < j < |a| && Placed(a, pq', i) && Placed(a, pq', j) ensures Apart(b'[i], b'[j]) {
      assert SlotState(a, b, pq, fe, i) && SlotState(a, b, pq, fe, j);
      SlotAfterMove(a, b, pq, fe, e, i);
      SlotAfterMove(a, b, pq, fe, e, j);
      if i != e.id && j != e.id {
        assert Apart(b[i], b[j]);
      }
    }
  }

  /** The move of the top record damages no other live record. */
  lemma MoveIsSafe(l: Layout, limit: nat, s0: seq<byte>, b: seq<Slot>, s: seq<byte>, pq: set<Entry>, fe: nat, e: Entry)
    requires WfLayout(l, limit) && Compacting(l.slots, b, pq, fe, l.freeEnd) && Top(pq, e)
    requires SameRecords(l.slots, s0, b, s) && e.size <= fe && e.offset + e.size <= PAGE_SIZE
    ensures var r := Splice(s, fe - e.size, s[e.offset..e.offset + e.size]);
            SameRecords(l.slots, s0, b[e.id := b[e.id].(offset := fe - e.size)], r)
  {
    var a := l.slots;
    var data := s[e.offset..e.offset + e.size];
    var r := Splice(s, fe - e.size, data);
    var b' := b[e.id := b[e.id].(offset := fe - e.size)];
    QueueBelowTop(l, limit, b, pq, fe, e);
    assert SlotState(a, b, pq, fe, e.id);
    assert SameRecord(a, s0, b, s, e.id) && Extent(s, b[e.id]) == data;
    forall i | 0 <= i < |a| ensures SameRecord(a, s0, b', r, i) {
      assert SlotState(a, b, pq, fe, i) && SameRecord(a, s0, b, s, i);
      if i != e.id && !a[i].deleted {
        SpliceMisses(s, fe - e.size, data, b[i]);
      }
    }
  }

  /** With the queue empty, the compacted directory is well-formed. */
  lemma CompactedIsWf(l: Layout, limit: nat, b: seq<Slot>, fe: nat)
    requires WfLayout(l, limit) && Compacting(l.slots, b, {}, fe, l.freeEnd)
    ensures WfLayout(Layout(l.tuples, fe, b), PAGE_SIZE)
    ensures fe == PAGE_SIZE - LiveBytes(l.slots)
    ensures forall i | 0 <= i < |b| :: b[i].deleted == l.slots[i].deleted && (b[i].deleted ==> b[i].size == 0)
  {
    var a := l.slots;
    forall i | 0 <= i < |a| ensures Within(b[i], fe, PAGE_SIZE) && b[i].deleted == a[i].deleted
        && (b[i].deleted ==> b[i].size == 0) {
      assert SlotState(a, b, {}, fe, i);
    }
    forall i, j | 0 <= i < j < |a| ensures Apart(b[i], b[j]) {
      assert SlotState(a, b, {}, fe, i) && SlotState(a, b, {}, fe, j);
      assert Placed(a, {}, i) && Placed(a, {}, j) ==> Apart(b[i], b[j]);
    }
    LiveBelowPrefix(a, b, |a|);
  }

  lemma SameRecordsSameMap(a: seq<Slot>, s0: seq<byte>, b: seq<Slot>, s: seq<byte>)
    requires SameRecords(a, s0, b, s) && forall i | 0 <= i < |a| :: b[i].deleted == a[i].deleted
    ensures InPage(a) && InPage(b) && RecordsOf(b, s) == RecordsOf(a, s0)
  {
    forall i | 0 <= i < |a|
      ensures a[i].offset + a[i].size <= PAGE_SIZE && b[i].offset + b[i].size <= PAGE_SIZE
      ensures !a[i].deleted ==> Extent(s, b[i]) == Extent(s0, a[i])
    {
      assert SameRecord(a, s0, b, s, i);
    }
  }

  /** Updates below the records damage none of them. */
  lemma DirectoryEditIsSafe(l: Layout, limit: nat, b: seq<Slot>, pq: set<Entry>, fe: nat, s0: seq<byte>, s: seq<byte>,
                            r: seq<byte>)
    requires WfLayout(l, limit) && Compacting(l.slots, b, pq, fe, l.freeEnd)
    requires SameRecords(l.slots, s0, b, s) && SameBody(s, r, EntryAt(|b|))
    ensures SameRecords(l.slots, s0, b, r)
  {
    var a := l.slots;
    forall i | 0 <= i < |a| ensures SameRecord(a, s0, b, r, i) {
      assert SlotState(a, b, pq, fe, i) && Within(a[i], l.freeEnd, limit) && SameRecord(a, s0, b, s, i);
      assert !a[i].deleted ==> Extent(r, b[i]) == Extent(s, b[i]);
    }
  }

  /** The invariant holds when the scan has filled the queue. */
  lemma StartsCompacting(l: Layout, limit: nat, s0: seq<byte>, r: seq<byte>, pq: set<Entry>)
    requires WfLayout(l, limit) && limit <= PAGE_SIZE && InPage(l.slots) && SameBody(s0, r, EntryAt(|l.slots|))
    requires forall e | e in pq :: e.id < |l.slots| && e == EntryOf(l.slots, e.id) && !l.slots[e.id].deleted
    requires forall i | 0 <= i < |l.slots| && !l.slots[i].deleted :: EntryOf(l.slots, i) in pq
    ensures Compacting(l.slots, Cleared(l.slots, |l.slots|), pq, PAGE_SIZE, l.freeEnd)
    ensures SameRecords(l.slots, s0, Cleared(l.slots, |l.slots|), r)
  {
    var a := l.slots;
    var b := Cleared(a, |a|);
    NothingPlaced(a, pq, |a|);
    forall i | 0 <= i < |a| ensures SlotState(a, b, pq, PAGE_SIZE, i) && SameRecord(a, s0, b, s0, i) {
      assert Within(a[i], l.freeEnd, limit);
    }
    assert SameRecords(a, s0, b, s0);
    DirectoryEditIsSafe(l, limit, b, pq, PAGE_SIZE, s0, s0, r);
  }

  /** The directory after the scan has emptied the deleted slots among the first `n`. */
  ghost function Cleared(a: seq<Slot>, n: nat): (b: seq<Slot>)
    ensures |b| == |a|
  {
    seq(|a|, i requires 0 <= i < |a| => if i < n && a[i].deleted then a[i].(size := 0) else a[i])
  }

  lemma ClearedNext(a: seq<Slot>, n: nat)
    requires n < |a|
    ensures Cleared(a, n + 1) == if a[n].deleted then Cleared(a, n)[n := a[n].(size := 0)] else Cleared(a, n)
  {
  }

  /** The queue holds the live slots among the first `n`, with the extents they have. */
  ghost predicate Queued(slots: seq<Slot>, pq: set<Entry>, n: nat) {
    && n <= |slots|
    && (forall e | e in pq :: e.id < n && e == EntryOf(slots, e.id) && !slots[e.id].deleted)
    && (forall i | 0 <= i < n && !slots[i].deleted :: EntryOf(slots, i) in pq)
  }

  lemma QueuedNext(slots: seq<Slot>, pq: set<Entry>, n: nat)
    requires Queued(slots, pq, n) && n < |slots|
    ensures Queued(slots, if slots[n].deleted then pq else pq + {EntryOf(slots, n)}, n + 1)
  {
  }

  /** Scan of the directory: deleted slots give up their extent, live ones are queued. */
  method CollectLive(p: array<byte>) returns (pq: set<Entry>)
    requires p.Length == PAGE_SIZE && HasDirectory(p[..])
    modifies p
    ensures HasDirectory(p[..]) && SameBody(old(p[..]), p[..], FreeStart(p[..]))
    ensures LayoutOf(p[..]) == old(LayoutOf(p[..])).(slots := Cleared(old(Slots(p[..])), old(Capacity(p[..]))))
    ensures Queued(old(Slots(p[..])), pq, old(Capacity(p[..])))
  {
    ghost var s0 := p[..];
    ghost var l := LayoutOf(s0);
    pq := {};
    var id := 0;
    assert Cleared(l.slots, 0) == l.slots;
    while id < Capacity(p[..])
      invariant id <= |l.slots| && HasDirectory(p[..]) && SameBody(s0, p[..], FreeStart(p[..]))
      invariant LayoutOf(p[..]) == l.(slots := Cleared(l.slots, id)) && Queued(l.slots, pq, id)
    {
      QueuedNext(l.slots, pq, id);
      var x := GetSlot(p, id);
      if x.deleted {
        SetSlotSize(p, id, 0);
      } else {
        pq := pq + {Entry(id, x.offset, x.size)};
      }
      ClearedNext(l.slots, id);
      id := id + 1;
    }
  }

  /** State of the page between two moves. */
  ghost predicate MidVacuum(s0: seq<byte>, s: seq<byte>, pq: set<Entry>, fe: nat)
    requires HasDirectory(s0)
  {
    && HasDirectory(s) && Tuples(s) == Tuples(s0) && FreeEnd(s) == FreeEnd(s0)
    && Compacting(Slots(s0), Slots(s), pq, fe, FreeEnd(s0))
    && SameRecords(Slots(s0), s0, Slots(s), s)
    && s[..NUM_TUPLES] == s0[..NUM_TUPLES]
  }

  /** One round: the record with the highest offset goes to the end of the free space. */
  method MoveTop(p: array<byte>, pq: set<Entry>, fe: nat, ghost s0: seq<byte>, ghost limit: nat)
    returns (pq': set<Entry>, fe': nat)
    requires p.Length == PAGE_SIZE && Wf(s0, limit) && MidVacuum(s0, p[..], pq, fe) && pq != {}
    modifies p
    ensures MidVacuum(s0, p[..], pq', fe') && pq' < pq
  {
    ghost var s := p[..];
    var e := PopTop(pq);
    QueueBelowTop(LayoutOf(s0), limit, Slots(s), pq, fe, e);
    pq', fe' := pq - {e}, fe - e.size;
    MoveRecord(p, e, fe');
    MovedTop(s0, limit, s, pq, fe, e, p[..]);
  }

  /** Copies the bytes of a queued record to `to` and redirects its entry. */
  method MoveRecord(p: array<byte>, e: Entry, to: nat)
    requires p.Length == PAGE_SIZE && HasDirectory(p[..]) && e.id < Capacity(p[..])
    requires FreeStart(p[..]) <= to && to + e.size <= PAGE_SIZE && e.offset + e.size <= PAGE_SIZE
    modifies p
    ensures HasDirectory(p[..])
    ensures SameBody(Splice(old(p[..]), to, old(p[..])[e.offset..e.offset + e.size]), p[..], FreeStart(p[..]))
    ensures LayoutOf(p[..]) == WithSlot(old(LayoutOf(p[..])), e.id, old(Slots(p[..]))[e.id].(offset := to))
  {
    ghost var s := p[..];
    MemMove(p, to, e.offset, e.size);
    assert p[..] == Splice(s, to, s[e.offset..e.offset + e.size]);
    DirectoryKept(s, p[..]);
    SetSlotOffset(p, e.id, to);
  }

  /** The round as a whole: the top record is copied, then its entry is redirected. */
  lemma MovedTop(s0: seq<byte>, limit: nat, s: seq<byte>, pq: set<Entry>, fe: nat, e: Entry, q: seq<byte>)
    requires Wf(s0, limit) && MidVacuum(s0, s, pq, fe) && Top(pq, e) && e.id < Capacity(s)
    requires e.size <= fe && e.offset + e.size <= PAGE_SIZE
    requires HasDirectory(q) && SameBody(Splice(s, fe - e.size, s[e.offset..e.offset + e.size]), q, FreeStart(q))
    requires LayoutOf(q) == WithSlot(LayoutOf(s), e.id, Slots(s)[e.id].(offset := fe - e.size))
    requires FreeStart(s) <= fe - e.size
    ensures MidVacuum(s0, q, pq - {e}, fe - e.size)
  {
    var l, r := LayoutOf(s0), Splice(s, fe - e.size, s[e.offset..e.offset + e.size]);
    MoveIsSafe(l, limit, s0, Slots(s), s, pq, fe, e);
    PlaceTop(l, limit, Slots(s), pq, fe, e);
    assert |Slots(q)| == |Slots(s)|;
    DirectoryEditIsSafe(l, limit, Slots(q), pq - {e}, fe - e.size, s0, r, q);
  }

  /** The top of the priority queue; ties are broken arbitrarily. */
  method PopTop(pq: set<Entry>) returns (e: Entry)
    requires pq != {}
    ensures Top(pq, e)
  {
    TopExists(pq);
    e :| e in pq && forall f | f in pq :: f.offset <= e.offset;
  }

  lemma StartsVacuum(s0: seq<byte>, limit: nat, r: seq<byte>, pq: set<Entry>)
    requires Wf(s0, limit) && HasDirectory(r) && SameBody(s0, r, FreeStart(s0))
    requires LayoutOf(r) == LayoutOf(s0).(slots := Cleared(Slots(s0), Capacity(s0)))
    requires Queued(Slots(s0), pq, Capacity(s0))
    ensures MidVacuum(s0, r, pq, PAGE_SIZE)
  {
    WfIsReadable(s0, limit);
    StartsCompacting(LayoutOf(s0), limit, s0, r, pq);
  }

  /** `r` is what vacuuming makes of the page `s0`. */
  ghost predicate IsVacuumed(s0: seq<byte>, r: seq<byte>) {
    && Readable(s0) && Wf(r, PAGE_SIZE) && Readable(r)
    && Records(r) == Records(s0)
    && Tuples(r) == Tuples(s0) && Capacity(r) == Capacity(s0)
    && FreeEnd(r) == PAGE_SIZE - LiveBytes(Slots(s0))
    && (forall i | 0 <= i < Capacity(r) && Slots(r)[i].deleted :: Slots(r)[i].size == 0)
    && r[..NUM_TUPLES] == s0[..NUM_TUPLES]
  }

  lemma FinishedRecords(s0: seq<byte>, limit: nat, s: seq<byte>, fe: nat, r: seq<byte>)
    requires Wf(s0, limit) && MidVacuum(s0, s, {}, fe)
    requires HasDirectory(r) && SameBody(s, r, HEADER_SIZE) && Slots(r) == Slots(s)
    requires forall i | 0 <= i < Capacity(r) :: Slots(r)[i].deleted == Slots(s0)[i].deleted
    ensures Readable(s0) && Readable(r) && Records(r) == Records(s0)
  {
    DirectoryEditIsSafe(LayoutOf(s0), limit, Slots(s), {}, fe, s0, s, r);
    SameRecordsSameMap(Slots(s0), s0, Slots(r), r);
  }

  /** Storing the new end of free space finishes the compaction. */
  lemma FinishesVacuum(s0: seq<byte>, limit: nat, s: seq<byte>, fe: nat, r: seq<byte>)
    requires Wf(s0, limit) && MidVacuum(s0, s, {}, fe)
    requires HasDirectory(r) && SameBody(s, r, HEADER_SIZE) && LayoutOf(r) == LayoutOf(s).(freeEnd := fe)
    ensures IsVacuumed(s0, r)
  {
    CompactedIsWf(LayoutOf(s0), limit, Slots(s), fe);
    assert LayoutOf(r) == Layout(LayoutOf(s0).tuples, fe, Slots(s));
    FinishedRecords(s0, limit, s, fe, r);
  }

  /** Vacuuming keeps every live slot's id and bytes and the tuple count, frees exactly the
      space no live record uses, and leaves a well-formed plain page. */
  method VacuumPage(p: array<byte>, ghost limit: nat)
    requires p.Length == PAGE_SIZE && Wf(p[..], limit)
    modifies p
    ensures IsVacuumed(old(p[..]), p[..])
  {
    ghost var s0 := p[..];
    var pq := CollectLive(p);
    StartsVacuum(s0, limit, p[..], pq);
    var fe: nat := PAGE_SIZE;
    while pq != {}
      invariant MidVacuum(s0, p[..], pq, fe)
      decreases pq
    {
      pq, fe := MoveTop(p, pq, fe, s0, limit);
    }
    ghost var s := p[..];
    SetEndFreeSpace(p, fe);
    FinishesVacuum(s0, limit, s, fe, p[..]);
  }
}
