/** Whole runs of page operations.

    What a page stands for is a sheet: the records by slot id, the sizes that deleted slots
    still hold, the number of slots and the free space. Each operation on the bytes performs
    a step of a small machine over sheets, so every run of operations on a page is a run of
    that machine, and what holds of all runs of the machine holds of every page. */
module PageRuns {
  import opened Bytes
  import opened Wrappers
  import opened PageFormat
  import opened PageSort
  import PageSpace
  import PageVacuum

  /** `holes` are the deleted slots with the sizes of their extents. */
  datatype Sheet = Sheet(capacity: nat, free: int, holes: map<nat, nat>, records: map<nat, seq<byte>>)

  datatype Op =
    | Init(pageType: byte)
    | Allocate(size: nat)
    | AllocateOrReuse(size: nat)
    | Delete(slot: nat)
    | Write(slot: nat, data: seq<byte>)
    | Vacuum
    | Swap(i: nat, j: nat)
    | ShiftLeft
    | Sort(less: Comparator)

  ghost function Holes(slots: seq<Slot>): map<nat, nat> {
    map i: nat | i < |slots| && slots[i].deleted :: slots[i].size
  }

  ghost function SheetOf(s: seq<byte>): Sheet
    requires Readable(s)
  {
    Sheet(Capacity(s), FreeEnd(s) - FreeStart(s), Holes(Slots(s)), Records(s))
  }

  // ----- the machine

  /** The records of the first `n` slots, in slot order. */
  ghost function Values(m: map<nat, seq<byte>>, n: nat): seq<seq<byte>> {
    if n == 0 then [] else Values(m, n - 1) + if n - 1 in m then [m[n - 1]] else []
  }

  ghost function ValuesOf(t: Sheet): seq<seq<byte>> { Values(t.records, t.capacity) }

  /** `m` numbers the records `vs` from 0 on. */
  ghost predicate Lists(m: map<nat, seq<byte>>, vs: seq<seq<byte>>) {
    && (forall i: nat | i in m :: i < |vs|)
    && (forall i: nat | i < |vs| :: i in m && m[i] == vs[i])
  }

  ghost predicate Adds(m: map<nat, seq<byte>>, m': map<nat, seq<byte>>, k: nat, size: nat) {
    k !in m && k in m' && |m'[k]| == size && m' - {k} == m
  }

  /** A new slot takes a record of `size` bytes. */
  ghost predicate Appends(t: Sheet, size: nat, k: nat, t': Sheet) {
    && k == t.capacity && size + ENTRY_SIZE <= t.free
    && t' == Sheet(t.capacity + 1, t.free - size - ENTRY_SIZE, t.holes, t'.records)
    && Adds(t.records, t'.records, k, size)
  }

  /** The deleted slot `k` is large enough for `size` bytes, or there is free space for them. */
  ghost predicate FitsHole(t: Sheet, k: nat, size: nat) { k in t.holes && (size <= t.holes[k] || size <= t.free) }

  /** The deleted slot `k` takes a record, in its old extent if that is large enough. */
  ghost predicate Reuses(t: Sheet, size: nat, k: nat, t': Sheet) {
    && FitsHole(t, k, size)
    && t' == Sheet(t.capacity, if size <= t.holes[k] then t.free else t.free - size, t.holes - {k}, t'.records)
    && Adds(t.records, t'.records, k, size)
  }

  /** The deleted slots of `t` from `n` on; slots whose record moved away are empty. */
  ghost function TrailingHoles(t: Sheet, n: nat): map<nat, nat> {
    map i: nat | n <= i < t.capacity :: if i in t.holes then t.holes[i] else 0
  }

  /** The free space of a plain page without the extents of its deleted slots. */
  ghost function FreeWhenCompact(t: Sheet): int {
    PAGE_SIZE - EntryAt(t.capacity) - PageSpace.RecordBytes(t.records, t.capacity)
  }

  /** `t'` keeps the slots and the records of `t`, under other slot ids. */
  ghost predicate Rearranged(t: Sheet, t': Sheet) {
    t'.capacity == t.capacity && multiset(ValuesOf(t')) == multiset(ValuesOf(t))
  }

  ghost predicate InOrder(less: Comparator, vs: seq<seq<byte>>) {
    forall i, j | 0 <= i < j < |vs| :: !less(vs[j], vs[i])
  }

  ghost predicate Step(op: Op, t: Sheet, out: Option<nat>, t': Sheet) {
    match op
    case Init(_) => t' == Sheet(0, PAGE_SIZE - HEADER_SIZE, map[], map[])
    case Allocate(size) =>
      if out.None? then t' == t && size + ENTRY_SIZE > t.free else Appends(t, size, out.value, t')
    case AllocateOrReuse(size) =>
      if out.None? then t' == t && size + ENTRY_SIZE > t.free && forall k | k in t.holes :: !FitsHole(t, k, size)
      else
        && (forall k: nat | k < out.value :: !FitsHole(t, k, size))
        && (if out.value in t.holes then Reuses(t, size, out.value, t') else Appends(t, size, out.value, t'))
    case Delete(k) =>
      t' == if k in t.records then t.(records := t.records - {k}, holes := t.holes[k := |t.records[k]|]) else t
    case Write(k, data) => t' == if Writable(t, k, data) then t.(records := t.records[k := data]) else t
    case Vacuum => t' == t.(holes := map k | k in t.holes :: 0, free := FreeWhenCompact(t))
    case Swap(i, j) =>
      if i < t.capacity && j < t.capacity then
        && Rearranged(t, t') && t'.free == t.free
        && (forall k: nat :: OriginAt(t.records, t'.records, Origin(i, j, k), k))
        && (forall k: nat :: OriginAt(t.holes, t'.holes, Origin(i, j, k), k))
      else t' == t
    case ShiftLeft =>
      t' == t.(holes := TrailingHoles(t, |ValuesOf(t)|), records := t'.records) && Lists(t'.records, ValuesOf(t))
    case Sort(less) =>
      && t' == t.(holes := TrailingHoles(t, |ValuesOf(t)|), records := t'.records)
      && Rearranged(t, t') && Lists(t'.records, ValuesOf(t'))
      && (StrictOrder(less) ==> InOrder(less, ValuesOf(t')))
  }

  ghost predicate Writable(t: Sheet, k: nat, data: seq<byte>) { k in t.records && |data| == |t.records[k]| }

  /** Slot `k` of `m'` holds what slot `j` of `m` does. */
  ghost predicate OriginAt<V>(m: map<nat, V>, m': map<nat, V>, j: nat, k: nat) {
    if j in m then k in m' && m'[k] == m[j] else k !in m'
  }

  /** A run: one more sheet than operations, each operation a step between neighbours. */
  ghost predicate IsRun(ops: seq<Op>, outs: seq<Option<nat>>, trace: seq<Sheet>) {
    && |trace| == |ops| + 1 && |outs| == |ops|
    && forall i {:trigger ops[i]} | 0 <= i < |ops| :: Step(ops[i], trace[i], outs[i], trace[i + 1])
  }

  // ----- properties of all runs

  /** Operations under which slot `k` keeps its record. */
  ghost predicate Spares(op: Op, k: nat) {
    match op
    case Allocate(_) => true
    case AllocateOrReuse(_) => true
    case Vacuum => true
    case Delete(j) => j != k
    case Write(j, _) => j != k
    case _ => false
  }

  lemma StepSpares(op: Op, t: Sheet, out: Option<nat>, t': Sheet, k: nat)
    requires Step(op, t, out, t') && Spares(op, k) && k in t.records
    ensures k in t'.records && t'.records[k] == t.records[k]
  {
  }

  /** A slot id is a stable handle: a record stays what it is until it is deleted,
      overwritten or rearranged. */
  lemma {:induction false} RecordSurvives(ops: seq<Op>, outs: seq<Option<nat>>, trace: seq<Sheet>, k: nat, n: nat)
    requires IsRun(ops, outs, trace) && n <= |ops| && k in trace[0].records
    requires forall i | 0 <= i < n :: Spares(ops[i], k)
    ensures k in trace[n].records && trace[n].records[k] == trace[0].records[k]
  {
    if n > 0 {
      RecordSurvives(ops, outs, trace, k, n - 1);
      StepSpares(ops[n - 1], trace[n - 1], outs[n - 1], trace[n], k);
    }
  }

  /** The space of a deleted record is not lost: a record of its size can always be placed. */
  lemma DeletedSpaceIsReusable(k: nat, t: Sheet, mid: Sheet, size: nat, out: Option<nat>, t': Sheet)
    requires Step(Delete(k), t, None, mid) && k in t.records && size <= |t.records[k]|
    requires Step(AllocateOrReuse(size), mid, out, t')
    ensures out.Some? && out.value <= k
  {
    assert FitsHole(mid, k, size);
  }

  ghost predicate Rearranges(op: Op) { op.Vacuum? || op.Swap? || op.ShiftLeft? || op.Sort? }

  lemma {:induction false} ListsValues(m: map<nat, seq<byte>>, vs: seq<seq<byte>>, n: nat)
    requires Lists(m, vs)
    ensures Values(m, n) == if n <= |vs| then vs[..n] else vs
  {
    if n > 0 {
      ListsValues(m, vs, n - 1);
    }
  }

  lemma {:induction false} FewValues(m: map<nat, seq<byte>>, n: nat)
    ensures |Values(m, n)| <= n
  {
    if n > 0 {
      FewValues(m, n - 1);
    }
  }

  lemma ListedIsRearranged(t: Sheet, t': Sheet)
    requires t'.capacity == t.capacity && Lists(t'.records, ValuesOf(t))
    ensures Rearranged(t, t')
  {
    var vs := ValuesOf(t);
    FewValues(t.records, t.capacity);
    ListsValues(t'.records, vs, t'.capacity);
    assert ValuesOf(t') == vs;
  }

  lemma StepRearranges(op: Op, t: Sheet, out: Option<nat>, t': Sheet)
    requires Step(op, t, out, t') && Rearranges(op)
    ensures Rearranged(t, t')
  {
    if op.ShiftLeft? {
      ListedIsRearranged(t, t');
    }
  }

  /** However a page is compacted, swapped, shifted and sorted, no record is lost, changed
      or duplicated. */
  lemma {:induction false} RearrangingConserves(ops: seq<Op>, outs: seq<Option<nat>>, trace: seq<Sheet>, n: nat)
    requires IsRun(ops, outs, trace) && n <= |ops| && forall i | 0 <= i < n :: Rearranges(ops[i])
    ensures Rearranged(trace[0], trace[n])
  {
    if n > 0 {
      RearrangingConserves(ops, outs, trace, n - 1);
      var a, b, c := trace[0], trace[n - 1], trace[n];
      assert Step(ops[n - 1], b, outs[n - 1], c);
      StepRearranges(ops[n - 1], b, outs[n - 1], c);
      RearrangedTrans(a, b, c);
    }
  }

  lemma RearrangedTrans(a: Sheet, b: Sheet, c: Sheet)
    requires Rearranged(a, b) && Rearranged(b, c)
    ensures Rearranged(a, c)
  {
  }

  // ----- from directories to values

  lemma {:induction false} ValuesAreCounted(slots: seq<Slot>, s: seq<byte>, n: nat)
    requires |s| == PAGE_SIZE && InPage(slots) && n <= |slots|
    ensures |Values(RecordsOf(slots, s), n)| == LiveBelow(slots, n)
  {
    if n > 0 {
      ValuesAreCounted(slots, s, n - 1);
    }
  }

  /** The `i`-th value is the record of the `i`-th live slot. */
  lemma {:induction false} ValuesOfLiveSlots(slots: seq<Slot>, s: seq<byte>, n: nat, i: nat)
    requires |s| == PAGE_SIZE && InPage(slots) && n <= |slots| && i < LiveBelow(slots, n)
    ensures |Values(RecordsOf(slots, s), n)| == LiveBelow(slots, n)
    ensures var x := LiveSlotsBelow(slots, n)[i];
            x.offset + x.size <= PAGE_SIZE && x in slots && Values(RecordsOf(slots, s), n)[i] == Extent(s, x)
  {
    ValuesAreCounted(slots, s, n);
    ValuesAreCounted(slots, s, n - 1);
    if i < LiveBelow(slots, n - 1) {
      ValuesOfLiveSlots(slots, s, n - 1, i);
    }
  }

  lemma CountLast(vs: seq<seq<byte>>, w: seq<byte>, v: seq<byte>)
    ensures multiset(vs + [w])[v] == multiset(vs)[v] + if w == v then 1 else 0
  {
  }

  /** How often `v` is the record of one of the first `n` slots. */
  ghost function Occurrences(m: map<nat, seq<byte>>, v: seq<byte>, n: nat): nat {
    if n == 0 then 0 else Occurrences(m, v, n - 1) + if n - 1 in m && m[n - 1] == v then 1 else 0
  }

  lemma {:induction false} ValuesAreOccurrences(m: map<nat, seq<byte>>, v: seq<byte>, n: nat)
    ensures multiset(Values(m, n))[v] == Occurrences(m, v, n)
  {
    if n > 0 {
      ValuesAreOccurrences(m, v, n - 1);
      if n - 1 in m {
        CountLast(Values(m, n - 1), m[n - 1], v);
      } else {
        assert Values(m, n) == Values(m, n - 1);
      }
    }
  }

  lemma {:induction false} CopiesAreOccurrences(slots: seq<Slot>, s: seq<byte>, v: seq<byte>, n: nat)
    requires |s| == PAGE_SIZE && InPage(slots) && n <= |slots|
    ensures CopiesBelow(s, slots, v, n) == Occurrences(RecordsOf(slots, s), v, n)
  {
    if n > 0 {
      CopiesAreOccurrences(slots, s, v, n - 1);
    }
  }

  lemma ValuesAreCopies(slots: seq<Slot>, s: seq<byte>, v: seq<byte>)
    requires |s| == PAGE_SIZE && InPage(slots)
    ensures multiset(Values(RecordsOf(slots, s), |slots|))[v] == Copies(s, slots, v)
  {
    CopiesAreOccurrences(slots, s, v, |slots|);
    ValuesAreOccurrences(RecordsOf(slots, s), v, |slots|);
  }

  /** Pages with the same record byte strings have the same values. */
  lemma SameBagSameValues(s: seq<byte>, r: seq<byte>)
    requires Readable(s) && Readable(r) && Capacity(s) == Capacity(r) && SameBag(s, Slots(s), r, Slots(r))
    ensures Rearranged(SheetOf(s), SheetOf(r))
  {
    var a, b := multiset(ValuesOf(SheetOf(s))), multiset(ValuesOf(SheetOf(r)));
    forall v: seq<byte> ensures a[v] == b[v] {
      ValuesAreCopies(Slots(s), s, v);
      ValuesAreCopies(Slots(r), r, v);
      assert Copies(s, Slots(s), v) == Copies(r, Slots(r), v);
    }
    assert a == b;
  }

  /** A packed directory numbers its records from 0 on. */
  lemma PackedLists(r: seq<byte>)
    requires Readable(r) && Packed(Slots(r), Tuples(r), Capacity(r)) && Tuples(r) == CountLive(Slots(r))
    ensures Lists(Records(r), ValuesOf(SheetOf(r)))
  {
    var b, n := Slots(r), Capacity(r);
    PackedLive(b, Tuples(r), n, n);
    ValuesAreCounted(b, r, n);
    forall i: nat | i < Tuples(r) ensures Records(r)[i] == ValuesOf(SheetOf(r))[i] {
      ValuesOfLiveSlots(b, r, n, i);
    }
  }

  /** The values are those of the live slots, so shifting these keeps the values. */
  lemma SameLiveSlotsSameValues(s: seq<byte>, r: seq<byte>, limit: nat)
    requires Wf(s, limit) && Wf(r, limit) && OnlyEntries(s, r) && LiveSlots(Slots(s)) == LiveSlots(Slots(r))
    ensures Readable(s) && Readable(r) && ValuesOf(SheetOf(r)) == ValuesOf(SheetOf(s))
  {
    WfIsReadable(s, limit);
    WfIsReadable(r, limit);
    var n := Capacity(s);
    ValuesAreCounted(Slots(s), s, n);
    ValuesAreCounted(Slots(r), r, n);
    forall i: nat | i < Tuples(s) ensures ValuesOf(SheetOf(r))[i] == ValuesOf(SheetOf(s))[i] {
      ValuesOfLiveSlots(Slots(s), s, n, i);
      ValuesOfLiveSlots(Slots(r), r, n, i);
      SameExtent(s, r, limit, LiveSlotsBelow(Slots(s), n)[i]);
    }
  }

  lemma SameExtent(s: seq<byte>, r: seq<byte>, limit: nat, x: Slot)
    requires Wf(s, limit) && SameBody(s, r, FreeStart(s)) && x in Slots(s) && x.offset + x.size <= PAGE_SIZE
    ensures Extent(r, x) == Extent(s, x)
  {
    var i :| 0 <= i < Capacity(s) && Slots(s)[i] == x;
    assert Within(LayoutOf(s).slots[i], FreeEnd(s), limit);
  }

  // ----- the steps of a page

  lemma AppendIsStep(s: seq<byte>, r: seq<byte>, limit: nat, size: nat, k: nat)
    requires Wf(s, limit) && Wf(r, limit) && Inserted(s, r, k, size) && k == Capacity(s)
    requires size + ENTRY_SIZE <= FreeEnd(s) - FreeStart(s) && LayoutOf(r) == Appended(LayoutOf(s), size)
    ensures Appends(SheetOf(s), size, k, SheetOf(r))
  {
    assert |Slots(r)| == |Slots(s)| + 1;
  }

  lemma ReuseIsStep(s: seq<byte>, r: seq<byte>, limit: nat, size: nat, k: nat)
    requires Wf(s, limit) && Wf(r, limit) && Inserted(s, r, k, size) && k < Capacity(s)
    requires Fits(Slots(s)[k], size, FreeEnd(s) - FreeStart(s)) && LayoutOf(r) == Reused(LayoutOf(s), k, size)
    ensures Reuses(SheetOf(s), size, k, SheetOf(r))
  {
    assert |Slots(r)| == |Slots(s)|;
  }

  /** The slots that fit a record are the holes that do. */
  lemma FitsIffHole(s: seq<byte>, k: nat, size: nat)
    requires Readable(s)
    ensures FitsHole(SheetOf(s), k, size) <==> k < Capacity(s) && Fits(Slots(s)[k], size, FreeEnd(s) - FreeStart(s))
  {
  }

  lemma AllocateIsStep(s: seq<byte>, r: seq<byte>, limit: nat, size: nat, out: Option<nat>)
    requires Wf(s, limit) && Wf(r, limit) && Readable(s) && Readable(r)
    requires out.None? ==> r == s && CannotTake(s, size)
    requires out.Some? ==> Inserted(s, r, out.value, size) && FirstChoice(s, size, out.value)
    requires out.Some? && out.value == Capacity(s) ==>
               size + ENTRY_SIZE <= FreeEnd(s) - FreeStart(s) && LayoutOf(r) == Appended(LayoutOf(s), size)
    requires out.Some? && out.value < Capacity(s) ==> LayoutOf(r) == Reused(LayoutOf(s), out.value, size)
    ensures Step(AllocateOrReuse(size), SheetOf(s), out, SheetOf(r))
  {
    var t := SheetOf(s);
    if out.None? {
      forall k | k in t.holes ensures !FitsHole(t, k, size) { FitsIffHole(s, k, size); }
    } else {
      forall k: nat | k < out.value ensures !FitsHole(t, k, size) { FitsIffHole(s, k, size); }
      if out.value < Capacity(s) {
        ReuseIsStep(s, r, limit, size, out.value);
      } else {
        AppendIsStep(s, r, limit, size, out.value);
      }
    }
  }

  lemma DeleteIsStep(s: seq<byte>, r: seq<byte>, k: nat)
    requires Readable(s) && Readable(r) && Live(s, k) && LayoutOf(r) == WithDeleted(LayoutOf(s), k)
    requires Records(r) == Records(s) - {k}
    ensures Step(Delete(k), SheetOf(s), None, SheetOf(r))
  {
    assert |Slots(r)| == |Slots(s)|;
  }

  lemma VacuumIsStep(s: seq<byte>, r: seq<byte>)
    requires PageVacuum.IsVacuumed(s, r)
    ensures Step(Vacuum, SheetOf(s), None, SheetOf(r))
  {
    PageSpace.LiveBytesOfRecords(Slots(s), s, Capacity(s));
    forall k: nat | k < Capacity(s) ensures Slots(r)[k].deleted == Slots(s)[k].deleted {
      assert k in Records(s) <==> k in Records(r);
    }
  }

  /** After a compaction of the directory only trailing slots are deleted. */
  lemma HolesTrail(s: seq<byte>, r: seq<byte>, limit: nat)
    requires Wf(s, limit) && Wf(r, limit) && Readable(s) && Readable(r) && OnlyEntries(s, r)
    requires Packed(Slots(r), Tuples(r), Capacity(r)) && EmptiedFrom(Slots(s), Slots(r), Tuples(r))
    ensures Holes(Slots(r)) == TrailingHoles(SheetOf(s), |ValuesOf(SheetOf(s))|)
  {
    ValuesAreCounted(Slots(s), s, Capacity(s));
  }

  lemma ShiftIsStep(s: seq<byte>, r: seq<byte>, limit: nat)
    requires Wf(s, limit) && Wf(r, limit) && OnlyEntries(s, r) && LiveSlots(Slots(r)) == LiveSlots(Slots(s))
    requires Packed(Slots(r), Tuples(r), Capacity(r)) && EmptiedFrom(Slots(s), Slots(r), Tuples(r))
    ensures Readable(s) && Readable(r) && Step(ShiftLeft, SheetOf(s), None, SheetOf(r))
  {
    SameLiveSlotsSameValues(s, r, limit);
    PackedLists(r);
    HolesTrail(s, r, limit);
  }

  lemma SortIsStep(s: seq<byte>, r: seq<byte>, limit: nat, less: Comparator)
    requires Wf(s, limit) && Wf(r, limit) && IsSorted(less, s, r)
    ensures Readable(s) && Readable(r) && Step(Sort(less), SheetOf(s), None, SheetOf(r))
  {
    WfIsReadable(s, limit);
    WfIsReadable(r, limit);
    SameBagSameValues(s, r);
    PackedLists(r);
    HolesTrail(s, r, limit);
    if StrictOrder(less) {
      SortedValues(less, r);
    }
  }

  lemma SortedValues(less: Comparator, r: seq<byte>)
    requires Readable(r) && Packed(Slots(r), Tuples(r), Capacity(r)) && Tuples(r) == CountLive(Slots(r))
    requires Ordered(less, r, Slots(r), 0, Tuples(r))
    ensures InOrder(less, ValuesOf(SheetOf(r)))
  {
    var b, n, vs := Slots(r), Capacity(r), ValuesOf(SheetOf(r));
    ValuesAreCounted(b, r, n);
    PackedLive(b, Tuples(r), n, n);
    forall i, j | 0 <= i < j < |vs| ensures !less(vs[j], vs[i]) {
      ValuesOfLiveSlots(b, r, n, i);
      ValuesOfLiveSlots(b, r, n, j);
      assert !Before(less, r, b[j], b[i]);
    }
  }

  lemma SwapIsStep(s: seq<byte>, r: seq<byte>, limit: nat, i: nat, j: nat)
    requires Wf(s, limit) && Wf(r, limit) && OnlyEntries(s, r) && i < Capacity(s) && j < Capacity(s)
    requires Slots(r) == Swapped(Slots(s), i, j)
    ensures Readable(s) && Readable(r) && Step(Swap(i, j), SheetOf(s), None, SheetOf(r))
  {
    WfIsReadable(s, limit);
    WfIsReadable(r, limit);
    SwapKeepsBag(s, Slots(s), i, j);
    BagInImage(LayoutOf(r), limit, s, r);
    SameBagSameValues(s, r);
    forall k: nat ensures OriginAt(Records(s), Records(r), Origin(i, j, k), k) {
      if k < Capacity(s) {
        SameExtent(s, r, limit, Slots(s)[Origin(i, j, k)]);
      }
    }
    SwapHoles(Slots(s), i, j);
  }

  lemma SwapHoles(slots: seq<Slot>, i: nat, j: nat)
    requires i < |slots| && j < |slots|
    ensures forall k: nat :: OriginAt(Holes(slots), Holes(Swapped(slots, i, j)), Origin(i, j, k), k)
  {
    forall k: nat ensures OriginAt(Holes(slots), Holes(Swapped(slots, i, j)), Origin(i, j, k), k) {
      assert k < |slots| ==> Swapped(slots, i, j)[k] == slots[Origin(i, j, k)];
    }
  }

  /** Carries out one operation. A delete or write of a slot that does not hold a record is
      not allowed by the page and is skipped. */
  method Perform(p: array<byte>, op: Op, ghost limit: nat) returns (out: Option<nat>)
    requires p.Length == PAGE_SIZE && Wf(p[..], limit) && (limit == PAGE_SIZE || !(op.Init? || op.Vacuum?))
    modifies p
    ensures Wf(p[..], limit) && Readable(p[..]) && old(Readable(p[..]))
    ensures Step(op, old(SheetOf(p[..])), out, SheetOf(p[..]))
  {
    ghost var s := p[..];
    WfIsReadable(s, limit);
    out := None;
    match op {
      case Init(pageType) =>
        InitPage(p, pageType);
      case Allocate(size) =>
        out := AllocateSlot(p, size, limit);
        if out.Some? { AppendIsStep(s, p[..], limit, size, out.value); }
      case AllocateOrReuse(size) =>
        out := AllocateSlotOrReuseSlot(p, size, limit);
        WfIsReadable(p[..], limit);
        AllocateIsStep(s, p[..], limit, size, out);
      case Delete(k) =>
        DeleteIfLive(p, k, limit);
      case Write(k, data) =>
        WriteIfLive(p, k, data, limit);
      case Vacuum =>
        PageVacuum.VacuumPage(p, limit);
        VacuumIsStep(s, p[..]);
      case Swap(i, j) =>
        if i < Capacity(p[..]) && j < Capacity(p[..]) {
          SwapSlots(p, i, j, limit);
          SwapIsStep(s, p[..], limit, i, j);
        }
      case ShiftLeft =>
        ShiftSlotsLeft(p, limit);
        ShiftIsStep(s, p[..], limit);
      case Sort(less) =>
        SortPageInPlace(p, less, limit);
        SortIsStep(s, p[..], limit, less);
    }
    WfIsReadable(p[..], limit);
  }

  method DeleteIfLive(p: array<byte>, k: nat, ghost limit: nat)
    requires p.Length == PAGE_SIZE && Wf(p[..], limit)
    modifies p
    ensures Wf(p[..], limit) && Readable(p[..]) && old(Readable(p[..]))
    ensures Step(Delete(k), old(SheetOf(p[..])), None, SheetOf(p[..]))
  {
    WfIsReadable(p[..], limit);
    if k < Capacity(p[..]) {
      var x := GetSlot(p, k);
      if !x.deleted {
        ghost var s := p[..];
        DeleteSlot(p, k, limit);
        DeleteIsStep(s, p[..], k);
      }
    }
  }

  method WriteIfLive(p: array<byte>, k: nat, data: seq<byte>, ghost limit: nat)
    requires p.Length == PAGE_SIZE && Wf(p[..], limit)
    modifies p
    ensures Wf(p[..], limit) && Readable(p[..]) && old(Readable(p[..]))
    ensures Step(Write(k, data), old(SheetOf(p[..])), None, SheetOf(p[..]))
  {
    WfIsReadable(p[..], limit);
    if k < Capacity(p[..]) {
      var x := GetSlot(p, k);
      if !x.deleted && |data| == x.size {
        WriteRecord(p, k, data, limit);
      }
    }
  }

  /** Every sequence of operations keeps the page well-formed and is a run of the machine.
      Initialising and vacuuming are operations of plain pages, whose limit is their end. */
  method PerformAll(p: array<byte>, ops: seq<Op>, ghost limit: nat)
    returns (outs: seq<Option<nat>>, ghost trace: seq<Sheet>)
    requires p.Length == PAGE_SIZE && Wf(p[..], limit)
    requires forall op | op in ops :: limit == PAGE_SIZE || !(op.Init? || op.Vacuum?)
    modifies p
    ensures Wf(p[..], limit) && Readable(p[..]) && old(Readable(p[..]))
    ensures IsRun(ops, outs, trace) && trace[0] == old(SheetOf(p[..])) && trace[|ops|] == SheetOf(p[..])
    ensures Tuples(p[..]) == |Records(p[..])|
  {
    WfIsReadable(p[..], limit);
    outs, trace := [], [SheetOf(p[..])];
    var i := 0;
    while i < |ops|
      invariant i <= |ops| && Wf(p[..], limit) && Readable(p[..])
      invariant IsRun(ops[..i], outs, trace) && trace[0] == old(SheetOf(p[..])) && trace[i] == SheetOf(p[..])
    {
      assert ops[i] in ops;
      var out := Perform(p, ops[i], limit);
      ExtendRun(ops[..i], outs, trace, ops[i], out, SheetOf(p[..]));
      assert ops[..i + 1] == ops[..i] + [ops[i]];
      outs, trace := outs + [out], trace + [SheetOf(p[..])];
      i := i + 1;
    }
    assert ops[..|ops|] == ops;
    TuplesAreRecords(p[..], limit);
  }

  lemma ExtendRun(ops: seq<Op>, outs: seq<Option<nat>>, trace: seq<Sheet>, op: Op, out: Option<nat>, t: Sheet)
    requires IsRun(ops, outs, trace) && Step(op, trace[|ops|], out, t)
    ensures IsRun(ops + [op], outs + [out], trace + [t])
  {
  }

  ghost function KeysBelow(m: map<nat, seq<byte>>, n: nat): (ks: set<nat>)
    ensures forall i :: i in ks <==> i < n && i in m
    ensures |ks| == |Values(m, n)|
  {
    if n == 0 then {} else if n - 1 in m then KeysBelow(m, n - 1) + {n - 1} else KeysBelow(m, n - 1)
  }

  lemma CountValues(m: map<nat, seq<byte>>, n: nat)
    requires forall i | i in m :: i < n
    ensures |Values(m, n)| == |m|
  {
    assert KeysBelow(m, n) == m.Keys;
  }

  /** The tuple count of the header is the number of records. */
  lemma TuplesAreRecords(s: seq<byte>, limit: nat)
    requires Wf(s, limit)
    ensures Readable(s) && Tuples(s) == |Records(s)|
  {
    WfIsReadable(s, limit);
    ValuesAreCounted(Slots(s), s, Capacity(s));
    CountValues(Records(s), Capacity(s));
  }
}
