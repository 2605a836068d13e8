/** The slotted page: a 15-byte header, a directory of 5-byte slot entries that grows up
    behind it, and records that grow down from the end of the page.

    A page is an array of bytes that the operations change in place. Contracts speak of the
    page image `p[..]`: `LayoutOf` decodes its header and directory, `Records` is the map
    from slot ids to record bytes that the page stands for, and `Wf` is the invariant that
    every operation keeps. */
module PageFormat {
  import opened Bytes
  import opened Wrappers

  const NUM_TUPLES: nat := 9
  const FREE_START: nat := 11
  const FREE_END: nat := 13
  const HEADER_SIZE: nat := 15
  const ENTRY_SIZE: nat := 5

  /** A decoded directory entry. Deleted slots keep the extent of the record they held. */
  datatype Slot = Slot(deleted: bool, offset: nat, size: nat)

  /** The decoded header and directory. */
  datatype Layout = Layout(tuples: nat, freeEnd: nat, slots: seq<Slot>)

  // ----- decoding a page image

  function Tuples(s: seq<byte>): nat requires |s| == PAGE_SIZE { GetU16(s, NUM_TUPLES) }

  function FreeStart(s: seq<byte>): nat requires |s| == PAGE_SIZE { GetU16(s, FREE_START) }

  function FreeEnd(s: seq<byte>): nat requires |s| == PAGE_SIZE { GetU16(s, FREE_END) }

  /** The free-start field delimits a whole number of entries that fit in the page. */
  ghost predicate HasDirectory(s: seq<byte>) {
    && |s| == PAGE_SIZE
    && HEADER_SIZE <= FreeStart(s) <= PAGE_SIZE
    && (FreeStart(s) - HEADER_SIZE) % ENTRY_SIZE == 0
  }

  function EntryAt(i: nat): nat { HEADER_SIZE + ENTRY_SIZE * i }

  /** Number of directory entries, deleted ones included. */
  function Capacity(s: seq<byte>): (n: nat)
    requires HasDirectory(s)
    ensures FreeStart(s) == EntryAt(n)
  {
    (FreeStart(s) - HEADER_SIZE) / ENTRY_SIZE
  }

  function SlotAt(s: seq<byte>, i: nat): Slot
    requires HasDirectory(s) && i < Capacity(s)
  {
    var at := EntryAt(i);
    Slot(s[at] > 0, GetU16(s, at + 1), GetU16(s, at + 3))
  }

  /** Where the fields are: stored pages depend on it. */
  lemma FormatIsFixed(s: seq<byte>, i: nat)
    requires HasDirectory(s) && i < Capacity(s)
    ensures 15 + 5 * (i + 1) <= FreeStart(s) <= |s| == 4096
    ensures Tuples(s) == s[9] as int + 256 * s[10] as int
    ensures FreeStart(s) == s[11] as int + 256 * s[12] as int && FreeEnd(s) == s[13] as int + 256 * s[14] as int
    ensures var at := 15 + 5 * i;
            && SlotAt(s, i).deleted == (s[at] != 0)
            && SlotAt(s, i).offset == s[at + 1] as int + 256 * s[at + 2] as int
            && SlotAt(s, i).size == s[at + 3] as int + 256 * s[at + 4] as int
  {
  }

  /** The first `n` entries of the directory. */
  ghost function Directory(s: seq<byte>, n: nat): (slots: seq<Slot>)
    requires HasDirectory(s) && n <= Capacity(s)
    ensures |slots| == n
  {
    if n == 0 then [] else Directory(s, n - 1) + [SlotAt(s, n - 1)]
  }

  ghost function Slots(s: seq<byte>): (slots: seq<Slot>)
    requires HasDirectory(s)
    ensures |slots| == Capacity(s)
  {
    Directory(s, Capacity(s))
  }

  lemma {:induction false} DirectoryEntry(s: seq<byte>, n: nat, i: nat)
    requires HasDirectory(s) && i < n <= Capacity(s)
    ensures Directory(s, n)[i] == SlotAt(s, i)
  {
    if i < n - 1 {
      DirectoryEntry(s, n - 1, i);
    }
  }

  /** Entry `i` of the decoded directory is the entry stored at position `i`. */
  lemma SlotsEntry(s: seq<byte>, i: nat)
    requires HasDirectory(s) && i < Capacity(s)
    ensures Slots(s)[i] == SlotAt(s, i)
  {
    DirectoryEntry(s, Capacity(s), i);
  }

  /** Pages that agree on the entries of a prefix decode it alike. */
  lemma {:induction false} SameDirectory(s: seq<byte>, r: seq<byte>, n: nat)
    requires HasDirectory(s) && HasDirectory(r) && n <= Capacity(s) && n <= Capacity(r)
    requires forall i | HEADER_SIZE <= i < EntryAt(n) :: r[i] == s[i]
    ensures Directory(r, n) == Directory(s, n)
  {
    if n > 0 {
      SameDirectory(s, r, n - 1);
    }
  }

  /** A page that differs from another in entry `i` only. */
  lemma {:induction false} DirectoryWithEntry(s: seq<byte>, r: seq<byte>, n: nat, i: nat)
    requires HasDirectory(s) && HasDirectory(r) && i < n <= Capacity(s) && n <= Capacity(r)
    requires forall j | HEADER_SIZE <= j < EntryAt(n) && !(EntryAt(i) <= j < EntryAt(i + 1)) :: r[j] == s[j]
    ensures Directory(r, n) == Directory(s, n)[i := SlotAt(r, i)]
  {
    if i == n - 1 {
      SameDirectory(s, r, n - 1);
    } else {
      DirectoryWithEntry(s, r, n - 1, i);
    }
  }

  ghost function LayoutOf(s: seq<byte>): Layout
    requires HasDirectory(s)
  {
    Layout(Tuples(s), FreeEnd(s), Slots(s))
  }

  // ----- the invariant

  ghost predicate Within(x: Slot, lo: nat, hi: nat) {
    x.offset + x.size <= hi && (x.size > 0 ==> lo <= x.offset)
  }

  ghost predicate Apart(x: Slot, y: Slot) {
    x.size == 0 || y.size == 0 || x.offset + x.size <= y.offset || y.offset + y.size <= x.offset
  }

  /** Number of live slots among the first `n`. */
  ghost function LiveBelow(slots: seq<Slot>, n: nat): (c: nat)
    requires n <= |slots|
    ensures c <= n
  {
    if n == 0 then 0 else LiveBelow(slots, n - 1) + if slots[n - 1].deleted then 0 else 1
  }

  ghost function CountLive(slots: seq<Slot>): nat { LiveBelow(slots, |slots|) }

  ghost predicate WfLayout(l: Layout, limit: nat) {
    && EntryAt(|l.slots|) <= l.freeEnd <= limit
    && (forall i {:trigger Within(l.slots[i], l.freeEnd, limit)} | 0 <= i < |l.slots| ::
          Within(l.slots[i], l.freeEnd, limit))
    && (forall i, j {:trigger Apart(l.slots[i], l.slots[j])} | 0 <= i < j < |l.slots| :: Apart(l.slots[i], l.slots[j]))
    && l.tuples == CountLive(l.slots)
  }

  /** Well-formedness of a page whose records end below `limit`: the directory ends where
      free space starts, the extents of all slots, live or deleted, are disjoint and lie in
      [free end, limit), and the tuple count is the number of live slots. */
  ghost predicate Wf(s: seq<byte>, limit: nat) {
    HasDirectory(s) && limit <= PAGE_SIZE && WfLayout(LayoutOf(s), limit)
  }

  // ----- the records a page stands for

  ghost predicate Live(s: seq<byte>, i: int)
    requires HasDirectory(s)
  {
    0 <= i < Capacity(s) && !Slots(s)[i].deleted
  }

  /** Every entry points into the page, so every record can be read. */
  ghost predicate InPage(slots: seq<Slot>) {
    forall i | 0 <= i < |slots| :: slots[i].offset + slots[i].size <= PAGE_SIZE
  }

  ghost function Extent(s: seq<byte>, x: Slot): (r: seq<byte>)
    requires |s| == PAGE_SIZE && x.offset + x.size <= PAGE_SIZE
    ensures |r| == x.size
  {
    s[x.offset..x.offset + x.size]
  }

  ghost function RecordsOf(slots: seq<Slot>, s: seq<byte>): map<nat, seq<byte>>
    requires |s| == PAGE_SIZE && InPage(slots)
  {
    map i: nat | 0 <= i < |slots| && !slots[i].deleted :: Extent(s, slots[i])
  }

  ghost predicate Readable(s: seq<byte>) {
    HasDirectory(s) && InPage(Slots(s))
  }

  /** The abstract value of a page: record bytes by slot id. */
  ghost function Records(s: seq<byte>): map<nat, seq<byte>>
    requires Readable(s)
  {
    RecordsOf(Slots(s), s)
  }

  // ----- field setters, as functions of the page image

  /** Header and directory updates leave everything in front of the tuple count (checksum
      and page type) and everything from `from` on alone. */
  ghost predicate SameBody(s: seq<byte>, r: seq<byte>, from: nat) {
    && |r| == |s| == PAGE_SIZE
    && from <= PAGE_SIZE
    && (forall i | 0 <= i < NUM_TUPLES :: r[i] == s[i])
    && (forall i | from <= i < PAGE_SIZE :: r[i] == s[i])
  }

  method SetNumTuples(p: array<byte>, v: nat)
    requires p.Length == PAGE_SIZE && HasDirectory(p[..]) && v < 0x1_0000
    modifies p
    ensures HasDirectory(p[..]) && SameBody(old(p[..]), p[..], HEADER_SIZE)
    ensures LayoutOf(p[..]) == LayoutOf(old(p[..])).(tuples := v)
  {
    WriteU16(p, NUM_TUPLES, v);
    SameDirectory(old(p[..]), p[..], Capacity(p[..]));
  }

  method SetEndFreeSpace(p: array<byte>, v: nat)
    requires p.Length == PAGE_SIZE && HasDirectory(p[..]) && v < 0x1_0000
    modifies p
    ensures HasDirectory(p[..]) && SameBody(old(p[..]), p[..], HEADER_SIZE)
    ensures LayoutOf(p[..]) == LayoutOf(old(p[..])).(freeEnd := v)
  {
    WriteU16(p, FREE_END, v);
    SameDirectory(old(p[..]), p[..], Capacity(p[..]));
  }

  /** Growing the directory by one entry, whose content is whatever the page held there. */
  method ExtendDirectory(p: array<byte>)
    requires p.Length == PAGE_SIZE && HasDirectory(p[..]) && FreeStart(p[..]) + ENTRY_SIZE <= PAGE_SIZE
    modifies p
    ensures HasDirectory(p[..]) && SameBody(old(p[..]), p[..], HEADER_SIZE)
    ensures Capacity(p[..]) == Capacity(old(p[..])) + 1
    ensures LayoutOf(p[..]) ==
            LayoutOf(old(p[..])).(slots := Slots(old(p[..])) + [SlotAt(p[..], Capacity(old(p[..])))])
  {
    WriteU16(p, FREE_START, FreeStart(p[..]) + ENTRY_SIZE);
    SameDirectory(old(p[..]), p[..], Capacity(old(p[..])));
  }

  /** The decoded entry `i`. */
  method GetSlot(p: array<byte>, i: nat) returns (x: Slot)
    requires p.Length == PAGE_SIZE && HasDirectory(p[..]) && i < Capacity(p[..])
    ensures x == Slots(p[..])[i] && x.offset < 0x1_0000 && x.size < 0x1_0000
  {
    SlotsEntry(p[..], i);
    x := SlotAt(p[..], i);
  }

  lemma EntryUpdate(s: seq<byte>, r: seq<byte>, i: nat)
    requires HasDirectory(s) && |r| == PAGE_SIZE && i < Capacity(s)
    requires forall j | 0 <= j < PAGE_SIZE && !(EntryAt(i) <= j < EntryAt(i + 1)) :: r[j] == s[j]
    ensures HasDirectory(r) && SameBody(s, r, FreeStart(r)) && FreeStart(r) == FreeStart(s)
    ensures LayoutOf(r) == WithSlot(LayoutOf(s), i, SlotAt(r, i)) && Slots(s)[i] == SlotAt(s, i)
  {
    DirectoryWithEntry(s, r, Capacity(s), i);
    SlotsEntry(s, i);
  }

  method SetSlotDeleted(p: array<byte>, i: nat, deleted: bool)
    requires p.Length == PAGE_SIZE && HasDirectory(p[..]) && i < Capacity(p[..])
    modifies p
    ensures HasDirectory(p[..]) && SameBody(old(p[..]), p[..], FreeStart(p[..]))
    ensures LayoutOf(p[..]) == WithSlot(LayoutOf(old(p[..])), i, old(Slots(p[..]))[i].(deleted := deleted))
  {
    ghost var s := p[..];
    p[EntryAt(i)] := if deleted then 1 else 0;
    EntryUpdate(s, p[..], i);
  }

  method SetSlotOffset(p: array<byte>, i: nat, offset: nat)
    requires p.Length == PAGE_SIZE && HasDirectory(p[..]) && i < Capacity(p[..]) && offset < 0x1_0000
    modifies p
    ensures HasDirectory(p[..]) && SameBody(old(p[..]), p[..], FreeStart(p[..]))
    ensures LayoutOf(p[..]) == WithSlot(LayoutOf(old(p[..])), i, old(Slots(p[..]))[i].(offset := offset))
  {
    ghost var s := p[..];
    WriteU16(p, EntryAt(i) + 1, offset);
    EntryUpdate(s, p[..], i);
  }

  method SetSlotSize(p: array<byte>, i: nat, size: nat)
    requires p.Length == PAGE_SIZE && HasDirectory(p[..]) && i < Capacity(p[..]) && size < 0x1_0000
    modifies p
    ensures HasDirectory(p[..]) && SameBody(old(p[..]), p[..], FreeStart(p[..]))
    ensures LayoutOf(p[..]) == WithSlot(LayoutOf(old(p[..])), i, old(Slots(p[..]))[i].(size := size))
  {
    ghost var s := p[..];
    WriteU16(p, EntryAt(i) + 3, size);
    EntryUpdate(s, p[..], i);
  }

  /** Writing the three fields of an entry. */
  method SetSlot(p: array<byte>, i: nat, x: Slot)
    requires p.Length == PAGE_SIZE && HasDirectory(p[..]) && i < Capacity(p[..])
    requires x.offset < 0x1_0000 && x.size < 0x1_0000
    modifies p
    ensures HasDirectory(p[..]) && SameBody(old(p[..]), p[..], FreeStart(p[..]))
    ensures LayoutOf(p[..]) == WithSlot(LayoutOf(old(p[..])), i, x)
  {
    SetSlotDeleted(p, i, x.deleted);
    SetSlotOffset(p, i, x.offset);
    SetSlotSize(p, i, x.size);
  }

  ghost function WithSlot(l: Layout, i: nat, x: Slot): Layout
    requires i < |l.slots|
  {
    l.(slots := l.slots[i := x])
  }

  // ----- counting and extents under directory updates

  lemma {:induction false} LiveBelowUpdate(slots: seq<Slot>, i: nat, x: Slot, n: nat)
    requires i < |slots| && n <= |slots|
    ensures LiveBelow(slots[i := x], n) + (if i < n && !slots[i].deleted then 1 else 0)
         == LiveBelow(slots, n) + (if i < n && !x.deleted then 1 else 0)
  {
    if n > 0 {
      LiveBelowUpdate(slots, i, x, n - 1);
    }
  }

  lemma CountLiveUpdate(slots: seq<Slot>, i: nat, x: Slot)
    requires i < |slots|
    ensures CountLive(slots[i := x]) + (if slots[i].deleted then 0 else 1)
         == CountLive(slots) + (if x.deleted then 0 else 1)
  {
    LiveBelowUpdate(slots, i, x, |slots|);
  }

  lemma {:induction false} LiveBelowPrefix(a: seq<Slot>, b: seq<Slot>, n: nat)
    requires n <= |a| && n <= |b| && forall i | 0 <= i < n :: b[i].deleted == a[i].deleted
    ensures LiveBelow(b, n) == LiveBelow(a, n)
  {
    if n > 0 {
      LiveBelowPrefix(a, b, n - 1);
    }
  }

  lemma WfIsReadable(s: seq<byte>, limit: nat)
    requires Wf(s, limit)
    ensures Readable(s)
  {
    forall i | 0 <= i < Capacity(s)
      ensures Slots(s)[i].offset + Slots(s)[i].size <= PAGE_SIZE
    {
      assert Within(LayoutOf(s).slots[i], FreeEnd(s), limit);
    }
  }

  /** `r` is an image of the directory `after` that differs from the image `s` of `before`
      in at most entry `k` and in no byte of the other extents. */
  ghost predicate OnlySlot(before: seq<Slot>, s: seq<byte>, after: seq<Slot>, r: seq<byte>, k: nat) {
    && |s| == |r| == PAGE_SIZE && InPage(before) && InPage(after)
    && |before| <= |after| && k < |after| && (|after| == |before| || |after| == k + 1 == |before| + 1)
    && forall i | 0 <= i < |before| && i != k :: after[i] == before[i] && Extent(r, before[i]) == Extent(s, before[i])
  }

  /** Then the records change at `k` only. */
  lemma OtherRecordsKept(before: seq<Slot>, s: seq<byte>, after: seq<Slot>, r: seq<byte>, k: nat)
    requires OnlySlot(before, s, after, r, k)
    ensures RecordsOf(after, r) ==
            if after[k].deleted then RecordsOf(before, s) - {k} else RecordsOf(before, s)[k := Extent(r, after[k])]
  {
  }

  // ----- operations

  /** `r` is `s` with one more record of `n` bytes, under the id `k`. */
  ghost predicate Inserted(s: seq<byte>, r: seq<byte>, k: nat, n: nat) {
    && Readable(s) && Readable(r)
    && k !in Records(s) && k in Records(r) && |Records(r)[k]| == n
    && Records(r) - {k} == Records(s)
  }

  /** Slot `k` became live with an extent of `n` bytes; nothing else changed its meaning. */
  lemma InsertedByLayout(s: seq<byte>, r: seq<byte>, limit: nat, k: nat)
    requires Wf(s, limit) && Wf(r, limit) && SameBody(s, r, FreeEnd(s))
    requires Capacity(s) <= Capacity(r) <= Capacity(s) + 1 && k < Capacity(r)
    requires k < Capacity(s) ==> Slots(s)[k].deleted
    requires k >= Capacity(s) || Capacity(r) == Capacity(s)
    requires !Slots(r)[k].deleted
    requires forall i | 0 <= i < Capacity(s) && i != k :: Slots(r)[i] == Slots(s)[i]
    ensures Inserted(s, r, k, Slots(r)[k].size)
  {
    WfIsReadable(s, limit);
    WfIsReadable(r, limit);
    SameBodyKeepsExtents(s, r, limit);
    OtherRecordsKept(Slots(s), s, Slots(r), r, k);
  }

  /** Updates in front of the records leave every extent alone. */
  lemma SameBodyKeepsExtents(s: seq<byte>, r: seq<byte>, limit: nat)
    requires Wf(s, limit) && SameBody(s, r, FreeEnd(s)) && InPage(Slots(s))
    ensures forall i | 0 <= i < Capacity(s) :: Extent(r, Slots(s)[i]) == Extent(s, Slots(s)[i])
  {
    forall i | 0 <= i < Capacity(s) ensures Extent(r, Slots(s)[i]) == Extent(s, Slots(s)[i]) {
      assert Within(LayoutOf(s).slots[i], FreeEnd(s), limit);
    }
  }

  method InitPage(p: array<byte>, pageType: byte)
    requires p.Length == PAGE_SIZE
    modifies p
    ensures Wf(p[..], PAGE_SIZE) && LayoutOf(p[..]) == Layout(0, PAGE_SIZE, [])
    ensures Readable(p[..]) && Records(p[..]) == map[]
    ensures p[8] == pageType && p[..8] == old(p[..8]) && p[HEADER_SIZE..] == old(p[HEADER_SIZE..])
  {
    p[8] := pageType;
    WriteU16(p, NUM_TUPLES, 0);
    WriteU16(p, FREE_START, HEADER_SIZE);
    WriteU16(p, FREE_END, PAGE_SIZE);
    assert Capacity(p[..]) == 0 && Slots(p[..]) == [];
  }

  /** The bytes of a live record. */
  method ReadRecord(p: array<byte>, k: nat) returns (r: seq<byte>)
    requires p.Length == PAGE_SIZE && Readable(p[..]) && Live(p[..], k)
    ensures r == Records(p[..])[k]
  {
    var x := GetSlot(p, k);
    r := p[x.offset..x.offset + x.size];
  }

  method AllocateSlot(p: array<byte>, size: nat, ghost limit: nat) returns (k: Option<nat>)
    requires p.Length == PAGE_SIZE && Wf(p[..], limit)
    modifies p
    ensures Wf(p[..], limit)
    ensures k.Some? <==> size + ENTRY_SIZE <= old(FreeEnd(p[..]) - FreeStart(p[..]))
    ensures k.None? ==> p[..] == old(p[..])
    ensures k.Some? ==>
              && k.value == old(Capacity(p[..])) && Capacity(p[..]) == k.value + 1
              && LayoutOf(p[..]) == Appended(old(LayoutOf(p[..])), size)
              && Inserted(old(p[..]), p[..], k.value, size)
              && SameBody(old(p[..]), p[..], FreeStart(p[..]))
  {
    ghost var s := p[..];
    if ENTRY_SIZE + size > FreeEnd(p[..]) - FreeStart(p[..]) {
      return None;
    }
    AppendIsWf(LayoutOf(s), limit, size);
    var i := PushSlot(p, size);
    InsertedByLayout(s, p[..], limit, i);
    k := Some(i);
  }

  /** The updates of a successful allocation. */
  method PushSlot(p: array<byte>, size: nat) returns (i: nat)
    requires p.Length == PAGE_SIZE && HasDirectory(p[..])
    requires FreeStart(p[..]) + ENTRY_SIZE + size <= FreeEnd(p[..]) <= PAGE_SIZE && Tuples(p[..]) <= Capacity(p[..])
    modifies p
    ensures HasDirectory(p[..]) && i == old(Capacity(p[..]))
    ensures LayoutOf(p[..]) == Appended(old(LayoutOf(p[..])), size)
    ensures SameBody(old(p[..]), p[..], FreeStart(p[..]))
  {
    ghost var l := LayoutOf(p[..]);
    var offset := FreeEnd(p[..]) - size;
    SetEndFreeSpace(p, offset);
    i := Capacity(p[..]);
    ExtendDirectory(p);
    SetSlot(p, i, Slot(false, offset, size));
    assert LayoutOf(p[..]).slots == l.slots + [Slot(false, offset, size)];
    SetNumTuples(p, Tuples(p[..]) + 1);
  }

  ghost function Appended(l: Layout, size: nat): Layout
    requires size <= l.freeEnd
  {
    Layout(l.tuples + 1, l.freeEnd - size, l.slots + [Slot(false, l.freeEnd - size, size)])
  }

  lemma AppendIsWf(l: Layout, limit: nat, size: nat)
    requires WfLayout(l, limit) && limit <= PAGE_SIZE
    requires size + ENTRY_SIZE <= l.freeEnd - EntryAt(|l.slots|)
    ensures WfLayout(Appended(l, size), limit)
    ensures l.tuples <= |l.slots|
  {
    var r := Appended(l, size);
    LiveBelowPrefix(l.slots, r.slots, |l.slots|);
    forall i | 0 <= i < |l.slots| ensures Within(r.slots[i], r.freeEnd, limit)
        && Apart(r.slots[i], r.slots[|l.slots|]) {
      assert Within(l.slots[i], l.freeEnd, limit);
    }
  }

  /** A deleted slot that can take a record of `size` bytes, in its old extent or, with
      `free` bytes of free space left, in a fresh one. */
  ghost predicate Fits(x: Slot, size: nat, free: int) {
    x.deleted && (size <= x.size || size <= free)
  }

  /** The scan for a slot to reuse: the first deleted slot that fits. */
  method FindReusable(p: array<byte>, size: nat) returns (k: nat)
    requires p.Length == PAGE_SIZE && HasDirectory(p[..])
    ensures k <= Capacity(p[..])
    ensures k < Capacity(p[..]) ==> Fits(Slots(p[..])[k], size, FreeEnd(p[..]) - FreeStart(p[..]))
    ensures forall j | 0 <= j < k :: !Fits(Slots(p[..])[j], size, FreeEnd(p[..]) - FreeStart(p[..]))
  {
    k := 0;
    while k < Capacity(p[..])
      invariant k <= Capacity(p[..])
      invariant forall j | 0 <= j < k :: !Fits(Slots(p[..])[j], size, FreeEnd(p[..]) - FreeStart(p[..]))
    {
      var x := GetSlot(p, k);
      if x.deleted && (size <= x.size || size <= FreeEnd(p[..]) - FreeStart(p[..])) {
        return;
      }
      k := k + 1;
    }
  }

  /** The first deleted slot that fits is reused; without one a slot is appended. */
  method AllocateSlotOrReuseSlot(p: array<byte>, size: nat, ghost limit: nat) returns (k: Option<nat>)
    requires p.Length == PAGE_SIZE && Wf(p[..], limit)
    modifies p
    ensures Wf(p[..], limit)
    ensures k.None? <==> CannotTake(old(p[..]), size)
    ensures k.None? ==> p[..] == old(p[..])
    ensures k.Some? ==> Inserted(old(p[..]), p[..], k.value, size) && FirstChoice(old(p[..]), size, k.value)
    ensures k.Some? && k.value == old(Capacity(p[..])) ==>
              size + ENTRY_SIZE <= old(FreeEnd(p[..]) - FreeStart(p[..]))
                  && LayoutOf(p[..]) == Appended(old(LayoutOf(p[..])), size)
    ensures k.Some? && k.value < old(Capacity(p[..])) ==>
              LayoutOf(p[..]) == Reused(old(LayoutOf(p[..])), k.value, size)
    ensures k.Some? ==> SameBody(old(p[..]), p[..], FreeStart(p[..]))
  {
    ghost var s := p[..];
    var slot := FindReusable(p, size);
    if slot == Capacity(p[..]) {
      k := AllocateSlot(p, size, limit);
    } else {
      ReusedIsWf(LayoutOf(s), limit, slot, size);
      ReuseSlot(p, slot, size);
      ReuseInserts(s, limit, slot, size, p[..]);
      k := Some(slot);
    }
  }

  /** No deleted slot fits a record of `size` bytes and there is no room for a new slot. */
  ghost predicate CannotTake(s: seq<byte>, size: nat)
    requires HasDirectory(s)
  {
    var free := FreeEnd(s) - FreeStart(s);
    size + ENTRY_SIZE > free && forall j | 0 <= j < Capacity(s) :: !Fits(Slots(s)[j], size, free)
  }

  /** `k` is the first slot that fits, or the next new one if none does. */
  ghost predicate FirstChoice(s: seq<byte>, size: nat, k: nat)
    requires HasDirectory(s)
  {
    var free := FreeEnd(s) - FreeStart(s);
    && k <= Capacity(s)
    && (k < Capacity(s) ==> Fits(Slots(s)[k], size, free))
    && forall j | 0 <= j < k :: !Fits(Slots(s)[j], size, free)
  }

  /** The updates of a successful reuse of slot `i`. */
  method ReuseSlot(p: array<byte>, i: nat, size: nat)
    requires p.Length == PAGE_SIZE && HasDirectory(p[..]) && i < Capacity(p[..]) && Tuples(p[..]) <= Capacity(p[..])
    requires size > Slots(p[..])[i].size ==> FreeStart(p[..]) + size <= FreeEnd(p[..])
    modifies p
    ensures HasDirectory(p[..])
    ensures LayoutOf(p[..]) == Reused(old(LayoutOf(p[..])), i, size)
    ensures SameBody(old(p[..]), p[..], FreeStart(p[..]))
  {
    var x := GetSlot(p, i);
    var offset := x.offset;
    if size > x.size {
      offset := FreeEnd(p[..]) - size;
      SetEndFreeSpace(p, offset);
    }
    SetSlot(p, i, Slot(false, offset, size));
    SetNumTuples(p, Tuples(p[..]) + 1);
  }

  ghost function Reused(l: Layout, i: nat, size: nat): Layout
    requires i < |l.slots| && (size > l.slots[i].size ==> size <= l.freeEnd)
  {
    if size > l.slots[i].size then
      Layout(l.tuples + 1, l.freeEnd - size, l.slots[i := Slot(false, l.freeEnd - size, size)])
    else
      Layout(l.tuples + 1, l.freeEnd, l.slots[i := Slot(false, l.slots[i].offset, size)])
  }

  lemma ReusedIsWf(l: Layout, limit: nat, i: nat, size: nat)
    requires WfLayout(l, limit) && limit <= PAGE_SIZE && i < |l.slots|
    requires Fits(l.slots[i], size, l.freeEnd - EntryAt(|l.slots|))
    ensures WfLayout(Reused(l, i, size), limit)
    ensures l.tuples <= |l.slots|
  {
    var r := Reused(l, i, size);
    CountLiveUpdate(l.slots, i, r.slots[i]);
    assert Within(l.slots[i], l.freeEnd, limit);
    forall j | 0 <= j < |l.slots| && j != i
      ensures Within(r.slots[j], r.freeEnd, limit) && Apart(r.slots[j], r.slots[i])
    {
      assert Within(l.slots[j], l.freeEnd, limit);
      assert if j < i then Apart(l.slots[j], l.slots[i]) else Apart(l.slots[i], l.slots[j]);
    }
  }

  lemma ReuseInserts(s: seq<byte>, limit: nat, i: nat, size: nat, r: seq<byte>)
    requires Wf(s, limit) && i < Capacity(s) && Fits(Slots(s)[i], size, FreeEnd(s) - FreeStart(s))
    requires HasDirectory(r) && SameBody(s, r, FreeStart(r)) && LayoutOf(r) == Reused(LayoutOf(s), i, size)
    ensures Wf(r, limit) && Inserted(s, r, i, size)
  {
    ReusedIsWf(LayoutOf(s), limit, i, size);
    assert |Slots(r)| == Capacity(s);
    InsertedByLayout(s, r, limit, i);
  }

  /** Deleting a live slot removes exactly its record. The code does not check that the slot
      is live, and the page stays well-formed exactly if it is. */
  method DeleteSlot(p: array<byte>, k: nat, ghost limit: nat)
    requires p.Length == PAGE_SIZE && Wf(p[..], limit) && k < Capacity(p[..])
    modifies p
    ensures HasDirectory(p[..]) && Capacity(p[..]) == old(Capacity(p[..])) && FreeEnd(p[..]) == old(FreeEnd(p[..]))
    ensures LayoutOf(p[..]) == WithDeleted(old(LayoutOf(p[..])), k) && SameBody(old(p[..]), p[..], FreeStart(p[..]))
    ensures Wf(p[..], limit) <==> old(Live(p[..], k))
    ensures old(Live(p[..], k)) ==>
              Readable(p[..]) && old(Readable(p[..])) && Records(p[..]) == old(Records(p[..])) - {k}
  {
    ghost var s := p[..];
    DeletedIsWfIff(LayoutOf(s), limit, k);
    SetNumTuples(p, (Tuples(p[..]) + 0xFFFF) % 0x1_0000);
    SetSlotDeleted(p, k, true);
    assert LayoutOf(p[..]) == WithDeleted(LayoutOf(s), k);
    if Live(s, k) {
      RecordDeleted(s, p[..], limit, k);
    }
  }

  /** One tuple less, in 16 bits, and slot `k` marked. */
  ghost function WithDeleted(l: Layout, k: nat): Layout
    requires k < |l.slots|
  {
    Layout((l.tuples + 0xFFFF) % 0x1_0000, l.freeEnd, l.slots[k := l.slots[k].(deleted := true)])
  }

  lemma DeletedIsWfIff(l: Layout, limit: nat, k: nat)
    requires WfLayout(l, limit) && limit <= PAGE_SIZE && k < |l.slots|
    ensures WfLayout(WithDeleted(l, k), limit) <==> !l.slots[k].deleted
  {
    var r := WithDeleted(l, k);
    forall i | 0 <= i < |l.slots| ensures Within(r.slots[i], l.freeEnd, limit) {
      assert Within(l.slots[i], l.freeEnd, limit);
    }
    forall i, j | 0 <= i < j < |l.slots| ensures Apart(r.slots[i], r.slots[j]) {
      assert Apart(l.slots[i], l.slots[j]);
    }
    CountLiveUpdate(l.slots, k, l.slots[k].(deleted := true));
    if !l.slots[k].deleted {
      LiveSome(l.slots, k, |l.slots|);
    }
  }

  lemma {:induction false} LiveSome(slots: seq<Slot>, k: nat, n: nat)
    requires k < n <= |slots| && !slots[k].deleted
    ensures LiveBelow(slots, n) > 0
  {
    if k < n - 1 {
      LiveSome(slots, k, n - 1);
    }
  }

  lemma RecordDeleted(s: seq<byte>, r: seq<byte>, limit: nat, k: nat)
    requires Wf(s, limit) && Live(s, k) && Wf(r, limit)
    requires SameBody(s, r, FreeStart(s)) && LayoutOf(r) == WithDeleted(LayoutOf(s), k)
    ensures Readable(s) && Readable(r) && Records(r) == Records(s) - {k}
  {
    WfIsReadable(s, limit);
    WfIsReadable(r, limit);
    SameBodyKeepsExtents(s, r, limit);
    OtherRecordsKept(Slots(s), s, Slots(r), r, k);
  }

  /** Writing a whole record changes that record and no other. */
  method WriteRecord(p: array<byte>, k: nat, data: seq<byte>, ghost limit: nat)
    requires p.Length == PAGE_SIZE && Wf(p[..], limit) && Live(p[..], k) && |data| == Slots(p[..])[k].size
    modifies p
    ensures HasDirectory(p[..]) && LayoutOf(p[..]) == old(LayoutOf(p[..])) && Wf(p[..], limit)
    ensures Readable(p[..]) && old(Readable(p[..])) && Records(p[..]) == old(Records(p[..]))[k := data]
    ensures forall i | limit <= i < PAGE_SIZE :: p[i] == old(p[i])
    ensures forall i | 0 <= i < FreeStart(p[..]) :: p[i] == old(p[i])
  {
    ghost var s := p[..];
    assert Within(LayoutOf(s).slots[k], FreeEnd(s), limit);
    var x := GetSlot(p, k);
    CopyInto(p, x.offset, data);
    RecordWritten(s, limit, k, data);
  }

  lemma RecordWritten(s: seq<byte>, limit: nat, k: nat, data: seq<byte>)
    requires Wf(s, limit) && Live(s, k) && |data| == Slots(s)[k].size && Slots(s)[k].offset + |data| <= PAGE_SIZE
    ensures var r := Splice(s, Slots(s)[k].offset, data);
            && HasDirectory(r) && LayoutOf(r) == LayoutOf(s) && Readable(s) && Readable(r)
            && Records(r) == Records(s)[k := data]
  {
    var slots := Slots(s);
    var r := Splice(s, slots[k].offset, data);
    assert Within(LayoutOf(s).slots[k], FreeEnd(s), limit);
    DirectoryKept(s, r);
    WfIsReadable(s, limit);
    SpliceKeepsApart(s, LayoutOf(s), limit, k, data);
    OtherRecordsKept(slots, s, slots, r, k);
  }

  /** The header and the directory decode the same when their bytes are the same. */
  lemma DirectoryKept(s: seq<byte>, r: seq<byte>)
    requires HasDirectory(s) && |r| == PAGE_SIZE && forall i | 0 <= i < FreeStart(s) :: r[i] == s[i]
    ensures HasDirectory(r) && LayoutOf(r) == LayoutOf(s)
  {
    SameDirectory(s, r, Capacity(s));
  }

  /** Overwriting bytes outside an extent leaves it alone. */
  lemma SpliceMisses(s: seq<byte>, at: nat, data: seq<byte>, x: Slot)
    requires |s| == PAGE_SIZE && at + |data| <= PAGE_SIZE && x.offset + x.size <= PAGE_SIZE
    requires x.size == 0 || data == [] || x.offset + x.size <= at || at + |data| <= x.offset
    ensures Extent(Splice(s, at, data), x) == Extent(s, x)
  {
  }

  lemma SpliceKeepsApart(s: seq<byte>, l: Layout, limit: nat, k: nat, data: seq<byte>)
    requires |s| == PAGE_SIZE && WfLayout(l, limit) && InPage(l.slots) && k < |l.slots| && |data| == l.slots[k].size
    ensures Extent(Splice(s, l.slots[k].offset, data), l.slots[k]) == data
    ensures forall i | 0 <= i < |l.slots| && i != k ::
              Extent(Splice(s, l.slots[k].offset, data), l.slots[i]) == Extent(s, l.slots[i])
  {
    var r := Splice(s, l.slots[k].offset, data);
    forall i | 0 <= i < |l.slots| && i != k ensures Extent(r, l.slots[i]) == Extent(s, l.slots[i]) {
      assert if i < k then Apart(l.slots[i], l.slots[k]) else Apart(l.slots[k], l.slots[i]);
      SpliceMisses(s, l.slots[k].offset, data, l.slots[i]);
    }
  }
}
