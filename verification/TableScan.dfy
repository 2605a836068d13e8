/** The cursor over a disk table, and the meaning of a full scan. */
module TableScan {
  import opened Bytes
  import opened DiskFile
  import opened DiskTable
  import PF = PageFormat
  import HP = HeapPage

  type Row = (int, seq<byte>)

  // ----- scanning a list of pages, seen as slot counts and row states

  /** Slot counts bound the rows: every row lies on a listed page, below its slot count. */
  ghost predicate Bounded(chain: seq<nat>, count: nat -> nat, f: nat -> RowState) {
    && Distinct(chain)
    && (forall i | 0 <= i < |chain| :: chain[i] < MAX_PAGES && count(chain[i]) < 0x1_0000)
    && (forall rid: nat :: f(rid).Present? ==>
            rid < 0x1_0000_0000_0000 && PageOf(rid) in chain && SlotOf(rid) < count(PageOf(rid)))
  }

  ghost function Left(chain: seq<nat>, count: nat -> nat, i: nat, k: nat): nat {
    if i < |chain| && k < count(chain[i]) then count(chain[i]) - k else 0
  }

  /** The rows from slot `k` of data page `i` on, in list and slot order. */
  ghost function Scan(chain: seq<nat>, count: nat -> nat, f: nat -> RowState, i: nat, k: nat): seq<Row>
    decreases |chain| - i, Left(chain, count, i, k)
  {
    if i >= |chain| then []
    else if k >= count(chain[i]) then Scan(chain, count, f, i + 1, 0)
    else
      var rid := MakeRowId(chain[i], k);
      (if f(rid).Present? then [(rid, f(rid).bytes)] else []) + Scan(chain, count, f, i, k + 1)
  }

  /** Row `rid` lies at slot `k` of data page `i` or behind it. */
  ghost predicate AtOrAfter(chain: seq<nat>, i: nat, k: nat, rid: nat) {
    exists j: nat :: j < |chain| && chain[j] == PageOf(rid) && (j > i || (j == i && SlotOf(rid) >= k))
  }

  lemma StartEarlier(chain: seq<nat>, i: nat, k: nat, i': nat, k': nat, rid: nat)
    requires AtOrAfter(chain, i', k', rid) && (i < i' || (i == i' && k <= k'))
    ensures AtOrAfter(chain, i, k, rid)
  {
    var j: nat :| j < |chain| && chain[j] == PageOf(rid) && (j > i' || (j == i' && SlotOf(rid) >= k'));
    assert j > i || (j == i && SlotOf(rid) >= k);
  }

  /** Everything a scan yields is a row of the table, at or behind its starting point. */
  lemma {:induction false} ScanSound(chain: seq<nat>, count: nat -> nat, f: nat -> RowState, i: nat, k: nat, m: nat)
    requires Bounded(chain, count, f) && m < |Scan(chain, count, f, i, k)|
    ensures var (rid, bytes) := Scan(chain, count, f, i, k)[m];
            rid >= 0 && f(rid) == Present(bytes) && AtOrAfter(chain, i, k, rid)
    decreases |chain| - i, Left(chain, count, i, k)
  {
    var row := Scan(chain, count, f, i, k)[m];
    if k >= count(chain[i]) {
      ScanSound(chain, count, f, i + 1, 0, m);
      StartEarlier(chain, i, k, i + 1, 0, row.0);
    } else {
      var rid := MakeRowId(chain[i], k);
      RowIdRoundTrip(chain[i], k);
      if f(rid).Present? && m == 0 {
        assert chain[i] == PageOf(rid);
      } else {
        var n := if f(rid).Present? then m - 1 else m;
        assert row == Scan(chain, count, f, i, k + 1)[n];
        ScanSound(chain, count, f, i, k + 1, n);
        StartEarlier(chain, i, k, i, k + 1, row.0);
      }
    }
  }

  /** The live slot `s` of data page `j` is reached. */
  lemma {:induction false} ScanReaches(chain: seq<nat>,
                                       count: nat -> nat, f: nat -> RowState, i: nat, k: nat, j: nat, s: nat)
    requires j < |chain| && s < count(chain[j]) && (j > i || (j == i && s >= k))
    requires f(MakeRowId(chain[j], s)).Present?
    ensures (MakeRowId(chain[j], s), f(MakeRowId(chain[j], s)).bytes) in Scan(chain, count, f, i, k)
    decreases |chain| - i, Left(chain, count, i, k)
  {
    if k >= count(chain[i]) {
      ScanReaches(chain, count, f, i + 1, 0, j, s);
    } else if j != i || s != k {
      ScanReaches(chain, count, f, i, k + 1, j, s);
    }
  }

  /** Every row at or behind the starting point is yielded. */
  lemma ScanComplete(chain: seq<nat>, count: nat -> nat, f: nat -> RowState, i: nat, k: nat, rid: nat)
    requires Bounded(chain, count, f) && f(rid).Present? && AtOrAfter(chain, i, k, rid)
    ensures (rid, f(rid).bytes) in Scan(chain, count, f, i, k)
  {
    var j: nat :| j < |chain| && chain[j] == PageOf(rid) && (j > i || (j == i && SlotOf(rid) >= k));
    RowIdParts(rid);
    ScanReaches(chain, count, f, i, k, j, SlotOf(rid));
  }

  ghost predicate NoRepeats(rows: seq<Row>) {
    forall m, n | 0 <= m < n < |rows| :: rows[m].0 != rows[n].0
  }

  lemma FirstIsNew(row: Row, rest: seq<Row>)
    requires NoRepeats(rest) && forall m | 0 <= m < |rest| :: rest[m].0 != row.0
    ensures NoRepeats([row] + rest)
  {
  }

  /** No row is yielded twice. */
  lemma {:induction false} ScanDistinct(chain: seq<nat>, count: nat -> nat, f: nat -> RowState, i: nat, k: nat)
    requires Bounded(chain, count, f)
    ensures NoRepeats(Scan(chain, count, f, i, k))
    decreases |chain| - i, Left(chain, count, i, k)
  {
    if i < |chain| && k >= count(chain[i]) {
      ScanDistinct(chain, count, f, i + 1, 0);
    } else if i < |chain| {
      ScanDistinct(chain, count, f, i, k + 1);
      if f(MakeRowId(chain[i], k)).Present? {
        ScanFirst(chain, count, f, i, k);
      } else {
        ScanPasses(chain, count, f, i, k);
      }
    }
  }

  /** A live row comes first and is not yielded again. */
  lemma ScanFirst(chain: seq<nat>, count: nat -> nat, f: nat -> RowState, i: nat, k: nat)
    requires Bounded(chain, count, f) && i < |chain| && k < count(chain[i]) && f(MakeRowId(chain[i], k)).Present?
    requires NoRepeats(Scan(chain, count, f, i, k + 1))
    ensures NoRepeats(Scan(chain, count, f, i, k))
  {
    var rid, rest := MakeRowId(chain[i], k), Scan(chain, count, f, i, k + 1);
    forall m | 0 <= m < |rest| ensures rest[m].0 != rid {
      ScanSound(chain, count, f, i, k + 1, m);
      LaterRowDiffers(chain, i, k, rest[m].0);
    }
    FirstIsNew((rid, f(rid).bytes), rest);
  }

  /** A row behind slot `k` of data page `i` is not the row in that slot. */
  lemma LaterRowDiffers(chain: seq<nat>, i: nat, k: nat, rid: int)
    requires Distinct(chain) && i < |chain| && chain[i] < MAX_PAGES && k < 0x1_0000
    requires rid >= 0 && AtOrAfter(chain, i, k + 1, rid)
    ensures rid != MakeRowId(chain[i], k)
  {
    RowIdRoundTrip(chain[i], k);
  }

  // ----- scanning a table

  ghost function Counts(store: Store): nat -> nat {
    (page: nat) => if page in store && PF.HasDirectory(store[page]) then PF.Capacity(store[page]) else 0
  }

  ghost function ScanFrom(store: Store, chain: seq<nat>, i: nat, k: nat): seq<Row> {
    Scan(chain, Counts(store), States(store, chain), i, k)
  }

  lemma TableIsBounded(store: Store, chain: seq<nat>)
    requires TableOk(store, chain)
    ensures Bounded(chain, Counts(store), States(store, chain))
  {
    forall i | 0 <= i < |chain| ensures chain[i] < MAX_PAGES && Counts(store)(chain[i]) < 0x1_0000 {
      assert PageOk(store, chain, i);
    }
  }

  /** `rows` lists each row of the table exactly once, with its bytes. */
  ghost predicate IsFullScan(table: imap<nat, seq<byte>>, rows: seq<Row>) {
    && (forall m | 0 <= m < |rows| :: 0 <= rows[m].0 && rows[m].0 in table && table[rows[m].0] == rows[m].1)
    && NoRepeats(rows)
    && (forall rid: nat | rid in table :: (rid as int, table[rid]) in rows)
  }

  lemma ScanIsFull(store: Store, chain: seq<nat>)
    requires TableOk(store, chain)
    ensures IsFullScan(Rows(store, chain), ScanFrom(store, chain, 0, 0))
  {
    TableIsBounded(store, chain);
    GridScanIsFull(chain, Counts(store), States(store, chain));
  }

  lemma GridScanIsFull(chain: seq<nat>, count: nat -> nat, f: nat -> RowState)
    requires Bounded(chain, count, f)
    ensures IsFullScan(RowsIn(f), Scan(chain, count, f, 0, 0))
  {
    var rows := Scan(chain, count, f, 0, 0);
    forall m | 0 <= m < |rows| ensures 0 <= rows[m].0 && rows[m].0 in RowsIn(f) && RowsIn(f)[rows[m].0] == rows[m].1 {
      ScanSound(chain, count, f, 0, 0, m);
    }
    ScanDistinct(chain, count, f, 0, 0);
    forall rid: nat | rid in RowsIn(f) ensures (rid, RowsIn(f)[rid]) in rows {
      var j :| 0 <= j < |chain| && chain[j] == PageOf(rid);
      assert AtOrAfter(chain, 0, 0, rid);
      ScanComplete(chain, count, f, 0, 0, rid);
    }
  }

  // ----- the cursor

  /** A dead slot contributes nothing. */
  lemma ScanPasses(chain: seq<nat>, count: nat -> nat, f: nat -> RowState, i: nat, k: nat)
    requires i < |chain| && k < count(chain[i]) && !f(MakeRowId(chain[i], k)).Present?
    ensures Scan(chain, count, f, i, k) == Scan(chain, count, f, i, k + 1)
  {
    assert [] + Scan(chain, count, f, i, k + 1) == Scan(chain, count, f, i, k + 1);
  }

  lemma {:induction false} ScanSkips(chain: seq<nat>, count: nat -> nat, f: nat -> RowState, i: nat, k: nat, k': nat)
    requires i < |chain| && k <= k' <= count(chain[i])
    requires forall j: nat | k <= j < k' :: !f(MakeRowId(chain[i], j)).Present?
    ensures Scan(chain, count, f, i, k) == Scan(chain, count, f, i, k')
    decreases k' - k
  {
    if k < k' {
      ScanSkips(chain, count, f, i, k + 1, k');
      ScanPasses(chain, count, f, i, k);
    }
  }

  /** The row state of slot `k` on data page `i`. */
  lemma StateAt(store: Store, chain: seq<nat>, i: nat, k: nat)
    requires i < |chain| && PageOk(store, chain, i) && k < 0x1_0000
    ensures States(store, chain)(MakeRowId(chain[i], k)) == SlotState(store[chain[i]], k)
    ensures Counts(store)(chain[i]) == PF.Capacity(store[chain[i]])
  {
    RowIdRoundTrip(chain[i], k);
  }

  /** The first live slot from `from` on, with its record. */
  method NextLiveRecord(s: seq<byte>, from: nat) returns (k: nat, row: seq<byte>)
    requires HP.Wf(s)
    ensures from <= k && (k < PF.Capacity(s) ==> SlotState(s, k) == Present(row))
            && (k >= PF.Capacity(s) ==> k == from || k == PF.Capacity(s))
    ensures forall j: nat | from <= j < k :: !SlotState(s, j).Present?
  {
    PF.WfIsReadable(s, HP.LIMIT);
    var p := Fetch(s);
    k, row := from, [];
    while k < PF.Capacity(p[..])
      invariant from <= k && p[..] == s && (k > PF.Capacity(s) ==> k == from)
      invariant forall j: nat | from <= j < k :: j >= PF.Capacity(s) || PF.Slots(s)[j].deleted
    {
      var x := PF.GetSlot(p, k);
      if !x.deleted {
        row := PF.ReadRecord(p, k);
        break;
      }
      k := k + 1;
    }
  }

  /** A position in the list of data pages, or past its end. */
  ghost predicate Positioned(chain: seq<nat>, page: int, slot: nat, i: nat) {
    i <= |chain| && page == Link(chain, i) && (page == HP.NULL_PAGE <==> i == |chain|) && slot < 0x1_0000
  }

  /** A position at the live row `row`, or past the end. */
  ghost predicate AtRow(store: Store, chain: seq<nat>, page: int, slot: nat, i: nat, row: seq<byte>) {
    && Positioned(chain, page, slot, i)
    && (i < |chain| ==> StateOf(store, chain, MakeRowId(chain[i], slot)) == Present(row))
  }

  /** One round of the advance: the next live row of the current page, or the next page. */
  method AdvanceOnPage(store: Store, ghost chain: seq<nat>, page: nat, slot: nat, ghost i: nat)
    returns (found: bool, slot': nat, row: seq<byte>, next: nat)
    requires TableOk(store, chain) && Positioned(chain, page, slot, i) && i < |chain|
    ensures found ==>
              && AtRow(store, chain, page, slot', i, row)
              && ScanFrom(store, chain, i, slot') == ScanFrom(store, chain, i, slot)
    ensures !found ==>
              && Positioned(chain, next, 0, i + 1)
              && ScanFrom(store, chain, i + 1, 0) == ScanFrom(store, chain, i, slot)
  {
    assert PageOk(store, chain, i);
    slot', row := NextLiveRecord(store[page], slot);
    SkipTo(store, chain, i, slot, slot');
    found := slot' < PF.Capacity(store[page]);
    next := HP.NextOf(store[page]);
    StateAt(store, chain, i, if found then slot' else 0);
    NullEndsList(store, chain, i + 1);
  }

  /** The advance of a cursor: the next live row at or behind a position, along the links. */
  method FindNext(store: Store, ghost chain: seq<nat>, page: int, slot: nat, partialHead: int, inPartial: bool,
                  ghost i: nat)
    returns (page': int, slot': nat, row: seq<byte>, inPartial': bool, ghost i': nat)
    requires TableOk(store, chain) && Positioned(chain, page, slot, i) && (partialHead != HP.NULL_PAGE ==> inPartial)
    ensures AtRow(store, chain, page', slot', i', row) && (partialHead != HP.NULL_PAGE ==> inPartial')
    ensures ScanFrom(store, chain, i', slot') == ScanFrom(store, chain, i, slot)
  {
    page', slot', row, inPartial', i' := page, slot, [], inPartial, i;
    while page' != HP.NULL_PAGE
      invariant Positioned(chain, page', slot', i') && (partialHead != HP.NULL_PAGE ==> inPartial')
      invariant ScanFrom(store, chain, i', slot') == ScanFrom(store, chain, i, slot)
      decreases |chain| - i'
    {
      var found, k, r, next := AdvanceOnPage(store, chain, page', slot', i');
      if found {
        slot', row := k, r;
        return;
      }
      var backToPartial := next == HP.NULL_PAGE && !inPartial' && partialHead != HP.NULL_PAGE;
      page' := if backToPartial then partialHead else next;
      inPartial' := inPartial' || backToPartial;
      slot', i' := 0, i' + 1;
    }
  }

  class Cursor {
    /** The pages of the table and their list. A scan does not overlap with changes of its
        table, so these are the contents at its start. */
    const store: Store
    ghost const chain: seq<nat>
    var page: int
    var slot: nat
    var partialHead: int
    var inPartial: bool
    var row: seq<byte>
    /** Position of `page` in the list of data pages. */
    ghost var i: nat

    /** The cursor is at a live row, whose bytes it holds, or past the end. */
    ghost predicate Valid()
      reads this
    {
      && TableOk(store, chain) && AtRow(store, chain, page, slot, i, row)
      && (partialHead != HP.NULL_PAGE ==> inPartial)
    }

    /** The rows that are still to come, the current one first. */
    ghost function Rest(): seq<Row>
      reads this
    {
      ScanFrom(store, chain, i, slot)
    }

    /** A fresh cursor has the whole table in front of it. */
    constructor (t: HeapTable)
      requires TableOk(t.store, t.chain)
      ensures Valid() && store == t.store && chain == t.chain && Rest() == ScanFrom(t.store, t.chain, 0, 0)
    {
      store, chain := t.store, t.chain;
      row, slot, i := [], 0, 0;
      var fullHead := HP.NextOf(t.store[ROOT]);
      var partial := HP.PrevOf(t.store[ROOT]);
      partialHead := partial;
      inPartial := fullHead == HP.NULL_PAGE && partial != HP.NULL_PAGE;
      page := if fullHead != HP.NULL_PAGE then fullHead else partial;
      new;
      NullEndsList(t.store, t.chain, 0);
      AdvanceToNextValid();
    }

    /** Moves to the next live row at or behind the current position. */
    method AdvanceToNextValid()
      requires TableOk(store, chain) && Positioned(chain, page, slot, i)
      requires partialHead != HP.NULL_PAGE ==> inPartial
      modifies this
      ensures Valid() && Rest() == old(Rest()) && partialHead == old(partialHead)
    {
      page, slot, row, inPartial, i := FindNext(store, chain, page, slot, partialHead, inPartial, i);
    }

    /** Moving on drops exactly the current row. */
    method Next()
      requires Valid() && page != HP.NULL_PAGE
      modifies this
      ensures Valid() && old(Rest()) != [] && Rest() == old(Rest())[1..]
    {
      CurrentIsFirst(store, chain, i, slot);
      slot := slot + 1;
      AdvanceToNextValid();
    }

    /** The current row. */
    method Current() returns (r: Row)
      requires Valid() && page != HP.NULL_PAGE
      ensures Rest() != [] && r == Rest()[0]
    {
      CurrentIsFirst(store, chain, i, slot);
      r := (MakeRowId(page, slot), row);
    }

    method MoveTo(p: nat, s: nat, r: seq<byte>, ghost j: nat)
      requires Valid() && AtRow(store, chain, p, s, j, r)
      modifies this
      ensures Valid() && page == p && slot == s && row == r && i == j
    {
      page, slot, row := p, s, r;
      i := j;
    }

    /** Seeking to a row continues the scan from there; other ids are refused. */
    method Seek(rid: nat) returns (ok: bool)
      requires Valid() && rid < 0x1_0000_0000_0000 && PageOf(rid) in store
      modifies this
      ensures Valid() && (ok <==> rid in Rows(store, chain))
      ensures !ok ==> page == old(page) && slot == old(slot) && row == old(row) && i == old(i)
      ensures ok ==> Rest() != [] && Rest()[0].0 == rid
    {
      var r;
      ghost var j;
      var p, s := PageOf(rid), SlotOf(rid);
      ok, r, j := FindRow(store, chain, rid, p, s);
      if ok {
        MoveTo(p, s, r, j);
      }
    }
  }

  /** Looks up a row by its page and slot. */
  method FindRow(store: Store, ghost chain: seq<nat>, ghost rid: nat, page: nat, slot: nat)
    returns (ok: bool, row: seq<byte>, ghost j: nat)
    requires TableOk(store, chain) && rid < 0x1_0000_0000_0000 && page == PageOf(rid) && slot == SlotOf(rid)
    requires page in store
    ensures ok <==> rid in Rows(store, chain)
    ensures ok ==> AtRow(store, chain, page, slot, j, row)
    ensures ok ==> ScanFrom(store, chain, j, slot) != [] && ScanFrom(store, chain, j, slot)[0].0 == rid
  {
    j := PageInList(store, chain, rid);
    var k;
    k, row := NextLiveRecord(store[page], slot);
    ok := slot < PF.Capacity(store[page]) && k == slot;
    if ok {
      LiveRowIsFirst(store, chain, j, rid, page, slot);
    }
  }

  lemma LiveRowIsFirst(store: Store, chain: seq<nat>, j: nat, rid: nat, page: nat, slot: nat)
    requires TableOk(store, chain) && j < |chain| && chain[j] == page && slot < 0x1_0000 && rid == MakeRowId(page, slot)
    requires page in store && SlotState(store[page], slot).Present?
    ensures Positioned(chain, page, slot, j) && StateOf(store, chain, rid) == SlotState(store[page], slot)
    ensures ScanFrom(store, chain, j, slot) != [] && ScanFrom(store, chain, j, slot)[0].0 == rid
  {
    assert PageOk(store, chain, j);
    StateAt(store, chain, j, slot);
    NullEndsList(store, chain, j);
    CurrentIsFirst(store, chain, j, slot);
  }

  /** A page of the file is a data page, or the root, which has no slots. */
  lemma PageInList(store: Store, chain: seq<nat>, rid: nat) returns (j: nat)
    requires TableOk(store, chain) && rid < 0x1_0000_0000_0000 && PageOf(rid) in store
    ensures HP.Wf(store[PageOf(rid)]) && MakeRowId(PageOf(rid), SlotOf(rid)) == rid
    ensures if PageOf(rid) in chain then j < |chain| && chain[j] == PageOf(rid)
            else PF.Capacity(store[PageOf(rid)]) == 0
    ensures rid in Rows(store, chain) <==> PageOf(rid) in chain && SlotState(store[PageOf(rid)], SlotOf(rid)).Present?
  {
    RowIdParts(rid);
    assert Listed(chain, PageOf(rid));
    j := 0;
    if PageOf(rid) in chain {
      j :| 0 <= j < |chain| && chain[j] == PageOf(rid);
      assert PageOk(store, chain, j);
    }
  }

  lemma SkipTo(store: Store, chain: seq<nat>, i: nat, k: nat, k': nat)
    requires i < |chain| && PageOk(store, chain, i) && k <= k'
    requires k' <= PF.Capacity(store[chain[i]]) || k' == k
    requires forall j: nat | k <= j < k' :: !SlotState(store[chain[i]], j).Present?
    ensures k' <= PF.Capacity(store[chain[i]]) ==> ScanFrom(store, chain, i, k) == ScanFrom(store, chain, i, k')
    ensures k' >= PF.Capacity(store[chain[i]]) ==> ScanFrom(store, chain, i, k) == ScanFrom(store, chain, i + 1, 0)
  {
    StateAt(store, chain, i, 0);
    if k' <= PF.Capacity(store[chain[i]]) {
      forall j: nat | k <= j < k' ensures !States(store, chain)(MakeRowId(chain[i], j)).Present? {
        StateAt(store, chain, i, j);
      }
      ScanSkips(chain, Counts(store), States(store, chain), i, k, k');
    }
  }

  lemma CurrentIsFirst(store: Store, chain: seq<nat>, i: nat, k: nat)
    requires TableOk(store, chain) && i < |chain| && k < 0x1_0000
             && StateOf(store, chain, MakeRowId(chain[i], k)).Present?
    ensures ScanFrom(store, chain, i, k) ==
            [(MakeRowId(chain[i], k), StateOf(store, chain, MakeRowId(chain[i], k)).bytes)]
                + ScanFrom(store, chain, i, k + 1)
    ensures k + 1 < 0x1_0000
  {
    assert PageOk(store, chain, i);
    StateAt(store, chain, i, k);
  }

  /** The null link is met exactly at the end of the list. */
  lemma NullEndsList(store: Store, chain: seq<nat>, i: nat)
    requires TableOk(store, chain) && i <= |chain|
    ensures Link(chain, i) == HP.NULL_PAGE <==> i == |chain|
  {
    assert i < |chain| ==> PageOk(store, chain, i);
  }
}
