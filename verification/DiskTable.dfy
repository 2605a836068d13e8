/** Tables stored in a heap file: a list of heap pages linked from the root page.

    The table works on the pages through `store`, the contents that the buffer pool
    presents; a page is copied into a frame, changed there in place, and put back. */
module DiskTable {
  import opened Bytes
  import opened Wrappers
  import opened DiskFile
  import PF = PageFormat
  import HP = HeapPage

  const ROOT: nat := 0

  /** Rows up to this size fit on an empty heap page. */
  const MAX_ROW: nat := 4068

  // ----- row ids

  function MakeRowId(page: nat, slot: nat): nat { page * 0x1_0000 + slot }

  function PageOf(rid: nat): nat { (rid / 0x1_0000) % 0x1_0000_0000 }

  function SlotOf(rid: nat): nat { rid % 0x1_0000 }

  /** A row id names its page and slot, and nothing else does. */
  lemma RowIdRoundTrip(page: nat, slot: nat)
    requires page < 0x1_0000_0000 && slot < 0x1_0000
    ensures PageOf(MakeRowId(page, slot)) == page && SlotOf(MakeRowId(page, slot)) == slot
    ensures MakeRowId(page, slot) < 0x1_0000_0000_0000
  {
  }

  /** Only the lower 48 bits of a row id count. */
  lemma RowIdParts(rid: nat)
    ensures MakeRowId(PageOf(rid), SlotOf(rid)) == rid % 0x1_0000_0000_0000
  {
  }

  lemma OtherSlot(rid: nat, page: nat, slot: nat)
    requires rid < 0x1_0000_0000_0000 && PageOf(rid) == page && rid != MakeRowId(page, slot)
    ensures SlotOf(rid) != slot
  {
    RowIdParts(rid);
  }

  // ----- the page list

  type Store = map<int, seq<byte>>

  /** The link that leads to position `i` of the list. */
  ghost function Link(chain: seq<nat>, i: nat): nat { if i < |chain| then chain[i] else HP.NULL_PAGE }

  ghost predicate PageOk(store: Store, chain: seq<nat>, i: nat)
    requires i < |chain|
  {
    && chain[i] in store && ROOT != chain[i] < MAX_PAGES
    && HP.Wf(store[chain[i]]) && HP.NextOf(store[chain[i]]) == Link(chain, i + 1)
  }

  ghost predicate Distinct(chain: seq<nat>) {
    forall i, j | 0 <= i < j < |chain| :: chain[i] != chain[j]
  }

  /** `chain` lists the data pages: the root leads to the first, each page to the next, and
      the last one to nothing. The root holds no rows, every other page is listed, and the
      list of full pages is empty. */
  ghost predicate TableOk(store: Store, chain: seq<nat>) {
    && ROOT in store && HP.Wf(store[ROOT]) && PF.Capacity(store[ROOT]) == 0
    && HP.NextOf(store[ROOT]) == HP.NULL_PAGE && HP.PrevOf(store[ROOT]) == Link(chain, 0)
    && (forall i {:trigger PageOk(store, chain, i)} | 0 <= i < |chain| :: PageOk(store, chain, i))
    && Distinct(chain)
    && (forall p {:trigger Listed(chain, p)} | p in store :: Listed(chain, p))
  }

  ghost predicate Listed(chain: seq<nat>, p: int) { p == ROOT || p in chain }

  /** The chain of a store is determined by the links: following them from the root visits
      each data page once and stops. */
  lemma {:induction false} ChainIsUnique(store: Store, a: seq<nat>, b: seq<nat>, i: nat)
    requires TableOk(store, a) && TableOk(store, b) && i <= |a| && i <= |b| && a[..i] == b[..i]
    ensures a == b
    decreases |a| - i
  {
    assert i > 0 ==> PageOk(store, a, i - 1) && PageOk(store, b, i - 1) && a[i - 1] == a[..i][i - 1] == b[..i][i - 1];
    assert Link(a, i) == Link(b, i);
    assert i < |a| ==> PageOk(store, a, i);
    assert i < |b| ==> PageOk(store, b, i);
    if i < |a| {
      assert a[..i + 1] == a[..i] + [a[i]] && b[..i + 1] == b[..i] + [b[i]];
      ChainIsUnique(store, a, b, i + 1);
    } else {
      assert a[..i] == a && b[..i] == b;
    }
  }

  // ----- the rows of a table

  /** What a row id stands for. */
  datatype RowState = Unissued | Deleted | Present(bytes: seq<byte>)

  ghost function SlotState(s: seq<byte>, k: nat): RowState {
    if !PF.Readable(s) || k >= PF.Capacity(s) then Unissued
    else if k in PF.Records(s) then Present(PF.Records(s)[k])
    else Deleted
  }

  ghost function StateOf(store: Store, chain: seq<nat>, rid: nat): RowState {
    if rid < 0x1_0000_0000_0000 && PageOf(rid) in chain && PageOf(rid) in store
    then SlotState(store[PageOf(rid)], SlotOf(rid))
    else Unissued
  }

  ghost function IssuedIn(f: nat -> RowState): iset<nat> { iset rid: nat | f(rid) != Unissued }

  ghost function RowsIn(f: nat -> RowState): imap<nat, seq<byte>> { imap rid: nat | f(rid).Present? :: f(rid).bytes }

  ghost function States(store: Store, chain: seq<nat>): nat -> RowState { (rid: nat) => StateOf(store, chain, rid) }

  /** Every row id that an insert has returned so far. */
  ghost function Issued(store: Store, chain: seq<nat>): iset<nat> { IssuedIn(States(store, chain)) }

  /** The abstract value of a table. */
  ghost function Rows(store: Store, chain: seq<nat>): imap<nat, seq<byte>> { RowsIn(States(store, chain)) }

  /** Two tables agree on every row but `rid`. */
  ghost predicate OnlyRow(store: Store, chain: seq<nat>, store': Store, chain': seq<nat>, rid: nat) {
    forall x: nat | x != rid :: StateOf(store', chain', x) == StateOf(store, chain, x)
  }

  lemma ChangedAt(f: nat -> RowState, g: nat -> RowState, rid: nat)
    requires forall x: nat | x != rid :: g(x) == f(x)
    ensures IssuedIn(g) == if g(rid) == Unissued then IssuedIn(f) - iset{rid} else IssuedIn(f) + iset{rid}
    ensures RowsIn(g) == if g(rid).Present? then RowsIn(f)[rid := g(rid).bytes] else RowsIn(f) - {rid}
  {
  }

  lemma RowInserted(store: Store, chain: seq<nat>, store': Store, chain': seq<nat>, rid: nat, row: seq<byte>)
    requires OnlyRow(store, chain, store', chain', rid)
    requires StateOf(store, chain, rid) == Unissued && StateOf(store', chain', rid) == Present(row)
    ensures rid !in Issued(store, chain) && Issued(store', chain') == Issued(store, chain) + iset{rid}
    ensures Rows(store', chain') == Rows(store, chain)[rid := row]
  {
    ChangedAt(States(store, chain), States(store', chain'), rid);
  }

  lemma RowDeleted(store: Store, chain: seq<nat>, store': Store, chain': seq<nat>, rid: nat)
    requires OnlyRow(store, chain, store', chain', rid)
    requires StateOf(store, chain, rid).Present? && StateOf(store', chain', rid) == Deleted
    ensures Issued(store', chain') == Issued(store, chain)
    ensures Rows(store', chain') == Rows(store, chain) - {rid}
  {
    ChangedAt(States(store, chain), States(store', chain'), rid);
    assert rid in Issued(store, chain);
    assert Issued(store, chain) + iset{rid} == Issued(store, chain);
  }

  // ----- effect of page updates on the table

  /** Two pages agree on every slot but `k`. */
  ghost predicate OnlySlotOf(s: seq<byte>, r: seq<byte>, k: nat) {
    forall j: nat | j != k :: SlotState(r, j) == SlotState(s, j)
  }

  lemma StateKept(store: Store, chain: seq<nat>, page: nat, r: seq<byte>, k: nat, x: nat)
    requires page in store && OnlySlotOf(store[page], r, k) && x != MakeRowId(page, k)
    ensures StateOf(store[page := r], chain, x) == StateOf(store, chain, x)
  {
    if x < 0x1_0000_0000_0000 && PageOf(x) == page {
      OtherSlot(x, page, k);
      assert SlotState(r, SlotOf(x)) == SlotState(store[page], SlotOf(x));
    }
  }

  /** Updating slot `k` of one data page changes that row only. */
  lemma PageUpdate(store: Store, chain: seq<nat>, page: nat, r: seq<byte>, k: nat)
    requires page in store && page in chain && page < MAX_PAGES && k < 0x1_0000 && OnlySlotOf(store[page], r, k)
    ensures var rid := MakeRowId(page, k);
            && OnlyRow(store, chain, store[page := r], chain, rid)
            && StateOf(store, chain, rid) == SlotState(store[page], k)
            && StateOf(store[page := r], chain, rid) == SlotState(r, k)
  {
    var rid := MakeRowId(page, k);
    RowIdRoundTrip(page, k);
    forall x: nat | x != rid ensures StateOf(store[page := r], chain, x) == StateOf(store, chain, x) {
      StateKept(store, chain, page, r, k, x);
    }
  }

  /** Replacing the contents of a data page, its link kept, keeps the list. */
  lemma UpdateKeepsList(store: Store, chain: seq<nat>, i: nat, r: seq<byte>)
    requires TableOk(store, chain) && i < |chain| && PageOk(store, chain, i)
    requires HP.Wf(r) && HP.NextOf(r) == HP.NextOf(store[chain[i]])
    ensures TableOk(store[chain[i] := r], chain)
  {
    var store' := store[chain[i] := r];
    forall j | 0 <= j < |chain| ensures PageOk(store', chain, j) {
      assert PageOk(store, chain, j);
    }
    forall p | p in store' ensures Listed(chain, p) { }
  }

  /** A page with one more slot, holding `row`. */
  lemma SlotAdded(s: seq<byte>, r: seq<byte>, row: seq<byte>)
    requires PF.Readable(s) && PF.Readable(r) && PF.Capacity(r) == PF.Capacity(s) + 1
    requires PF.Records(r) == PF.Records(s)[PF.Capacity(s) := row]
    ensures OnlySlotOf(s, r, PF.Capacity(s))
    ensures SlotState(s, PF.Capacity(s)) == Unissued && SlotState(r, PF.Capacity(s)) == Present(row)
  {
  }

  lemma SlotRemoved(s: seq<byte>, r: seq<byte>, k: nat)
    requires PF.Readable(s) && PF.Readable(r) && PF.Capacity(r) == PF.Capacity(s) && k in PF.Records(s)
    requires PF.Records(r) == PF.Records(s) - {k}
    ensures OnlySlotOf(s, r, k)
    ensures SlotState(s, k).Present? && SlotState(r, k) == Deleted
  {
  }

  /** The page that holds the link to the end of the list. */
  ghost function Tail(chain: seq<nat>): nat { if chain == [] then ROOT else chain[|chain| - 1] }

  /** `r` is the page `s` with its list link redirected to `page`. */
  ghost predicate Relinked(s: seq<byte>, r: seq<byte>, page: nat, isRoot: bool) {
    && HP.Wf(s) && HP.Wf(r) && PF.Capacity(r) == PF.Capacity(s) && (forall k: nat :: SlotState(r, k) == SlotState(s, k))
    && (if isRoot then HP.PrevOf(r) == page && HP.NextOf(r) == HP.NextOf(s) else HP.NextOf(r) == page)
  }

  /** A fresh page is linked behind the last one, or from the root. */
  ghost predicate Appending(store: Store, chain: seq<nat>, page: nat, w: seq<byte>, r: seq<byte>) {
    && TableOk(store, chain) && page !in store && page < MAX_PAGES
    && HP.Wf(w) && HP.NextOf(w) == HP.NULL_PAGE
    && Tail(chain) in store && Relinked(store[Tail(chain)], r, page, chain == [])
  }

  lemma AppendKeepsPage(store: Store, chain: seq<nat>, page: nat, w: seq<byte>, r: seq<byte>, i: nat)
    requires Appending(store, chain, page, w, r) && i < |chain|
    ensures PageOk(store[page := w][Tail(chain) := r], chain + [page], i)
  {
    assert PageOk(store, chain, i);
    assert chain[i] == Tail(chain) ==> i == |chain| - 1;
  }

  lemma AppendedPage(store: Store, chain: seq<nat>, page: nat, w: seq<byte>, r: seq<byte>)
    requires Appending(store, chain, page, w, r)
    ensures PageOk(store[page := w][Tail(chain) := r], chain + [page], |chain|) && Distinct(chain + [page])
  {
    forall i | 0 <= i < |chain| ensures chain[i] != page { assert PageOk(store, chain, i); }
  }

  lemma AppendKeepsRoot(store: Store, chain: seq<nat>, page: nat, w: seq<byte>, r: seq<byte>)
    requires Appending(store, chain, page, w, r)
    ensures var store', chain' := store[page := w][Tail(chain) := r], chain + [page];
            && ROOT in store' && HP.Wf(store'[ROOT]) && PF.Capacity(store'[ROOT]) == 0
            && HP.NextOf(store'[ROOT]) == HP.NULL_PAGE && HP.PrevOf(store'[ROOT]) == Link(chain', 0)
  {
    assert chain != [] ==> PageOk(store, chain, |chain| - 1);
  }

  /** Appending a fresh page keeps the list. */
  lemma AppendKeepsList(store: Store, chain: seq<nat>, page: nat, w: seq<byte>, r: seq<byte>)
    requires Appending(store, chain, page, w, r)
    ensures TableOk(store[page := w][Tail(chain) := r], chain + [page])
  {
    var store', chain' := store[page := w][Tail(chain) := r], chain + [page];
    AppendKeepsRoot(store, chain, page, w, r);
    AppendedPage(store, chain, page, w, r);
    forall i | 0 <= i < |chain| ensures PageOk(store', chain', i) {
      AppendKeepsPage(store, chain, page, w, r, i);
    }
    AllListed(store, chain, page, w, r);
  }

  lemma AllListed(store: Store, chain: seq<nat>, page: nat, w: seq<byte>, r: seq<byte>)
    requires TableOk(store, chain) && Tail(chain) in store
    ensures forall p | p in store[page := w][Tail(chain) := r] :: Listed(chain + [page], p)
  {
    forall p | p in store ensures Listed(chain + [page], p) { assert Listed(chain, p); }
  }

  /** ... and the row on it is the only new one. */
  lemma AppendAddsRow(store: Store, chain: seq<nat>, page: nat, w: seq<byte>, r: seq<byte>, row: seq<byte>)
    requires TableOk(store, chain) && page !in store && page < MAX_PAGES
    requires PF.Readable(w) && PF.Capacity(w) == 1 && PF.Records(w) == map[0 := row]
    requires Tail(chain) in store && Relinked(store[Tail(chain)], r, page, chain == [])
    ensures var store', chain' := store[page := w][Tail(chain) := r], chain + [page];
            && OnlyRow(store, chain, store', chain', MakeRowId(page, 0))
            && StateOf(store, chain, MakeRowId(page, 0)) == Unissued
            && StateOf(store', chain', MakeRowId(page, 0)) == Present(row)
  {
    var store', chain' := store[page := w][Tail(chain) := r], chain + [page];
    RowIdRoundTrip(page, 0);
    forall x: nat | x != MakeRowId(page, 0) ensures StateOf(store', chain', x) == StateOf(store, chain, x) {
      if x < 0x1_0000_0000_0000 {
        if PageOf(x) == page {
          OtherSlot(x, page, 0);
        }
        assert PageOf(x) == Tail(chain) ==> SlotState(r, SlotOf(x)) == SlotState(store[Tail(chain)], SlotOf(x));
      }
    }
  }

  /** The allocation test: room for the record and its directory entry. */
  predicate HasRoom(s: seq<byte>, size: nat)
    requires |s| == PAGE_SIZE
  {
    size + PF.ENTRY_SIZE <= PF.FreeEnd(s) - PF.FreeStart(s)
  }

  ghost predicate FullAt(store: Store, chain: seq<nat>, i: nat, size: nat)
    requires i < |chain|
  {
    chain[i] in store && |store[chain[i]]| == PAGE_SIZE && !HasRoom(store[chain[i]], size)
  }

  /** The first `n` data pages have no room for a record of `size` bytes. */
  ghost predicate AllFull(store: Store, chain: seq<nat>, n: nat, size: nat) {
    n <= |chain| && forall i {:trigger FullAt(store, chain, i, size)} | 0 <= i < n :: FullAt(store, chain, i, size)
  }

  ghost predicate SameRoomAt(store: Store, store': Store, p: nat) {
    && p in store && p in store' && |store[p]| == |store'[p]| == PAGE_SIZE
    && PF.FreeEnd(store'[p]) == PF.FreeEnd(store[p]) && PF.FreeStart(store'[p]) == PF.FreeStart(store[p])
  }

  /** The data pages of two stores have the same free space. */
  ghost predicate SameRoom(store: Store, store': Store, chain: seq<nat>) {
    forall i {:trigger SameRoomAt(store, store', chain[i])} | 0 <= i < |chain| :: SameRoomAt(store, store', chain[i])
  }

  lemma SameRoomSameFull(store: Store, store': Store, chain: seq<nat>, size: nat)
    requires SameRoom(store, store', chain)
    ensures AllFull(store', chain, |chain|, size) <==> AllFull(store, chain, |chain|, size)
  {
    forall i | 0 <= i < |chain| ensures FullAt(store', chain, i, size) <==> FullAt(store, chain, i, size) {
      assert SameRoomAt(store, store', chain[i]);
    }
  }

  method Fetch(s: seq<byte>) returns (p: array<byte>)
    requires |s| == PAGE_SIZE
    ensures fresh(p) && p[..] == s
  {
    p := new byte[PAGE_SIZE](i requires 0 <= i < PAGE_SIZE => s[i]);
  }

  class HeapTable {
    const alloc: PageAllocator
    var store: Store
    ghost var chain: seq<nat>

    ghost predicate Valid()
      reads this, alloc
    {
      && alloc.Valid() && alloc.capacity <= MAX_PAGES && store.Keys == alloc.InUse()
      && TableOk(store, chain)
    }

    /** The code can store a row of this size: it fits on an empty page, and there is a page
        with room for it or one that can be added. */
    ghost predicate CanInsert(size: nat)
      reads this, alloc
    {
      size <= MAX_ROW && (alloc.CanAllocate(MAX_PAGES) || !AllFull(store, chain, |chain|, size))
    }

    /** A new file: the root page is allocated first and starts an empty list. */
    constructor ()
      ensures Valid() && chain == [] && fresh(alloc)
      ensures Rows(store, chain) == imap[] && Issued(store, chain) == iset{}
    {
      alloc := new PageAllocator();
      store, chain := map[], [];
      new;
      var root := alloc.AllocatePage();
      var p := new byte[PAGE_SIZE];
      HP.InitPage(p);
      store := store[root := p[..]];
      assert alloc.InUse() == {ROOT} by { assert Between(0, ROOT, 1); }
    }

    /** Tries to place the row on data page `i` of the list. */
    method TryInsert(page: nat, row: seq<byte>, ghost i: nat) returns (k: Option<nat>)
      requires Valid() && i < |chain| && page == chain[i]
      modifies this`store
      ensures Valid() && page in old(store) && |old(store)[page]| == PAGE_SIZE
      ensures k.Some? <==> HasRoom(old(store)[page], |row|)
      ensures k.None? ==> store == old(store)
      ensures k.Some? ==> Inserted(old(store), chain, store, chain, MakeRowId(page, k.value), row)
    {
      assert PageOk(store, chain, i);
      ghost var s := store[page];
      var p := Fetch(store[page]);
      k := AppendRecord(p, row);
      if k.Some? {
        SlotAdded(s, p[..], row);
        PageUpdate(store, chain, page, p[..], k.value);
        UpdateKeepsList(store, chain, i, p[..]);
        RowInserted(store, chain, store[page := p[..]], chain, MakeRowId(page, k.value), row);
        store := store[page := p[..]];
      }
    }

    /** Puts the row on a fresh page and links that page behind the last one. */
    method InsertOnNewPage(row: seq<byte>, last: nat) returns (page: nat)
      requires Valid() && alloc.CanAllocate(MAX_PAGES) && |row| <= MAX_ROW
      requires last == if chain == [] then HP.NULL_PAGE else Tail(chain)
      modifies this, alloc
      ensures Valid() && chain == old(chain) + [page]
      ensures Inserted(old(store), old(chain), store, chain, MakeRowId(page, 0), row)
    {
      page := alloc.AllocatePage();
      store := LinkNewPage(store, chain, page, row, last);
      chain := chain + [page];
    }

    /** First-fit insertion along the list; a fresh page is appended only when no page has
        room. The row gets an id that was never issued before, and no other row changes.
        Without a result the code has no defined behaviour: a row that does not fit on the
        fresh page either has no slot to be written to, and the offset of a page beyond the
        limit is that of another page. */
    method InsertRow(row: seq<byte>) returns (rid: Option<nat>)
      requires Valid()
      modifies this, alloc
      ensures Valid() && (rid.Some? <==> old(CanInsert(|row|)))
      ensures rid.None? ==> store == old(store) && chain == old(chain)
      ensures rid.Some? ==> Inserted(old(store), old(chain), store, chain, rid.value, row)
      ensures rid.Some? ==>
                || chain == old(chain)
                || (|chain| == |old(chain)| + 1 && AllFull(old(store), old(chain), |old(chain)|, |row|))
    {
      var next := HP.PrevOf(store[ROOT]);
      var last := HP.NULL_PAGE;
      ghost var i := 0;
      while next != HP.NULL_PAGE
        invariant Valid() && store == old(store) && chain == old(chain)
        invariant alloc.capacity == old(alloc.capacity) && alloc.freePages == old(alloc.freePages)
        invariant i <= |chain| && next == Link(chain, i) && last == (if i == 0 then HP.NULL_PAGE else chain[i - 1])
        invariant AllFull(store, chain, i, |row|)
        decreases |chain| - i
      {
        assert PageOk(store, chain, i);
        var k := TryInsert(next, row, i);
        if k.Some? {
          RoomIsSmall(old(store), chain, i, |row|);
          return Some(MakeRowId(next, k.value));
        }
        last, next := next, HP.NextOf(store[next]);
        i := i + 1;
      }
      assert i < |chain| ==> PageOk(store, chain, i);
      if |row| > MAX_ROW || !alloc.CanAllocate(MAX_PAGES) {
        return None;
      }
      var page := InsertOnNewPage(row, last);
      rid := Some(MakeRowId(page, 0));
    }

    /** Deletes the slot on data page `i`. */
    method DeleteAt(page: nat, slot: nat, ghost i: nat)
      requires Valid() && i < |chain| && page == chain[i] && page in store
      requires PF.HasDirectory(store[page]) && slot < PF.Capacity(store[page])
      modifies this`store
      ensures page in old(store) && PF.HasDirectory(old(store)[page])
      ensures PF.Live(old(store)[page], slot) ==>
                Valid() && RowRemoved(old(store), store, chain, MakeRowId(page, slot))
                    && SameRoom(old(store), store, chain)
      ensures !PF.Live(old(store)[page], slot) ==> !TableOk(store, chain)
    {
      assert PageOk(store, chain, i);
      var r := RemoveSlot(store[page], slot);
      DeletedFromTable(store, chain, i, slot, r);
      store := store[page := r];
    }

    /** Deleting a row that exists removes exactly that row; its id stays issued. The code
        does not check that the row still exists, and the table stays intact exactly if it
        does. */
    method DeleteRow(rid: nat)
      requires Valid() && rid in Issued(store, chain)
      modifies this`store
      ensures rid in old(Rows(store, chain)) ==>
                Valid() && RowRemoved(old(store), store, chain, rid) && SameRoom(old(store), store, chain)
      ensures rid !in old(Rows(store, chain)) ==> !TableOk(store, chain)
    {
      ghost var i := IssuedHasPage(store, chain, rid);
      DeleteAt(PageOf(rid), SlotOf(rid), i);
    }

    /** An update is a deletion followed by an insertion: the row moves to a fresh id. */
    method UpdateRow(rid: nat, row: seq<byte>) returns (rid': Option<nat>)
      requires Valid() && rid in Rows(store, chain)
      modifies this, alloc
      ensures Valid() && (rid'.Some? <==> old(CanInsert(|row|)))
      ensures rid'.Some? ==> Moved(old(store), old(chain), store, chain, rid, rid'.value, row)
      ensures rid'.None? ==> chain == old(chain) && RowRemoved(old(store), store, chain, rid)
      ensures |old(chain)| <= |chain| <= |old(chain)| + 1
    {
      RowIsIssued(store, chain, rid);
      DeleteRow(rid);
      ghost var mid := store;
      SameRoomSameFull(old(store), mid, chain, |row|);
      assert CanInsert(|row|) <==> old(CanInsert(|row|));
      rid' := InsertRow(row);
      if rid'.Some? {
        RemovedAndInserted(old(store), old(chain), mid, store, chain, rid, rid'.value, row);
      }
    }
  }

  lemma RowIsIssued(store: Store, chain: seq<nat>, rid: nat)
    requires rid in Rows(store, chain)
    ensures rid in Issued(store, chain)
  {
  }

  lemma RowsAreIssued(store: Store, chain: seq<nat>)
    ensures forall x: nat | x in Rows(store, chain) :: x in Issued(store, chain)
  {
  }

  /** A page with room has it for a row that fits on an empty page. */
  lemma RoomIsSmall(store: Store, chain: seq<nat>, i: nat, size: nat)
    requires i < |chain| && PageOk(store, chain, i) && HasRoom(store[chain[i]], size)
    ensures size <= MAX_ROW && !AllFull(store, chain, |chain|, size)
  {
    assert !FullAt(store, chain, i, size);
  }

  /** The root and the first `n` data pages. */
  ghost function ListedPages(chain: seq<nat>, n: nat): (ps: set<nat>)
    requires n <= |chain|
    ensures |ps| <= n + 1 && ROOT in ps && forall i | 0 <= i < n :: chain[i] in ps
  {
    if n == 0 then {ROOT} else ListedPages(chain, n - 1) + {chain[n - 1]}
  }

  /** A table can grow by a page as long as it has fewer than 2^20 - 1 data pages. */
  lemma RoomForAPage(t: HeapTable)
    requires t.Valid() && |t.chain| + 1 < MAX_PAGES
    ensures t.alloc.CanAllocate(MAX_PAGES)
  {
    var ps := ListedPages(t.chain, |t.chain|);
    forall p | p in t.alloc.InUse() ensures p in ps {
      assert p in t.store.Keys;
      assert Listed(t.chain, p);
    }
    SubsetSize(t.alloc.InUse(), ps);
    FullIffAllUsed(t.alloc);
  }

  /** A fresh heap page with one row. */
  method BuildPage(row: seq<byte>) returns (w: seq<byte>)
    requires |row| <= MAX_ROW
    ensures HP.Wf(w) && HP.NextOf(w) == HP.NULL_PAGE
    ensures PF.Readable(w) && PF.Capacity(w) == 1 && PF.Records(w) == map[0 := row]
  {
    var p := new byte[PAGE_SIZE];
    HP.InitPage(p);
    assert |PF.Slots(p[..])| == 0;
    var k := AppendRecord(p, row);
    w := p[..];
  }

  /** The store with a fresh page that holds the row, linked behind the last page. */
  method LinkNewPage(store: Store, ghost chain: seq<nat>, page: nat, row: seq<byte>, last: nat) returns (store': Store)
    requires TableOk(store, chain) && page !in store && page < MAX_PAGES && |row| <= MAX_ROW
    requires last == if chain == [] then HP.NULL_PAGE else Tail(chain)
    ensures TableOk(store', chain + [page]) && store'.Keys == store.Keys + {page}
    ensures Inserted(store, chain, store', chain + [page], MakeRowId(page, 0), row)
  {
    TailInStore(store, chain);
    var w := BuildPage(row);
    var tail := if last == HP.NULL_PAGE then ROOT else last;
    var r := Relink(store[tail], page, last == HP.NULL_PAGE);
    AppendedTable(store, chain, page, w, r, row);
    store' := store[page := w][tail := r];
  }

  /** The page `s` with its list link redirected to `page`. */
  method Relink(s: seq<byte>, page: nat, isRoot: bool) returns (r: seq<byte>)
    requires HP.Wf(s) && page < MAX_PAGES
    ensures Relinked(s, r, page, isRoot)
  {
    var q := Fetch(s);
    if isRoot {
      HP.SetPrevPage(q, page);
    } else {
      HP.SetNextPage(q, page);
    }
    SameSlots(s, q[..]);
    r := q[..];
  }

  method RemoveSlot(s: seq<byte>, slot: nat) returns (r: seq<byte>)
    requires HP.Wf(s) && slot < PF.Capacity(s)
    ensures PF.HasDirectory(r) && (HP.Wf(r) <==> PF.Live(s, slot))
    ensures HP.NextOf(r) == HP.NextOf(s) && PF.Capacity(r) == PF.Capacity(s) && PF.FreeEnd(r) == PF.FreeEnd(s)
    ensures PF.Live(s, slot) ==> PF.Readable(s) && PF.Readable(r) && PF.Records(r) == PF.Records(s) - {slot}
  {
    var p := Fetch(s);
    PF.DeleteSlot(p, slot, HP.LIMIT);
    HP.LinksKept(s, p[..]);
    r := p[..];
  }

  lemma AppendedTable(store: Store, chain: seq<nat>, page: nat, w: seq<byte>, r: seq<byte>, row: seq<byte>)
    requires Appending(store, chain, page, w, r)
    requires PF.Readable(w) && PF.Capacity(w) == 1 && PF.Records(w) == map[0 := row]
    ensures var store', chain' := store[page := w][Tail(chain) := r], chain + [page];
            TableOk(store', chain') && Inserted(store, chain, store', chain', MakeRowId(page, 0), row)
  {
    var store', chain' := store[page := w][Tail(chain) := r], chain + [page];
    AppendKeepsList(store, chain, page, w, r);
    AppendAddsRow(store, chain, page, w, r, row);
    RowInserted(store, chain, store', chain', MakeRowId(page, 0), row);
  }

  /** An issued id names a slot of a data page; the row exists if the slot is live. */
  lemma IssuedHasPage(store: Store, chain: seq<nat>, rid: nat) returns (i: nat)
    requires TableOk(store, chain) && rid in Issued(store, chain)
    ensures i < |chain| && chain[i] == PageOf(rid) && PageOf(rid) in store && HP.Wf(store[PageOf(rid)])
    ensures SlotOf(rid) < PF.Capacity(store[PageOf(rid)]) && MakeRowId(PageOf(rid), SlotOf(rid)) == rid
    ensures rid in Rows(store, chain) <==> PF.Live(store[PageOf(rid)], SlotOf(rid))
  {
    i :| 0 <= i < |chain| && chain[i] == PageOf(rid);
    assert PageOk(store, chain, i);
    PF.WfIsReadable(store[PageOf(rid)], HP.LIMIT);
    RowIdParts(rid);
  }

  /** Removal of one row, its id staying issued. */
  ghost predicate RowRemoved(store: Store, store': Store, chain: seq<nat>, rid: nat) {
    && TableOk(store', chain) && Issued(store', chain) == Issued(store, chain)
    && Rows(store', chain) == Rows(store, chain) - {rid}
  }

  /** A row that moved to a fresh id with new bytes. */
  ghost predicate Moved(store: Store, chain: seq<nat>, store': Store, chain': seq<nat>, rid: nat, rid': nat,
                        row: seq<byte>) {
    && rid' !in Issued(store, chain) && Issued(store', chain') == Issued(store, chain) + iset{rid'}
    && Rows(store', chain') == (Rows(store, chain) - {rid})[rid' := row]
  }

  lemma RemovedAndInserted(store: Store, chain: seq<nat>, mid: Store, store': Store, chain': seq<nat>, rid: nat,
                           rid': nat, row: seq<byte>)
    requires RowRemoved(store, mid, chain, rid) && Inserted(mid, chain, store', chain', rid', row)
    ensures Moved(store, chain, store', chain', rid, rid', row)
  {
  }

  lemma DeletedFromTable(store: Store, chain: seq<nat>, i: nat, slot: nat, r: seq<byte>)
    requires TableOk(store, chain) && i < |chain| && PageOk(store, chain, i)
    requires slot < PF.Capacity(store[chain[i]]) && PF.HasDirectory(r) && (HP.Wf(r) <==> PF.Live(store[chain[i]], slot))
    requires HP.NextOf(r) == HP.NextOf(store[chain[i]]) && PF.FreeEnd(r) == PF.FreeEnd(store[chain[i]])
    requires PF.Capacity(r) == PF.Capacity(store[chain[i]])
    requires PF.Live(store[chain[i]], slot) ==>
               && PF.Readable(store[chain[i]]) && PF.Readable(r)
               && PF.Records(r) == PF.Records(store[chain[i]]) - {slot}
    ensures var store' := store[chain[i] := r];
            if PF.Live(store[chain[i]], slot)
            then RowRemoved(store, store', chain, MakeRowId(chain[i], slot)) && SameRoom(store, store', chain)
            else !TableOk(store', chain)
  {
    var page := chain[i];
    var store' := store[page := r];
    if PF.Live(store[page], slot) {
      SlotRemoved(store[page], r, slot);
      PageUpdate(store, chain, page, r, slot);
      UpdateKeepsList(store, chain, i, r);
      RowDeleted(store, chain, store', chain, MakeRowId(page, slot));
      forall j | 0 <= j < |chain| ensures SameRoomAt(store, store', chain[j]) { assert PageOk(store, chain, j); }
    } else {
      assert !PageOk(store', chain, i);
    }
  }

  lemma TailInStore(store: Store, chain: seq<nat>)
    requires TableOk(store, chain)
    ensures Tail(chain) in store && HP.Wf(store[Tail(chain)]) && Tail(chain) != HP.NULL_PAGE
  {
    assert chain != [] ==> PageOk(store, chain, |chain| - 1);
  }

  /** Insertion of one row, as the table's callers see it. */
  ghost predicate Inserted(store: Store, chain: seq<nat>, store': Store, chain': seq<nat>, rid: nat, row: seq<byte>) {
    && rid !in Issued(store, chain) && Issued(store', chain') == Issued(store, chain) + iset{rid}
    && Rows(store', chain') == Rows(store, chain)[rid := row]
  }

  lemma SameSlots(s: seq<byte>, r: seq<byte>)
    requires PF.Readable(s) && PF.Readable(r) && PF.LayoutOf(r) == PF.LayoutOf(s) && PF.Records(r) == PF.Records(s)
    ensures forall k: nat :: SlotState(r, k) == SlotState(s, k)
  {
  }

  /** Allocates a slot on a heap page and copies the row into it. */
  method AppendRecord(p: array<byte>, row: seq<byte>) returns (k: Option<nat>)
    requires p.Length == PAGE_SIZE && HP.Wf(p[..])
    modifies p
    ensures HP.Wf(p[..]) && HP.NextOf(p[..]) == old(HP.NextOf(p[..])) && HP.PrevOf(p[..]) == old(HP.PrevOf(p[..]))
    ensures k.Some? <==> HasRoom(old(p[..]), |row|)
    ensures k.None? ==> p[..] == old(p[..])
    ensures k.Some? ==>
              && k.value == old(PF.Capacity(p[..])) < 0x1_0000 && PF.Capacity(p[..]) == k.value + 1
              && old(PF.Readable(p[..])) && PF.Readable(p[..])
                  && PF.Records(p[..]) == old(PF.Records(p[..]))[k.value := row]
  {
    ghost var s := p[..];
    k := PF.AllocateSlot(p, |row|, HP.LIMIT);
    if k.Some? {
      ghost var r := p[..];
      LastSlot(s, r, k.value, row);
      HP.LinksKept(s, r);
      PF.WriteRecord(p, k.value, row, HP.LIMIT);
      HP.LinksKept(r, p[..]);
      assert |PF.Slots(p[..])| == |PF.Slots(r)|;
    }
  }

  /** The slot just allocated is live and has the requested size. */
  lemma LastSlot(s: seq<byte>, r: seq<byte>, k: nat, row: seq<byte>)
    requires PF.Inserted(s, r, k, |row|) && HP.Wf(s) && HP.Wf(r) && PF.Capacity(s) == k && PF.Capacity(r) == k + 1
    ensures PF.Live(r, k) && PF.Slots(r)[k].size == |row| && k < 0x1_0000
    ensures PF.Records(r)[k := row] == PF.Records(s)[k := row]
  {
  }
}
