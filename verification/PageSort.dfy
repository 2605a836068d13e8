/** In-place sorting of a page: the directory is compacted to the left and then sorted by a
    quicksort that swaps entries and never touches the records they point to. */
module PageSort {
  import opened Bytes
  import opened PageFormat

  // ----- the live entries of a directory, in slot order

  ghost function LiveSlotsBelow(slots: seq<Slot>, n: nat): (r: seq<Slot>)
    requires n <= |slots|
    ensures |r| == LiveBelow(slots, n)
  {
    if n == 0 then [] else LiveSlotsBelow(slots, n - 1) + if slots[n - 1].deleted then [] else [slots[n - 1]]
  }

  /** The entries of the live slots. */
  ghost function LiveSlots(slots: seq<Slot>): seq<Slot> { LiveSlotsBelow(slots, |slots|) }

  // ----- the record byte strings of a directory

  /** Whether `x` is a live entry whose record in the image `s` is `v`. */
  ghost predicate Holds(s: seq<byte>, x: Slot, v: seq<byte>) {
    |s| == PAGE_SIZE && !x.deleted && x.offset + x.size <= PAGE_SIZE && Extent(s, x) == v
  }

  ghost function CopiesBelow(s: seq<byte>, a: seq<Slot>, v: seq<byte>, n: nat): nat
    requires n <= |a|
  {
    if n == 0 then 0 else CopiesBelow(s, a, v, n - 1) + if Holds(s, a[n - 1], v) then 1 else 0
  }

  /** Number of live records with the bytes `v`. */
  ghost function Copies(s: seq<byte>, a: seq<Slot>, v: seq<byte>): nat { CopiesBelow(s, a, v, |a|) }

  /** The directories `a` in `s` and `b` in `r` hold the same multiset of record byte strings. */
  ghost predicate SameBag(s: seq<byte>, a: seq<Slot>, r: seq<byte>, b: seq<Slot>) {
    forall v :: Copies(s, a, v) == Copies(r, b, v)
  }

  lemma {:induction false} CopiesUpdate(s: seq<byte>, a: seq<Slot>, i: nat, x: Slot, v: seq<byte>, n: nat)
    requires i < |a| && n <= |a|
    ensures CopiesBelow(s, a[i := x], v, n) + (if i < n && Holds(s, a[i], v) then 1 else 0)
         == CopiesBelow(s, a, v, n) + (if i < n && Holds(s, x, v) then 1 else 0)
  {
    if n > 0 {
      CopiesUpdate(s, a, i, x, v, n - 1);
    }
  }

  lemma {:induction false} CopiesInImage(l: Layout, limit: nat, s: seq<byte>, r: seq<byte>, v: seq<byte>, n: nat)
    requires WfLayout(l, limit) && n <= |l.slots| && SameBody(s, r, EntryAt(|l.slots|))
    ensures CopiesBelow(r, l.slots, v, n) == CopiesBelow(s, l.slots, v, n)
  {
    if n > 0 {
      CopiesInImage(l, limit, s, r, v, n - 1);
      var x := l.slots[n - 1];
      assert Within(x, l.freeEnd, limit);
      assert x.offset + x.size <= PAGE_SIZE ==> Extent(r, x) == Extent(s, x);
    }
  }

  /** The records are the same bytes in every image that only differs in the directory. */
  lemma BagInImage(l: Layout, limit: nat, s: seq<byte>, r: seq<byte>)
    requires WfLayout(l, limit) && SameBody(s, r, EntryAt(|l.slots|))
    ensures SameBag(s, l.slots, r, l.slots)
  {
    forall v ensures Copies(s, l.slots, v) == Copies(r, l.slots, v) {
      CopiesInImage(l, limit, s, r, v, |l.slots|);
    }
  }

  // ----- compacting the directory

  /** `d` live entries, then deleted ones up to `n`. */
  ghost predicate Packed(a: seq<Slot>, d: nat, n: nat) {
    && d <= n <= |a|
    && (forall i | 0 <= i < d :: !a[i].deleted)
    && (forall i | d <= i < n :: a[i].deleted)
  }

  lemma {:induction false} PackedLive(a: seq<Slot>, d: nat, n: nat, k: nat)
    requires Packed(a, d, n) && k <= n
    ensures LiveSlotsBelow(a, k) == a[..if k <= d then k else d]
  {
    if k > 0 {
      PackedLive(a, d, n, k - 1);
    }
  }

  /** The entry at `n` moved into the deleted entry at `d`. */
  ghost function Shifted(a: seq<Slot>, d: nat, n: nat): seq<Slot>
    requires d < n < |a|
  {
    a[d := Slot(false, a[n].offset, a[n].size)][n := Slot(true, 0, 0)]
  }

  /** The moved entry keeps its place among the live ones: only deleted entries lie between. */
  lemma {:induction false} ShiftKeepsOrder(a: seq<Slot>, d: nat, n: nat, k: nat)
    requires Packed(a, d, n) && d < n < |a| && !a[n].deleted && k <= |a|
    ensures LiveSlotsBelow(Shifted(a, d, n), k) == LiveSlotsBelow(a, k) + if d < k <= n then [a[n]] else []
  {
    if k > 0 {
      ShiftKeepsOrder(a, d, n, k - 1);
    }
  }

  lemma ShiftKeepsBag(s: seq<byte>, a: seq<Slot>, d: nat, n: nat)
    requires |s| == PAGE_SIZE && d < n < |a| && a[d].deleted && !a[n].deleted
    ensures SameBag(s, a, s, Shifted(a, d, n))
  {
    var x := Slot(false, a[n].offset, a[n].size);
    forall v ensures Copies(s, a, v) == Copies(s, Shifted(a, d, n), v) {
      CopiesUpdate(s, a, d, x, v, |a|);
      CopiesUpdate(s, a[d := x], n, Slot(true, 0, 0), v, |a|);
    }
  }

  lemma ShiftIsWf(l: Layout, limit: nat, d: nat, n: nat)
    requires WfLayout(l, limit) && d < n < |l.slots| && l.slots[d].deleted && !l.slots[n].deleted
    ensures WfLayout(l.(slots := Shifted(l.slots, d, n)), limit)
  {
    var a := l.slots;
    var b := Shifted(a, d, n);
    CountLiveUpdate(a, d, Slot(false, a[n].offset, a[n].size));
    CountLiveUpdate(a[d := Slot(false, a[n].offset, a[n].size)], n, Slot(true, 0, 0));
    forall i | 0 <= i < |b| ensures Within(b[i], l.freeEnd, limit) {
      assert Within(a[i], l.freeEnd, limit) && Within(a[n], l.freeEnd, limit);
    }
    forall i, j | 0 <= i < j < |b| ensures Apart(b[i], b[j]) {
      assert Apart(a[i], a[j]);
      assert if i == d then (j < n ==> Apart(a[j], a[n])) && (j > n ==> Apart(a[n], a[j])) else true;
      assert j == d ==> Apart(a[i], a[n]);
    }
  }

  /** A deleted entry keeps its extent; one whose record moved away loses it. */
  function Emptied(x: Slot): Slot { if x.deleted then x else Slot(true, 0, 0) }

  /** Halfway through the compaction of `a`: entries from `ptr` on are untouched, and those
      between `d` and `ptr` are emptied. */
  ghost predicate Shifting(a: seq<Slot>, b: seq<Slot>, d: nat, ptr: nat) {
    && |a| == |b| && d <= ptr <= |a|
    && (forall i | d <= i < ptr :: b[i] == Emptied(a[i]))
    && (forall i | ptr <= i < |a| :: b[i] == a[i])
  }

  lemma ShiftingSkips(a: seq<Slot>, b: seq<Slot>, d: nat, ptr: nat, ptr': nat)
    requires Shifting(a, b, d, ptr) && Packed(b, d, ptr') && ptr <= ptr'
    ensures Shifting(a, b, d, ptr')
  {
  }

  lemma ShiftingMoves(a: seq<Slot>, b: seq<Slot>, d: nat, ptr: nat)
    requires Shifting(a, b, d, ptr) && d < ptr < |a| && !b[ptr].deleted
    ensures Shifting(a, Shifted(b, d, ptr), d + 1, ptr + 1)
  {
  }

  /** The entries behind the live ones. */
  ghost predicate EmptiedFrom(a: seq<Slot>, b: seq<Slot>, n: nat) {
    |a| == |b| && forall i | n <= i < |a| :: b[i] == Emptied(a[i])
  }

  /** What the page operations of this module keep: everything but the directory entries. */
  ghost predicate OnlyEntries(s: seq<byte>, r: seq<byte>) {
    && HasDirectory(s) && HasDirectory(r) && SameBody(s, r, FreeStart(s))
    && Capacity(r) == Capacity(s) && FreeEnd(r) == FreeEnd(s) && Tuples(r) == Tuples(s)
  }

  /** Moves the live entries to the front of the directory, in their order. */
  method ShiftSlotsLeft(p: array<byte>, ghost limit: nat)
    requires p.Length == PAGE_SIZE && Wf(p[..], limit)
    modifies p
    ensures Wf(p[..], limit) && OnlyEntries(old(p[..]), p[..])
    ensures LiveSlots(Slots(p[..])) == LiveSlots(old(Slots(p[..])))
    ensures Packed(Slots(p[..]), Tuples(p[..]), Capacity(p[..]))
    ensures SameBag(old(p[..]), old(Slots(p[..])), p[..], Slots(p[..]))
    ensures EmptiedFrom(old(Slots(p[..])), Slots(p[..]), Tuples(p[..]))
  {
    ghost var s0 := p[..];
    StartsShift(s0, limit);
    var d: nat := FirstDeleted(p);
    var ptr: nat := d;
    while d < Tuples(p[..])
      invariant MidShift(s0, p[..], limit, d, ptr)
      decreases Capacity(p[..]) - d
    {
      ptr := ShiftNext(p, d, ptr, s0, limit);
      d := d + 1;
    }
    FinishesShift(s0, p[..], limit, d, ptr);
  }

  lemma StartsShift(s: seq<byte>, limit: nat)
    requires Wf(s, limit)
    ensures OnlyEntries(s, s) && SameBag(s, Slots(s), s, Slots(s))
  {
  }

  lemma FinishesShift(s0: seq<byte>, s: seq<byte>, limit: nat, d: nat, ptr: nat)
    requires MidShift(s0, s, limit, d, ptr) && Tuples(s) <= d
    ensures Packed(Slots(s), Tuples(s), Capacity(s)) && SameBag(s0, Slots(s0), s, Slots(s))
    ensures EmptiedFrom(Slots(s0), Slots(s), Tuples(s))
  {
    PackedToEnd(Slots(s), d, ptr);
    BagInImage(LayoutOf(s), limit, s0, s);
  }

  /** The live entries at the front stay where they are. */
  method FirstDeleted(p: array<byte>) returns (d: nat)
    requires p.Length == PAGE_SIZE && HasDirectory(p[..])
    ensures Packed(Slots(p[..]), d, d) && (d < Capacity(p[..]) ==> Slots(p[..])[d].deleted)
  {
    d := 0;
    while d < Capacity(p[..])
      invariant Packed(Slots(p[..]), d, d)
    {
      var x := GetSlot(p, d);
      if x.deleted {
        return;
      }
      d := d + 1;
    }
  }

  /** State of the page between two shifts. */
  ghost predicate MidShift(s0: seq<byte>, s: seq<byte>, limit: nat, d: nat, ptr: nat) {
    && Wf(s, limit) && OnlyEntries(s0, s)
    && LiveSlots(Slots(s)) == LiveSlots(Slots(s0)) && SameBag(s0, Slots(s0), s0, Slots(s))
    && Packed(Slots(s), d, ptr) && Shifting(Slots(s0), Slots(s), d, ptr)
    && (d == ptr < Capacity(s) ==> Slots(s)[d].deleted)
  }

  /** One round: the next live entry moves to position `d`. */
  method ShiftNext(p: array<byte>, d: nat, from: nat, ghost s0: seq<byte>, ghost limit: nat) returns (ptr: nat)
    requires p.Length == PAGE_SIZE && MidShift(s0, p[..], limit, d, from) && d < Tuples(p[..])
    modifies p
    ensures MidShift(s0, p[..], limit, d + 1, ptr) && Capacity(p[..]) == old(Capacity(p[..])) > d
  {
    ghost var b := Slots(p[..]);
    ptr := NextLive(p, d, from, limit);
    ShiftingSkips(Slots(s0), b, d, from, ptr);
    ShiftKeepsBag(s0, b, d, ptr);
    ShiftEntry(p, d, ptr, limit);
    ShiftingMoves(Slots(s0), b, d, ptr);
    ptr := ptr + 1;
  }

  lemma {:induction false} LiveBelowGrows(a: seq<Slot>, n: nat, m: nat)
    requires n <= m <= |a|
    ensures LiveBelow(a, n) <= LiveBelow(a, m)
  {
    if n < m {
      LiveBelowGrows(a, n, m - 1);
    }
  }

  /** With all live entries in front, the rest of the directory is deleted. */
  lemma PackedToEnd(a: seq<Slot>, d: nat, n: nat)
    requires Packed(a, d, n) && CountLive(a) <= d
    ensures Packed(a, d, |a|) && CountLive(a) == d
  {
    PackedLive(a, d, n, n);
    forall i | n <= i < |a| ensures a[i].deleted {
      LiveBelowGrows(a, n, i);
      LiveBelowGrows(a, i + 1, |a|);
    }
    LiveBelowGrows(a, n, |a|);
  }

  /** The inner scan: it stays inside the directory because a live entry is left. */
  method NextLive(p: array<byte>, d: nat, from: nat, ghost limit: nat) returns (ptr: nat)
    requires p.Length == PAGE_SIZE && Wf(p[..], limit) && Packed(Slots(p[..]), d, from) && d < Tuples(p[..])
    ensures from <= ptr < Capacity(p[..]) && Packed(Slots(p[..]), d, ptr) && !Slots(p[..])[ptr].deleted
  {
    ptr := from;
    LiveEntryLeft(Slots(p[..]), d, ptr);
    var x := GetSlot(p, ptr);
    while x.deleted
      invariant from <= ptr < Capacity(p[..]) && Packed(Slots(p[..]), d, ptr) && x == Slots(p[..])[ptr]
      decreases Capacity(p[..]) - ptr
    {
      ptr := ptr + 1;
      LiveEntryLeft(Slots(p[..]), d, ptr);
      x := GetSlot(p, ptr);
    }
  }

  lemma LiveEntryLeft(a: seq<Slot>, d: nat, n: nat)
    requires Packed(a, d, n) && d < CountLive(a)
    ensures n < |a|
  {
    PackedLive(a, d, n, n);
  }

  /** Copies entry `ptr` into the deleted entry `d` and clears it. */
  method ShiftEntry(p: array<byte>, d: nat, ptr: nat, ghost limit: nat)
    requires p.Length == PAGE_SIZE && Wf(p[..], limit)
    requires Packed(Slots(p[..]), d, ptr) && ptr < Capacity(p[..]) && !Slots(p[..])[ptr].deleted
    requires d == ptr ==> Slots(p[..])[d].deleted
    modifies p
    ensures Wf(p[..], limit) && OnlyEntries(old(p[..]), p[..]) && d < ptr
    ensures Slots(p[..]) == Shifted(old(Slots(p[..])), d, ptr)
    ensures Packed(Slots(p[..]), d + 1, ptr + 1) && LiveSlots(Slots(p[..])) == LiveSlots(old(Slots(p[..])))
  {
    ghost var l := LayoutOf(p[..]);
    ShiftKeepsOrder(l.slots, d, ptr, |l.slots|);
    ShiftIsWf(l, limit, d, ptr);
    var x := GetSlot(p, ptr);
    SetSlot(p, d, Slot(false, x.offset, x.size));
    SetSlot(p, ptr, Slot(true, 0, 0));
    assert LayoutOf(p[..]) == l.(slots := Shifted(l.slots, d, ptr));
  }

  // ----- quicksort of the directory

  type Comparator = (seq<byte>, seq<byte>) -> bool

  /** The comparators the sort is promised for. */
  ghost predicate StrictOrder(less: Comparator) {
    && (forall x :: !less(x, x))
    && (forall x, y, z :: less(x, y) && less(y, z) ==> less(x, z))
  }

  /** Comparison of the records that two entries point to in the image `s`. */
  ghost predicate Before(less: Comparator, s: seq<byte>, x: Slot, y: Slot) {
    && |s| == PAGE_SIZE && x.offset + x.size <= PAGE_SIZE && y.offset + y.size <= PAGE_SIZE
    && less(Extent(s, x), Extent(s, y))
  }

  ghost function Swapped(a: seq<Slot>, i: nat, j: nat): seq<Slot>
    requires i < |a| && j < |a|
  {
    a[i := a[j]][j := a[i]]
  }

  lemma SwapKeepsBag(s: seq<byte>, a: seq<Slot>, i: nat, j: nat)
    requires |s| == PAGE_SIZE && i < |a| && j < |a|
    ensures SameBag(s, a, s, Swapped(a, i, j))
  {
    forall v ensures Copies(s, a, v) == Copies(s, Swapped(a, i, j), v) {
      CopiesUpdate(s, a, i, a[j], v, |a|);
      CopiesUpdate(s, a[i := a[j]], j, a[i], v, |a|);
    }
  }

  lemma SwapIsWf(l: Layout, limit: nat, i: nat, j: nat)
    requires WfLayout(l, limit) && i < |l.slots| && j < |l.slots|
    ensures WfLayout(l.(slots := Swapped(l.slots, i, j)), limit)
  {
    var a := l.slots;
    var b := Swapped(a, i, j);
    CountLiveUpdate(a, i, a[j]);
    CountLiveUpdate(a[i := a[j]], j, a[i]);
    forall k | 0 <= k < |a| ensures Within(b[k], l.freeEnd, limit) {
      var k' := Origin(i, j, k);
      assert Within(a[k'], l.freeEnd, limit);
    }
    forall k, m | 0 <= k < m < |a| ensures Apart(b[k], b[m]) {
      var k', m' := Origin(i, j, k), Origin(i, j, m);
      assert if k' < m' then Apart(a[k'], a[m']) else Apart(a[m'], a[k']);
    }
  }

  function Origin(i: nat, j: nat, k: nat): nat { if k == i then j else if k == j then i else k }

  method SwapSlots(p: array<byte>, i: nat, j: nat, ghost limit: nat)
    requires p.Length == PAGE_SIZE && Wf(p[..], limit) && i < Capacity(p[..]) && j < Capacity(p[..])
    modifies p
    ensures Wf(p[..], limit) && OnlyEntries(old(p[..]), p[..])
    ensures Slots(p[..]) == Swapped(old(Slots(p[..])), i, j)
  {
    ghost var l := LayoutOf(p[..]);
    SwapIsWf(l, limit, i, j);
    var x := GetSlot(p, i);
    var y := GetSlot(p, j);
    SetSlot(p, i, y);
    SetSlot(p, j, x);
    assert LayoutOf(p[..]) == l.(slots := Swapped(l.slots, i, j));
  }

  /** `b` permutes the entries of `a` in [lo, hi) and equals `a` elsewhere. */
  ghost predicate Permuted(a: seq<Slot>, b: seq<Slot>, lo: nat, hi: nat) {
    && |a| == |b| && lo <= hi <= |a|
    && b[..lo] == a[..lo] && b[hi..] == a[hi..]
    && multiset(b[lo..hi]) == multiset(a[lo..hi])
  }

  lemma SwapPermutes(a: seq<Slot>, i: nat, j: nat, lo: nat, hi: nat)
    requires lo <= i < hi <= |a| && lo <= j < hi
    ensures Permuted(a, Swapped(a, i, j), lo, hi)
  {
  }

  lemma PermutedOutside(a: seq<Slot>, b: seq<Slot>, lo: nat, hi: nat, i: nat)
    requires Permuted(a, b, lo, hi) && i < |a| && !(lo <= i < hi)
    ensures b[i] == a[i]
  {
  }

  lemma PermutedTrans(a: seq<Slot>, b: seq<Slot>, c: seq<Slot>, lo: nat, hi: nat)
    requires Permuted(a, b, lo, hi) && Permuted(b, c, lo, hi)
    ensures Permuted(a, c, lo, hi)
  {
  }

  /** A permutation of a subrange is a permutation of the whole range. */
  lemma PermutedWiden(a: seq<Slot>, b: seq<Slot>, lo: nat, hi: nat, lo': nat, hi': nat)
    requires Permuted(a, b, lo, hi) && lo' <= lo && hi <= hi' <= |a|
    ensures Permuted(a, b, lo', hi')
  {
    assert a[lo'..hi'] == a[lo'..lo] + a[lo..hi] + a[hi..hi'];
    assert b[lo'..hi'] == b[lo'..lo] + b[lo..hi] + b[hi..hi'];
    assert a[lo'..lo] == a[..lo][lo'..] && b[lo'..lo] == b[..lo][lo'..];
    assert a[hi..hi'] == a[hi..][..hi' - hi] && b[hi..hi'] == b[hi..][..hi' - hi];
    assert a[..lo'] == a[..lo][..lo'] && b[..lo'] == b[..lo][..lo'];
    assert a[hi'..] == a[hi..][hi' - hi..] && b[hi'..] == b[hi..][hi' - hi..];
  }

  /** Every entry of the permuted range comes from the range. */
  lemma PermutedFrom(a: seq<Slot>, b: seq<Slot>, lo: nat, hi: nat, i: nat) returns (k: nat)
    requires Permuted(a, b, lo, hi) && lo <= i < hi
    ensures lo <= k < hi && a[k] == b[i]
  {
    assert b[i] == b[lo..hi][i - lo];
    assert b[i] in multiset(b[lo..hi]);
    assert b[i] in a[lo..hi];
    var m :| 0 <= m < hi - lo && a[lo..hi][m] == b[i];
    k := lo + m;
  }

  /** No entry of [lo, hi) holds a record that compares before that of an earlier one. */
  ghost predicate Ordered(less: Comparator, s: seq<byte>, a: seq<Slot>, lo: nat, hi: nat) {
    hi <= |a| && forall i, j {:trigger Before(less, s, a[j], a[i])} | lo <= i < j < hi :: !Before(less, s, a[j], a[i])
  }

  /** Entries in front of `g` compare before it, entries behind it do not. */
  ghost predicate Split(less: Comparator, s: seq<byte>, a: seq<Slot>, lo: nat, g: nat, hi: nat) {
    && lo <= g < hi <= |a|
    && (forall i {:trigger Before(less, s, a[i], a[g])} | lo <= i < g :: Before(less, s, a[i], a[g]))
    && (forall i {:trigger Before(less, s, a[i], a[g])} | g < i < hi :: !Before(less, s, a[i], a[g]))
  }

  lemma BeforeIsStrict(less: Comparator, s: seq<byte>, x: Slot, y: Slot, z: Slot)
    requires StrictOrder(less)
    ensures !Before(less, s, x, x)
    ensures Before(less, s, x, y) && Before(less, s, y, z) ==> Before(less, s, x, z)
  {
  }

  /** Sorting both sides of a split sorts the whole range. */
  lemma SortedSidesAreSorted(less: Comparator, s: seq<byte>, a: seq<Slot>, b: seq<Slot>, c: seq<Slot>, lo: nat, g: nat,
                             hi: nat)
    requires StrictOrder(less) && Split(less, s, a, lo, g, hi)
    requires Permuted(a, b, lo, g) && Permuted(b, c, g + 1, hi)
    requires Ordered(less, s, b, lo, g) && Ordered(less, s, c, g + 1, hi)
    ensures Ordered(less, s, c, lo, hi)
  {
    forall i, j | lo <= i < j < hi ensures !Before(less, s, c[j], c[i]) {
      if j < g {
        PermutedOutside(b, c, g + 1, hi, i);
        PermutedOutside(b, c, g + 1, hi, j);
        assert !Before(less, s, b[j], b[i]);
      } else if i <= g {
        LowSide(less, s, a, b, c, lo, g, hi, i);
        HighSide(less, s, a, b, c, lo, g, hi, j);
        BeforeIsStrict(less, s, c[j], c[i], c[g]);
        BeforeIsStrict(less, s, c[g], c[i], c[g]);
      }
    }
  }

  lemma LowSide(less: Comparator, s: seq<byte>, a: seq<Slot>, b: seq<Slot>, c: seq<Slot>, lo: nat, g: nat, hi: nat,
                i: nat)
    requires Split(less, s, a, lo, g, hi) && Permuted(a, b, lo, g) && Permuted(b, c, g + 1, hi) && lo <= i <= g
    ensures i < g ==> Before(less, s, c[i], c[g])
  {
    PermutedOutside(a, b, lo, g, g);
    PermutedOutside(b, c, g + 1, hi, g);
    PermutedOutside(b, c, g + 1, hi, i);
    if i < g {
      var k := PermutedFrom(a, b, lo, g, i);
      assert Before(less, s, a[k], a[g]);
    }
  }

  lemma HighSide(less: Comparator, s: seq<byte>, a: seq<Slot>, b: seq<Slot>, c: seq<Slot>, lo: nat, g: nat, hi: nat,
                 j: nat)
    requires Split(less, s, a, lo, g, hi) && Permuted(a, b, lo, g) && Permuted(b, c, g + 1, hi) && g <= j < hi
    ensures g < j ==> !Before(less, s, c[j], c[g])
  {
    PermutedOutside(a, b, lo, g, g);
    PermutedOutside(b, c, g + 1, hi, g);
    if g < j {
      var k := PermutedFrom(b, c, g + 1, hi, j);
      PermutedOutside(a, b, lo, g, k);
      assert !Before(less, s, a[k], a[g]);
    }
  }

  /** The page while it is sorted: `s0` with its first `n` entries, all live, rearranged. */
  ghost predicate Sorting(s0: seq<byte>, s: seq<byte>, limit: nat, n: nat) {
    && Wf(s, limit) && OnlyEntries(s0, s) && n <= Capacity(s)
    && (forall i | 0 <= i < n :: !Slots(s)[i].deleted)
    && SameBag(s0, Slots(s0), s0, Slots(s))
  }

  /** Compares the records of two slots through the current directory. */
  method Compare(p: array<byte>, less: Comparator, i: nat, j: nat, ghost s0: seq<byte>, ghost limit: nat, ghost n: nat)
    returns (b: bool)
    requires p.Length == PAGE_SIZE && Sorting(s0, p[..], limit, n) && i < n && j < n
    ensures b == Before(less, s0, Slots(p[..])[i], Slots(p[..])[j])
  {
    WfIsReadable(p[..], limit);
    var x := ReadRecord(p, i);
    var y := ReadRecord(p, j);
    BodyHoldsRecords(s0, p[..], limit, i);
    BodyHoldsRecords(s0, p[..], limit, j);
    b := less(x, y);
  }

  lemma BodyHoldsRecords(s0: seq<byte>, s: seq<byte>, limit: nat, i: nat)
    requires Wf(s, limit) && OnlyEntries(s0, s) && i < Capacity(s)
    ensures Slots(s)[i].offset + Slots(s)[i].size <= PAGE_SIZE
    ensures Extent(s, Slots(s)[i]) == Extent(s0, Slots(s)[i])
  {
    assert Within(LayoutOf(s).slots[i], FreeEnd(s), limit);
  }

  /** The partition loop so far: [lo, gt) compares before the pivot, [gt, lt) does not. */
  ghost predicate Partial(less: Comparator, s: seq<byte>, a: seq<Slot>, lo: nat, gt: nat, lt: nat, piv: nat) {
    && lo <= gt <= lt <= piv < |a|
    && (forall i {:trigger Before(less, s, a[i], a[piv])} | lo <= i < gt :: Before(less, s, a[i], a[piv]))
    && (forall i {:trigger Before(less, s, a[i], a[piv])} | gt <= i < lt :: !Before(less, s, a[i], a[piv]))
  }

  /** Swapping a smaller entry to the front of the others extends the lower part. */
  lemma PartialSwap(less: Comparator, s: seq<byte>, a: seq<Slot>, lo: nat, gt: nat, lt: nat, piv: nat)
    requires Partial(less, s, a, lo, gt, lt, piv) && lt < piv && Before(less, s, a[lt], a[piv])
    ensures Partial(less, s, Swapped(a, lt, gt), lo, gt + 1, lt + 1, piv)
  {
  }

  lemma PartialSplits(less: Comparator, s: seq<byte>, a: seq<Slot>, lo: nat, gt: nat, piv: nat)
    requires Partial(less, s, a, lo, gt, piv, piv)
    ensures Split(less, s, Swapped(a, gt, piv), lo, gt, piv + 1)
  {
  }

  lemma SwapStaysSorting(s0: seq<byte>, s: seq<byte>, r: seq<byte>, limit: nat, n: nat, i: nat, j: nat)
    requires Sorting(s0, s, limit, n) && i < n && j < n
    requires Wf(r, limit) && OnlyEntries(s, r) && Slots(r) == Swapped(Slots(s), i, j)
    ensures Sorting(s0, r, limit, n)
  {
    SwapKeepsBag(s0, Slots(s), i, j);
  }

  /** Moves the entries of [lo, hi) that compare before the last one in front of it. */
  method Partition(p: array<byte>, less: Comparator, lo: nat, hi: nat, ghost s0: seq<byte>, ghost limit: nat,
                   ghost n: nat) returns (gt: nat)
    requires p.Length == PAGE_SIZE && Sorting(s0, p[..], limit, n) && lo + 1 < hi <= n
    modifies p
    ensures Sorting(s0, p[..], limit, n) && Permuted(old(Slots(p[..])), Slots(p[..]), lo, hi)
    ensures Split(less, s0, Slots(p[..]), lo, gt, hi)
  {
    ghost var a := Slots(p[..]);
    var piv := hi - 1;
    gt := SkipBefore(p, less, lo, piv, s0, limit, n);
    var lt := gt;
    while lt < piv
      invariant Sorting(s0, p[..], limit, n) && Permuted(a, Slots(p[..]), lo, hi)
      invariant Partial(less, s0, Slots(p[..]), lo, gt, lt, piv)
    {
      lt := SkipNotBefore(p, less, lo, gt, lt, piv, s0, limit, n);
      if lt < piv {
        PartialSwap(less, s0, Slots(p[..]), lo, gt, lt, piv);
        SwapInRange(p, lt, gt, lo, hi, a, s0, limit, n);
        gt, lt := gt + 1, lt + 1;
      }
    }
    PartialSplits(less, s0, Slots(p[..]), lo, gt, piv);
    SwapInRange(p, gt, piv, lo, hi, a, s0, limit, n);
  }

  method SwapInRange(p: array<byte>, i: nat, j: nat, ghost lo: nat, ghost hi: nat, ghost a: seq<Slot>,
                     ghost s0: seq<byte>, ghost limit: nat, ghost n: nat)
    requires p.Length == PAGE_SIZE && Sorting(s0, p[..], limit, n) && Permuted(a, Slots(p[..]), lo, hi)
    requires lo <= i < hi <= n && lo <= j < hi
    modifies p
    ensures Sorting(s0, p[..], limit, n) && Permuted(a, Slots(p[..]), lo, hi)
    ensures Slots(p[..]) == Swapped(old(Slots(p[..])), i, j)
  {
    ghost var s := p[..];
    SwapPermutes(Slots(s), i, j, lo, hi);
    SwapSlots(p, i, j, limit);
    SwapStaysSorting(s0, s, p[..], limit, n, i, j);
    PermutedTrans(a, Slots(s), Slots(p[..]), lo, hi);
  }

  /** Skips the entries at the front that already compare before the pivot. */
  method SkipBefore(p: array<byte>, less: Comparator, lo: nat, piv: nat, ghost s0: seq<byte>, ghost limit: nat,
                    ghost n: nat) returns (gt: nat)
    requires p.Length == PAGE_SIZE && Sorting(s0, p[..], limit, n) && lo < piv < n
    ensures Partial(less, s0, Slots(p[..]), lo, gt, gt, piv)
  {
    gt := lo;
    var c := Compare(p, less, gt, piv, s0, limit, n);
    while c
      invariant Partial(less, s0, Slots(p[..]), lo, gt, gt, piv)
      invariant c ==> gt < piv && Before(less, s0, Slots(p[..])[gt], Slots(p[..])[piv])
      decreases piv - gt
    {
      gt := gt + 1;
      c := gt < piv;
      if c { c := Compare(p, less, gt, piv, s0, limit, n); }
    }
  }

  /** Skips entries that do not compare before the pivot. */
  method SkipNotBefore(p: array<byte>, less: Comparator, lo: nat, gt: nat, from: nat, piv: nat, ghost s0: seq<byte>,
                       ghost limit: nat, ghost n: nat) returns (lt: nat)
    requires p.Length == PAGE_SIZE && Sorting(s0, p[..], limit, n) && piv < n
    requires Partial(less, s0, Slots(p[..]), lo, gt, from, piv) && from < piv
    ensures from <= lt && Partial(less, s0, Slots(p[..]), lo, gt, lt, piv)
    ensures lt < piv ==> Before(less, s0, Slots(p[..])[lt], Slots(p[..])[piv])
  {
    lt := from;
    var c := Compare(p, less, lt, piv, s0, limit, n);
    while !c
      invariant from <= lt <= piv && Partial(less, s0, Slots(p[..]), lo, gt, lt, piv)
      invariant lt < piv ==> c == Before(less, s0, Slots(p[..])[lt], Slots(p[..])[piv])
      invariant lt == piv ==> c
      decreases piv - lt
    {
      lt := lt + 1;
      c := lt == piv;
      if !c { c := Compare(p, less, lt, piv, s0, limit, n); }
    }
  }

  /** The recursive quicksort of the entries in [lo, hi). */
  method SortRange(p: array<byte>, less: Comparator, lo: nat, hi: nat, ghost s0: seq<byte>, ghost limit: nat,
                   ghost n: nat)
    requires p.Length == PAGE_SIZE && Sorting(s0, p[..], limit, n) && lo <= hi <= n
    modifies p
    ensures Sorting(s0, p[..], limit, n) && Permuted(old(Slots(p[..])), Slots(p[..]), lo, hi)
    ensures StrictOrder(less) ==> Ordered(less, s0, Slots(p[..]), lo, hi)
    decreases hi - lo
  {
    if hi - lo <= 1 {
      return;
    }
    ghost var a0 := Slots(p[..]);
    var g := Partition(p, less, lo, hi, s0, limit, n);
    ghost var a := Slots(p[..]);
    SortRange(p, less, lo, g, s0, limit, n);
    ghost var b := Slots(p[..]);
    SortRange(p, less, g + 1, hi, s0, limit, n);
    ghost var c := Slots(p[..]);
    RangeSorted(less, s0, a0, a, b, c, lo, g, hi);
  }

  lemma RangeSorted(less: Comparator, s: seq<byte>, a0: seq<Slot>, a: seq<Slot>, b: seq<Slot>, c: seq<Slot>, lo: nat,
                    g: nat, hi: nat)
    requires Permuted(a0, a, lo, hi) && Split(less, s, a, lo, g, hi)
    requires Permuted(a, b, lo, g) && Permuted(b, c, g + 1, hi)
    ensures Permuted(a0, c, lo, hi)
    ensures StrictOrder(less) && Ordered(less, s, b, lo, g) && Ordered(less, s, c, g + 1, hi) ==>
            Ordered(less, s, c, lo, hi)
  {
    if StrictOrder(less) && Ordered(less, s, b, lo, g) && Ordered(less, s, c, g + 1, hi) {
      SortedSidesAreSorted(less, s, a, b, c, lo, g, hi);
    }
    PermutedWiden(a, b, lo, g, lo, hi);
    PermutedWiden(b, c, g + 1, hi, lo, hi);
    PermutedTrans(a0, a, b, lo, hi);
    PermutedTrans(a0, b, c, lo, hi);
  }

  // ----- the page sort

  /** `r` rearranges the page `s`: the live slots are a prefix of its directory and hold the
      same records. For a strict order no record compares before an earlier one. */
  ghost predicate IsSorted(less: Comparator, s: seq<byte>, r: seq<byte>) {
    && OnlyEntries(s, r)
    && Packed(Slots(r), Tuples(r), Capacity(r))
    && SameBag(s, Slots(s), r, Slots(r))
    && EmptiedFrom(Slots(s), Slots(r), Tuples(r))
    && (StrictOrder(less) ==> Ordered(less, r, Slots(r), 0, Tuples(r)))
  }

  /** From the compacted page `m` of `s` to its sorted rearrangement `r`. */
  lemma SortMeansSorted(less: Comparator, s: seq<byte>, m: seq<byte>, r: seq<byte>, limit: nat)
    requires Wf(s, limit) && Wf(m, limit) && OnlyEntries(s, m) && SameBag(s, Slots(s), m, Slots(m))
    requires Packed(Slots(m), Tuples(m), Capacity(m)) && Sorting(m, r, limit, Tuples(m))
    requires EmptiedFrom(Slots(s), Slots(m), Tuples(m))
    requires Permuted(Slots(m), Slots(r), 0, Tuples(m))
    requires StrictOrder(less) ==> Ordered(less, m, Slots(r), 0, Tuples(m))
    ensures IsSorted(less, s, r)
  {
    forall i | Tuples(m) <= i < Capacity(r) ensures Slots(r)[i].deleted && Slots(r)[i] == Slots(m)[i] {
      PermutedOutside(Slots(m), Slots(r), 0, Tuples(m), i);
    }
    BagInImage(LayoutOf(r), limit, m, r);
    if StrictOrder(less) {
      OrderedInImage(less, m, r, limit, Tuples(m));
    }
  }

  lemma OrderedInImage(less: Comparator, m: seq<byte>, r: seq<byte>, limit: nat, n: nat)
    requires Sorting(m, r, limit, n) && Ordered(less, m, Slots(r), 0, n)
    ensures Ordered(less, r, Slots(r), 0, n)
  {
    var b := Slots(r);
    forall i, j | 0 <= i < j < n ensures !Before(less, r, b[j], b[i]) {
      BodyHoldsRecords(m, r, limit, i);
      BodyHoldsRecords(m, r, limit, j);
      assert !Before(less, m, b[j], b[i]);
    }
  }

  /** Sorting a page: the live slots become a prefix of the directory in which no record
      compares before an earlier one; the records and their bytes stay what they were. */
  method SortPageInPlace(p: array<byte>, less: Comparator, ghost limit: nat)
    requires p.Length == PAGE_SIZE && Wf(p[..], limit)
    modifies p
    ensures Wf(p[..], limit) && IsSorted(less, old(p[..]), p[..])
  {
    ghost var s := p[..];
    ShiftSlotsLeft(p, limit);
    ghost var m := p[..];
    SortRange(p, less, 0, Tuples(p[..]), m, limit, Tuples(m));
    SortMeansSorted(less, s, m, p[..], limit);
  }
}
