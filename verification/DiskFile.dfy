/** Page allocation inside one open database file. */
module DiskFile {
  import opened LittleEndian

  /** Largest number of pages whose byte offsets are all different (`OffsetsOverlapIff`). */
  const MAX_PAGES: nat := 0x10_0000

  /** Largest number of pages that allocation can handle: page ids have 32 bits, and the loop
      that frees the upper half of a doubled file must end. */
  const MAX_CAPACITY: nat := 0x8000_0000

  /** Byte offset of a page. The product is computed with 32 bits. */
  function GetOffset(page: nat): nat { (page * 4096) % 0x1_0000_0000 }

  lemma OffsetValue(page: nat)
    ensures GetOffset(page) == (page % MAX_PAGES) * 4096
  {
    var q, r := page / MAX_PAGES, page % MAX_PAGES;
    assert page == q * MAX_PAGES + r;
    assert page * 4096 == q * 0x1_0000_0000 + r * 4096;
    assert r * 4096 < 0x1_0000_0000;
    ModOfSum(q, r * 4096);
  }

  lemma ModOfSum(q: nat, x: nat)
    requires x < 0x1_0000_0000
    ensures (q * 0x1_0000_0000 + x) % 0x1_0000_0000 == x
  {
  }

  /** The byte ranges of two pages meet exactly when the pages are congruent modulo 2^20,
      and then they coincide. */
  lemma OffsetsOverlapIff(a: nat, b: nat)
    ensures (GetOffset(a) < GetOffset(b) + 4096 && GetOffset(b) < GetOffset(a) + 4096) <==>
            a % MAX_PAGES == b % MAX_PAGES
    ensures a % MAX_PAGES == b % MAX_PAGES ==> GetOffset(a) == GetOffset(b)
  {
    OffsetValue(a);
    OffsetValue(b);
  }

  /** In a file of at most 2^20 pages every page has its own range inside the file. */
  lemma OffsetsInFile(a: nat, b: nat, capacity: nat)
    requires a < capacity <= MAX_PAGES && b < capacity
    ensures GetOffset(a) == 4096 * a && GetOffset(a) + 4096 <= capacity * 4096
    ensures a != b ==> GetOffset(a) + 4096 <= GetOffset(b) || GetOffset(b) + 4096 <= GetOffset(a)
  {
    OffsetValue(a);
    OffsetValue(b);
  }

  ghost predicate Between(lo: nat, i: nat, hi: nat) { lo <= i < hi }

  /** The page ids from `lo` up to `hi`. */
  ghost function Pages(lo: nat, hi: nat): set<nat> { set i: nat | lo <= i < hi && Between(lo, i, hi) }

  lemma {:induction false} PagesSize(lo: nat, hi: nat)
    requires lo <= hi
    ensures |Pages(lo, hi)| == hi - lo
    decreases hi - lo
  {
    if lo < hi {
      PagesSize(lo, hi - 1);
      assert Pages(lo, hi) == Pages(lo, hi - 1) + {hi - 1} by { assert Between(lo, hi - 1, hi); }
    } else {
      assert Pages(lo, hi) == {};
    }
  }

  /** The capacities of a file that starts empty and only ever doubles. */
  predicate Doubled(capacity: nat) {
    capacity <= 1 || (capacity % 2 == 0 && Doubled(capacity / 2))
  }

  lemma MaxPagesIsPower()
    ensures Pow2(20) == MAX_PAGES
  {
    assert Pow2(4) == 16;
    assert Pow2(8) == 256;
    assert Pow2(12) == 0x1000;
    assert Pow2(16) == 0x1_0000;
  }

  /** A capacity that cannot double below a power of two has reached it. */
  lemma {:induction false} DoubledUpTo(capacity: nat, n: nat)
    requires Doubled(capacity) && capacity <= Pow2(n) < 2 * capacity
    ensures capacity == Pow2(n)
  {
    if n > 0 && capacity > 1 {
      DoubledUpTo(capacity / 2, n - 1);
    }
  }

  /** A doubled capacity is allowed exactly if 32 bits can hold it. */
  lemma CapacityIsBounded(capacity: nat)
    requires Doubled(capacity)
    ensures capacity <= MAX_CAPACITY <==> capacity < 0x1_0000_0000
  {
    if 0x8000_0000 < capacity <= 0x1_0000_0000 {
      MaxPagesIsPower();
      PowersBeyond();
      DoubledUpTo(capacity, 32);
    }
  }

  lemma PowersBeyond()
    requires Pow2(20) == MAX_PAGES
    ensures Pow2(32) == 0x1_0000_0000
  {
    assert Pow2(24) == 16 * Pow2(20);
    assert Pow2(28) == 16 * Pow2(24);
    assert Pow2(32) == 16 * Pow2(28);
  }

  lemma UsedAndFree(capacity: nat, free: set<nat>)
    requires forall i | i in free :: i < capacity
    ensures |Pages(0, capacity) - free| + |free| == capacity
  {
    PagesSize(0, capacity);
    forall i | i in free ensures i in Pages(0, capacity) { assert Between(0, i, capacity); }
    assert Pages(0, capacity) - free + free == Pages(0, capacity);
    SplitSize(Pages(0, capacity) - free, free);
  }

  lemma SplitSize(a: set<nat>, b: set<nat>)
    requires a !! b
    ensures |a + b| == |a| + |b|
  {
  }

  /** A file stays within 2^20 pages as long as it has fewer than that in use. */
  lemma FullIffAllUsed(a: PageAllocator)
    requires a.Valid() && a.capacity <= MAX_PAGES
    ensures !a.CanAllocate(MAX_PAGES) <==> |a.InUse()| == MAX_PAGES
    ensures |a.InUse()| <= MAX_PAGES
  {
    UsedAndFree(a.capacity, a.freePages);
    if a.capacity * 2 > MAX_PAGES {
      MaxPagesIsPower();
      DoubledUpTo(a.capacity, 20);
    }
  }

  class PageAllocator {
    /** Pages in the file, used or free. */
    var capacity: nat
    var freePages: set<nat>

    ghost predicate Valid()
      reads this
    {
      capacity <= MAX_CAPACITY && Doubled(capacity) && forall i | i in freePages :: i < capacity
    }

    ghost function InUse(): set<nat>
      reads this
    {
      Pages(0, capacity) - freePages
    }

    /** Allocating does not grow the file beyond `limit` pages. */
    predicate CanAllocate(limit: nat)
      reads this
    {
      freePages != {} || capacity * 2 <= limit
    }

    constructor ()
      ensures Valid() && InUse() == {} && capacity == 0
    {
      capacity, freePages := 0, {};
    }

    /** Hands out a page that was not in use; the file doubles when no page is free. */
    method AllocatePage() returns (page: nat)
      requires Valid() && CanAllocate(MAX_CAPACITY)
      modifies this
      ensures Valid() && page < capacity
      ensures page !in old(InUse()) && InUse() == old(InUse()) + {page}
      ensures capacity ==
              if old(freePages) != {} then old(capacity) else if old(capacity) == 0 then 1 else old(capacity) * 2
    {
      if freePages != {} {
        page :| page in freePages;
        freePages := freePages - {page};
      } else {
        page := capacity;
        var newCapacity := if capacity == 0 then 1 else capacity * 2;
        capacity := newCapacity;
        var id := page + 1;
        while id < newCapacity
          invariant page + 1 <= id <= newCapacity && capacity == newCapacity
          invariant freePages == Pages(page + 1, id)
        {
          assert Pages(page + 1, id + 1) == Pages(page + 1, id) + {id} by { assert Between(page + 1, id, id + 1); }
          freePages := freePages + {id};
          id := id + 1;
        }
        assert forall i: nat :: Between(0, i, capacity) <==>
            Between(0, i, page) || i == page || Between(page + 1, i, capacity);
      }
    }

    method DeletePage(page: nat)
      requires Valid() && page in InUse()
      modifies this
      ensures Valid() && InUse() == old(InUse()) - {page} && freePages == old(freePages) + {page}
      ensures capacity == old(capacity)
    {
      freePages := freePages + {page};
    }
  }
}
