/** Heap pages: slotted pages whose last eight bytes hold the links of a page list. */
module HeapPage {
  import opened Bytes
  import PF = PageFormat

  /** Marks the end of a page list. */
  const NULL_PAGE: nat := 0xFFFF_FFFF

  /** Records of a heap page end here; the links follow. */
  const LIMIT: nat := 4088

  function NextOf(s: seq<byte>): nat requires |s| == PAGE_SIZE { GetU32(s, PAGE_SIZE - 4) }

  function PrevOf(s: seq<byte>): nat requires |s| == PAGE_SIZE { GetU32(s, PAGE_SIZE - 8) }

  ghost predicate Wf(s: seq<byte>) { PF.Wf(s, LIMIT) }

  /** A link is null exactly if all of its bits are set; the two links fill the bytes behind
      the records. */
  lemma NullIffAllOnes(s: seq<byte>)
    requires |s| == PAGE_SIZE
    ensures NextOf(s) == NULL_PAGE <==> forall i | 4092 <= i < 4096 :: s[i] == 255
    ensures PrevOf(s) == NULL_PAGE <==> forall i | 4088 <= i < 4092 :: s[i] == 255
    ensures LIMIT == 4088
  {
  }

  /** Bytes from the record limit on play no part in the slotted page. */
  lemma LinksAreOutside(s: seq<byte>, r: seq<byte>)
    requires Wf(s) && |r| == PAGE_SIZE && forall i | 0 <= i < LIMIT :: r[i] == s[i]
    ensures Wf(r) && PF.LayoutOf(r) == PF.LayoutOf(s)
    ensures PF.Readable(s) && PF.Readable(r) && PF.Records(r) == PF.Records(s)
  {
    PF.DirectoryKept(s, r);
    PF.WfIsReadable(s, LIMIT);
    var slots := PF.Slots(s);
    forall i | 0 <= i < |slots| ensures PF.Extent(r, slots[i]) == PF.Extent(s, slots[i]) {
      assert PF.Within(PF.LayoutOf(s).slots[i], PF.FreeEnd(s), LIMIT);
    }
    assert PF.Slots(r) == slots;
  }

  /** The links of a page are the same when its last bytes are. */
  lemma LinksKept(s: seq<byte>, r: seq<byte>)
    requires |s| == |r| == PAGE_SIZE && forall i | LIMIT <= i < PAGE_SIZE :: r[i] == s[i]
    ensures NextOf(r) == NextOf(s) && PrevOf(r) == PrevOf(s)
  {
  }

  method SetNextPage(p: array<byte>, id: nat)
    requires p.Length == PAGE_SIZE && Wf(p[..]) && id < 0x1_0000_0000
    modifies p
    ensures Wf(p[..]) && PF.LayoutOf(p[..]) == old(PF.LayoutOf(p[..]))
    ensures PF.Readable(p[..]) && old(PF.Readable(p[..])) && PF.Records(p[..]) == old(PF.Records(p[..]))
    ensures NextOf(p[..]) == id && PrevOf(p[..]) == old(PrevOf(p[..]))
  {
    ghost var s := p[..];
    WriteU32(p, PAGE_SIZE - 4, id);
    LinksAreOutside(s, p[..]);
  }

  method SetPrevPage(p: array<byte>, id: nat)
    requires p.Length == PAGE_SIZE && Wf(p[..]) && id < 0x1_0000_0000
    modifies p
    ensures Wf(p[..]) && PF.LayoutOf(p[..]) == old(PF.LayoutOf(p[..]))
    ensures PF.Readable(p[..]) && old(PF.Readable(p[..])) && PF.Records(p[..]) == old(PF.Records(p[..]))
    ensures PrevOf(p[..]) == id && NextOf(p[..]) == old(NextOf(p[..]))
  {
    ghost var s := p[..];
    WriteU32(p, PAGE_SIZE - 8, id);
    LinksAreOutside(s, p[..]);
  }

  /** A fresh heap page is empty, unlinked, and has every byte up to the links free. */
  method InitPage(p: array<byte>)
    requires p.Length == PAGE_SIZE
    modifies p
    ensures Wf(p[..]) && PF.LayoutOf(p[..]) == PF.Layout(0, LIMIT, [])
    ensures PF.Readable(p[..]) && PF.Records(p[..]) == map[]
    ensures NextOf(p[..]) == PrevOf(p[..]) == NULL_PAGE
  {
    PF.InitPage(p, 0);
    PF.SetEndFreeSpace(p, PF.FreeEnd(p[..]) - 8);
    SetNextPage(p, NULL_PAGE);
    SetPrevPage(p, NULL_PAGE);
    assert PF.Slots(p[..]) == [];
  }
}
