/** The page buffer: a fixed number of frames that cache pages of the disk, write back.

    `Contents` is what the pool stands for, the current bytes of every page on disk. Every
    operation runs under the manager's mutex, so a run is a sequence of the operations
    below. A page handle is the index of the frame it pins; `handles` are the live ones. */
module BufferPool {
  import opened Bytes
  import opened Wrappers
  import opened LruKReplacer

  datatype PageId = PageId(file: nat, page: nat)

  /** The page id of a frame that was never loaded. */
  const INVALID: PageId := PageId(0xFFFF_FFFF, 0xFFFF_FFFF)

  /** It is the greatest pair of 32-bit ids. */
  lemma InvalidIsGreatest(p: PageId)
    ensures p.file < 0x1_0000_0000 && p.page < 0x1_0000_0000 <==>
            p.file <= INVALID.file && p.page <= INVALID.page
  {
  }

  datatype Frame = Frame(fp: PageId, dirty: bool, pins: int, data: seq<byte>)

  type Disk = map<PageId, seq<byte>>

  type PageMap = map<PageId, int>

  // ----- the state of the pool, as a value

  /** `retired` are the ids of deleted files; they are not used again. */
  datatype State = State(frames: seq<Frame>, pageMap: PageMap, disk: Disk, hist: Histories, handles: multiset<int>,
      retired: set<nat>)

  /** Frame `f`: its pins are its live handles, it is evictable exactly without pins, it is
      the frame of its page or of no page, and a clean frame agrees with the disk. */
  ghost predicate FrameOk(s: State, f: int)
    requires 0 <= f < |s.frames|
  {
    var x := s.frames[f];
    && f in s.hist && x.pins == s.handles[f] && (s.hist[f].evictable <==> x.pins == 0)
    && (if x.fp in s.pageMap then s.pageMap[x.fp] == f && x.fp in s.disk && (!x.dirty ==> x.data == s.disk[x.fp])
        else !x.dirty && x.pins == 0 && (x.fp == INVALID || x.fp.file in s.retired))
  }

  /** Page `p` is cached in the frame the page map says. */
  ghost predicate EntryOk(s: State, p: PageId)
    requires p in s.pageMap
  {
    0 <= s.pageMap[p] < |s.frames| && s.frames[s.pageMap[p]].fp == p
  }

  ghost predicate PoolOk(s: State) {
    && (forall f {:trigger FrameOk(s, f)} | 0 <= f < |s.frames| :: FrameOk(s, f))
    && (forall p {:trigger EntryOk(s, p)} | p in s.pageMap :: EntryOk(s, p))
    && (forall f | f in s.hist :: 0 <= f < |s.frames|)
    && (forall f | f in s.handles :: 0 <= f < |s.frames|)
    && (forall p | p in s.disk :: p != INVALID && p.file !in s.retired)
  }

  /** The bytes of page `p`: those in its frame if it is cached, else those on disk. */
  ghost function PageBytes(s: State, p: PageId): seq<byte>
    requires p in s.disk
  {
    if p in s.pageMap && 0 <= s.pageMap[p] < |s.frames| then s.frames[s.pageMap[p]].data else s.disk[p]
  }

  ghost function Contents(s: State): Disk { map p | p in s.disk :: PageBytes(s, p) }

  /** The pinned frames keep their page, and no byte of any page changes. */
  ghost predicate Unchanged(s: State, s': State) {
    && |s'.frames| == |s.frames| && Contents(s') == Contents(s)
    && forall f | f in s.handles && 0 <= f < |s.frames| :: s'.frames[f].fp == s.frames[f].fp
  }

  /** The bytes of page `p` on disk stay, or become the page's current bytes. */
  ghost predicate WrittenAt(s: State, disk': Disk, p: PageId) {
    p in s.disk && p in disk' && (disk'[p] == s.disk[p] || disk'[p] == PageBytes(s, p))
  }

  /** Nothing but current page contents is written to the disk. */
  ghost predicate WrittenBack(s: State, disk': Disk) {
    disk'.Keys == s.disk.Keys && forall p {:trigger WrittenAt(s, disk', p)} | p in s.disk :: WrittenAt(s, disk', p)
  }

  ghost predicate AllPinned(s: State) {
    forall f | 0 <= f < |s.frames| :: s.frames[f].pins > 0
  }

  // ----- what each step keeps

  /** Writing a cached page back. */
  lemma FlushStep(s: State, p: PageId)
    requires PoolOk(s) && p in s.pageMap && EntryOk(s, p)
    ensures var s' := s.(disk := s.disk[p := s.frames[s.pageMap[p]].data]);
            PoolOk(s') && Unchanged(s, s') && s'.disk.Keys == s.disk.Keys
  {
    var s' := s.(disk := s.disk[p := s.frames[s.pageMap[p]].data]);
    assert FrameOk(s, s.pageMap[p]);
    forall f | 0 <= f < |s.frames| ensures FrameOk(s', f) { assert FrameOk(s, f); }
    forall q | q in s.pageMap ensures EntryOk(s', q) { assert EntryOk(s, q); }
    assert Contents(s') == Contents(s);
  }

  lemma FlushWritesBack(s: State, p: PageId)
    requires PoolOk(s) && p in s.pageMap && EntryOk(s, p)
    ensures WrittenBack(s, s.disk[p := s.frames[s.pageMap[p]].data])
  {
    assert FrameOk(s, s.pageMap[p]);
    forall q | q in s.disk ensures WrittenAt(s, s.disk[p := s.frames[s.pageMap[p]].data], q) { }
  }

  lemma NothingWritten(s: State)
    ensures WrittenBack(s, s.disk)
  {
    forall q | q in s.disk ensures WrittenAt(s, s.disk, q) { }
  }

  /** What is written does not depend on access times. */
  lemma WrittenWhatever(s: State, hist: Histories, disk': Disk)
    requires WrittenBack(s.(hist := hist), disk')
    ensures WrittenBack(s, disk')
  {
    forall q | q in s.disk ensures WrittenAt(s, disk', q) { assert WrittenAt(s.(hist := hist), disk', q); }
  }

  /** Loading page `p` into the unpinned frame `f`, whose old page is safe on disk. */
  ghost function Loaded(s: State, f: int, p: PageId): State
    requires 0 <= f < |s.frames| && p in s.disk
  {
    s.(frames := s.frames[f := Frame(p, false, 0, s.disk[p])], pageMap := (s.pageMap - {s.frames[f].fp})[p := f])
  }

  lemma LoadStep(s: State, f: int, p: PageId)
    requires PoolOk(s) && 0 <= f < |s.frames| && s.frames[f].pins == 0 && p in s.disk && p !in s.pageMap
    requires s.frames[f].fp in s.pageMap ==> s.frames[f].fp in s.disk && s.frames[f].data == s.disk[s.frames[f].fp]
    ensures PoolOk(Loaded(s, f, p)) && Unchanged(s, Loaded(s, f, p))
  {
    var s' := Loaded(s, f, p);
    assert FrameOk(s, f);
    forall g | 0 <= g < |s.frames| ensures FrameOk(s', g) { assert FrameOk(s, g); }
    forall q | q in s'.pageMap ensures EntryOk(s', q) { assert q != p ==> EntryOk(s, q); }
    forall q | q in s.disk ensures PageBytes(s', q) == PageBytes(s, q) {
      if q in s.pageMap { assert EntryOk(s, q); }
    }
    assert Contents(s') == Contents(s);
  }

  /** A step that only touches frame `f`, keeping its page and bytes. */
  lemma FrameStep(s: State, s': State, f: int)
    requires PoolOk(s) && 0 <= f < |s.frames| && s.frames[f].fp in s.pageMap
    requires s'.pageMap == s.pageMap && s'.disk == s.disk && |s'.frames| == |s.frames| && s'.retired == s.retired
    requires s'.hist.Keys == s.hist.Keys && (forall g | g in s'.handles :: 0 <= g < |s.frames|)
    requires forall g | 0 <= g < |s.frames| && g != f :: s'.frames[g] == s.frames[g] && s'.handles[g] == s.handles[g]
    requires forall g | g in s.hist && g != f :: s'.hist[g].evictable == s.hist[g].evictable
    requires s'.frames[f].fp == s.frames[f].fp && s'.frames[f].data == s.frames[f].data
             && (s.frames[f].dirty ==> s'.frames[f].dirty)
    requires s'.frames[f].pins == s'.handles[f] && f in s'.hist && (s'.hist[f].evictable <==> s'.frames[f].pins == 0)
    ensures PoolOk(s') && Unchanged(s, s')
  {
    assert FrameOk(s, f);
    forall g | 0 <= g < |s.frames| ensures FrameOk(s', g) { assert FrameOk(s, g); }
    forall q | q in s.pageMap ensures EntryOk(s', q) { assert EntryOk(s, q); }
    forall q | q in s.disk ensures PageBytes(s', q) == PageBytes(s, q) {
      if q in s.pageMap { assert EntryOk(s, q); }
    }
    assert Contents(s') == Contents(s);
  }

  /** A write through a dirty pinned frame changes the bytes of that page and nothing else. */
  lemma WriteStep(s: State, f: int, data: seq<byte>)
    requires PoolOk(s) && 0 <= f < |s.frames| && s.frames[f].dirty
    ensures var s' := s.(frames := s.frames[f := s.frames[f].(data := data)]);
            PoolOk(s') && s.frames[f].fp in s.disk && Contents(s') == Contents(s)[s.frames[f].fp := data]
  {
    var s' := s.(frames := s.frames[f := s.frames[f].(data := data)]);
    assert FrameOk(s, f);
    forall g | 0 <= g < |s.frames| ensures FrameOk(s', g) { assert FrameOk(s, g); }
    forall q | q in s.pageMap ensures EntryOk(s', q) { assert EntryOk(s, q); }
    forall q | q in s.disk && q != s.frames[f].fp ensures PageBytes(s', q) == PageBytes(s, q) {
      if q in s.pageMap { assert EntryOk(s, q); }
    }
    assert Contents(s') == Contents(s)[s.frames[f].fp := data];
  }

  /** A page added to a file appears with its bytes on disk. */
  lemma CreateStep(s: State, p: PageId, data: seq<byte>)
    requires PoolOk(s) && p !in s.disk && p != INVALID && p.file !in s.retired
    ensures var s' := s.(disk := s.disk[p := data]);
            PoolOk(s') && Contents(s') == Contents(s)[p := data]
  {
    var s' := s.(disk := s.disk[p := data]);
    forall g | 0 <= g < |s.frames| ensures FrameOk(s', g) { assert FrameOk(s, g); }
    forall q | q in s.pageMap ensures EntryOk(s', q) { assert EntryOk(s, q); }
    forall q | q in s'.disk ensures PageBytes(s', q) == if q == p then data else PageBytes(s, q) {
      if q in s.pageMap { assert EntryOk(s, q); assert FrameOk(s, s.pageMap[q]); }
    }
    assert Contents(s') == Contents(s)[p := data];
  }

  /** The pages of a file. */
  ghost function OfFile(disk: Disk, file: nat): set<PageId> { set p | p in disk && p.file == file }

  /** The cached pages of a file. */
  ghost function CachedOf(s: State, file: nat): set<PageId> { set p | p in s.pageMap && p.file == file }

  /** `s'` is `s` after the pages of the file have left the pool and the disk. */
  ghost predicate Dropped(s: State, file: nat, s': State) {
    && |s'.frames| == |s.frames| && s'.handles == s.handles && s'.hist.Keys == s.hist.Keys
    && s'.pageMap.Keys == (set p | p in s.pageMap && p.file != file)
        && (forall p | p in s'.pageMap :: s'.pageMap[p] == s.pageMap[p])
    && s'.disk == s.disk - OfFile(s.disk, file) && s'.retired == s.retired + {file}
    && (forall f | 0 <= f < |s.frames| :: s'.frames[f] == s.frames[f] ||
          (s.frames[f].fp in s.pageMap && s.frames[f].fp.file == file && s'.frames[f] == s.frames[f].(dirty := false)))
    && (forall f | 0 <= f < |s.frames| && s.frames[f].fp in s.pageMap
          && s.frames[f].fp.file == file :: !s'.frames[f].dirty)
    && (forall f | f in s.hist && 0 <= f < |s.frames| :: s'.hist[f].evictable == s.hist[f].evictable)
  }

  /** No page of the file is pinned. */
  ghost predicate Unpinned(s: State, file: nat) {
    forall f | 0 <= f < |s.frames| && s.frames[f].fp in s.pageMap
        && s.frames[f].fp.file == file :: s.frames[f].pins == 0
  }

  lemma DropStep(s: State, file: nat, s': State)
    requires PoolOk(s) && Unpinned(s, file) && Dropped(s, file, s')
    ensures PoolOk(s') && Contents(s') == Contents(s) - OfFile(s.disk, file)
    ensures forall f | f in s.handles && 0 <= f < |s.frames| :: s'.frames[f].fp == s.frames[f].fp
  {
    forall f | 0 <= f < |s.frames| ensures FrameOk(s', f) {
      assert FrameOk(s, f);
    }
    forall q | q in s'.pageMap ensures EntryOk(s', q) { assert EntryOk(s, q); }
    forall q | q in s'.disk ensures PageBytes(s', q) == PageBytes(s, q) {
      if q in s.pageMap { assert EntryOk(s, q); }
    }
    assert Contents(s') == Contents(s) - OfFile(s.disk, file);
  }

  class Pool {
    const replacer: Replacer
    var pageMap: PageMap
    var frames: seq<Frame>
    var disk: Disk
    ghost var handles: multiset<int>
    ghost var retired: set<nat>

    ghost function S(): State
      reads this, replacer
    {
      State(frames, pageMap, disk, replacer.frames, handles, retired)
    }

    ghost predicate Valid()
      reads this, replacer
    {
      replacer.Valid() && PoolOk(S())
    }

    constructor (n: nat, k: nat, disk: Disk)
      requires INVALID !in disk
      ensures Valid() && fresh(replacer) && |frames| == n && replacer.k == k
      ensures Contents(S()) == disk && this.disk == disk && handles == multiset{} && retired == {}
      ensures replacer.count == CountedBy(0, n)
    {
      this.disk, pageMap := disk, map[];
      handles, retired := multiset{}, {};
      frames := [];
      replacer := new Replacer(k);
      new;
      while |frames| < n
        invariant replacer.Valid() && fresh(replacer) && |frames| <= n && replacer.k == k
        invariant pageMap == map[] && this.disk == disk && handles == multiset{} && retired == {}
        invariant replacer.count == CountedBy(0, |frames|)
        invariant forall f | f in replacer.frames :: 0 <= f < |frames|
        invariant forall f | 0 <= f < |frames| :: f in replacer.frames && replacer.frames[f].evictable
        invariant forall f | 0 <= f < |frames| :: frames[f].fp == INVALID && !frames[f].dirty && frames[f].pins == 0
      {
        var id := |frames|;
        frames := frames + [Frame(INVALID, false, 0, [])];
        replacer.RegisterFrame(id);
      }
      forall f | 0 <= f < |frames| ensures FrameOk(S(), f) { }
      assert Contents(S()) == disk;
    }

    /** Writes a cached page to disk; `writes` says whether the disk accepts the write. */
    method FlushPage(p: PageId, writes: bool) returns (ok: bool)
      requires Valid()
      modifies this`disk
      ensures Valid() && Unchanged(old(S()), S()) && disk.Keys == old(disk).Keys
      ensures ok <==> p in pageMap && writes
      ensures !ok ==> disk == old(disk)
      ensures ok ==> EntryOk(S(), p) && disk == old(disk)[p := frames[pageMap[p]].data]
      ensures WrittenBack(old(S()), disk)
    {
      ok := p in pageMap && writes;
      if ok {
        assert EntryOk(S(), p);
        FlushStep(S(), p);
        FlushWritesBack(S(), p);
        disk := disk[p := frames[pageMap[p]].data];
      }
    }

    /** Brings page `p`, which the disk can read, into the pool. Fails only for a page that is
        not cached, when every frame is pinned or a write-back is refused. */
    method LoadPage(p: PageId, writes: bool) returns (ok: bool)
      requires Valid() && p in disk
      modifies this`pageMap, this`frames, this`disk, replacer
      ensures Valid() && Unchanged(old(S()), S()) && WrittenBack(old(S()), disk)
              && replacer.count == old(replacer.count)
      ensures ok <==> p in pageMap
      ensures !ok ==> frames == old(frames) && pageMap == old(pageMap) && (!writes || AllPinned(old(S())))
      ensures p !in old(pageMap) && AllPinned(old(S())) ==> !ok
    {
      NothingWritten(S());
      if p in pageMap {
        return true;
      }
      var victim := ChooseVictim();
      ok := false;
      if victim.Some? {
        ghost var s := old(S());
        ok := ReplacePage(victim.value, p, writes);
        WrittenWhatever(s, replacer.frames, disk);
      }
    }

    /** An unpinned frame, chosen by the policy; none exactly when every frame is pinned. */
    method ChooseVictim() returns (victim: Option<int>)
      requires Valid()
      modifies replacer
      ensures Valid() && Unchanged(old(S()), S()) && replacer.count == old(replacer.count)
      ensures victim.None? <==> AllPinned(S())
      ensures victim.Some? ==> 0 <= victim.value < |frames| && frames[victim.value].pins == 0
    {
      ghost var s := S();
      victim := replacer.EvictFrame();
      HistStep(s, replacer.frames);
      forall f | 0 <= f < |frames| ensures frames[f].pins >= 0
          && (f in s.hist && s.hist[f].evictable <==> frames[f].pins == 0) {
        assert FrameOk(s, f);
        NeverNegative(s.handles, f);
      }
    }

    /** Writes the page in frame `f` back if it is dirty, and loads page `p` in its place. */
    method ReplacePage(f: int, p: PageId, writes: bool) returns (ok: bool)
      requires Valid() && p in disk && p !in pageMap && 0 <= f < |frames| && frames[f].pins == 0
      modifies this`pageMap, this`frames, this`disk
      ensures Valid() && Unchanged(old(S()), S()) && WrittenBack(old(S()), disk)
      ensures ok <==> p in pageMap
      ensures !ok ==> frames == old(frames) && pageMap == old(pageMap) && !writes
    {
      assert FrameOk(S(), f);
      if frames[f].dirty {
        ok := FlushPage(frames[f].fp, writes);
        if !ok {
          return;
        }
      }
      ghost var s := S();
      assert FrameOk(s, f);
      LoadStep(s, f, p);
      pageMap := pageMap - {frames[f].fp};
      pageMap, frames := pageMap[p := f], frames[f := Frame(p, false, 0, disk[p])];
      assert S() == Loaded(s, f, p);
      ok := true;
    }

    /** Pins a cached page and returns a handle to it. */
    method PinAndReturnPage(p: PageId) returns (f: int)
      requires Valid() && p in pageMap
      modifies this`frames, this`handles, replacer
      ensures Valid() && Unchanged(old(S()), S()) && handles == old(handles) + multiset{f}
      ensures 0 <= f < |frames| && frames[f].fp == p && frames[f].dirty == old(frames)[f].dirty
      ensures replacer.count == Counted(old(replacer.count), false)
    {
      ghost var s := S();
      assert EntryOk(s, p);
      f := pageMap[p];
      assert FrameOk(s, f);
      frames := frames[f := frames[f].(pins := frames[f].pins + 1)];
      replacer.RecordAccess(f);
      replacer.SetEvictable(f, false);
      handles := handles + multiset{f};
      FrameStep(s, S(), f);
    }

    /** A handle to page `p`; what it shows is the page's current bytes. It is refused only
        for a page that is not cached, when every frame is pinned or a write-back fails. */
    method GetPage(p: PageId, writes: bool) returns (r: Option<int>)
      requires Valid() && p in disk
      modifies this`pageMap, this`frames, this`disk, this`handles, replacer
      ensures Valid() && Unchanged(old(S()), S()) && WrittenBack(old(S()), disk)
      ensures r.Some? ==>
                0 <= r.value < |frames| && frames[r.value].fp == p && handles == old(handles) + multiset{r.value}
      ensures r.Some? ==> replacer.count == Counted(old(replacer.count), false)
      ensures r.None? ==> handles == old(handles) && p !in old(pageMap) && replacer.count == old(replacer.count)
      ensures r.None? ==> !writes || AllPinned(old(S()))
      ensures p !in old(pageMap) && AllPinned(old(S())) ==> r.None?
    {
      var ok := LoadPage(p, writes);
      r := None;
      if ok {
        var f := PinAndReturnPage(p);
        r := Some(f);
      }
    }

    /** Like `GetPage`, but gives up at once when the evictable count reads zero. That count
        drifts, so giving up does not mean that no frame could be evicted. */
    method GetPageIfFrameAvailable(p: PageId, writes: bool) returns (r: Option<int>)
      requires Valid() && p in disk
      modifies this`pageMap, this`frames, this`disk, this`handles, replacer
      ensures Valid() && Unchanged(old(S()), S()) && WrittenBack(old(S()), disk)
      ensures r.Some? ==>
                0 <= r.value < |frames| && frames[r.value].fp == p && handles == old(handles) + multiset{r.value}
      ensures r.Some? ==> replacer.count == Counted(old(replacer.count), false)
      ensures r.None? ==> handles == old(handles) && p !in old(pageMap) && replacer.count == old(replacer.count)
      ensures r.None? ==> !writes || AllPinned(old(S())) || old(replacer.count) == 0
      ensures p !in old(pageMap) && (AllPinned(old(S())) || old(replacer.count) == 0) ==> r.None?
    {
      if p !in pageMap && replacer.count == 0 {
        NothingWritten(S());
        return None;
      }
      r := GetPage(p, writes);
    }

    /** Destruction of a handle. Both assertions of the code hold: the page is in the pool,
        and its pin count is positive. */
    method RemoveAccessor(f: int)
      requires Valid() && f in handles
      modifies this`frames, this`handles, replacer
      ensures Valid() && Unchanged(old(S()), S()) && handles == old(handles) - multiset{f}
      ensures replacer.count == if f in handles then old(replacer.count) else Counted(old(replacer.count), true)
    {
      ghost var s := S();
      UnpinStep(s, f);
      assert frames[f].fp in pageMap;
      var g := pageMap[frames[f].fp];
      var prev := frames[g].pins;
      frames := frames[g := frames[g].(pins := prev - 1)];
      assert prev > 0;
      if prev == 1 {
        replacer.SetEvictable(g, true);
      }
      handles := handles - multiset{f};
      assert S() == Released(s, f);
    }

    /** Reading through a handle. */
    method GetView(f: int) returns (data: seq<byte>)
      requires Valid() && f in handles
      ensures 0 <= f < |frames| && frames[f].fp in disk && data == Contents(S())[frames[f].fp]
    {
      assert FrameOk(S(), f);
      data := frames[f].data;
    }

    /** A mutable view marks the frame dirty before anything is written through it. */
    method GetMutView(f: int)
      requires Valid() && f in handles
      modifies this`frames
      ensures Valid() && Unchanged(old(S()), S()) && 0 <= f < |frames| && frames[f].dirty
    {
      ghost var s := S();
      assert FrameOk(s, f);
      frames := frames[f := frames[f].(dirty := true)];
      FrameStep(s, S(), f);
    }

    /** Writing through a mutable view: the page gets the new bytes, no other page changes. */
    method Write(f: int, data: seq<byte>)
      requires Valid() && f in handles && frames[f].dirty
      modifies this`frames
      ensures Valid() && |frames| == old(|frames|) && frames[f].fp == old(frames)[f].fp && frames[f].fp in disk
      ensures Contents(S()) == old(Contents(S()))[frames[f].fp := data]
      ensures forall g | 0 <= g < |frames| ::
                frames[g].fp == old(frames)[g].fp && frames[g].dirty == old(frames)[g].dirty
    {
      WriteStep(S(), f, data);
      frames := frames[f := frames[f].(data := data)];
    }

    /** A page that is added to a file of the disk. */
    method CreatePage(p: PageId, data: seq<byte>)
      requires Valid() && p !in disk && p != INVALID && p.file !in retired
      modifies this`disk
      ensures Valid() && Contents(S()) == old(Contents(S()))[p := data] && disk == old(disk)[p := data]
    {
      CreateStep(S(), p, data);
      disk := disk[p := data];
    }

    method FileHasPinnedPages(file: nat) returns (pinned: bool)
      requires Valid()
      ensures pinned <==> !Unpinned(S(), file)
    {
      var rest := pageMap.Keys;
      while rest != {}
        invariant rest <= pageMap.Keys
        invariant forall p | p in pageMap && p !in rest && p.file == file ::
                    EntryOk(S(), p) && frames[pageMap[p]].pins == 0
        decreases rest
      {
        var p := Pick(rest);
        assert EntryOk(S(), p);
        assert FrameOk(S(), pageMap[p]);
        NeverNegative(handles, pageMap[p]);
        if p.file == file && frames[pageMap[p]].pins > 0 {
          return true;
        }
        rest := rest - {p};
      }
      forall f | 0 <= f < |frames| && frames[f].fp in pageMap && frames[f].fp.file == file ensures frames[f].pins == 0 {
        assert FrameOk(S(), f);
      }
      return false;
    }

    /** Deletes a file unless one of its pages is pinned: its pages leave the pool without
        being written back, and every other page keeps its bytes. */
    method DeleteFile(file: nat) returns (ok: bool)
      requires Valid()
      modifies this`frames, this`pageMap, this`disk, this`retired, replacer
      ensures Valid() && (ok <==> Unpinned(old(S()), file)) && |frames| == old(|frames|)
      ensures !ok ==> S() == old(S())
      ensures ok ==> Contents(S()) == old(Contents(S())) - OfFile(old(disk), file) && retired == old(retired) + {file}
      ensures ok ==> disk == old(disk) - OfFile(old(disk), file)
      ensures ok ==> replacer.count == CountedBy(old(replacer.count), |CachedOf(old(S()), file)|)
      ensures !ok ==> replacer.count == old(replacer.count)
      ensures forall f | f in handles && 0 <= f < |frames| :: frames[f].fp == old(frames)[f].fp
    {
      var pinned := FileHasPinnedPages(file);
      if pinned {
        return false;
      }
      ghost var s := S();
      EvictFile(file, s);
      disk := map p | p in disk && p.file != file :: disk[p];
      retired := retired + {file};
      assert disk == s.disk - OfFile(s.disk, file);
      assert Dropped(s, file, S());
      DropStep(s, file, S());
      ok := true;
    }

    /** Unmaps the cached pages of a file, one by one. */
    method EvictFile(file: nat, ghost s: State)
      requires Valid() && s == S() && Unpinned(s, file)
      modifies this`frames, this`pageMap, replacer
      ensures replacer.Valid() && Evicting(s, S(), CachedOf(s, file))
      ensures replacer.count == CountedBy(old(replacer.count), |CachedOf(s, file)|)
    {
      var toEvict := set p | p in pageMap && p.file == file;
      var rest := toEvict;
      ghost var n := 0;
      while rest != {}
        invariant replacer.Valid() && rest <= toEvict && Evicting(s, S(), toEvict - rest)
        invariant n == |toEvict| - |rest| && replacer.count == CountedBy(old(replacer.count), n)
        decreases rest
      {
        var p := Pick(rest);
        EvictPage(p, s, toEvict - rest);
        assert toEvict - rest + {p} == toEvict - (rest - {p});
        rest := rest - {p};
        n := n + 1;
      }
    }

    method EvictPage(p: PageId, ghost s: State, ghost gone: set<PageId>)
      requires replacer.Valid() && PoolOk(s) && Unpinned(s, p.file)
      requires Evicting(s, S(), gone) && p in s.pageMap && p !in gone
      modifies this`frames, this`pageMap, replacer
      ensures replacer.Valid() && Evicting(s, S(), gone + {p})
      ensures replacer.count == Counted(old(replacer.count), true)
    {
      EvictOne(s, S(), gone, p);
      var f := pageMap[p];
      frames := frames[f := frames[f].(dirty := false)];
      pageMap := pageMap - {p};
      replacer.SetEvictable(f, true);
    }

    /** The destructor writes every cached page back and ignores failures; the disk does not
        accept the pages in `refused`. It ends up holding the contents of the pool exactly if
        each refused page that is cached already had its bytes there. */
    method FlushAll(refused: set<PageId>)
      requires Valid()
      modifies this`disk
      ensures Valid() && Contents(S()) == old(Contents(S())) && disk == Flushed(old(S()), refused)
      ensures disk == old(Contents(S())) <==> NothingLost(old(S()), refused)
    {
      ghost var s := S();
      var rest := pageMap.Keys;
      assert disk == Flushed(s, refused + rest);
      while rest != {}
        invariant Valid() && rest <= pageMap.Keys && Contents(S()) == Contents(s)
        invariant disk == Flushed(s, refused + rest) && pageMap == s.pageMap && frames == s.frames
        decreases rest
      {
        var p := Pick(rest);
        assert EntryOk(s, p);
        var _ := FlushPage(p, p !in refused);
        FlushedNext(s, refused, rest, p);
        rest := rest - {p};
      }
      assert refused + {} == refused;
      FlushedIff(s, refused);
    }
  }

  /** The disk after the cached pages outside `kept` have been written back. */
  ghost function Flushed(s: State, kept: set<PageId>): Disk {
    map p | p in s.disk :: if p in kept then s.disk[p] else PageBytes(s, p)
  }

  /** Every refused page that is cached has its current bytes on disk. */
  ghost predicate NothingLost(s: State, refused: set<PageId>) {
    forall p | p in refused && p in s.pageMap && p in s.disk :: s.disk[p] == PageBytes(s, p)
  }

  lemma FlushedNext(s: State, refused: set<PageId>, rest: set<PageId>, p: PageId)
    requires PoolOk(s) && p in s.pageMap && EntryOk(s, p) && p in rest
    ensures p in s.disk && PageBytes(s, p) == s.frames[s.pageMap[p]].data
    ensures Flushed(s, refused + (rest - {p})) ==
            if p in refused then Flushed(s, refused + rest) else Flushed(s, refused + rest)[p := PageBytes(s, p)]
  {
    assert FrameOk(s, s.pageMap[p]);
  }

  lemma FlushedIff(s: State, refused: set<PageId>)
    ensures Flushed(s, refused) == Contents(s) <==> NothingLost(s, refused)
  {
    if Flushed(s, refused) == Contents(s) {
      forall p | p in refused && p in s.pageMap && p in s.disk ensures s.disk[p] == PageBytes(s, p) {
        assert Flushed(s, refused)[p] == Contents(s)[p];
      }
    }
  }

  /** One handle to frame `f` less; the last one makes the frame evictable. */
  ghost function Released(s: State, f: int): State
    requires 0 <= f < |s.frames| && f in s.hist
  {
    s.(frames := s.frames[f := s.frames[f].(pins := s.frames[f].pins - 1)],
       hist := if s.frames[f].pins == 1 then s.hist[f := s.hist[f].(evictable := true)] else s.hist,
       handles := s.handles - multiset{f})
  }

  lemma UnpinStep(s: State, f: int)
    requires PoolOk(s) && f in s.handles
    ensures 0 <= f < |s.frames| && s.frames[f].fp in s.pageMap && s.pageMap[s.frames[f].fp] == f && s.frames[f].pins > 0
    ensures f in s.hist && PoolOk(Released(s, f)) && Unchanged(s, Released(s, f))
    ensures f in Released(s, f).handles <==> s.frames[f].pins > 1
  {
    assert FrameOk(s, f);
    FrameStep(s, Released(s, f), f);
  }

  /** `t` is `s` after the cached pages in `gone` have been unmapped. */
  ghost predicate Evicting(s: State, t: State, gone: set<PageId>) {
    && |t.frames| == |s.frames| && t.pageMap == s.pageMap - gone && t.disk == s.disk && t.handles == s.handles
        && t.retired == s.retired
    && (forall f | 0 <= f < |s.frames| :: t.frames[f] == if s.frames[f].fp in gone then s.frames[f].(dirty := false)
          else s.frames[f])
    && t.hist.Keys == s.hist.Keys && (forall f | f in s.hist :: t.hist[f].evictable == s.hist[f].evictable)
  }

  lemma EvictOne(s: State, t: State, gone: set<PageId>, p: PageId)
    requires PoolOk(s) && Unpinned(s, p.file) && Evicting(s, t, gone) && p in s.pageMap && p !in gone
    ensures 0 <= t.pageMap[p] < |t.frames| && t.pageMap[p] in t.hist
    ensures var f := t.pageMap[p];
            Evicting(s, t.(frames := t.frames[f := t.frames[f].(dirty := false)], pageMap := t.pageMap - {p},
                           hist := t.hist[f := t.hist[f].(evictable := true)]), gone + {p})
  {
    assert EntryOk(s, p);
    var f := s.pageMap[p];
    assert FrameOk(s, f);
    forall g | 0 <= g < |s.frames| && s.frames[g].fp == p ensures g == f { assert FrameOk(s, g); }
  }

  lemma NeverNegative(m: multiset<int>, f: int)
    ensures m[f] >= 0
  {
  }

  /** Clearing access times changes nothing that matters for safety. */
  lemma HistStep(s: State, hist': Histories)
    requires PoolOk(s) && hist'.Keys == s.hist.Keys
             && forall f | f in s.hist :: hist'[f].evictable == s.hist[f].evictable
    ensures PoolOk(s.(hist := hist')) && Unchanged(s, s.(hist := hist'))
  {
    var s' := s.(hist := hist');
    forall f | 0 <= f < |s.frames| ensures FrameOk(s', f) { assert FrameOk(s, f); }
    forall p | p in s.pageMap ensures EntryOk(s', p) { assert EntryOk(s, p); }
    assert forall q | q in s.disk :: PageBytes(s', q) == PageBytes(s, q);
    assert Contents(s') == Contents(s);
  }

  // ----- failed reads

  /** What is left of a load whose read fails, after the victim's page was written back: the
      page is unmapped, but the frame still carries its id. */
  ghost function FailedLoad(s: State, f: int): State
    requires 0 <= f < |s.frames|
  {
    s.(pageMap := s.pageMap - {s.frames[f].fp})
  }

  /** A failed read keeps the invariant exactly when the victim held no page. */
  lemma FailedReadKeepsPoolIff(s: State, f: int)
    requires PoolOk(s) && 0 <= f < |s.frames| && s.frames[f].pins == 0
    ensures PoolOk(FailedLoad(s, f)) <==> s.frames[f].fp !in s.pageMap
  {
    assert FrameOk(s, f);
    if s.frames[f].fp !in s.pageMap {
      assert s.pageMap - {s.frames[f].fp} == s.pageMap;
      assert FailedLoad(s, f) == s;
    } else {
      assert !FrameOk(FailedLoad(s, f), f);
    }
  }

  /** Why it matters: page `a` sat in frame 0 when a read into that frame failed; `a` was then
      loaded into frame 1 and pinned there. The next load into frame 0 unmaps `a`, although
      its handle is still live. */
  lemma FailedReadUnmapsPinnedPage(s: State, a: PageId, b: PageId)
    requires PoolOk(s) && |s.frames| == 2 && a != b && a in s.disk && b in s.disk && b !in s.pageMap
    requires s.frames[0].fp == a && a in s.pageMap && s.frames[0].pins == 0 && s.frames[1].pins == 0
             && s.frames[1].fp !in s.pageMap
    ensures var t := Loaded(FailedLoad(s, 0), 1, a);
            var u := t.(frames := t.frames[1 := t.frames[1].(pins := 1)], handles := t.handles + multiset{1});
            1 in u.handles && u.frames[1].fp == a && a in u.pageMap && a !in Loaded(u, 0, b).pageMap
  {
  }
}
