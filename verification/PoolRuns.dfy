/** Whole runs of the buffer pool: every run is a run of the simplest store, a map from page
    ids to bytes with a list of open pages.

    The store also has the pool's number of frames and its drifting counter, because these
    decide which requests are refused. */
module PoolRuns {
  import opened Bytes
  import opened Wrappers
  import opened LruKReplacer
  import opened BufferPool

  /** Clients name their handles by position. `writes` says whether the disk accepts a
      write-back that the operation may need. */
  datatype Op =
    | Get(p: PageId, writes: bool)
    | TryGet(p: PageId, writes: bool)
    | Close(i: nat)
    | Read(i: nat)
    | Edit(i: nat, data: seq<byte>)
    | Create(p: PageId, data: seq<byte>)
    | Remove(file: nat)

  /** What the client sees. */
  datatype Obs = Done | Refused | Bytes(data: seq<byte>)

  datatype Spec = Spec(contents: Disk, open: seq<PageId>, retired: set<nat>, frames: nat, count: nat)

  function Without<T>(s: seq<T>, i: nat): seq<T>
    requires i < |s|
  {
    s[..i] + s[i + 1..]
  }

  ghost predicate FileOpen(a: Spec, file: nat) {
    exists i :: 0 <= i < |a.open| && a.open[i].file == file
  }

  /** The pages with at least one open handle. */
  ghost function OpenPages(a: Spec): set<PageId> { set p | p in a.open }

  /** As many pages are open as there are frames. */
  ghost predicate NoFrameLeft(a: Spec) { |OpenPages(a)| == a.frames }

  /** A page that is open already can always be opened again. Another page cannot be opened
      when no frame is left. Beyond that, a request is refused only if the page does not
      exist or a write-back fails or, if the client does not wait, the counter is zero. */
  ghost predicate OpenStep(a: Spec, p: PageId, writes: bool, waits: bool, o: Obs, b: Spec) {
    || (o == Done && p in a.contents && (p in a.open || !NoFrameLeft(a))
        && b == a.(open := a.open + [p], count := Counted(a.count, false)))
    || (o == Refused && p !in a.open && b == a
        && (p !in a.contents || !writes || NoFrameLeft(a) || (!waits && a.count == 0)))
  }

  ghost predicate SpecStep(a: Spec, op: Op, o: Obs, b: Spec) {
    match op
    case Get(p, writes) => OpenStep(a, p, writes, true, o, b)
    case TryGet(p, writes) => OpenStep(a, p, writes, false, o, b)
    case Close(i) => if i < |a.open| then o == Done && b == Closed(a, i) else o == Refused && b == a
    case Read(i) =>
      b == a && if i < |a.open| then a.open[i] in a.contents && o == Bytes(a.contents[a.open[i]]) else o == Refused
    case Edit(i, data) =>
      if i < |a.open| then o == Done && b == a.(contents := a.contents[a.open[i] := data]) else o == Refused && b == a
    case Create(p, data) =>
      if p !in a.contents && p != INVALID && p.file !in a.retired
      then o == Done && b == a.(contents := a.contents[p := data])
      else o == Refused && b == a
    case Remove(file) =>
      if FileOpen(a, file) then o == Refused && b == a else o == Done && RemoveStep(a, file, b)
  }

  /** One handle less; the last one of a page makes its frame evictable. */
  function Closed(a: Spec, i: nat): Spec
    requires i < |a.open|
  {
    var open := Without(a.open, i);
    a.(open := open, count := if a.open[i] in open then a.count else Counted(a.count, true))
  }

  /** The pages of the file are gone. The counter moves once for each page that was cached. */
  ghost predicate RemoveStep(a: Spec, file: nat, b: Spec) {
    exists n: nat {:trigger CountedBy(a.count, n)} ::
      && n <= a.frames && n <= |OfFile(a.contents, file)|
      && b == a.(contents := a.contents - OfFile(a.contents, file), retired := a.retired + {file},
          count := CountedBy(a.count, n))
  }

  /** The pool, with its clients' handles `hs`, is in the state `a` describes. */
  ghost predicate Represents(s: State, hs: seq<int>, a: Spec) {
    && Contents(s) == a.contents && s.retired == a.retired && |s.frames| == a.frames
    && multiset(hs) == s.handles && |hs| == |a.open|
    && forall i | 0 <= i < |hs| :: 0 <= hs[i] < |s.frames| && s.frames[hs[i]].fp == a.open[i]
  }

  lemma HandleLive(s: State, hs: seq<int>, a: Spec, i: nat)
    requires PoolOk(s) && Represents(s, hs, a) && i < |hs|
    ensures hs[i] in s.handles && a.open[i] in s.pageMap && a.open[i] in s.disk && s.frames[hs[i]].pins > 0
  {
    assert hs[i] in multiset(hs);
    assert FrameOk(s, hs[i]);
  }

  // ----- open pages and pinned frames

  /** The pages in the pinned frames among the first `m`. */
  ghost function PinnedPages(s: State, m: nat): set<PageId>
    requires m <= |s.frames|
  {
    if m == 0 then {} else PinnedPages(s, m - 1) + if s.frames[m - 1].pins > 0 then {s.frames[m - 1].fp} else {}
  }

  ghost predicate PinnedAt(s: State, f: int, p: PageId) {
    0 <= f < |s.frames| && s.frames[f].pins > 0 && s.frames[f].fp == p
  }

  lemma {:induction false} PinnedFrom(s: State, m: nat, p: PageId) returns (f: int)
    requires m <= |s.frames| && p in PinnedPages(s, m)
    ensures f < m && PinnedAt(s, f, p)
  {
    if p in PinnedPages(s, m - 1) {
      f := PinnedFrom(s, m - 1, p);
    } else {
      f := m - 1;
    }
  }

  lemma {:induction false} PinnedIn(s: State, m: nat, f: int)
    requires m <= |s.frames| && 0 <= f < m && s.frames[f].pins > 0
    ensures s.frames[f].fp in PinnedPages(s, m)
  {
    if f < m - 1 {
      PinnedIn(s, m - 1, f);
    }
  }

  /** Different pinned frames hold different pages. */
  lemma PinnedDiffer(s: State, f: int, g: int)
    requires PoolOk(s) && 0 <= f < |s.frames| && 0 <= g < |s.frames| && f != g
    requires s.frames[f].pins > 0 && s.frames[g].pins > 0
    ensures s.frames[f].fp != s.frames[g].fp
  {
    assert FrameOk(s, f) && FrameOk(s, g);
  }

  /** There are as many pages in pinned frames as pinned frames. */
  lemma {:induction false} PinnedSize(s: State, m: nat)
    requires PoolOk(s) && m <= |s.frames|
    ensures |PinnedPages(s, m)| <= m
    ensures |PinnedPages(s, m)| == m <==> forall f | 0 <= f < m :: s.frames[f].pins > 0
  {
    if m > 0 {
      PinnedSize(s, m - 1);
      var x := s.frames[m - 1];
      if x.pins > 0 && x.fp in PinnedPages(s, m - 1) {
        var f := PinnedFrom(s, m - 1, x.fp);
        PinnedDiffer(s, f, m - 1);
      }
    }
  }

  lemma OpenArePinned(s: State, hs: seq<int>, a: Spec)
    requires PoolOk(s) && Represents(s, hs, a)
    ensures OpenPages(a) == PinnedPages(s, |s.frames|)
  {
    forall p | p in a.open ensures p in PinnedPages(s, |s.frames|) {
      var i :| 0 <= i < |a.open| && a.open[i] == p;
      HandleLive(s, hs, a, i);
      PinnedIn(s, |s.frames|, hs[i]);
    }
    forall p | p in PinnedPages(s, |s.frames|) ensures p in a.open {
      var f := PinnedFrom(s, |s.frames|, p);
      assert FrameOk(s, f);
      var i := HandleOf(hs, f);
    }
  }

  lemma HandleOf(hs: seq<int>, f: int) returns (i: nat)
    requires f in multiset(hs)
    ensures i < |hs| && hs[i] == f
  {
    i :| 0 <= i < |hs| && hs[i] == f;
  }

  /** No frame is left exactly when every frame is pinned. */
  lemma NoFrameLeftIff(s: State, hs: seq<int>, a: Spec)
    requires PoolOk(s) && Represents(s, hs, a)
    ensures NoFrameLeft(a) <==> AllPinned(s)
  {
    OpenArePinned(s, hs, a);
    PinnedSize(s, |s.frames|);
  }

  /** A cached page that is not open sits in an unpinned frame. */
  lemma CachedButClosed(s: State, hs: seq<int>, a: Spec, p: PageId)
    requires PoolOk(s) && Represents(s, hs, a) && p in s.pageMap && p !in a.open
    ensures !AllPinned(s)
  {
    assert EntryOk(s, p);
    var f := s.pageMap[p];
    if s.frames[f].pins > 0 {
      PinnedIn(s, |s.frames|, f);
      OpenArePinned(s, hs, a);
    }
  }

  /** No more pages are cached than there are frames, and only pages that exist. */
  lemma FewCached(s: State, file: nat)
    requires PoolOk(s)
    ensures |CachedOf(s, file)| <= |s.frames| && |CachedOf(s, file)| <= |OfFile(s.disk, file)|
  {
    var ps := FramePages(s.frames, |s.frames|);
    forall p | p in CachedOf(s, file) ensures p in ps && p in s.disk {
      assert EntryOk(s, p);
      assert FrameOk(s, s.pageMap[p]);
    }
    SubsetSize(CachedOf(s, file), ps);
    SubsetSize(CachedOf(s, file), OfFile(s.disk, file));
  }

  ghost function FramePages(frames: seq<Frame>, m: nat): (ps: set<PageId>)
    requires m <= |frames|
    ensures |ps| <= m && forall f | 0 <= f < m :: frames[f].fp in ps
  {
    if m == 0 then {} else FramePages(frames, m - 1) + {frames[m - 1].fp}
  }

  // ----- steps keep the representation

  /** Steps that change no bytes and no pinned page keep the representation. */
  lemma StillRepresents(s: State, s': State, hs: seq<int>, a: Spec)
    requires PoolOk(s) && Represents(s, hs, a) && Unchanged(s, s') && s'.handles == s.handles && s'.retired == s.retired
    ensures Represents(s', hs, a)
  {
  }

  lemma OpenRepresents(s: State, s': State, hs: seq<int>, a: Spec, f: int, p: PageId)
    requires PoolOk(s) && Represents(s, hs, a) && Unchanged(s, s') && s'.retired == s.retired
    requires s'.handles == s.handles + multiset{f} && 0 <= f < |s'.frames| && s'.frames[f].fp == p
    ensures Represents(s', hs + [f], a.(open := a.open + [p], count := Counted(a.count, false)))
  {
  }

  lemma CloseRepresents(s: State, s': State, hs: seq<int>, a: Spec, i: nat)
    requires PoolOk(s) && Represents(s, hs, a) && i < |hs| && Unchanged(s, s') && s'.retired == s.retired
    requires s'.handles == s.handles - multiset{hs[i]}
    ensures Represents(s', Without(hs, i), Closed(a, i))
  {
    WithoutMultiset(hs, i);
    forall j | 0 <= j < |hs| - 1
      ensures 0 <= Without(hs, i)[j] < |s'.frames| && s'.frames[Without(hs, i)[j]].fp == Without(a.open, i)[j]
    {
      WithoutAt(hs, i, j);
      WithoutAt(a.open, i, j);
      HandleKept(s, s', hs, a, if j < i then j else j + 1);
    }
  }

  /** The page stays open exactly if its frame has another handle. */
  lemma LastHandle(s: State, hs: seq<int>, a: Spec, i: nat)
    requires PoolOk(s) && Represents(s, hs, a) && i < |hs|
    ensures a.open[i] in Without(a.open, i) <==> hs[i] in s.handles - multiset{hs[i]}
  {
    WithoutMultiset(hs, i);
    if a.open[i] in Without(a.open, i) {
      var j :| 0 <= j < |hs| - 1 && Without(a.open, i)[j] == a.open[i];
      WithoutAt(hs, i, j);
      WithoutAt(a.open, i, j);
      SamePageSameFrame(s, hs, a, i, if j < i then j else j + 1);
      assert Without(hs, i)[j] in multiset(Without(hs, i));
    }
    if hs[i] in s.handles - multiset{hs[i]} {
      var j := HandleOf(Without(hs, i), hs[i]);
      WithoutAt(hs, i, j);
      WithoutAt(a.open, i, j);
      assert Without(a.open, i)[j] == a.open[i];
    }
  }

  lemma SamePageSameFrame(s: State, hs: seq<int>, a: Spec, i: nat, j: nat)
    requires PoolOk(s) && Represents(s, hs, a) && i < |hs| && j < |hs| && a.open[i] == a.open[j]
    ensures hs[i] == hs[j]
  {
    HandleLive(s, hs, a, i);
    assert FrameOk(s, hs[i]) && FrameOk(s, hs[j]);
  }

  lemma HandleKept(s: State, s': State, hs: seq<int>, a: Spec, i: nat)
    requires PoolOk(s) && Represents(s, hs, a) && Unchanged(s, s') && i < |hs|
    ensures 0 <= hs[i] < |s'.frames| && s'.frames[hs[i]].fp == a.open[i]
  {
    HandleLive(s, hs, a, i);
  }

  lemma WithoutAt<T>(s: seq<T>, i: nat, j: nat)
    requires i < |s| && j < |s| - 1
    ensures Without(s, i)[j] == s[if j < i then j else j + 1]
  {
  }

  lemma WithoutMultiset(hs: seq<int>, i: nat)
    requires i < |hs|
    ensures multiset(Without(hs, i)) == multiset(hs) - multiset{hs[i]}
  {
    assert hs == hs[..i] + [hs[i]] + hs[i + 1..];
  }

  lemma OpenPagesPinFiles(s: State, hs: seq<int>, a: Spec, file: nat)
    requires PoolOk(s) && Represents(s, hs, a)
    ensures Unpinned(s, file) <==> !FileOpen(a, file)
  {
    forall i | 0 <= i < |hs| ensures a.open[i] in s.pageMap && s.frames[hs[i]].pins > 0 { HandleLive(s, hs, a, i); }
    forall f | 0 <= f < |s.frames| && s.frames[f].fp in s.pageMap && s.frames[f].pins != 0 ensures f in hs {
      assert FrameOk(s, f);
      assert f in multiset(hs);
    }
  }

  // ----- what reaches the disk

  /** The bytes `v` on disk are those it had before, or bytes of page `p` in one of the two states. */
  ghost predicate FromAt(disk: Disk, a: Spec, b: Spec, p: PageId, v: seq<byte>) {
    || (p in disk && v == disk[p])
    || (p in a.contents && v == a.contents[p])
    || (p in b.contents && v == b.contents[p])
  }

  ghost predicate DiskFrom(disk: Disk, a: Spec, b: Spec, disk': Disk) {
    forall p {:trigger FromAt(disk, a, b, p, disk'[p])} | p in disk' :: FromAt(disk, a, b, p, disk'[p])
  }

  lemma WrittenFrom(s: State, hs: seq<int>, a: Spec, b: Spec, disk': Disk)
    requires Represents(s, hs, a) && WrittenBack(s, disk')
    ensures DiskFrom(s.disk, a, b, disk')
  {
    forall p | p in disk' ensures FromAt(s.disk, a, b, p, disk'[p]) {
      assert WrittenAt(s, disk', p);
      assert a.contents[p] == PageBytes(s, p);
    }
  }

  // ----- the operations

  method Open(pool: Pool, hs: seq<int>, p: PageId, writes: bool, waits: bool, ghost a: Spec)
    returns (hs': seq<int>, o: Obs, ghost b: Spec)
    requires pool.Valid() && Represents(pool.S(), hs, a) && pool.replacer.count == a.count
    modifies pool, pool.replacer
    ensures pool.Valid() && Represents(pool.S(), hs', b) && pool.replacer.count == b.count
    ensures OpenStep(a, p, writes, waits, o, b) && DiskFrom(old(pool.disk), a, b, pool.disk)
  {
    hs', o, b := hs, Refused, a;
    ghost var s := pool.S();
    NoFrameLeftIff(s, hs, a);
    NothingWritten(s);
    if p in pool.disk {
      MayOpen(s, hs, a, p);
      var r;
      if waits {
        r := pool.GetPage(p, writes);
      } else {
        r := pool.GetPageIfFrameAvailable(p, writes);
      }
      if r.Some? {
        OpenRepresents(s, pool.S(), hs, a, r.value, p);
        hs', o, b := hs + [r.value], Done, a.(open := a.open + [p], count := Counted(a.count, false));
      } else {
        StillRepresents(s, pool.S(), hs, a);
      }
    } else {
      OpenExists(s, hs, a, p);
    }
    WrittenFrom(s, hs, a, b, pool.disk);
  }

  /** A page that is open is cached; one that is only cached leaves a frame free. */
  lemma MayOpen(s: State, hs: seq<int>, a: Spec, p: PageId)
    requires PoolOk(s) && Represents(s, hs, a)
    ensures p in a.open ==> p in s.pageMap
    ensures p in s.pageMap && p !in a.open ==> !AllPinned(s)
  {
    if p in a.open {
      var i :| 0 <= i < |a.open| && a.open[i] == p;
      HandleLive(s, hs, a, i);
    } else if p in s.pageMap {
      CachedButClosed(s, hs, a, p);
    }
  }

  lemma OpenExists(s: State, hs: seq<int>, a: Spec, p: PageId)
    requires PoolOk(s) && Represents(s, hs, a) && p !in s.disk
    ensures p !in a.open && p !in a.contents
  {
    if p in a.open {
      var i :| 0 <= i < |a.open| && a.open[i] == p;
      HandleLive(s, hs, a, i);
    }
  }

  method CloseAt(pool: Pool, hs: seq<int>, i: nat, ghost a: Spec) returns (hs': seq<int>)
    requires pool.Valid() && Represents(pool.S(), hs, a) && i < |hs| && pool.replacer.count == a.count
    modifies pool`frames, pool`handles, pool.replacer
    ensures pool.Valid() && Represents(pool.S(), hs', Closed(a, i)) && pool.replacer.count == Closed(a, i).count
  {
    ghost var s := pool.S();
    HandleLive(s, hs, a, i);
    LastHandle(s, hs, a, i);
    pool.RemoveAccessor(hs[i]);
    CloseRepresents(s, pool.S(), hs, a, i);
    hs' := Without(hs, i);
  }

  method EditAt(pool: Pool, hs: seq<int>, i: nat, data: seq<byte>, ghost a: Spec)
    requires pool.Valid() && Represents(pool.S(), hs, a) && i < |hs|
    modifies pool`frames
    ensures pool.Valid() && Represents(pool.S(), hs, a.(contents := a.contents[a.open[i] := data]))
  {
    ghost var s := pool.S();
    HandleLive(s, hs, a, i);
    pool.GetMutView(hs[i]);
    StillRepresents(s, pool.S(), hs, a);
    pool.Write(hs[i], data);
  }

  method RemoveFile(pool: Pool, hs: seq<int>, file: nat, ghost a: Spec) returns (ok: bool, ghost b: Spec)
    requires pool.Valid() && Represents(pool.S(), hs, a) && pool.replacer.count == a.count
    modifies pool, pool.replacer
    ensures pool.Valid() && (ok <==> !FileOpen(a, file)) && (if ok then RemoveStep(a, file, b) else b == a)
    ensures Represents(pool.S(), hs, b) && pool.replacer.count == b.count
    ensures DiskFrom(old(pool.disk), a, b, pool.disk)
  {
    ghost var s := pool.S();
    OpenPagesPinFiles(s, hs, a, file);
    FewCached(s, file);
    ghost var n := |CachedOf(s, file)|;
    forall i | 0 <= i < |hs| ensures hs[i] in s.handles { HandleLive(s, hs, a, i); }
    assert OfFile(s.disk, file) == OfFile(a.contents, file);
    ok := pool.DeleteFile(file);
    b := if !ok then a else a.(contents := a.contents - OfFile(a.contents, file), retired := a.retired + {file},
                              count := CountedBy(a.count, n));
    forall p | p in pool.disk ensures FromAt(s.disk, a, b, p, pool.disk[p]) { }
  }

  method CreateAt(pool: Pool, hs: seq<int>, p: PageId, data: seq<byte>, ghost a: Spec)
    requires pool.Valid() && Represents(pool.S(), hs, a) && p !in pool.disk && p != INVALID && p.file !in a.retired
    modifies pool`disk
    ensures pool.Valid() && Represents(pool.S(), hs, a.(contents := a.contents[p := data]))
    ensures DiskFrom(old(pool.disk), a, a.(contents := a.contents[p := data]), pool.disk)
  {
    ghost var disk, b := pool.disk, a.(contents := a.contents[p := data]);
    pool.CreatePage(p, data);
    forall q | q in pool.disk ensures FromAt(disk, a, b, q, pool.disk[q]) { }
  }

  /** One operation on the pool is one step of the simple store. `gone` are the ids of the
      files removed so far. */
  method Apply(pool: Pool, hs: seq<int>, gone: set<nat>, op: Op, ghost a: Spec)
    returns (hs': seq<int>, gone': set<nat>, o: Obs, ghost b: Spec)
    requires pool.Valid() && Represents(pool.S(), hs, a) && gone == a.retired && pool.replacer.count == a.count
    modifies pool, pool.replacer
    ensures pool.Valid() && Represents(pool.S(), hs', b) && gone' == b.retired && pool.replacer.count == b.count
    ensures SpecStep(a, op, o, b) && DiskFrom(old(pool.disk), a, b, pool.disk)
  {
    hs', gone', o, b := hs, gone, Refused, a;
    NothingWritten(pool.S());
    WrittenFrom(pool.S(), hs, a, a, pool.disk);
    match op {
      case Get(p, writes) =>
        hs', o, b := Open(pool, hs, p, writes, true, a);
      case TryGet(p, writes) =>
        hs', o, b := Open(pool, hs, p, writes, false, a);
      case Close(i) =>
        if i < |hs| {
          SameDisk(pool.S(), hs, a, Closed(a, i));
          hs' := CloseAt(pool, hs, i, a);
          o, b := Done, Closed(a, i);
        }
      case Read(i) =>
        if i < |hs| {
          HandleLive(pool.S(), hs, a, i);
          var data := pool.GetView(hs[i]);
          o := Bytes(data);
        }
      case Edit(i, data) =>
        if i < |hs| {
          SameDisk(pool.S(), hs, a, a.(contents := a.contents[a.open[i] := data]));
          EditAt(pool, hs, i, data, a);
          o, b := Done, a.(contents := a.contents[a.open[i] := data]);
        }
      case Create(p, data) =>
        if p !in pool.disk && p != INVALID && p.file !in gone {
          CreateAt(pool, hs, p, data, a);
          o, b := Done, a.(contents := a.contents[p := data]);
        }
      case Remove(file) =>
        var ok;
        ok, b := RemoveFile(pool, hs, file, a);
        if ok {
          o, gone' := Done, gone + {file};
        }
    }
  }

  lemma SameDisk(s: State, hs: seq<int>, a: Spec, b: Spec)
    requires Represents(s, hs, a)
    ensures DiskFrom(s.disk, a, b, s.disk)
  {
    NothingWritten(s);
    WrittenFrom(s, hs, a, b, s.disk);
  }

  // ----- runs

  /** `trace` is a run of the simple store with the given operations and observations. */
  ghost predicate IsRun(trace: seq<Spec>, ops: seq<Op>, obs: seq<Obs>) {
    && |obs| == |ops| && |trace| == |ops| + 1
    && forall n | 0 <= n < |ops| :: SpecStep(trace[n], ops[n], obs[n], trace[n + 1])
  }

  /** Page `p` had the bytes `v` at some point of the run. */
  ghost predicate Past(trace: seq<Spec>, p: PageId, v: seq<byte>) {
    exists n :: 0 <= n < |trace| && p in trace[n].contents && trace[n].contents[p] == v
  }

  /** Everything on disk is a present or past content of its page. */
  ghost predicate OnlyPast(trace: seq<Spec>, disk: Disk) {
    forall p {:trigger Past(trace, p, disk[p])} | p in disk :: Past(trace, p, disk[p])
  }

  lemma PastGrows(trace: seq<Spec>, b: Spec, p: PageId, v: seq<byte>)
    requires Past(trace, p, v)
    ensures Past(trace + [b], p, v)
  {
    var n :| 0 <= n < |trace| && p in trace[n].contents && trace[n].contents[p] == v;
    assert (trace + [b])[n] == trace[n];
  }

  lemma StillOnlyPast(trace: seq<Spec>, disk: Disk, b: Spec, disk': Disk)
    requires trace != [] && OnlyPast(trace, disk) && DiskFrom(disk, trace[|trace| - 1], b, disk')
    ensures OnlyPast(trace + [b], disk')
  {
    var trace', a := trace + [b], trace[|trace| - 1];
    forall p | p in disk' ensures Past(trace', p, disk'[p]) {
      assert FromAt(disk, a, b, p, disk'[p]);
      if p in disk && disk'[p] == disk[p] {
        assert Past(trace, p, disk[p]);
        PastGrows(trace, b, p, disk[p]);
      } else if p in a.contents && disk'[p] == a.contents[p] {
        assert trace'[|trace| - 1] == a;
      } else {
        assert trace'[|trace|] == b;
      }
    }
  }

  /** Clients of a store with the given initial contents and `n` frames can observe `obs`. In
      the end the disk has the final contents, except that a page whose last write is refused
      may have the bytes it had at an earlier point. */
  ghost predicate Observable(n: nat, disk: Disk, ops: seq<Op>, refused: set<PageId>, obs: seq<Obs>, disk': Disk) {
    exists trace: seq<Spec> ::
      && IsRun(trace, ops, obs) && trace[0] == Spec(disk, [], {}, n, CountedBy(0, n))
      && ShutDown(trace, refused, disk')
  }

  ghost predicate ShutDown(trace: seq<Spec>, refused: set<PageId>, disk: Disk)
    requires trace != []
  {
    var last := trace[|trace| - 1].contents;
    && disk.Keys == last.Keys && OnlyPast(trace, disk)
    && forall p | p in disk && p !in refused :: disk[p] == last[p]
  }

  lemma ShutDownFrom(trace: seq<Spec>, s: State, hs: seq<int>, refused: set<PageId>)
    requires trace != [] && PoolOk(s) && Represents(s, hs, trace[|trace| - 1]) && OnlyPast(trace, s.disk)
    ensures ShutDown(trace, refused, Flushed(s, refused))
  {
    var disk', last := Flushed(s, refused), trace[|trace| - 1];
    forall p | p in disk' ensures Past(trace, p, disk'[p]) {
      if p in refused {
        assert Past(trace, p, s.disk[p]);
      } else {
        assert disk'[p] == last.contents[p];
      }
    }
  }

  /** Any run of a new pool, whatever its size, its `k` and the write failures: clients
      observe a run of the simple store, and shutting down leaves its contents on disk as far
      as the disk accepts them. */
  method Execute(n: nat, k: nat, disk: Disk, ops: seq<Op>, refused: set<PageId>) returns (obs: seq<Obs>, disk': Disk)
    requires INVALID !in disk
    ensures Observable(n, disk, ops, refused, obs, disk')
  {
    var pool := new Pool(n, k, disk);
    var hs: seq<int>, gone: set<nat> := [], {};
    obs := [];
    ghost var trace := [Spec(disk, [], {}, n, CountedBy(0, n))];
    forall p | p in pool.disk ensures Past(trace, p, pool.disk[p]) { assert trace[0].contents[p] == pool.disk[p]; }
    while |obs| < |ops|
      invariant |obs| <= |ops| && IsRun(trace, ops[..|obs|], obs) && trace[0] == Spec(disk, [], {}, n, CountedBy(0, n))
      invariant fresh(pool) && fresh(pool.replacer) && pool.Valid() && Represents(pool.S(), hs, trace[|obs|])
      invariant gone == trace[|obs|].retired && pool.replacer.count == trace[|obs|].count && OnlyPast(trace, pool.disk)
    {
      var o;
      ghost var b, before := trace[|obs|], pool.disk;
      hs, gone, o, b := Apply(pool, hs, gone, ops[|obs|], trace[|obs|]);
      ExtendRun(trace, ops, obs, o, b);
      StillOnlyPast(trace, before, b, pool.disk);
      obs, trace := obs + [o], trace + [b];
    }
    assert ops[..|obs|] == ops;
    ShutDownFrom(trace, pool.S(), hs, refused);
    pool.FlushAll(refused);
    disk' := pool.disk;
  }

  lemma ExtendRun(trace: seq<Spec>, ops: seq<Op>, obs: seq<Obs>, o: Obs, b: Spec)
    requires |obs| < |ops| && IsRun(trace, ops[..|obs|], obs) && SpecStep(trace[|obs|], ops[|obs|], o, b)
    ensures IsRun(trace + [b], ops[..|obs| + 1], obs + [o])
  {
  }
}
