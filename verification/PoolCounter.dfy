/** The counter of evictable frames over whole runs of the buffer pool, and when a request that
    does not wait is granted. */
module PoolCounter {
  import opened Bytes
  import opened Wrappers
  import opened LruKReplacer
  import opened BufferPool
  import opened PoolRuns

  /** What has happened so far: successful opens, those of them on a page that was open
      already, closes of the last handle of a page, and the pages of removed files that can
      have been cached. */
  datatype Tally = Tally(opens: nat, reopens: nat, lastCloses: nat, removed: nat)

  /** The pages of a file, but no more than there are frames. */
  ghost function Cachable(a: Spec, file: nat): (c: nat)
    ensures c <= a.frames && c <= |OfFile(a.contents, file)|
  {
    var n := |OfFile(a.contents, file)|;
    if n < a.frames then n else a.frames
  }

  ghost function Tallied(t: Tally, a: Spec, op: Op, o: Obs): Tally {
    if o != Done then t
    else
      match op
      case Get(p, _) => t.(opens := t.opens + 1, reopens := t.reopens + if p in a.open then 1 else 0)
      case TryGet(p, _) => t.(opens := t.opens + 1, reopens := t.reopens + if p in a.open then 1 else 0)
      case Close(i) =>
        if i < |a.open| && a.open[i] !in Without(a.open, i) then t.(lastCloses := t.lastCloses + 1) else t
      case Remove(file) => t.(removed := t.removed + Cachable(a, file))
      case _ => t
  }

  /** The tally of the first `n` operations of a run. */
  ghost function TallyOf(trace: seq<Spec>, ops: seq<Op>, obs: seq<Obs>, n: nat): Tally
    requires IsRun(trace, ops, obs) && n <= |ops|
  {
    if n == 0 then Tally(0, 0, 0, 0) else Tallied(TallyOf(trace, ops, obs, n - 1), trace[n - 1], ops[n - 1], obs[n - 1])
  }

  // ----- open pages

  lemma OpenPagesGrow(a: Spec, p: PageId, b: Spec)
    requires b.open == a.open + [p]
    ensures |OpenPages(b)| == |OpenPages(a)| + if p in a.open then 0 else 1
  {
    assert OpenPages(b) == OpenPages(a) + {p};
  }

  lemma OpenPagesShrink(a: Spec, i: nat)
    requires i < |a.open|
    ensures OpenPages(Closed(a, i)) ==
            if a.open[i] in Without(a.open, i) then OpenPages(a) else OpenPages(a) - {a.open[i]}
  {
    var rest := Without(a.open, i);
    forall p ensures p in a.open <==> p in rest || p == a.open[i] {
      if p in a.open {
        var j :| 0 <= j < |a.open| && a.open[j] == p;
        if j != i {
          WithoutAt(a.open, i, if j < i then j else j - 1);
        }
      }
    }
  }

  lemma OpenPagesStep(a: Spec, op: Op, o: Obs, b: Spec, t: Tally)
    requires SpecStep(a, op, o, b) && t.opens == |OpenPages(a)| + t.reopens + t.lastCloses
    ensures var t' := Tallied(t, a, op, o); t'.opens == |OpenPages(b)| + t'.reopens + t'.lastCloses
  {
    match op {
      case Get(p, _) => if o == Done { OpenPagesGrow(a, p, b); }
      case TryGet(p, _) => if o == Done { OpenPagesGrow(a, p, b); }
      case Close(i) => if i < |a.open| { OpenPagesShrink(a, i); }
      case Read(_) | Edit(_, _) | Create(_, _) | Remove(_) => assert b.open == a.open;
    }
  }

  /** Every open has been undone by a last close, or repeats one, or its page is open. */
  lemma {:induction false} OpenPagesOfRun(trace: seq<Spec>, ops: seq<Op>, obs: seq<Obs>, n: nat)
    requires IsRun(trace, ops, obs) && n <= |ops| && trace[0].open == []
    ensures var t := TallyOf(trace, ops, obs, n); t.opens == |OpenPages(trace[n])| + t.reopens + t.lastCloses
  {
    if n > 0 {
      OpenPagesOfRun(trace, ops, obs, n - 1);
      OpenPagesStep(trace[n - 1], ops[n - 1], obs[n - 1], trace[n], TallyOf(trace, ops, obs, n - 1));
    }
  }

  // ----- the counter

  /** The counter reads the frames, less the opens, plus the last closes, plus `r`. */
  ghost predicate Reads(a: Spec, t: Tally, r: nat) {
    a.count == (a.frames - t.opens + t.lastCloses + r) % 0x1_0000_0000_0000_0000
  }

  lemma ReadsOpened(a: Spec, b: Spec, t: Tally, t': Tally, r: nat)
    requires Reads(a, t, r) && b.frames == a.frames && b.count == Counted(a.count, false)
    requires t'.opens == t.opens + 1 && t'.lastCloses == t.lastCloses
    ensures Reads(b, t', r)
  {
    AddModulo(a.frames - t.opens + t.lastCloses + r, 0xFFFF_FFFF_FFFF_FFFF);
  }

  lemma ReadsClosed(a: Spec, b: Spec, t: Tally, t': Tally, r: nat)
    requires Reads(a, t, r) && b.frames == a.frames && b.count == Counted(a.count, true)
    requires t'.opens == t.opens && t'.lastCloses == t.lastCloses + 1
    ensures Reads(b, t', r)
  {
    AddModulo(a.frames - t.opens + t.lastCloses + r, 1);
  }

  lemma ReadsStep(a: Spec, op: Op, o: Obs, b: Spec, t: Tally, r: nat) returns (r': nat)
    requires SpecStep(a, op, o, b) && Reads(a, t, r) && r <= t.removed
    ensures b.frames == a.frames && Reads(b, Tallied(t, a, op, o), r') && r' <= Tallied(t, a, op, o).removed
  {
    var t' := Tallied(t, a, op, o);
    r' := r;
    match op {
      case Get(p, _) => if o == Done { ReadsOpened(a, b, t, t', r); }
      case TryGet(p, _) => if o == Done { ReadsOpened(a, b, t, t', r); }
      case Close(i) => if t' != t { ReadsClosed(a, b, t, t', r); }
      case Remove(file) => if o == Done { r' := ReadsRemoval(a, file, b, t, r); }
      case Read(_) | Edit(_, _) | Create(_, _) => assert b.frames == a.frames && b.count == a.count;
    }
  }

  lemma ReadsRemoval(a: Spec, file: nat, b: Spec, t: Tally, r: nat) returns (r': nat)
    requires RemoveStep(a, file, b) && Reads(a, t, r)
    ensures b.frames == a.frames && Reads(b, t, r') && r' <= r + Cachable(a, file)
  {
    var n: nat :| n <= Cachable(a, file) && b.count == CountedBy(a.count, n) && b.frames == a.frames;
    CountedByAdds(a.count, n);
    AddModulo(a.frames - t.opens + t.lastCloses + r, n);
    r' := r + n;
  }

  /** In every run the counter is the number of frames, less the successful opens, plus the
      last closes, plus one for each page of a removed file that was cached, modulo 2^64. */
  lemma {:induction false} CounterOfRun(trace: seq<Spec>, ops: seq<Op>, obs: seq<Obs>, n: nat) returns (r: nat)
    requires IsRun(trace, ops, obs) && n <= |ops| && trace[0].count == CountedBy(0, trace[0].frames)
    ensures trace[n].frames == trace[0].frames
    ensures var t := TallyOf(trace, ops, obs, n); Reads(trace[n], t, r) && r <= t.removed
  {
    if n == 0 {
      CountedByAdds(0, trace[0].frames);
      r := 0;
    } else {
      r := CounterOfRun(trace, ops, obs, n - 1);
      r := ReadsStep(trace[n - 1], ops[n - 1], obs[n - 1], trace[n], TallyOf(trace, ops, obs, n - 1), r);
    }
  }

  /** No more pages are open than there are frames. */
  lemma {:induction false} OpenPagesFit(trace: seq<Spec>, ops: seq<Op>, obs: seq<Obs>, n: nat)
    requires IsRun(trace, ops, obs) && n <= |ops| && trace[0].open == []
    ensures |OpenPages(trace[n])| <= trace[n].frames
  {
    if n > 0 {
      OpenPagesFit(trace, ops, obs, n - 1);
      var a, op, o, b := trace[n - 1], ops[n - 1], obs[n - 1], trace[n];
      match op {
        case Get(p, _) => if o == Done { OpenPagesGrow(a, p, b); }
        case TryGet(p, _) => if o == Done { OpenPagesGrow(a, p, b); }
        case Close(i) => if i < |a.open| { OpenPagesShrink(a, i); }
        case Read(_) | Edit(_, _) | Create(_, _) | Remove(_) => assert b.open == a.open;
      }
    }
  }

  /** A run of a new pool. */
  ghost predicate NewPoolRun(trace: seq<Spec>, ops: seq<Op>, obs: seq<Obs>) {
    IsRun(trace, ops, obs) && trace[0].open == [] && trace[0].count == CountedBy(0, trace[0].frames)
  }

  /** The counter is the number of frames that hold no open page exactly if there have been as
      many opens of open pages as removals of cached pages. */
  lemma CounterIsExactIff(trace: seq<Spec>, ops: seq<Op>, obs: seq<Obs>, n: nat) returns (r: nat)
    requires NewPoolRun(trace, ops, obs) && n <= |ops|
    requires var t := TallyOf(trace, ops, obs, n);
             trace[n].frames + t.reopens + t.removed < 0x1_0000_0000_0000_0000
    ensures var a, t := trace[n], TallyOf(trace, ops, obs, n);
            && r <= t.removed && a.count == (a.frames - |OpenPages(a)| + r - t.reopens) % 0x1_0000_0000_0000_0000
            && (a.count == a.frames - |OpenPages(a)| <==> r == t.reopens)
  {
    r := CounterOfRun(trace, ops, obs, n);
    OpenPagesOfRun(trace, ops, obs, n);
    OpenPagesFit(trace, ops, obs, n);
    var a, t := trace[n], TallyOf(trace, ops, obs, n);
    NoTurn(a.frames - |OpenPages(a)|, r - t.reopens);
  }

  lemma NoTurn(free: nat, d: int)
    requires -0x1_0000_0000_0000_0000 < d < 0x1_0000_0000_0000_0000 && free < 0x1_0000_0000_0000_0000
    ensures (free + d) % 0x1_0000_0000_0000_0000 == free <==> d == 0
  {
  }

  /** The counter is zero, and requests that do not wait are refused, exactly when opens equal
      frames, last closes and removals of cached pages together. */
  lemma CounterIsZeroIff(trace: seq<Spec>, ops: seq<Op>, obs: seq<Obs>, n: nat) returns (r: nat)
    requires NewPoolRun(trace, ops, obs) && n <= |ops|
    requires var t := TallyOf(trace, ops, obs, n);
             && t.opens < 0x1_0000_0000_0000_0000
             && trace[n].frames + t.lastCloses + t.removed < 0x1_0000_0000_0000_0000
    ensures var a, t := trace[n], TallyOf(trace, ops, obs, n);
            r <= t.removed && (a.count == 0 <==> t.opens == a.frames + t.lastCloses + r)
  {
    r := CounterOfRun(trace, ops, obs, n);
    var a, t := trace[n], TallyOf(trace, ops, obs, n);
    NoTurn(0, a.frames - t.opens + t.lastCloses + r);
  }

  /** As long as opens are outnumbered by frames and last closes together, a request that does
      not wait is granted if its page exists and the disk accepts the write it may need. */
  lemma TryGetIsGranted(trace: seq<Spec>, ops: seq<Op>, obs: seq<Obs>, n: nat, p: PageId)
    requires NewPoolRun(trace, ops, obs) && n < |ops| && ops[n] == TryGet(p, true) && p in trace[n].contents
    requires var t := TallyOf(trace, ops, obs, n);
             && t.opens < trace[n].frames + t.lastCloses
             && trace[n].frames + t.removed < 0x1_0000_0000_0000_0000
    ensures obs[n] == Done
  {
    var r := CounterOfRun(trace, ops, obs, n);
    OpenPagesOfRun(trace, ops, obs, n);
    var x := trace[n].frames - TallyOf(trace, ops, obs, n).opens + TallyOf(trace, ops, obs, n).lastCloses + r;
    NoTurn(0, x);
    assert x > 0 && trace[n].count != 0;
    assert SpecStep(trace[n], ops[n], obs[n], trace[n + 1]);
  }

  /** A request that waits is granted exactly if its page is open already or a frame is left. */
  lemma GetIsGrantedIff(trace: seq<Spec>, ops: seq<Op>, obs: seq<Obs>, n: nat, p: PageId)
    requires IsRun(trace, ops, obs) && n < |ops| && ops[n] == Get(p, true) && p in trace[n].contents
    ensures obs[n] == Done <==> p in trace[n].open || |OpenPages(trace[n])| != trace[n].frames
  {
    assert SpecStep(trace[n], ops[n], obs[n], trace[n + 1]);
  }

  /** A new pool with frames never refuses its first request for a page that exists. */
  lemma FirstTryGetIsGranted(frames: nat, disk: Disk, ops: seq<Op>, refused: set<PageId>, obs: seq<Obs>, disk': Disk,
                             p: PageId)
    requires Observable(frames, disk, ops, refused, obs, disk') && 0 < frames < 0x1_0000_0000_0000_0000
    requires ops != [] && ops[0] == TryGet(p, true) && p in disk
    ensures obs[0] == Done
  {
    var trace :| IsRun(trace, ops, obs) && trace[0] == Spec(disk, [], {}, frames, CountedBy(0, frames))
                 && ShutDown(trace, refused, disk');
    TryGetIsGranted(trace, ops, obs, 0, p);
  }

  // ----- a refusal although a frame is free

  /** A pool with a single frame, which holds page `p` and has `pins` handles. */
  ghost predicate OnlyFrame(s: State, p: PageId, pins: nat) {
    && PoolOk(s) && |s.frames| == 1 && s.frames[0].fp == p && p in s.disk
    && s.handles[0] == pins && |s.handles| == pins
  }

  lemma OnlyPageCached(s: State, p: PageId, pins: nat)
    requires OnlyFrame(s, p, pins)
    ensures p in s.pageMap && s.frames[0].pins == pins && (forall q | q in s.pageMap :: q == p)
    ensures s.handles == multiset{} <==> pins == 0
    ensures forall f | f in s.handles :: f == 0
  {
    assert FrameOk(s, 0);
    forall q | q in s.pageMap ensures q == p { assert EntryOk(s, q); }
  }

  /** Opens page `p` in a pool with one frame, which is free or holds `p` already. */
  method OpenInOnlyFrame(pool: Pool, p: PageId, ghost pins: nat) returns (f: int)
    requires pool.Valid() && |pool.frames| == 1 && p in pool.disk
    requires if pins == 0 then pool.handles == multiset{} else OnlyFrame(pool.S(), p, pins)
    modifies pool, pool.replacer
    ensures pool.Valid() && f == 0 && OnlyFrame(pool.S(), p, pins + 1) && pool.disk.Keys == old(pool.disk.Keys)
    ensures pool.replacer.count == Counted(old(pool.replacer.count), false)
  {
    assert FrameOk(pool.S(), 0);
    if pins > 0 {
      OnlyPageCached(pool.S(), p, pins);
    }
    var r := pool.GetPage(p, true);
    f := r.value;
  }

  method CloseOnlyFrame(pool: Pool, p: PageId, ghost pins: nat)
    requires pool.Valid() && OnlyFrame(pool.S(), p, pins) && pins > 0
    modifies pool`frames, pool`handles, pool.replacer
    ensures pool.Valid() && OnlyFrame(pool.S(), p, pins - 1)
    ensures pool.replacer.count ==
            if pins > 1 then old(pool.replacer.count) else Counted(old(pool.replacer.count), true)
  {
    pool.RemoveAccessor(0);
  }

  /** A new pool with one frame in which page `p` has been opened twice and closed twice. */
  method OpenedTwice(k: nat, p: PageId, disk: Disk) returns (pool: Pool)
    requires INVALID !in disk && p in disk
    ensures pool.Valid() && OnlyFrame(pool.S(), p, 0) && pool.disk.Keys == disk.Keys && pool.replacer.count == 0
    ensures fresh(pool) && fresh(pool.replacer)
  {
    pool := new Pool(1, k, disk);
    CountedByAdds(0, 1);
    OpenAndCloseTwice(pool, p);
  }

  method OpenAndCloseTwice(pool: Pool, p: PageId)
    requires pool.Valid() && |pool.frames| == 1 && pool.handles == multiset{} && p in pool.disk
    requires pool.replacer.count == 1
    modifies pool, pool.replacer
    ensures pool.Valid() && OnlyFrame(pool.S(), p, 0) && pool.disk.Keys == old(pool.disk.Keys)
    ensures pool.replacer.count == 0
  {
    CounterMovesByOne(1);
    CounterMovesByOne(0);
    var _ := OpenInOnlyFrame(pool, p, 0);
    var _ := OpenInOnlyFrame(pool, p, 1);
    CloseOnlyFrame(pool, p, 2);
    CloseOnlyFrame(pool, p, 1);
  }

  /** The condition is needed: with one frame, a page that is opened twice and closed twice
      leaves the frame free and the counter at zero, and the next page is refused. */
  method RefusedThoughFree(k: nat, p: PageId, q: PageId, data: seq<byte>) returns (pool: Pool, r: Option<int>)
    requires p != q && p != INVALID && q != INVALID
    ensures pool.Valid() && pool.handles == multiset{} && q in pool.disk
    ensures |pool.frames| == 1 && pool.frames[0].pins == 0 && r == None
  {
    pool := OpenedTwice(k, p, map[p := data, q := data]);
    OnlyPageCached(pool.S(), p, 0);
    r := pool.GetPageIfFrameAvailable(q, true);
    assert FrameOk(pool.S(), 0);
  }
}
