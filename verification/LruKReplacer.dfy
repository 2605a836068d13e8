/** The frame replacement policy: a logical clock, and per frame the latest accesses. */
module LruKReplacer {
  import opened Wrappers

  /** Access times of a frame, oldest first, and whether it may be evicted. */
  datatype History = History(access: seq<nat>, evictable: bool)

  type Histories = map<int, History>

  ghost predicate Ascending(h: seq<nat>) {
    forall i, j | 0 <= i < j < |h| :: h[i] < h[j]
  }

  /** What the clock guarantees: histories hold at most `k` past access times, in order, and
      no time occurs in two of them. */
  ghost predicate Clocked(frames: Histories, k: nat, now: nat) {
    && (forall f {:trigger frames[f]} | f in frames :: |frames[f].access| <= k && Ascending(frames[f].access))
    && (forall f, t: nat | f in frames && t in frames[f].access :: t < now)
    && (forall f, g, t: nat | f in frames && g in frames && t in frames[f].access && t in frames[g].access :: f == g)
  }

  /** The eviction order on histories that are not empty: shorter than `k` before full, short
      ones by their first access, full ones by their last. */
  predicate Older(k: nat, a: seq<nat>, b: seq<nat>)
    requires a != [] && b != []
  {
    || (|a| < k && |b| >= k)
    || (|a| < k && |b| < k && a[0] < b[0])
    || (|a| >= k && |b| >= k && a[|a| - 1] < b[|b| - 1])
  }

  ghost predicate Evictable(frames: Histories, f: int) { f in frames && frames[f].evictable }

  /** `f` is evictable and comes before every other evictable frame in `among`. */
  ghost predicate Oldest(frames: Histories, k: nat, among: set<int>, f: int) {
    && Evictable(frames, f) && f in among && frames[f].access != []
    && forall g | g in among && g != f && Evictable(frames, g) :: frames[g].access != []
        && Older(k, frames[f].access, frames[g].access)
  }

  /** A frame the policy may evict: one that was never used, or else the oldest one. */
  ghost predicate IsVictim(frames: Histories, k: nat, f: int) {
    Evictable(frames, f) && (frames[f].access == [] || Oldest(frames, k, frames.Keys, f))
  }

  /** Any two used frames are ordered, one way only. */
  lemma OlderIsTotal(frames: Histories, k: nat, now: nat, f: int, g: int)
    requires Clocked(frames, k, now) && f in frames && g in frames && f != g
    requires frames[f].access != [] && frames[g].access != []
    ensures Older(k, frames[f].access, frames[g].access) <==> !Older(k, frames[g].access, frames[f].access)
  {
    var a, b := frames[f].access, frames[g].access;
    assert a[0] in a && b[0] in b && a[|a| - 1] in a && b[|b| - 1] in b;
    assert a[0] != b[0] && a[|a| - 1] != b[|b| - 1];
  }

  /** When every evictable frame has been used, the policy has exactly one choice. */
  lemma VictimIsUnique(frames: Histories, k: nat, now: nat, f: int, g: int)
    requires Clocked(frames, k, now) && IsVictim(frames, k, f) && IsVictim(frames, k, g)
    requires forall h | Evictable(frames, h) :: frames[h].access != []
    ensures f == g
  {
  }

  // ----- the documented policy

  /** Full histories of two frames: `k` ascending times each, none in common. */
  ghost predicate FullHistories(k: nat, a: seq<nat>, b: seq<nat>) {
    && |a| == |b| == k && Ascending(a) && Ascending(b)
    && forall i, j | 0 <= i < k && 0 <= j < k :: a[i] != b[j]
  }

  /** The documentation orders full histories by the k-th latest access, the first one kept. */
  ghost predicate FollowsPolicy(k: nat) {
    k > 0 && forall a, b | FullHistories(k, a, b) :: Older(k, a, b) <==> a[0] < b[0]
  }

  /** The code compares the latest accesses instead, which is the documented order exactly for
      `k` = 1. */
  lemma FollowsPolicyIff(k: nat)
    ensures FollowsPolicy(k) <==> k == 1
  {
    if k >= 2 {
      var a: seq<nat>, b: seq<nat> := seq(k, i => if i == 0 then 0 else k + i), seq(k, i => i + 1);
      assert FullHistories(k, a, b) && a[0] < b[0] && !Older(k, a, b);
    }
  }

  /** The pool leaves `k` at 0: then no history is kept, there is no order to follow, and any
      evictable frame may go. */
  lemma ZeroKeepsNoHistory(frames: Histories, now: nat, f: int)
    requires Clocked(frames, 0, now)
    ensures IsVictim(frames, 0, f) <==> Evictable(frames, f)
  {
  }

  // ----- the replacer

  /** The history after an access at time `now`. */
  function Recorded(h: seq<nat>, k: nat, now: nat): seq<nat> {
    if |h| + 1 > k then (h + [now])[1..] else h + [now]
  }

  /** What remains after an access are the latest times, the new one last, and `k` of them as
      soon as there have been that many. */
  lemma LatestAccessesKept(h: seq<nat>, k: nat, now: nat)
    requires |h| <= k
    ensures |Recorded(h, k, now)| == if |h| < k then |h| + 1 else k
    ensures Recorded(h, k, now) == (h + [now])[|h| + 1 - |Recorded(h, k, now)|..]
    ensures k > 0 ==> Recorded(h, k, now) != [] && Recorded(h, k, now)[|Recorded(h, k, now)| - 1] == now
  {
    assert (h + [now])[0..] == h + [now];
  }

  /** Time `t` comes before all times of `h`. */
  ghost predicate BeforeAll(t: nat, h: seq<nat>) { forall u | u in h :: t < u }

  ghost predicate AfterAll(t: nat, h: seq<nat>) { forall u | u in h :: u < t }

  /** A short history goes before a full one. Of two short ones that goes first which has an
      access before all of the other, of two full ones that which has none after all of the
      other. */
  lemma OlderMeans(a: seq<nat>, b: seq<nat>, k: nat)
    requires a != [] && b != [] && Ascending(a) && Ascending(b)
    ensures |a| < k <= |b| ==> Older(k, a, b) && !Older(k, b, a)
    ensures |a| < k && |b| < k ==> (Older(k, a, b) <==> exists t: nat :: t in a && BeforeAll(t, b))
    ensures |a| >= k && |b| >= k ==> (Older(k, a, b) <==> exists t: nat :: t in b && AfterAll(t, a))
  {
    assert a[0] in a && b[0] in b && a[|a| - 1] in a && b[|b| - 1] in b;
    assert forall t: nat | t in a :: a[0] <= t <= a[|a| - 1];
    assert forall t: nat | t in b :: b[0] <= t <= b[|b| - 1];
    assert a[0] < b[0] ==> BeforeAll(a[0], b);
    assert a[|a| - 1] < b[|b| - 1] ==> AfterAll(b[|b| - 1], a);
  }

  lemma AccessKeepsClock(frames: Histories, k: nat, now: nat, f: int)
    requires Clocked(frames, k, now) && f in frames
    ensures Clocked(frames[f := frames[f].(access := Recorded(frames[f].access, k, now))], k, now + 1)
  {
    var h, h' := frames[f].access, Recorded(frames[f].access, k, now);
    var frames' := frames[f := frames[f].(access := h')];
    assert forall t: nat | t in h' :: t in h || t == now;
    assert Ascending(h') by {
      assert forall i | 0 <= i < |h| :: h[i] in h;
    }
    forall g, t: nat | g in frames' && t in frames'[g].access ensures t < now + 1 {
      assert g != f ==> t in frames[g].access;
    }
    forall g, g', t: nat | g in frames' && g' in frames' && t in frames'[g].access && t in frames'[g'].access
        ensures g == g' {
      assert t != now && g != f ==> t in frames[g].access;
      assert t == now ==> g == f && g' == f;
    }
  }

  lemma ClearKeepsClock(frames: Histories, k: nat, now: nat, f: int)
    requires Clocked(frames, k, now) && f in frames
    ensures Clocked(frames[f := frames[f].(access := [])], k, now)
  {
  }

  /** The 64-bit counter after the evictable flag of a frame is set to `evictable`. */
  function Counted(count: nat, evictable: bool): nat {
    (count + if evictable then 1 else 0xFFFF_FFFF_FFFF_FFFF) % 0x1_0000_0000_0000_0000
  }

  /** The counter after `n` flags have been set. */
  function CountedBy(count: nat, n: nat): nat { if n == 0 then count else Counted(CountedBy(count, n - 1), true) }

  /** Setting a flag moves the counter by exactly one, around the ends of the 64-bit range. */
  lemma CounterMovesByOne(count: nat)
    requires count < 0x1_0000_0000_0000_0000
    ensures Counted(count, true) == if count == 0xFFFF_FFFF_FFFF_FFFF then 0 else count + 1
    ensures Counted(count, false) == if count == 0 then 0xFFFF_FFFF_FFFF_FFFF else count - 1
    ensures Counted(Counted(count, true), false) == Counted(Counted(count, false), true) == count
  {
  }

  /** Setting `n` flags adds `n`, and the counter starts over at 2^64. */
  lemma {:induction false} CountedByAdds(count: nat, n: nat)
    requires count < 0x1_0000_0000_0000_0000
    ensures CountedBy(count, n) == (count + n) % 0x1_0000_0000_0000_0000
    ensures count + n < 0x1_0000_0000_0000_0000 ==> CountedBy(count, n) == count + n
  {
    if n > 0 {
      CountedByAdds(count, n - 1);
      AddModulo(count + n - 1, 1);
    }
  }

  /** Remainders may be taken before or after adding. */
  lemma AddModulo(x: int, d: int)
    ensures (x % 0x1_0000_0000_0000_0000 + d) % 0x1_0000_0000_0000_0000 == (x + d) % 0x1_0000_0000_0000_0000
  {
  }

  class Replacer {
    const k: nat
    var frames: Histories
    var now: nat
    /** The 64-bit count of evictable frames that the code keeps; it drifts, because
        `SetEvictable` moves it even when the flag does not change. */
    var count: nat

    ghost predicate Valid()
      reads this
    {
      Clocked(frames, k, now) && count < 0x1_0000_0000_0000_0000
    }

    constructor (k: nat)
      ensures Valid() && this.k == k && frames == map[] && count == 0
    {
      this.k := k;
      frames, now, count := map[], 0, 0;
    }

    method RegisterFrame(f: nat)
      requires Valid()
      modifies this
      ensures Valid() && frames == if f in old(frames) then old(frames) else old(frames)[f := History([], true)]
      ensures now == old(now) && count == Counted(old(count), true)
    {
      if f !in frames {
        frames := frames[f := History([], true)];
      }
      count := Counted(count, true);
    }

    /** Nothing exactly when no frame is evictable; otherwise a victim of the policy, whose
        history is cleared. The frames are visited in an arbitrary order. */
    method EvictFrame() returns (r: Option<int>)
      requires Valid()
      modifies this`frames
      ensures Valid()
      ensures r.None? <==> forall f | f in old(frames) :: !old(frames)[f].evictable
      ensures r.None? ==> frames == old(frames)
      ensures r.Some? ==> IsVictim(old(frames), k, r.value) && frames == old(frames)[r.value := History([], true)]
    {
      var rest := frames.Keys;
      var found, victim, foundShort := false, 0, false;
      while rest != {}
        invariant rest <= frames.Keys && frames == old(frames)
        invariant found ==> Oldest(frames, k, frames.Keys - rest, victim) && foundShort == (|frames[victim].access| < k)
        invariant !found ==> forall f | f in frames.Keys - rest :: !frames[f].evictable
        decreases rest
      {
        var f := Pick(rest);
        ghost var seen := frames.Keys - rest;
        rest := rest - {f};
        assert frames.Keys - rest == seen + {f};
        if frames[f].evictable {
          var h := frames[f].access;
          if h == [] {
            ClearKeepsClock(frames, k, now, f);
            frames := frames[f := frames[f].(access := [])];
            return Some(f);
          }
          if !found {
            found, victim, foundShort := true, f, |h| < k;
          } else {
            OldestStep(frames, k, now, seen, victim, f);
            var short := |h| < k;
            if short && !foundShort {
              victim, foundShort := f, true;
            } else if short == foundShort {
              var c := frames[victim].access;
              if (short && h[0] < c[0]) || (!short && h[|h| - 1] < c[|c| - 1]) {
                victim := f;
              }
            }
          }
        }
      }
      assert frames.Keys - rest == frames.Keys;
      if found {
        ClearKeepsClock(frames, k, now, victim);
        frames := frames[victim := frames[victim].(access := [])];
        return Some(victim);
      }
      r := None;
    }

    /** An access is recorded at the current time; only the latest `k` are kept. */
    method RecordAccess(f: int)
      requires Valid()
      modifies this`frames, this`now
      ensures Valid()
      ensures f !in old(frames) ==> frames == old(frames) && now == old(now)
      ensures f in old(frames) ==>
                && now == old(now) + 1
                && frames == old(frames)[f := old(frames)[f].(access := Recorded(old(frames)[f].access, k, old(now)))]
    {
      if f !in frames {
        return;
      }
      AccessKeepsClock(frames, k, now, f);
      var h := frames[f].access + [now];
      if |h| > k {
        h := h[1..];
      }
      frames := frames[f := frames[f].(access := h)];
      now := now + 1;
    }

    method SetEvictable(f: int, evictable: bool)
      requires Valid()
      modifies this`frames, this`count
      ensures Valid()
      ensures f !in old(frames) ==> frames == old(frames) && count == old(count)
      ensures f in old(frames) ==> frames == old(frames)[f := old(frames)[f].(evictable := evictable)]
      ensures f in old(frames) ==> count == Counted(old(count), evictable)
    {
      if f !in frames {
        return;
      }
      count := Counted(count, evictable);
      frames := frames[f := frames[f].(evictable := evictable)];
    }
  }

  ghost function EvictableFrames(frames: Histories): set<int> { set f | f in frames && frames[f].evictable }

  /** A count of the evictable frames stays exact exactly when the flag changes; the pool sets
      flags that are already set, which is why it must not trust the count. */
  lemma CountStaysExactIff(frames: Histories, f: int, evictable: bool, count: int)
    requires f in frames && count == |EvictableFrames(frames)|
    ensures var frames' := frames[f := frames[f].(evictable := evictable)];
            count + (if evictable then 1 else -1) == |EvictableFrames(frames')| <==> frames[f].evictable != evictable
  {
    var frames' := frames[f := frames[f].(evictable := evictable)];
    if evictable {
      assert EvictableFrames(frames') == EvictableFrames(frames) + {f};
    } else {
      assert EvictableFrames(frames') == EvictableFrames(frames) - {f};
    }
  }

  /** Comparing the best frame so far with one more decides the best of all of them. */
  lemma OldestStep(frames: Histories, k: nat, now: nat, seen: set<int>, v: int, f: int)
    requires Clocked(frames, k, now) && Oldest(frames, k, seen, v)
    requires f !in seen && Evictable(frames, f) && frames[f].access != []
    ensures Oldest(frames, k, seen + {f}, if Older(k, frames[f].access, frames[v].access) then f else v)
  {
    OlderIsTotal(frames, k, now, f, v);
  }
}
