/** The shared spinlock: any number of threads run its operations on one atomic integer.

    A run interleaves atomic steps. Each thread has a program counter, the local `expected`
    of its compare-and-swap loop included, so stale values and spurious failures are part
    of the model. Threads are well-behaved: only a holder unlocks. */
module SharedSpinlock {

  /** Where a thread is. */
  datatype Thread =
    | Idle
    | TryLock              // about to compare 0 and swap in -1, once
    | Lock                 // the same, in a loop
    | TrySharedLoad        // about to load `expected`
    | TryShared(tried: int)   // about to compare and swap in expected + 1, or to give up
    | SharedLoad
    | Shared(seen: int)
    | Writer
    | Reader

  /** The lock word and the threads. */
  datatype State = State(word: int, threads: seq<Thread>)

  // ----- steps of one thread, as a relation on the lock word and its own state

  /** `compare_exchange_strong`. */
  ghost predicate CasStrong(w: int, expected: int, desired: int, w': int, expected': int, ok: bool) {
    if w == expected then ok && w' == desired && expected' == expected else !ok && w' == w && expected' == w
  }

  /** `compare_exchange_weak` may fail for no reason. */
  ghost predicate CasWeak(w: int, expected: int, desired: int, w': int, expected': int, ok: bool) {
    CasStrong(w, expected, desired, w', expected', ok) || (!ok && w' == w && expected' == w)
  }

  ghost predicate CasIncrement(w: int, expected: int, w': int, expected': int, ok: bool) {
    CasWeak(w, expected, expected + 1, w', expected', ok)
  }

  ghost predicate ThreadStep(w: int, t: Thread, w': int, t': Thread) {
    match t
    case Idle =>            // calls one of the operations
      w' == w && (t' == TryLock || t' == Lock || t' == TrySharedLoad || t' == SharedLoad)
    case TryLock =>
      exists e', ok :: CasStrong(w, 0, -1, w', e', ok) && t' == if ok then Writer else Idle
    case Lock =>            // after a failure `expected` is reset to 0
      exists e', ok :: CasWeak(w, 0, -1, w', e', ok) && t' == if ok then Writer else Lock
    case TrySharedLoad =>
      w' == w && t' == TryShared(w)
    case TryShared(e) =>
      if e < 0 then w' == w && t' == Idle
      else exists e', ok :: CasIncrement(w, e, w', e', ok) && t' == if ok then Reader else TryShared(e')
    case SharedLoad =>
      w' == w && t' == Shared(w)
    case Shared(e) =>
      if e < 0 then w' == w && t' == Shared(w)
      else exists e', ok :: CasIncrement(w, e, w', e', ok) && t' == if ok then Reader else Shared(e')
    case Writer =>          // stays in its critical section, or unlocks by storing 0
      (w' == w && t' == Writer) || (w' == 0 && t' == Idle)
    case Reader =>          // stays, or unlocks by subtracting 1
      (w' == w && t' == Reader) || (w' == w - 1 && t' == Idle)
  }

  /** One atomic step of one thread. */
  ghost predicate Next(s: State, s': State) {
    exists i: nat :: i < |s.threads| && |s'.threads| == |s.threads|
                     && s'.threads == s.threads[i := s'.threads[i]]
                     && ThreadStep(s.word, s.threads[i], s'.word, s'.threads[i])
  }

  ghost predicate Init(s: State) {
    s.word == 0 && forall i | 0 <= i < |s.threads| :: s.threads[i] == Idle
  }

  // ----- counting the holders

  ghost function Readers(ts: seq<Thread>, n: nat): (c: nat)
    requires n <= |ts|
    ensures c <= n
  {
    if n == 0 then 0 else Readers(ts, n - 1) + if ts[n - 1] == Reader then 1 else 0
  }

  ghost function Writers(ts: seq<Thread>, n: nat): (c: nat)
    requires n <= |ts|
    ensures c <= n
  {
    if n == 0 then 0 else Writers(ts, n - 1) + if ts[n - 1] == Writer then 1 else 0
  }

  lemma {:induction false} CountUpdate(ts: seq<Thread>, i: nat, t: Thread, n: nat)
    requires i < |ts| && n <= |ts|
    ensures Readers(ts[i := t], n) + (if i < n && ts[i] == Reader then 1 else 0)
         == Readers(ts, n) + (if i < n && t == Reader then 1 else 0)
    ensures Writers(ts[i := t], n) + (if i < n && ts[i] == Writer then 1 else 0)
         == Writers(ts, n) + (if i < n && t == Writer then 1 else 0)
  {
    if n > 0 {
      CountUpdate(ts, i, t, n - 1);
    }
  }

  // ----- the invariant

  /** The word encodes the holders: -1 for one writer and nobody else, otherwise the number
      of readers. */
  ghost predicate Encodes(word: int, writers: int, readers: int) {
    if word == -1 then writers == 1 && readers == 0 else writers == 0 && readers == word
  }

  /** The word encodes the holders, and the values threads remember stay in range, so that
      `expected + 1` never overflows. */
  ghost predicate Safe(s: State) {
    var n := |s.threads|;
    && Encodes(s.word, Writers(s.threads, n), Readers(s.threads, n))
    && forall i | 0 <= i < n :: Remembers(s.threads[i], n)
  }

  /** A remembered value is one that the word can have while this thread holds nothing. */
  ghost predicate Remembers(t: Thread, n: nat) {
    && (t.TryShared? ==> -1 <= t.tried < n)
    && (t.Shared? ==> -1 <= t.seen < n)
  }

  lemma {:induction false} NoHolders(ts: seq<Thread>, n: nat)
    requires n <= |ts| && forall i | 0 <= i < n :: ts[i] == Idle
    ensures Readers(ts, n) == Writers(ts, n) == 0
  {
    if n > 0 {
      NoHolders(ts, n - 1);
    }
  }

  /** A thread that holds nothing leaves room: fewer holders than threads. */
  lemma HoldersBelow(ts: seq<Thread>, i: nat)
    requires i < |ts| && !ts[i].Reader? && !ts[i].Writer?
    ensures Readers(ts, |ts|) < |ts|
  {
    CountUpdate(ts, i, Reader, |ts|);
  }

  lemma HolderCounts(ts: seq<Thread>, i: nat)
    requires i < |ts|
    ensures ts[i].Reader? ==> Readers(ts, |ts|) >= 1
    ensures ts[i].Writer? ==> Writers(ts, |ts|) >= 1
  {
    CountUpdate(ts, i, Idle, |ts|);
  }

  ghost function One(b: bool): int { if b then 1 else 0 }

  /** A step of a thread changes the word and the holders together. */
  lemma ThreadStepIsSafe(w: int, t: Thread, w': int, t': Thread, writers: int, readers: int, n: nat)
    requires ThreadStep(w, t, w', t') && Encodes(w, writers, readers) && Remembers(t, n)
    requires One(t.Writer?) <= writers && One(t.Reader?) <= readers && (!t.Writer? && !t.Reader? ==> readers < n)
    ensures Encodes(w', writers - One(t.Writer?) + One(t'.Writer?), readers - One(t.Reader?) + One(t'.Reader?))
    ensures Remembers(t', n)
  {
  }

  lemma StepIsSafe(s: State, s': State)
    requires Safe(s) && Next(s, s')
    ensures Safe(s')
  {
    var i: nat :| i < |s.threads| && |s'.threads| == |s.threads| && s'.threads == s.threads[i := s'.threads[i]]
                  && ThreadStep(s.word, s.threads[i], s'.word, s'.threads[i]);
    var ts, n := s.threads, |s.threads|;
    CountUpdate(ts, i, s'.threads[i], n);
    HolderCounts(ts, i);
    if !ts[i].Reader? && !ts[i].Writer? {
      HoldersBelow(ts, i);
    }
    assert Remembers(ts[i], n);
    ThreadStepIsSafe(s.word, ts[i], s'.word, s'.threads[i], Writers(ts, n), Readers(ts, n), n);
  }

  /** A run of the lock: any number of threads, any interleaving, of any length. */
  ghost predicate IsRun(run: seq<State>) {
    && run != [] && Init(run[0])
    && forall n | 0 <= n < |run| - 1 :: Next(run[n], run[n + 1])
  }

  lemma {:induction false} RunsAreSafe(run: seq<State>, n: nat)
    requires IsRun(run) && n < |run|
    ensures Safe(run[n])
  {
    if n == 0 {
      NoHolders(run[0].threads, |run[0].threads|);
    } else {
      RunsAreSafe(run, n - 1);
      StepIsSafe(run[n - 1], run[n]);
    }
  }

  /** Mutual exclusion in every reachable state: a writer is alone. */
  lemma MutualExclusion(run: seq<State>, n: nat, i: nat, j: nat)
    requires IsRun(run) && n < |run| && i < |run[n].threads| && j < |run[n].threads| && i != j
    requires run[n].threads[i].Writer?
    ensures !run[n].threads[j].Writer? && !run[n].threads[j].Reader?
  {
    RunsAreSafe(run, n);
    var ts := run[n].threads;
    HolderCounts(ts, i);
    HolderCounts(ts, j);
    CountUpdate(ts, i, Idle, |ts|);
    HolderCounts(ts[i := Idle], j);
  }

  /** `State()`: the word always reads as one of the three documented lock states, and says
      who holds the lock. */
  lemma StateIsDocumented(run: seq<State>, n: nat)
    requires IsRun(run) && n < |run|
    ensures run[n].word >= -1
    ensures run[n].word == -1 <==> exists i :: 0 <= i < |run[n].threads| && run[n].threads[i].Writer?
    ensures run[n].word > 0 <==> exists i :: 0 <= i < |run[n].threads| && run[n].threads[i].Reader?
  {
    RunsAreSafe(run, n);
    var ts := run[n].threads;
    forall i | 0 <= i < |ts| ensures (ts[i].Writer? ==> run[n].word == -1) && (ts[i].Reader? ==> run[n].word > 0) {
      HolderCounts(ts, i);
    }
    if run[n].word == -1 { var i := SomeHolder(ts, true, |ts|); }
    if run[n].word > 0 { var i := SomeHolder(ts, false, |ts|); }
  }

  lemma {:induction false} SomeHolder(ts: seq<Thread>, writer: bool, n: nat) returns (i: nat)
    requires n <= |ts| && (if writer then Writers(ts, n) else Readers(ts, n)) > 0
    ensures i < n && (if writer then ts[i].Writer? else ts[i].Reader?)
  {
    if ts[n - 1] == (if writer then Writer else Reader) {
      i := n - 1;
    } else {
      i := SomeHolder(ts, writer, n - 1);
    }
  }

  /** With fewer than 2^31 threads no step computes a value outside the 32-bit range. */
  lemma NoOverflow(run: seq<State>, n: nat, i: nat)
    requires IsRun(run) && n < |run| && i < |run[n].threads| < 0x8000_0000
    ensures -1 <= run[n].word < 0x8000_0000
    ensures run[n].threads[i].TryShared? ==> run[n].threads[i].tried + 1 < 0x8000_0000
    ensures run[n].threads[i].Shared? ==> run[n].threads[i].seen + 1 < 0x8000_0000
  {
    RunsAreSafe(run, n);
    assert Remembers(run[n].threads[i], |run[n].threads|);
  }

  // ----- what the operations come to

  /** `try_lock` takes the lock exactly if it is free; `lock` takes it only then and never
      gives up. */
  lemma WriterOutcomes(w: int, w': int, t': Thread)
    ensures ThreadStep(w, TryLock, w', t') <==> if w == 0 then w' == -1 && t' == Writer else w' == w && t' == Idle
    ensures ThreadStep(w, Lock, w', t') <==> (w == 0 && w' == -1 && t' == Writer) || (w' == w && t' == Lock)
    ensures ThreadStep(w, Writer, w', t') && t' != Writer <==> w' == 0 && t' == Idle
  {
    assert CasStrong(w, 0, -1, if w == 0 then -1 else w, if w == 0 then 0 else w, w == 0);
    assert w == 0 ==> CasWeak(w, 0, -1, -1, 0, true);
    assert CasWeak(w, 0, -1, w, w, false);
  }

  /** `try_lock_shared` gives up exactly on a negative value, `lock_shared` never; both become
      readers only if the word still is the value they saw, and otherwise see its new value. */
  lemma ReaderOutcomes(w: int, e: int, w': int, t': Thread)
    ensures ThreadStep(w, TrySharedLoad, w', t') <==> w' == w && t' == TryShared(w)
    ensures ThreadStep(w, SharedLoad, w', t') <==> w' == w && t' == Shared(w)
    ensures ThreadStep(w, TryShared(e), w', t') <==>
              || (e < 0 && w' == w && t' == Idle)
              || (w == e >= 0 && w' == w + 1 && t' == Reader)
              || (e >= 0 && w' == w && t' == TryShared(w))
    ensures ThreadStep(w, Shared(e), w', t') <==>
              (w == e >= 0 && w' == w + 1 && t' == Reader) || (w' == w && t' == Shared(w))
    ensures ThreadStep(w, Reader, w', t') && t' != Reader <==> w' == w - 1 && t' == Idle
  {
    assert CasIncrement(w, e, w, w, false);
    assert w == e ==> CasIncrement(w, e, w + 1, e, true);
  }

  /** A thread whose state changes has made the step, on the word as it was. */
  lemma StepOf(s: State, s': State, i: nat)
    requires Next(s, s') && i < |s.threads|
    ensures |s'.threads| == |s.threads|
    ensures s'.threads[i] != s.threads[i] ==> ThreadStep(s.word, s.threads[i], s'.word, s'.threads[i])
  {
    var j: nat :| j < |s.threads| && |s'.threads| == |s.threads| && s'.threads == s.threads[j := s'.threads[j]]
                  && ThreadStep(s.word, s.threads[j], s'.word, s'.threads[j]);
  }

  /** Whether thread `i` is in `try_lock_shared` in all states from `m` to `n`. */
  ghost predicate Trying(run: seq<State>, i: nat, m: nat, n: nat) {
    && n < |run|
    && forall k | m <= k <= n ::
        i < |run[k].threads| && (run[k].threads[i].TrySharedLoad? || run[k].threads[i].TryShared?)
  }

  /** The value seen in `try_lock_shared` is one that the word had during the call. */
  lemma {:induction false} SeenDuringCall(run: seq<State>, n: nat, i: nat) returns (m: nat)
    requires IsRun(run) && n < |run| && i < |run[n].threads| && run[n].threads[i].TryShared?
    ensures m < n && Trying(run, i, m, n) && run[m].word == run[n].threads[i].tried
  {
    if n > 0 {
      var s, s' := run[n - 1], run[n];
      assert Next(s, s');
      SameThreads(s, s');
      StepOf(s, s', i);
      if s.threads[i] == s'.threads[i] {
        m := SeenDuringCall(run, n - 1, i);
      } else {
        m := n - 1;
        SeesTheWord(s.word, s.threads[i], s'.word, s'.threads[i]);
      }
    }
  }

  lemma SameThreads(s: State, s': State)
    requires Next(s, s')
    ensures |s'.threads| == |s.threads|
  {
  }

  lemma SeesTheWord(w: int, t: Thread, w': int, t': Thread)
    requires ThreadStep(w, t, w', t') && t'.TryShared?
    ensures t'.tried == w && (t.TrySharedLoad? || t.TryShared?)
  {
  }

  /** `try_lock_shared` fails only if a writer held the lock at some point of the call. */
  lemma TrySharedFailsOnlyToAWriter(run: seq<State>, n: nat, i: nat) returns (m: nat, j: nat)
    requires IsRun(run) && n + 1 < |run| && i < |run[n].threads| == |run[n + 1].threads|
    requires run[n].threads[i].TryShared? && run[n + 1].threads[i].Idle?
    ensures m < n && Trying(run, i, m, n) && j < |run[m].threads| && run[m].threads[j].Writer?
  {
    assert Next(run[n], run[n + 1]);
    StepOf(run[n], run[n + 1], i);
    m := SeenDuringCall(run, n, i);
    ReaderOutcomes(run[n].word, run[n].threads[i].tried, run[n + 1].word, Idle);
    RunsAreSafe(run, m);
    StateIsDocumented(run, m);
    j :| 0 <= j < |run[m].threads| && run[m].threads[j].Writer?;
  }

  /** `try_lock` succeeds exactly if nobody holds the lock at the moment of its comparison. */
  lemma TryLockSucceedsIffFree(run: seq<State>, n: nat, i: nat)
    requires IsRun(run) && n + 1 < |run| && i < |run[n].threads| == |run[n + 1].threads|
    requires run[n].threads[i].TryLock? && !run[n + 1].threads[i].TryLock?
    ensures run[n + 1].threads[i].Writer? <==>
              forall j | 0 <= j < |run[n].threads| :: !run[n].threads[j].Writer? && !run[n].threads[j].Reader?
    ensures !run[n + 1].threads[i].Writer? ==> run[n + 1].threads[i].Idle?
  {
    assert Next(run[n], run[n + 1]);
    StepOf(run[n], run[n + 1], i);
    WriterOutcomes(run[n].word, run[n + 1].word, run[n + 1].threads[i]);
    StateIsDocumented(run, n);
  }

  /** No thread is ever stuck: whatever the word, each thread can make a step. */
  lemma EveryThreadCanStep(s: State, i: nat) returns (s': State)
    requires i < |s.threads|
    ensures Next(s, s') && |s'.threads| == |s.threads|
    ensures ThreadStep(s.word, s.threads[i], s'.word, s'.threads[i])
  {
    var w, t := s.word, s.threads[i];
    match t {
      case Idle => s' := s.(threads := s.threads[i := Lock]);
      case TryLock =>
        s' := if w == 0 then State(-1, s.threads[i := Writer]) else s.(threads := s.threads[i := Idle]);
      case TrySharedLoad => s' := s.(threads := s.threads[i := TryShared(w)]);
      case TryShared(e) => s' := s.(threads := s.threads[i := if e < 0 then Idle else TryShared(w)]);
      case SharedLoad => s' := s.(threads := s.threads[i := Shared(w)]);
      case Shared(_) => s' := s.(threads := s.threads[i := Shared(w)]);
      case Lock | Writer | Reader => s' := s;
    }
    var t' := s'.threads[i];
    WriterOutcomes(w, s'.word, t');
    ReaderOutcomes(w, if t.TryShared? then t.tried else if t.Shared? then t.seen else 0, s'.word, t');
    assert s'.threads == s.threads[i := t'];
  }

  /** Every operation can get a lock that is there to be had: from a free lock a writer can
      take it in one step, and from a lock without a writer a reader that has seen the
      current value can too, whether it waits or only tries. */
  lemma FreeLockCanBeTaken(s: State, i: nat)
    requires Safe(s) && i < |s.threads|
    ensures s.word == 0 && (s.threads[i].Lock? || s.threads[i].TryLock?) ==>
              Next(s, State(-1, s.threads[i := Writer]))
    ensures s.word >= 0 && (s.threads[i] == Shared(s.word) || s.threads[i] == TryShared(s.word)) ==>
              Next(s, State(s.word + 1, s.threads[i := Reader]))
    ensures s.threads[i].SharedLoad? ==> Next(s, s.(threads := s.threads[i := Shared(s.word)]))
    ensures s.threads[i].TrySharedLoad? ==> Next(s, s.(threads := s.threads[i := TryShared(s.word)]))
  {
    var w, t := s.word, s.threads[i];
    WriterOutcomes(w, -1, Writer);
    ReaderOutcomes(w, w, w + 1, Reader);
    CanStep(s, i, -1, Writer);
    CanStep(s, i, w + 1, Reader);
    CanStep(s, i, w, Shared(w));
    CanStep(s, i, w, TryShared(w));
  }

  /** Every thread outside the lock can start any operation. */
  lemma AnyCallCanStart(s: State, i: nat, t: Thread)
    requires i < |s.threads| && s.threads[i].Idle?
    requires t.TryLock? || t.Lock? || t.TrySharedLoad? || t.SharedLoad?
    ensures Next(s, s.(threads := s.threads[i := t]))
  {
    CanStep(s, i, s.word, t);
  }

  lemma CanStep(s: State, i: nat, w': int, t': Thread)
    requires i < |s.threads|
    ensures ThreadStep(s.word, s.threads[i], w', t') ==> Next(s, State(w', s.threads[i := t']))
  {
    var s' := State(w', s.threads[i := t']);
    assert s'.threads == s.threads[i := s'.threads[i]];
  }
}
