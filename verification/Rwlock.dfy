/** The reader/writer spinlock: threads interleave single reads and compare-and-sets of one 32-bit counter. */
module Rwlock {

  const MAX: int := 0x7fff_ffff

  /** A signed 32-bit word after an addition of at most one. */
  function Wrap(x: int): int {
    if x > MAX then x - 0x1_0000_0000 else if x < -MAX - 1 then x + 0x1_0000_0000 else x
  }

  /** Where a thread is. A compare-and-set is pending with the value x that the thread has read. */
  datatype Thread = Idle | WantRead | CasRead(x: int) | HoldRead | WantWrite | CasWrite | HoldWrite

  datatype State = State(cnt: int, threads: seq<Thread>)

  datatype Action = LockRead | LockWrite | Load | CompareAndSet | Unlock

  predicate Initial(s: State) {
    s.cnt == 0 && forall t :: 0 <= t < |s.threads| ==> s.threads[t] == Idle
  }

  /** The counter and the thread after one atomic step of a thread that can take it. */
  function Stepped(cnt: int, th: Thread, a: Action): (int, Thread) {
    match (a, th)
    case (LockRead, Idle) => (cnt, WantRead)
    case (LockWrite, Idle) => (cnt, WantWrite)
    case (Load, WantRead) => (cnt, if cnt < 0 then WantRead else CasRead(cnt))
    case (Load, WantWrite) => (cnt, if cnt != 0 then WantWrite else CasWrite)
    case (CompareAndSet, CasRead(x)) => if cnt == x then (Wrap(x + 1), HoldRead) else (cnt, WantRead)
    case (CompareAndSet, CasWrite) => if cnt == 0 then (-1, HoldWrite) else (cnt, WantWrite)
    case (Unlock, HoldRead) => (Wrap(cnt - 1), Idle)
    case (Unlock, HoldWrite) => (Wrap(cnt + 1), Idle)
    case _ => (cnt, th)
  }

  function Step(s: State, t: nat, a: Action): State
    requires t < |s.threads|
  {
    var (cnt, th) := Stepped(s.cnt, s.threads[t], a);
    State(cnt, s.threads[t := th])
  }

  /** The state after a run: any threads, any actions, in any order. */
  function Run(s: State, run: seq<(nat, Action)>): (r: State)
    ensures |r.threads| == |s.threads|
  {
    if run == [] then s
    else
      var before, (t, a) := Run(s, run[..|run| - 1]), run[|run| - 1];
      if t < |before.threads| then Step(before, t, a) else before
  }

  // ----- who holds the lock -----

  /** How many threads are at p. */
  function Count(threads: seq<Thread>, p: Thread): (n: nat)
    ensures n <= |threads|
  {
    if threads == [] then 0
    else Count(threads[..|threads| - 1], p) + (if threads[|threads| - 1] == p then 1 else 0)
  }

  lemma {:induction false} CountUpdate(threads: seq<Thread>, t: nat, th: Thread, p: Thread)
    requires t < |threads|
    ensures Count(threads[t := th], p) ==
              Count(threads, p) - (if threads[t] == p then 1 else 0) + (if th == p then 1 else 0)
    decreases |threads|
  {
    var n := |threads| - 1;
    if t == n {
      assert threads[t := th][..n] == threads[..n];
    } else {
      CountUpdate(threads[..n], t, th, p);
      assert threads[t := th][..n] == threads[..n][t := th];
    }
  }

  lemma {:induction false} CountPositive(threads: seq<Thread>, t: nat)
    requires t < |threads|
    ensures Count(threads, threads[t]) > 0
    decreases |threads|
  {
    if t < |threads| - 1 { CountPositive(threads[..|threads| - 1], t); }
  }

  function Readers(s: State): nat { Count(s.threads, HoldRead) }

  function Writers(s: State): nat { Count(s.threads, HoldWrite) }

  /**
   * The counter is -1 while a writer holds the lock and the number of readers otherwise, wrapped
   * once 2^31 readers hold it, from when on no more can enter.
   */
  ghost predicate Consistent(s: State) {
    && Readers(s) <= MAX + 1
    && (Writers(s) == 1 ==> Readers(s) == 0 && s.cnt == -1)
    && (Writers(s) == 0 ==> s.cnt == Wrap(Readers(s)))
    && Writers(s) <= 1
    && forall t :: 0 <= t < |s.threads| && s.threads[t].CasRead? ==> 0 <= s.threads[t].x <= MAX
  }

  lemma StepConsistent(s: State, t: nat, a: Action)
    requires Consistent(s) && t < |s.threads|
    ensures Consistent(Step(s, t, a))
  {
    var (cnt, th) := Stepped(s.cnt, s.threads[t], a);
    CountUpdate(s.threads, t, th, HoldRead);
    CountUpdate(s.threads, t, th, HoldWrite);
    CountPositive(s.threads, t);
  }

  lemma {:induction false} CountIdle(threads: seq<Thread>, p: Thread)
    requires p != Idle && forall t :: 0 <= t < |threads| ==> threads[t] == Idle
    ensures Count(threads, p) == 0
    decreases |threads|
  {
    if threads != [] { CountIdle(threads[..|threads| - 1], p); }
  }

  /** Every reachable state is consistent, for any number of threads and any interleaving. */
  lemma {:induction false} RunConsistent(s: State, run: seq<(nat, Action)>)
    requires Initial(s)
    ensures Consistent(Run(s, run))
    decreases |run|
  {
    if run == [] {
      CountIdle(s.threads, HoldRead);
      CountIdle(s.threads, HoldWrite);
    } else {
      hide Consistent;
      RunConsistent(s, run[..|run| - 1]);
      var before, t := Run(s, run[..|run| - 1]), run[|run| - 1].0;
      if t < |before.threads| { StepConsistent(before, t, run[|run| - 1].1); }
    }
  }

  // ----- what the lock promises -----

  lemma {:induction false} CountTwo(threads: seq<Thread>, t: nat, u: nat)
    requires t < u < |threads| && threads[t] == threads[u]
    ensures Count(threads, threads[t]) >= 2
    decreases |threads|
  {
    var rest := threads[..|threads| - 1];
    if u < |rest| { CountTwo(rest, t, u); } else { CountPositive(rest, t); }
  }

  /** A writer never coexists with another holder. */
  lemma MutualExclusion(s: State, run: seq<(nat, Action)>, t: nat, u: nat)
    requires Initial(s) && t < |s.threads| && u < |s.threads| && t != u
    ensures var now := Run(s, run);
            now.threads[t] == HoldWrite ==> now.threads[u] != HoldWrite && now.threads[u] != HoldRead
  {
    RunConsistent(s, run);
    var threads := Run(s, run).threads;
    if threads[t] == HoldWrite {
      CountPositive(threads, t);
      CountPositive(threads, u);
      if threads[u] == HoldWrite { CountTwo(threads, if t < u then t else u, if t < u then u else t); }
    }
  }

  lemma {:induction false} CountWitness(threads: seq<Thread>, p: Thread) returns (t: nat)
    requires Count(threads, p) > 0
    ensures t < |threads| && threads[t] == p
    decreases |threads|
  {
    var n := |threads| - 1;
    if threads[n] == p { t := n; } else { t := CountWitness(threads[..n], p); }
  }

  /** The counter is -1 exactly when a thread holds the write lock; otherwise it is the number of readers, below 2^31. */
  lemma CounterMeaning(s: State, run: seq<(nat, Action)>)
    requires Initial(s)
    ensures var now := Run(s, run);
            && (now.cnt == -1 <==> HoldWrite in now.threads)
            && (now.cnt != -1 ==> (now.cnt == Readers(now) <==> Readers(now) <= MAX))
  {
    RunConsistent(s, run);
    var now := Run(s, run);
    if Writers(now) > 0 {
      var t := CountWitness(now.threads, HoldWrite);
    } else if t :| 0 <= t < |now.threads| && now.threads[t] == HoldWrite {
      CountPositive(now.threads, t);
    }
  }

  // ----- the limit is met: 2^31 threads wrap the counter -----

  function FirstReaders(n: nat, k: nat): seq<Thread> {
    seq(n, i requires 0 <= i < n => if i < k then HoldRead else Idle)
  }

  /** The first k threads take the read lock one after the other. */
  function Entering(k: nat): seq<(nat, Action)> {
    if k == 0 then [] else Entering(k - 1) + [(k - 1, LockRead)] + [(k - 1, Load)] + [(k - 1, CompareAndSet)]
  }

  lemma RunAppend(s: State, run: seq<(nat, Action)>, t: nat, a: Action)
    requires t < |Run(s, run).threads|
    ensures Run(s, run + [(t, a)]) == Step(Run(s, run), t, a)
  {
    assert (run + [(t, a)])[..|run + [(t, a)]| - 1] == run;
  }

  lemma {:induction false} Enters(s: State, k: nat)
    requires Initial(s) && k <= |s.threads| && k <= MAX + 1
    ensures Run(s, Entering(k)) == State(Wrap(k), FirstReaders(|s.threads|, k))
  {
    var n := |s.threads|;
    if k == 0 {
      assert s.threads == FirstReaders(n, 0);
    } else {
      hide Run, Step, FirstReaders, Wrap;
      var t, run := k - 1, Entering(k - 1);
      Enters(s, t);
      RunAppend(s, run, t, LockRead);
      RunAppend(s, run + [(t, LockRead)], t, Load);
      RunAppend(s, run + [(t, LockRead)] + [(t, Load)], t, CompareAndSet);
      EntersOne(n, t);
    }
  }

  /** One more thread takes the read lock undisturbed. */
  lemma EntersOne(n: nat, t: nat)
    requires t < n && t <= MAX
    ensures var s := State(Wrap(t), FirstReaders(n, t));
            Step(Step(Step(s, t, LockRead), t, Load), t, CompareAndSet) == State(Wrap(t + 1), FirstReaders(n, t + 1))
  {
    var threads := FirstReaders(n, t);
    var a := Step(State(Wrap(t), threads), t, LockRead);
    assert a == State(Wrap(t), threads[t := WantRead]);
    var b := Step(a, t, Load);
    assert b == State(Wrap(t), threads[t := CasRead(t)]);
    var c := Step(b, t, CompareAndSet);
    assert c == State(Wrap(t + 1), threads[t := HoldRead]);
    assert threads[t := HoldRead] == FirstReaders(n, t + 1);
  }

  lemma {:induction false} CountFirst(n: nat, k: nat)
    requires k <= n
    ensures Count(FirstReaders(n, k), HoldRead) == k
  {
    if n > 0 {
      CountFirst(n - 1, if k < n then k else n - 1);
      assert FirstReaders(n, k)[..n - 1] == FirstReaders(n - 1, if k < n then k else n - 1);
    }
  }

  ghost predicate CountsReaders(now: State) {
    now.cnt == -1 || now.cnt == Readers(now)
  }

  /** The counter is always -1 or the number of readers exactly when there are fewer than 2^31 threads. */
  lemma CounterExactIff(s: State)
    requires Initial(s)
    ensures (forall run :: CountsReaders(Run(s, run))) <==> |s.threads| <= MAX
  {
    if |s.threads| <= MAX {
      forall run ensures CountsReaders(Run(s, run)) {
        CounterMeaning(s, run);
        RunConsistent(s, run);
      }
    } else {
      Enters(s, MAX + 1);
      CountFirst(|s.threads|, MAX + 1);
      assert !CountsReaders(Run(s, Entering(MAX + 1)));
    }
  }

  // ----- the lock can be had -----

  /** The three steps of one attempt to take the lock, without another thread in between. */
  function Attempt(s: State, t: nat, a: Action): State
    requires t < |s.threads|
  {
    Step(Step(Step(s, t, a), t, Load), t, CompareAndSet)
  }

  /** An undisturbed attempt to write succeeds iff the counter is 0, and then the counter is -1. */
  lemma WriterEntersIff(s: State, t: nat)
    requires t < |s.threads| && s.threads[t] == Idle
    ensures var r := Attempt(s, t, LockWrite);
            && (r.threads[t] == HoldWrite <==> s.cnt == 0)
            && r.cnt == (if s.cnt == 0 then -1 else s.cnt)
            && (forall u :: 0 <= u < |s.threads| && u != t ==> r.threads[u] == s.threads[u])
  {
  }

  /** An undisturbed attempt to read succeeds iff the counter is not negative, and then counts one more reader. */
  lemma ReaderEntersIff(s: State, t: nat)
    requires t < |s.threads| && s.threads[t] == Idle
    ensures var r := Attempt(s, t, LockRead);
            && (r.threads[t] == HoldRead <==> s.cnt >= 0)
            && (0 <= s.cnt < 0x7fff_ffff ==> r.cnt == s.cnt + 1) && (s.cnt < 0 ==> r.cnt == s.cnt)
            && (forall u :: 0 <= u < |s.threads| && u != t ==> r.threads[u] == s.threads[u])
  {
  }

  /** Releasing the lock leaves the counter as it was before it was taken, and the thread idle. */
  lemma ReleaseUndoes(s: State, t: nat)
    requires t < |s.threads| && s.threads[t] == Idle && 0 <= s.cnt < 0x7fff_ffff
    ensures Step(Attempt(s, t, LockRead), t, Unlock) == s
    ensures s.cnt == 0 ==> Step(Attempt(s, t, LockWrite), t, Unlock) == s
  {
    var r := Step(Attempt(s, t, LockRead), t, Unlock);
    assert r.threads == s.threads;
    if s.cnt == 0 { assert Step(Attempt(s, t, LockWrite), t, Unlock).threads == s.threads; }
  }
}
