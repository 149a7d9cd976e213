/**
The six-stage pipeline of src/core/core.cpp, fed by the round-robin thread controller of
src/core/hw_thread_controller.cpp.

A stage acts on the hardware thread found in its latch. The stages are parameters: they may
depend on the cycle number (as the time-triggered memory does) and, beside the thread itself,
three of them act on shared state: fetch on the instruction side, the memory stage on the data
memory, and the exception stage on the controller's synchronization table. Each piece of shared
state belongs to one stage only.
*/
module Pipeline {
  import opened Modular

  const NUM_THREADS := 6

  /** What the shared state of the three stages holds. */
  datatype Shared<F, M, S> = Shared(fetching: F, memory: M, commit: S)

  /** The six stages, from the thread and cycle number to the new thread. */
  datatype Stages<!T, !F, !M, !S> = Stages(
    fetch: (nat, T, F) -> (T, F),
    decode: (nat, T) -> T,
    regacc: (nat, T) -> T,
    execute: (nat, T) -> T,
    memory: (nat, T, M) -> (T, M),
    except: (nat, T, S) -> (T, S))

  // ---------------------------------------------------------------------------
  // The reference: whole instructions, one after the other
  // ---------------------------------------------------------------------------

  /** All threads and the shared state. */
  datatype World<T, F, M, S> = World(threads: seq<T>, shared: Shared<F, M, S>)

  /**
   The thread of instruction `j` after its first `done` stages. Instruction `j` enters the pool
   in cycle `j`, so its stages run in cycles `j + 1` to `j + 6`.
   */
  function Partial<T, F, M, S>(st: Stages<T, F, M, S>, w: World<T, F, M, S>, j: nat, done: nat): T
    requires |w.threads| == NUM_THREADS && done <= 6
    decreases done
  {
    if done == 0 then w.threads[j % 6]
    else
      var t := Partial(st, w, j, done - 1);
      match done
      case 1 => st.fetch(j + 1, t, w.shared.fetching).0
      case 2 => st.decode(j + 2, t)
      case 3 => st.regacc(j + 3, t)
      case 4 => st.execute(j + 4, t)
      case 5 => st.memory(j + 5, t, w.shared.memory).0
      case 6 => st.except(j + 6, t, w.shared.commit).0
  }

  /** Instruction `j` executed as a whole. */
  function Execute<T, F, M, S>(st: Stages<T, F, M, S>, w: World<T, F, M, S>, j: nat): (w': World<T, F, M, S>)
    requires |w.threads| == NUM_THREADS
    ensures |w'.threads| == NUM_THREADS
  {
    World(
      w.threads[j % 6 := Partial(st, w, j, 6)],
      Shared(
        st.fetch(j + 1, Partial(st, w, j, 0), w.shared.fetching).1,
        st.memory(j + 5, Partial(st, w, j, 4), w.shared.memory).1,
        st.except(j + 6, Partial(st, w, j, 5), w.shared.commit).1))
  }

  /** The first `n` instructions executed atomically, threads taking turns. */
  function Atomic<T, F, M, S>(st: Stages<T, F, M, S>, w: World<T, F, M, S>, n: nat): (w': World<T, F, M, S>)
    requires |w.threads| == NUM_THREADS
    ensures |w'.threads| == NUM_THREADS
  {
    if n == 0 then w else Execute(st, Atomic(st, w, n - 1), n - 1)
  }

  lemma {:induction false} AtomicNext<T, F, M, S>(st: Stages<T, F, M, S>, w: World<T, F, M, S>, j: nat)
    requires |w.threads| == NUM_THREADS
    ensures Atomic(st, w, j + 1) == Execute(st, Atomic(st, w, j), j)
  {
  }

  /** Between two of its turns no other instruction touches a thread. */
  lemma {:induction false} ThreadWaits<T, F, M, S>(
      st: Stages<T, F, M, S>, w: World<T, F, M, S>, t: nat, m: nat, n: nat)
    requires |w.threads| == NUM_THREADS && t < 6 && m <= n
    requires forall j :: m <= j < n ==> j % 6 != t
    ensures Atomic(st, w, n).threads[t] == Atomic(st, w, m).threads[t]
    decreases n - m
  {
    hide Partial, Atomic;
    if m < n {
      ThreadWaits(st, w, t, m, n - 1);
      AtomicNext(st, w, n - 1);
    }
  }

  // ---------------------------------------------------------------------------
  // The pipelined core
  // ---------------------------------------------------------------------------

  /** A latch holds a thread identifier or the null handle. */
  datatype Latch = Null | Holds(id: nat)

  /** What latch number `k` (0 is the pool) must hold after `n` calls of behavior. */
  function ExpectedLatch(n: nat, k: nat): Latch {
    if n <= k then Null else Holds((n - 1 - k) % 6)
  }

  lemma LatchesMove(n: nat)
    ensures ExpectedLatch(n + 1, 0) == Holds(n % 6)
    ensures forall k: nat :: ExpectedLatch(n + 1, k + 1) == ExpectedLatch(n, k)
  {
  }

  /** The last instruction of thread `t` that has entered the pool within `n` calls, if any. */
  function Youngest(n: nat, t: nat): (j: int)
    requires t < 6
    ensures j < n && (j >= 0 ==> j % 6 == t && n - 6 <= j)
    ensures j < 0 <==> n <= t
  {
    if n <= t then -1 else n - 1 - (n - 1 - t) % 6
  }

  /** The state of thread `t` after `n` calls: the youngest instruction, partly done. */
  function ExpectedThread<T, F, M, S>(st: Stages<T, F, M, S>, w: World<T, F, M, S>, n: nat, t: nat): T
    requires |w.threads| == NUM_THREADS && t < 6
  {
    var j := Youngest(n, t);
    if j < 0 then w.threads[t] else Partial(st, Atomic(st, w, j), j, n - 1 - j)
  }

  /** What the stage behind latch `k` makes of thread `t` in cycle `c`. */
  function Staged<T, F, M, S>(st: Stages<T, F, M, S>, w: World<T, F, M, S>, c: nat, k: nat, t: T): T
    requires |w.threads| == NUM_THREADS && k < 6 && k < c
  {
    var shared := Atomic(st, w, c - 1 - k).shared;
    match k
    case 0 => st.fetch(c, t, shared.fetching).0
    case 1 => st.decode(c, t)
    case 2 => st.regacc(c, t)
    case 3 => st.execute(c, t)
    case 4 => st.memory(c, t, shared.memory).0
    case 5 => st.except(c, t, shared.commit).0
  }

  lemma LatchesDistinct(c: nat, i: nat, k: nat)
    requires i < k < 6 && k < c
    ensures (c - 1 - i) % 6 != (c - 1 - k) % 6
  {
  }

  /** The only instruction of thread `t` among the last six. */
  lemma YoungestIs(c: nat, t: nat, j: nat)
    requires t < 6 && j % 6 == t && j < c <= j + 6
    ensures Youngest(c, t) == j
  {
    var y := Youngest(c, t);
    assert t <= j by {
      assert j == 6 * (j / 6) + t;
    }
    CloseCongruent(y, j, 6);
  }

  lemma TurnComes(c: nat, t: nat, j: nat)
    requires t < 6 && t < c && j == Youngest(c, t)
    ensures c < j + 6 ==> Youngest(c + 1, t) == j
    ensures c == j + 6 ==> Youngest(c + 1, t) == j + 6
    ensures forall i :: j < i < j + 6 ==> i % 6 != t
  {
    hide Youngest;
    if c < j + 6 {
      YoungestIs(c + 1, t, j);
    } else {
      AddMultiple(j, 6, 1);
      YoungestIs(c + 1, t, j + 6);
    }
    forall i | j < i < j + 6
      ensures i % 6 != t
    {
      if i % 6 == t {
        CloseCongruent(i, j, 6);
      }
    }
  }

  lemma FirstTurn(c: nat, t: nat)
    requires c <= t < 6
    ensures Youngest(c + 1, t) == if t == c then c else -1
    ensures forall i :: 0 <= i < c ==> i % 6 != t
  {
  }

  lemma {:induction false} PartialStart<T, F, M, S>(st: Stages<T, F, M, S>, w: World<T, F, M, S>, j: nat)
    requires |w.threads| == NUM_THREADS
    ensures Partial(st, w, j, 0) == w.threads[j % 6]
  {
  }

  lemma {:induction false} PartialNext<T, F, M, S>(st: Stages<T, F, M, S>, w: World<T, F, M, S>, c: nat, j: nat)
    requires |w.threads| == NUM_THREADS && c - 6 <= j < c
    ensures var start := Atomic(st, w, j);
            Partial(st, start, j, c - j) == Staged(st, w, c, c - 1 - j, Partial(st, start, j, c - 1 - j))
  {
    hide Atomic;
  }

  /** When instruction `j` has done all six stages, its thread is ready for instruction `j + 6`. */
  lemma {:induction false} TurnEnds<T, F, M, S>(st: Stages<T, F, M, S>, w: World<T, F, M, S>, j: nat, t: nat)
    requires |w.threads| == NUM_THREADS && t == j % 6 && forall i :: j < i < j + 6 ==> i % 6 != t
    ensures Partial(st, Atomic(st, w, j + 6), j + 6, 0) == Partial(st, Atomic(st, w, j), j, 6)
  {
    hide Partial, Atomic;
    AtomicNext(st, w, j);
    PartialStart(st, Atomic(st, w, j + 6), j + 6);
    ThreadWaits(st, w, t, j + 1, j + 6);
  }

  /** In every cycle a thread in the pipeline takes one more stage of its youngest instruction. */
  lemma {:induction false} ThreadAdvances<T, F, M, S>(st: Stages<T, F, M, S>, w: World<T, F, M, S>, c: nat, t: nat)
    requires |w.threads| == NUM_THREADS && t < 6 && t < c
    ensures var k := c - 1 - Youngest(c, t);
            && 0 <= k < 6 && k < c
            && ExpectedThread(st, w, c + 1, t) == Staged(st, w, c, k, ExpectedThread(st, w, c, t))
  {
    hide Partial, Atomic, Staged, Youngest;
    var j := Youngest(c, t);
    TurnComes(c, t, j);
    PartialNext(st, w, c, j);
    if c == j + 6 {
      TurnEnds(st, w, j, t);
    }
  }

  lemma {:induction false} ThreadNotStarted<T, F, M, S>(st: Stages<T, F, M, S>, w: World<T, F, M, S>, c: nat, t: nat)
    requires |w.threads| == NUM_THREADS && c <= t < 6
    ensures ExpectedThread(st, w, c + 1, t) == ExpectedThread(st, w, c, t)
  {
    FirstTurn(c, t);
    if t == c {
      ThreadWaits(st, w, t, 0, c);
    }
  }

  /** The latch that holds thread `t` after `c` calls. */
  function LatchIndex(c: nat, t: nat): int
    requires t < 6
  {
    if t < c then c - 1 - Youngest(c, t) else -1
  }

  lemma OneThreadPerLatch(c: nat, k: nat, t: nat)
    requires k < 6 && t < 6 && k < c
    ensures LatchIndex(c, t) == k <==> t == (c - 1 - k) % 6
  {
  }

  lemma {:induction false} ThreadAt<T, F, M, S>(st: Stages<T, F, M, S>, w: World<T, F, M, S>, c: nat, k: nat)
    requires |w.threads| == NUM_THREADS && k < 6 && k < c
    ensures var j := c - 1 - k;
            ExpectedThread(st, w, c, j % 6) == Partial(st, Atomic(st, w, j), j, k)
  {
    hide Partial, Atomic;
    OneThreadPerLatch(c, k, (c - 1 - k) % 6);
  }

  /**
   Every shared part is used by the instructions one after the other, in pool order: in cycle
   `c` instruction `c - 1` is fetched, `c - 5` accesses memory and `c - 6` commits.
   */
  lemma {:induction false} FetchingAdvances<T, F, M, S>(st: Stages<T, F, M, S>, w: World<T, F, M, S>, c: nat)
    requires |w.threads| == NUM_THREADS && c > 0
    ensures Atomic(st, w, c).shared.fetching ==
            st.fetch(c, ExpectedThread(st, w, c, (c - 1) % 6), Atomic(st, w, c - 1).shared.fetching).1
  {
    hide Partial, ExpectedThread, Atomic;
    AtomicNext(st, w, c - 1);
    ThreadAt(st, w, c, 0);
  }

  lemma {:induction false} MemoryAdvances<T, F, M, S>(st: Stages<T, F, M, S>, w: World<T, F, M, S>, c: nat)
    requires |w.threads| == NUM_THREADS && c > 4
    ensures Atomic(st, w, c - 4).shared.memory ==
            st.memory(c, ExpectedThread(st, w, c, (c - 5) % 6), Atomic(st, w, c - 5).shared.memory).1
  {
    hide Partial, ExpectedThread, Atomic;
    AtomicNext(st, w, c - 5);
    ThreadAt(st, w, c, 4);
  }

  lemma {:induction false} CommitAdvances<T, F, M, S>(st: Stages<T, F, M, S>, w: World<T, F, M, S>, c: nat)
    requires |w.threads| == NUM_THREADS && c > 5
    ensures Atomic(st, w, c - 5).shared.commit ==
            st.except(c, ExpectedThread(st, w, c, (c - 6) % 6), Atomic(st, w, c - 6).shared.commit).1
  {
    hide Partial, ExpectedThread, Atomic;
    AtomicNext(st, w, c - 6);
    ThreadAt(st, w, c, 5);
  }

  /**
   Within a call, after the stages behind latches `m` to 5 have run: exactly the threads in
   those latches have taken their stage.
   */
  ghost predicate Swept<T, F, M, S>(st: Stages<T, F, M, S>, w: World<T, F, M, S>, c: nat, m: nat,
                                    before: seq<T>, now: seq<T>)
    requires |w.threads| == NUM_THREADS
  {
    && |before| == 6 && |now| == 6
    && forall t :: 0 <= t < 6 ==>
         var k := LatchIndex(c, t);
         now[t] == if m <= k < 6 then Staged(st, w, c, k, before[t]) else before[t]
  }

  lemma {:induction false} SweepBegins<T, F, M, S>(st: Stages<T, F, M, S>, w: World<T, F, M, S>, c: nat, before: seq<T>)
    requires |w.threads| == NUM_THREADS && |before| == 6
    ensures Swept(st, w, c, 6, before, before)
  {
  }

  lemma {:induction false} SweepNothing<T, F, M, S>(st: Stages<T, F, M, S>, w: World<T, F, M, S>, c: nat, m: nat,
                                 before: seq<T>, now: seq<T>)
    requires |w.threads| == NUM_THREADS && c <= m < 6 && Swept(st, w, c, m + 1, before, now)
    ensures Swept(st, w, c, m, before, now)
  {
  }

  lemma {:induction false} SweepLatch<T, F, M, S>(st: Stages<T, F, M, S>, w: World<T, F, M, S>, c: nat, m: nat,
                               before: seq<T>, now: seq<T>)
    requires |w.threads| == NUM_THREADS && m < 6 && m < c && Swept(st, w, c, m + 1, before, now)
    ensures var id := (c - 1 - m) % 6;
            && now[id] == before[id]
            && Swept(st, w, c, m, before, now[id := Staged(st, w, c, m, before[id])])
  {
    hide Staged, Youngest;
    var id := (c - 1 - m) % 6;
    var after := now[id := Staged(st, w, c, m, before[id])];
    forall t | 0 <= t < 6
      ensures var k := LatchIndex(c, t);
              && (k == m <==> t == id)
              && (t == id ==> now[t] == before[t])
              && after[t] == if m <= k < 6 then Staged(st, w, c, k, before[t]) else before[t]
    {
      OneThreadPerLatch(c, m, t);
    }
  }

  lemma {:induction false} SweepDone<T, F, M, S>(st: Stages<T, F, M, S>, w: World<T, F, M, S>, c: nat,
                              before: seq<T>, now: seq<T>, t: nat)
    requires |w.threads| == NUM_THREADS && t < 6 && Swept(st, w, c, 0, before, now)
    requires before[t] == ExpectedThread(st, w, c, t)
    ensures now[t] == ExpectedThread(st, w, c + 1, t)
  {
    if t < c {
      ThreadAdvances(st, w, c, t);
    } else {
      ThreadNotStarted(st, w, c, t);
    }
  }

  // ---------------------------------------------------------------------------
  // What the stages compute
  // ---------------------------------------------------------------------------

  /** A whole instruction is its six stages one after the other, in six successive cycles. */
  lemma WholeInstruction<T, F, M, S>(st: Stages<T, F, M, S>, w: World<T, F, M, S>, j: nat)
    requires |w.threads| == NUM_THREADS
    ensures var a := Atomic(st, w, j);
            var fetched := st.fetch(j + 1, a.threads[j % 6], a.shared.fetching);
            var executed := st.execute(j + 4, st.regacc(j + 3, st.decode(j + 2, fetched.0)));
            var accessed := st.memory(j + 5, executed, a.shared.memory);
            var committed := st.except(j + 6, accessed.0, a.shared.commit);
            && Atomic(st, w, j + 1).threads == a.threads[j % 6 := committed.0]
            && Atomic(st, w, j + 1).shared == Shared(fetched.1, accessed.1, committed.1)
  {
    AtomicNext(st, w, j);
    hide Atomic;
    StagesInTurn(st, Atomic(st, w, j), j);
    hide Partial;
  }

  lemma StagesInTurn<T, F, M, S>(st: Stages<T, F, M, S>, a: World<T, F, M, S>, j: nat)
    requires |a.threads| == NUM_THREADS
    ensures Partial(st, a, j, 0) == a.threads[j % 6]
    ensures Partial(st, a, j, 4) ==
            st.execute(j + 4,
                       st.regacc(j + 3, st.decode(j + 2, st.fetch(j + 1, a.threads[j % 6], a.shared.fetching).0)))
    ensures Partial(st, a, j, 5) == st.memory(j + 5, Partial(st, a, j, 4), a.shared.memory).0
    ensures Partial(st, a, j, 6) == st.except(j + 6, Partial(st, a, j, 5), a.shared.commit).0
  {
  }

  /** In every cycle the thread in latch `k` goes through the stage behind it. */
  lemma {:induction false} StageOf<T, F, M, S>(st: Stages<T, F, M, S>, w: World<T, F, M, S>, c: nat, k: nat)
    requires |w.threads| == NUM_THREADS && k < 6 && k < c
    ensures var id := (c - 1 - k) % 6;
            ExpectedThread(st, w, c + 1, id) == Staged(st, w, c, k, ExpectedThread(st, w, c, id))
  {
    hide ExpectedThread, Staged, Youngest;
    ThreadInLatch(c, k);
    Entered(c, k);
    ThreadAdvances(st, w, c, (c - 1 - k) % 6);
  }

  lemma Entered(c: nat, k: nat)
    requires k < 6 && k < c
    ensures (c - 1 - k) % 6 < c
  {
  }

  // ---------------------------------------------------------------------------
  // Consequences for whole runs
  // ---------------------------------------------------------------------------

  /** From the sixth call on the six latches hold six different threads. */
  lemma SixDistinctThreads(n: nat)
    requires n >= 6
    ensures forall k :: 0 <= k < 6 ==> ExpectedLatch(n, k).Holds? && ExpectedLatch(n, k).id < 6
    ensures forall i, k :: 0 <= i < k < 6 ==> ExpectedLatch(n, i) != ExpectedLatch(n, k)
  {
    forall i, k | 0 <= i < k < 6
      ensures ExpectedLatch(n, i) != ExpectedLatch(n, k)
    {
      LatchesDistinct(n, i, k);
    }
  }

  /**
   Instruction `j` commits in cycle `j + 6`, and then its thread is as the atomic execution of
   the first `j + 1` instructions leaves it; its next fetch comes only in the cycle after.
   */
  lemma {:induction false} CommittedState<T, F, M, S>(st: Stages<T, F, M, S>, w: World<T, F, M, S>, j: nat)
    requires |w.threads| == NUM_THREADS
    ensures ExpectedThread(st, w, j + 7, j % 6) == Atomic(st, w, j + 1).threads[j % 6]
    ensures ExpectedLatch(j + 6, 5) == Holds(j % 6) == ExpectedLatch(j + 7, 0)
  {
    hide Partial, Atomic, Staged;
    ThreadInLatch(j + 7, 0);
    TurnComes(j + 6, j % 6, j);
    TurnEnds(st, w, j, j % 6);
    AtomicNext(st, w, j);
  }

  lemma ThreadInLatch(c: nat, k: nat)
    requires k < 6 && k < c
    ensures Youngest(c, (c - 1 - k) % 6) == c - 1 - k
  {
  }

  /** Completing the instructions in flight after `n` calls gives the atomic execution of `n`. */
  lemma {:induction false} DrainedState<T, F, M, S>(st: Stages<T, F, M, S>, w: World<T, F, M, S>, n: nat, t: nat)
    requires |w.threads| == NUM_THREADS && t < 6
    ensures Atomic(st, w, n).threads[t] ==
            var j := Youngest(n, t);
            if j < 0 then w.threads[t] else Partial(st, Atomic(st, w, j), j, 6)
  {
    hide Partial, Atomic;
    var j := Youngest(n, t);
    if j < 0 {
      FirstTurn(n, t);
      ThreadWaits(st, w, t, 0, n);
      AtomicStart(st, w);
    } else {
      TurnComes(n, t, j);
      AtomicNext(st, w, j);
      ThreadWaits(st, w, t, j + 1, n);
    }
  }

  lemma {:induction false} AtomicStart<T, F, M, S>(st: Stages<T, F, M, S>, w: World<T, F, M, S>)
    requires |w.threads| == NUM_THREADS
    ensures Atomic(st, w, 0) == w
  {
  }

  /** No stage lets the shared state influence the thread. */
  ghost predicate ThreadLocal<T(!new), F(!new), M(!new), S(!new)>(st: Stages<T, F, M, S>) {
    && (forall c, t, x, y :: st.fetch(c, t, x).0 == st.fetch(c, t, y).0)
    && (forall c, t, x, y :: st.memory(c, t, x).0 == st.memory(c, t, y).0)
    && (forall c, t, x, y :: st.except(c, t, x).0 == st.except(c, t, y).0)
  }

  lemma {:induction false} SamePartial<T(!new), F(!new), M(!new), S(!new)>(
      st: Stages<T, F, M, S>, w: World<T, F, M, S>, w': World<T, F, M, S>, j: nat, done: nat)
    requires |w.threads| == NUM_THREADS == |w'.threads| && ThreadLocal(st) && done <= 6
    requires w.threads[j % 6] == w'.threads[j % 6]
    ensures Partial(st, w, j, done) == Partial(st, w', j, done)
    decreases done
  {
    if done > 0 {
      SamePartial(st, w, w', j, done - 1);
    }
  }

  lemma {:induction false} SameAtomic<T(!new), F(!new), M(!new), S(!new)>(
      st: Stages<T, F, M, S>, w: World<T, F, M, S>, w': World<T, F, M, S>, n: nat, t: nat)
    requires |w.threads| == NUM_THREADS == |w'.threads| && ThreadLocal(st) && t < 6
    requires w.threads[t] == w'.threads[t]
    ensures Atomic(st, w, n).threads[t] == Atomic(st, w', n).threads[t]
  {
    hide Partial;
    if n > 0 {
      SameAtomic(st, w, w', n - 1, t);
      if (n - 1) % 6 == t {
        SamePartial(st, Atomic(st, w, n - 1), Atomic(st, w', n - 1), n - 1, 6);
      }
    }
  }

  /** With thread-local stages a thread never depends on the other threads or on shared state. */
  lemma {:induction false} Isolation<T(!new), F(!new), M(!new), S(!new)>(
      st: Stages<T, F, M, S>, w: World<T, F, M, S>, w': World<T, F, M, S>, n: nat, t: nat)
    requires |w.threads| == NUM_THREADS == |w'.threads| && ThreadLocal(st) && t < 6
    requires w.threads[t] == w'.threads[t]
    ensures ExpectedThread(st, w, n, t) == ExpectedThread(st, w', n, t)
  {
    hide Partial, Atomic;
    var j := Youngest(n, t);
    if j >= 0 {
      SameAtomic(st, w, w', j, t);
      SamePartial(st, Atomic(st, w, j), Atomic(st, w', j), j, n - 1 - j);
    }
  }

  function Monus(n: nat, k: nat): nat {
    if n < k then 0 else n - k
  }

  lemma LatchIds(c: nat)
    ensures forall k: nat :: k < 6 ==> ExpectedLatch(c, k) == if k < c then Holds((c - 1 - k) % 6) else Null
  {
  }

  lemma ShiftedParts(c: nat)
    ensures c > 0 ==> Monus(c, 1) == c - 1 && Monus(c + 1, 1) == c
    ensures c > 4 ==> Monus(c, 5) == c - 5 && Monus(c + 1, 5) == c - 4
    ensures c > 5 ==> Monus(c, 6) == c - 6 && Monus(c + 1, 6) == c - 5
  {
  }

  /** What each stage does in cycle `c`, if there is a thread for it. */
  lemma StageEffects<T, F, M, S>(st: Stages<T, F, M, S>, w: World<T, F, M, S>, c: nat)
    requires |w.threads| == NUM_THREADS
    ensures c > 0 ==>
              var id, f := (c - 1) % 6, Atomic(st, w, c - 1).shared.fetching;
              var r := st.fetch(c, ExpectedThread(st, w, c, id), f);
              ExpectedThread(st, w, c + 1, id) == r.0 && Atomic(st, w, c).shared.fetching == r.1
    ensures c > 1 ==>
              var id := (c - 2) % 6; ExpectedThread(st, w, c + 1, id) == st.decode(c, ExpectedThread(st, w, c, id))
    ensures c > 2 ==>
              var id := (c - 3) % 6; ExpectedThread(st, w, c + 1, id) == st.regacc(c, ExpectedThread(st, w, c, id))
    ensures c > 3 ==>
              var id := (c - 4) % 6; ExpectedThread(st, w, c + 1, id) == st.execute(c, ExpectedThread(st, w, c, id))
    ensures c > 4 ==>
              var id, m := (c - 5) % 6, Atomic(st, w, c - 5).shared.memory;
              var r := st.memory(c, ExpectedThread(st, w, c, id), m);
              ExpectedThread(st, w, c + 1, id) == r.0 && Atomic(st, w, c - 4).shared.memory == r.1
    ensures c > 5 ==>
              var id, s := (c - 6) % 6, Atomic(st, w, c - 6).shared.commit;
              var r := st.except(c, ExpectedThread(st, w, c, id), s);
              ExpectedThread(st, w, c + 1, id) == r.0 && Atomic(st, w, c - 5).shared.commit == r.1
  {
    hide ExpectedThread, Atomic;
    if c > 0 {
      StageOf(st, w, c, 0);
      FetchingAdvances(st, w, c);
    }
    if c > 1 {
      StageOf(st, w, c, 1);
    }
    if c > 2 {
      StageOf(st, w, c, 2);
    }
    if c > 3 {
      StageOf(st, w, c, 3);
    }
    if c > 4 {
      StageOf(st, w, c, 4);
      MemoryAdvances(st, w, c);
    }
    if c > 5 {
      StageOf(st, w, c, 5);
      CommitAdvances(st, w, c);
    }
  }

  class Core<T(0), F, M, S> {
    const st: Stages<T, F, M, S>
    ghost const initial: World<T, F, M, S>

    const threads: array<T>
    var fetching: F
    var memory: M
    var commit: S

    var poolToF: Latch
    var fToD: Latch
    var dToRa: Latch
    var raToEx: Latch
    var exToMem: Latch
    var memToExcept: Latch
    var tcount: nat
    var cycles: nat

    /** After `cycles` calls the core is where the atomic execution says it should be. */
    ghost predicate Valid()
      reads this, threads
    {
      && threads.Length == 6 && |initial.threads| == 6 && tcount == cycles
      && poolToF == ExpectedLatch(cycles, 0) && fToD == ExpectedLatch(cycles, 1)
      && dToRa == ExpectedLatch(cycles, 2) && raToEx == ExpectedLatch(cycles, 3)
      && exToMem == ExpectedLatch(cycles, 4) && memToExcept == ExpectedLatch(cycles, 5)
      && (forall t :: 0 <= t < 6 ==> threads[t] == ExpectedThread(st, initial, cycles, t))
      && fetching == Atomic(st, initial, Monus(cycles, 1)).shared.fetching
      && memory == Atomic(st, initial, Monus(cycles, 5)).shared.memory
      && commit == Atomic(st, initial, Monus(cycles, 6)).shared.commit
    }

    constructor (st: Stages<T, F, M, S>, pool: seq<T>, f: F, m: M, s: S)
      requires |pool| == 6
      ensures Valid() && cycles == 0 && fresh(threads)
      ensures this.st == st && initial == World(pool, Shared(f, m, s))
    {
      this.st := st;
      initial := World(pool, Shared(f, m, s));
      threads := new T[6](i requires 0 <= i < 6 => pool[i]);
      fetching, memory, commit := f, m, s;
      poolToF, fToD, dToRa, raToEx, exToMem, memToExcept := Null, Null, Null, Null, Null, Null;
      tcount, cycles := 0, 0;
    }

    /** The threads as the stages behind latches `m` to 5 have left them within a call. */
    ghost predicate Sweeping(before: seq<T>, m: nat)
      reads `cycles, threads
    {
      && threads.Length == 6 && |initial.threads| == 6 && |before| == 6
      && (forall t :: 0 <= t < 6 ==> before[t] == ExpectedThread(st, initial, cycles, t))
      && Swept(st, initial, cycles, m, before, threads[..])
    }

    /** except::behavior on the thread in the last latch. */
    method ExceptStage(ghost before: seq<T>)
      requires Sweeping(before, 6) && memToExcept == ExpectedLatch(cycles, 5)
      requires commit == Atomic(st, initial, Monus(cycles, 6)).shared.commit
      modifies threads, this`commit
      ensures Sweeping(before, 5)
      ensures commit == Atomic(st, initial, Monus(cycles + 1, 6)).shared.commit
    {
      hide ExpectedThread, Atomic, Swept;
      if memToExcept.Holds? {
        SweepLatch(st, initial, cycles, 5, before, threads[..]);
        CommitAdvances(st, initial, cycles);
        ghost var after := threads[..][memToExcept.id := Staged(st, initial, cycles, 5, before[memToExcept.id])];
        var r := st.except(cycles, threads[memToExcept.id], commit);
        threads[memToExcept.id], commit := r.0, r.1;
        assert threads[..] == after;
      } else {
        SweepNothing(st, initial, cycles, 5, before, threads[..]);
      }
    }

    /** mem::behavior. */
    method MemoryStage(ghost before: seq<T>)
      requires Sweeping(before, 5) && exToMem == ExpectedLatch(cycles, 4)
      requires memory == Atomic(st, initial, Monus(cycles, 5)).shared.memory
      modifies threads, this`memory
      ensures Sweeping(before, 4)
      ensures memory == Atomic(st, initial, Monus(cycles + 1, 5)).shared.memory
    {
      hide ExpectedThread, Atomic, Swept;
      if exToMem.Holds? {
        SweepLatch(st, initial, cycles, 4, before, threads[..]);
        MemoryAdvances(st, initial, cycles);
        ghost var after := threads[..][exToMem.id := Staged(st, initial, cycles, 4, before[exToMem.id])];
        var r := st.memory(cycles, threads[exToMem.id], memory);
        threads[exToMem.id], memory := r.0, r.1;
        assert threads[..] == after;
      } else {
        SweepNothing(st, initial, cycles, 4, before, threads[..]);
      }
    }

    /** execute::behavior. */
    method ExecuteStage(ghost before: seq<T>)
      requires Sweeping(before, 4) && raToEx == ExpectedLatch(cycles, 3)
      modifies threads
      ensures Sweeping(before, 3)
    {
      hide ExpectedThread, Atomic, Swept;
      if raToEx.Holds? {
        SweepLatch(st, initial, cycles, 3, before, threads[..]);
        ghost var after := threads[..][raToEx.id := Staged(st, initial, cycles, 3, before[raToEx.id])];
        threads[raToEx.id] := st.execute(cycles, threads[raToEx.id]);
        assert threads[..] == after;
      } else {
        SweepNothing(st, initial, cycles, 3, before, threads[..]);
      }
    }

    /** regacc::behavior. */
    method RegaccStage(ghost before: seq<T>)
      requires Sweeping(before, 3) && dToRa == ExpectedLatch(cycles, 2)
      modifies threads
      ensures Sweeping(before, 2)
    {
      hide ExpectedThread, Atomic, Swept;
      if dToRa.Holds? {
        SweepLatch(st, initial, cycles, 2, before, threads[..]);
        ghost var after := threads[..][dToRa.id := Staged(st, initial, cycles, 2, before[dToRa.id])];
        threads[dToRa.id] := st.regacc(cycles, threads[dToRa.id]);
        assert threads[..] == after;
      } else {
        SweepNothing(st, initial, cycles, 2, before, threads[..]);
      }
    }

    /** decode::behavior. */
    method DecodeStage(ghost before: seq<T>)
      requires Sweeping(before, 2) && fToD == ExpectedLatch(cycles, 1)
      modifies threads
      ensures Sweeping(before, 1)
    {
      hide ExpectedThread, Atomic, Swept;
      if fToD.Holds? {
        SweepLatch(st, initial, cycles, 1, before, threads[..]);
        ghost var after := threads[..][fToD.id := Staged(st, initial, cycles, 1, before[fToD.id])];
        threads[fToD.id] := st.decode(cycles, threads[fToD.id]);
        assert threads[..] == after;
      } else {
        SweepNothing(st, initial, cycles, 1, before, threads[..]);
      }
    }

    /** fetch::behavior on the thread offered by the controller. */
    method FetchStage(ghost before: seq<T>)
      requires Sweeping(before, 1) && poolToF == ExpectedLatch(cycles, 0)
      requires fetching == Atomic(st, initial, Monus(cycles, 1)).shared.fetching
      modifies threads, this`fetching
      ensures Sweeping(before, 0)
      ensures fetching == Atomic(st, initial, Monus(cycles + 1, 1)).shared.fetching
    {
      hide ExpectedThread, Atomic, Swept;
      if poolToF.Holds? {
        SweepLatch(st, initial, cycles, 0, before, threads[..]);
        FetchingAdvances(st, initial, cycles);
        ghost var after := threads[..][poolToF.id := Staged(st, initial, cycles, 0, before[poolToF.id])];
        var r := st.fetch(cycles, threads[poolToF.id], fetching);
        threads[poolToF.id], fetching := r.0, r.1;
        assert threads[..] == after;
      } else {
        SweepNothing(st, initial, cycles, 0, before, threads[..]);
      }
    }

    /** The stages of one cycle, last stage first, each passing its thread to the next latch. */
    method RunStages(ghost before: seq<T>)
      requires Valid() && Sweeping(before, 6)
      modifies threads, `fetching, `memory, `commit, `fToD, `dToRa, `raToEx, `exToMem, `memToExcept
      ensures Sweeping(before, 0)
      ensures fToD == old(poolToF) && dToRa == old(fToD) && raToEx == old(dToRa)
      ensures exToMem == old(raToEx) && memToExcept == old(exToMem)
      ensures fetching == Atomic(st, initial, Monus(cycles + 1, 1)).shared.fetching
      ensures memory == Atomic(st, initial, Monus(cycles + 1, 5)).shared.memory
      ensures commit == Atomic(st, initial, Monus(cycles + 1, 6)).shared.commit
    {
      hide ExpectedThread, Atomic, ExpectedLatch, Monus, Sweeping;
      ExceptStage(before);
      MemoryStage(before);
      memToExcept := exToMem;
      ExecuteStage(before);
      exToMem := raToEx;
      RegaccStage(before);
      raToEx := dToRa;
      DecodeStage(before);
      dToRa := fToD;
      FetchStage(before);
      fToD := poolToF;
    }

    /**
     One clock cycle: the stages, then the thread and cycle counters. Each stage works on the thread
     that its latch held before the cycle, and every latch is passed on.
     */
    method Behavior()
      requires Valid()
      modifies this, threads
      ensures Valid() && cycles == old(cycles) + 1
      ensures old(poolToF).Holds? ==>
                var r := st.fetch(old(cycles), old(threads[poolToF.id]), old(fetching));
                threads[old(poolToF).id] == r.0 && fetching == r.1
      ensures old(fToD).Holds? ==> threads[old(fToD).id] == st.decode(old(cycles), old(threads[fToD.id]))
      ensures old(dToRa).Holds? ==> threads[old(dToRa).id] == st.regacc(old(cycles), old(threads[dToRa.id]))
      ensures old(raToEx).Holds? ==> threads[old(raToEx).id] == st.execute(old(cycles), old(threads[raToEx.id]))
      ensures old(exToMem).Holds? ==>
                var r := st.memory(old(cycles), old(threads[exToMem.id]), old(memory));
                threads[old(exToMem).id] == r.0 && memory == r.1
      ensures old(memToExcept).Holds? ==>
                var r := st.except(old(cycles), old(threads[memToExcept.id]), old(commit));
                threads[old(memToExcept).id] == r.0 && commit == r.1
      ensures poolToF == Holds(old(tcount) % 6) && fToD == old(poolToF) && dToRa == old(fToD)
      ensures raToEx == old(dToRa) && exToMem == old(raToEx) && memToExcept == old(exToMem)
    {
      hide ExpectedThread, Atomic, Swept, Monus, Staged;
      LatchIds(cycles);
      hide ExpectedLatch;
      LatchesMove(cycles);
      ghost var before, c := threads[..], cycles;
      StageEffects(st, initial, c);
      ShiftedParts(c);
      SweepBegins(st, initial, cycles, before);
      RunStages(before);
      forall t | 0 <= t < 6
        ensures threads[t] == ExpectedThread(st, initial, cycles + 1, t)
      {
        SweepDone(st, initial, cycles, before, threads[..], t);
      }
      poolToF := Holds(tcount % 6);
      tcount := tcount + 1;
      cycles := cycles + 1;
    }
  }
}
