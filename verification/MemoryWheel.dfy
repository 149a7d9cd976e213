/**
The memory wheel of src/core/wheeled_mem.cpp: windows owned by the threads in turn, and the
cycles in which a thread may start an access.
*/
module MemoryWheel {
  import opened Pipeline
  import opened Modular

  /** Delays of a wheel and the most words of one access. */
  datatype Wheel = Wheel(latency: nat, throughput: nat, maxWords: nat) {
    predicate Valid() {
      maxWords >= 1
    }

    function GetDelay(words: int): int {
      latency + throughput * (words - 1)
    }

    /** The longest access. */
    function Longest(): int {
      GetDelay(maxWords)
    }

    /** The window size chosen by the constructor. */
    function Window(): int {
      RoundUp(Longest(), NUM_THREADS) + 1
    }
  }

  function RoundUp(x: int, y: int): int
    requires y > 0
  {
    (x + y - 1) / y * y
  }

  /** The wheel of the memory controller: MEM_DELAY - 1 and BURST_DELAY, without bursts. */
  const MAIN_MEMORY := Wheel(14, 4, 1)

  // ---------------------------------------------------------------------------
  // The source's own formulas, and what they mean
  // ---------------------------------------------------------------------------

  /** current_thread. */
  function CurrentThread(w: Wheel, cycles: nat): int
    requires w.Valid() && w.Window() > 0
  {
    var windowCycle := cycles % (w.Window() * NUM_THREADS);
    var tid := windowCycle / w.Window();
    (1 + tid) % NUM_THREADS
  }

  /** is_scheduled. */
  predicate IsScheduled(w: Wheel, cycles: nat, tid: int)
    requires w.Valid() && w.Window() > 0
  {
    tid == CurrentThread(w, cycles) && cycles % w.Window() <= w.Window() - w.Longest()
  }

  /** The first word takes the latency, and each further word the throughput delay more. */
  lemma DelayOfWords(w: Wheel, words: int)
    ensures w.GetDelay(1) == w.latency && w.GetDelay(words + 1) == w.GetDelay(words) + w.throughput
  {
  }

  lemma DelayGrows(w: Wheel, m: int, n: int)
    requires 1 <= m <= n
    ensures 0 <= w.latency <= w.GetDelay(m) <= w.GetDelay(n)
  {
    assert w.throughput * (m - 1) <= w.throughput * (n - 1) by {
      assert w.throughput * (n - 1) == w.throughput * (m - 1) + w.throughput * (n - m);
    }
  }

  /** The window is one more than a multiple of six, and at most six longer than the longest access. */
  lemma WindowSize(w: Wheel)
    requires w.Valid()
    ensures w.Window() > 0 && w.Window() % 6 == 1
    ensures w.Longest() + 1 <= w.Window() <= w.Longest() + 6
    ensures w.Window() - w.Longest() == 1 + (-w.Longest()) % 6
  {
    DelayGrows(w, 1, w.maxWords);
  }

  lemma Distribute(size: int, a: int, b: int)
    ensures size * (6 * a + b) == size * 6 * a + size * b
  {
  }

  lemma WithinSix(size: int, b: int, r: int)
    requires 0 <= b <= 5 && 0 <= r < size
    ensures 0 <= size * b + r < size * 6
  {
  }

  lemma NestedParts(c: int, size: int, a: int, b: int, r: int)
    requires 0 <= b <= 5 && 0 <= r < size && c == size * (6 * a + b) + r
    ensures size * 6 > 0 && c % (size * 6) / size == b
  {
    Distribute(size, a, b);
    WithinSix(size, b, r);
    Division(c, size * 6, a, size * b + r);
    Division(size * b + r, size, b, r);
  }

  lemma Parts(c: nat, size: int)
    requires size > 0
    ensures c / size >= 0 && 0 <= c % size < size && c == size * (c / size) + c % size
  {
  }

  lemma SixParts(q: int)
    ensures 0 <= q % 6 <= 5 && q == 6 * (q / 6) + q % 6
  {
  }

  /** The window within a round of six windows. */
  lemma NestedQuotient(c: nat, size: int)
    requires size > 0
    ensures size * 6 > 0 && c % (size * 6) / size == c / size % 6
  {
    Parts(c, size);
    SixParts(c / size);
    NestedParts(c, size, c / size / 6, c / size % 6, c % size);
  }

  /** The thread that owns a window is the window's number plus one, in rotation. */
  lemma OwnerOfWindow(w: Wheel, cycles: nat)
    requires w.Valid() && w.Window() > 0
    ensures CurrentThread(w, cycles) == (1 + cycles / w.Window()) % 6
  {
    hide *;
    NestedQuotient(cycles, w.Window());
    Rotation(w, cycles);
    AddToBoth(cycles / w.Window() % 6, cycles / w.Window(), 1, 6);
  }

  lemma Rotation(w: Wheel, cycles: nat)
    requires w.Valid() && w.Window() > 0
    ensures CurrentThread(w, cycles) == (1 + cycles % (w.Window() * 6) / w.Window()) % 6
  {
  }

  /** Since the window is one more than a multiple of six, a cycle's phase is window plus offset. */
  lemma Phase(w: Wheel, cycles: nat)
    requires w.Valid() && w.Window() > 0
    ensures cycles % 6 == (cycles / w.Window() + cycles % w.Window()) % 6
  {
    WindowSize(w);
    hide *;
    var size := w.Window();
    var n, o, q := cycles / size, cycles % size, size / 6;
    assert size == 6 * q + 1;
    assert cycles == size * n + o;
    assert size * n == 6 * (q * n) + n;
    assert cycles == n + o + 6 * (q * n);
    AddMultiple(n + o, 6, q * n);
  }

  // ---------------------------------------------------------------------------
  // Admitted accesses do not collide
  // ---------------------------------------------------------------------------

  /** An admitted access of at most the longest length lies wholly in its thread's window. */
  lemma AdmittedFits(w: Wheel, start: nat, tid: int, words: int, cycle: nat)
    requires w.Valid() && w.Window() > 0
    requires IsScheduled(w, start, tid) && 1 <= words <= w.maxWords
    requires start <= cycle < start + w.GetDelay(words)
    ensures CurrentThread(w, cycle) == tid && cycle / w.Window() == start / w.Window()
  {
    DelayGrows(w, words, w.maxWords);
    OwnerOfWindow(w, start);
    OwnerOfWindow(w, cycle);
    SameWindow(w.Window(), start, cycle, w.GetDelay(words));
  }

  lemma SameWindow(size: int, start: nat, cycle: nat, delay: int)
    requires size > 0 && start % size + delay <= size && start <= cycle < start + delay
    ensures cycle / size == start / size
  {
    assert start == size * (start / size) + start % size;
    Division(cycle, size, start / size, cycle - start + start % size);
  }

  /** Accesses of different threads never use the memory in the same cycle. */
  lemma NoOverlap(w: Wheel, a: nat, s: int, m: int, b: nat, t: int, n: int, cycle: nat)
    requires w.Valid() && w.Window() > 0 && s != t
    requires IsScheduled(w, a, s) && 1 <= m <= w.maxWords
    requires IsScheduled(w, b, t) && 1 <= n <= w.maxWords
    requires a <= cycle < a + w.GetDelay(m)
    ensures !(b <= cycle < b + w.GetDelay(n))
  {
    AdmittedFits(w, a, s, m, cycle);
    if b <= cycle < b + w.GetDelay(n) {
      AdmittedFits(w, b, t, n, cycle);
    }
  }

  // ---------------------------------------------------------------------------
  // The slots of the pipeline in the windows of the wheel
  // ---------------------------------------------------------------------------

  /** Thread `tid` is in the fetch stage in this cycle. */
  predicate FetchSlot(cycles: nat, tid: nat) {
    ExpectedLatch(cycles, 0) == Holds(tid)
  }

  /** Thread `tid` is in the memory stage in this cycle. */
  predicate MemSlot(cycles: nat, tid: nat) {
    ExpectedLatch(cycles, 4) == Holds(tid)
  }

  /** In a window of its own a thread's memory slots are at offsets 0, 6, ... and its fetches at 2, 8, ... */
  lemma SlotOffsets(w: Wheel, cycles: nat, tid: nat)
    requires w.Valid() && w.Window() > 0 && CurrentThread(w, cycles) == tid
    ensures MemSlot(cycles, tid) <==> cycles >= 5 && cycles % w.Window() % 6 == 0
    ensures FetchSlot(cycles, tid) <==> cycles >= 1 && cycles % w.Window() % 6 == 2
  {
    OwnerOfWindow(w, cycles);
    Phase(w, cycles);
    hide *;
    SlotsAreCycles(cycles, tid);
    var n, o := cycles / w.Window(), cycles % w.Window();
    SlotArithmetic(cycles, n, o, 0);
    SlotArithmetic(cycles, n, o, 4);
    FourMore(o);
  }

  /** Where a cycle `phase` steps before those of the window's first thread falls in the window. */
  lemma SlotArithmetic(cycles: int, n: int, o: int, phase: int)
    requires 0 <= phase < 6 && cycles % 6 == (n + o) % 6
    ensures (cycles + phase - 5) % 6 == (1 + n) % 6 <==> (o + phase) % 6 == 0
  {
    AddToBoth(cycles, n + o, phase - 5, 6);
    AddMultiple(n + o + phase - 5, 6, 1);
    SameRemainder(o + phase, n + 1);
  }

  lemma FourMore(o: int)
    ensures (o + 4) % 6 == 0 <==> o % 6 == 2
  {
    var p, r := o / 6, o % 6;
    assert o == 6 * p + r;
    if r < 2 {
      Division(o + 4, 6, p, r + 4);
    } else {
      Division(o + 4, 6, p + 1, r - 2);
    }
  }

  lemma SameRemainder(a: int, b: int)
    ensures (a + b) % 6 == b % 6 <==> a % 6 == 0
  {
    var p, r, q, m := a / 6, a % 6, b / 6, b % 6;
    assert a == 6 * p + r && b == 6 * q + m;
    if r + m < 6 {
      Division(a + b, 6, p + q, r + m);
    } else {
      Division(a + b, 6, p + q + 1, r + m - 6);
    }
  }

  lemma SlotsAreCycles(cycles: nat, tid: nat)
    ensures MemSlot(cycles, tid) <==> cycles >= 5 && (cycles - 5) % 6 == tid
    ensures FetchSlot(cycles, tid) <==> cycles >= 1 && (cycles - 1) % 6 == tid
  {
  }

  lemma ScheduledMeans(w: Wheel, cycles: nat, tid: int)
    requires w.Valid() && w.Window() > 0
    ensures IsScheduled(w, cycles, tid) <==>
            tid == CurrentThread(w, cycles) && cycles % w.Window() <= w.Window() - w.Longest()
  {
  }

  lemma AdmittedOffsets(offset: nat, longest: int, latest: int)
    requires latest == 1 + (-longest) % 6
    ensures offset % 6 == 0 && offset <= latest <==> offset == 0 || (offset == 6 && longest % 6 == 1)
    ensures offset % 6 == 2 && offset <= latest <==> offset == 2 && longest % 6 != 0
  {
    assert (-longest) % 6 == if longest % 6 == 0 then 0 else 6 - longest % 6;
  }

  /**
   Exactly which memory slots are admitted: those at offset 0 of a window of the thread, and those
   at offset 6 when the longest access is one more than a multiple of six.
   */
  lemma MemAdmission(w: Wheel, cycles: nat, tid: nat)
    requires w.Valid() && w.Window() > 0 && cycles >= 5
    ensures MemSlot(cycles, tid) && IsScheduled(w, cycles, tid) <==>
            && CurrentThread(w, cycles) == tid
            && (cycles % w.Window() == 0 || (cycles % w.Window() == 6 && w.Longest() % 6 == 1))
  {
    hide *;
    WindowSize(w);
    ScheduledMeans(w, cycles, tid);
    if CurrentThread(w, cycles) == tid {
      SlotOffsets(w, cycles, tid);
      AdmittedOffsets(cycles % w.Window(), w.Longest(), w.Window() - w.Longest());
    }
  }

  /**
   Exactly which fetch slots are admitted: those at offset 2 of a window of the thread, and none
   at all when the longest access is a multiple of six.
   */
  lemma FetchAdmission(w: Wheel, cycles: nat, tid: nat)
    requires w.Valid() && w.Window() > 0 && cycles >= 1
    ensures FetchSlot(cycles, tid) && IsScheduled(w, cycles, tid) <==>
            CurrentThread(w, cycles) == tid && cycles % w.Window() == 2 && w.Longest() % 6 != 0
  {
    hide *;
    WindowSize(w);
    ScheduledMeans(w, cycles, tid);
    if CurrentThread(w, cycles) == tid {
      SlotOffsets(w, cycles, tid);
      AdmittedOffsets(cycles % w.Window(), w.Longest(), w.Window() - w.Longest());
    }
  }

  // ---------------------------------------------------------------------------
  // Bounded waiting
  // ---------------------------------------------------------------------------

  /** The number of the first window that starts in or after the given cycle. */
  function FirstWindow(size: int, cycles: nat): (n: nat)
    requires size > 0
    ensures cycles <= size * n < cycles + size
  {
    (cycles + size - 1) / size
  }

  /** The number of the first window of thread `tid` that starts in or after the given cycle. */
  function NextWindow(size: int, cycles: nat, tid: nat): nat
    requires size > 0 && tid < 6
  {
    var first := FirstWindow(size, cycles);
    first + (tid - 1 - first) % 6
  }

  lemma Rotated(first: nat, tid: nat)
    requires tid < 6
    ensures (1 + first + (tid - 1 - first) % 6) % 6 == tid
  {
    var x := tid - 1 - first;
    assert 1 + first + x % 6 == tid + 6 * (-(x / 6));
    AddMultiple(tid, 6, -(x / 6));
  }

  lemma SizeTimes(size: int, k: int)
    requires size > 0 && 0 <= k <= 5
    ensures 0 <= size * k <= 5 * size
  {
  }

  lemma Monotone(size: int, a: int, b: int)
    requires size > 0 && a <= b
    ensures size * a <= size * b
  {
  }

  lemma TimesSum(size: int, a: int, b: int)
    ensures size * (a + b) == size * a + size * b
  {
  }

  lemma NextWindowIsNext(size: int, cycles: nat, tid: nat)
    requires size > 0 && tid < 6
    ensures var n := NextWindow(size, cycles, tid); (1 + n) % 6 == tid && cycles <= size * n < cycles + 6 * size
  {
    var first := FirstWindow(size, cycles);
    var skip := (tid - 1 - first) % 6;
    Rotated(first, tid);
    TimesSum(size, first, skip);
    SizeTimes(size, skip);
  }

  lemma SixApart(a: int, b: int)
    requires a < b && a % 6 == b % 6
    ensures a + 6 <= b
  {
    assert a == 6 * (a / 6) + a % 6 && b == 6 * (b / 6) + b % 6;
  }

  /** No window of the thread before the next one starts in or after the cycle. */
  lemma LaterWindow(size: int, cycles: nat, tid: nat, m: nat)
    requires size > 0 && tid < 6 && (1 + m) % 6 == tid && size * m >= cycles
    ensures size * m >= size * NextWindow(size, cycles, tid)
  {
    var first, n := FirstWindow(size, cycles), NextWindow(size, cycles, tid);
    if m < n {
      Rotated(first, tid);
      SixApart(1 + m, 1 + n);
      Monotone(size, m + 1, first);
      TimesSum(size, m, 1);
    } else {
      Monotone(size, n, m);
    }
  }

  /** Window `n` starts in cycle `size * n` and belongs to thread `1 + n` in rotation. */
  lemma WindowStart(w: Wheel, n: nat, offset: nat)
    requires w.Valid() && offset < w.Window()
    ensures var c := w.Window() * n + offset;
            c % w.Window() == offset && c / w.Window() == n && CurrentThread(w, c) == (1 + n) % 6
  {
    var c := w.Window() * n + offset;
    assert c >= 0 by {
      Monotone(w.Window(), 0, n);
    }
    Division(c, w.Window(), n, offset);
    OwnerOfWindow(w, c);
  }

  /**
   A memory request of thread `tid` that is pending in any cycle meets an admitted memory slot
   within six windows, whatever the other threads do; and, unless the longest access is one more
   than a multiple of six, no earlier slot of the thread is admitted.
   */
  lemma MemWait(w: Wheel, cycles: nat, tid: nat)
    requires w.Valid() && w.Window() > 0 && cycles >= 5 && tid < 6
    ensures var start := w.Window() * NextWindow(w.Window(), cycles, tid);
            && cycles <= start < cycles + 6 * w.Window()
            && MemSlot(start, tid) && IsScheduled(w, start, tid)
            && (w.Longest() % 6 != 1 ==>
                  forall c: nat :: cycles <= c < start ==> !(MemSlot(c, tid) && IsScheduled(w, c, tid)))
  {
    hide *;
    NextWindowIsNext(w.Window(), cycles, tid);
    var n := NextWindow(w.Window(), cycles, tid);
    WindowStart(w, n, 0);
    MemAdmission(w, w.Window() * n, tid);
    if w.Longest() % 6 != 1 {
      forall c: nat | cycles <= c < w.Window() * n
        ensures !(MemSlot(c, tid) && IsScheduled(w, c, tid))
      {
        if MemSlot(c, tid) && IsScheduled(w, c, tid) {
          MemAdmission(w, c, tid);
          NoEarlierWindow(w, cycles, tid, c);
        }
      }
    }
  }

  lemma WindowOf(size: int, c: nat)
    requires size > 0 && c % size == 0
    ensures c / size >= 0 && c == size * (c / size)
  {
  }

  lemma NoEarlierWindow(w: Wheel, cycles: nat, tid: nat, c: nat)
    requires w.Valid() && w.Window() > 0 && tid < 6
    requires c >= cycles && CurrentThread(w, c) == tid && c % w.Window() == 0
    ensures c >= w.Window() * NextWindow(w.Window(), cycles, tid)
  {
    hide *;
    OwnerOfWindow(w, c);
    WindowOf(w.Window(), c);
    LaterWindow(w.Window(), cycles, tid, c / w.Window());
  }

  lemma FetchNotEarlier(w: Wheel, cycles: nat, tid: nat, c: nat)
    requires w.Valid() && w.Window() > 2 && 1 <= cycles <= c && tid < 6
    requires FetchSlot(c, tid) && IsScheduled(w, c, tid)
    ensures c >= w.Window() * NextWindow(w.Window(), Monus(cycles, 2), tid) + 2
  {
    hide *;
    FetchAdmission(w, c, tid);
    var size := w.Window();
    var n := c / size;
    assert c == size * n + 2;
    WindowStart(w, n, 0);
    OwnerOfWindow(w, c);
    TwoLess(cycles);
    NoEarlierWindow(w, Monus(cycles, 2), tid, c - 2);
  }

  lemma TwoLess(cycles: nat)
    requires cycles >= 1
    ensures Monus(cycles, 2) == if cycles == 1 then 0 else cycles - 2
  {
  }

  lemma Bounded(size: int, q: int)
    requires size > 0 && 0 <= size * q < size * 6
    ensures 0 <= q < 6
  {
  }

  /** A window that starts before six windows have gone by starts at most five windows on. */
  lemma AtMostFive(size: int, n: nat)
    requires size > 2 && size * n < 6 * size
    ensures size * n + 2 < 1 + 6 * size
  {
    Bounded(size, n);
    SizeTimes(size, n);
  }

  /** The same for an instruction fetch, when the longest access is not a multiple of six. */
  lemma FetchWait(w: Wheel, cycles: nat, tid: nat)
    requires w.Valid() && w.Window() > 2 && cycles >= 1 && tid < 6 && w.Longest() % 6 != 0
    ensures var start := w.Window() * NextWindow(w.Window(), Monus(cycles, 2), tid) + 2;
            && cycles <= start < cycles + 6 * w.Window()
            && FetchSlot(start, tid) && IsScheduled(w, start, tid)
            && forall c: nat :: cycles <= c < start ==> !(FetchSlot(c, tid) && IsScheduled(w, c, tid))
  {
    hide *;
    TwoLess(cycles);
    NextWindowIsNext(w.Window(), Monus(cycles, 2), tid);
    var n := NextWindow(w.Window(), Monus(cycles, 2), tid);
    var start := w.Window() * n + 2;
    if cycles == 1 {
      AtMostFive(w.Window(), n);
    }
    WindowStart(w, n, 2);
    FetchAdmission(w, start, tid);
    forall c: nat | cycles <= c < start
      ensures !(FetchSlot(c, tid) && IsScheduled(w, c, tid))
    {
      if FetchSlot(c, tid) && IsScheduled(w, c, tid) {
        FetchNotEarlier(w, cycles, tid, c);
      }
    }
  }

  /** The main memory's windows are 19 cycles long and admit both kinds of request. */
  lemma MainMemoryWindow()
    ensures MAIN_MEMORY.Valid() && MAIN_MEMORY.Window() == 19
    ensures MAIN_MEMORY.Longest() % 6 != 0 && MAIN_MEMORY.Longest() % 6 != 1
  {
  }

  // ---------------------------------------------------------------------------
  // The memory itself
  // ---------------------------------------------------------------------------

  class WheeledMem {
    const wheel: Wheel
    var accessing: bool
    var remainingCycles: int
    var requestedAddr: int
    var mem: map<int, int>

    ghost predicate Valid()
      reads this
    {
      wheel.Valid() && wheel.Window() > 0 && remainingCycles >= 0
    }

    constructor (wheel: Wheel)
      requires wheel.Valid()
      ensures Valid() && this.wheel == wheel && mem == map[] && !accessing
    {
      WindowSize(wheel);
      this.wheel := wheel;
      accessing := false;
      remainingCycles := 0;
      mem := map[];
    }

    /** The thread may start an access or go on with the one it has started. */
    predicate HasTurn(cycles: nat, tid: int)
      reads this
      requires wheel.Valid() && wheel.Window() > 0
    {
      tid == CurrentThread(wheel, cycles) && (IsScheduled(wheel, cycles, tid) || accessing)
    }

    /**
     The requires are the source's own assertions. With a positive latency the flag is never
     raised and a request stalls exactly when the wheel does not admit it; with a latency of zero
     the flag is raised at once and every request stalls.
     */
    method IsStalledHelper(cycles: nat, tid: int, addr: int, words: int) returns (stalled: bool)
      requires Valid() && words >= 1
      requires accessing ==> HasTurn(cycles, tid) && requestedAddr == addr
      modifies this
      ensures Valid() && mem == old(mem)
      ensures old(HasTurn(cycles, tid)) ==>
                accessing == (if old(accessing) then old(remainingCycles) <= 0 else wheel.GetDelay(words) <= 0)
      ensures !old(HasTurn(cycles, tid)) ==> accessing == old(accessing)
      ensures (remainingCycles, requestedAddr) ==
              (if old(HasTurn(cycles, tid)) && !old(accessing) then (wheel.GetDelay(words), addr)
               else (old(remainingCycles), old(requestedAddr)))
      ensures stalled <==> !old(HasTurn(cycles, tid)) || accessing
      ensures wheel.latency > 0 && !old(accessing) ==> !accessing && (stalled <==> !IsScheduled(wheel, cycles, tid))
      ensures wheel.latency == 0 && words == 1 && !old(accessing) ==> stalled
    {
      if tid != CurrentThread(wheel, cycles) || (!IsScheduled(wheel, cycles, tid) && !accessing) {
        return true;
      }
      if !accessing {
        remainingCycles := wheel.GetDelay(words);
        requestedAddr := addr;
      }
      DelayGrows(wheel, 1, words);
      accessing := remainingCycles <= 0;
      stalled := accessing;
    }

    method Write(cycles: nat, tid: int, addr: int, data: int) returns (stalled: bool)
      requires Valid()
      requires accessing ==> HasTurn(cycles, tid) && requestedAddr == addr
      modifies this
      ensures Valid()
      ensures mem == if stalled then old(mem) else old(mem)[addr := data]
      ensures wheel.latency > 0 && !old(accessing) ==> !accessing && (stalled <==> !IsScheduled(wheel, cycles, tid))
      ensures wheel.latency == 0 && !old(accessing) ==> stalled
    {
      stalled := IsStalledHelper(cycles, tid, addr, 1);
      if stalled {
        return;
      }
      mem := mem[addr := data];
    }

    method Behavior()
      requires Valid()
      modifies this
      ensures Valid() && mem == old(mem) && accessing == old(accessing)
      ensures remainingCycles == if old(remainingCycles) > 0 then old(remainingCycles) - 1 else 0
    {
      if remainingCycles != 0 {
        remainingCycles := remainingCycles - 1;
      }
    }
  }
}
