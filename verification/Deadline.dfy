/**
Deadline timers: the per-round decrement of src/core/fetch.cpp and src/core/special_reg.cpp, the
test of src/core/regacc.cpp and the write of src/core/except.cpp. A round is one passage of a
hardware thread through the pipeline.
*/
module Deadline {
  import opened Words
  import opened Modular

  const NUM_DEADLINE_TIMERS := 8

  datatype Option<T> = None | Some(value: T)
  datatype Status = UNSET | SET | MISSED

  /** A deadline instruction: bit 0 of rs1 makes it a load, bit 1 a deadline branch. */
  datatype Dead = Dead(rd: nat, value: Word, load: bool, branch: bool)

  /** What fetch finds in a round when the thread is not held by a deadline. */
  datatype Input = FetchStalled | Other | Deadline(dead: Dead) {
    predicate Valid() {
      Deadline? ==> dead.rd < NUM_DEADLINE_TIMERS
    }
  }

  /** The timers, their status, the deadline instruction that holds the thread, and the trap flag. */
  datatype State = State(dt: seq<int>, status: seq<Status>, held: Option<Dead>, trapped: bool) {
    ghost predicate Valid() {
      && |dt| == |status| == NUM_DEADLINE_TIMERS
      && (forall i :: 0 <= i < |dt| ==> -TWO31 <= dt[i] < TWO31)
      && (held.Some? ==> held.value.rd < NUM_DEADLINE_TIMERS)
    }
  }

  /** A 32-bit signed decrement. */
  function Decremented(t: int): (r: int)
    ensures -TWO31 <= r < TWO31
  {
    Signed(Wrap(t - 1))
  }

  /** The test subtracts once more, again in 32 bits. */
  function StatusAfter(t: int, status: Status): Status {
    if Decremented(t) < 0 && status == SET then MISSED else status
  }

  /** decrement_deadline_timers. */
  ghost function Tick(s: State): State
    requires s.Valid()
  {
    var dt := seq(NUM_DEADLINE_TIMERS, i requires 0 <= i < |s.dt| => Decremented(s.dt[i]));
    s.(dt := dt,
       status := seq(NUM_DEADLINE_TIMERS, i requires 0 <= i < |s.dt| && |s.status| == |s.dt| =>
                       StatusAfter(Decremented(s.dt[i]), s.status[i])))
  }

  /** The deadline instruction has been reached, or is a load. */
  predicate Passes(t: int, d: Dead) {
    t <= 0 || d.load
  }

  /** The instruction that the thread works on in this round. */
  function Current(s: State, input: Input): Input {
    if s.held.Some? then Deadline(s.held.value) else input
  }

  /** A whole round of the thread, as far as deadlines are concerned. */
  ghost function Round(s: State, input: Input): (s': State)
    requires s.Valid() && input.Valid()
    ensures s'.Valid()
  {
    var t := Tick(s);
    match Current(s, input)
    case FetchStalled => t
    case Other => Checked(t)
    case Deadline(d) =>
      if Passes(t.dt[d.rd], d) then
        var marked := Checked(t.(held := None, status := t.status[d.rd := if d.branch then SET else UNSET]));
        marked.(dt := t.dt[d.rd := Signed(d.value)])
      else
        Checked(t.(held := Some(d)))
  }

  /** _check_deadline: a missed deadline traps the thread. */
  ghost function Checked(s: State): State {
    if MISSED in s.status then s.(trapped := true) else s
  }

  // ---------------------------------------------------------------------------
  // The stages on the thread's own fields
  // ---------------------------------------------------------------------------

  class DeadlineThread {
    const dt: array<int>
    const status: array<Status>
    var deadlineStalled: bool
    var fetchStalled: bool
    var trapped: bool
    var inst: Option<Dead>
    var writeSpecialRegisters: bool

    ghost predicate Valid()
      reads this, dt, status
    {
      && dt.Length == status.Length == NUM_DEADLINE_TIMERS
      && (deadlineStalled ==> inst.Some? && !fetchStalled && !writeSpecialRegisters)
      && (inst.Some? ==> inst.value.rd < NUM_DEADLINE_TIMERS)
      && forall i :: 0 <= i < dt.Length ==> -TWO31 <= dt[i] < TWO31
    }

    ghost function Abstract(): (s: State)
      reads this, dt, status
      requires Valid()
      ensures s.Valid()
    {
      State(dt[..], status[..], if deadlineStalled then inst else None, trapped)
    }

    method DecrementDeadlineTimers()
      requires Valid()
      modifies dt, status
      ensures Valid() && Abstract() == Tick(old(Abstract()))
    {
      var i := 0;
      while i < NUM_DEADLINE_TIMERS
        invariant 0 <= i <= NUM_DEADLINE_TIMERS && Valid()
        invariant forall k :: 0 <= k < i ==>
                    && dt[k] == Decremented(old(dt[k]))
                    && status[k] == StatusAfter(dt[k], old(status[k]))
        invariant forall k :: i <= k < NUM_DEADLINE_TIMERS ==>
                    dt[k] == old(dt[k]) && status[k] == old(status[k])
      {
        dt[i] := Decremented(dt[i]);
        if Decremented(dt[i]) < 0 && status[i] == SET {
          status[i] := MISSED;
        }
        i := i + 1;
      }
      assert dt[..] == Tick(old(Abstract())).dt;
      assert status[..] == Tick(old(Abstract())).status;
    }

    method Fetch(input: Input)
      requires Valid() && input.Valid()
      modifies this, dt, status
      ensures Valid() && Abstract() == Tick(old(Abstract())) && !writeSpecialRegisters
      ensures fetchStalled <==> Current(old(Abstract()), input).FetchStalled?
      ensures !fetchStalled ==>
                inst == match Current(old(Abstract()), input) { case Deadline(d) => Some(d) case _ => None }
    {
      DecrementDeadlineTimers();
      if deadlineStalled {
        return;
      }
      writeSpecialRegisters := false;
      fetchStalled := input.FetchStalled?;
      inst := if input.Deadline? then Some(input.dead) else None;
    }

    /** _destination_regular_deadlines for the deadline instruction in hand. */
    method DestinationRegularDeadlines()
      requires Valid() && inst.Some? && !fetchStalled && !writeSpecialRegisters
      modifies this, status
      ensures Valid() && inst == old(inst) && !fetchStalled && trapped == old(trapped)
      ensures writeSpecialRegisters <==> dt[inst.value.rd] <= 0 || inst.value.load
      ensures deadlineStalled == !writeSpecialRegisters
      ensures status[..] == if writeSpecialRegisters
                            then old(status[..])[inst.value.rd := if inst.value.branch then SET else UNSET]
                            else old(status[..])
    {
      var d := inst.value;
      if dt[d.rd] <= 0 || d.load {
        writeSpecialRegisters := true;
        deadlineStalled := false;
        if d.branch {
          status[d.rd] := SET;
        } else {
          status[d.rd] := UNSET;
        }
      } else {
        deadlineStalled := true;
      }
    }

    /** _check_deadline over missed_deadline. */
    method CheckDeadline()
      requires Valid()
      modifies this`trapped
      ensures trapped <==> old(trapped) || MISSED in status[..]
    {
      var missed := false;
      var i := 0;
      while i < NUM_DEADLINE_TIMERS
        invariant 0 <= i <= NUM_DEADLINE_TIMERS
        invariant missed <==> MISSED in status[..i]
      {
        if status[i] == MISSED {
          missed := true;
        }
        assert status[..i + 1] == status[..i] + [status[i]];
        i := i + 1;
      }
      assert status[..i] == status[..];
      if missed {
        trapped := true;
      }
    }

    /** Fetch, register access and exception stages in turn. */
    method RunRound(input: Input)
      requires Valid() && input.Valid()
      modifies this, dt, status
      ensures Valid() && Abstract() == Round(old(Abstract()), input)
    {
      hide Tick;
      ghost var ticked := Tick(Abstract());
      Fetch(input);
      if !fetchStalled {
        if inst.Some? {
          DestinationRegularDeadlines();
        }
        CheckDeadline();
        if !deadlineStalled && writeSpecialRegisters {
          dt[inst.value.rd] := Signed(inst.value.value);
        }
      }
    }
  }

  // ---------------------------------------------------------------------------
  // Runs
  // ---------------------------------------------------------------------------

  /** What fetch would find in each round; rounds in which a deadline holds the thread ignore it. */
  type Inputs = nat -> Input

  ghost predicate ValidRun(s: State, env: Inputs) {
    s.Valid() && forall k: nat :: env(k).Valid()
  }

  /** The state before round `n`. */
  ghost function Run(s: State, env: Inputs, n: nat): (r: State)
    requires ValidRun(s, env)
    ensures r.Valid()
  {
    if n == 0 then s else Round(Run(s, env, n - 1), env(n - 1))
  }

  /** The deadline instruction on timer `t` that the thread works on in round `n`, if any. */
  ghost predicate WorksOn(s: State, env: Inputs, n: nat, t: nat, d: Dead)
    requires ValidRun(s, env)
  {
    d.rd == t < NUM_DEADLINE_TIMERS && Current(Run(s, env, n), env(n)) == Deadline(d)
  }

  /** Timer `t` is written by the deadline instruction `d` in round `n`. */
  ghost predicate Writes(s: State, env: Inputs, n: nat, t: nat, d: Dead)
    requires ValidRun(s, env)
  {
    WorksOn(s, env, n, t, d) && Passes(Tick(Run(s, env, n)).dt[t], d)
  }

  ghost predicate NoWrites(s: State, env: Inputs, from: nat, to: nat, t: nat)
    requires ValidRun(s, env)
  {
    forall n: nat, d :: from <= n < to ==> !Writes(s, env, n, t, d)
  }

  lemma TimerAfterRound(s: State, input: Input, t: nat)
    requires s.Valid() && input.Valid() && t < NUM_DEADLINE_TIMERS
    ensures var now := Current(s, input);
            Round(s, input).dt[t] ==
              if now.Deadline? && now.dead.rd == t && Passes(Decremented(s.dt[t]), now.dead)
              then Signed(now.dead.value) else Decremented(s.dt[t])
    ensures Tick(s).dt[t] == Decremented(s.dt[t])
  {
  }

  lemma PlainDecrement(t: int)
    requires -TWO31 < t < TWO31
    ensures Decremented(t) == t - 1
  {
  }

  /** What a 32-bit timer shows `n` rounds after the value `v` was written. */
  function Showing(v: int, n: int): (shown: int)
    ensures -TWO31 <= shown < TWO31
  {
    Signed(Wrap(v - n))
  }

  lemma ShowsNext(v: int, n: int)
    ensures Decremented(Showing(v, n)) == Showing(v, n + 1)
  {
    var x := v - n;
    var q, m := x / TWO32, x % TWO32;
    assert x == TWO32 * q + m;
    if m > 0 {
      Division(x - 1, TWO32, q, m - 1);
    } else {
      Division(x - 1, TWO32, q - 1, TWO32 - 1);
    }
  }

  /** Before it wraps a timer shows the value less the rounds. */
  lemma ShowsPlainly(v: int, n: int)
    requires -TWO31 <= v - n < TWO31
    ensures Showing(v, n) == v - n
  {
  }

  /** From one write to the next a timer shows the value loaded less the rounds, in 32 bits. */
  lemma {:induction false} TimerShows(s: State, env: Inputs, c: nat, k: nat, t: nat, d: Dead)
    requires ValidRun(s, env) && Writes(s, env, c, t, d) && NoWrites(s, env, c + 1, c + 1 + k, t)
    ensures Run(s, env, c + 1 + k).dt[t] == Showing(Signed(d.value), k)
  {
    hide Round, Tick, Decremented, Showing;
    TimerAfterRound(Run(s, env, c + k), env(c + k), t);
    if k == 0 {
      ShowsPlainly(Signed(d.value), 0);
    } else {
      TimerShows(s, env, c, k - 1, t, d);
      ShowsNext(Signed(d.value), k - 1);
      var now := Current(Run(s, env, c + k), env(c + k));
      if now.Deadline? {
        assert !Writes(s, env, c + k, t, now.dead);
      }
    }
  }

  /** Until it wraps that is a plain difference. */
  lemma TimerClock(s: State, env: Inputs, c: nat, k: nat, t: nat, d: Dead)
    requires ValidRun(s, env) && Writes(s, env, c, t, d) && NoWrites(s, env, c + 1, c + 1 + k, t)
    requires Signed(d.value) - k >= -TWO31
    ensures Run(s, env, c + 1 + k).dt[t] == Signed(d.value) - k
  {
    hide Writes, NoWrites, Showing;
    TimerShows(s, env, c, k, t, d);
    ShowsPlainly(Signed(d.value), k);
  }

  /**
   A plain deadline instruction in round `r` passes exactly when the timer, decremented once more,
   shows no positive value.
   */
  lemma PassesExactly(s: State, env: Inputs, c: nat, r: nat, t: nat, d: Dead, e: Dead)
    requires ValidRun(s, env) && c < r && Writes(s, env, c, t, d) && NoWrites(s, env, c + 1, r, t)
    requires WorksOn(s, env, r, t, e) && !e.load
    ensures Writes(s, env, r, t, e) <==> Showing(Signed(d.value), r - c) <= 0
  {
    hide Round, Tick, Decremented, Showing;
    TimerShows(s, env, c, r - c - 1, t, d);
    ShowsNext(Signed(d.value), r - c - 1);
    TimerAfterRound(Run(s, env, r), env(r), t);
  }

  /** The 32-bit timer can be trusted: not long enough overdue to have wrapped to a positive value. */
  predicate Trustworthy(v: int, n: int) {
    n < v || (n - v) % TWO32 <= TWO31
  }

  lemma ShowsNothingPositive(v: int, n: nat)
    requires -TWO31 <= v < TWO31
    ensures (Showing(v, n) <= 0 <==> n >= v) <==> Trustworthy(v, n)
  {
    var x := v - n;
    var q, m := x / TWO32, x % TWO32;
    assert x == TWO32 * q + m;
    if n >= v {
      if m == 0 {
        Division(n - v, TWO32, -q, 0);
      } else {
        Division(n - v, TWO32, -q - 1, TWO32 - m);
      }
    }
  }

  /**
   Passing means that as many rounds as were loaded have gone by, if and only if the instruction is
   not so late that the timer has wrapped.
   */
  lemma PassesAsLoadedExactly(s: State, env: Inputs, c: nat, r: nat, t: nat, d: Dead, e: Dead)
    requires ValidRun(s, env) && c < r && Writes(s, env, c, t, d) && NoWrites(s, env, c + 1, r, t)
    requires WorksOn(s, env, r, t, e) && !e.load
    ensures (Writes(s, env, r, t, e) <==> r >= c + Signed(d.value)) <==> Trustworthy(Signed(d.value), r - c)
  {
    hide Writes, WorksOn, NoWrites, Showing, Trustworthy;
    PassesExactly(s, env, c, r, t, d, e);
    ShowsNothingPositive(Signed(d.value), r - c);
  }

  /** In particular while the value less the rounds still fits in 32 bits. */
  lemma TrustworthyLong(v: int, n: nat)
    requires -TWO31 <= v < TWO31 && v - n >= -TWO31
    ensures Trustworthy(v, n)
  {
  }

  /** Every field after one round, in plain integers. */
  lemma RoundExactly(s: State, input: Input, now: Input, t: nat)
    requires s.Valid() && input.Valid() && t < NUM_DEADLINE_TIMERS
    requires now == match s.held { case Some(d) => Deadline(d) case None => input }
    ensures var s' := Round(s, input);
            var less := if s.dt[t] == -TWO31 then TWO31 - 1 else s.dt[t] - 1;
            var own := now.Deadline? && now.dead.rd == t;
            var written := own && (less <= 0 || now.dead.load);
            && s'.dt[t] == (if written then Signed(now.dead.value) else less)
            && s'.status[t] == (if written then (if now.dead.branch then SET else UNSET)
                                else if s.status[t] == SET && 2 - TWO31 <= s.dt[t] < 2 then MISSED
                                else s.status[t])
            && (own ==> s'.held == if written then None else Some(now.dead))
            && (!now.Deadline? ==> s'.held == None)
            && (s'.trapped <==> s.trapped || (!now.FetchStalled? && MISSED in s'.status))
  {
    hide Tick, Decremented;
    TickValid(s);
    TimerAfterRound(s, input, t);
    StatusAfterRound(s, input, t);
    DecrementedPlainly(s.dt[t]);
  }

  lemma DecrementedPlainly(t: int)
    requires -TWO31 <= t < TWO31
    ensures Decremented(t) == if t == -TWO31 then TWO31 - 1 else t - 1
    ensures Decremented(Decremented(t)) < 0 <==> 2 - TWO31 <= t < 2
  {
  }

  /** A deadline load writes its timer in the round in which it is worked on, whatever the timer shows. */
  lemma LoadPasses(s: State, input: Input, e: Dead)
    requires s.Valid() && input.Valid() && Current(s, input) == Deadline(e) && e.load
    ensures e.rd < NUM_DEADLINE_TIMERS
    ensures var s' := Round(s, input);
            && s'.dt[e.rd] == Signed(e.value) && s'.held == None
            && s'.status[e.rd] == if e.branch then SET else UNSET
  {
    TickValid(s);
    hide Tick;
  }

  lemma LoadInRun(s: State, env: Inputs, r: nat, t: nat, e: Dead)
    requires ValidRun(s, env) && WorksOn(s, env, r, t, e) && e.load
    ensures Writes(s, env, r, t, e)
    ensures Run(s, env, r + 1).dt[t] == Signed(e.value) && Run(s, env, r + 1).held == None
  {
    hide Round, Tick;
    LoadPasses(Run(s, env, r), env(r), e);
  }

  /** Any other deadline instruction holds the thread while its timer shows a positive value. */
  lemma PlainWaits(s: State, input: Input, e: Dead)
    requires s.Valid() && input.Valid() && Current(s, input) == Deadline(e) && !e.load
    ensures e.rd < NUM_DEADLINE_TIMERS
    ensures var s', t := Round(s, input), Decremented(s.dt[e.rd]);
            if t > 0 then s'.held == Some(e) && s'.dt[e.rd] == t
            else s'.held == None && s'.dt[e.rd] == Signed(e.value)
  {
    TickValid(s);
    TimerAfterRound(s, input, e.rd);
    hide Tick;
  }

  /** How many rounds a loaded value lasts. */
  function Lasts(d: Dead): int {
    if Signed(d.value) > 1 then Signed(d.value) else 1
  }

  /** No plain deadline instruction passes early, however long the run. */
  lemma NeverEarly(s: State, env: Inputs, c: nat, r: nat, t: nat, d: Dead, e: Dead)
    requires ValidRun(s, env) && c < r && Writes(s, env, c, t, d) && NoWrites(s, env, c + 1, r, t)
    requires Writes(s, env, r, t, e) && !e.load
    ensures r >= c + Lasts(d)
  {
    hide WorksOn, NoWrites, Showing, Round, Tick;
    PassesExactly(s, env, c, r, t, d, e);
    if r < c + Signed(d.value) {
      ShowsPlainly(Signed(d.value), r - c);
    }
  }

  /** The round in which an instruction that arrives in round `a` passes, for any value and any delay. */
  function PassRound(c: nat, a: nat, d: Dead): int {
    var shown := Showing(Signed(d.value), a - c);
    if shown <= 0 then a else a + shown
  }

  /** That is the later of its arrival and the expiry of the value, while the timer can be trusted. */
  lemma PassRoundAsLoaded(c: nat, a: nat, d: Dead)
    requires c < a && Trustworthy(Signed(d.value), a - c)
    ensures PassRound(c, a, d) == if a > c + Lasts(d) then a else c + Lasts(d)
  {
    hide Trustworthy, Showing;
    ShowsNothingPositive(Signed(d.value), a - c);
    if a < c + Signed(d.value) {
      ShowsPlainly(Signed(d.value), a - c);
    }
  }

  lemma ShowsPositiveUntil(v: int, n: nat, m: nat)
    requires Showing(v, n) > 0 && n <= m <= n + Showing(v, n)
    ensures Showing(v, m) == Showing(v, n) - (m - n)
    decreases m
  {
    hide Showing;
    if m > n {
      ShowsPositiveUntil(v, n, m - 1);
      ShowsNext(v, m - 1);
      PlainDecrement(Showing(v, m - 1));
    }
  }

  /** Until that round the instruction holds the thread. */
  lemma {:induction false} HeldUntil(s: State, env: Inputs, c: nat, a: nat, r: nat, t: nat, d: Dead, e: Dead)
    requires ValidRun(s, env) && Writes(s, env, c, t, d) && NoWrites(s, env, c + 1, a, t)
    requires c < a <= r <= PassRound(c, a, d) && WorksOn(s, env, a, t, e) && !e.load
    ensures WorksOn(s, env, r, t, e) && NoWrites(s, env, c + 1, r, t)
    ensures r > a ==> Run(s, env, r).held == Some(e)
    decreases r
  {
    hide Round, Tick, Passes, Showing;
    if r > a {
      HeldUntil(s, env, c, a, r - 1, t, d, e);
      PassesExactly(s, env, c, r - 1, t, d, e);
      ShowsPositiveUntil(Signed(d.value), a - c, r - 1 - c);
      StaysHeld(Run(s, env, r - 1), env(r - 1), e);
      forall n: nat, x | c + 1 <= n < r
        ensures !Writes(s, env, n, t, x)
      {
        if n == r - 1 && WorksOn(s, env, n, t, x) {
          assert x == e;
        }
      }
    }
  }

  lemma StaysHeld(s: State, input: Input, e: Dead)
    requires s.Valid() && input.Valid() && e.rd < NUM_DEADLINE_TIMERS
    requires Current(s, input) == Deadline(e) && !Passes(Tick(s).dt[e.rd], e)
    ensures Round(s, input).held == Some(e)
  {
    hide Tick;
  }

  /**
   A plain deadline instruction that arrives in round `a` after a write of `d` in round `c` passes
   in exactly the round given above.
   */
  lemma PassesOnTime(s: State, env: Inputs, c: nat, a: nat, t: nat, d: Dead, e: Dead)
    requires ValidRun(s, env) && c < a && Writes(s, env, c, t, d) && NoWrites(s, env, c + 1, a, t)
    requires WorksOn(s, env, a, t, e) && !e.load
    ensures PassRound(c, a, d) >= a
    ensures NoWrites(s, env, c + 1, PassRound(c, a, d), t) && Writes(s, env, PassRound(c, a, d), t, e)
  {
    hide Writes, WorksOn, NoWrites, Showing, Round, Tick, Run, Passes;
    var v, r := Signed(d.value), PassRound(c, a, d);
    HeldUntil(s, env, c, a, r, t, d, e);
    PassesExactly(s, env, c, r, t, d, e);
    if Showing(v, a - c) > 0 {
      ShowsPositiveUntil(v, a - c, r - c);
    }
  }

  // ---------------------------------------------------------------------------
  // Sequences of deadlines
  // ---------------------------------------------------------------------------

  datatype Commit = Commit(round: nat, dead: Dead)

  /** Successive writes of timer `t`, all but the first by plain deadline instructions. */
  ghost predicate Successive(s: State, env: Inputs, t: nat, commits: seq<Commit>)
    requires ValidRun(s, env)
  {
    && (forall i :: 0 <= i < |commits| ==> Writes(s, env, commits[i].round, t, commits[i].dead))
    && (forall i :: 0 < i < |commits| ==>
          && !commits[i].dead.load && commits[i - 1].round < commits[i].round
          && NoWrites(s, env, commits[i - 1].round + 1, commits[i].round, t))
  }

  /** The loaded values of all commits but the last, each lasting at least one round. */
  function TotalLasts(commits: seq<Commit>): int {
    if |commits| <= 1 then 0
    else TotalLasts(commits[..|commits| - 1]) + Lasts(commits[|commits| - 2].dead)
  }

  lemma SuccessivePrefix(s: State, env: Inputs, t: nat, commits: seq<Commit>)
    requires ValidRun(s, env) && Successive(s, env, t, commits) && commits != []
    ensures Successive(s, env, t, commits[..|commits| - 1])
  {
    hide Writes, NoWrites;
  }

  /** The last commit comes no earlier than the sum of the values loaded before it. */
  lemma {:induction false} LastCommitNoEarlier(s: State, env: Inputs, t: nat, commits: seq<Commit>)
    requires ValidRun(s, env) && Successive(s, env, t, commits) && commits != []
    ensures commits[|commits| - 1].round >= commits[0].round + TotalLasts(commits)
  {
    hide Writes, NoWrites;
    if |commits| > 1 {
      SuccessivePrefix(s, env, t, commits);
      LastCommitNoEarlier(s, env, t, commits[..|commits| - 1]);
      var c, e := commits[|commits| - 2], commits[|commits| - 1];
      NeverEarly(s, env, c.round, e.round, t, c.dead, e.dead);
    }
  }

  /** The instruction of commit `e` arrived in round `a`, before the value loaded by `c` expired. */
  ghost predicate InTime(s: State, env: Inputs, t: nat, c: Commit, e: Commit, a: nat)
    requires ValidRun(s, env)
  {
    && c.round < a <= c.round + Lasts(c.dead) && a <= e.round && WorksOn(s, env, a, t, e.dead)
    && Signed(c.dead.value) >= 1 - TWO31
  }

  /** When every instruction arrives in time, the last commit comes at exactly that sum. */
  lemma {:induction false} LastCommitExact(s: State, env: Inputs, t: nat, commits: seq<Commit>, arrivals: seq<nat>)
    requires ValidRun(s, env) && Successive(s, env, t, commits) && commits != []
    requires |arrivals| == |commits| - 1
    requires forall i :: 0 <= i < |arrivals| ==> InTime(s, env, t, commits[i], commits[i + 1], arrivals[i])
    ensures commits[|commits| - 1].round == commits[0].round + TotalLasts(commits)
  {
    hide Writes, NoWrites, WorksOn, InTime, Lasts;
    if |commits| > 1 {
      SuccessivePrefix(s, env, t, commits);
      var i := |arrivals| - 1;
      assert InTime(s, env, t, commits[i], commits[i + 1], arrivals[i]);
      LastCommitExact(s, env, t, commits[..|commits| - 1], arrivals[..i]);
      NextCommitExact(s, env, t, commits[i], commits[i + 1], arrivals[i]);
    }
  }

  lemma NextCommitExact(s: State, env: Inputs, t: nat, c: Commit, e: Commit, a: nat)
    requires ValidRun(s, env) && c.round < e.round && !e.dead.load
    requires Writes(s, env, c.round, t, c.dead) && Writes(s, env, e.round, t, e.dead)
    requires NoWrites(s, env, c.round + 1, e.round, t)
    requires InTime(s, env, t, c, e, a)
    ensures e.round == c.round + Lasts(c.dead)
  {
    hide Writes, WorksOn, Showing, Trustworthy;
    TrustworthyLong(Signed(c.dead.value), a - c.round);
    PassRoundAsLoaded(c.round, a, c.dead);
    PassesOnTime(s, env, c.round, a, t, c.dead, e.dead);
    NeverEarly(s, env, c.round, e.round, t, c.dead, e.dead);
  }

  /** Without deadline branches no deadline is ever missed and the thread is never trapped. */
  lemma {:induction false} NeverTrapped(s: State, env: Inputs, n: nat)
    requires ValidRun(s, env) && Calm(s) && forall k: nat :: env(k).Deadline? ==> !env(k).dead.branch
    ensures Calm(Run(s, env, n))
  {
    hide Calm, Round;
    if n > 0 {
      NeverTrapped(s, env, n - 1);
      CalmRound(Run(s, env, n - 1), env(n - 1));
    }
  }

  ghost predicate Calm(s: State) {
    && !s.trapped && (s.held.Some? ==> !s.held.value.branch)
    && forall i :: 0 <= i < |s.status| ==> s.status[i] == UNSET
  }

  lemma CalmRound(s: State, input: Input)
    requires s.Valid() && input.Valid() && Calm(s) && (input.Deadline? ==> !input.dead.branch)
    ensures Calm(Round(s, input))
  {
  }

  /** The most negative value holds the very next plain deadline instruction. */
  lemma MostNegativeHolds(s: State, env: Inputs, c: nat, t: nat, d: Dead, e: Dead)
    requires ValidRun(s, env) && Writes(s, env, c, t, d) && Signed(d.value) == -TWO31
    requires WorksOn(s, env, c + 1, t, e) && !e.load
    ensures !Writes(s, env, c + 1, t, e)
  {
    hide Writes, WorksOn, Round, Tick, Run;
    PassesExactly(s, env, c, c + 1, t, d, e);
  }

  /** The value 5 - 2^31 holds one that arrives six rounds later, though it is long below zero. */
  lemma LateArrivalHolds(s: State, env: Inputs, c: nat, t: nat, d: Dead, e: Dead)
    requires ValidRun(s, env) && Writes(s, env, c, t, d) && Signed(d.value) == 5 - TWO31
    requires NoWrites(s, env, c + 1, c + 6, t) && WorksOn(s, env, c + 6, t, e) && !e.load
    ensures !Writes(s, env, c + 6, t, e)
  {
    hide Writes, WorksOn, NoWrites, Round, Tick, Run;
    PassesExactly(s, env, c, c + 6, t, d, e);
  }

  // ---------------------------------------------------------------------------
  // Missed deadlines
  // ---------------------------------------------------------------------------

  /**
   The number of rounds after which a deadline branch on the value `v` has missed its deadline: as
   many as were loaded but at least one, and for the two most negative values a wrap more.
   */
  function FirstDue(v: int): int {
    if v < 2 - TWO31 then v + TWO32 else if v > 1 then v else 1
  }

  lemma BelowWhenDue(v: int, k: nat)
    requires -TWO31 <= v < TWO31 && k < FirstDue(v)
    ensures Showing(v, k + 2) < 0 <==> k + 1 == FirstDue(v)
  {
    var x := v - (k + 2);
    if v < 2 - TWO31 {
      if k + 1 == FirstDue(v) {
        Division(x, TWO32, -2, TWO32 - 1);
      } else {
        Division(x, TWO32, -1, x + TWO32);
      }
    } else {
      ShowsPlainly(v, k + 2);
    }
  }

  lemma StatusAfterRound(s: State, input: Input, t: nat)
    requires s.Valid() && input.Valid() && t < NUM_DEADLINE_TIMERS
    ensures var now := Current(s, input);
            Round(s, input).status[t] ==
              if now.Deadline? && now.dead.rd == t && Passes(Decremented(s.dt[t]), now.dead)
              then (if now.dead.branch then SET else UNSET)
              else StatusAfter(Decremented(s.dt[t]), s.status[t])
    ensures Tick(s).status[t] == StatusAfter(Decremented(s.dt[t]), s.status[t])
  {
    hide StatusAfter, Decremented;
  }

  /** The status that a deadline branch on `v` has `k` rounds after it was written. */
  function StatusDue(v: int, k: nat): Status {
    if k >= FirstDue(v) then MISSED else SET
  }

  lemma StatusNext(v: int, k: nat)
    requires -TWO31 <= v < TWO31
    ensures StatusAfter(Showing(v, k + 1), StatusDue(v, k)) == StatusDue(v, k + 1)
  {
    hide Showing, FirstDue, Decremented;
    ShowsNext(v, k + 1);
    if k < FirstDue(v) {
      BelowWhenDue(v, k);
    }
  }

  /** From the write of a deadline branch on, its timer is set until it is due and then missed. */
  lemma {:induction false} StatusRuns(s: State, env: Inputs, c: nat, k: nat, t: nat, d: Dead)
    requires ValidRun(s, env) && Writes(s, env, c, t, d) && d.branch && NoWrites(s, env, c + 1, c + 1 + k, t)
    ensures Run(s, env, c + 1 + k).status[t] == StatusDue(Signed(d.value), k)
  {
    hide Round, Tick, Decremented, Showing, StatusAfter, StatusDue;
    var before, input := Run(s, env, c + k), env(c + k);
    StatusAfterRound(before, input, t);
    TimerAfterRound(before, input, t);
    if k == 0 {
      SetAtFirst(Signed(d.value));
    } else {
      StatusRuns(s, env, c, k - 1, t, d);
      TimerShows(s, env, c, k - 1, t, d);
      ShowsNext(Signed(d.value), k - 1);
      StatusNext(Signed(d.value), k - 1);
      var now := Current(before, input);
      if now.Deadline? {
        assert !Writes(s, env, c + k, t, now.dead);
      }
    }
  }

  lemma SetAtFirst(v: int)
    requires -TWO31 <= v < TWO31
    ensures StatusDue(v, 0) == SET
  {
  }

  /**
   In round `r` the deadline of a branch written in round `c` is marked missed if and only if that
   many rounds have gone by.
   */
  lemma MissedExactly(s: State, env: Inputs, c: nat, r: nat, t: nat, d: Dead)
    requires ValidRun(s, env) && c < r && Writes(s, env, c, t, d) && d.branch && NoWrites(s, env, c + 1, r, t)
    ensures Tick(Run(s, env, r)).status[t] == MISSED <==> r >= c + FirstDue(Signed(d.value))
  {
    hide Round, Tick, Decremented, Showing, StatusAfter, FirstDue;
    var k := r - c - 1;
    StatusRuns(s, env, c, k, t, d);
    TimerShows(s, env, c, k, t, d);
    ShowsNext(Signed(d.value), k);
    StatusNext(Signed(d.value), k);
    StatusAfterRound(Run(s, env, r), env(r), t);
  }

  /** For every value but the two most negative ones, that is the number of rounds loaded. */
  lemma MissedAsLoaded(s: State, env: Inputs, c: nat, r: nat, t: nat, d: Dead)
    requires ValidRun(s, env) && c < r && Writes(s, env, c, t, d) && d.branch && NoWrites(s, env, c + 1, r, t)
    requires Signed(d.value) >= 2 - TWO31
    ensures Tick(Run(s, env, r)).status[t] == MISSED <==> r >= c + Signed(d.value)
  {
    hide Writes, NoWrites, Tick, Run;
    MissedExactly(s, env, c, r, t, d);
  }

  lemma MissedTraps(s: State, input: Input, t: nat)
    requires s.Valid() && input.Valid() && t < NUM_DEADLINE_TIMERS && Tick(s).status[t] == MISSED
    requires !Current(s, input).FetchStalled?
    requires forall d :: Current(s, input) == Deadline(d) && d.rd == t ==> !Passes(Tick(s).dt[t], d)
    ensures Round(s, input).trapped
  {
    hide Tick;
    TickValid(s);
    var ticked := Tick(s);
    match Current(s, input)
    case Other =>
      assert ticked.status[t] == MISSED;
    case Deadline(d) =>
      if Passes(ticked.dt[d.rd], d) {
        var marked := ticked.status[d.rd := if d.branch then SET else UNSET];
        assert marked[t] == MISSED;
      } else {
        assert ticked.status[t] == MISSED;
      }
  }

  /**
   The thread is trapped in the first round from then on in which it fetches and does not write
   that timer anew.
   */
  lemma TrapsWhenDue(s: State, env: Inputs, c: nat, r: nat, t: nat, d: Dead)
    requires ValidRun(s, env) && Writes(s, env, c, t, d) && d.branch && NoWrites(s, env, c + 1, r + 1, t)
    requires c < r && r >= c + FirstDue(Signed(d.value)) && !Current(Run(s, env, r), env(r)).FetchStalled?
    ensures Run(s, env, r + 1).trapped
  {
    hide Round, Tick, FirstDue, Passes;
    MissedExactly(s, env, c, r, t, d);
    TickValid(Run(s, env, r));
    forall e | Current(Run(s, env, r), env(r)) == Deadline(e) && e.rd == t
      ensures !Passes(Tick(Run(s, env, r)).dt[t], e)
    {
      assert !Writes(s, env, r, t, e);
    }
    MissedTraps(Run(s, env, r), env(r), t);
  }

  /** Nothing else traps a thread: some timer was marked missed. */
  lemma TrapCause(s: State, input: Input)
    requires s.Valid() && input.Valid() && !s.trapped && Round(s, input).trapped
    ensures exists t :: 0 <= t < NUM_DEADLINE_TIMERS && Tick(s).status[t] == MISSED
  {
    hide Tick;
    var ticked := Tick(s);
    TickValid(s);
    var now := Current(s, input);
    var seen := if now.Deadline? && Passes(ticked.dt[now.dead.rd], now.dead)
                then ticked.status[now.dead.rd := if now.dead.branch then SET else UNSET] else ticked.status;
    assert MISSED in seen;
    var i :| 0 <= i < |seen| && seen[i] == MISSED;
    assert ticked.status[i] == MISSED;
  }

  lemma TickValid(s: State)
    requires s.Valid()
    ensures Tick(s).Valid() && Tick(s).trapped == s.trapped && Tick(s).held == s.held
  {
  }
}
