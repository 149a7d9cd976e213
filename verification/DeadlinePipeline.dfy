/**
The deadline instructions of src/core/fetch.cpp, regacc.cpp and except.cpp as stages of the pipeline:
in the interleaved core every thread goes through the rounds of the deadline model.
*/
module DeadlinePipeline {
  import opened Words
  import opened Deadline
  import P = Pipeline

  type AnyState = s: State | s.Valid()
    witness State(seq(NUM_DEADLINE_TIMERS, _ => 0), seq(NUM_DEADLINE_TIMERS, _ => UNSET), None, false)

  type AnyInput = i: Input | i.Valid() witness Other

  /** A hardware thread with the instruction it works on and the decision to write its timer. */
  datatype Thread = Thread(id: nat, state: AnyState, now: AnyInput, writing: bool)

  /** What each thread finds when it fetches in each cycle. */
  type Programs = (nat, nat) -> AnyInput

  // ---------------------------------------------------------------------------
  // The stages
  // ---------------------------------------------------------------------------

  ghost function Fetched(t: Thread, found: AnyInput): Thread {
    t.(state := Tick(t.state), now := Current(t.state, found), writing := false)
  }

  ghost function Accessed(t: Thread): Thread {
    match t.now
    case FetchStalled => t
    case Other => t.(state := Checked(t.state))
    case Deadline(d) =>
      if Passes(t.state.dt[d.rd], d) then
        t.(state := Checked(t.state.(held := None, status := t.state.status[d.rd := if d.branch then SET else UNSET])),
           writing := true)
      else t.(state := Checked(t.state.(held := Some(d))))
  }

  ghost function Committed(t: Thread): Thread {
    if t.now.Deadline? && t.writing
    then t.(state := t.state.(dt := t.state.dt[t.now.dead.rd := Signed(t.now.dead.value)]))
    else t
  }

  /** The six stages; deadlines pass through decode, execute and memory untouched. */
  ghost function DeadlineStages(programs: Programs): P.Stages<Thread, (), (), ()> {
    P.Stages(
      (c: nat, t: Thread, f: ()) => (Fetched(t, programs(t.id, c)), f),
      (c: nat, t: Thread) => t,
      (c: nat, t: Thread) => Accessed(t),
      (c: nat, t: Thread) => t,
      (c: nat, t: Thread, m: ()) => (t, m),
      (c: nat, t: Thread, s: ()) => (Committed(t), s))
  }

  /** The stages one after the other make a round. */
  lemma StagesMakeRound(t: Thread, found: AnyInput)
    ensures Committed(Accessed(Fetched(t, found))).state == Round(t.state, found)
    ensures Committed(Accessed(Fetched(t, found))).id == t.id
  {
    hide Tick;
  }

  // ---------------------------------------------------------------------------
  // The core follows the model
  // ---------------------------------------------------------------------------

  type Pool = P.World<Thread, (), (), ()>

  ghost predicate Numbered(w: Pool) {
    |w.threads| == P.NUM_THREADS && forall t :: 0 <= t < 6 ==> w.threads[t].id == t
  }

  /** What thread `id` finds in its k-th round, which it fetches in cycle 6k + id + 1. */
  function InputsOf(programs: Programs, id: nat): Inputs {
    (k: nat) => programs(id, 6 * k + id + 1)
  }

  lemma InputsValid(s: AnyState, programs: Programs, id: nat)
    ensures ValidRun(s, InputsOf(programs, id))
  {
  }

  lemma InstructionIsRound(programs: Programs, w: Pool, j: nat)
    requires |w.threads| == P.NUM_THREADS
    ensures var t, t' := w.threads[j % 6], P.Partial(DeadlineStages(programs), w, j, 6);
            t'.id == t.id && t'.state == Round(t.state, programs(t.id, j + 1))
  {
    hide Fetched, Accessed, Committed, Round;
    var st, t := DeadlineStages(programs), w.threads[j % 6];
    var fetched := Fetched(t, programs(t.id, j + 1));
    assert P.Partial(st, w, j, 0) == t;
    assert P.Partial(st, w, j, 1) == fetched;
    assert P.Partial(st, w, j, 2) == fetched;
    assert P.Partial(st, w, j, 3) == Accessed(fetched);
    assert P.Partial(st, w, j, 4) == Accessed(fetched);
    assert P.Partial(st, w, j, 5) == Accessed(fetched);
    StagesMakeRound(t, programs(t.id, j + 1));
  }

  lemma TurnOf(k: nat, id: nat)
    requires id < 6
    ensures (6 * k + id) % 6 == id
    ensures forall j :: 6 * k + id < j < 6 * k + id + 6 ==> j % 6 != id
    ensures forall j :: 0 <= j < id ==> j % 6 != id
  {
  }

  /** Executed atomically, a thread has gone through k rounds when its k-th turn comes. */
  lemma {:induction false} AtomicFollowsRun(programs: Programs, w: Pool, id: nat, k: nat)
    requires Numbered(w) && id < 6
    ensures ValidRun(w.threads[id].state, InputsOf(programs, id))
    ensures var t := P.Atomic(DeadlineStages(programs), w, 6 * k + id).threads[id];
            t.id == id && t.state == Run(w.threads[id].state, InputsOf(programs, id), k)
  {
    hide Round, DeadlineStages, P.Partial, P.Atomic;
    InputsValid(w.threads[id].state, programs, id);
    var st := DeadlineStages(programs);
    if k == 0 {
      TurnOf(0, id);
      P.ThreadWaits(st, w, id, 0, id);
      P.AtomicStart(st, w);
    } else {
      var j := 6 * (k - 1) + id;
      AtomicFollowsRun(programs, w, id, k - 1);
      TurnOf(k - 1, id);
      P.AtomicNext(st, w, j);
      P.ThreadWaits(st, w, id, j + 1, j + 6);
      InstructionIsRound(programs, P.Atomic(st, w, j), j);
    }
  }

  /**
   In the pipelined core, after cycle 6k + id + 6, in which thread `id` commits its k-th instruction,
   the thread is where k + 1 rounds of the deadline model put it.
   */
  lemma CoreFollowsRun(programs: Programs, w: Pool, id: nat, k: nat)
    requires Numbered(w) && id < 6
    ensures ValidRun(w.threads[id].state, InputsOf(programs, id))
    ensures P.ExpectedThread(DeadlineStages(programs), w, 6 * k + id + 7, id).state ==
            Run(w.threads[id].state, InputsOf(programs, id), k + 1)
  {
    hide Round, DeadlineStages, P.Partial, P.Atomic, P.ExpectedThread;
    var st, j := DeadlineStages(programs), 6 * k + id;
    TurnOf(k, id);
    P.CommittedState(st, w, j);
    AtomicFollowsRun(programs, w, id, k + 1);
    P.ThreadWaits(st, w, id, j + 1, j + 6);
  }
}
