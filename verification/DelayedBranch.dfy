/**
Delayed control transfer in src/core/except.cpp. The simulator keeps a program counter and a
branch slot that is zero when empty; the SPARC architecture (The SPARC Architecture Manual
Version 8, section 4.1 and sections B.21, B.24 and B.25) is defined over the pair (PC, nPC).
*/
module DelayedBranch {
  import opened Words
  import opened Alu
  import opened Modular

  /**
   An instruction as seen by inc_pc. A displacement counts words; a jump carries the address
   computed by the ALU, and whether its destination register can hold the link value.
   */
  datatype Instr =
    | Plain
    | Bicc(cond: Condition, annul: bool, disp: int)
    | Call(disp: int)
    | Jump(target: Word, linked: bool)

  /** branch_check. */
  predicate Branches(i: Instr, icc: Icc) {
    i.Call? || (i.Bicc? && BranchTaken(i.cond, icc))
  }

  predicate BranchAlwaysAnnul(i: Instr) {
    i.Bicc? && i.annul && i.cond == BA
  }

  /** addr_calc: the instruction's own program counter field is never set and stays zero. */
  function AddrCalc(i: Instr): int
    requires i.Bicc? || i.Call?
  {
    0 + i.disp * 4
  }

  // ---------------------------------------------------------------------------
  // The simulator's program counter and branch slot
  // ---------------------------------------------------------------------------

  datatype Flow = Flow(pc: Word, slot: Word)

  /** The instruction after the current one, as regdump reads it off the pair. */
  function NextPc(f: Flow): Word {
    if f.slot == 0 then Wrap(f.pc + 4) else f.slot
  }

  /** What inc_pc does to the pair. */
  function Advance(f: Flow, i: Instr, icc: Icc): Flow {
    var pc := NextPc(f);
    if Branches(i, icc) then
      var target := Wrap(pc + AddrCalc(i) - 4);
      if BranchAlwaysAnnul(i) then Flow(target, 0) else Flow(pc, target)
    else match i
      case Jump(target, _) => Flow(pc, target)
      case Bicc(_, annul, _) => if annul then Flow(Wrap(pc + 4), 0) else Flow(pc, 0)
      case _ => Flow(pc, 0)
  }

  /** The value that a CALL or JMPL leaves for its destination register. */
  function Link(f: Flow): Word {
    Wrap(NextPc(f) - 4)
  }

  class ExceptStage {
    var pc: Word
    var branchSlot: Word
    var icc: Icc
    var aluResult: Word

    ghost function Pair(): Flow
      reads this
    {
      Flow(pc, branchSlot)
    }

    /**
     While the flag of a double-word instruction is set, a filled branch slot is not taken; such an
     instruction transfers no control itself.
     */
    method IncPc(i: Instr, dbWord: bool, writeIcc: bool, newIcc: Icc)
      requires i.Jump? ==> aluResult == i.target
      requires dbWord ==> i.Plain?
      modifies this
      ensures icc == if writeIcc then newIcc else old(icc)
      ensures Pair() == if dbWord && old(branchSlot) != 0 then old(Pair()) else Advance(old(Pair()), i, icc)
      ensures aluResult == if i.Jump? || i.Call? then Link(old(Pair())) else old(aluResult)
    {
      if writeIcc {
        icc := newIcc;
      }
      if branchSlot != 0 {
        if !dbWord {
          pc := branchSlot;
          branchSlot := 0;
        }
      } else {
        pc := Wrap(pc + 4);
      }
      if Branches(i, icc) {
        if !BranchAlwaysAnnul(i) {
          branchSlot := Wrap(pc + AddrCalc(i) - 4);
        } else {
          pc := Wrap(pc + AddrCalc(i) - 4);
        }
      } else if i.Jump? {
        branchSlot := aluResult;
      } else if i.Bicc? && i.annul {
        pc := Wrap(pc + 4);
      }
      if i.Jump? || i.Call? {
        aluResult := Wrap(pc - 4);
      }
    }
  }

  // ---------------------------------------------------------------------------
  // The architecture's PC and nPC
  // ---------------------------------------------------------------------------

  datatype Sparc = Sparc(pc: Word, npc: Word)

  /** Control transfer as the architecture defines it, relative to the PC of the instruction. */
  function Architected(s: Sparc, i: Instr, icc: Icc): Sparc {
    match i
    case Plain => Sparc(s.npc, Wrap(s.npc + 4))
    case Call(disp) => Sparc(s.npc, Wrap(s.pc + 4 * disp))
    case Jump(target, _) => Sparc(s.npc, target)
    case Bicc(cond, annul, disp) =>
      if BranchTaken(cond, icc) then
        if annul && cond == BA then Sparc(Wrap(s.pc + 4 * disp), Wrap(s.pc + 4 * disp + 4))
        else Sparc(s.npc, Wrap(s.pc + 4 * disp))
      else if annul then Sparc(Wrap(s.npc + 4), Wrap(s.npc + 8))
      else Sparc(s.npc, Wrap(s.npc + 4))
  }

  function Abs(f: Flow): Sparc {
    Sparc(f.pc, NextPc(f))
  }

  /** The instruction at nPC is not simply the one after the instruction at PC. */
  predicate InDelaySlot(s: Sparc) {
    s.npc != Wrap(s.pc + 4)
  }

  /**
   When the pair tracks the architecture for one instruction: a taken relative branch and a CALL
   are computed from nPC and so must not sit in a delay slot, and address zero in the slot is
   taken for an empty slot.
   */
  predicate Tracks(s: Sparc, i: Instr, icc: Icc) {
    if Branches(i, icc) then
      if BranchAlwaysAnnul(i) || Wrap(s.npc + 4 * i.disp - 4) != 0 then !InDelaySlot(s)
      else Wrap(s.pc + 4 * i.disp) == Wrap(s.npc + 4)
    else
      i.Jump? && i.target == 0 ==> Wrap(s.npc + 4) == 0
  }

  lemma WrapAdd(a: int, b: int, c: int)
    requires Wrap(a) == Wrap(b)
    ensures Wrap(a + c) == Wrap(b + c)
  {
    AddToBoth(a, b, c, TWO32);
  }

  /** A target computed from nPC is the one computed from PC exactly outside a delay slot. */
  lemma SameTarget(s: Sparc, offset: int)
    ensures Wrap(s.npc + offset - 4) == Wrap(s.pc + offset) <==> !InDelaySlot(s)
  {
    if !InDelaySlot(s) {
      WrapAdd(s.npc, s.pc + 4, offset - 4);
      assert s.pc + 4 + (offset - 4) == s.pc + offset;
    }
    if Wrap(s.npc + offset - 4) == Wrap(s.pc + offset) {
      WrapAdd(s.npc + offset - 4, s.pc + offset, 4 - offset);
      assert s.npc + offset - 4 + (4 - offset) == s.npc;
      assert s.pc + offset + (4 - offset) == s.pc + 4;
    }
  }

  /** Adding 4 to a word already reduced. */
  lemma WrapOnce(a: int, c: int)
    ensures Wrap(Wrap(a) + c) == Wrap(a + c)
  {
    assert Wrap(Wrap(a)) == Wrap(a);
    WrapAdd(Wrap(a), a, c);
  }

  /** One instruction: the pair follows the architecture if and only if `Tracks` holds. */
  lemma StepExact(f: Flow, i: Instr, icc: Icc)
    ensures Abs(Advance(f, i, icc)) == Architected(Abs(f), i, icc) <==> Tracks(Abs(f), i, icc)
  {
    hide Wrap;
    var s := Abs(f);
    if Branches(i, icc) {
      SameTarget(s, 4 * i.disp);
      WrapOnce(s.npc + 4 * i.disp - 4, 4);
      WrapOnce(s.pc + 4 * i.disp, 4);
    }
    WrapOnce(s.npc + 4, 4);
  }

  /** The link value is the address of the CALL or JMPL exactly outside a delay slot. */
  lemma LinkExact(f: Flow)
    ensures Link(f) == f.pc <==> !InDelaySlot(Abs(f))
  {
    SameTarget(Abs(f), 0);
  }

  /** How far the instruction is from the one before it, which is 0 outside a delay slot. */
  function Displaced(s: Sparc): int {
    s.npc - s.pc - 4
  }

  /**
   Whether it is followed or not, a taken relative transfer lands, and a CALL or JMPL links, as far
   from the architecture's address as the delay slot is from where its transfer came.
   */
  lemma AstrayBy(f: Flow, i: Instr, icc: Icc)
    ensures var s := Abs(f);
            var target := Architected(s, i, icc);
            && (Branches(i, icc) && BranchAlwaysAnnul(i) ==>
                  Advance(f, i, icc) == Flow(Wrap(target.pc + Displaced(s)), 0))
            && (Branches(i, icc) && !BranchAlwaysAnnul(i) ==>
                  Advance(f, i, icc) == Flow(s.npc, Wrap(target.npc + Displaced(s))))
            && (i.Jump? ==> Advance(f, i, icc) == Flow(s.npc, i.target))
            && Link(f) == Wrap(s.pc + Displaced(s))
  {
    hide Wrap;
    var s := Abs(f);
    if Branches(i, icc) {
      WrapOnce(s.pc + 4 * i.disp, Displaced(s));
    }
  }

  /** A branch in the delay slot of a jump to 0x200 goes astray by the distance already jumped. */
  lemma CoupleGoesAstray()
    ensures var f := Flow(0x100, 0x200); var i := Bicc(BA, false, 16);
            && Abs(Advance(f, i, CLEAR)) == Sparc(0x200, 0x23C)
            && Architected(Abs(f), i, CLEAR) == Sparc(0x200, 0x140)
  {
  }

  /** Code without relative transfers in delay slots and without transfers to address zero. */
  predicate Ordinary(s: Sparc, i: Instr) {
    && (InDelaySlot(s) ==> i.Plain? || (i.Jump? && !i.linked))
    && (i.Jump? ==> i.target != 0)
    && (i.Bicc? || i.Call? ==> Wrap(s.pc + 4 * i.disp) != 0)
  }

  lemma OrdinaryTracks(s: Sparc, i: Instr, icc: Icc)
    requires Ordinary(s, i)
    ensures Tracks(s, i, icc)
  {
    hide Wrap;
    if Branches(i, icc) {
      SameTarget(s, 4 * i.disp);
    }
  }

  // ---------------------------------------------------------------------------
  // Whole runs
  // ---------------------------------------------------------------------------

  /**
   A program over any data state: the instruction found at an address, the condition codes, and
   what an instruction does to the data when it is given its link value.
   */
  datatype Program<!D> = Program(fetch: (Word, D) -> Instr, icc: D -> Icc, effect: (Instr, Word, D) -> D)

  datatype Simulated<D> = Simulated(flow: Flow, data: D)
  datatype Reference<D> = Reference(at: Sparc, data: D)

  predicate Links(i: Instr) {
    i.Call? || (i.Jump? && i.linked)
  }

  function SimStep<D>(p: Program<D>, s: Simulated<D>): Simulated<D> {
    var i := p.fetch(s.flow.pc, s.data);
    Simulated(Advance(s.flow, i, p.icc(s.data)),
              p.effect(i, if Links(i) then Link(s.flow) else 0, s.data))
  }

  function RefStep<D>(p: Program<D>, r: Reference<D>): Reference<D> {
    var i := p.fetch(r.at.pc, r.data);
    Reference(Architected(r.at, i, p.icc(r.data)),
              p.effect(i, if Links(i) then r.at.pc else 0, r.data))
  }

  function SimRun<D>(p: Program<D>, s: Simulated<D>, n: nat): Simulated<D> {
    if n == 0 then s else SimStep(p, SimRun(p, s, n - 1))
  }

  function RefRun<D>(p: Program<D>, r: Reference<D>, n: nat): Reference<D> {
    if n == 0 then r else RefStep(p, RefRun(p, r, n - 1))
  }

  function AbsRun<D>(s: Simulated<D>): Reference<D> {
    Reference(Abs(s.flow), s.data)
  }

  /** The next instruction of the reference run may be executed by the simulator. */
  predicate Followed<D>(p: Program<D>, r: Reference<D>) {
    var i := p.fetch(r.at.pc, r.data);
    Tracks(r.at, i, p.icc(r.data)) && (Links(i) ==> !InDelaySlot(r.at))
  }

  lemma StepFollowed<D>(p: Program<D>, s: Simulated<D>)
    requires Followed(p, AbsRun(s))
    ensures AbsRun(SimStep(p, s)) == RefStep(p, AbsRun(s))
  {
    hide Advance, Architected, Tracks, Link, InDelaySlot, NextPc;
    var i := p.fetch(s.flow.pc, s.data);
    StepExact(s.flow, i, p.icc(s.data));
    LinkExact(s.flow);
  }

  /**
   Over every run whose instructions are followed, the simulator's data and its (pc, slot) pair
   are the architecture's data and (PC, nPC).
   */
  lemma {:induction false} RunRefines<D>(p: Program<D>, s: Simulated<D>, n: nat)
    requires forall k: nat :: k < n ==> Followed(p, RefRun(p, AbsRun(s), k))
    ensures AbsRun(SimRun(p, s, n)) == RefRun(p, AbsRun(s), n)
  {
    hide AbsRun, SimStep, RefStep, Followed;
    if n > 0 {
      RunRefines(p, s, n - 1);
      assert Followed(p, RefRun(p, AbsRun(s), n - 1));
      StepFollowed(p, SimRun(p, s, n - 1));
    }
  }

  /** The next instruction of the reference run is ordinary. */
  predicate OrdinaryNext<D>(p: Program<D>, r: Reference<D>) {
    Ordinary(r.at, p.fetch(r.at.pc, r.data))
  }

  lemma OrdinaryFollowed<D>(p: Program<D>, r: Reference<D>)
    requires OrdinaryNext(p, r)
    ensures Followed(p, r)
  {
    hide Tracks;
    OrdinaryTracks(r.at, p.fetch(r.at.pc, r.data), p.icc(r.data));
  }

  /** Ordinary code runs as the architecture says, link values included. */
  lemma OrdinaryRunRefines<D>(p: Program<D>, s: Simulated<D>, n: nat)
    requires forall k: nat :: k < n ==> OrdinaryNext(p, RefRun(p, AbsRun(s), k))
    ensures AbsRun(SimRun(p, s, n)) == RefRun(p, AbsRun(s), n)
  {
    hide OrdinaryNext, Followed;
    forall k: nat | k < n
      ensures Followed(p, RefRun(p, AbsRun(s), k))
    {
      OrdinaryFollowed(p, RefRun(p, AbsRun(s), k));
    }
    RunRefines(p, s, n);
  }

  /** The first instruction that `Tracks` excludes is the first after which the two differ. */
  lemma RunDeparts<D>(p: Program<D>, s: Simulated<D>, n: nat)
    requires forall k: nat :: k < n ==> Followed(p, RefRun(p, AbsRun(s), k))
    requires var r := RefRun(p, AbsRun(s), n); !Tracks(r.at, p.fetch(r.at.pc, r.data), p.icc(r.data))
    ensures AbsRun(SimRun(p, s, n + 1)) != RefRun(p, AbsRun(s), n + 1)
  {
    hide Advance, Architected, Tracks, Followed, NextPc;
    RunRefines(p, s, n);
    var m := SimRun(p, s, n);
    StepExact(m.flow, p.fetch(m.flow.pc, m.data), p.icc(m.data));
  }
}
