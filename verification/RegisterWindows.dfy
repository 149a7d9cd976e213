/**
The circular window file of src/core/register_file.cpp and the window pointer of
src/core/regacc.cpp (The SPARC Architecture Manual Version 8, section 4.1 and section B.20).
*/
module RegisterWindows {
  import opened Modular

  const REGISTER_WINDOWS := 32
  const SIZE := 512

  // ---------------------------------------------------------------------------
  // Cells
  // ---------------------------------------------------------------------------

  /** Registers 8 to 15 are the outs, 16 to 23 the locals and 24 to 31 the ins. */
  predicate Windowed(r: int) {
    8 <= r < 32
  }

  predicate Out(r: int) {
    8 <= r < 16
  }

  /** The cell of the window file that holds register `r` of window `w`. */
  function Cell(r: int, w: int): (k: int)
    requires Windowed(r) && 0 <= w < REGISTER_WINDOWS
    ensures 0 <= k < SIZE
  {
    (w * 16 + (r - 8)) % SIZE
  }

  /** The window entered by a SAVE from window `w`. */
  function Callee(w: int): int {
    (w - 1) % REGISTER_WINDOWS
  }

  lemma CellIs(r: int, w: int)
    requires Windowed(r) && 0 <= w < REGISTER_WINDOWS
    ensures Cell(r, w) == if w < 31 || r < 24 then w * 16 + (r - 8) else r - 24
  {
  }

  lemma CalleeIs(w: int)
    requires 0 <= w < REGISTER_WINDOWS
    ensures Callee(w) == if w == 0 then 31 else w - 1
  {
  }

  /** The only sharing: the outs of a window are the ins of the window a SAVE enters. */
  lemma SharedCells(r: int, w: int, r': int, w': int)
    requires Windowed(r) && Windowed(r') && 0 <= w < REGISTER_WINDOWS && 0 <= w' < REGISTER_WINDOWS
    ensures Cell(r, w) == Cell(r', w') <==>
            || (r == r' && w == w')
            || (Out(r) && r' == r + 16 && w' == Callee(w))
            || (Out(r') && r == r' + 16 && w == Callee(w'))
  {
    CellIs(r, w);
    CellIs(r', w');
    CalleeIs(w);
    CalleeIs(w');
    hide Cell, Callee;
  }

  // ---------------------------------------------------------------------------
  // The register file
  // ---------------------------------------------------------------------------

  /** The eight globals and the window file, as values. */
  datatype Registers = Registers(global: seq<int>, window: seq<int>) {
    predicate Valid() {
      |global| == 8 && |window| == SIZE
    }

    function Get(r: int, w: int): int
      requires Valid() && 0 <= r < 32 && 0 <= w < REGISTER_WINDOWS
    {
      if r < 8 then global[r] else window[Cell(r, w)]
    }

    function Set(r: int, value: int, w: int): (f: Registers)
      requires Valid() && 0 <= r < 32 && 0 <= w < REGISTER_WINDOWS
      ensures f.Valid()
    {
      if r < 8 then Registers(global[r := value], window)
      else Registers(global, window[Cell(r, w) := value])
    }
  }

  /** Reading back: a write shows in the registers that share its cell, and nowhere else. */
  lemma GetAfterSet(f: Registers, r: int, value: int, w: int, r': int, w': int)
    requires f.Valid() && 0 <= r < 32 && 0 <= w < REGISTER_WINDOWS && 0 <= r' < 32 && 0 <= w' < REGISTER_WINDOWS
    ensures f.Set(r, value, w).Get(r', w') ==
            if (r < 8 && r == r') || (r >= 8 && r' >= 8 && Cell(r, w) == Cell(r', w')) then value
            else f.Get(r', w')
  {
  }

  class RegisterFile {
    const globalReg: array<int>
    const windowReg: array<int>

    ghost predicate Valid() {
      globalReg.Length == 8 && windowReg.Length == SIZE && globalReg != windowReg
    }

    ghost function Contents(): (f: Registers)
      reads globalReg, windowReg
      requires Valid()
      ensures f.Valid()
    {
      Registers(globalReg[..], windowReg[..])
    }

    method GetReg(r: int, w: int) returns (value: int)
      requires Valid() && 0 <= r < 32 && 0 <= w < REGISTER_WINDOWS
      ensures value == Contents().Get(r, w)
    {
      if r < 8 {
        value := globalReg[r];
      } else {
        var windowAddr, windowOffset := w * 16, r - 8;
        value := windowReg[(windowAddr + windowOffset) % SIZE];
      }
    }

    method SetReg(r: int, value: int, w: int)
      requires Valid() && 0 <= r < 32 && 0 <= w < REGISTER_WINDOWS
      modifies globalReg, windowReg
      ensures Contents() == old(Contents()).Set(r, value, w)
    {
      if r < 8 {
        globalReg[r] := value;
      } else {
        var windowAddr, windowOffset := w * 16, r - 8;
        windowReg[(windowAddr + windowOffset) % SIZE] := value;
      }
    }
  }

  /** The window pointer update of the register access stage, through a 16-bit unsigned field. */
  function WindowAfter(w: int, increment: int): int {
    (w + increment) % 0x1_0000 % REGISTER_WINDOWS
  }

  lemma WindowMoves(w: int)
    requires 0 <= w < REGISTER_WINDOWS
    ensures WindowAfter(w, -1) == Callee(w) && WindowAfter(Callee(w), 1) == w
  {
  }

  // ---------------------------------------------------------------------------
  // Nested calls
  // ---------------------------------------------------------------------------

  /** SAVE, RESTORE and a register write; a SAVE or RESTORE with a destination is followed by one. */
  datatype Event = Save | Restore | Write(r: int, value: int)

  datatype Machine = Machine(regs: Registers, wp: int) {
    predicate Valid() {
      regs.Valid() && 0 <= wp < REGISTER_WINDOWS
    }
  }

  predicate ValidEvents(events: seq<Event>) {
    forall i :: 0 <= i < |events| && events[i].Write? ==> 0 <= events[i].r < 32
  }

  function Step(m: Machine, e: Event): (m': Machine)
    requires m.Valid() && (e.Write? ==> 0 <= e.r < 32)
    ensures m'.Valid()
  {
    match e
    case Save => m.(wp := WindowAfter(m.wp, -1))
    case Restore => m.(wp := WindowAfter(m.wp, 1))
    case Write(r, value) => m.(regs := m.regs.Set(r, value, m.wp))
  }

  function Run(m: Machine, events: seq<Event>): (m': Machine)
    requires m.Valid() && ValidEvents(events)
    ensures m'.Valid()
    decreases |events|
  {
    if events == [] then m else Run(Step(m, events[0]), events[1..])
  }

  function Nested(depth: int, e: Event): int {
    match e
    case Save => depth + 1
    case Restore => depth - 1
    case Write(_, _) => depth
  }

  /** Nesting depth after the events, starting from the given depth. */
  function DepthAfter(depth: int, events: seq<Event>): int
    decreases |events|
  {
    if events == [] then depth else DepthAfter(Nested(depth, events[0]), events[1..])
  }

  /** The window at a nesting depth below window `w`. */
  function Below(w: int, depth: int): int {
    (w - depth) % REGISTER_WINDOWS
  }

  /**
   Exactly which writes at which depth reach the caller's locals and ins: those of the caller's own
   locals and ins once the windows have gone all the way round, and the outs one window before.
   */
  lemma WriteReaches(w: int, depth: int, r: int, k: int)
    requires 0 <= w < REGISTER_WINDOWS && depth >= 0 && Windowed(r) && 16 <= k < 32
    ensures Cell(r, Below(w, depth)) == Cell(k, w) <==>
            || (depth % REGISTER_WINDOWS == 0 && r == k)
            || (depth % REGISTER_WINDOWS == 31 && Out(r) && k == r + 16)
  {
    hide Cell;
    SharedCells(r, Below(w, depth), k, w);
    BelowReduced(w, depth);
  }

  lemma BelowReduced(w: int, depth: int)
    requires 0 <= w < REGISTER_WINDOWS
    ensures var d := depth % REGISTER_WINDOWS; Below(w, depth) == if d <= w then w - d else w - d + REGISTER_WINDOWS
  {
    var q, d := depth / REGISTER_WINDOWS, depth % REGISTER_WINDOWS;
    assert w - depth == w - d + REGISTER_WINDOWS * (-q);
    AddMultiple(w - d, REGISTER_WINDOWS, -q);
  }

  /**
   Every write to a window is made by a callee nested at most `most` times, or goes to the outs of
   the caller itself, as the destination of its RESTORE may.
   */
  predicate WritesWithin(depth: int, most: int, events: seq<Event>)
    decreases |events|
  {
    events == [] ||
    (&& (events[0].Write? ==> events[0].r < 8 || (depth == 0 && events[0].r < 16) || 1 <= depth <= most)
     && WritesWithin(Nested(depth, events[0]), most, events[1..]))
  }

  /** The window pointer follows the depth. */
  lemma PointerFollows(w: int, depth: int)
    requires 0 <= w < REGISTER_WINDOWS
    ensures WindowAfter(Below(w, depth), -1) == Below(w, depth + 1)
    ensures WindowAfter(Below(w, depth), 1) == Below(w, depth - 1)
  {
    OneWindow(w - depth);
  }

  lemma OneWindow(v: int)
    ensures WindowAfter(v % REGISTER_WINDOWS, -1) == (v - 1) % REGISTER_WINDOWS
    ensures WindowAfter(v % REGISTER_WINDOWS, 1) == (v + 1) % REGISTER_WINDOWS
  {
    var q, x := v / REGISTER_WINDOWS, v % REGISTER_WINDOWS;
    assert v - 1 == x - 1 + REGISTER_WINDOWS * q;
    AddMultiple(x - 1, REGISTER_WINDOWS, q);
    AddMultiple(x + 1, REGISTER_WINDOWS, q);
  }

  /**
   Over any sequence of nested calls whose writes stay within thirty windows below the caller, the
   caller's locals and ins keep their values, and the window pointer tracks the depth.
   */
  lemma {:induction false} CallerKeepsWindow(m: Machine, events: seq<Event>, w: int, depth: int, k: int)
    requires m.Valid() && ValidEvents(events) && 0 <= w < REGISTER_WINDOWS && m.wp == Below(w, depth)
    requires WritesWithin(depth, 30, events) && 16 <= k < 32
    ensures Run(m, events).regs.Get(k, w) == m.regs.Get(k, w)
    ensures Run(m, events).wp == Below(w, DepthAfter(depth, events))
    decreases |events|
  {
    hide WindowAfter, Below, Cell;
    if events != [] {
      var m' := Step(m, events[0]);
      PointerFollows(w, depth);
      match events[0]
      case Save => CallerKeepsWindow(m', events[1..], w, depth + 1, k);
      case Restore => CallerKeepsWindow(m', events[1..], w, depth - 1, k);
      case Write(r, value) =>
        GetAfterSet(m.regs, r, value, m.wp, k, w);
        if r >= 8 {
          WriteReaches(w, depth, r, k);
        }
        CallerKeepsWindow(m', events[1..], w, depth, k);
    }
  }

  /** A balanced sequence returns to the caller's window with its locals and ins unchanged. */
  lemma BalancedCall(m: Machine, events: seq<Event>, k: int)
    requires m.Valid() && ValidEvents(events) && WritesWithin(0, 30, events)
    requires DepthAfter(0, events) == 0 && 16 <= k < 32
    ensures var m' := Run(m, events); m'.wp == m.wp && m'.regs.Get(k, m'.wp) == m.regs.Get(k, m.wp)
  {
    CallerKeepsWindow(m, events, m.wp, 0, k);
  }

  /** One window deeper a callee's outs are the caller's ins. */
  lemma ThirtyOneIsTooDeep(m: Machine, w: int, r: int, value: int)
    requires m.Valid() && 0 <= w < REGISTER_WINDOWS && m.wp == Below(w, 31) && Out(r)
    ensures Step(m, Write(r, value)).regs.Get(r + 16, w) == value
  {
    hide Cell;
    WriteReaches(w, 31, r, r + 16);
    GetAfterSet(m.regs, r, value, m.wp, r + 16, w);
  }
}
