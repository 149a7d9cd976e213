/**
The double-buffered command queue of soft/graphic/graphic_cmd_queue.c between the drawing thread
(the sender) and the graphic driver of soft/graphic/thread2.c (the receiver).

Every read and write of a shared variable is a step of its own, so a run is any interleaving of
the memory accesses of the two threads.
*/
module CommandQueue {

  const SIZE := 20
  /** The command type and its ten arguments. */
  const FIELDS := 11

  type Cell = c: seq<int> | |c| == FIELDS witness seq(FIELDS, _ => 0)

  /** One circular list of cells; `front` is the cell before the oldest command. */
  datatype Ring = Ring(cells: seq<Cell>, front: nat, end: nat) {
    ghost predicate Valid() {
      |cells| == SIZE && front < SIZE && end < SIZE
    }
  }

  function Next(i: nat): nat {
    (i + 1) % SIZE
  }

  // ---------------------------------------------------------------------------
  // One ring as a queue
  // ---------------------------------------------------------------------------

  function Count(r: Ring): (n: nat)
    requires r.Valid()
    ensures n < SIZE
  {
    (r.end + SIZE - r.front - 1) % SIZE
  }

  /** The cell of the command that is `i` places behind the oldest one. */
  function Slot(front: nat, i: nat): nat {
    (front + 1 + i) % SIZE
  }

  /** The commands in the ring, oldest first. */
  function Contents(r: Ring): (q: seq<Cell>)
    requires r.Valid()
    ensures |q| == Count(r)
  {
    seq(Count(r), i requires 0 <= i < Count(r) => r.cells[Slot(r.front, i)])
  }

  /** The sender's test finds the ring full exactly when it holds 19 commands. */
  lemma FullIffNineteen(r: Ring)
    requires r.Valid()
    ensures r.end == r.front <==> |Contents(r)| == 19
  {
  }

  /** The receiver's test finds the ring empty exactly when it holds no command. */
  lemma EmptyIffNothing(r: Ring)
    requires r.Valid()
    ensures Next(r.front) == r.end <==> Contents(r) == []
  {
  }

  /** Writing into the cell at the end does not disturb the queue. */
  lemma WriteAtEnd(r: Ring, c: Cell)
    requires r.Valid()
    ensures Contents(r.(cells := r.cells[r.end := c])) == Contents(r)
  {
  }

  lemma AdvanceEnd(r: Ring)
    requires r.Valid() && r.end != r.front
    ensures Contents(r.(end := Next(r.end))) == Contents(r) + [r.cells[r.end]]
  {
    assert Count(r.(end := Next(r.end))) == Count(r) + 1;
    assert Slot(r.front, Count(r)) == r.end;
  }

  lemma NextSlot(front: nat, i: nat)
    ensures Slot(Next(front), i) == Slot(front, i + 1)
  {
  }

  lemma CountAfterFront(r: Ring)
    requires r.Valid() && Next(r.front) != r.end
    ensures Next(r.front) < SIZE && Count(r) == Count(r.(front := Next(r.front))) + 1
  {
  }

  lemma AdvanceFront(r: Ring)
    requires r.Valid() && Next(r.front) != r.end
    ensures Contents(r) == [r.cells[Next(r.front)]] + Contents(r.(front := Next(r.front)))
  {
    hide Slot, Next, Count;
    var r' := r.(front := Next(r.front));
    CountAfterFront(r);
    FirstSlot(r.front);
    forall i: nat
      ensures Slot(r'.front, i) == Slot(r.front, i + 1)
    {
      NextSlot(r.front, i);
    }
  }

  lemma FirstSlot(front: nat)
    ensures Slot(front, 0) == Next(front)
  {
  }

  // ---------------------------------------------------------------------------
  // The two threads, one memory access at a time
  // ---------------------------------------------------------------------------

  /** A pointer into one of the two rings. */
  datatype Pointer = Pointer(ring: nat, index: nat)

  /**
   Where the sender is. In graphic_send_command every use of an end or front pointer first reads
   the selector (`Sel`) and then the pointer; the pointer found is kept in the local `temp`.
   */
  datatype Sender =
    | Idle
    | FullSel(cmd: Cell)
    | FullEnd(cmd: Cell, a: nat)
    | FullSel2(cmd: Cell, e: Pointer)
    | FullFront(cmd: Cell, e: Pointer, a: nat)
    | CopySel(cmd: Cell)
    | CopyEnd(cmd: Cell, a: nat)
    | Copy(cmd: Cell, temp: Pointer, k: nat)
    | MoveSel(cmd: Cell)
    | MoveEnd(cmd: Cell, a: nat)
    | MoveSel2(cmd: Cell, temp: Pointer)
    | MoveNext(cmd: Cell, temp: Pointer, a: nat)
    | MoveWrite(cmd: Cell, next: Pointer, a: nat)
    | FlushSet
    | FlushSpin

  /** Where the receiver is: graphic_recv_command, and then the main loop when it found nothing. */
  datatype Receiver =
    | TestSel
    | TestFront(b: nat)
    | TestNext(p: Pointer)
    | TestSel2(next: Pointer)
    | TestEnd(next: Pointer, b: nat)
    | TakeSel
    | TakeFront(b: nat)
    | TakeNext(p: Pointer)
    | TakeSel2(next: Pointer)
    | TakeWrite(next: Pointer, b: nat)
    | ReadSel
    | ReadFront(b: nat)
    | Read(p: Pointer, got: seq<int>)
    | LookAtFlag
    | ToggleSend
    | ToggleSendWrite(v: nat)
    | ToggleRecv
    | ToggleRecvWrite(v: nat)
    | ClearFlag(toggled: bool)

  /** Shared memory, both threads, and the history of accepted and received commands. */
  datatype State = State(
    rings: seq<Ring>, send: nat, recv: nat, flushing: bool,
    sender: Sender, receiver: Receiver,
    accepted: seq<Cell>, received: seq<Cell>)

  /** What the drawing program does next when it is between two calls. */
  datatype Request = SendCommand(cmd: Cell) | Flush

  datatype Action = SenderMoves(request: Request) | ReceiverMoves

  ghost predicate Shape(s: State) {
    && |s.rings| == 2 && s.rings[0].Valid() && s.rings[1].Valid()
    && s.send < 2 && s.recv < 2
  }

  /** One memory access of the sender; `request` matters only between two calls. */
  function SenderStep(s: State, request: Request): State
    requires SenderOk(s)
  {
    match s.sender
    case Idle =>
      (match request
       case SendCommand(cmd) => s.(sender := FullSel(cmd))
       case Flush => s.(sender := FlushSet))
    case FullSel(cmd) => s.(sender := FullEnd(cmd, s.send))
    case FullEnd(cmd, a) => s.(sender := FullSel2(cmd, Pointer(a, s.rings[a].end)))
    case FullSel2(cmd, e) => s.(sender := FullFront(cmd, e, s.send))
    case FullFront(cmd, e, a) =>
      s.(sender := if e == Pointer(a, s.rings[a].front) then Idle else CopySel(cmd))
    case CopySel(cmd) => s.(sender := CopyEnd(cmd, s.send))
    case CopyEnd(cmd, a) => s.(sender := Copy(cmd, Pointer(a, s.rings[a].end), 0))
    case Copy(cmd, temp, k) =>
      var ring := s.rings[temp.ring];
      var cell: Cell := ring.cells[temp.index][k := cmd[k]];
      s.(rings := s.rings[temp.ring := ring.(cells := ring.cells[temp.index := cell])],
         sender := if k + 1 < FIELDS then Copy(cmd, temp, k + 1) else MoveSel(cmd))
    case MoveSel(cmd) => s.(sender := MoveEnd(cmd, s.send))
    case MoveEnd(cmd, a) => s.(sender := MoveSel2(cmd, Pointer(a, s.rings[a].end)))
    case MoveSel2(cmd, temp) => s.(sender := MoveNext(cmd, temp, s.send))
    case MoveNext(cmd, temp, a) =>
      s.(sender := MoveWrite(cmd, Pointer(temp.ring, Next(temp.index)), a))
    case MoveWrite(cmd, next, a) =>
      s.(rings := s.rings[a := s.rings[a].(end := next.index)], sender := Idle, accepted := s.accepted + [cmd])
    case FlushSet => s.(flushing := true, sender := FlushSpin)
    case FlushSpin => if s.flushing then s else s.(sender := Idle)
  }

  /** One memory access of the receiver. */
  function ReceiverStep(s: State): State
    requires ReceiverOk(s)
  {
    match s.receiver
    case TestSel => s.(receiver := TestFront(s.recv))
    case TestFront(b) => s.(receiver := TestNext(Pointer(b, s.rings[b].front)))
    case TestNext(p) => s.(receiver := TestSel2(Pointer(p.ring, Next(p.index))))
    case TestSel2(next) => s.(receiver := TestEnd(next, s.recv))
    case TestEnd(next, b) =>
      s.(receiver := if next == Pointer(b, s.rings[b].end) then LookAtFlag else TakeSel)
    case TakeSel => s.(receiver := TakeFront(s.recv))
    case TakeFront(b) => s.(receiver := TakeNext(Pointer(b, s.rings[b].front)))
    case TakeNext(p) => s.(receiver := TakeSel2(Pointer(p.ring, Next(p.index))))
    case TakeSel2(next) => s.(receiver := TakeWrite(next, s.recv))
    case TakeWrite(next, b) =>
      s.(rings := s.rings[b := s.rings[b].(front := next.index)], receiver := ReadSel)
    case ReadSel => s.(receiver := ReadFront(s.recv))
    case ReadFront(b) => s.(receiver := Read(Pointer(b, s.rings[b].front), []))
    case Read(p, got) =>
      var got' := got + [s.rings[p.ring].cells[p.index][|got|]];
      if |got'| < FIELDS then s.(receiver := Read(p, got'))
      else s.(receiver := TestSel, received := s.received + [got'])
    case LookAtFlag => s.(receiver := if s.flushing then ToggleSend else ClearFlag(false))
    case ToggleSend => s.(receiver := ToggleSendWrite(1 - s.send))
    case ToggleSendWrite(v) => s.(send := v, receiver := ToggleRecv)
    case ToggleRecv => s.(receiver := ToggleRecvWrite(1 - s.recv))
    case ToggleRecvWrite(v) => s.(recv := v, receiver := ClearFlag(true))
    case ClearFlag(_) => s.(flushing := false, receiver := TestSel)
  }

  // ---------------------------------------------------------------------------
  // The invariant
  // ---------------------------------------------------------------------------

  /** Between the two selector writes of a toggle. */
  predicate MidToggle(r: Receiver) {
    r.ToggleRecv? || r.ToggleRecvWrite?
  }

  /** From the moment the flag was seen set to the moment it is cleared. */
  predicate Toggling(r: Receiver) {
    r.ToggleSend? || r.ToggleSendWrite? || MidToggle(r) || r == ClearFlag(true)
  }

  ghost predicate AtEnd(s: State, p: Pointer)
    requires Shape(s)
  {
    p == Pointer(s.send, s.rings[s.send].end)
  }

  /** What the sender's locals say about the ring it sends to. */
  ghost predicate SenderOk(s: State) {
    && Shape(s)
    && var ring := s.rings[s.send];
    match s.sender
    case Idle => true
    case FullSel(_) => true
    case FullEnd(_, a) => a == s.send
    case FullSel2(_, e) => AtEnd(s, e)
    case FullFront(_, e, a) => AtEnd(s, e) && a == s.send
    case CopySel(_) => ring.end != ring.front
    case CopyEnd(_, a) => a == s.send && ring.end != ring.front
    case Copy(cmd, temp, k) =>
      AtEnd(s, temp) && ring.end != ring.front && k < FIELDS && ring.cells[ring.end][..k] == cmd[..k]
    case MoveSel(cmd) => ring.end != ring.front && ring.cells[ring.end] == cmd
    case MoveEnd(cmd, a) => a == s.send && ring.end != ring.front && ring.cells[ring.end] == cmd
    case MoveSel2(cmd, temp) => AtEnd(s, temp) && ring.end != ring.front && ring.cells[ring.end] == cmd
    case MoveNext(cmd, temp, a) =>
      AtEnd(s, temp) && a == s.send && ring.end != ring.front && ring.cells[ring.end] == cmd
    case MoveWrite(cmd, next, a) =>
      && next == Pointer(s.send, Next(ring.end)) && a == s.send
      && ring.end != ring.front && ring.cells[ring.end] == cmd
    case FlushSet => true
    case FlushSpin => true
  }

  ghost predicate AtFront(s: State, p: Pointer)
    requires Shape(s)
  {
    p == Pointer(s.recv, s.rings[s.recv].front)
  }

  ghost predicate AfterFront(s: State, p: Pointer)
    requires Shape(s)
  {
    p == Pointer(s.recv, Next(s.rings[s.recv].front))
  }

  /** What the receiver's locals say about the ring it receives from. */
  ghost predicate ReceiverOk(s: State) {
    && Shape(s)
    && var ring := s.rings[s.recv];
    match s.receiver
    case TestSel => true
    case TestFront(b) => b == s.recv
    case TestNext(p) => AtFront(s, p)
    case TestSel2(next) => AfterFront(s, next)
    case TestEnd(next, b) => AfterFront(s, next) && b == s.recv
    case TakeSel => Next(ring.front) != ring.end
    case TakeFront(b) => b == s.recv && Next(ring.front) != ring.end
    case TakeNext(p) => AtFront(s, p) && Next(ring.front) != ring.end
    case TakeSel2(next) => AfterFront(s, next) && Next(ring.front) != ring.end
    case TakeWrite(next, b) => AfterFront(s, next) && b == s.recv && Next(ring.front) != ring.end
    case ReadSel => true
    case ReadFront(b) => b == s.recv
    case Read(p, got) => AtFront(s, p) && |got| < FIELDS && got == ring.cells[ring.front][..|got|]
    case LookAtFlag => Next(ring.front) == ring.end
    case ToggleSend => Next(ring.front) == ring.end
    case ToggleSendWrite(v) => v == 1 - s.send && Next(ring.front) == ring.end
    case ToggleRecv => Next(ring.front) == ring.end
    case ToggleRecvWrite(v) => v == 1 - s.recv && Next(ring.front) == ring.end
    case ClearFlag(_) => true
  }

  /** The two threads use different rings, and toggling happens only while the sender spins. */
  ghost predicate Separated(s: State) {
    && (s.flushing ==> s.sender == FlushSpin)
    && (Toggling(s.receiver) ==> s.flushing)
    && (s.send == s.recv <==> MidToggle(s.receiver))
  }

  /** The command already taken off the ring but not yet copied out. */
  ghost function InFlight(s: State): seq<Cell>
    requires Shape(s)
  {
    if s.receiver.ReadSel? || s.receiver.ReadFront? || s.receiver.Read?
    then [s.rings[s.recv].cells[s.rings[s.recv].front]] else []
  }

  /** Everything accepted was received, or is on its way in order. */
  ghost predicate Accounted(s: State)
    requires Shape(s)
  {
    s.accepted == s.received + InFlight(s) +
      (if MidToggle(s.receiver) then Contents(s.rings[1 - s.send])
       else Contents(s.rings[s.recv]) + Contents(s.rings[s.send]))
  }

  ghost predicate Inv(s: State) {
    SenderOk(s) && ReceiverOk(s) && Separated(s) && Accounted(s)
  }

  lemma SenderCopies(s: State)
    requires Inv(s) && s.sender.Copy?
    ensures Inv(SenderStep(s, Flush))
  {
    hide Contents;
    var s' := SenderStep(s, Flush);
    var ring, cmd, k := s.rings[s.send], s.sender.cmd, s.sender.k;
    var cell: Cell := ring.cells[ring.end][k := cmd[k]];
    WriteAtEnd(ring, cell);
    assert cell[..k + 1] == cmd[..k + 1];
    if k + 1 == FIELDS {
      assert cell == cmd;
    }
  }

  lemma SenderPublishes(s: State)
    requires Inv(s) && s.sender.MoveWrite?
    ensures Inv(SenderStep(s, Flush))
  {
    hide Contents;
    var ring := s.rings[s.send];
    AdvanceEnd(ring);
    var rest := s.received + InFlight(s);
    assert (rest + (Contents(s.rings[s.recv]) + Contents(ring))) + [s.sender.cmd] ==
           rest + (Contents(s.rings[s.recv]) + (Contents(ring) + [s.sender.cmd]));
  }

  /** A step that changes no more than the sender's locals and the flag is invisible elsewhere. */
  lemma SenderFrame(s: State, sender: Sender, flushing: bool)
    requires ReceiverOk(s) && Accounted(s)
    ensures var s' := s.(sender := sender, flushing := flushing);
            ReceiverOk(s') && Accounted(s')
  {
    hide Contents;
  }

  lemma SenderLocals(s: State, request: Request)
    requires SenderOk(s) && !s.sender.Copy? && !s.sender.MoveWrite?
    ensures var s' := SenderStep(s, request);
            SenderOk(s') && s' == s.(sender := s'.sender, flushing := s'.flushing)
  {
  }

  /** Every memory access of the sender keeps the invariant. */
  lemma SenderKeeps(s: State, request: Request)
    requires Inv(s)
    ensures Inv(SenderStep(s, request))
  {
    hide Contents, ReceiverOk, Accounted, SenderOk;
    if s.sender.Copy? {
      SenderCopies(s);
    } else if s.sender.MoveWrite? {
      SenderPublishes(s);
    } else {
      var s' := SenderStep(s, request);
      SenderLocals(s, request);
      SenderFrame(s, s'.sender, s'.flushing);
    }
  }

  lemma ReceiverTakes(s: State)
    requires Inv(s) && s.receiver.TakeWrite?
    ensures Inv(ReceiverStep(s))
  {
    hide Contents;
    var ring := s.rings[s.recv];
    AdvanceFront(ring);
    var r' := ring.(front := Next(ring.front));
    var rest := Contents(r') + Contents(s.rings[s.send]);
    assert s.received + [] + (([ring.cells[Next(ring.front)]] + Contents(r')) + Contents(s.rings[s.send])) ==
           s.received + [ring.cells[Next(ring.front)]] + rest;
  }

  lemma ReceiverReads(s: State)
    requires Inv(s) && s.receiver.Read?
    ensures Inv(ReceiverStep(s))
  {
    hide Contents;
    var cell := s.rings[s.recv].cells[s.rings[s.recv].front];
    var got := s.receiver.got;
    assert got + [cell[|got|]] == cell[..|got| + 1];
    if |got| + 1 == FIELDS {
      assert cell[..FIELDS] == cell;
    }
  }

  lemma ReceiverToggles(s: State)
    requires Inv(s) && (s.receiver.ToggleSendWrite? || s.receiver.ToggleRecvWrite?)
    ensures Inv(ReceiverStep(s))
  {
    hide Contents;
    EmptyIffNothing(s.rings[s.recv]);
  }

  lemma ReceiverFrame(s: State, receiver: Receiver, flushing: bool)
    requires SenderOk(s)
    ensures SenderOk(s.(receiver := receiver, flushing := flushing))
  {
  }

  /** The steps of the receiver that write nothing but its locals or the flag. */
  predicate OnlyLocals(r: Receiver) {
    !r.TakeWrite? && !r.Read? && !r.ToggleSendWrite? && !r.ToggleRecvWrite?
  }

  lemma ReceiverLocals(s: State)
    requires ReceiverOk(s) && OnlyLocals(s.receiver)
    ensures var s' := ReceiverStep(s);
            ReceiverOk(s') && s' == s.(receiver := s'.receiver, flushing := s'.flushing)
  {
  }

  lemma ReceiverAccounts(s: State)
    requires ReceiverOk(s) && OnlyLocals(s.receiver) && Accounted(s)
    ensures ReceiverOk(ReceiverStep(s)) && Accounted(ReceiverStep(s))
  {
    hide Contents, ReceiverOk;
    ReceiverLocals(s);
  }

  /** Every memory access of the receiver keeps the invariant. */
  lemma ReceiverKeeps(s: State)
    requires Inv(s)
    ensures Inv(ReceiverStep(s))
  {
    hide Contents, ReceiverOk, Accounted, SenderOk;
    if s.receiver.TakeWrite? {
      ReceiverTakes(s);
    } else if s.receiver.Read? {
      ReceiverReads(s);
    } else if s.receiver.ToggleSendWrite? || s.receiver.ToggleRecvWrite? {
      ReceiverToggles(s);
    } else {
      var s' := ReceiverStep(s);
      ReceiverLocals(s);
      ReceiverAccounts(s);
      ReceiverFrame(s, s'.receiver, s'.flushing);
    }
  }

  // ---------------------------------------------------------------------------
  // Every run
  // ---------------------------------------------------------------------------

  /**
   After graphic_init_queue. The sender's first call is the flush in graphic_init, which touches
   only the flag, so it may already be spinning.
   */
  ghost predicate Initial(s: State) {
    && Shape(s) && s.send == 0 && s.recv == 1
    && (forall q :: 0 <= q < 2 ==> s.rings[q].front == 0 && s.rings[q].end == 1)
    && (if s.flushing then s.sender == FlushSpin else s.sender == FlushSet)
    && s.receiver == TestSel && s.accepted == [] && s.received == []
  }

  lemma InitialInv(s: State)
    requires Initial(s)
    ensures Inv(s)
  {
    EmptyIffNothing(s.rings[0]);
    EmptyIffNothing(s.rings[1]);
  }

  ghost function Act(s: State, a: Action): (s': State)
    requires Inv(s)
    ensures Inv(s')
  {
    match a
    case SenderMoves(request) => SenderKeeps(s, request); SenderStep(s, request)
    case ReceiverMoves => ReceiverKeeps(s); ReceiverStep(s)
  }

  /** Any interleaving of the two threads. */
  ghost function Run(s: State, actions: seq<Action>): (s': State)
    requires Inv(s)
    ensures Inv(s')
    decreases |actions|
  {
    if actions == [] then s else Run(Act(s, actions[0]), actions[1..])
  }

  /** The sender's next access is to a pointer or cell of ring `q`. */
  predicate SenderTouches(s: State, q: nat) {
    match s.sender
    case FullEnd(_, a) => a == q
    case FullFront(_, _, a) => a == q
    case CopyEnd(_, a) => a == q
    case Copy(_, temp, _) => temp.ring == q
    case MoveEnd(_, a) => a == q
    case MoveNext(_, temp, _) => temp.ring == q
    case MoveWrite(_, _, a) => a == q
    case _ => false
  }

  predicate ReceiverTouches(s: State, q: nat) {
    match s.receiver
    case TestFront(b) => b == q
    case TestNext(p) => p.ring == q
    case TestEnd(_, b) => b == q
    case TakeFront(b) => b == q
    case TakeNext(p) => p.ring == q
    case TakeWrite(_, b) => b == q
    case ReadFront(b) => b == q
    case Read(p, _) => p.ring == q
    case _ => false
  }

  lemma NeverTheSameRing(s: State, q: nat)
    requires Inv(s)
    ensures !(SenderTouches(s, q) && ReceiverTouches(s, q))
  {
    hide Contents, Accounted;
  }

  lemma {:induction false} ReceivedIsPrefix(s: State)
    requires Inv(s)
    ensures s.received <= s.accepted
  {
    hide Contents, SenderOk, ReceiverOk;
  }

  /**
   The main result: whatever the interleaving, the receiver gets the accepted commands in the
   order in which they were accepted, the threads never touch the same ring, and the selectors
   change only while the sender spins in a flush.
   */
  lemma EveryInterleaving(s0: State, actions: seq<Action>, q: nat)
    requires Initial(s0)
    ensures Inv(s0)
    ensures var s := Run(s0, actions);
            && s.received <= s.accepted
            && !(SenderTouches(s, q) && ReceiverTouches(s, q))
            && (Toggling(s.receiver) ==> s.flushing && s.sender == FlushSpin)
  {
    InitialInv(s0);
    hide Contents, SenderOk, ReceiverOk;
    var s := Run(s0, actions);
    ReceivedIsPrefix(s);
    NeverTheSameRing(s, q);
  }

  /** A send is refused exactly when its ring holds 19 commands. */
  lemma SendRefused(s: State, request: Request)
    requires Inv(s) && s.sender.FullFront?
    ensures SenderStep(s, request).sender == Idle <==> |Contents(s.rings[s.send])| == 19
  {
    FullIffNineteen(s.rings[s.send]);
    hide Contents;
  }

  /** A receive finds nothing exactly when its ring is empty. */
  lemma ReceiveFindsNothing(s: State)
    requires Inv(s) && s.receiver.TestEnd?
    ensures ReceiverStep(s).receiver == LookAtFlag <==> Contents(s.rings[s.recv]) == []
  {
    EmptyIffNothing(s.rings[s.recv]);
    hide Contents;
  }

  // ---------------------------------------------------------------------------
  // What becomes of a command
  // ---------------------------------------------------------------------------

  /** The command of the send in progress, if there is one. */
  function InHand(x: Sender): seq<Cell> {
    if x.Idle? || x.FlushSet? || x.FlushSpin? then [] else [x.cmd]
  }

  /** The command whose send begins with this action. */
  function Requested(s: State, a: Action): seq<Cell> {
    if s.sender.Idle? && a.SenderMoves? && a.request.SendCommand? then [a.request.cmd] else []
  }

  /** The sender's test of its ring, at which it finds nineteen commands. */
  ghost predicate Refuses(s: State, a: Action)
    requires Shape(s)
  {
    s.sender.FullFront? && a.SenderMoves? && |Contents(s.rings[s.send])| == 19
  }

  /**
   One action on a command: a send begins with exactly the command requested, keeps it until it is
   accepted, and drops it only when the ring is full.
   */
  lemma CommandGoesOn(s: State, a: Action)
    requires Inv(s)
    ensures Shape(s)
    ensures var s' := Act(s, a);
            s'.accepted + InHand(s'.sender) ==
              if Refuses(s, a) then s.accepted else s.accepted + InHand(s.sender) + Requested(s, a)
    ensures s.accepted <= Act(s, a).accepted
    ensures s.sender.Idle? && Requested(s, a) != [] ==> InHand(Act(s, a).sender) == Requested(s, a)
    ensures Refuses(s, a) ==> InHand(s.sender) != [] && Act(s, a).sender.Idle? && Act(s, a).accepted == s.accepted
  {
    ReceiverIsOk(s);
    hide Contents, Accounted, ReceiverOk, Separated;
    if a.SenderMoves? && s.sender.FullFront? {
      FullIffNineteen(s.rings[s.send]);
      TestsItsRing(s);
    }
    if a.ReceiverMoves? {
      ReceiverAccepts(s);
    }
  }

  lemma TestsItsRing(s: State)
    requires SenderOk(s) && s.sender.FullFront?
    ensures var ring := s.rings[s.send];
            s.sender.e == Pointer(s.send, ring.end) && s.sender.a == s.send
  {
  }

  lemma ReceiverAccepts(s: State)
    requires Inv(s)
    ensures ReceiverStep(s).accepted == s.accepted && ReceiverStep(s).sender == s.sender
  {
    hide SenderOk, Accounted, Separated;
  }

  /** The commands requested in a run, without those refused, in order. */
  ghost function NotRefused(s: State, actions: seq<Action>): seq<Cell>
    requires Inv(s)
    decreases |actions|
  {
    if actions == [] then []
    else
      var init, a := actions[..|actions| - 1], actions[|actions| - 1];
      var before, now := NotRefused(s, init), Run(s, init);
      ReceiverIsOk(now);
      if Refuses(now, a) && before != [] then before[..|before| - 1] else before + Requested(now, a)
  }

  lemma {:induction false} RunLast(s: State, actions: seq<Action>, a: Action)
    requires Inv(s)
    ensures Run(s, actions + [a]) == Act(Run(s, actions), a)
    decreases |actions|
  {
    hide Inv, Act;
    if actions == [] {
      assert Run(Act(s, a), []) == Act(s, a);
    } else {
      assert (actions + [a])[1..] == actions[1..] + [a];
      RunLast(Act(s, actions[0]), actions[1..], a);
    }
  }

  /**
   In every interleaving the accepted commands, with the one whose send is in progress, are exactly
   the commands requested that were not refused by a full ring.
   */
  lemma {:induction false} AcceptedAreRequested(s0: State, actions: seq<Action>)
    requires Inv(s0) && InHand(s0.sender) == []
    ensures var s := Run(s0, actions); s.accepted + InHand(s.sender) == s0.accepted + NotRefused(s0, actions)
    ensures s0.accepted <= Run(s0, actions).accepted
    decreases |actions|
  {
    hide Inv, Act, Refuses;
    if actions == [] {
      assert s0.accepted + [] == s0.accepted;
    } else {
      var init, a := actions[..|actions| - 1], actions[|actions| - 1];
      assert actions == init + [a];
      var now, log := Run(s0, init), NotRefused(s0, init);
      AcceptedAreRequested(s0, init);
      RunLast(s0, init, a);
      CommandGoesOn(now, a);
      if Refuses(now, a) {
        assert now.accepted + InHand(now.sender) == s0.accepted + log;
        LastDropped(now.accepted, InHand(now.sender), s0.accepted, log);
      } else {
        assert now.accepted + InHand(now.sender) + Requested(now, a) == s0.accepted + (log + Requested(now, a));
      }
    }
  }

  lemma LastDropped(a: seq<Cell>, x: seq<Cell>, b: seq<Cell>, log: seq<Cell>)
    requires a + x == b + log && |x| == 1 && |b| <= |a|
    ensures log != [] && a == b + log[..|log| - 1]
  {
    var n := |log| - 1;
    assert (b + log)[..|a|] == a && |b + log| == |a| + 1;
    assert (b + log)[..|a|] == b + log[..n];
  }

  /** The sender is busy up to the last of the actions. */
  ghost predicate BusyUntil(s: State, actions: seq<Action>)
    requires Inv(s)
    decreases |actions|
  {
    !s.sender.Idle? && (|actions| > 1 ==> BusyUntil(Act(s, actions[0]), actions[1..]))
  }

  /** At some point of the run the send in progress finds nineteen commands in its ring. */
  ghost predicate FoundFull(s: State, actions: seq<Action>)
    requires Inv(s)
    decreases |actions|
  {
    ReceiverIsOk(s);
    actions != [] && (Refuses(s, actions[0]) || FoundFull(Act(s, actions[0]), actions[1..]))
  }

  /** A send in progress ends with its command accepted, or dropped after the ring was found full. */
  lemma {:induction false} SendEnds(s: State, cmd: Cell, actions: seq<Action>)
    requires Inv(s) && InHand(s.sender) == [cmd] && BusyUntil(s, actions) && Run(s, actions).sender.Idle?
    ensures var s' := Run(s, actions);
            s'.accepted == s.accepted + [cmd] || (s'.accepted == s.accepted && FoundFull(s, actions))
    decreases |actions|
  {
    hide Inv, Act, Refuses;
    if actions != [] {
      var s', rest := Act(s, actions[0]), actions[1..];
      CommandGoesOn(s, actions[0]);
      assert s.accepted + [cmd] + [] == s.accepted + [cmd];
      if s'.sender.Idle? {
        assert s'.accepted + [] == s'.accepted;
      } else {
        StillInHand(s, actions[0], cmd);
        SendEnds(s', cmd, rest);
      }
    }
  }

  lemma StillInHand(s: State, a: Action, cmd: Cell)
    requires Inv(s) && InHand(s.sender) == [cmd] && !Act(s, a).sender.Idle?
    ensures InHand(Act(s, a).sender) == [cmd] && Act(s, a).accepted == s.accepted
  {
    hide Contents, Accounted, ReceiverOk, Separated, SenderOk;
    if a.ReceiverMoves? {
      ReceiverAccepts(s);
    }
  }

  /**
   A send from an idle sender, whatever the receiver does meanwhile: exactly the command requested is
   accepted, or none is and the ring held nineteen commands when it was tested.
   */
  lemma SendOutcome(s0: State, cmd: Cell, actions: seq<Action>)
    requires Inv(s0) && s0.sender.Idle?
    requires var s1 := Act(s0, SenderMoves(SendCommand(cmd))); BusyUntil(s1, actions) && Run(s1, actions).sender.Idle?
    ensures var s1 := Act(s0, SenderMoves(SendCommand(cmd)));
            var s := Run(s1, actions);
            s.accepted == s0.accepted + [cmd] || (s.accepted == s0.accepted && FoundFull(s1, actions))
  {
    var a := SenderMoves(SendCommand(cmd));
    CommandGoesOn(s0, a);
    SendBegins(s0, cmd);
    hide Inv, Act;
    SendEnds(Act(s0, a), cmd, actions);
  }

  lemma SendBegins(s0: State, cmd: Cell)
    requires Inv(s0) && s0.sender.Idle?
    ensures var s := Act(s0, SenderMoves(SendCommand(cmd))); InHand(s.sender) == [cmd] && s.accepted == s0.accepted
  {
    hide Contents, Accounted, ReceiverOk, Separated;
  }

  // ---------------------------------------------------------------------------
  // When a flush hands the commands over
  // ---------------------------------------------------------------------------

  /** A flush that is asked for raises the flag, and returns at the first look that finds it false. */
  lemma FlushSteps(s: State, request: Request)
    requires Inv(s)
    ensures var s' := Act(s, SenderMoves(request));
            && (s.sender.Idle? && request.Flush? ==> s' == s.(sender := FlushSet))
            && (s.sender.FlushSet? ==> s' == s.(sender := FlushSpin, flushing := true))
            && (s.sender.FlushSpin? ==> s' == s.(sender := s'.sender) && s'.sender in {Idle, FlushSpin})
            && (s.sender.FlushSpin? ==> (s'.sender.Idle? <==> !s.flushing))
  {
    hide Contents, Accounted, ReceiverOk, Separated;
  }

  /** The sender stays in its flush loop for the whole run. */
  ghost predicate Spins(s: State, actions: seq<Action>)
    requires Inv(s)
    decreases |actions|
  {
    && s.sender == FlushSpin
    && (actions != [] ==> (actions[0].SenderMoves? ==> s.flushing) && Spins(Act(s, actions[0]), actions[1..]))
  }

  /** How far the flush begun in `s0` has come; it is lost if the flag was about to be cleared. */
  ghost predicate Flushing(s0: State, s: State) {
    && Shape(s0) && Shape(s) && s.sender == FlushSpin
    && if s0.receiver == ClearFlag(false) then
         && s.send == s0.send && s.rings[s.send] == s0.rings[s.send]
         && (s.flushing ==> s.receiver == ClearFlag(false))
       else
         var switched := MidToggle(s.receiver) || s.receiver == ClearFlag(true) || !s.flushing;
         && (s.flushing ==> s.receiver != ClearFlag(false))
         && s.send == (if switched then 1 - s0.send else s0.send)
         && (switched ==> Contents(s.rings[s.send]) == [])
  }

  lemma FlushBegins(s0: State)
    requires Inv(s0) && s0.sender == FlushSet
    ensures Flushing(s0, SenderStep(s0, Flush))
  {
    hide Contents, Accounted;
  }

  lemma LostFlushGoesOn(s0: State, s: State)
    requires ReceiverOk(s) && Separated(s) && Flushing(s0, s) && s0.receiver == ClearFlag(false)
    requires Shape(ReceiverStep(s))
    ensures Flushing(s0, ReceiverStep(s))
  {
    hide Contents, Next, AtFront, AfterFront;
  }

  lemma SeenFlushGoesOn(s0: State, s: State)
    requires ReceiverOk(s) && Separated(s) && Flushing(s0, s) && s0.receiver != ClearFlag(false) && s.flushing
    requires Shape(ReceiverStep(s))
    ensures Flushing(s0, ReceiverStep(s))
  {
    EmptyIffNothing(s.rings[s.recv]);
    hide Contents, Next, AtFront, AfterFront;
  }

  lemma FinishedFlushGoesOn(s0: State, s: State)
    requires ReceiverOk(s) && Separated(s) && Flushing(s0, s) && s0.receiver != ClearFlag(false) && !s.flushing
    requires Shape(ReceiverStep(s))
    ensures Flushing(s0, ReceiverStep(s))
  {
    hide Contents, Next, AtFront, AfterFront;
  }

  lemma FlushGoesOn(s0: State, s: State)
    requires Inv(s) && Flushing(s0, s)
    ensures Flushing(s0, ReceiverStep(s))
  {
    hide Contents, Accounted, SenderOk, ReceiverOk, Flushing;
    ReceiverKeeps(s);
    ShapeHolds(ReceiverStep(s));
    if s0.receiver == ClearFlag(false) {
      LostFlushGoesOn(s0, s);
    } else if s.flushing {
      SeenFlushGoesOn(s0, s);
    } else {
      FinishedFlushGoesOn(s0, s);
    }
  }

  lemma ShapeHolds(s: State)
    requires SenderOk(s)
    ensures Shape(s)
  {
  }

  lemma {:induction false} FlushStays(s0: State, s: State, actions: seq<Action>)
    requires Inv(s) && Flushing(s0, s) && Spins(s, actions)
    ensures Flushing(s0, Run(s, actions))
    decreases |actions|
  {
    hide Contents, Accounted, SenderOk, ReceiverOk, Flushing;
    if actions != [] {
      var s' := Act(s, actions[0]);
      if actions[0].ReceiverMoves? {
        FlushGoesOn(s0, s);
      }
      FlushStays(s0, s', actions[1..]);
    }
  }

  /** The flush begun in `s0` moved every accepted command to the receiver's side. */
  ghost predicate HandedOver(s0: State, s: State)
    requires Shape(s0) && Shape(s)
  {
    s.send == 1 - s0.send && s.accepted == s.received + InFlight(s) + Contents(s.rings[s.recv])
  }

  /** The flush begun in `s0` left the selectors and the sender's ring as they were. */
  ghost predicate NotHandedOver(s0: State, s: State)
    requires Shape(s0) && Shape(s)
  {
    s.send == s0.send && s.rings[s.send] == s0.rings[s.send]
  }

  lemma FlushEnds(s0: State, s: State)
    requires Shape(s0) && Shape(s) && Separated(s) && Accounted(s) && Flushing(s0, s) && !s.flushing
    ensures if s0.receiver == ClearFlag(false) then NotHandedOver(s0, s) else HandedOver(s0, s)
  {
    hide Contents;
    assert Contents(s.rings[s.recv]) + [] == Contents(s.rings[s.recv]);
  }

  /**
   A flush returns having handed every accepted command over to the receiver, except when the
   receiver had already looked at the flag and was about to clear it when the flush began: then
   the selectors are as before and the commands stay in the sender's ring.
   */
  lemma FlushOutcome(s0: State, s1: State, actions: seq<Action>, s: State)
    requires Inv(s0) && s0.sender == FlushSet && s1 == Act(s0, SenderMoves(Flush))
    requires Spins(s1, actions) && s == Run(s1, actions) && !s.flushing && Shape(s)
    ensures if s0.receiver == ClearFlag(false) then NotHandedOver(s0, s) else HandedOver(s0, s)
  {
    hide Contents, SenderOk, ReceiverOk, Flushing, HandedOver, NotHandedOver, Accounted, Separated, Shape;
    FlushBegins(s0);
    FlushStays(s0, s1, actions);
    ShapeHolds(s0);
    FlushEnds(s0, s);
  }

  lemma {:induction false} RunFirst(s: State, a: Action, rest: seq<Action>)
    requires Inv(s)
    ensures Run(s, [a] + rest) == Run(Act(s, a), rest)
  {
    assert ([a] + rest)[1..] == rest;
  }

  /** Five receiver steps on an empty ring lead to the test of the flag. */
  lemma ReceiverFindsNothing(s: State)
    requires Initial(s) && Inv(s)
    ensures var looks := [ReceiverMoves, ReceiverMoves, ReceiverMoves, ReceiverMoves, ReceiverMoves];
            Run(s, looks) == s.(receiver := LookAtFlag)
  {
    hide Contents, Accounted, SenderOk;
    var r := ReceiverMoves;
    var s1 := s.(receiver := TestFront(1));
    assert Act(s, r) == s1;
    RunFirst(s, r, [r, r, r, r]);
    var s2 := s.(receiver := TestNext(Pointer(1, 0)));
    assert Act(s1, r) == s2;
    RunFirst(s1, r, [r, r, r]);
    var s3 := s.(receiver := TestSel2(Pointer(1, 1)));
    assert Act(s2, r) == s3;
    RunFirst(s2, r, [r, r]);
    var s4 := s.(receiver := TestEnd(Pointer(1, 1), 1));
    assert Act(s3, r) == s4;
    RunFirst(s3, r, [r]);
    assert Act(s4, r) == s.(receiver := LookAtFlag);
    RunFirst(s4, r, []);
  }

  /** The exception is real: the receiver may clear a flag it has never seen. */
  lemma FlushLost(s0: State)
    requires Initial(s0) && Inv(s0) && !s0.flushing
    ensures var looks := [ReceiverMoves, ReceiverMoves, ReceiverMoves, ReceiverMoves, ReceiverMoves];
            var race := [ReceiverMoves, SenderMoves(Flush), ReceiverMoves, SenderMoves(Flush)];
            var s := Run(Run(s0, looks), race);
            s.sender == Idle && s.send == s0.send && s.recv == s0.recv
  {
    ReceiverFindsNothing(s0);
    hide Contents, Accounted, SenderOk;
    var r, f := ReceiverMoves, SenderMoves(Flush);
    var s5 := s0.(receiver := LookAtFlag);
    RunFirst(s5, r, [f, r, f]);
    var s6 := Act(s5, r);
    assert s6 == s0.(receiver := ClearFlag(false));
    RunFirst(s6, f, [r, f]);
    var s7 := Act(s6, f);
    assert s7 == s6.(flushing := true, sender := FlushSpin);
    RunFirst(s7, r, [f]);
    var s8 := Act(s7, r);
    RunFirst(s8, f, []);
  }

  // ---------------------------------------------------------------------------
  // A flush returns
  // ---------------------------------------------------------------------------

  /** What remains of the present round of the receiver's loop if its ring should be empty. */
  function RoundLeft(r: Receiver): nat {
    match r
    case TestSel => 11
    case TestFront(_) => 10
    case TestNext(_) => 9
    case TestSel2(_) => 8
    case TestEnd(_, _) => 7
    case TakeSel => 6
    case TakeFront(_) => 5
    case TakeNext(_) => 4
    case TakeSel2(_) => 3
    case TakeWrite(_, _) => 2
    case ReadSel => 24
    case ReadFront(_) => 23
    case Read(_, got) => 11 + if |got| < FIELDS then FIELDS - |got| else 0
    case LookAtFlag => 6
    case ToggleSend => 5
    case ToggleSendWrite(_) => 4
    case ToggleRecv => 3
    case ToggleRecvWrite(_) => 2
    case ClearFlag(_) => 1
  }

  /** The receiver has found its ring empty. */
  predicate FoundNothing(r: Receiver) {
    r.LookAtFlag? || r.ToggleSend? || r.ToggleSendWrite? || MidToggle(r) || r.ClearFlag?
  }

  /**
   The number of receiver steps within which the flag is cleared: what remains of the round, and 23
   for each command still in the receiver's ring.
   */
  ghost function StepsLeft(s: State): nat
    requires Shape(s)
  {
    RoundLeft(s.receiver) + if FoundNothing(s.receiver) then 0 else 23 * Count(s.rings[s.recv])
  }

  lemma StepsLeftBound(s: State)
    requires Shape(s)
    ensures 1 <= StepsLeft(s) <= 23 * 19 + 24
  {
    hide Count;
  }

  lemma RoundGetsShorter(s: State)
    requires ReceiverOk(s) && !s.receiver.TakeWrite? && ReceiverStep(s).flushing
    ensures RoundLeft(ReceiverStep(s).receiver) < RoundLeft(s.receiver)
  {
    hide AtFront, AfterFront, Next;
  }

  lemma RoundGoesOn(s: State)
    requires ReceiverOk(s) && !s.receiver.TakeWrite? && ReceiverStep(s).flushing
    ensures FoundNothing(s.receiver) ==> FoundNothing(ReceiverStep(s).receiver)
    ensures !FoundNothing(ReceiverStep(s).receiver) ==>
              ReceiverStep(s).recv == s.recv && ReceiverStep(s).rings == s.rings
  {
    hide AtFront, AfterFront, Next;
  }

  lemma OneCommandFewer(s: State)
    requires ReceiverOk(s) && s.receiver.TakeWrite? && Shape(ReceiverStep(s))
    ensures StepsLeft(ReceiverStep(s)) < StepsLeft(s)
  {
    hide Count, Next;
    assert ReceiverStep(s).rings[s.recv] == s.rings[s.recv].(front := Next(s.rings[s.recv].front));
    CountAfterFront(s.rings[s.recv]);
  }

  lemma StepsLeftShrinks(s: State)
    requires ReceiverOk(s) && Shape(ReceiverStep(s)) && ReceiverStep(s).flushing
    ensures StepsLeft(ReceiverStep(s)) < StepsLeft(s)
  {
    if s.receiver.TakeWrite? {
      OneCommandFewer(s);
    } else {
      hide ReceiverOk, ReceiverStep, RoundLeft, FoundNothing, Count;
      RoundGetsShorter(s);
      RoundGoesOn(s);
    }
  }

  /** How many of the actions are the receiver's. */
  function ReceiverMovesIn(actions: seq<Action>): nat {
    if actions == [] then 0
    else (if actions[0].ReceiverMoves? then 1 else 0) + ReceiverMovesIn(actions[1..])
  }

  /**
   A flush that has begun returns: in any interleaving with as many receiver steps as are left, and
   never more than 461 are, there is a point at which the flag is false.
   */
  lemma {:induction false} FlushReturns(s: State, actions: seq<Action>)
    requires Inv(s) && s.sender == FlushSpin && ReceiverMovesIn(actions) >= StepsLeft(s)
    ensures exists k :: 0 <= k <= |actions| && !Run(s, actions[..k]).flushing
    decreases |actions|
  {
    hide Inv, ReceiverStep, StepsLeft;
    if !s.flushing {
      assert !Run(s, actions[..0]).flushing;
    } else {
      ReceiverIsOk(s);
      StepsLeftBound(s);
      var s', rest := Act(s, actions[0]), actions[1..];
      if actions[0].ReceiverMoves? && !s'.flushing {
        FirstAction(s, actions, 0);
        assert !Run(s', rest[..0]).flushing;
        assert !Run(s, actions[..1]).flushing;
      } else {
        if actions[0].ReceiverMoves? {
          ReceiverIsOk(s');
          StepsLeftShrinks(s);
        }
        FlushReturns(s', rest);
        var k :| 0 <= k <= |rest| && !Run(s', rest[..k]).flushing;
        FirstAction(s, actions, k);
        assert !Run(s, actions[..k + 1]).flushing;
      }
    }
  }

  lemma FirstAction(s: State, actions: seq<Action>, k: nat)
    requires Inv(s) && k < |actions|
    ensures Run(s, actions[..k + 1]) == Run(Act(s, actions[0]), actions[1..][..k])
  {
    hide Inv, Act;
    assert actions[..k + 1][1..] == actions[1..][..k];
  }

  lemma ReceiverIsOk(s: State)
    requires Inv(s)
    ensures ReceiverOk(s) && Shape(s) && ReceiverStep(s).sender == s.sender
  {
    hide Accounted, SenderOk;
  }

  /**
   graphic_init_queue: links the cells of both lists into circles and sets the pointers and the two
   selectors, the sender's first.
   */
  method GraphicInitQueue(next: array<nat>, front: array<nat>, end: array<nat>, selectors: array<nat>)
    requires next.Length == 2 * SIZE && front.Length == 2 && end.Length == 2
    requires selectors.Length == 2 && selectors != next && selectors != front && selectors != end
    requires next != front && next != end && front != end
    modifies next, front, end, selectors
    ensures forall m :: 0 <= m < 2 * SIZE ==> next[m] == if m % SIZE == SIZE - 1 then m - m % SIZE else m + 1
    ensures selectors[0] == 0 && selectors[1] == 1
    ensures forall i :: 0 <= i < 2 ==> front[i] == SIZE * i && end[i] == SIZE * i + 1
  {
    for i := 0 to 2
      invariant forall m :: 0 <= m < SIZE * i ==> next[m] == if m % SIZE == SIZE - 1 then m - m % SIZE else m + 1
      invariant forall k :: 0 <= k < i ==> front[k] == SIZE * k && end[k] == SIZE * k + 1
    {
      for j := 0 to SIZE - 1
        invariant forall m :: 0 <= m < SIZE * i + j ==> next[m] == if m % SIZE == SIZE - 1 then m - m % SIZE else m + 1
        invariant forall k :: 0 <= k < i ==> front[k] == SIZE * k && end[k] == SIZE * k + 1
      {
        next[SIZE * i + j] := SIZE * i + j + 1;
      }
      next[SIZE * i + SIZE - 1] := SIZE * i;
      front[i], end[i] := SIZE * i, SIZE * i + 1;
    }
    selectors[0], selectors[1] := 0, 1;
  }
}
