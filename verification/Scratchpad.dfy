/** The scratchpad of src/core/l1_scratch.cpp: a slot table beside a map of resident words. */
module Scratchpad {
  import opened Counting

  const SCRATCH_SIZE := 0x1_0000
  const SLOTS := 0x4000

  /** The main-memory address kept in each slot (0 for none), and the resident words. */
  datatype Spm = Spm(slots: seq<nat>, mem: map<nat, nat>)

  predicate InRange(spmAddr: nat) {
    spmAddr % 4 == 0 && spmAddr < SCRATCH_SIZE
  }

  predicate Resident(s: Spm, addr: nat) {
    addr != 0 && addr in s.mem
  }

  function Add(s: Spm, memAddr: nat, spmAddr: nat, data: nat): Spm
    requires |s.slots| == SLOTS
  {
    if !InRange(spmAddr) then s
    else
      Spm(s.slots[spmAddr / 4 := memAddr], (s.mem - {s.slots[spmAddr / 4]})[memAddr := data])
  }

  /** update_addr, and a write that the memory controller sends to the scratchpad. */
  function Update(s: Spm, memAddr: nat, data: nat): Spm {
    if Resident(s, memAddr) then s.(mem := s.mem[memAddr := data]) else s
  }

  // ---------------------------------------------------------------------------
  // The class
  // ---------------------------------------------------------------------------

  class L1Scratch {
    const mainMemoryAddress: array<nat>
    var mem: map<nat, nat>

    ghost predicate Valid() {
      mainMemoryAddress.Length == SLOTS
    }

    ghost function Contents(): (s: Spm)
      reads this, mainMemoryAddress
      requires Valid()
      ensures |s.slots| == SLOTS
    {
      Spm(mainMemoryAddress[..], mem)
    }

    constructor ()
      ensures Valid() && Contents().mem == map[] && forall i :: 0 <= i < SLOTS ==> Contents().slots[i] == 0
    {
      mainMemoryAddress := new nat[SLOTS];
      mem := map[];
      new;
      var spmAddr := 0;
      while spmAddr < SCRATCH_SIZE
        invariant 0 <= spmAddr <= SCRATCH_SIZE && spmAddr % 4 == 0 && mem == map[]
        invariant forall i :: 0 <= i < spmAddr / 4 ==> mainMemoryAddress[i] == 0
      {
        mainMemoryAddress[spmAddr / 4] := 0;
        spmAddr := spmAddr + 4;
      }
    }

    method IsAddrInSpm(memAddr: nat) returns (b: bool)
      requires Valid()
      ensures b <==> Resident(Contents(), memAddr)
    {
      if memAddr == 0 {
        return false;
      }
      b := memAddr in mem;
    }

    method AddAddr(memAddr: nat, spmAddr: nat, data: nat)
      requires Valid()
      modifies this, mainMemoryAddress
      ensures Contents() == Add(old(Contents()), memAddr, spmAddr, data)
    {
      if !InRange(spmAddr) {
        return;
      }
      var oldMemAddr := mainMemoryAddress[spmAddr / 4];
      mem := mem - {oldMemAddr};
      mainMemoryAddress[spmAddr / 4] := memAddr;
      mem := mem[memAddr := data];
    }

    method UpdateAddr(memAddr: nat, data: nat)
      requires Valid()
      modifies this
      ensures Contents() == Update(old(Contents()), memAddr, data)
    {
      var present := IsAddrInSpm(memAddr);
      if !present {
        return;
      }
      mem := mem[memAddr := data];
    }
  }

  // ---------------------------------------------------------------------------
  // Invariants over every sequence of operations
  // ---------------------------------------------------------------------------

  datatype Operation = AddAddr(memAddr: nat, spmAddr: nat, data: nat) | UpdateAddr(memAddr: nat, data: nat)

  function Apply(s: Spm, op: Operation): (s': Spm)
    requires |s.slots| == SLOTS
    ensures |s'.slots| == SLOTS
  {
    match op
    case AddAddr(memAddr, spmAddr, data) => Add(s, memAddr, spmAddr, data)
    case UpdateAddr(memAddr, data) => Update(s, memAddr, data)
  }

  function Run(s: Spm, ops: seq<Operation>): (s': Spm)
    requires |s.slots| == SLOTS
    ensures |s'.slots| == SLOTS
  {
    if ops == [] then s else Apply(Run(s, ops[..|ops| - 1]), ops[|ops| - 1])
  }

  predicate Fresh(s: Spm) {
    |s.slots| == SLOTS && s.mem == map[] && forall i :: 0 <= i < |s.slots| ==> s.slots[i] == 0
  }

  // ---------------------------------------------------------------------------
  // What slots and words hold
  // ---------------------------------------------------------------------------

  /** An operation that writes the word's data, if the word is resident afterwards. */
  predicate Stores(op: Operation, a: nat) {
    op.memAddr == a && (op.AddAddr? ==> InRange(op.spmAddr))
  }

  predicate LastStore(ops: seq<Operation>, a: nat, j: int) {
    0 <= j < |ops| && Stores(ops[j], a) && forall i :: j < i < |ops| ==> !Stores(ops[i], a)
  }

  /** In every run a resident word has the data of the last operation that stored it. */
  lemma {:induction false} HoldsLastStored(s: Spm, ops: seq<Operation>, a: nat)
    requires Fresh(s) && a != 0 && a in Run(s, ops).mem
    ensures exists j :: LastStore(ops, a, j) && Run(s, ops).mem[a] == ops[j].data
  {
    var n := |ops| - 1;
    if Stores(ops[n], a) {
      assert LastStore(ops, a, n);
    } else {
      HoldsLastStored(s, ops[..n], a);
      var j :| LastStore(ops[..n], a, j) && Run(s, ops[..n]).mem[a] == ops[j].data;
      assert LastStore(ops, a, j);
    }
  }

  /** An operation that puts a word into the slot. */
  predicate Fills(op: Operation, k: nat) {
    op.AddAddr? && op.spmAddr == 4 * k
  }

  predicate LastFill(ops: seq<Operation>, k: nat, j: int) {
    0 <= j < |ops| && Fills(ops[j], k) && forall i :: j < i < |ops| ==> !Fills(ops[i], k)
  }

  /** In every run a slot has the address last put into it, and none before that. */
  lemma {:induction false} SlotHoldsLast(s: Spm, ops: seq<Operation>, k: nat)
    requires Fresh(s) && k < SLOTS
    ensures (exists j :: LastFill(ops, k, j) && Run(s, ops).slots[k] == ops[j].memAddr)
            || (Run(s, ops).slots[k] == 0 && forall i :: 0 <= i < |ops| ==> !Fills(ops[i], k))
  {
    var n := |ops| - 1;
    if ops != [] && Fills(ops[n], k) {
      assert LastFill(ops, k, n);
    } else if ops != [] {
      SlotHoldsLast(s, ops[..n], k);
      if j :| LastFill(ops[..n], k, j) && Run(s, ops[..n]).slots[k] == ops[j].memAddr {
        assert LastFill(ops, k, j);
      }
    }
  }

  /** Every word in the scratchpad has a slot. */
  ghost predicate Slotted(s: Spm) {
    forall a :: a in s.mem ==> a in s.slots
  }

  lemma ApplySlotted(s: Spm, op: Operation)
    requires |s.slots| == SLOTS && Slotted(s)
    ensures Slotted(Apply(s, op))
  {
    if op.AddAddr? && InRange(op.spmAddr) {
      var k := op.spmAddr / 4;
      var s' := Apply(s, op);
      assert s'.slots[k] == op.memAddr;
      forall a | a in s'.mem && a != op.memAddr
        ensures a in s'.slots
      {
        var j :| 0 <= j < |s.slots| && s.slots[j] == a;
        assert s'.slots[j] == a;
      }
    }
  }

  lemma {:induction false} RunSlotted(s: Spm, ops: seq<Operation>)
    requires Fresh(s)
    ensures Slotted(Run(s, ops))
  {
    if ops != [] {
      RunSlotted(s, ops[..|ops| - 1]);
      ApplySlotted(Run(s, ops[..|ops| - 1]), ops[|ops| - 1]);
    }
  }

  /** The scratchpad never holds more words than it has slots. */
  lemma NeverOverfull(s: Spm, ops: seq<Operation>)
    requires Fresh(s)
    ensures |Run(s, ops).mem.Keys| <= SCRATCH_SIZE / 4
  {
    RunSlotted(s, ops);
    ListedFit(Run(s, ops).mem.Keys, Run(s, ops).slots);
  }

  /** Nonzero slots are distinct and are exactly the addresses of the resident words. */
  ghost predicate OneToOne(s: Spm) {
    && (forall a :: a in s.mem <==> a != 0 && a in s.slots)
    && forall i, j :: 0 <= i < j < |s.slots| && s.slots[i] != 0 ==> s.slots[i] != s.slots[j]
  }

  /** The incoming address is a real one and no other slot holds it. */
  predicate Proper(s: Spm, op: Operation) {
    op.AddAddr? && InRange(op.spmAddr) ==>
      op.memAddr != 0 && forall j :: 0 <= j < |s.slots| && j != op.spmAddr / 4 ==> s.slots[j] != op.memAddr
  }

  lemma ProperAdd(s: Spm, op: Operation)
    requires |s.slots| == SLOTS && OneToOne(s) && Proper(s, op) && op.AddAddr? && InRange(op.spmAddr)
    ensures OneToOne(Apply(s, op))
  {
    var k := op.spmAddr / 4;
    var s' := Apply(s, op);
    assert s'.slots[k] == op.memAddr;
    forall a
      ensures a in s'.mem <==> a != 0 && a in s'.slots
    {
      if a in s'.mem && a != op.memAddr {
        var j :| 0 <= j < |s.slots| && s.slots[j] == a;
        assert s'.slots[j] == a;
      }
      if a != 0 && a in s'.slots && a != op.memAddr {
        var j :| 0 <= j < |s'.slots| && s'.slots[j] == a;
        assert s.slots[j] == a && j != k;
      }
    }
  }

  lemma ImproperAdd(s: Spm, op: Operation)
    requires |s.slots| == SLOTS && !Proper(s, op)
    ensures !OneToOne(Apply(s, op))
  {
    var k := op.spmAddr / 4;
    var s' := Apply(s, op);
    if op.memAddr != 0 {
      var j :| 0 <= j < |s.slots| && j != k && s.slots[j] == op.memAddr;
      assert s'.slots[k] == s'.slots[j] == op.memAddr;
    } else {
      assert op.memAddr in s'.mem;
    }
  }

  /** One operation keeps the correspondence exactly when it is proper. */
  lemma OneToOneExactly(s: Spm, op: Operation)
    requires |s.slots| == SLOTS && OneToOne(s)
    ensures OneToOne(Apply(s, op)) <==> Proper(s, op)
  {
    if op.AddAddr? && InRange(op.spmAddr) {
      if Proper(s, op) {
        ProperAdd(s, op);
      } else {
        ImproperAdd(s, op);
      }
    }
  }

  lemma {:induction false} RunOneToOne(s: Spm, ops: seq<Operation>)
    requires Fresh(s) && forall i :: 0 <= i < |ops| ==> Proper(Run(s, ops[..i]), ops[i])
    ensures OneToOne(Run(s, ops))
  {
    hide Proper, Apply;
    if ops != [] {
      var init := ops[..|ops| - 1];
      assert forall i :: 0 <= i < |init| ==> init[..i] == ops[..i] && init[i] == ops[i];
      RunOneToOne(s, init);
      OneToOneExactly(Run(s, init), ops[|ops| - 1]);
    }
  }
}
