/**
The execute stage of src/core/execute.cpp as a method on the hardware thread: it overwrites the
instruction's result, operands and condition codes, and the Y register.
*/
module ExecuteStage {
  import opened Words
  import opened Alu
  import opened MultiplyStep
  import opened Modular
  import opened Bits

  function Unsigned(x: bv32): Word {
    x as int
  }

  function Pattern(w: Word): bv32 {
    w as bv32
  }

  /** The bitwise operations, and the zero word for every other operation. */
  function Bitwise(op: AluOp, x: bv32, y: bv32): bv32 {
    match op
    case AluAnd => Both(x, y)
    case AluOr => Either(x, y)
    case AluXor => Differing(x, y)
    case AluAndn => Cleared(x, y)
    case AluXnor => Inverted(Differing(x, y))
    case AluOrn => Either(x, Inverted(y))
    case _ => 0
  }

  function BitwiseWord(op: AluOp, a: Word, b: Word): Word {
    Unsigned(Bitwise(op, Pattern(a), Pattern(b)))
  }

  /** The result, the first operand and Y after the operation, as mathematical functions. */
  datatype Outcome = Outcome(result: Word, op1: Word, y: Word)

  function Executed(op: AluOp, carry: bool, multiply: bool, disp22: int, prior: Word, a: Word, b: Word, y: Word,
                    icc: Icc): Outcome
  {
    var amount := Pow2(b % 32);
    match op
    case AluNop => Outcome(0, a, y)
    case AluAdd => Outcome(AddResult(a, b, carry && icc.c), a, y)
    case AluAddDead => Outcome(b, a, y)
    case AluSub => Outcome(SubResult(a, b, carry && icc.c), a, y)
    case AluSll => Outcome(Wrap(a * amount), a, y)
    case AluSrl => Outcome(Halved(a, amount), a, y)
    case AluSra => Outcome(Wrap(Signed(a) / amount), a, y)
    case AluSethi => Outcome(Wrap(disp22 * 1024), a, y)
    case AluMul =>
      if multiply then Outcome(StepResult(a, b, y, icc), Shifted(a, icc), NextY(a, y))
      else Outcome(prior, a, y)
    case _ => Outcome(BitwiseWord(op, a, b), a, y)
  }

  function Halved(a: Word, p: int): Word
    requires p > 0
  {
    DivBounds(a, p);
    a / p
  }

  lemma MulAtLeast(d: int, k: int)
    requires d > 0 && k >= 1
    ensures d * k >= d
  {
  }

  lemma DivBounds(a: int, p: int)
    requires a >= 0 && p > 0
    ensures 0 <= a / p <= a
  {
    var q := a / p;
    assert a == q * p + a % p;
    if q >= 1 {
      MulAtLeast(q, p);
    }
  }

  lemma Halves(p: int, h: int, b: int)
    ensures p * (2 * h + b) == (2 * p) * h + p * b
  {
  }

  lemma DivTwice(a: int, p: int)
    requires a >= 0 && p > 0
    ensures (a / p) / 2 == a / (2 * p)
  {
    var q, m := a / p, a % p;
    var h, b := q / 2, q % 2;
    assert p * q == (2 * p) * h + p * b by {
      Halves(p, h, b);
    }
    assert 0 <= p * b <= p;
    assert a == (2 * p) * h + (p * b + m);
    Division(a, 2 * p, h, p * b + m);
  }

  lemma SignedHalf(w: Word)
    ensures Wrap(Signed(w) / 2) % TWO31 == w / 2
  {
  }

  lemma WrapTwice(i: int, k: int)
    ensures Wrap(Wrap(i) + k) == Wrap(i + k)
  {
  }

  // ---------------------------------------------------------------------------
  // What the operations mean
  // ---------------------------------------------------------------------------

  /** What bit the operation must give from the two bits of its operands. */
  predicate Connective(op: AluOp, x: bool, y: bool) {
    match op
    case AluAnd => x && y
    case AluOr => x || y
    case AluXor => x != y
    case AluAndn => x && !y
    case AluXnor => x == y
    case AluOrn => x || !y
    case _ => false
  }

  predicate Logical(op: AluOp) {
    op.AluAnd? || op.AluOr? || op.AluXor? || op.AluAndn? || op.AluXnor? || op.AluOrn?
  }

  predicate BitMeans(op: AluOp, r: bv32, x: bv32, y: bv32, i: nat)
    requires i < 32
  {
    HasBit(r, i) <==> Connective(op, HasBit(x, i), HasBit(y, i))
  }

  /** Each bitwise operation, bit by bit. */
  lemma BitwiseBits(op: AluOp, x: bv32, y: bv32, i: nat)
    requires Logical(op) && i < 32
    ensures BitMeans(op, Bitwise(op, x, y), x, y, i)
  {
    hide HasBit, Both, Either, Differing, Cleared, Inverted;
    BitOfBoth(x, y, i);
    BitOfEither(x, y, i);
    BitOfDiffering(x, y, i);
    BitCleared(x, y, i);
    BitInverted(y, i);
    BitInverted(Differing(x, y), i);
    BitOfEither(x, Inverted(y), i);
  }

  /** The bits of a word are those of the operation on two others. */
  ghost predicate HasBits(op: AluOp, r: Word, a: Word, b: Word) {
    forall i :: 0 <= i < 32 ==> BitMeans(op, Pattern(r), Pattern(a), Pattern(b), i)
  }

  lemma PatternOfUnsigned(x: bv32)
    ensures Pattern(Unsigned(x)) == x
  {
  }

  lemma WordBits(op: AluOp, a: Word, b: Word)
    requires Logical(op)
    ensures HasBits(op, BitwiseWord(op, a, b), a, b)
  {
    hide BitMeans, Bitwise, Unsigned, Pattern;
    var x, y := Pattern(a), Pattern(b);
    PatternOfUnsigned(Bitwise(op, x, y));
    forall i | 0 <= i < 32
      ensures BitMeans(op, Bitwise(op, x, y), x, y, i)
    {
      BitwiseBits(op, x, y, i);
    }
  }

  /** What each operation must leave in the result, the first operand and Y. */
  ghost predicate Means(op: AluOp, carry: bool, multiply: bool, disp22: int, prior: Word, a: Word, b: Word, y: Word,
                        icc: Icc, o: Outcome)
  {
    var p := Pow2(b % 32);
    && (op != AluMul || !multiply ==> o.op1 == a && o.y == y)
    && match op
       case AluNop => o.result == 0
       case AluAdd => (a + b + (if carry && icc.c then 1 else 0) - o.result) % TWO32 == 0
       case AluAddDead => o.result == b
       case AluSub => (a - b - (if carry && icc.c then 1 else 0) - o.result) % TWO32 == 0
       case AluSll => (a * p - o.result) % TWO32 == 0
       case AluSrl => p * o.result <= a < p * (o.result + 1)
       case AluSra => p * Signed(o.result) <= Signed(a) < p * (Signed(o.result) + 1)
       case AluSethi => o.result % 1024 == 0 && (o.result / 1024 - disp22) % 0x40_0000 == 0
       case AluMul =>
         if multiply then
           var s := MultiplyStep.Step(MultiplyStep.State(a, y, icc), b);
           && o.result == s.acc && o.y == s.y && o.op1 == (a + (if icc.n != icc.v then TWO32 else 0)) / 2
           && s.icc == GetIcc(CLEAR, AluMul, o.op1, b, o.result)
         else o.result == prior
       case _ => HasBits(op, o.result, a, b)
  }

  lemma WrapCongruent(i: int)
    ensures (i - Wrap(i)) % TWO32 == 0
  {
  }

  lemma HalvedBounds(a: Word, p: int)
    requires p > 0
    ensures p * Halved(a, p) <= a < p * (Halved(a, p) + 1)
  {
    var q := a / p;
    assert a == p * q + a % p;
    assert p * (q + 1) == p * q + p;
  }

  lemma ArithmeticShift(a: Word, p: int)
    requires p > 0
    ensures var r := Signed(Wrap(Signed(a) / p));
            p * r <= Signed(a) < p * (r + 1)
  {
    var i := Signed(a);
    var q := i / p;
    assert i == p * q + i % p;
    assert p * (q + 1) == p * q + p;
    assert -TWO31 <= q < TWO31 by {
      QuotientInRange(i, p, q);
    }
    assert Signed(Wrap(q)) == q;
  }

  lemma QuotientInRange(i: int, p: int, q: int)
    requires p > 0 && p * q <= i < p * q + p && -TWO31 <= i < TWO31
    ensures -TWO31 <= q < TWO31
  {
    if q >= TWO31 {
      MulAtLeast(q, p);
    } else if q < -TWO31 {
      MulAtLeast(-1 - q, p);
    }
  }

  lemma HighPart(disp22: int)
    ensures var r := Wrap(disp22 * 1024);
            r % 1024 == 0 && (r / 1024 - disp22) % 0x40_0000 == 0
  {
  }

  /** Every operation does what it must. */
  lemma ExecutedMeans(op: AluOp, carry: bool, multiply: bool, disp22: int, prior: Word, a: Word, b: Word, y: Word,
                      icc: Icc)
    ensures Means(op, carry, multiply, disp22, prior, a, b, y, icc,
                  Executed(op, carry, multiply, disp22, prior, a, b, y, icc))
  {
    hide HasBits, Wrap, Halved, Signed, Pow2, GetIcc, StepResult, NextY;
    var p := Pow2(b % 32);
    match op
    case AluAdd => WrapCongruent(a + b + Bit(carry && icc.c));
    case AluSub => WrapCongruent(a - b - Bit(carry && icc.c));
    case AluSll => WrapCongruent(a * p);
    case AluSrl => HalvedBounds(a, p);
    case AluSra => ArithmeticShift(a, p);
    case AluSethi => HighPart(disp22);
    case AluMul =>
    case AluNop =>
    case AluAddDead =>
    case _ => WordBits(op, a, b);
  }

  class HwThread {
    // the instruction in the pipeline
    var aluop: AluOp
    var carry: bool
    var signedMultiply: bool
    var disp22: int
    var writeIcc: bool
    var op1: Word
    var op2: Word
    var aluResult: Word
    var instIcc: Icc
    // the special registers
    var icc: Icc
    var y: Word

    /** A logical right shift: of a negative number by one place at a time, masking the sign. */
    method ShiftRightLogical()
      modifies `aluResult
      ensures aluResult == Halved(op1, Pow2(op2 % 32))
    {
      var amount := op2 % 32;
      aluResult := op1;
      if Negative(op1) {
        ghost var done := 0;
        while amount > 0
          invariant 0 <= amount && amount + done == op2 % 32
          invariant aluResult == Halved(op1, Pow2(done))
        {
          DivTwice(op1, Pow2(done));
          SignedHalf(aluResult);
          // the signed shift by one place, then the sign bit cleared
          aluResult := Wrap(Signed(aluResult) / 2) % TWO31;
          amount, done := amount - 1, done + 1;
        }
      } else {
        DivBounds(Signed(op1), Pow2(amount));
        aluResult := Signed(op1) / Pow2(amount);
      }
    }

    /** The multiply step: Y, the shifted operand and the result are all overwritten. */
    method MultiplyStepOperation()
      modifies `aluResult, `op1, `y
      ensures aluResult == StepResult(old(op1), op2, old(y), icc)
      ensures op1 == Shifted(old(op1), icc) && y == NextY(old(op1), old(y))
    {
      var rs1, rs2, oldY := op1, op2, y;
      var low := rs1 % 2;
      rs1 := rs1 / 2;
      rs1 := rs1 + (if icc.n != icc.v then TWO31 else 0);
      var rsd := if oldY % 2 == 0 then rs1 else Wrap(rs1 + rs2);
      y := oldY / 2 + TWO31 * low;
      op1, aluResult := rs1, rsd;
    }

    /** The switch over the operation. */
    method Operate()
      modifies `aluResult, `op1, `y
      ensures Outcome(aluResult, op1, y) ==
              Executed(aluop, carry, signedMultiply, disp22, old(aluResult), old(op1), old(op2), old(y), icc)
    {
      hide GetIcc, StepResult, Shifted, NextY, Halved, Pow2, Wrap, Signed, BitwiseWord;
      match aluop {
        case AluAdd =>
          aluResult := Wrap(op1 + op2);
          if carry {
            WrapTwice(op1 + op2, Bit(icc.c));
            aluResult := Wrap(aluResult + Bit(icc.c));
          }
        case AluAddDead =>
          aluResult := op2;
        case AluNop =>
          aluResult := 0;
        case AluSub =>
          aluResult := Wrap(op1 - op2);
          if carry {
            WrapTwice(op1 - op2, -Bit(icc.c));
            aluResult := Wrap(aluResult - Bit(icc.c));
          }
        case AluSll =>
          aluResult := Wrap(op1 * Pow2(op2 % 32));
        case AluSrl =>
          ShiftRightLogical();
        case AluSra =>
          aluResult := Wrap(Signed(op1) / Pow2(op2 % 32));
        case AluSethi =>
          aluResult := Wrap(disp22 * 1024);
        case AluMul =>
          if signedMultiply {
            MultiplyStepOperation();
          }
        case _ =>
          aluResult := BitwiseWord(aluop, op1, op2);
      }
    }

    /** The operation, and the condition codes that it sets in the instruction. */
    method PerformAluOperations()
      modifies `aluResult, `op1, `y, `instIcc
      ensures Outcome(aluResult, op1, y) ==
              Executed(aluop, carry, signedMultiply, disp22, old(aluResult), old(op1), old(op2), old(y), icc)
      ensures Means(aluop, carry, signedMultiply, disp22, old(aluResult), old(op1), old(op2), old(y), icc,
                    Outcome(aluResult, op1, y))
      ensures instIcc == if writeIcc then GetIcc(old(instIcc), aluop, op1, op2, aluResult) else old(instIcc)
    {
      hide GetIcc, Executed, Means;
      ExecutedMeans(aluop, carry, signedMultiply, disp22, aluResult, op1, op2, y, icc);
      Operate();
      if writeIcc {
        instIcc := GetIcc(instIcc, aluop, op1, op2, aluResult);
      }
    }
  }
}
