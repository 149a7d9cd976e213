/**
The multiply step instruction (MULScc) of src/core/execute.cpp as a function, and the product that 33
of them compute.
*/
module MultiplyStep {
  import opened Words
  import opened Alu

  /** What a multiply step reads and writes: the accumulator register, Y and the condition codes. */
  datatype State = State(acc: Word, y: Word, icc: Icc) {
    /** The partial sum as a 33-bit signed number: its sign is N xor V. */
    function Sum(): int {
      if icc.n != icc.v then acc - TWO32 else acc
    }
  }

  /** The first operand shifted right by one, with N xor V shifted in. */
  function Shifted(a: Word, icc: Icc): Word {
    a / 2 + (if icc.n != icc.v then TWO31 else 0)
  }

  /** The alu result of one step. */
  function StepResult(a: Word, b: Word, y: Word, icc: Icc): Word {
    if y % 2 == 0 then Shifted(a, icc) else Wrap(Shifted(a, icc) + b)
  }

  /** Y shifted right by one, with the low bit of the unshifted operand shifted in. */
  function NextY(a: Word, y: Word): Word {
    y / 2 + (if a % 2 == 1 then TWO31 else 0)
  }

  /** MULScc with the destination register equal to the first source, through to commit. */
  function Step(s: State, b: Word): State {
    var r := StepResult(s.acc, b, s.y, s.icc);
    State(r, NextY(s.acc, s.y), GetIcc(CLEAR, AluMul, Shifted(s.acc, s.icc), b, r))
  }

  /** One step halves the partial sum and adds the multiplicand if the low bit of Y is set. */
  lemma StepSum(s: State, b: Word)
    ensures Step(s, b).Sum() == s.Sum() / 2 + (if s.y % 2 == 0 then 0 else Signed(b))
    ensures Step(s, b).y == s.y / 2 + TWO31 * (s.Sum() % 2)
  {
    var a := Shifted(s.acc, s.icc);
    assert Signed(a) == s.Sum() / 2;
    if s.y % 2 != 0 {
      AddFlags(a, b, false);
    }
  }

  /**
   The flags of a step describe the addition that was performed, except for C: when nothing was
   added, C is nevertheless set for a negative operand, and only then.
   */
  lemma StepFlags(s: State, b: Word)
    ensures var icc := Step(s, b).icc;
            var a := Shifted(s.acc, s.icc);
            var added: Word := if s.y % 2 == 0 then 0 else b;
            var true_ := GetIcc(CLEAR, AluAdd, a, added, AddResult(a, added, false));
            && icc.n == true_.n && icc.z == true_.z && icc.v == true_.v
            && (icc.c == true_.c <==> (s.y % 2 == 1 || !Negative(b)))
  {
  }

  function Steps(s: State, b: Word, k: nat): State {
    if k == 0 then s else Step(Steps(s, b, k - 1), b)
  }

  // ---------------------------------------------------------------------------
  // Thirty-two steps
  // ---------------------------------------------------------------------------

  lemma {:induction false} Pow2Split(k: nat, n: nat)
    requires k <= n
    ensures Pow2(k) * Pow2(n - k) == Pow2(n)
  {
    if k > 0 {
      Pow2Split(k - 1, n - 1);
    }
  }

  /**
   What k steps from a cleared accumulator have computed: `m` is the part of the multiplier
   already used, `q` the rest, and `hi` the product bits that have been shifted into Y.
   */
  datatype Split = Split(hi: int, q: int, m: int)

  ghost predicate Fits(y: int, sum: int, b: int, y0: int, p: int, r: int, x: Split) {
    && 0 <= x.hi < p && 0 <= x.q < r
    && y0 == x.m + p * x.q
    && y == x.hi * r + x.q
    && 2 * (b * x.m) == sum * p + x.hi
  }

  ghost predicate Halfway(s: State, b: Word, y0: Word, k: nat, x: Split)
    requires k <= 32
  {
    Fits(s.y, s.Sum(), Signed(b), y0, Pow2(k), Pow2(32 - k), x)
  }

  function NextSplit(x: Split, p: int, low: int): Split {
    Split(x.hi + p * low, x.q / 2, x.m + p * (x.q % 2))
  }

  lemma FitsStep(y: int, sum: int, b: int, y0: int, p: int, r: int, x: Split)
    requires p * r == TWO31 && Fits(y, sum, b, y0, p, 2 * r, x)
    ensures Fits(y / 2 + TWO31 * (sum % 2), sum / 2 + (if y % 2 == 0 then 0 else b), b, y0, 2 * p, r,
                 NextSplit(x, p, sum % 2))
  {
    UsedStep(p, x.q, x.m, y0);
    ShiftStep(p, r, x.hi, x.q, sum % 2, y);
    ProductStep(b, x.m, x.q % 2, p, sum, x.hi);
  }

  lemma HalfwayStep(s: State, b: Word, y0: Word, k: nat, x: Split)
    requires k < 32 && Halfway(s, b, y0, k, x)
    ensures Halfway(Step(s, b), b, y0, k + 1, NextSplit(x, Pow2(k), s.Sum() % 2))
  {
    hide Step, GetIcc, State.Sum, Fits;
    StepSum(s, b);
    Pow2Split(k, 31);
    Pow2Of31();
    FitsStep(s.y, s.Sum(), Signed(b), y0, Pow2(k), Pow2(31 - k), x);
  }

  lemma Pow2Of31()
    ensures Pow2(31) == TWO31
  {
    assert Pow2(8) == 256;
    assert Pow2(16) == 65536;
    assert Pow2(24) == 0x100_0000;
  }

  lemma UsedStep(p: int, q: int, m: int, y0: int)
    requires y0 == m + p * q
    ensures y0 == (m + p * (q % 2)) + (2 * p) * (q / 2)
  {
    assert p * q == p * (q % 2) + p * (2 * (q / 2));
  }

  lemma ShiftStep(p: int, r: int, hi: int, q: int, low: int, y: int)
    requires p * r == TWO31 && y == hi * (2 * r) + q && 0 <= q < 2 * r && 0 <= hi < p && 0 <= low <= 1
    ensures y % 2 == q % 2 && 0 <= q / 2 < r && 0 <= hi + p * low < 2 * p
    ensures y / 2 + TWO31 * low == (hi + p * low) * r + q / 2
  {
    assert hi * (2 * r) == 2 * (hi * r);
    assert (hi + p * low) * r == hi * r + (p * r) * low;
    assert low == 0 || low == 1;
  }

  lemma ProductStep(b: int, m: int, bit: int, p: int, sum: int, hi: int)
    requires 2 * (b * m) == sum * p + hi && (bit == 0 || bit == 1)
    ensures 2 * (b * (m + p * bit)) ==
            (sum / 2 + (if bit == 0 then 0 else b)) * (2 * p) + (hi + p * (sum % 2))
  {
    var half, low := sum / 2, sum % 2;
    assert sum * p == 2 * (half * p) + low * p;
    if bit == 1 {
      assert b * (m + p * bit) == b * m + b * p;
      assert (half + b) * (2 * p) == 2 * (half * p) + 2 * (b * p);
    } else {
      assert p * bit == 0;
      assert half * (2 * p) == 2 * (half * p);
    }
  }

  lemma {:induction false} AfterSteps(s: State, b: Word, k: nat) returns (x: Split)
    requires k <= 32 && s.acc == 0 && s.icc.n == s.icc.v
    ensures Halfway(Steps(s, b, k), b, s.y, k, x)
  {
    hide Step, GetIcc;
    if k == 0 {
      x := Split(0, s.y, 0);
      Pow2Of31();
    } else {
      var before := AfterSteps(s, b, k - 1);
      HalfwayStep(Steps(s, b, k - 1), b, s.y, k - 1, before);
      x := NextSplit(before, Pow2(k - 1), Steps(s, b, k - 1).Sum() % 2);
    }
  }

  lemma LastStep(mid: State)
    ensures Signed(Step(mid, 0).acc) == mid.Sum() / 2
    ensures Step(mid, 0).y == mid.y / 2 + TWO31 * (mid.Sum() % 2)
  {
    StepSum(mid, 0);
  }

  /**
   The multiplication routine of The SPARC Architecture Manual Version 8: from a cleared
   accumulator with N equal to V, 32 steps with multiplicand `b` and one more with zero leave the
   64-bit product of the signed multiplicand and the unsigned initial Y in accumulator and Y.
   */
  lemma ThirtyTwoSteps(s: State, b: Word)
    requires s.acc == 0 && s.icc.n == s.icc.v
    ensures var done := Step(Steps(s, b, 32), 0);
            Signed(done.acc) * TWO32 + done.y == Signed(b) * s.y
  {
    hide Step, Steps, GetIcc, State.Sum;
    var x := AfterSteps(s, b, 32);
    var mid := Steps(s, b, 32);
    Pow2Of31();
    assert Pow2(32) == TWO32 && Pow2(0) == 1;
    LastStep(mid);
    assert x.q == 0 && x.m == s.y && mid.y == x.hi;
    var product := Signed(b) * s.y;
    assert 2 * product == mid.Sum() * TWO32 + x.hi;
  }
}
