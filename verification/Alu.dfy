/** 32-bit words as integers, and the condition codes of the SPARC integer unit. */
module Words {
  const TWO31 := 0x8000_0000
  const TWO32 := 0x1_0000_0000

  type Word = w: int | 0 <= w < 0x1_0000_0000

  /** The value of the word read as a 32-bit two's complement number. */
  function Signed(w: Word): (i: int)
    ensures -TWO31 <= i < TWO31
  {
    if w < TWO31 then w else w - TWO32
  }

  /** The word that holds an integer modulo 2^32. */
  function Wrap(i: int): Word {
    i % TWO32
  }

  /** A right shift by 31 of the word as a signed integer is nonzero. */
  predicate Negative(w: Word) {
    w >= TWO31
  }

  function Bit(b: bool): (i: int)
    ensures i == 0 || i == 1
  {
    if b then 1 else 0
  }

  function Pow2(n: nat): (p: int)
    ensures p > 0
  {
    if n == 0 then 1 else 2 * Pow2(n - 1)
  }

  datatype Icc = Icc(n: bool, z: bool, v: bool, c: bool)

  const CLEAR := Icc(false, false, false, false)
}

/**
The execute stage of src/core/execute.cpp: the arithmetic of perform_alu_operations and the
condition codes of geticc, with the branch conditions of src/core/except.cpp.
*/
module Alu {
  import opened Words

  datatype AluOp =
    | AluNop | AluAdd | AluAddDead | AluSub | AluSll | AluSrl | AluSra | AluMul
    | AluAnd | AluOr | AluXor | AluAndn | AluXnor | AluOrn | AluSethi

  // ---------------------------------------------------------------------------
  // Results and condition codes as functions
  // ---------------------------------------------------------------------------

  function AddResult(a: Word, b: Word, carry: bool): Word {
    Wrap(a + b + Bit(carry))
  }

  function SubResult(a: Word, b: Word, carry: bool): Word {
    Wrap(a - b - Bit(carry))
  }

  /** geticc: the flags are added to those already in the instruction. */
  function GetIcc(prior: Icc, op: AluOp, a: Word, b: Word, r: Word): Icc {
    var adds := op == AluAdd || op == AluMul;
    var v :=
      || (adds && Negative(a) == Negative(b) && Negative(a) != Negative(r))
      || (op == AluSub && Negative(a) != Negative(b) && Negative(a) != Negative(r));
    var c :=
      || (adds && ((Negative(a) && Negative(b)) || (!Negative(r) && (Negative(a) || Negative(b)))))
      || (op == AluSub && ((!Negative(a) && Negative(b)) || ((!Negative(a) || Negative(b)) && Negative(r))));
    Icc(prior.n || Negative(r), prior.z || r == 0, prior.v || v, prior.c || c)
  }

  /** Adding with a carry: C is the carry out, V is signed overflow, N xor V the true sign. */
  lemma AddFlags(a: Word, b: Word, carry: bool)
    ensures var r := AddResult(a, b, carry);
            var icc := GetIcc(CLEAR, AluAdd, a, b, r);
            var sum := Signed(a) + Signed(b) + Bit(carry);
            && r + TWO32 * Bit(icc.c) == a + b + Bit(carry)
            && (icc.v <==> !(-TWO31 <= sum < TWO31))
            && (icc.z <==> r == 0) && (icc.n <==> Signed(r) < 0)
            && ((icc.n != icc.v) <==> sum < 0)
  {
  }

  /** Subtracting with a borrow: C is the borrow, V is signed overflow, N xor V the true sign. */
  lemma SubFlags(a: Word, b: Word, carry: bool)
    ensures var r := SubResult(a, b, carry);
            var icc := GetIcc(CLEAR, AluSub, a, b, r);
            var difference := Signed(a) - Signed(b) - Bit(carry);
            && r - TWO32 * Bit(icc.c) == a - b - Bit(carry)
            && (icc.v <==> !(-TWO31 <= difference < TWO31))
            && (icc.z <==> r == 0) && (icc.n <==> Signed(r) < 0)
            && ((icc.n != icc.v) <==> difference < 0)
  {
  }

  /** Flags are only ever added, and every other operation says no more than sign and zero of its result. */
  lemma FlagsAdded(prior: Icc, op: AluOp, a: Word, b: Word, r: Word)
    ensures var icc := GetIcc(prior, op, a, b, r);
            var own := GetIcc(CLEAR, op, a, b, r);
            && (icc.n <==> prior.n || own.n) && (icc.z <==> prior.z || own.z)
            && (icc.v <==> prior.v || own.v) && (icc.c <==> prior.c || own.c)
    ensures op !in {AluAdd, AluSub, AluMul} ==>
              GetIcc(CLEAR, op, a, b, r) == Icc(Signed(r) < 0, r == 0, false, false)
  {
  }

  // ---------------------------------------------------------------------------
  // Branch conditions
  // ---------------------------------------------------------------------------

  datatype Condition =
    BN | BE | BLE | BL | BLEU | BCS | BNEG | BVS | BA | BNE | BG | BGE | BGU | BCC | BPOS | BVC

  /** The conditional part of branch_check. */
  predicate BranchTaken(cond: Condition, icc: Icc) {
    match cond
    case BA => true
    case BN => false
    case BNE => !icc.z
    case BE => icc.z
    case BG => !(icc.z || (icc.n != icc.v))
    case BLE => icc.z || (icc.n != icc.v)
    case BGE => !(icc.n != icc.v)
    case BL => icc.n != icc.v
    case BGU => !(icc.c || icc.z)
    case BLEU => icc.c || icc.z
    case BCC => !icc.c
    case BCS => icc.c
    case BPOS => !icc.n
    case BNEG => icc.n
    case BVC => !icc.v
    case BVS => icc.v
  }

  /** The relation between two compared words that each condition stands for. */
  predicate Relation(cond: Condition, a: Word, b: Word) {
    var difference := Signed(a) - Signed(b);
    match cond
    case BA => true
    case BN => false
    case BNE => a != b
    case BE => a == b
    case BG => Signed(a) > Signed(b)
    case BLE => Signed(a) <= Signed(b)
    case BGE => Signed(a) >= Signed(b)
    case BL => Signed(a) < Signed(b)
    case BGU => a > b
    case BLEU => a <= b
    case BCC => a >= b
    case BCS => a < b
    case BPOS => Signed(Wrap(a - b)) >= 0
    case BNEG => Signed(Wrap(a - b)) < 0
    case BVC => -TWO31 <= difference < TWO31
    case BVS => difference < -TWO31 || TWO31 <= difference
  }

  /** After SUBcc of a and b, every conditional branch is taken exactly when its relation holds. */
  lemma BranchAfterCompare(cond: Condition, a: Word, b: Word)
    ensures BranchTaken(cond, GetIcc(CLEAR, AluSub, a, b, SubResult(a, b, false))) <==> Relation(cond, a, b)
  {
    SubFlags(a, b, false);
  }

  // ---------------------------------------------------------------------------
  // Multiple-word arithmetic
  // ---------------------------------------------------------------------------

  /** The number whose 32-bit digits are `ws`, least significant first. */
  function Value(ws: seq<Word>): int {
    if ws == [] then 0 else ws[0] + TWO32 * Value(ws[1..])
  }

  function Scale(n: nat): int {
    if n == 0 then 1 else TWO32 * Scale(n - 1)
  }

  /** ADDcc (or ADDXcc, when a carry comes in) followed by ADDXcc on every further digit. */
  function AddWords(a: seq<Word>, b: seq<Word>, carry: bool): (r: (seq<Word>, bool))
    requires |a| == |b|
    ensures |r.0| == |a|
  {
    if a == [] then ([], carry)
    else
      var digit := AddResult(a[0], b[0], carry);
      var icc := GetIcc(CLEAR, AluAdd, a[0], b[0], digit);
      var (rest, last) := AddWords(a[1..], b[1..], icc.c);
      ([digit] + rest, last)
  }

  function SubWords(a: seq<Word>, b: seq<Word>, borrow: bool): (r: (seq<Word>, bool))
    requires |a| == |b|
    ensures |r.0| == |a|
  {
    if a == [] then ([], borrow)
    else
      var digit := SubResult(a[0], b[0], borrow);
      var icc := GetIcc(CLEAR, AluSub, a[0], b[0], digit);
      var (rest, last) := SubWords(a[1..], b[1..], icc.c);
      ([digit] + rest, last)
  }

  lemma {:induction false} AddWordsExact(a: seq<Word>, b: seq<Word>, carry: bool)
    requires |a| == |b|
    ensures var (r, last) := AddWords(a, b, carry);
            Value(r) + Scale(|a|) * Bit(last) == Value(a) + Value(b) + Bit(carry)
    decreases |a|
  {
    hide GetIcc, AddResult;
    if a == [] {
    } else {
      AddFlags(a[0], b[0], carry);
      var digit := AddResult(a[0], b[0], carry);
      var c := GetIcc(CLEAR, AluAdd, a[0], b[0], digit).c;
      AddWordsExact(a[1..], b[1..], c);
      var (rest, last) := AddWords(a[1..], b[1..], c);
      assert ([digit] + rest)[1..] == rest;
    }
  }

  lemma {:induction false} SubWordsExact(a: seq<Word>, b: seq<Word>, borrow: bool)
    requires |a| == |b|
    ensures var (r, last) := SubWords(a, b, borrow);
            Value(r) - Scale(|a|) * Bit(last) == Value(a) - Value(b) - Bit(borrow)
    decreases |a|
  {
    hide GetIcc, SubResult;
    if a == [] {
    } else {
      SubFlags(a[0], b[0], borrow);
      var digit := SubResult(a[0], b[0], borrow);
      var c := GetIcc(CLEAR, AluSub, a[0], b[0], digit).c;
      SubWordsExact(a[1..], b[1..], c);
      var (rest, last) := SubWords(a[1..], b[1..], c);
      assert ([digit] + rest)[1..] == rest;
    }
  }

  /** Subtraction undoes addition, for numbers of any length, with the carries matching. */
  lemma {:induction false} SubUndoesAdd(a: seq<Word>, b: seq<Word>, carry: bool)
    requires |a| == |b|
    ensures var (sum, last) := AddWords(a, b, carry);
            SubWords(sum, b, carry) == (a, last)
    decreases |a|
  {
    hide GetIcc, AddResult, SubResult;
    if a == [] {
    } else {
      AddFlags(a[0], b[0], carry);
      var digit := AddResult(a[0], b[0], carry);
      var c := GetIcc(CLEAR, AluAdd, a[0], b[0], digit).c;
      SubFlags(digit, b[0], carry);
      SubUndoesAdd(a[1..], b[1..], c);
      var (rest, last) := AddWords(a[1..], b[1..], c);
      assert ([digit] + rest)[1..] == rest;
      assert a == [a[0]] + a[1..];
    }
  }
}
