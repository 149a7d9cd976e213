/**
The cipher of soft/rsaref/src/source/desc.c against FIPS 46-3: the initial permutation, the expansion
of a half and the grouping of the round key. What remains of the standard is the contents of the
tables, which are a parameter.
*/
module DesStandard {
  import opened DesCipher
  import opened DesKeySchedule

  // ---------------------------------------------------------------------------
  // The initial permutation
  // ---------------------------------------------------------------------------

  /** Bits are numbered from 1, the leftmost, to 64. */
  type Position = n: bv7 | 1 <= n <= 64 witness 1

  /**
   The initial permutation of FIPS 46-3: the table's eight rows count down by eights, the first
   four from 58, 60, 62 and 64 and the others from 57, 59, 61 and 63.
   */
  function IP(n: Position): Position {
    var row, column := (n - 1) >> 3, (n - 1) & 7;
    (if row < 4 then 58 + 2 * row else 57 + 2 * (row - 4)) - 8 * column
  }

  /** Bit `n` of the block. */
  predicate BitOf(b: Block, n: Position) {
    if n <= 32 then (b.left >> (32 - n)) & 1 == 1 else (b.right >> (64 - n)) & 1 == 1
  }

  /** The two halves turned back by one place. */
  function TurnedBack(b: Block): Block {
    Block(RotateRight(b.left), RotateRight(b.right))
  }

  /** The bits of `y`, under the mask those of `u`. */
  function Blend(u: bv32, y: bv32, mask: bv32): bv32 {
    (y & !mask) | (u & mask)
  }

  lemma MaskedXor(u: bv32, y: bv32, mask: bv32)
    ensures y ^ ((u ^ y) & mask) == (y & !mask) | (u & mask)
  {
  }

  lemma XorOrder(u: bv32, y: bv32)
    ensures u ^ y == y ^ u
  {
  }

  lemma XorBlends(u: bv32, y: bv32, mask: bv32)
    ensures Lower(y, (u ^ y) & mask) == Blend(u, y, mask) == Lower(y, (y ^ u) & mask)
  {
    MaskedXor(u, y, mask);
    XorOrder(u, y);
  }

  /** The first word of an exchange, by which bits it takes from where. */
  function Taken(from: bv32, to: bv32, shift: bv6, mask: bv32): bv32
    requires shift <= 32
  {
    Blend(to << shift, from, mask << shift)
  }

  /** The second word of an exchange. */
  function Given(from: bv32, to: bv32, shift: bv6, mask: bv32): bv32
    requires shift <= 32
  {
    Blend(from >> shift, to, mask)
  }

  lemma LowerGiven(x: bv32, y: bv32, shift: bv6, mask: bv32)
    requires shift <= 32
    ensures Lower(y, Work(x, y, shift, mask)) == Given(x, y, shift, mask)
  {
    hide Blend, Lower;
    XorBlends(x >> shift, y, mask);
  }

  lemma UpperIsLower(x: bv32, work: bv32, shift: bv6)
    requires shift <= 32
    ensures Upper(x, work, shift) == Lower(x, work << shift)
  {
  }

  lemma WorkShifted4(x: bv32, y: bv32)
    ensures Work(x, y, 4, 0x0f0f0f0f) << 4 == ((y << 4) ^ x) & (0x0f0f0f0f << 4)
  {
  }

  lemma Exchanged4(x: bv32, y: bv32)
    ensures Exchange(x, y, 4, 0x0f0f0f0f) == (Taken(x, y, 4, 0x0f0f0f0f), Given(x, y, 4, 0x0f0f0f0f))
  {
    hide Blend, Work, Lower, Upper, Given;
    LowerGiven(x, y, 4, 0x0f0f0f0f);
    UpperIsLower(x, Work(x, y, 4, 0x0f0f0f0f), 4);
    WorkShifted4(x, y);
    XorBlends(y << 4, x, 0x0f0f0f0f << 4);
  }

  lemma WorkShifted16(x: bv32, y: bv32)
    ensures Work(x, y, 16, 0x0000ffff) << 16 == ((y << 16) ^ x) & (0x0000ffff << 16)
  {
  }

  lemma Exchanged16(x: bv32, y: bv32)
    ensures Exchange(x, y, 16, 0x0000ffff) == (Taken(x, y, 16, 0x0000ffff), Given(x, y, 16, 0x0000ffff))
  {
    hide Blend, Work, Lower, Upper, Given;
    LowerGiven(x, y, 16, 0x0000ffff);
    UpperIsLower(x, Work(x, y, 16, 0x0000ffff), 16);
    WorkShifted16(x, y);
    XorBlends(y << 16, x, 0x0000ffff << 16);
  }

  lemma WorkShifted2(x: bv32, y: bv32)
    ensures Work(x, y, 2, 0x33333333) << 2 == ((y << 2) ^ x) & (0x33333333 << 2)
  {
  }

  lemma Exchanged2(x: bv32, y: bv32)
    ensures Exchange(x, y, 2, 0x33333333) == (Taken(x, y, 2, 0x33333333), Given(x, y, 2, 0x33333333))
  {
    hide Blend, Work, Lower, Upper, Given;
    LowerGiven(x, y, 2, 0x33333333);
    UpperIsLower(x, Work(x, y, 2, 0x33333333), 2);
    WorkShifted2(x, y);
    XorBlends(y << 2, x, 0x33333333 << 2);
  }

  lemma WorkShifted8(x: bv32, y: bv32)
    ensures Work(x, y, 8, 0x00ff00ff) << 8 == ((y << 8) ^ x) & (0x00ff00ff << 8)
  {
  }

  lemma Exchanged8(x: bv32, y: bv32)
    ensures Exchange(x, y, 8, 0x00ff00ff) == (Taken(x, y, 8, 0x00ff00ff), Given(x, y, 8, 0x00ff00ff))
  {
    hide Blend, Work, Lower, Upper, Given;
    LowerGiven(x, y, 8, 0x00ff00ff);
    UpperIsLower(x, Work(x, y, 8, 0x00ff00ff), 8);
    WorkShifted8(x, y);
    XorBlends(y << 8, x, 0x00ff00ff << 8);
  }

  /** The four exchanges of the opening, by bits. */
  function Moves(b: Block): Block {
    var l1, r1 := Taken(b.left, b.right, 4, 0x0f0f0f0f), Given(b.left, b.right, 4, 0x0f0f0f0f);
    var l2, r2 := Taken(l1, r1, 16, 0x0000ffff), Given(l1, r1, 16, 0x0000ffff);
    var r3, l3 := Taken(r2, l2, 2, 0x33333333), Given(r2, l2, 2, 0x33333333);
    var r4, l4 := Taken(r3, l3, 8, 0x00ff00ff), Given(r3, l3, 8, 0x00ff00ff);
    Block(l4, r4)
  }

  lemma MixMoves(b: Block)
    ensures Mix(b) == Moves(b)
  {
    hide Taken, Given, Exchange;
    var e1 := Exchange(b.left, b.right, 4, 0x0f0f0f0f);
    var e2 := Exchange(e1.0, e1.1, 16, 0x0000ffff);
    var e3 := Exchange(e2.1, e2.0, 2, 0x33333333);
    Exchanged4(b.left, b.right);
    Exchanged16(e1.0, e1.1);
    Exchanged2(e2.1, e2.0);
    Exchanged8(e3.0, e3.1);
  }

  /** The odd-bit exchange, by bits, without the rotations that follow it. */
  function Turns(b: Block): Block {
    var r1 := RotateLeft(b.right);
    Block(Blend(r1, b.left, 0xaaaaaaaa), RotateRight(Blend(b.left, r1, 0xaaaaaaaa)))
  }

  lemma OddBlends(x: bv32, y: bv32)
    ensures Lower(x, OddWork(x, y)) == Blend(y, x, 0xaaaaaaaa)
    ensures Lower(y, OddWork(x, y)) == Blend(x, y, 0xaaaaaaaa)
  {
    hide Blend, Lower;
    XorBlends(y, x, 0xaaaaaaaa);
    XorBlends(x, y, 0xaaaaaaaa);
  }

  lemma TwistTurns(b: Block)
    ensures TurnedBack(Twist(b)) == Turns(b)
  {
    hide Blend, RotateRight, RotateLeft, OddWork, Lower;
    OddBlends(b.left, RotateLeft(b.right));
    RotateBack(Blend(RotateLeft(b.right), b.left, 0xaaaaaaaa));
  }

  lemma OpeningMoves(b: Block)
    ensures TurnedBack(Opening(b)) == Turns(Moves(b))
  {
    hide Twist, Mix, Turns, Moves, TurnedBack;
    MixMoves(b);
    TwistTurns(Mix(b));
  }

  /** Position `n` after the moves holds the bit of position `m`. */
  predicate Moved(b: Block, n: Position, m: Position) {
    BitOf(Turns(Moves(b)), n) <==> BitOf(b, m)
  }

  lemma Row1(b: Block)
    ensures Moved(b, 1, 58) && Moved(b, 2, 50) && Moved(b, 3, 42) && Moved(b, 4, 34)
    ensures Moved(b, 5, 26) && Moved(b, 6, 18) && Moved(b, 7, 10) && Moved(b, 8, 2)
  {
  }

  lemma Row2(b: Block)
    ensures Moved(b, 9, 60) && Moved(b, 10, 52) && Moved(b, 11, 44) && Moved(b, 12, 36)
    ensures Moved(b, 13, 28) && Moved(b, 14, 20) && Moved(b, 15, 12) && Moved(b, 16, 4)
  {
  }

  lemma Row3(b: Block)
    ensures Moved(b, 17, 62) && Moved(b, 18, 54) && Moved(b, 19, 46) && Moved(b, 20, 38)
    ensures Moved(b, 21, 30) && Moved(b, 22, 22) && Moved(b, 23, 14) && Moved(b, 24, 6)
  {
  }

  lemma Row4(b: Block)
    ensures Moved(b, 25, 64) && Moved(b, 26, 56) && Moved(b, 27, 48) && Moved(b, 28, 40)
    ensures Moved(b, 29, 32) && Moved(b, 30, 24) && Moved(b, 31, 16) && Moved(b, 32, 8)
  {
  }

  lemma Row5(b: Block)
    ensures Moved(b, 33, 57) && Moved(b, 34, 49) && Moved(b, 35, 41) && Moved(b, 36, 33)
    ensures Moved(b, 37, 25) && Moved(b, 38, 17) && Moved(b, 39, 9) && Moved(b, 40, 1)
  {
  }

  lemma Row6(b: Block)
    ensures Moved(b, 41, 59) && Moved(b, 42, 51) && Moved(b, 43, 43) && Moved(b, 44, 35)
    ensures Moved(b, 45, 27) && Moved(b, 46, 19) && Moved(b, 47, 11) && Moved(b, 48, 3)
  {
  }

  lemma Row7(b: Block)
    ensures Moved(b, 49, 61) && Moved(b, 50, 53) && Moved(b, 51, 45) && Moved(b, 52, 37)
    ensures Moved(b, 53, 29) && Moved(b, 54, 21) && Moved(b, 55, 13) && Moved(b, 56, 5)
  {
  }

  lemma Row8(b: Block)
    ensures Moved(b, 57, 63) && Moved(b, 58, 55) && Moved(b, 59, 47) && Moved(b, 60, 39)
    ensures Moved(b, 61, 31) && Moved(b, 62, 23) && Moved(b, 63, 15) && Moved(b, 64, 7)
  {
  }

  /** The opening of DESFunction is IP followed by a rotation of both halves by one place. */
  lemma OpeningIsInitialPermutation(b: Block, n: Position)
    ensures BitOf(TurnedBack(Opening(b)), n) <==> BitOf(b, IP(n))
  {
    hide BitOf, TurnedBack, Opening, Turns, Moves;
    OpeningMoves(b);
    Row1(b);
    Row2(b);
    Row3(b);
    Row4(b);
    Row5(b);
    Row6(b);
    Row7(b);
    Row8(b);
    assert Moved(b, n, IP(n)) by {
      hide Moved;
    }
  }

  /** The closing takes halves rotated in that way, the last two exchanged, to the inverse of IP. */
  lemma ClosingIsFinalPermutation(b: Block, n: Position)
    ensures BitOf(TurnedBack(b.Swap()), n) <==> BitOf(Closing(b), IP(n))
  {
    hide BitOf, TurnedBack, Opening, Closing;
    OpeningUndoesClosing(b);
    OpeningIsInitialPermutation(Closing(b), n);
  }

  // ---------------------------------------------------------------------------
  // The inputs of the eight boxes
  // ---------------------------------------------------------------------------

  type Box = g: bv6 | 1 <= g <= 8 witness 1

  /** Bit `n` of a half, 1 to 32 from the left, where 0 stands for 32 and 33 for 1. */
  function HalfBit(r: bv32, n: bv6): bv6
    requires n <= 33
  {
    var m := if n == 0 then 32 else if n == 33 then 1 else n;
    ((r >> (32 - m)) & 1) as bv6
  }

  /** The six bits of the expansion E of FIPS 46-3 for a box: four of the half and one on each side. */
  function Expansion(r: bv32, g: Box): bv6 {
    var n := 4 * g - 4;
    (HalfBit(r, n) << 5) | (HalfBit(r, n + 1) << 4) | (HalfBit(r, n + 2) << 3) | (HalfBit(r, n + 3) << 2)
    | (HalfBit(r, n + 4) << 1) | HalfBit(r, n + 5)
  }

  /** The six bits of a round key for a box: 24 bits in each of two words, leftmost first. */
  function KeyGroup(raw0: bv32, raw1: bv32, g: Box): bv6 {
    if g <= 4 then Six(raw0, 24 - 6 * g) else Six(raw1, 48 - 6 * g)
  }

  function XorSix(x: bv6, y: bv6): bv6 {
    x ^ y
  }

  /** What FIPS 46-3 feeds to a box. */
  function BoxInput(r: bv32, raw0: bv32, raw1: bv32, g: Box): bv6 {
    XorSix(Expansion(r, g), KeyGroup(raw0, raw1, g))
  }

  lemma OddExpansion(r: bv32)
    ensures Six(Turned(RotateLeft(r)), 24) == Expansion(r, 1)
    ensures Six(Turned(RotateLeft(r)), 16) == Expansion(r, 3)
    ensures Six(Turned(RotateLeft(r)), 8) == Expansion(r, 5)
    ensures Six(Turned(RotateLeft(r)), 0) == Expansion(r, 7)
  {
  }

  lemma EvenExpansion(r: bv32)
    ensures Six(RotateLeft(r), 24) == Expansion(r, 2)
    ensures Six(RotateLeft(r), 16) == Expansion(r, 4)
    ensures Six(RotateLeft(r), 8) == Expansion(r, 6)
    ensures Six(RotateLeft(r), 0) == Expansion(r, 8)
  {
  }

  lemma OddKeyGroups(raw0: bv32, raw1: bv32)
    ensures Six(CookedPair(raw0, raw1).0, 24) == KeyGroup(raw0, raw1, 1)
    ensures Six(CookedPair(raw0, raw1).0, 16) == KeyGroup(raw0, raw1, 3)
    ensures Six(CookedPair(raw0, raw1).0, 8) == KeyGroup(raw0, raw1, 5)
    ensures Six(CookedPair(raw0, raw1).0, 0) == KeyGroup(raw0, raw1, 7)
  {
  }

  lemma EvenKeyGroups(raw0: bv32, raw1: bv32)
    ensures Six(CookedPair(raw0, raw1).1, 24) == KeyGroup(raw0, raw1, 2)
    ensures Six(CookedPair(raw0, raw1).1, 16) == KeyGroup(raw0, raw1, 4)
    ensures Six(CookedPair(raw0, raw1).1, 8) == KeyGroup(raw0, raw1, 6)
    ensures Six(CookedPair(raw0, raw1).1, 0) == KeyGroup(raw0, raw1, 8)
  {
  }

  lemma XorAt0(x: bv32, y: bv32)
    ensures Six(XorWord(x, y), 0) == XorSix(Six(x, 0), Six(y, 0))
  {
  }

  lemma XorAt8(x: bv32, y: bv32)
    ensures Six(XorWord(x, y), 8) == XorSix(Six(x, 8), Six(y, 8))
  {
  }

  lemma XorAt16(x: bv32, y: bv32)
    ensures Six(XorWord(x, y), 16) == XorSix(Six(x, 16), Six(y, 16))
  {
  }

  lemma XorAt24(x: bv32, y: bv32)
    ensures Six(XorWord(x, y), 24) == XorSix(Six(x, 24), Six(y, 24))
  {
  }

  lemma OddBoxInputs(r: bv32, raw0: bv32, raw1: bv32)
    ensures var cooked := CookedPair(raw0, raw1);
            var w := OddInput(RotateLeft(r), KeyPair(cooked.0, cooked.1));
            && Six(w, 24) == BoxInput(r, raw0, raw1, 1) && Six(w, 16) == BoxInput(r, raw0, raw1, 3)
            && Six(w, 8) == BoxInput(r, raw0, raw1, 5) && Six(w, 0) == BoxInput(r, raw0, raw1, 7)
  {
    hide Six, Expansion, KeyGroup, CookedPair, RotateLeft, Turned, XorWord, XorSix;
    var cooked := CookedPair(raw0, raw1);
    XorAt0(Turned(RotateLeft(r)), cooked.0);
    XorAt8(Turned(RotateLeft(r)), cooked.0);
    XorAt16(Turned(RotateLeft(r)), cooked.0);
    XorAt24(Turned(RotateLeft(r)), cooked.0);
    OddExpansion(r);
    OddKeyGroups(raw0, raw1);
  }

  lemma EvenBoxInputs(r: bv32, raw0: bv32, raw1: bv32)
    ensures var cooked := CookedPair(raw0, raw1);
            var w := EvenInput(RotateLeft(r), KeyPair(cooked.0, cooked.1));
            && Six(w, 24) == BoxInput(r, raw0, raw1, 2) && Six(w, 16) == BoxInput(r, raw0, raw1, 4)
            && Six(w, 8) == BoxInput(r, raw0, raw1, 6) && Six(w, 0) == BoxInput(r, raw0, raw1, 8)
  {
    hide Six, Expansion, KeyGroup, CookedPair, RotateLeft, Turned, XorWord, XorSix;
    var cooked := CookedPair(raw0, raw1);
    XorAt0(RotateLeft(r), cooked.1);
    XorAt8(RotateLeft(r), cooked.1);
    XorAt16(RotateLeft(r), cooked.1);
    XorAt24(RotateLeft(r), cooked.1);
    EvenExpansion(r);
    EvenKeyGroups(raw0, raw1);
  }

  /**
   The value of a round on a half turned by one place, under a cooked key pair, combines the eight
   boxes applied to the groups of the expansion of the half xored with the round key.
   */
  lemma RoundValueIsStandard(sp: SPBoxes, r: bv32, raw0: bv32, raw1: bv32)
    ensures var cooked := CookedPair(raw0, raw1);
            RoundValue(sp, RotateLeft(r), KeyPair(cooked.0, cooked.1)) ==
              (sp.sp7(BoxInput(r, raw0, raw1, 7)) | sp.sp5(BoxInput(r, raw0, raw1, 5))
               | sp.sp3(BoxInput(r, raw0, raw1, 3)) | sp.sp1(BoxInput(r, raw0, raw1, 1)))
              | (sp.sp8(BoxInput(r, raw0, raw1, 8)) | sp.sp6(BoxInput(r, raw0, raw1, 6))
                 | sp.sp4(BoxInput(r, raw0, raw1, 4)) | sp.sp2(BoxInput(r, raw0, raw1, 2)))
  {
    hide Six, BoxInput, CookedPair, RotateLeft, OddInput, EvenInput;
    OddBoxInputs(r, raw0, raw1);
    EvenBoxInputs(r, raw0, raw1);
  }

  // ---------------------------------------------------------------------------
  // The whole cipher
  // ---------------------------------------------------------------------------

  /** The eight boxes on their inputs, each already permuted and turned left by one place. */
  function Boxes(sp: SPBoxes, r: bv32, raw: (bv32, bv32)): bv32 {
    (sp.sp7(BoxInput(r, raw.0, raw.1, 7)) | sp.sp5(BoxInput(r, raw.0, raw.1, 5))
     | sp.sp3(BoxInput(r, raw.0, raw.1, 3)) | sp.sp1(BoxInput(r, raw.0, raw.1, 1)))
    | (sp.sp8(BoxInput(r, raw.0, raw.1, 8)) | sp.sp6(BoxInput(r, raw.0, raw.1, 6))
       | sp.sp4(BoxInput(r, raw.0, raw.1, 4)) | sp.sp2(BoxInput(r, raw.0, raw.1, 2)))
  }

  /** The halves L and R of FIPS 46-3 after one round under each key in turn. */
  function StandardRounds(sp: SPBoxes, h: Block, raw: seq<(bv32, bv32)>): Block
    decreases |raw|
  {
    if raw == [] then h
    else
      StandardRounds(sp, Block(h.right, XorWord(h.left, RotateRight(Boxes(sp, h.right, raw[0])))), raw[1..])
  }

  function TurnedLeft(b: Block): Block {
    Block(RotateLeft(b.left), RotateLeft(b.right))
  }

  lemma RotatedXor(x: bv32, y: bv32)
    ensures XorWord(RotateLeft(x), RotateLeft(y)) == RotateLeft(XorWord(x, y))
  {
  }

  lemma RoundTurned(sp: SPBoxes, h: Block, raw: (bv32, bv32))
    ensures var cooked := CookedPair(raw.0, raw.1);
            Round(sp, TurnedLeft(h), KeyPair(cooked.0, cooked.1)) ==
            TurnedLeft(Block(h.right, XorWord(h.left, RotateRight(Boxes(sp, h.right, raw)))))
  {
    hide RotateLeft, RotateRight, XorWord, CookedPair, RoundValue, BoxInput;
    RoundValueIsStandard(sp, h.right, raw.0, raw.1);
    RotateBack(Boxes(sp, h.right, raw));
    RotatedXor(h.left, RotateRight(Boxes(sp, h.right, raw)));
  }

  lemma {:induction false} RoundsTurned(sp: SPBoxes, h: Block, raw: seq<(bv32, bv32)>)
    ensures Iterate(Rounds(sp), TurnedLeft(h), CookedPairs(CookedPair, raw)) == TurnedLeft(StandardRounds(sp, h, raw))
    decreases |raw|
  {
    hide Round, TurnedLeft, Boxes, CookedPair, XorWord, RotateRight;
    if raw != [] {
      var keys := CookedPairs(CookedPair, raw);
      assert keys[1..] == CookedPairs(CookedPair, raw[1..]);
      CookedAt(CookedPair, raw, 0);
      RoundTurned(sp, h, raw[0]);
      RoundsTurned(sp, Block(h.right, XorWord(h.left, RotateRight(Boxes(sp, h.right, raw[0])))), raw[1..]);
    }
  }

  /** Every bit of the second block is the one that IP takes from the first. */
  ghost predicate Permuted(b: Block, p: Block) {
    forall n: Position :: BitOf(p, n) <==> BitOf(b, IP(n))
  }

  predicate SameBit(a: Block, b: Block, n: Position) {
    BitOf(a, n) <==> BitOf(b, n)
  }

  function ByteOf(w: bv32, shift: bv6): bv32
    requires shift <= 32
  {
    (w >> shift) & 0xff
  }

  lemma SameByte1(a: Block, b: Block)
    requires SameBit(a, b, 1) && SameBit(a, b, 2) && SameBit(a, b, 3) && SameBit(a, b, 4)
    requires SameBit(a, b, 5) && SameBit(a, b, 6) && SameBit(a, b, 7) && SameBit(a, b, 8)
    ensures ByteOf(a.left, 24) == ByteOf(b.left, 24)
  {
  }

  lemma SameByte2(a: Block, b: Block)
    requires SameBit(a, b, 9) && SameBit(a, b, 10) && SameBit(a, b, 11) && SameBit(a, b, 12)
    requires SameBit(a, b, 13) && SameBit(a, b, 14) && SameBit(a, b, 15) && SameBit(a, b, 16)
    ensures ByteOf(a.left, 16) == ByteOf(b.left, 16)
  {
  }

  lemma SameByte3(a: Block, b: Block)
    requires SameBit(a, b, 17) && SameBit(a, b, 18) && SameBit(a, b, 19) && SameBit(a, b, 20)
    requires SameBit(a, b, 21) && SameBit(a, b, 22) && SameBit(a, b, 23) && SameBit(a, b, 24)
    ensures ByteOf(a.left, 8) == ByteOf(b.left, 8)
  {
  }

  lemma SameByte4(a: Block, b: Block)
    requires SameBit(a, b, 25) && SameBit(a, b, 26) && SameBit(a, b, 27) && SameBit(a, b, 28)
    requires SameBit(a, b, 29) && SameBit(a, b, 30) && SameBit(a, b, 31) && SameBit(a, b, 32)
    ensures ByteOf(a.left, 0) == ByteOf(b.left, 0)
  {
  }

  lemma SameByte5(a: Block, b: Block)
    requires SameBit(a, b, 33) && SameBit(a, b, 34) && SameBit(a, b, 35) && SameBit(a, b, 36)
    requires SameBit(a, b, 37) && SameBit(a, b, 38) && SameBit(a, b, 39) && SameBit(a, b, 40)
    ensures ByteOf(a.right, 24) == ByteOf(b.right, 24)
  {
  }

  lemma SameByte6(a: Block, b: Block)
    requires SameBit(a, b, 41) && SameBit(a, b, 42) && SameBit(a, b, 43) && SameBit(a, b, 44)
    requires SameBit(a, b, 45) && SameBit(a, b, 46) && SameBit(a, b, 47) && SameBit(a, b, 48)
    ensures ByteOf(a.right, 16) == ByteOf(b.right, 16)
  {
  }

  lemma SameByte7(a: Block, b: Block)
    requires SameBit(a, b, 49) && SameBit(a, b, 50) && SameBit(a, b, 51) && SameBit(a, b, 52)
    requires SameBit(a, b, 53) && SameBit(a, b, 54) && SameBit(a, b, 55) && SameBit(a, b, 56)
    ensures ByteOf(a.right, 8) == ByteOf(b.right, 8)
  {
  }

  lemma SameByte8(a: Block, b: Block)
    requires SameBit(a, b, 57) && SameBit(a, b, 58) && SameBit(a, b, 59) && SameBit(a, b, 60)
    requires SameBit(a, b, 61) && SameBit(a, b, 62) && SameBit(a, b, 63) && SameBit(a, b, 64)
    ensures ByteOf(a.right, 0) == ByteOf(b.right, 0)
  {
  }

  lemma SameWord(x: bv32, y: bv32)
    requires ByteOf(x, 24) == ByteOf(y, 24) && ByteOf(x, 16) == ByteOf(y, 16)
    requires ByteOf(x, 8) == ByteOf(y, 8) && ByteOf(x, 0) == ByteOf(y, 0)
    ensures x == y
  {
  }

  lemma SameBits(a: Block, b: Block)
    requires forall n: Position :: BitOf(a, n) <==> BitOf(b, n)
    ensures a == b
  {
    forall n: Position
      ensures SameBit(a, b, n)
    {
    }
    hide BitOf, SameBit, ByteOf;
    SameByte1(a, b);
    SameByte2(a, b);
    SameByte3(a, b);
    SameByte4(a, b);
    SameByte5(a, b);
    SameByte6(a, b);
    SameByte7(a, b);
    SameByte8(a, b);
    SameWord(a.left, b.left);
    SameWord(a.right, b.right);
  }

  /**
   The cipher of the program is that of FIPS 46-3 up to the tables: permute the block by IP, run the
   rounds on the halves, exchange them and undo IP.
   */
  lemma CipherIsStandard(sp: SPBoxes, b: Block, p: Block, raw: seq<(bv32, bv32)>)
    requires Permuted(b, p)
    ensures Permuted(Cipher(sp, b, CookedPairs(CookedPair, raw)), StandardRounds(sp, p, raw).Swap())
  {
    hide BitOf, IP, Opening, Closing, RotateLeft, RotateRight, CookedPair, CookedPairs, StandardRounds;
    forall n: Position
      ensures BitOf(TurnedBack(Opening(b)), n) <==> BitOf(p, n)
    {
      OpeningIsInitialPermutation(b, n);
    }
    SameBits(TurnedBack(Opening(b)), p);
    RotateBack(Opening(b).left);
    RotateBack(Opening(b).right);
    assert Opening(b) == TurnedLeft(p) by {
      TurnedForth(Opening(b));
    }
    RoundsTurned(sp, p, raw);
    var h := StandardRounds(sp, p, raw);
    RotateBack(h.left);
    RotateBack(h.right);
    forall n: Position
      ensures BitOf(h.Swap(), n) <==> BitOf(Closing(TurnedLeft(h)), IP(n))
    {
      ClosingIsFinalPermutation(TurnedLeft(h), n);
    }
  }

  lemma TurnedForth(b: Block)
    ensures TurnedLeft(TurnedBack(b)) == b
  {
    hide RotateLeft, RotateRight;
    RotateBack(b.left);
    RotateBack(b.right);
  }
}
