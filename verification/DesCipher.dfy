/**
The block cipher of soft/rsaref/src/source/desc.c: the opening and closing bit
permutations, the sixteen Feistel rounds and their inversion.

Nothing here depends on what the SP boxes contain: they are a parameter, so every
statement holds for all tables.
*/
module DesCipher {

  /** Two 32-bit words: `block[0]` and `block[1]`, or the two halves `left` and `right`. */
  datatype Block = Block(left: bv32, right: bv32) {
    function Swap(): Block {
      Block(right, left)
    }

    function Xor(other: Block): Block {
      Block(XorWord(left, other.left), XorWord(right, other.right))
    }
  }

  function XorWord(x: bv32, y: bv32): bv32 {
    x ^ y
  }

  /** One round's pair of cooked subkey words. */
  datatype KeyPair = KeyPair(odd: bv32, even: bv32)

  /** The combined S-box and P-permutation tables SP1..SP8, indexed by six bits. */
  datatype SPBoxes = SPBoxes(
    sp1: bv6 -> bv32, sp2: bv6 -> bv32, sp3: bv6 -> bv32, sp4: bv6 -> bv32,
    sp5: bv6 -> bv32, sp6: bv6 -> bv32, sp7: bv6 -> bv32, sp8: bv6 -> bv32)

  /** Six bits of a word, `place` bits up from the lowest. */
  function Six(w: bv32, place: bv6): bv6
    requires place <= 32
  {
    ((w >> place) & 0x3f) as bv6
  }

  function OddBoxes(sp: SPBoxes, w: bv32): bv32 {
    sp.sp7(Six(w, 0)) | sp.sp5(Six(w, 8)) | sp.sp3(Six(w, 16)) | sp.sp1(Six(w, 24))
  }

  function EvenBoxes(sp: SPBoxes, w: bv32): bv32 {
    sp.sp8(Six(w, 0)) | sp.sp6(Six(w, 8)) | sp.sp4(Six(w, 16)) | sp.sp2(Six(w, 24))
  }

  /** A half turned right by four places, as the odd boxes read it. */
  function Turned(half: bv32): bv32 {
    (half << 28) | (half >> 4)
  }

  function OddInput(half: bv32, k: KeyPair): bv32 {
    XorWord(Turned(half), k.odd)
  }

  function EvenInput(half: bv32, k: KeyPair): bv32 {
    XorWord(half, k.even)
  }

  /** The value that one round xors into the other half. */
  function RoundValue(sp: SPBoxes, half: bv32, k: KeyPair): bv32 {
    OddBoxes(sp, OddInput(half, k)) | EvenBoxes(sp, EvenInput(half, k))
  }

  // ---------------------------------------------------------------------------
  // The bit permutations
  // ---------------------------------------------------------------------------

  /** Where the bits of `to` under `mask` differ from those of `from` that lie `shift` higher. */
  function Work(from: bv32, to: bv32, shift: bv6, mask: bv32): bv32
    requires shift <= 32
  {
    ((from >> shift) ^ to) & mask
  }

  function Upper(from: bv32, work: bv32, shift: bv6): bv32
    requires shift <= 32
  {
    from ^ (work << shift)
  }

  function Lower(to: bv32, work: bv32): bv32 {
    to ^ work
  }

  /** Exchanges the bits of `to` under `mask` with the bits of `from` that lie `shift` higher. */
  function Exchange(from: bv32, to: bv32, shift: bv6, mask: bv32): (bv32, bv32)
    requires shift <= 32
  {
    var work := Work(from, to, shift, mask);
    (Upper(from, work, shift), Lower(to, work))
  }

  /** The four exchanges that open DESFunction. */
  function Mix(b: Block): Block {
    var (l1, r1) := Exchange(b.left, b.right, 4, 0x0f0f0f0f);
    var (l2, r2) := Exchange(l1, r1, 16, 0x0000ffff);
    var (r3, l3) := Exchange(r2, l2, 2, 0x33333333);
    var (r4, l4) := Exchange(r3, l3, 8, 0x00ff00ff);
    Block(l4, r4)
  }

  function RotateLeft(w: bv32): bv32 {
    (w << 1) | ((w >> 31) & 1)
  }

  function RotateRight(w: bv32): bv32 {
    (w << 31) | (w >> 1)
  }

  /** Where the odd bits of two words differ. */
  function OddWork(x: bv32, y: bv32): bv32 {
    (x ^ y) & 0xaaaaaaaa
  }

  /** The one-bit rotations around the odd-bit exchange. */
  function Twist(b: Block): Block {
    var r1 := RotateLeft(b.right);
    var work := OddWork(b.left, r1);
    Block(RotateLeft(Lower(b.left, work)), Lower(r1, work))
  }

  function Untwist(b: Block): Block {
    var r1 := RotateRight(b.right);
    var work := OddWork(b.left, r1);
    Block(RotateRight(Lower(b.left, work)), Lower(r1, work))
  }

  function Unmix(b: Block): Block {
    var (l1, r1) := Exchange(b.left, b.right, 8, 0x00ff00ff);
    var (l2, r2) := Exchange(l1, r1, 2, 0x33333333);
    var (r3, l3) := Exchange(r2, l2, 16, 0x0000ffff);
    var (r4, l4) := Exchange(r3, l3, 4, 0x0f0f0f0f);
    Block(l4, r4)
  }

  /** The opening permutation of DESFunction. */
  function Opening(b: Block): Block {
    Twist(Mix(b))
  }

  /** The closing permutation of DESFunction; the two words are stored exchanged. */
  function Closing(b: Block): Block {
    Unmix(Untwist(b)).Swap()
  }

  lemma UpperTwice(x: bv32, work: bv32, shift: bv6)
    requires shift <= 32
    ensures Upper(Upper(x, work, shift), work, shift) == x
  {
  }

  lemma LowerTwice(y: bv32, work: bv32)
    ensures Lower(Lower(y, work), work) == y
  {
  }

  lemma WorkAgain4(x: bv32, y: bv32)
    ensures var w := Work(x, y, 4, 0x0f0f0f0f); Work(Upper(x, w, 4), Lower(y, w), 4, 0x0f0f0f0f) == w
  {
  }

  lemma ExchangeTwice4(x: bv32, y: bv32)
    ensures var e := Exchange(x, y, 4, 0x0f0f0f0f); Exchange(e.0, e.1, 4, 0x0f0f0f0f) == (x, y)
  {
    hide Work, Upper, Lower;
    var w := Work(x, y, 4, 0x0f0f0f0f);
    WorkAgain4(x, y);
    UpperTwice(x, w, 4);
    LowerTwice(y, w);
  }

  lemma WorkAgain16(x: bv32, y: bv32)
    ensures var w := Work(x, y, 16, 0x0000ffff); Work(Upper(x, w, 16), Lower(y, w), 16, 0x0000ffff) == w
  {
  }

  lemma ExchangeTwice16(x: bv32, y: bv32)
    ensures var e := Exchange(x, y, 16, 0x0000ffff); Exchange(e.0, e.1, 16, 0x0000ffff) == (x, y)
  {
    hide Work, Upper, Lower;
    var w := Work(x, y, 16, 0x0000ffff);
    WorkAgain16(x, y);
    UpperTwice(x, w, 16);
    LowerTwice(y, w);
  }

  lemma WorkAgain2(x: bv32, y: bv32)
    ensures var w := Work(x, y, 2, 0x33333333); Work(Upper(x, w, 2), Lower(y, w), 2, 0x33333333) == w
  {
  }

  lemma ExchangeTwice2(x: bv32, y: bv32)
    ensures var e := Exchange(x, y, 2, 0x33333333); Exchange(e.0, e.1, 2, 0x33333333) == (x, y)
  {
    hide Work, Upper, Lower;
    var w := Work(x, y, 2, 0x33333333);
    WorkAgain2(x, y);
    UpperTwice(x, w, 2);
    LowerTwice(y, w);
  }

  lemma WorkAgain8(x: bv32, y: bv32)
    ensures var w := Work(x, y, 8, 0x00ff00ff); Work(Upper(x, w, 8), Lower(y, w), 8, 0x00ff00ff) == w
  {
  }

  lemma ExchangeTwice8(x: bv32, y: bv32)
    ensures var e := Exchange(x, y, 8, 0x00ff00ff); Exchange(e.0, e.1, 8, 0x00ff00ff) == (x, y)
  {
    hide Work, Upper, Lower;
    var w := Work(x, y, 8, 0x00ff00ff);
    WorkAgain8(x, y);
    UpperTwice(x, w, 8);
    LowerTwice(y, w);
  }

  lemma OddWorkAgain(x: bv32, y: bv32)
    ensures var w := OddWork(x, y); OddWork(Lower(x, w), Lower(y, w)) == w
    ensures OddWork(x, y) == OddWork(y, x)
  {
  }

  lemma RotateBack(w: bv32)
    ensures RotateRight(RotateLeft(w)) == w && RotateLeft(RotateRight(w)) == w
  {
  }

  lemma UntwistTwist(b: Block)
    ensures Untwist(Twist(b).Swap()) == b.Swap()
    ensures Twist(Untwist(b).Swap()) == b.Swap()
  {
    hide RotateLeft, RotateRight, OddWork, Lower;
    var r, s := RotateLeft(b.right), RotateRight(b.right);
    var v, w := OddWork(b.left, r), OddWork(b.left, s);
    RotateBack(b.right);
    RotateBack(Lower(b.left, v));
    RotateBack(Lower(b.left, w));
    OddWorkAgain(b.left, r);
    OddWorkAgain(b.left, s);
    OddWorkAgain(Lower(b.left, v), Lower(r, v));
    OddWorkAgain(Lower(b.left, w), Lower(s, w));
    LowerTwice(b.left, v);
    LowerTwice(r, v);
    LowerTwice(b.left, w);
    LowerTwice(s, w);
  }

  lemma UnmixMix(b: Block)
    ensures Unmix(Mix(b).Swap()) == b.Swap()
  {
    var e1 := Exchange(b.left, b.right, 4, 0x0f0f0f0f);
    var e2 := Exchange(e1.0, e1.1, 16, 0x0000ffff);
    var e3 := Exchange(e2.1, e2.0, 2, 0x33333333);
    ExchangeTwice8(e3.0, e3.1);
    ExchangeTwice2(e2.1, e2.0);
    ExchangeTwice16(e1.0, e1.1);
    ExchangeTwice4(b.left, b.right);
  }

  lemma MixUnmix(b: Block)
    ensures Mix(Unmix(b).Swap()) == b.Swap()
  {
    var e1 := Exchange(b.left, b.right, 8, 0x00ff00ff);
    var e2 := Exchange(e1.0, e1.1, 2, 0x33333333);
    var e3 := Exchange(e2.1, e2.0, 16, 0x0000ffff);
    ExchangeTwice4(e3.0, e3.1);
    ExchangeTwice16(e2.1, e2.0);
    ExchangeTwice2(e1.0, e1.1);
    ExchangeTwice8(b.left, b.right);
  }

  lemma ClosingUndoesOpening(b: Block)
    ensures Closing(Opening(b).Swap()) == b
  {
    UntwistTwist(Mix(b));
    UnmixMix(b);
  }

  lemma OpeningUndoesClosing(b: Block)
    ensures Opening(Closing(b)) == b.Swap()
  {
    MixUnmix(Untwist(b));
    UntwistTwist(b);
  }

  // ---------------------------------------------------------------------------
  // The Feistel network
  // ---------------------------------------------------------------------------

  /** One textbook round: xor the round value into the left half, then exchange the halves. */
  function Round(sp: SPBoxes, b: Block, k: KeyPair): Block {
    Block(b.right, XorWord(b.left, RoundValue(sp, b.right, k)))
  }

  /** Runs a step under each key in turn. */
  function Iterate<S, K>(step: (S, K) -> S, s: S, keys: seq<K>): S
    decreases |keys|
  {
    if keys == [] then s else Iterate(step, step(s, keys[0]), keys[1..])
  }

  function Reversed<T>(s: seq<T>): (r: seq<T>)
    ensures |r| == |s|
    ensures forall i :: 0 <= i < |s| ==> r[i] == s[|s| - 1 - i]
  {
    seq(|s|, i requires 0 <= i < |s| => s[|s| - 1 - i])
  }

  lemma {:induction false} IterateSnoc<S, K>(step: (S, K) -> S, s: S, keys: seq<K>, k: K)
    ensures Iterate(step, s, keys + [k]) == step(Iterate(step, s, keys), k)
    decreases |keys|
  {
    if keys == [] {
      assert Iterate(step, step(s, k), []) == step(s, k);
    } else {
      assert (keys + [k])[1..] == keys[1..] + [k];
      IterateSnoc(step, step(s, keys[0]), keys[1..], k);
    }
  }

  /** A step undone by itself between two exchanges is undone by the reversed keys. */
  lemma {:induction false} IterateInverse<S(!new), K(!new)>(
      step: (S, K) -> S, swap: S -> S, s: S, keys: seq<K>)
    requires forall s, k :: step(swap(step(s, k)), k) == swap(s)
    ensures Iterate(step, swap(Iterate(step, s, keys)), Reversed(keys)) == swap(s)
    decreases |keys|
  {
    if keys == [] {
    } else {
      var next := step(s, keys[0]);
      IterateInverse(step, swap, next, keys[1..]);
      assert Reversed(keys) == Reversed(keys[1..]) + [keys[0]];
      IterateSnoc(step, swap(Iterate(step, s, keys)), Reversed(keys[1..]), keys[0]);
    }
  }

  lemma XorTwice(x: bv32, y: bv32)
    ensures XorWord(XorWord(x, y), y) == x
  {
  }

  lemma RoundUndoesItself(sp: SPBoxes, b: Block, k: KeyPair)
    ensures Round(sp, Round(sp, b, k).Swap(), k) == b.Swap()
  {
    hide RoundValue, XorWord;
    XorTwice(b.left, RoundValue(sp, b.right, k));
  }

  function Rounds(sp: SPBoxes): (Block, KeyPair) -> Block {
    (b: Block, k: KeyPair) => Round(sp, b, k)
  }

  /** The whole cipher under any number of key pairs. */
  function Cipher(sp: SPBoxes, b: Block, keys: seq<KeyPair>): Block {
    Closing(Iterate(Rounds(sp), Opening(b), keys))
  }

  /** Running the cipher with the key pairs in reverse order restores the block. */
  lemma CipherInverse(sp: SPBoxes, b: Block, keys: seq<KeyPair>)
    ensures Cipher(sp, Cipher(sp, b, keys), Reversed(keys)) == b
  {
    var swap := (b: Block) => b.Swap();
    forall s: Block, k: KeyPair
      ensures Rounds(sp)(swap(Rounds(sp)(s, k)), k) == swap(s)
    {
      RoundUndoesItself(sp, s, k);
    }
    IterateInverse(Rounds(sp), swap, Opening(b), keys);
    OpeningUndoesClosing(Iterate(Rounds(sp), Opening(b), keys));
    ClosingUndoesOpening(b);
  }

  /** The 32 stored words read as 16 key pairs. */
  function KeyPairs(subkeys: seq<bv32>): (keys: seq<KeyPair>)
    requires |subkeys| == 32
    ensures |keys| == 16
  {
    seq(16, i requires 0 <= i < 16 => KeyPair(subkeys[2 * i], subkeys[2 * i + 1]))
  }

  /** Two rounds without the exchanges, as the loop in DESFunction performs them. */
  function TwoRounds(sp: SPBoxes, b: Block, k0: KeyPair, k1: KeyPair): Block {
    var left := XorWord(b.left, RoundValue(sp, b.right, k0));
    Block(left, XorWord(b.right, RoundValue(sp, left, k1)))
  }

  lemma TwoRoundsAreTwoRounds(sp: SPBoxes, b: Block, k0: KeyPair, k1: KeyPair)
    ensures TwoRounds(sp, b, k0, k1) == Round(sp, Round(sp, b, k0), k1)
  {
    hide RoundValue, XorWord;
  }

  lemma IterateTwoRounds(sp: SPBoxes, b: Block, keys: seq<KeyPair>, n: nat)
    requires n + 1 < |keys|
    ensures Iterate(Rounds(sp), b, keys[..n + 2]) ==
            TwoRounds(sp, Iterate(Rounds(sp), b, keys[..n]), keys[n], keys[n + 1])
  {
    var step := Rounds(sp);
    assert keys[..n + 2] == (keys[..n] + [keys[n]]) + [keys[n + 1]];
    IterateSnoc(step, b, keys[..n], keys[n]);
    IterateSnoc(step, b, keys[..n] + [keys[n]], keys[n + 1]);
    TwoRoundsAreTwoRounds(sp, Iterate(step, b, keys[..n]), keys[n], keys[n + 1]);
  }

  /** The loop of DESFunction: eight passes of two rounds, reading the subkeys in order. */
  method RoundLoop(sp: SPBoxes, entry: Block, subkeys: seq<bv32>) returns (halves: Block)
    requires |subkeys| == 32
    ensures halves == Iterate(Rounds(sp), entry, KeyPairs(subkeys))
  {
    hide TwoRounds, Round;
    ghost var keys := KeyPairs(subkeys);
    halves := entry;
    var round, next := 0, 0;
    while round < 8
      invariant 0 <= round <= 8 && next == 4 * round
      invariant halves == Iterate(Rounds(sp), entry, keys[..2 * round])
    {
      IterateTwoRounds(sp, entry, keys, 2 * round);
      var k0 := KeyPair(subkeys[next], subkeys[next + 1]);
      var k1 := KeyPair(subkeys[next + 2], subkeys[next + 3]);
      halves := TwoRounds(sp, halves, k0, k1);
      next := next + 4;
      round := round + 1;
    }
    assert keys[..16] == keys;
  }

  /** DESFunction works in place on `block`. */
  method DESFunction(sp: SPBoxes, block: array<bv32>, subkeys: seq<bv32>)
    requires block.Length == 2 && |subkeys| == 32
    modifies block
    ensures Block(block[0], block[1]) ==
            Cipher(sp, old(Block(block[0], block[1])), KeyPairs(subkeys))
  {
    var halves := RoundLoop(sp, Opening(Block(block[0], block[1])), subkeys);
    var closed := Closing(halves);
    block[0], block[1] := closed.left, closed.right;
  }
}
