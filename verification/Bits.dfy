/** Single bits of words, apart from everything else that would slow the solver down. */
module Bits {

  predicate HasBit(n: bv32, i: nat)
    requires i < 32
  {
    (n >> i) & 1 == 1
  }

  lemma LowBit(n: bv32, i: nat)
    requires i < 18
    ensures HasBit(n & 0x3ffff, i) <==> HasBit(n, i)
  {
  }

  predicate HighAt(n: bv32, i: nat)
    requires i < 14
  {
    HasBit(n >> 18, i) <==> HasBit(n, 18 + i)
  }

  lemma HighBits(n: bv32)
    ensures HighAt(n, 0) && HighAt(n, 1) && HighAt(n, 2) && HighAt(n, 3) && HighAt(n, 4) && HighAt(n, 5) && HighAt(n, 6)
    ensures HighAt(n, 7) && HighAt(n, 8) && HighAt(n, 9) && HighAt(n, 10) && HighAt(n, 11)
    ensures HighAt(n, 12) && HighAt(n, 13)
  {
  }

  lemma HighBit(n: bv32, i: nat)
    requires i < 14
    ensures HighAt(n, i)
  {
    HighBits(n);
    hide HighAt;
  }

  lemma NoHighBit(n: bv32, i: nat)
    requires 14 <= i < 18
    ensures !HasBit(n >> 18, i)
  {
  }

  function Cleared(x: bv32, y: bv32): bv32 {
    x & !y
  }

  /** Bit `i` of a word from which the bits of another are cleared. */
  predicate ClearedAt(x: bv32, y: bv32, i: nat)
    requires i < 32
  {
    HasBit(Cleared(x, y), i) <==> HasBit(x, i) && !HasBit(y, i)
  }

  lemma BitsCleared(x: bv32, y: bv32)
    ensures ClearedAt(x, y, 0) && ClearedAt(x, y, 1) && ClearedAt(x, y, 2) && ClearedAt(x, y, 3)
    ensures ClearedAt(x, y, 4) && ClearedAt(x, y, 5) && ClearedAt(x, y, 6) && ClearedAt(x, y, 7)
    ensures ClearedAt(x, y, 8) && ClearedAt(x, y, 9) && ClearedAt(x, y, 10) && ClearedAt(x, y, 11)
    ensures ClearedAt(x, y, 12) && ClearedAt(x, y, 13) && ClearedAt(x, y, 14) && ClearedAt(x, y, 15)
    ensures ClearedAt(x, y, 16) && ClearedAt(x, y, 17) && ClearedAt(x, y, 18) && ClearedAt(x, y, 19)
    ensures ClearedAt(x, y, 20) && ClearedAt(x, y, 21) && ClearedAt(x, y, 22) && ClearedAt(x, y, 23)
    ensures ClearedAt(x, y, 24) && ClearedAt(x, y, 25) && ClearedAt(x, y, 26) && ClearedAt(x, y, 27)
    ensures ClearedAt(x, y, 28) && ClearedAt(x, y, 29) && ClearedAt(x, y, 30) && ClearedAt(x, y, 31)
  {
  }

  lemma BitCleared(x: bv32, y: bv32, i: nat)
    requires i < 32
    ensures ClearedAt(x, y, i)
  {
    BitsCleared(x, y);
    hide ClearedAt;
  }

  /** The word with only bit `id` set. */
  function OnlyBit(id: nat): bv32
    requires id < 32
  {
    1 << id
  }

  lemma BitOfOnly(id: nat, i: nat)
    requires id < 6 && i < 32
    ensures HasBit(OnlyBit(id), i) <==> i == id
  {
  }

  lemma ClearedIsShort(x: bv32, y: bv32)
    requires x < 0x1_0000
    ensures Cleared(x, y) < 0x1_0000
  {
  }

  lemma NoBits(i: nat)
    requires i < 32
    ensures !HasBit(0, i)
  {
  }

  function Inverted(x: bv32): bv32 {
    !x
  }

  predicate InvertedAt(x: bv32, i: nat)
    requires i < 32
  {
    HasBit(Inverted(x), i) <==> !HasBit(x, i)
  }

  lemma AllBits(i: nat)
    requires i < 32
    ensures HasBit(0xffff_ffff, i)
  {
  }

  lemma InvertedIsCleared(x: bv32)
    ensures Inverted(x) == Cleared(0xffff_ffff, x)
  {
  }

  lemma BitInverted(x: bv32, i: nat)
    requires i < 32
    ensures InvertedAt(x, i)
  {
    hide HasBit, Inverted, Cleared;
    AllBits(i);
    InvertedIsCleared(x);
    BitCleared(0xffff_ffff, x, i);
  }

  // ---------------------------------------------------------------------------
  // The other bitwise operations
  // ---------------------------------------------------------------------------

  function Both(x: bv32, y: bv32): bv32 {
    x & y
  }

  function Either(x: bv32, y: bv32): bv32 {
    x | y
  }

  function Differing(x: bv32, y: bv32): bv32 {
    x ^ y
  }

  lemma BothIsCleared(x: bv32, y: bv32)
    ensures Both(x, y) == Cleared(x, Inverted(y))
  {
  }

  lemma EitherIsInverted(x: bv32, y: bv32)
    ensures Either(x, y) == Inverted(Cleared(Inverted(x), y))
  {
  }

  lemma DifferingIsEither(x: bv32, y: bv32)
    ensures Differing(x, y) == Either(Cleared(x, y), Cleared(y, x))
  {
  }

  lemma BitOfBoth(x: bv32, y: bv32, i: nat)
    requires i < 32
    ensures HasBit(Both(x, y), i) <==> HasBit(x, i) && HasBit(y, i)
  {
    hide HasBit, Both, Cleared, Inverted;
    BothIsCleared(x, y);
    BitInverted(y, i);
    BitCleared(x, Inverted(y), i);
  }

  lemma BitOfEither(x: bv32, y: bv32, i: nat)
    requires i < 32
    ensures HasBit(Either(x, y), i) <==> HasBit(x, i) || HasBit(y, i)
  {
    hide HasBit, Either, Cleared, Inverted;
    EitherIsInverted(x, y);
    BitInverted(x, i);
    BitCleared(Inverted(x), y, i);
    BitInverted(Cleared(Inverted(x), y), i);
  }

  lemma BitOfDiffering(x: bv32, y: bv32, i: nat)
    requires i < 32
    ensures HasBit(Differing(x, y), i) <==> HasBit(x, i) != HasBit(y, i)
  {
    hide HasBit, Either, Cleared, Differing;
    DifferingIsEither(x, y);
    BitCleared(x, y, i);
    BitCleared(y, x, i);
    BitOfEither(Cleared(x, y), Cleared(y, x), i);
  }
}
