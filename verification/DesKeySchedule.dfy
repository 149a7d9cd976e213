/**
The key schedule of soft/rsaref/src/source/desc.c (DESKey and CookKey).

The reference is the schedule of FIPS 46-3: two 28-bit halves rotated left, round by
round, by one or two places, with PC2 selecting 48 bits after each rotation. The program
instead rotates the initial halves by a running total.
*/
module DesKeySchedule {
  import opened DesCipher

  const BYTE_BIT: seq<bv8> := [0x80, 0x40, 0x20, 0x10, 0x08, 0x04, 0x02, 0x01]

  const BIG_BYTE: seq<bv32> := [
    0x800000, 0x400000, 0x200000, 0x100000, 0x80000, 0x40000, 0x20000, 0x10000,
    0x8000, 0x4000, 0x2000, 0x1000, 0x800, 0x400, 0x200, 0x100,
    0x80, 0x40, 0x20, 0x10, 0x8, 0x4, 0x2, 0x1]

  type KeyIndex = n: nat | n < 64

  type HalfIndex = n: nat | n < 56

  const PC1: seq<KeyIndex> := [
    56, 48, 40, 32, 24, 16, 8, 0, 57, 49, 41, 33, 25, 17,
    9, 1, 58, 50, 42, 34, 26, 18, 10, 2, 59, 51, 43, 35,
    62, 54, 46, 38, 30, 22, 14, 6, 61, 53, 45, 37, 29, 21,
    13, 5, 60, 52, 44, 36, 28, 20, 12, 4, 27, 19, 11, 3]

  const TOTAL_ROTATIONS: seq<nat> := [1, 2, 4, 6, 8, 10, 12, 14, 15, 17, 19, 21, 23, 25, 27, 28]

  const PC2: seq<HalfIndex> := [
    13, 16, 10, 23, 0, 4, 2, 27, 14, 5, 20, 9,
    22, 18, 11, 3, 25, 7, 15, 6, 26, 19, 12, 1,
    40, 51, 30, 36, 46, 54, 29, 39, 50, 44, 32, 47,
    43, 48, 38, 55, 33, 52, 45, 41, 49, 35, 28, 31]

  /** The left rotations of FIPS 46-3, one entry per round. */
  const ROTATIONS: seq<nat> := [1, 1, 2, 2, 2, 2, 2, 2, 1, 2, 2, 2, 2, 2, 2, 1]

  type Key = k: seq<bv8> | |k| == 8 witness [0, 0, 0, 0, 0, 0, 0, 0]

  /** The two halves C and D, concatenated. */
  type Halves = h: seq<bool> | |h| == 56 witness seq(56, _ => false)

  /** Bit `n` of the key, counted from the most significant bit of the first byte. */
  predicate KeyBit(key: Key, n: nat)
    requires n < 64
  {
    key[n / 8] & BYTE_BIT[n % 8] != 0
  }

  function Selected(key: Key): Halves {
    seq(56, j requires 0 <= j < 56 => KeyBit(key, PC1[j]))
  }

  /** The position that moves to `j` when both halves are rotated left by `n` places. */
  function Source(j: HalfIndex, n: nat): HalfIndex {
    if j < 28 then (j + n) % 28 else 28 + (j - 28 + n) % 28
  }

  function Rotated(h: Halves, n: nat): Halves {
    seq(56, j requires 0 <= j < 56 => h[Source(j, n)])
  }

  /** The halves after the first `round` rotations of FIPS 46-3. */
  function HalvesAfter(start: Halves, round: nat): Halves
    requires round <= 16
  {
    if round == 0 then start
    else Rotated(HalvesAfter(start, round - 1), ROTATIONS[round - 1])
  }

  lemma ModAdd(x: nat, m: nat)
    ensures (x % 28 + m) % 28 == (x + m) % 28
  {
    var q := x / 28;
    assert x + m == (x % 28 + m) + 28 * q;
  }

  lemma SourceTwice(j: HalfIndex, m: nat, n: nat)
    ensures Source(Source(j, n), m) == Source(j, m + n)
  {
    ModAdd(if j < 28 then j + n else j - 28 + n, m);
  }

  lemma RotatedTwice(h: Halves, m: nat, n: nat)
    ensures Rotated(Rotated(h, m), n) == Rotated(h, m + n)
  {
    forall j: HalfIndex
      ensures h[Source(Source(j, n), m)] == h[Source(j, m + n)]
    {
      SourceTwice(j, m, n);
    }
  }

  lemma FullTurn(h: Halves)
    ensures Rotated(h, 28) == h
  {
    forall j | 0 <= j < 56
      ensures Rotated(h, 28)[j] == h[j]
    {
    }
  }

  /** The program's running totals produce the rotations of the standard. */
  lemma {:induction false} TotalRotations(start: Halves, round: nat)
    requires 1 <= round <= 16
    ensures HalvesAfter(start, round) == Rotated(start, TOTAL_ROTATIONS[round - 1])
  {
    if round == 1 {
      assert HalvesAfter(start, 0) == start;
    } else {
      TotalRotations(start, round - 1);
      RotatedTwice(start, TOTAL_ROTATIONS[round - 2], ROTATIONS[round - 1]);
    }
  }

  /** After round 16 both halves are back where they started. */
  lemma HalvesReturn(start: Halves)
    ensures HalvesAfter(start, 16) == start
  {
    TotalRotations(start, 16);
    FullTurn(start);
  }

  // ---------------------------------------------------------------------------
  // Raw round keys
  // ---------------------------------------------------------------------------

  /**
   How the halves become two words: which positions are chosen, and an empty word, a mask per
   bit and the operator that adds a mask.
   */
  datatype Layout<!W> = Layout(chosen: seq<HalfIndex>, add: (W, W) -> W, zero: W, masks: seq<W>) {
    ghost predicate Valid() {
      |chosen| == 48 && |masks| == 24
    }
  }

  function WordOf<W>(p: Layout<W>, bits: seq<bool>): W
    requires |bits| <= |p.masks|
    decreases |bits|
  {
    if bits == [] then p.zero
    else
      var n := |bits| - 1;
      var w := WordOf(p, bits[..n]);
      if bits[n] then p.add(w, p.masks[n]) else w
  }

  /** The bits chosen from the halves for the word that starts at `from`. */
  function Chosen<W>(p: Layout<W>, h: Halves, from: nat): (bits: seq<bool>)
    requires |p.chosen| == 48 && from <= 24
    ensures |bits| == 24
  {
    seq(24, j requires 0 <= j < 24 => h[p.chosen[from + j]])
  }

  function RoundWords<W>(p: Layout<W>, h: Halves): (W, W)
    requires p.Valid()
  {
    (WordOf(p, Chosen(p, h, 0)), WordOf(p, Chosen(p, h, 24)))
  }

  /** The sixteen round keys of FIPS 46-3. */
  function RawKeys<W>(p: Layout<W>, start: Halves): (raw: seq<(W, W)>)
    requires p.Valid()
    ensures |raw| == 16
  {
    seq(16, i requires 0 <= i < 16 => RoundWords(p, HalvesAfter(start, i + 1)))
  }

  function Or(w: bv32, mask: bv32): bv32 {
    w | mask
  }

  function Common(w: bv32, mask: bv32): bv32 {
    w & mask
  }

  predicate Has(w: bv32, mask: bv32) {
    Common(w, mask) != 0
  }

  /** The packing of DESKey. */
  function Words(): (p: Layout<bv32>)
    ensures p.Valid()
  {
    Layout(PC2, Or, 0, BIG_BYTE)
  }

  lemma AndOfHalves(a: bv32, b: bv32)
    ensures (a >> 1) & (b >> 1) == (a & b) >> 1
  {
  }

  lemma TableHalvesLow(j: nat)
    requires j < 8
    ensures BIG_BYTE[j + 1] == BIG_BYTE[j] >> 1
  {
  }

  lemma TableHalvesMiddle(j: nat)
    requires 8 <= j < 16
    ensures BIG_BYTE[j + 1] == BIG_BYTE[j] >> 1
  {
  }

  lemma TableHalvesHigh(j: nat)
    requires 16 <= j < 23
    ensures BIG_BYTE[j + 1] == BIG_BYTE[j] >> 1
  {
  }

  lemma TableHalves(j: nat)
    requires j < 23
    ensures BIG_BYTE[j + 1] == BIG_BYTE[j] >> 1
  {
    if j < 8 {
      TableHalvesLow(j);
    } else if j < 16 {
      TableHalvesMiddle(j);
    } else {
      TableHalvesHigh(j);
    }
  }

  lemma BelowTop(t: nat)
    requires 0 < t < 24
    ensures BIG_BYTE[0] & BIG_BYTE[t] == 0
  {
  }

  lemma {:induction false} TableDisjoint(j: nat, t: nat)
    requires j < t < 24
    ensures BIG_BYTE[j] & BIG_BYTE[t] == 0
  {
    if j == 0 {
      BelowTop(t);
    } else {
      TableHalves(j - 1);
      TableHalves(t - 1);
      AndOfHalves(BIG_BYTE[j - 1], BIG_BYTE[t - 1]);
      TableDisjoint(j - 1, t - 1);
    }
  }

  lemma AndCommutes(a: bv32, b: bv32)
    ensures a & b == b & a
  {
  }

  lemma TableNonzero(j: nat)
    requires j < 24
    ensures BIG_BYTE[j] != 0
  {
  }

  lemma OrKeepsOtherBits(w: bv32, b: bv32, m: bv32)
    requires b & m == 0
    ensures Common(Or(w, b), m) == Common(w, m)
  {
  }

  lemma OrSetsBits(w: bv32, m: bv32)
    ensures (w | m) & m == m
  {
  }

  lemma ZeroHasNothing(m: bv32)
    ensures !Has(0, m)
  {
  }

  lemma TableApart(n: nat, j: nat)
    requires n < 24 && j < 24
    ensures BIG_BYTE[j] != 0
    ensures n != j ==> BIG_BYTE[n] & BIG_BYTE[j] == 0
  {
    TableNonzero(j);
    if n < j {
      TableDisjoint(n, j);
    } else if j < n {
      TableDisjoint(j, n);
      AndCommutes(BIG_BYTE[n], BIG_BYTE[j]);
    }
  }

  lemma HasAfterSameOr(w: bv32, m: bv32)
    requires m != 0
    ensures Has(Or(w, m), m)
  {
    OrSetsBits(w, m);
  }

  lemma HasAfterOtherOr(w: bv32, b: bv32, m: bv32)
    requires b & m == 0
    ensures Has(Or(w, b), m) <==> Has(w, m)
  {
    hide Common, Or;
    OrKeepsOtherBits(w, b, m);
  }

  lemma {:induction false} WordHas<W(!new)>(p: Layout<W>, has: (W, W) -> bool, bits: seq<bool>, j: nat)
    requires |bits| <= |p.masks| && j < |p.masks|
    requires !has(p.zero, p.masks[j])
    requires forall w, n :: 0 <= n < |p.masks| ==>
               (has(p.add(w, p.masks[n]), p.masks[j]) <==> (n == j || has(w, p.masks[j])))
    ensures has(WordOf(p, bits), p.masks[j]) <==> (j < |bits| && bits[j])
    decreases |bits|
  {
    if bits == [] {
    } else {
      WordHas(p, has, bits[..|bits| - 1], j);
    }
  }

  /** Every one of the 24 bits can be read back from the word. */
  lemma WordOfBit(bits: seq<bool>, j: nat)
    requires |bits| <= 24 && j < 24
    ensures Has(WordOf(Words(), bits), BIG_BYTE[j]) <==> (j < |bits| && bits[j])
  {
    ZeroHasNothing(BIG_BYTE[j]);
    forall w: bv32, n | 0 <= n < |BIG_BYTE|
      ensures Has(Or(w, BIG_BYTE[n]), BIG_BYTE[j]) <==> (n == j || Has(w, BIG_BYTE[j]))
    {
      TableApart(n, j);
      if n == j {
        HasAfterSameOr(w, BIG_BYTE[j]);
      } else {
        HasAfterOtherOr(w, BIG_BYTE[n], BIG_BYTE[j]);
      }
    }
    WordHas(Words(), Has, bits, j);
  }

  // ---------------------------------------------------------------------------
  // Cooked subkeys
  // ---------------------------------------------------------------------------

  /** The bits of two raw words regrouped for the round function. */
  function CookedPair(raw0: bv32, raw1: bv32): (bv32, bv32) {
    (((raw0 & 0x00fc0000) << 6) | ((raw0 & 0x00000fc0) << 10) |
     ((raw1 & 0x00fc0000) >> 10) | ((raw1 & 0x00000fc0) >> 6),
     ((raw0 & 0x0003f000) << 12) | ((raw0 & 0x0000003f) << 16) |
     ((raw1 & 0x0003f000) >> 4) | (raw1 & 0x0000003f))
  }

  type Cook = (bv32, bv32) -> (bv32, bv32)

  function CookedPairs(cook: Cook, raw: seq<(bv32, bv32)>): (keys: seq<KeyPair>)
    ensures |keys| == |raw|
  {
    seq(|raw|, i requires 0 <= i < |raw| =>
      var pair := cook(raw[i].0, raw[i].1); KeyPair(pair.0, pair.1))
  }

  /** An array of 32 words holds sixteen pairs in order. */
  ghost predicate HoldsPairs<W>(words: seq<W>, pairs: seq<(W, W)>) {
    && |words| == 32 && |pairs| == 16
    && forall i :: 0 <= i < 16 ==> words[2 * i] == pairs[i].0 && words[2 * i + 1] == pairs[i].1
  }

  /**
   CookKey writes the cooked pairs forwards from the first subkey, or backwards from the last
   pair, by stepping one index through the array.
   */
  method CookKey<W>(cook: (W, W) -> (W, W), subkeys: array<W>, kn: seq<W>, encrypt: bool)
    requires subkeys.Length == 32 == |kn|
    modifies subkeys
    ensures forall k :: 0 <= k < 16 ==>
      var at := if encrypt then k else 15 - k;
      (subkeys[2 * at], subkeys[2 * at + 1]) == cook(kn[2 * k], kn[2 * k + 1])
  {
    var raw1 := 0;
    var cooked: int := if encrypt then 0 else 30;
    var increment := if encrypt then 1 else -3;
    var i := 0;
    while i < 16
      invariant 0 <= i <= 16 && raw1 == 2 * i
      invariant cooked == if encrypt then 2 * i else 30 - 2 * i
      invariant forall k :: 0 <= k < i ==>
        var at := if encrypt then k else 15 - k;
        (subkeys[2 * at], subkeys[2 * at + 1]) == cook(kn[2 * k], kn[2 * k + 1])
    {
      var raw0 := raw1;
      raw1 := raw1 + 1;
      var pair := cook(kn[raw0], kn[raw1]);
      subkeys[cooked] := pair.0;
      cooked := cooked + 1;
      subkeys[cooked] := pair.1;
      cooked := cooked + increment;
      i, raw1 := i + 1, raw1 + 1;
    }
  }

  /** The sixteen cooked key pairs in encryption order. */
  function KeySchedule(key: Key): (keys: seq<KeyPair>)
    ensures |keys| == 16
  {
    CookedPairs(CookedPair, RawKeys(Words(), Selected(key)))
  }

  method PermuteKey(key: Key) returns (pc1m: array<bool>)
    ensures fresh(pc1m) && pc1m.Length == 56 && pc1m[..] == Selected(key)
  {
    pc1m := new bool[56];
    for j := 0 to 56
      invariant forall k :: 0 <= k < j ==> pc1m[k] == KeyBit(key, PC1[k])
    {
      var l := PC1[j];
      var m := l % 8;
      pc1m[j] := key[l / 8] & BYTE_BIT[m] != 0;
    }
  }

  method RotateInto(pcr: array<bool>, pc1m: Halves, total: nat)
    requires pcr.Length == 56 && total <= 28
    modifies pcr
    ensures pcr[..] == Rotated(pc1m, total)
  {
    for j := 0 to 28
      invariant forall k :: 0 <= k < j ==> pcr[k] == pc1m[Source(k, total)]
    {
      var l := j + total;
      if l < 28 {
        pcr[j] := pc1m[l];
      } else {
        pcr[j] := pc1m[l - 28];
      }
    }
    for j := 28 to 56
      invariant forall k :: 0 <= k < j ==> pcr[k] == pc1m[Source(k, total)]
    {
      var l := j + total;
      if l < 56 {
        pcr[j] := pc1m[l];
      } else {
        pcr[j] := pc1m[l - 28];
      }
    }
  }

  lemma WordNext<W>(p: Layout<W>, bits: seq<bool>, n: nat)
    requires n < |bits| <= |p.masks|
    ensures var w := WordOf(p, bits[..n]);
            WordOf(p, bits[..n + 1]) == if bits[n] then p.add(w, p.masks[n]) else w
  {
    assert bits[..n + 1][..n] == bits[..n];
  }

  /** The last inner loop of DESKey: adds the mask of every chosen bit to one of two words. */
  method SelectWords<W>(p: Layout<W>, pcr: array<bool>) returns (k0: W, k1: W)
    requires pcr.Length == 56 && p.Valid()
    ensures (k0, k1) == RoundWords(p, pcr[..])
  {
    k0, k1 := p.zero, p.zero;
    ghost var b0, b1 := Chosen(p, pcr[..], 0), Chosen(p, pcr[..], 24);
    for j := 0 to 24
      invariant k0 == WordOf(p, b0[..j]) && k1 == WordOf(p, b1[..j])
    {
      WordNext(p, b0, j);
      WordNext(p, b1, j);
      if pcr[p.chosen[j]] {
        k0 := p.add(k0, p.masks[j]);
      }
      if pcr[p.chosen[j + 24]] {
        k1 := p.add(k1, p.masks[j]);
      }
    }
    assert b0[..24] == b0 && b1[..24] == b1;
  }

  /** One pass of the outer loop of DESKey. */
  method RoundKey<W>(p: Layout<W>, pc1m: Halves, i: nat) returns (k0: W, k1: W)
    requires p.Valid() && i < 16
    ensures (k0, k1) == RoundWords(p, HalvesAfter(pc1m, i + 1))
  {
    var pcr := new bool[56];
    RotateInto(pcr, pc1m, TOTAL_ROTATIONS[i]);
    TotalRotations(pc1m, i + 1);
    k0, k1 := SelectWords(p, pcr);
  }

  /** The outer loop of DESKey, storing two raw words per pass. */
  method RawWords<W>(p: Layout<W>, pc1m: Halves) returns (kn: seq<W>)
    requires p.Valid()
    ensures HoldsPairs(kn, RawKeys(p, pc1m))
  {
    kn := [];
    for i := 0 to 16
      invariant |kn| == 2 * i
      invariant forall k :: 0 <= k < i ==>
        (kn[2 * k], kn[2 * k + 1]) == RoundWords(p, HalvesAfter(pc1m, k + 1))
    {
      var k0, k1 := RoundKey(p, pc1m, i);
      kn := kn + [k0, k1];
    }
  }

  lemma CookedAt(cook: Cook, raw: seq<(bv32, bv32)>, i: nat)
    requires i < |raw|
    ensures var pair := cook(raw[i].0, raw[i].1); CookedPairs(cook, raw)[i] == KeyPair(pair.0, pair.1)
  {
  }

  lemma PairAt(subkeys: seq<bv32>, i: nat)
    requires |subkeys| == 32 && i < 16
    ensures KeyPairs(subkeys)[i] == KeyPair(subkeys[2 * i], subkeys[2 * i + 1])
  {
  }

  lemma StoredKeys(cook: Cook, subkeys: seq<bv32>, kn: seq<bv32>, encrypt: bool, raw: seq<(bv32, bv32)>)
    requires |subkeys| == 32 && HoldsPairs(kn, raw)
    requires forall k :: 0 <= k < 16 ==>
      var at := if encrypt then k else 15 - k;
      (subkeys[2 * at], subkeys[2 * at + 1]) == cook(kn[2 * k], kn[2 * k + 1])
    ensures KeyPairs(subkeys) ==
            if encrypt then CookedPairs(cook, raw) else Reversed(CookedPairs(cook, raw))
  {
    hide CookedPairs, Reversed, KeyPairs;
    var keys := if encrypt then CookedPairs(cook, raw) else Reversed(CookedPairs(cook, raw));
    forall n | 0 <= n < 16
      ensures KeyPairs(subkeys)[n] == keys[n]
    {
      var k := if encrypt then n else 15 - n;
      assert (kn[2 * k], kn[2 * k + 1]) == raw[k];
      CookedAt(cook, raw, k);
      PairAt(subkeys, n);
    }
  }

  // ---------------------------------------------------------------------------
  // The round keys bit by bit
  // ---------------------------------------------------------------------------

  lemma ByteBits(w: bv8)
    ensures (w & BYTE_BIT[0] != 0 <==> (w >> 7) & 1 == 1) && (w & BYTE_BIT[1] != 0 <==> (w >> 6) & 1 == 1)
    ensures (w & BYTE_BIT[2] != 0 <==> (w >> 5) & 1 == 1) && (w & BYTE_BIT[3] != 0 <==> (w >> 4) & 1 == 1)
    ensures (w & BYTE_BIT[4] != 0 <==> (w >> 3) & 1 == 1) && (w & BYTE_BIT[5] != 0 <==> (w >> 2) & 1 == 1)
    ensures (w & BYTE_BIT[6] != 0 <==> (w >> 1) & 1 == 1) && (w & BYTE_BIT[7] != 0 <==> w & 1 == 1)
  {
  }

  /** Bit `n` of the key, counted from the left, is in byte `n / 8`. */
  lemma KeyBitPlace(key: Key, n: nat)
    requires n < 64
    ensures KeyBit(key, n) <==> (key[n / 8] >> (7 - n % 8)) & 1 == 1
  {
    ByteBits(key[n / 8]);
  }

  /** A rotation by one place moves every bit of a half to the left and the first to the end. */
  lemma LeftByOne(h: Halves)
    ensures Rotated(h, 1) == h[1..28] + [h[0]] + h[29..] + [h[28]]
  {
  }

  lemma RawKeyAt(start: Halves, i: nat)
    requires i < 16
    ensures RawKeys(Words(), start)[i] == RoundWords(Words(), HalvesAfter(start, i + 1))
  {
    hide HalvesAfter, RoundWords, Words;
  }

  lemma ChosenAt(h: Halves, from: nat, j: nat)
    requires from <= 24 && j < 24
    ensures Chosen(Words(), h, from)[j] <==> h[PC2[from + j]]
  {
  }

  lemma RoundWordsAre(h: Halves)
    ensures RoundWords(Words(), h) == (WordOf(Words(), Chosen(Words(), h, 0)), WordOf(Words(), Chosen(Words(), h, 24)))
  {
    hide WordOf, Chosen, Words;
  }

  lemma RoundWordBits(h: Halves, j: nat)
    requires j < 24
    ensures Has(RoundWords(Words(), h).0, BIG_BYTE[j]) <==> h[PC2[j]]
    ensures Has(RoundWords(Words(), h).1, BIG_BYTE[j]) <==> h[PC2[24 + j]]
  {
    hide Has, WordOf, RoundWords, Chosen, Words;
    RoundWordsAre(h);
    ChosenAt(h, 0, j);
    ChosenAt(h, 24, j);
    WordOfBit(Chosen(Words(), h, 0), j);
    WordOfBit(Chosen(Words(), h, 24), j);
  }

  /** Each bit of a round key is the bit of the rotated halves that the second permutation names. */
  lemma RoundKeyBits(key: Key, round: nat, j: nat)
    requires 1 <= round <= 16 && j < 24
    ensures var raw := RawKeys(Words(), Selected(key))[round - 1];
            var halves := HalvesAfter(Selected(key), round);
            && (Has(raw.0, BIG_BYTE[j]) <==> halves[PC2[j]])
            && (Has(raw.1, BIG_BYTE[j]) <==> halves[PC2[24 + j]])
  {
    hide HalvesAfter, Selected, Has, RoundWords, RawKeys, Words;
    RawKeyAt(Selected(key), round - 1);
    RoundWordBits(HalvesAfter(Selected(key), round), j);
  }

  /** DESKey stores the schedule of FIPS 46-3, backwards when decrypting. */
  method DESKey(subkeys: array<bv32>, key: Key, encrypt: bool)
    requires subkeys.Length == 32
    modifies subkeys
    ensures KeyPairs(subkeys[..]) == if encrypt then KeySchedule(key) else Reversed(KeySchedule(key))
  {
    var pc1m := PermuteKey(key);
    ghost var raw := RawKeys(Words(), Selected(key));
    var kn := RawWords(Words(), pc1m[..]);
    CookKey(CookedPair, subkeys, kn, encrypt);
    StoredKeys(CookedPair, subkeys[..], kn, encrypt, raw);
  }
}
