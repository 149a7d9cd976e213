/**
The population count of src/core/hw_thread_controller.cpp, which decides when every member of a
barrier has passed, for every 32-bit argument.
*/
module BitCount {
  import opened Bits

  /** Sums of neighbouring bits in eleven groups of three. */
  function Groups(n: bv32): bv32 {
    n - ((n >> 1) & 0xdb6db6db) - ((n >> 2) & 0x49249249)
  }

  /** Sums of neighbouring groups, in digits of six bits. */
  function Digits(tmp: bv32): bv32 {
    (tmp + (tmp >> 3)) & 0xc71c71c7
  }

  /** The unsigned value of a word. */
  function Value(v: bv32): int {
    v as int
  }

  /** bitCount: casting out 63s adds up the base-64 digits. */
  function Count(n: bv32): int {
    Value(Digits(Groups(n))) % 63
  }

  // ---------------------------------------------------------------------------
  // Members of a mask
  // ---------------------------------------------------------------------------

  /** The bits that are set below position `k`. */
  function Members(n: bv32, k: nat): set<nat>
    requires k <= 32
  {
    set i: nat | i < k && HasBit(n, i)
  }

  function Flag(b: bool): (i: nat)
    ensures i <= 1
  {
    if b then 1 else 0
  }

  lemma NoMembers(n: bv32)
    ensures Members(n, 0) == {}
  {
  }

  lemma {:induction false} NextMember(n: bv32, k: nat)
    requires k < 32
    ensures |Members(n, k + 1)| == |Members(n, k)| + Flag(HasBit(n, k))
  {
    hide HasBit;
    if HasBit(n, k) {
      assert Members(n, k + 1) == Members(n, k) + {k};
    } else {
      assert Members(n, k + 1) == Members(n, k);
    }
  }

  // ---------------------------------------------------------------------------
  // Eighteen bits
  // ---------------------------------------------------------------------------

  function Bit(n: bv32, i: bv6): bv32
    requires i < 32
  {
    (n >> i) & 1
  }

  function ThreeBits(n: bv32, i: bv6): bv32
    requires i < 16
  {
    Bit(n, i) + Bit(n, i + 1) + Bit(n, i + 2)
  }

  function Group(n: bv32, i: bv6): bv32
    requires i < 32
  {
    (n >> i) & 7
  }

  /** The base-64 digit at bit `i`. */
  function Digit(v: bv32, i: bv6): bv6
    requires i < 32
  {
    ((v >> i) & 63) as bv6
  }

  /** The digit at bit `i` as a number. */
  function Number(v: bv32, i: bv6): int
    requires i < 32
  {
    Digit(v, i) as int
  }

  predicate Fits18(n: bv32) {
    n < 0x40000
  }

  predicate Fits14(n: bv32) {
    n < 0x4000
  }

  lemma LowGroups(n: bv32)
    requires Fits18(n)
    ensures Group(Groups(n), 0) == ThreeBits(n, 0) && Group(Groups(n), 3) == ThreeBits(n, 3)
  {
  }

  lemma MiddleGroups(n: bv32)
    requires Fits18(n)
    ensures Group(Groups(n), 6) == ThreeBits(n, 6) && Group(Groups(n), 9) == ThreeBits(n, 9)
  {
  }

  lemma HighGroups(n: bv32)
    requires Fits18(n)
    ensures Group(Groups(n), 12) == ThreeBits(n, 12) && Group(Groups(n), 15) == ThreeBits(n, 15)
  {
  }

  /** No group of three holds more than three. */
  predicate Grouped(tmp: bv32) {
    tmp & 0x24924924 == 0
  }

  lemma GroupsFit(n: bv32)
    requires Fits18(n)
    ensures Grouped(Groups(n)) && Fits18(Groups(n))
    ensures Fits14(n) ==> Fits14(Groups(n))
  {
  }

  /** The digit at bit `i` is the sum of two groups. */
  predicate AddsUp(d: bv6, a: bv32, b: bv32) {
    d as bv32 == a + b
  }

  lemma DigitSums(tmp: bv32)
    requires Grouped(tmp) && Fits18(tmp)
    ensures AddsUp(Digit(Digits(tmp), 0), Group(tmp, 0), Group(tmp, 3))
    ensures AddsUp(Digit(Digits(tmp), 6), Group(tmp, 6), Group(tmp, 9))
    ensures AddsUp(Digit(Digits(tmp), 12), Group(tmp, 12), Group(tmp, 15))
  {
  }

  lemma DigitsFit(tmp: bv32)
    requires Fits18(tmp) && Grouped(tmp)
    ensures Fits18(Digits(tmp)) && (Fits14(tmp) ==> Fits14(Digits(tmp)))
  {
  }

  lemma ThreeMembers(n: bv32, i: bv6, k: nat)
    requires i < 16 && i as nat == k
    ensures ThreeBits(n, i) <= 3
    ensures ThreeBits(n, i) as int == Flag(HasBit(n, k)) + Flag(HasBit(n, k + 1)) + Flag(HasBit(n, k + 2))
  {
  }

  lemma DigitAsInteger(d: bv6, a: bv32, b: bv32)
    requires AddsUp(d, a, b) && a <= 3 && b <= 3
    ensures d as int == a as int + b as int
  {
  }

  lemma SixMembers(n: bv32, k: nat)
    requires k <= 26
    ensures |Members(n, k + 6)| == |Members(n, k)|
                                   + Flag(HasBit(n, k)) + Flag(HasBit(n, k + 1)) + Flag(HasBit(n, k + 2))
                                   + Flag(HasBit(n, k + 3)) + Flag(HasBit(n, k + 4)) + Flag(HasBit(n, k + 5))
  {
    hide HasBit, Members;
    NextMember(n, k);
    NextMember(n, k + 1);
    NextMember(n, k + 2);
    NextMember(n, k + 3);
    NextMember(n, k + 4);
    NextMember(n, k + 5);
  }

  lemma DigitMembers(n: bv32, i: bv6, k: nat, d: bv6)
    requires i <= 12 && i as nat == k && AddsUp(d, ThreeBits(n, i), ThreeBits(n, i + 3))
    ensures |Members(n, k + 6)| == |Members(n, k)| + d as int
  {
    hide ThreeBits, HasBit, Members;
    ThreeMembers(n, i, k);
    ThreeMembers(n, i + 3, k + 3);
    DigitAsInteger(d, ThreeBits(n, i), ThreeBits(n, i + 3));
    SixMembers(n, k);
  }

  lemma HalfDigits(n: bv32)
    requires Fits18(n)
    ensures var v := Digits(Groups(n));
            && AddsUp(Digit(v, 0), ThreeBits(n, 0), ThreeBits(n, 3))
            && AddsUp(Digit(v, 6), ThreeBits(n, 6), ThreeBits(n, 9))
            && AddsUp(Digit(v, 12), ThreeBits(n, 12), ThreeBits(n, 15))
  {
    hide *;
    LowGroups(n);
    MiddleGroups(n);
    HighGroups(n);
    GroupsFit(n);
    DigitSums(Groups(n));
  }

  lemma MembersOfDigits(n: bv32, d0: bv6, d6: bv6, d12: bv6)
    requires AddsUp(d0, ThreeBits(n, 0), ThreeBits(n, 3))
    requires AddsUp(d6, ThreeBits(n, 6), ThreeBits(n, 9))
    requires AddsUp(d12, ThreeBits(n, 12), ThreeBits(n, 15))
    ensures |Members(n, 18)| == d0 as int + d6 as int + d12 as int
  {
    hide *;
    NoMembers(n);
    DigitMembers(n, 0, 0, d0);
    DigitMembers(n, 6, 6, d6);
    DigitMembers(n, 12, 12, d12);
  }

  /** For eighteen bits the three digits add up to the number of members. */
  lemma HalfCount(n: bv32)
    requires Fits18(n)
    ensures var v := Digits(Groups(n));
            Number(v, 0) + Number(v, 6) + Number(v, 12) == |Members(n, 18)|
  {
    hide Groups, Digits, Digit, Members, Fits18, AddsUp, ThreeBits;
    HalfDigits(n);
    var v := Digits(Groups(n));
    MembersOfDigits(n, Digit(v, 0), Digit(v, 6), Digit(v, 12));
  }

  // ---------------------------------------------------------------------------
  // Thirty-two bits
  // ---------------------------------------------------------------------------

  function Low(n: bv32): bv32 {
    n & 0x3ffff
  }

  function High(n: bv32): bv32 {
    n >> 18
  }

  function Join(lo: bv32, hi: bv32): bv32 {
    lo + (hi << 18)
  }

  lemma Regroup(a: bv32, b: bv32, c: bv32, x: bv32, y: bv32, z: bv32)
    ensures (a + (x << 18)) - (b + (y << 18)) - (c + (z << 18)) == (a - b - c) + ((x - y - z) << 18)
  {
  }

  lemma HalvesOf(n: bv32)
    ensures n == (n & 0x3ffff) + ((n >> 18) << 18)
    ensures (n >> 1) & 0xdb6db6db == (((n & 0x3ffff) >> 1) & 0xdb6db6db) + ((((n >> 18) >> 1) & 0xdb6db6db) << 18)
    ensures (n >> 2) & 0x49249249 == (((n & 0x3ffff) >> 2) & 0x49249249) + ((((n >> 18) >> 2) & 0x49249249) << 18)
  {
  }

  lemma GroupsOfHalves(n: bv32)
    ensures Groups(n) == Join(Groups(Low(n)), Groups(High(n)))
  {
    var lo, hi := n & 0x3ffff, n >> 18;
    HalvesOf(n);
    Regroup(lo, (lo >> 1) & 0xdb6db6db, (lo >> 2) & 0x49249249, hi, (hi >> 1) & 0xdb6db6db, (hi >> 2) & 0x49249249);
  }

  lemma DigitsOfHalves(a: bv32, b: bv32)
    requires Grouped(a) && Grouped(b) && Fits18(a) && Fits14(b)
    ensures Digits(Join(a, b)) == Join(Digits(a), Digits(b))
  {
  }

  lemma ValueOfHalves(lo: bv18, hi: bv14)
    ensures (((hi as bv32) << 18) | (lo as bv32)) as int == hi as int * 0x40000 + lo as int
  {
  }

  lemma ValueOfDigits(a: bv6, b: bv6, c: bv6)
    ensures (((c as bv32) << 12) | ((b as bv32) << 6) | (a as bv32)) as int ==
            c as int * 4096 + b as int * 64 + a as int
  {
  }

  lemma DigitsOf(v: bv32)
    requires Fits18(v)
    ensures v == (((Digit(v, 12) as bv32) << 12) | ((Digit(v, 6) as bv32) << 6) | (Digit(v, 0) as bv32))
  {
  }

  /** The value of eighteen bits by its three digits. */
  lemma DigitValue(v: bv32)
    requires Fits18(v)
    ensures Value(v) == Number(v, 12) * 4096 + Number(v, 6) * 64 + Number(v, 0)
  {
    hide Digit;
    DigitsOf(v);
    ValueOfDigits(Digit(v, 0), Digit(v, 6), Digit(v, 12));
  }

  lemma JoinedHalves(lo: bv32, hi: bv32)
    requires lo < 0x40000 && hi < 0x4000
    ensures lo + (hi << 18) == (((hi as bv14) as bv32) << 18) | ((lo as bv18) as bv32)
    ensures (hi as bv14) as bv32 == hi && (lo as bv18) as bv32 == lo
  {
  }

  lemma LowValue(x: bv18)
    ensures (x as bv32) as int == x as int
  {
  }

  lemma HighValue(x: bv14)
    ensures (x as bv32) as int == x as int
  {
  }

  lemma JoinedValue(lo: bv32, hi: bv32)
    requires Fits18(lo) && Fits14(hi)
    ensures Value(Join(lo, hi)) == Value(hi) * 0x40000 + Value(lo)
  {
    JoinedHalves(lo, hi);
    ValueOfHalves(lo as bv18, hi as bv14);
    LowValue(lo as bv18);
    HighValue(hi as bv14);
  }

  lemma {:induction false} LowMembers(n: bv32, k: nat)
    requires k <= 18
    ensures Members(Low(n), k) == Members(n, k)
  {
    hide HasBit;
    forall i: nat | i < k
      ensures HasBit(Low(n), i) <==> HasBit(n, i)
    {
      LowBit(n, i);
    }
  }

  lemma {:induction false} HighMembers(n: bv32, k: nat)
    requires k <= 14
    ensures |Members(n, 18 + k)| == |Members(n, 18)| + |Members(High(n), k)|
  {
    hide HasBit, Members;
    if k == 0 {
      NoMembers(High(n));
    } else {
      HighMembers(n, k - 1);
      NextMember(n, 18 + (k - 1));
      NextMember(High(n), k - 1);
      HighBit(n, k - 1);
    }
  }

  lemma {:induction false} NothingHigher(n: bv32, k: nat)
    requires 14 <= k <= 18
    ensures |Members(High(n), k)| == |Members(High(n), 14)|
  {
    hide HasBit, Members;
    if k > 14 {
      NothingHigher(n, k - 1);
      NoHighBit(n, k - 1);
      NextMember(High(n), k - 1);
    }
  }

  lemma HalvesFit(n: bv32)
    ensures Fits18(Low(n)) && Fits14(High(n)) && Fits18(High(n))
  {
  }

  /** The value of the digits in both halves. */
  lemma DigitsJoined(n: bv32)
    ensures var lo, hi := Digits(Groups(Low(n))), Digits(Groups(High(n)));
            Fits18(lo) && Fits18(hi) && Value(Digits(Groups(n))) == Value(hi) * 0x40000 + Value(lo)
  {
    hide *;
    HalvesFit(n);
    GroupsOfHalves(n);
    GroupsFit(Low(n));
    GroupsFit(High(n));
    var a, b := Groups(Low(n)), Groups(High(n));
    DigitsFit(a);
    DigitsFit(b);
    DigitsOfHalves(a, b);
    JoinedValue(Digits(a), Digits(b));
  }

  lemma CastOut(v: int, a: int, b: int, c: int, x: int, y: int, z: int)
    requires v == (z * 4096 + y * 64 + x) * 0x40000 + c * 4096 + b * 64 + a
    requires 0 <= a + b + c + x + y + z < 63
    ensures v % 63 == a + b + c + x + y + z
  {
    var s := a + b + c + x + y + z;
    assert v == s + 63 * (17043521 * z + 266305 * y + 4161 * x + 65 * c + b);
  }

  lemma {:induction false} AtMost(n: bv32, k: nat)
    requires k <= 32
    ensures |Members(n, k)| <= k
  {
    hide HasBit, Members;
    if k == 0 {
      NoMembers(n);
    } else {
      AtMost(n, k - 1);
      NextMember(n, k - 1);
    }
  }

  /** The members of both halves. */
  lemma MembersJoined(n: bv32)
    ensures |Members(n, 32)| == |Members(Low(n), 18)| + |Members(High(n), 18)|
  {
    hide *;
    LowMembers(n, 18);
    HighMembers(n, 14);
    NothingHigher(n, 18);
  }

  /** The count of any 32-bit word is the number of its set bits. */
  lemma CountIsCardinality(n: bv32)
    ensures Count(n) == |Members(n, 32)|
  {
    hide Groups, Digits, Number, Members, Value, Low, High, Fits18;
    HalvesFit(n);
    DigitsJoined(n);
    HalfCount(Low(n));
    HalfCount(High(n));
    MembersJoined(n);
    AtMost(n, 32);
    var lo, hi := Digits(Groups(Low(n))), Digits(Groups(High(n)));
    DigitValue(lo);
    DigitValue(hi);
    CastOut(Value(Digits(Groups(n))), Number(lo, 0), Number(lo, 6), Number(lo, 12),
            Number(hi, 0), Number(hi, 6), Number(hi, 12));
  }
}
