/** The processor state register of src/core/special_reg.cpp, kept as separate fields. */
module Psr {

  datatype Fields = Fields(
    impVer: bv32, icc: bv32, ec: bv32, ef: bv32, pil: bv32, s: bv32, ps: bv32, et: bv32, currWp: bv32)

  /** Every field fits its place in the register. */
  predicate Fit(f: Fields) {
    f.impVer < 0x100 && f.icc < 0x10 && f.ec < 2 && f.ef < 2 && f.pil < 0x10 && f.s < 2 && f.ps < 2 && f.et < 2
    && f.currWp < 0x20
  }

  function Split(word: bv32): (f: Fields)
    ensures Fit(f)
  {
    Fields((word & 0xFF00_0000) >> 24, (word & 0x00F0_0000) >> 20, (word & 0x2000) >> 13, (word & 0x1000) >> 12,
           (word & 0x0F00) >> 8, (word & 0x80) >> 7, (word & 0x40) >> 6, (word & 0x20) >> 5, word & 0x1F)
  }

  function Join(f: Fields): bv32 {
    (f.impVer << 24) | (f.icc << 20) | (f.ec << 13) | (f.ef << 12) | (f.pil << 8)
    | (f.s << 7) | (f.ps << 6) | (f.et << 5) | f.currWp
  }

  /** Writing and reading back keeps every bit but the six reserved ones. */
  lemma ReadBack(word: bv32)
    ensures Join(Split(word)) == word & 0xFFF0_3FFF
  {
  }

  /** Reading and writing back keeps every field. */
  lemma WriteBack(f: Fields)
    requires Fit(f)
    ensures Split(Join(f)) == f
  {
  }

  /** Bits `low` and up, as many as `mask` has. */
  function Place(word: bv32, low: nat, mask: bv32): bv32
    requires low < 32
  {
    (word >> low) & mask
  }

  /** The layout of the register: impl and ver, icc, EC, EF, PIL, S, PS, ET and CWP. */
  lemma Layout(word: bv32)
    ensures var f := Split(word);
            && f.impVer == Place(word, 24, 0xFF) && f.icc == Place(word, 20, 0xF) && f.ec == Place(word, 13, 1)
            && f.ef == Place(word, 12, 1) && f.pil == Place(word, 8, 0xF) && f.s == Place(word, 7, 1)
            && f.ps == Place(word, 6, 1) && f.et == Place(word, 5, 1) && f.currWp == Place(word, 0, 0x1F)
  {
  }

  class SpecialReg {
    var fields: Fields

    /** What is read next is the word written, without its six reserved bits. */
    method SetPsr(word: bv32)
      modifies this
      ensures Fit(fields) && fields == Split(word) && Join(fields) == word & 0xFFF0_3FFF
    {
      ReadBack(word);
      fields := Split(word);
    }

    method GetPsr() returns (word: bv32)
      requires Fit(fields)
      ensures Split(word) == fields && word & 0x000F_C000 == 0
    {
      WriteBack(fields);
      word := Join(fields);
    }

    /** The carry read through the whole register is bit 0 of the condition codes. */
    method GetCarryBit() returns (carry: bv32)
      requires Fit(fields)
      ensures carry == fields.icc & 1
    {
      var psr := GetPsr();
      carry := if psr & 0x0010_0000 != 0 then 1 else 0;
    }
  }
}
