/** The relocator's instruction classes and the immediate-field codecs. */
module Codec {
  import opened A64

  // --- classes: `(instr & mask) == fixed`, written as tests on the bits the mask selects

  function Op(w: Word): int { w / 0x100_0000 }

  predicate IsBranchOrCall(w: Word) { Op(w) / 4 % 0x20 == 0x05 }
  predicate IsLoadLiteral(w: Word) { Op(w) / 8 % 8 == 3 && Op(w) % 4 == 0 }
  predicate IsAdr(w: Word) { Op(w) % 0x20 == 0x10 && Op(w) / 0x80 == 0 }
  predicate IsAdrp(w: Word) { Op(w) % 0x20 == 0x10 && Op(w) / 0x80 == 1 }
  predicate IsBranchCond(w: Word) { Op(w) / 2 == 0x2A }
  predicate IsCompareBranch(w: Word) { Op(w) / 2 % 0x40 == 0x1A }
  predicate IsTestBranch(w: Word) { Op(w) / 2 % 0x40 == 0x1B }

  predicate IsPcRelative(w: Word) {
    IsBranchOrCall(w) || IsLoadLiteral(w) || IsAdr(w) || IsAdrp(w) || IsBranchCond(w) || IsCompareBranch(w) || IsTestBranch(w)
  }

  /** The top bytes of each class, one by one. */
  lemma BranchOpcodes(op: int)
    requires 0 <= op < 0x100
    ensures op / 4 % 0x20 == 0x05 <==> 0x14 <= op < 0x18 || 0x94 <= op < 0x98
    ensures op / 2 == 0x2A <==> op == 0x54 || op == 0x55
    ensures op / 2 % 0x40 == 0x1A <==> op == 0x34 || op == 0x35 || op == 0xB4 || op == 0xB5
    ensures op / 2 % 0x40 == 0x1B <==> op == 0x36 || op == 0x37 || op == 0xB6 || op == 0xB7
  {
  }

  lemma LiteralOpcodes(op: int)
    requires 0 <= op < 0x100
    ensures op / 8 % 8 == 3 && op % 4 == 0 <==>
              op == 0x18 || op == 0x58 || op == 0x98 || op == 0xD8 || op == 0x1C || op == 0x5C || op == 0x9C || op == 0xDC
  {
    assert op == op / 0x40 * 0x40 + op / 8 % 8 * 8 + op % 8;
  }

  lemma AdrOpcodes(op: int)
    requires 0 <= op < 0x100
    ensures op % 0x20 == 0x10 && op / 0x80 == 0 <==> op == 0x10 || op == 0x30 || op == 0x50 || op == 0x70
    ensures op % 0x20 == 0x10 && op / 0x80 == 1 <==> op == 0x90 || op == 0xB0 || op == 0xD0 || op == 0xF0
  {
  }

  /** No word is in two classes, so the order in which the relocator tests them does not matter. */
  lemma ClassesDisjoint(w: Word)
    ensures IsBranchOrCall(w) ==> !IsLoadLiteral(w) && !IsAdr(w) && !IsAdrp(w) && !IsBranchCond(w) && !IsCompareBranch(w) && !IsTestBranch(w)
    ensures IsLoadLiteral(w) ==> !IsAdr(w) && !IsAdrp(w) && !IsBranchCond(w) && !IsCompareBranch(w) && !IsTestBranch(w)
    ensures IsAdr(w) ==> !IsAdrp(w) && !IsBranchCond(w) && !IsCompareBranch(w) && !IsTestBranch(w)
    ensures IsAdrp(w) ==> !IsBranchCond(w) && !IsCompareBranch(w) && !IsTestBranch(w)
    ensures IsBranchCond(w) ==> !IsCompareBranch(w) && !IsTestBranch(w)
    ensures IsCompareBranch(w) ==> !IsTestBranch(w)
  {
    BranchOpcodes(Op(w));
    LiteralOpcodes(Op(w));
    AdrOpcodes(Op(w));
  }

  /** The classes pick exactly the instructions the architecture calls pc-relative, plus two unallocated patterns. */
  lemma ClassesMatchDecode(w: Word)
    ensures IsBranchOrCall(w) <==> Decode(w).B? || Decode(w).BL?
    ensures IsLoadLiteral(w) <==> Decode(w).LoadLiteral? || Op(w) == 0xDC
    ensures IsAdr(w) <==> Decode(w).Adr?
    ensures IsAdrp(w) <==> Decode(w).Adrp?
    ensures IsBranchCond(w) <==> Decode(w).BCond? || Op(w) == 0x55
    ensures IsCompareBranch(w) <==> Decode(w).CompareBranch?
    ensures IsTestBranch(w) <==> Decode(w).TestBranch?
  {
    BranchOpcodes(Op(w));
    LiteralOpcodes(Op(w));
    AdrOpcodes(Op(w));
  }

  // --- decoding by the top byte

  lemma DecodedCond(w: Word)
    ensures Decode(w).BCond? <==> Op(w) == 0x54
    ensures Op(w) == 0x54 ==> Decode(w) == BCond(w % 0x10, Imm19(w))
  {
    hide Imm26, Imm21, Imm19, Imm14, TestedBit;
  }

  lemma DecodedCompare(w: Word)
    ensures Decode(w).CompareBranch? <==> Op(w) == 0x34 || Op(w) == 0x35 || Op(w) == 0xB4 || Op(w) == 0xB5
    ensures Decode(w).CompareBranch? ==> Decode(w) == CompareBranch(Op(w) >= 0x80, Op(w) % 2 == 1, w % 0x20, Imm19(w))
  {
    hide Imm26, Imm21, Imm19, Imm14, TestedBit;
  }

  lemma DecodedTest(w: Word)
    ensures Decode(w).TestBranch? <==> Op(w) == 0x36 || Op(w) == 0x37 || Op(w) == 0xB6 || Op(w) == 0xB7
    ensures Decode(w).TestBranch? ==> Decode(w) == TestBranch(TestedBit(w), Op(w) % 2 == 1, w % 0x20, Imm14(w))
  {
    hide Imm26, Imm21, Imm19, Imm14, TestedBit;
  }

  lemma DecodedLiteral(w: Word)
    ensures Decode(w).LoadLiteral? ==> IsLoadLiteral(w) && Decode(w) == LoadLiteral(w / 0x4000_0000, Op(w) / 4 % 2 == 1, w % 0x20, Imm19(w))
    ensures Op(w) == 0x58 ==> Decode(w) == LoadLiteral(1, false, w % 0x20, Imm19(w))
  {
    hide Imm26, Imm21, Imm19, Imm14, TestedBit;
    LiteralOpcodes(Op(w));
    assert Op(w) / 0x40 == w / 0x4000_0000;
  }

  lemma DecodedAdr(w: Word)
    ensures IsAdr(w) ==> Decode(w) == Adr(w % 0x20, Imm21(w))
    ensures IsAdrp(w) ==> Decode(w) == Adrp(w % 0x20, Imm21(w) * 0x1000)
  {
    hide Imm26, Imm21, Imm19, Imm14, TestedBit;
    AdrOpcodes(Op(w));
  }

  lemma DecodedBranch(w: Word)
    ensures IsBranchOrCall(w) ==> Decode(w) == if w / 0x400_0000 == 0x25 then BL(Imm26(w)) else B(Imm26(w))
  {
    hide Imm26, Imm21, Imm19, Imm14, TestedBit;
    BranchOpcodes(Op(w));
    assert Op(w) / 4 == w / 0x400_0000;
  }

  // --- field codecs

  function EncodeImm14(w: Word, off: int): Word { w - w / 0x20 % 0x4000 * 0x20 + off / 4 % 0x4000 * 0x20 }
  function EncodeImm19(w: Word, off: int): Word { w - w / 0x20 % 0x8_0000 * 0x20 + off / 4 % 0x8_0000 * 0x20 }
  function EncodeImm26(w: Word, off: int): Word { w - w % 0x400_0000 + off / 4 % 0x400_0000 }

  function EncodeImm21(w: Word, off: int): Word {
    w - w / 0x20 % 0x8_0000 * 0x20 + off / 4 % 0x8_0000 * 0x20 - w / 0x2000_0000 % 4 * 0x2000_0000 + off % 4 * 0x2000_0000
  }

  function EncodePage21(w: Word, off: int): Word { EncodeImm21(w, off / 0x1000) }

  /** A word split around a field that starts at bit 5. */
  lemma MiddleField(w: int, top: int, field: int, low: int, size: int)
    requires w == (top * size + field) * 0x20 + low && 0 <= field < size && 0 <= low < 0x20
    requires size == 0x4000 || size == 0x8_0000
    ensures w / 0x20 % size == field && w % 0x20 == low && w / (0x20 * size) == top
  {
    assert w / 0x20 == top * size + field;
  }

  lemma MiddleSplit(w: Word, size: int)
    requires size == 0x4000 || size == 0x8_0000
    ensures w == (w / (0x20 * size) * size + w / 0x20 % size) * 0x20 + w % 0x20
  {
    assert w / 0x20 / size == w / (0x20 * size);
  }

  lemma Imm14Range(off: int)
    ensures SignExtend(off / 4 % 0x4000 * 4, 0x8000) == off <==> off % 4 == 0 && -0x8000 <= off < 0x8000
  {
    FieldExact(off, off / 4, off % 4, off / 4 / 0x4000, off / 4 % 0x4000, 0x4000);
  }

  /** A field of `size` values, four bytes each: `off` is 4 * (t * size + s) + r, and the field holds s. */
  lemma FieldExact(off: int, q: int, r: int, t: int, s: int, size: int)
    requires size == 0x4000 || size == 0x8_0000
    requires off == 4 * q + r && 0 <= r < 4 && 0 <= s < size && q == (if size == 0x4000 then 0x4000 * t else 0x8_0000 * t) + s
    ensures SignExtend(s * 4, 2 * size) == off <==> r == 0 && -2 * size <= off < 2 * size
  {
  }

  lemma Imm19Range(off: int)
    ensures SignExtend(off / 4 % 0x8_0000 * 4, 0x10_0000) == off <==> off % 4 == 0 && -0x10_0000 <= off < 0x10_0000
  {
    FieldExact(off, off / 4, off % 4, off / 4 / 0x8_0000, off / 4 % 0x8_0000, 0x8_0000);
  }

  /** A field is read as the two's complement number it stands for. */
  lemma Imm14Is(w: Word, imm: int)
    requires w / 0x20 % 0x4000 == imm / 4 % 0x4000 && -0x8000 <= imm < 0x8000
    ensures Imm14(w) == imm - imm % 4
  {
    FieldIs(imm, imm / 4 / 0x4000, imm / 4 % 0x4000, 0x4000);
  }

  lemma FieldIs(imm: int, t: int, s: int, size: int)
    requires size == 0x4000 || size == 0x8_0000 || size == 0x400_0000
    requires 0 <= s < size && -2 * size <= imm < 2 * size
    requires imm / 4 == s + if size == 0x4000 then 0x4000 * t else if size == 0x8_0000 then 0x8_0000 * t else 0x400_0000 * t
    ensures SignExtend(s * 4, 2 * size) == imm - imm % 4
  {
  }

  lemma Imm19Is(w: Word, imm: int)
    requires w / 0x20 % 0x8_0000 == imm / 4 % 0x8_0000 && -0x10_0000 <= imm < 0x10_0000
    ensures Imm19(w) == imm - imm % 4
  {
    FieldIs(imm, imm / 4 / 0x8_0000, imm / 4 % 0x8_0000, 0x8_0000);
  }

  lemma Imm26Is(w: Word, imm: int)
    requires w % 0x400_0000 == imm / 4 % 0x400_0000 && -0x800_0000 <= imm < 0x800_0000
    ensures Imm26(w) == imm - imm % 4
  {
    FieldIs(imm, imm / 4 / 0x400_0000, imm / 4 % 0x400_0000, 0x400_0000);
  }

  lemma Imm21Is(w: Word, imm: int)
    requires w / 0x20 % 0x8_0000 == imm / 4 % 0x8_0000 && w / 0x2000_0000 % 4 == imm % 4 && -0x10_0000 <= imm < 0x10_0000
    ensures Imm21(w) == imm
  {
    hide SignExtend;
    LowBits(imm / 4, imm % 4);
    SignedBits(imm);
  }

  lemma LowBits(q: int, r: int)
    requires 0 <= r < 4
    ensures (4 * q + r) % 0x20_0000 == q % 0x8_0000 * 4 + r
  {
    LowBitsOf(4 * q + r, q / 0x8_0000, q % 0x8_0000 * 4 + r);
  }

  lemma LowBitsOf(x: int, t: int, u: int)
    requires x == 0x20_0000 * t + u && 0 <= u < 0x20_0000
    ensures x % 0x20_0000 == u
  {
  }

  lemma SignedBits(imm: int)
    requires -0x10_0000 <= imm < 0x10_0000
    ensures SignExtend(imm % 0x20_0000, 0x10_0000) == imm
  {
  }

  lemma Imm14RoundTrip(w: Word, off: int)
    ensures Imm14(EncodeImm14(w, off)) == off <==> off % 4 == 0 && -0x8000 <= off < 0x8000
    ensures EncodeImm14(w, off) % 0x20 == w % 0x20 && EncodeImm14(w, off) / 0x8_0000 == w / 0x8_0000
  {
    hide SignExtend;
    MiddleSplit(w, 0x4000);
    MiddleField(EncodeImm14(w, off), w / 0x8_0000, off / 4 % 0x4000, w % 0x20, 0x4000);
    Imm14Range(off);
  }

  lemma Imm19RoundTrip(w: Word, off: int)
    ensures Imm19(EncodeImm19(w, off)) == off <==> off % 4 == 0 && -0x10_0000 <= off < 0x10_0000
    ensures EncodeImm19(w, off) % 0x20 == w % 0x20 && EncodeImm19(w, off) / 0x100_0000 == w / 0x100_0000
  {
    hide SignExtend;
    MiddleSplit(w, 0x8_0000);
    MiddleField(EncodeImm19(w, off), w / 0x100_0000, off / 4 % 0x8_0000, w % 0x20, 0x8_0000);
    Imm19Range(off);
  }

  lemma Imm26RoundTrip(w: Word, off: int)
    ensures Imm26(EncodeImm26(w, off)) == off <==> off % 4 == 0 && -0x800_0000 <= off < 0x800_0000
    ensures EncodeImm26(w, off) / 0x400_0000 == w / 0x400_0000
  {
    assert EncodeImm26(w, off) % 0x400_0000 == off / 4 % 0x400_0000;
  }

  /** The fields of an ADR/ADRP word. */
  lemma Imm21Fields(w: Word, op: int, lo: int, fixed: int, hi: int, rd: int)
    requires 0 <= op < 2 && 0 <= lo < 4 && 0 <= fixed < 0x20 && 0 <= hi < 0x8_0000 && 0 <= rd < 0x20
    requires w == op * 0x8000_0000 + lo * 0x2000_0000 + fixed * 0x100_0000 + hi * 0x20 + rd
    ensures w / 0x8000_0000 == op && w / 0x2000_0000 % 4 == lo && w / 0x100_0000 % 0x20 == fixed
    ensures w / 0x20 % 0x8_0000 == hi && w % 0x20 == rd
  {
    assert w / 0x2000_0000 == op * 4 + lo;
    assert w / 0x100_0000 == (op * 4 + lo) * 0x20 + fixed;
    assert w / 0x20 == ((op * 4 + lo) * 0x20 + fixed) * 0x8_0000 + hi;
  }

  lemma Imm21Split(w: Word)
    ensures w == w / 0x8000_0000 * 0x8000_0000 + w / 0x2000_0000 % 4 * 0x2000_0000 + w / 0x100_0000 % 0x20 * 0x100_0000
                 + w / 0x20 % 0x8_0000 * 0x20 + w % 0x20
  {
    assert w / 0x2000_0000 / 4 == w / 0x8000_0000;
    assert w / 0x100_0000 / 0x20 == w / 0x2000_0000;
    assert w / 0x20 / 0x8_0000 == w / 0x100_0000;
  }

  lemma Imm21Range(off: int)
    ensures SignExtend(off / 4 % 0x8_0000 * 4 + off % 4, 0x10_0000) == off <==> -0x10_0000 <= off < 0x10_0000
  {
    assert off / 4 % 0x8_0000 * 4 + off % 4 == off % 0x20_0000;
  }

  lemma Imm21RoundTrip(w: Word, off: int)
    ensures Imm21(EncodeImm21(w, off)) == off <==> -0x10_0000 <= off < 0x10_0000
    ensures EncodeImm21(w, off) % 0x20 == w % 0x20
    ensures EncodeImm21(w, off) / 0x100_0000 % 0x20 == w / 0x100_0000 % 0x20
    ensures EncodeImm21(w, off) / 0x8000_0000 == w / 0x8000_0000
  {
    Imm21Range(off);
    Imm21Split(w);
    Imm21Fields(EncodeImm21(w, off), w / 0x8000_0000, off % 4, w / 0x100_0000 % 0x20, off / 4 % 0x8_0000, w % 0x20);
  }

  lemma Page21RoundTrip(w: Word, off: int)
    ensures Imm21(EncodePage21(w, off)) * 0x1000 == off <==> off % 0x1000 == 0 && -0x1_0000_0000 <= off < 0x1_0000_0000
    ensures EncodePage21(w, off) % 0x20 == w % 0x20
    ensures EncodePage21(w, off) / 0x100_0000 % 0x20 == w / 0x100_0000 % 0x20
    ensures EncodePage21(w, off) / 0x8000_0000 == w / 0x8000_0000
  {
    Imm21RoundTrip(w, off / 0x1000);
  }
}
