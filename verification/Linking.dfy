/** The relocated block after linking: every fragment stands where it was emitted, with its literal in reach. */
module Linking {
  import opened Options
  import opened A64
  import opened Codec
  import opened Assembler
  import opened Relocator

  /** Word number `p` is a 64-bit load into X17 of `data`, whose two words stand further on. */
  ghost predicate LoadsAt(words: seq<Word>, p: nat, data: Reg64) {
    && p < |words| && Decode(words[p]).LoadLiteral?
    && (var i := Decode(words[p]);
        && i.opc == 1 && !i.simd && i.rt == SCRATCH && i.off >= 0 && i.off % 4 == 0
        && p + i.off / 4 + 1 < |words|
        && words[p + i.off / 4] == data % 0x1_0000_0000 && words[p + i.off / 4 + 1] == data / 0x1_0000_0000)
  }

  /** Fragment `f` stands at word `p`: its words are unchanged but for the load, which reaches its own literal. */
  ghost predicate FragLinked(words: seq<Word>, p: nat, f: Frag) {
    && p + |f.words| <= |words|
    && (f.lit.Some? ==> f.lit.value.at < |f.words| && LoadsAt(words, p + f.lit.value.at, f.lit.value.data))
    && (forall t {:trigger f.words[t]} :: 0 <= t < |f.words| && !(f.lit.Some? && t == f.lit.value.at) ==> words[p + t] == f.words[t])
  }

  /** Where fragment `i` starts, in words. */
  function Off(head: seq<Word>, origin: Reg64, i: nat): nat
    requires i <= |head| && Supported(head)
  {
    |Prefix(head, origin, i).words|
  }

  ghost function Linked(head: seq<Word>, origin: Reg64): seq<Word>
    requires Supported(head)
  {
    BlockShape(head, origin);
    var a := Block(head, origin, true);
    LinkFrom(a.words, a.labels)
  }

  predicate Extends(a: Asm, b: Asm) {
    a.words <= b.words && a.labels <= b.labels
  }

  lemma {:induction false} PrefixExtends(head: seq<Word>, origin: Reg64, i: nat, j: nat)
    requires i <= j <= |head| && Supported(head)
    ensures Extends(Prefix(head, origin, i), Prefix(head, origin, j))
    decreases j - i
  {
    hide FragOf;
    if i == j {
    } else {
      PrefixExtends(head, origin, i, j - 1);
    }
  }

  lemma LoadNotCopied(w: Word)
    ensures w == LDR_SCRATCH ==> IsLoadLiteral(w)
  {
  }

  lemma MovNotLoad(rd: RegNum, imm: Reg64, t: nat)
    requires t < 4
    ensures MovWords(rd, imm)[t] != LDR_SCRATCH
  {
  }

  lemma SkipNotLoad(w: Word)
    ensures IsBranchCond(w) ==> SkipCond(w) != LDR_SCRATCH
    ensures IsCompareBranch(w) ==> EncodeImm19(FlipBit24(w), 12) != LDR_SCRATCH
    ensures IsTestBranch(w) ==> EncodeImm14(FlipBit24(w), 12) != LDR_SCRATCH
  {
    if IsBranchCond(w) {
      Imm19RoundTrip(w - w % 0x10 + FlipLowBit(w % 0x10), 12);
    }
    Imm19RoundTrip(FlipBit24(w), 12);
    Imm14RoundTrip(FlipBit24(w), 12);
    BranchOpcodes(Op(w));
  }

  /** In a fragment only the recorded load is `ldr x17, #0`. */
  lemma OnlyLoad(w: Word, pc: Reg64, t: nat)
    requires FragOf(w, pc).Some?
    requires var f := FragOf(w, pc).value; t < |f.words| && !(f.lit.Some? && t == f.lit.value.at)
    ensures FragOf(w, pc).value.words[t] != LDR_SCRATCH
  {
    hide MovWords, EncodeImm19, EncodeImm14, FlipBit24, SkipCond, Imm26, Imm21, Imm19, Imm14, Op, Wrap;
    var f := FragOf(w, pc).value;
    SkipNotLoad(w);
    LoadNotCopied(w);
    if IsLoadLiteral(w) || IsAdr(w) || IsAdrp(w) {
      if t < 4 {
        MovNotLoad(SCRATCH, Wrap(pc + Imm19(w)), t);
        MovNotLoad(w % 0x20, Wrap(pc + Imm21(w)), t);
        MovNotLoad(w % 0x20, Page(Wrap(pc + Imm21(w) * 0x1000)), t);
      }
    }
  }

  lemma LinkedLoad(d: int)
    requires 0 <= d < 0x10_0000 && d % 4 == 0
    ensures Decode(EncodeImm19(LDR_SCRATCH, d)) == LoadLiteral(1, false, SCRATCH, d)
  {
    hide Decode, EncodeImm19, Imm19;
    Imm19RoundTrip(LDR_SCRATCH, d);
    DecodedLiteral(EncodeImm19(LDR_SCRATCH, d));
  }

  /** A word that is not a recorded load survives linking. */
  lemma PlaceWord(a: Asm, q: nat)
    requires OneLoadEach(a) && q < |a.words| && a.words[q] != LDR_SCRATCH
    ensures LabelsIn(a.labels, |a.words|) && LinkFrom(a.words, a.labels)[q] == a.words[q]
  {
    hide LinkFrom;
    LinkFrame(a.words, a.labels, q);
  }

  /** A fragment found in the unlinked block is linked in the final one. */
  lemma PlaceFrag(a: Asm, before: Asm, f: Frag)
    requires WellLinked(a) && Extends(Append(before, f), a)
    requires GoodFrag(f)
    requires forall t {:trigger f.words[t]} :: 0 <= t < |f.words| && !(f.lit.Some? && t == f.lit.value.at) ==> f.words[t] != LDR_SCRATCH
    requires 4 * (|a.words| + 2 * |a.labels|) <= 0x10_0000
    ensures LabelsIn(a.labels, |a.words|)
    ensures FragLinked(LinkFrom(a.words, a.labels), |before.words|, f)
  {
    hide LoadsAt, LinkFrom, WellLinked, LabelsIn, OneLoadEach;
    WellLinkedRefs(a);
    var p := |before.words|;
    var final := LinkFrom(a.words, a.labels);
    forall t {:trigger f.words[t]} | 0 <= t < |f.words| && !(f.lit.Some? && t == f.lit.value.at)
      ensures final[p + t] == f.words[t]
    {
      assert a.words[p + t] == f.words[t];
      PlaceWord(a, p + t);
    }
    if f.lit.Some? {
      PlaceLoad(a, before, f);
    }
  }

  lemma LoadsAtIntro(words: seq<Word>, p: nat, data: Reg64, d: int)
    requires p < |words| && Decode(words[p]) == LoadLiteral(1, false, SCRATCH, d) && d >= 0 && d % 4 == 0
    requires p + d / 4 + 1 < |words|
    requires words[p + d / 4] == data % 0x1_0000_0000 && words[p + d / 4 + 1] == data / 0x1_0000_0000
    ensures LoadsAt(words, p, data)
  {
    hide Decode;
  }

  lemma PlaceLoad(a: Asm, before: Asm, f: Frag)
    requires WellLinked(a) && Extends(Append(before, f), a)
    requires GoodFrag(f) && f.lit.Some?
    requires 4 * (|a.words| + 2 * |a.labels|) <= 0x10_0000
    ensures LabelsIn(a.labels, |a.words|)
    ensures LoadsAt(LinkFrom(a.words, a.labels), |before.words| + f.lit.value.at, f.lit.value.data)
  {
    hide Decode, LinkFrom, EncodeImm19, LoadsAt, RefsDistinct, WellLinked, OneLoadEach, LabelsIn, Append, Extends;
    WellLinkedRefs(a);
    var k, q := LoadFound(a, before, f);
    LinkRef(a.words, a.labels, k, 0);
    LinkData(a.words, a.labels, k);
    var d := 4 * |a.words| + 8 * k - 4 * q;
    Displacement(|a.words|, k, q);
    LinkedLoad(d);
    LoadsAtIntro(LinkFrom(a.words, a.labels), q, f.lit.value.data, d);
  }

  /** The label of an appended fragment and the word of its load. */
  lemma LoadFound(a: Asm, before: Asm, f: Frag) returns (k: nat, q: nat)
    requires Extends(Append(before, f), a) && GoodFrag(f) && f.lit.Some?
    ensures q == |before.words| + f.lit.value.at < |a.words| && k < |a.labels|
    ensures a.labels[k] == Label(f.lit.value.data, [4 * q]) && a.words[q] == LDR_SCRATCH
  {
    k, q := |before.labels|, |before.words| + f.lit.value.at;
    assert a.labels[k] == Append(before, f).labels[k];
    assert a.words[q] == Append(before, f).words[q];
  }

  lemma Displacement(n: nat, k: nat, q: nat)
    requires q < n
    ensures var d := 4 * n + 8 * k - 4 * q; d > 0 && d % 4 == 0 && q + d / 4 == n + 2 * k && 4 * q / 4 == q
  {
  }

  /** Linking is exact: in the final block every fragment, and the tail jump, stands linked at its own place. */
  lemma BlockLinked(head: seq<Word>, origin: Reg64, i: nat)
    requires Supported(head) && i <= |head| && 20 * |head| + 16 <= 0x10_0000
    ensures FragLinked(Linked(head, origin), Off(head, origin, i),
                       if i < |head| then FragAt(head, origin, i) else Tail(Wrap(origin + 4 * |head|)))
    ensures i < |head| ==> Off(head, origin, i + 1) == Off(head, origin, i) + |FragAt(head, origin, i).words|
    ensures |Linked(head, origin)| >= Off(head, origin, |head|) + 4
    ensures 4 * |Linked(head, origin)| <= 20 * |head| + 16
  {
    hide FragOf, WellLinked, LabelsIn, RefsDistinct, LinkFrom, FragLinked, Wrap;
    BlockShape(head, origin);
    var a := Block(head, origin, true);
    if i < |head| {
      PrefixExtends(head, origin, i + 1, |head|);
      var pc := Wrap(origin + 4 * i);
      FragGood(head[i], pc);
      var f := FragAt(head, origin, i);
      forall t {:trigger f.words[t]} | 0 <= t < |f.words| && !(f.lit.Some? && t == f.lit.value.at)
        ensures f.words[t] != LDR_SCRATCH
      {
        OnlyLoad(head[i], pc, t);
      }
      PlaceFrag(a, Prefix(head, origin, i), f);
    } else {
      PlaceFrag(a, Prefix(head, origin, i), Tail(Wrap(origin + 4 * |head|)));
    }
  }
}
