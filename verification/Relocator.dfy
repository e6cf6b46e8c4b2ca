/**
  The ARM64 relocator: each word of an overwritten function head becomes a
  position-independent fragment, and a tail jump returns to the first word that
  was not overwritten.
 */
module Relocator {
  import opened Options
  import opened A64
  import opened Codec
  import opened Assembler

  /** A literal the fragment's word number `at` loads. */
  datatype Literal = Literal(data: Reg64, at: nat)

  datatype Frag = Frag(words: seq<Word>, lit: Option<Literal>)

  function FlipLowBit(cond: int): int {
    if cond % 2 == 0 then cond + 1 else cond - 1
  }

  /** B.cond over the two words that follow, with the condition inverted by `cond ^ 1`. */
  function SkipCond(w: Word): Word
    requires IsBranchCond(w)
  {
    EncodeImm19(w - w % 0x10 + FlipLowBit(w % 0x10), 12)
  }

  /** The word with bit 24 inverted: CBZ/CBNZ and TBZ/TBNZ swap. */
  function FlipBit24(w: Word): Word {
    if w / 0x100_0000 % 2 == 0 then w + 0x100_0000 else w - 0x100_0000
  }

  function JumpThrough(prefix: seq<Word>, dst: Reg64, last: Word): Frag {
    Frag(prefix + [LDR_SCRATCH, last], Some(Literal(dst, |prefix|)))
  }

  /** The fragment for one word, or None where the pass stops with `unimplemented`. */
  function FragOf(w: Word, pc: Reg64): (f: Option<Frag>)
    ensures f.None? <==> IsLoadLiteral(w) && w / 0x4000_0000 >= 2
  {
    ClassesDisjoint(w);
    if IsBranchOrCall(w) then
      Some(JumpThrough([], Wrap(pc + Imm26(w)), if w / 0x400_0000 == 0x25 then BlrWord(SCRATCH) else BrWord(SCRATCH)))
    else if IsLoadLiteral(w) then
      if w / 0x4000_0000 < 2 then Some(Frag(MovWords(SCRATCH, Wrap(pc + Imm19(w))) + [LdrWord(w % 0x20, SCRATCH)], None))
      else None
    else if IsAdr(w) then Some(Frag(MovWords(w % 0x20, Wrap(pc + Imm21(w))), None))
    else if IsAdrp(w) then Some(Frag(MovWords(w % 0x20, Page(Wrap(pc + Imm21(w) * 0x1000))), None))
    else if IsBranchCond(w) then Some(JumpThrough([SkipCond(w)], Wrap(pc + Imm19(w)), BrWord(SCRATCH)))
    else if IsCompareBranch(w) then Some(JumpThrough([EncodeImm19(FlipBit24(w), 12)], Wrap(pc + Imm19(w)), BrWord(SCRATCH)))
    else if IsTestBranch(w) then Some(JumpThrough([EncodeImm14(FlipBit24(w), 12)], Wrap(pc + Imm14(w)), BrWord(SCRATCH)))
    else Some(Frag([w], None))
  }

  function Append(a: Asm, f: Frag): Asm {
    Asm(a.words + f.words,
        if f.lit.Some? then a.labels + [Label(f.lit.value.data, [4 * (|a.words| + f.lit.value.at)])] else a.labels)
  }

  function Tail(target: Reg64): Frag {
    JumpThrough([], target, BrWord(SCRATCH))
  }

  /** Every word of the head has a fragment. */
  predicate Supported(head: seq<Word>) {
    forall i {:trigger head[i]} :: 0 <= i < |head| ==> IsLoadLiteral(head[i]) ==> head[i] / 0x4000_0000 < 2
  }

  function FragAt(head: seq<Word>, origin: Reg64, i: nat): (f: Frag)
    requires i < |head| && Supported(head)
  {
    FragOf(head[i], Wrap(origin + 4 * i)).value
  }

  /** The unlinked code for the first `i` words of the head. */
  function Prefix(head: seq<Word>, origin: Reg64, i: nat): Asm
    requires i <= |head| && Supported(head)
  {
    if i == 0 then Asm([], []) else Append(Prefix(head, origin, i - 1), FragAt(head, origin, i - 1))
  }

  /** The unlinked block, with the jump back when `branch` is set. */
  function Block(head: seq<Word>, origin: Reg64, branch: bool): Asm
    requires Supported(head)
  {
    var a := Prefix(head, origin, |head|);
    if branch then Append(a, Tail(Wrap(origin + 4 * |head|))) else a
  }

  // --- what the unlinked block looks like

  /** The one recorded load, a word of the code. */
  predicate LoadOk(words: seq<Word>, refs: seq<nat>) {
    |refs| == 1 && refs[0] % 4 == 0 && refs[0] / 4 < |words| && words[refs[0] / 4] == LDR_SCRATCH
  }

  /** Each label has one load, which is still `ldr x17, #0`. */
  predicate OneLoadEach(a: Asm) {
    forall k {:trigger a.labels[k]} :: 0 <= k < |a.labels| ==> LoadOk(a.words, a.labels[k].refs)
  }

  /** Each label has one load, and the loads stand in label order. */
  predicate WellLinked(a: Asm) {
    && OneLoadEach(a)
    && (forall k, l {:trigger a.labels[k], a.labels[l]} :: 0 <= k < l < |a.labels| ==> a.labels[k].refs[0] < a.labels[l].refs[0])
  }

  lemma WellLinkedRefs(a: Asm)
    requires WellLinked(a)
    ensures OneLoadEach(a) && LabelsIn(a.labels, |a.words|) && RefsDistinct(a.labels)
  {
  }

  predicate GoodFrag(f: Frag) {
    1 <= |f.words| <= 5 && (f.lit.Some? ==> f.lit.value.at < |f.words| <= 3 && f.words[f.lit.value.at] == LDR_SCRATCH)
  }

  /** An old load stays where it is when words are added behind it. */
  lemma LoadStays(words: seq<Word>, more: seq<Word>, refs: seq<nat>)
    requires LoadOk(words, refs)
    ensures LoadOk(words + more, refs) && refs[0] < 4 * |words|
  {
    assert refs[0] == 4 * (refs[0] / 4);
  }

  /** The load of a new fragment stands in the words added for it. */
  lemma LoadAdded(words: seq<Word>, more: seq<Word>, at: nat)
    requires at < |more| && more[at] == LDR_SCRATCH
    ensures LoadOk(words + more, [4 * (|words| + at)])
  {
    assert (words + more)[|words| + at] == more[at];
  }

  lemma AppendKeeps(a: Asm, f: Frag)
    requires WellLinked(a) && GoodFrag(f)
    ensures WellLinked(Append(a, f))
  {
    hide LoadOk;
    var b := Append(a, f);
    forall k {:trigger b.labels[k]} | 0 <= k < |b.labels|
      ensures LoadOk(b.words, b.labels[k].refs)
      ensures k < |a.labels| ==> b.labels[k] == a.labels[k] && |a.labels[k].refs| == 1 && a.labels[k].refs[0] < 4 * |a.words|
      ensures k >= |a.labels| ==> b.labels[k].refs == [4 * (|a.words| + f.lit.value.at)]
    {
      if k < |a.labels| {
        assert LoadOk(a.words, a.labels[k].refs);
        OneRef(a.words, a.labels[k].refs);
        LoadStays(a.words, f.words, a.labels[k].refs);
      } else {
        LoadAdded(a.words, f.words, f.lit.value.at);
      }
    }
  }

  lemma OneRef(words: seq<Word>, refs: seq<nat>)
    requires LoadOk(words, refs)
    ensures |refs| == 1
  {
  }

  lemma FragGood(w: Word, pc: Reg64)
    requires FragOf(w, pc).Some?
    ensures GoodFrag(FragOf(w, pc).value)
  {
  }

  /** Size bound: n words give at most 20n bytes of code and data. */
  lemma {:induction false} PrefixShape(head: seq<Word>, origin: Reg64, i: nat)
    requires i <= |head| && Supported(head)
    ensures WellLinked(Prefix(head, origin, i))
    ensures |Prefix(head, origin, i).words| + 2 * |Prefix(head, origin, i).labels| <= 5 * i
  {
    if i == 0 {
    } else {
      PrefixShape(head, origin, i - 1);
      assert head[i - 1] == head[i - 1];
      FragGood(head[i - 1], Wrap(origin + 4 * (i - 1)));
      AppendKeeps(Prefix(head, origin, i - 1), FragAt(head, origin, i - 1));
    }
  }

  lemma BlockShape(head: seq<Word>, origin: Reg64)
    requires Supported(head)
    ensures var a := Block(head, origin, true);
            && WellLinked(a) && LabelsIn(a.labels, |a.words|) && RefsDistinct(a.labels)
            && 4 * (|a.words| + 2 * |a.labels|) <= 20 * |head| + 16
  {
    PrefixShape(head, origin, |head|);
    AppendKeeps(Prefix(head, origin, |head|), Tail(Wrap(origin + 4 * |head|)));
    WellLinkedRefs(Block(head, origin, true));
  }

  // --- the pass itself

  /**
    relo_ctx_t::relocate.  `code` holds the words from `origin` on, `size` is the
    requested size in bytes; the pass takes whole words until it is reached.  The
    result is the final buffer and the corrected size, or None where it aborts.
   */
  method Relocate(code: seq<Word>, origin: Reg64, size: nat, branch: bool) returns (r: Option<(seq<Word>, nat)>)
    requires size <= 4 * |code|
    ensures var head := code[..(size + 3) / 4];
            if Supported(head) then
              var a := Block(head, origin, branch);
              && r.Some? && r.value.1 == 4 * |head|
              && LabelsIn(a.labels, |a.words|) && r.value.0 == LinkFrom(a.words, a.labels)
            else r.None?
  {
    hide FragOf, Prefix, Supported, LinkFrom, LabelsIn, Append, NewLabel, EmitWord;
    var asm := new TurboAssembler();
    var ok, done := RelocateWords(asm, code, origin, size);
    if !ok {
      return None;
    }
    if branch {
      JumpAppends(asm.View(), Wrap(origin + done), BrWord(SCRATCH), []);
      asm.LiteralLdrBranch(Wrap(origin + done));
    }
    asm.RelocDataLabels();
    r := Some((asm.words, done));
  }

  /** The loop over the words of the head. */
  method RelocateWords(asm: TurboAssembler, code: seq<Word>, origin: Reg64, size: nat) returns (ok: bool, cursor: nat)
    requires size <= 4 * |code| && asm.Valid() && asm.View() == Asm([], [])
    modifies asm
    ensures asm.Valid() && fresh(asm.labels)
    ensures var head := code[..(size + 3) / 4];
            && (ok <==> Supported(head))
            && (ok ==> cursor == 4 * |head| && asm.View() == Prefix(head, origin, |head|))
  {
    hide FragOf, Relocated, Prefix, Supported;
    ghost var head := code[..(size + 3) / 4];
    RelocatedNone(head, origin);
    cursor := 0;
    ghost var i := 0;
    while cursor < size
      invariant cursor == 4 * i && i <= |head| && asm.Valid() && fresh(asm.labels)
      invariant Relocated(asm.View(), head, origin, i)
    {
      assert cursor / 4 == i < |head|;
      var w := code[cursor / 4];
      assert w == head[i];
      RelocatedStep(asm.View(), head, origin, i);
      ok := RelocateOne(asm, w, Wrap(origin + cursor));
      if !ok {
        return;
      }
      cursor, i := cursor + 4, i + 1;
    }
    ok := true;
    assert i == |head|;
    RelocatedAll(asm.View(), head, origin);
  }

  /** `a` is the code for the first `i` words of the head, all of which have fragments. */
  ghost predicate Relocated(a: Asm, head: seq<Word>, origin: Reg64, i: nat) {
    i <= |head| && Supported(head[..i]) && a == Prefix(head[..i], origin, i)
  }

  lemma RelocatedNone(head: seq<Word>, origin: Reg64)
    ensures Relocated(Asm([], []), head, origin, 0)
  {
  }

  lemma RelocatedStep(a: Asm, head: seq<Word>, origin: Reg64, i: nat)
    requires Relocated(a, head, origin, i) && i < |head|
    ensures var f := FragOf(head[i], Wrap(origin + 4 * i));
            if f.Some? then Relocated(Append(a, f.value), head, origin, i + 1) else !Supported(head)
  {
    hide FragOf;
    var more := head[..i + 1];
    assert more[..i] == head[..i] && more[i] == head[i];
    assert forall k :: 0 <= k < i ==> more[k] == head[..i][k];
    if FragOf(head[i], Wrap(origin + 4 * i)).Some? {
      PrefixStable(more, i, origin, i);
    }
  }

  lemma RelocatedAll(a: Asm, head: seq<Word>, origin: Reg64)
    requires Relocated(a, head, origin, |head|)
    ensures Supported(head) && a == Prefix(head, origin, |head|)
  {
    assert head[..|head|] == head;
  }

  /** One turn of the loop: exactly the fragment of the word is appended; before the abort, the moves of the address. */
  method RelocateOne(asm: TurboAssembler, w: Word, pc: Reg64) returns (ok: bool)
    requires asm.Valid()
    modifies asm
    ensures asm.Valid() && ok == FragOf(w, pc).Some?
    ensures fresh(set l <- asm.labels | l !in old(asm.labels))
    ensures asm.View() == Append(old(asm.View()), if ok then FragOf(w, pc).value else Frag(MovWords(SCRATCH, Wrap(pc + Imm19(w))), None))
  {
    hide Imm14, Imm19, Imm21, Imm26, EncodeImm14, EncodeImm19, SkipCond, FlipBit24, JumpThrough, MovWords, Append;
    ok := true;
    if IsBranchOrCall(w) {
      EmitJump(asm, Wrap(pc + Imm26(w)), if w / 0x400_0000 == 0x25 then BlrWord(SCRATCH) else BrWord(SCRATCH), []);
    } else if IsLoadLiteral(w) {
      var opc := w / 0x4000_0000;
      if opc == 0 || opc == 1 {
        EmitMov(asm, SCRATCH, Wrap(pc + Imm19(w)), [LdrWord(w % 0x20, SCRATCH)]);
      } else {
        EmitMov(asm, SCRATCH, Wrap(pc + Imm19(w)), []);
        ok := false;
      }
    } else if IsAdr(w) {
      EmitMov(asm, w % 0x20, Wrap(pc + Imm21(w)), []);
    } else if IsAdrp(w) {
      EmitMov(asm, w % 0x20, Page(Wrap(pc + Imm21(w) * 0x1000)), []);
    } else if IsBranchCond(w) {
      EmitJump(asm, Wrap(pc + Imm19(w)), BrWord(SCRATCH), [SkipCond(w)]);
    } else if IsCompareBranch(w) {
      EmitJump(asm, Wrap(pc + Imm19(w)), BrWord(SCRATCH), [EncodeImm19(FlipBit24(w), 12)]);
    } else if IsTestBranch(w) {
      EmitJump(asm, Wrap(pc + Imm14(w)), BrWord(SCRATCH), [EncodeImm14(FlipBit24(w), 12)]);
    } else {
      EmitCopy(asm, w);
    }
  }

  /** The value in four moves, and at most one word after them. */
  method EmitMov(asm: TurboAssembler, rd: RegNum, imm: Reg64, last: seq<Word>)
    requires asm.Valid() && |last| <= 1
    modifies asm`words
    ensures asm.Valid()
    ensures asm.View() == Append(old(asm.View()), Frag(if last == [] then MovWords(rd, imm) else MovWords(rd, imm) + last, None))
  {
    hide MovWords;
    asm.Mov(rd, imm);
    if last != [] {
      asm.Emit(last[0]);
    }
  }

  method EmitCopy(asm: TurboAssembler, w: Word)
    requires asm.Valid()
    modifies asm`words
    ensures asm.Valid() && asm.View() == Append(old(asm.View()), Frag([w], None))
  {
    asm.Emit(w);
  }

  /** A data label for `dst`, an optional skipping branch, a load of the label and the final branch. */
  method EmitJump(asm: TurboAssembler, dst: Reg64, last: Word, prefix: seq<Word>)
    requires asm.Valid() && |prefix| <= 1
    modifies asm
    ensures asm.Valid()
    ensures fresh(set l <- asm.labels | l !in old(asm.labels))
    ensures asm.View() == Append(old(asm.View()), JumpThrough(prefix, dst, last))
  {
    hide Append, NewLabel, EmitWord, JumpThrough;
    JumpAppends(asm.View(), dst, last, prefix);
    var lab := asm.CreateDataLabel(dst);
    if prefix != [] {
      asm.Emit(prefix[0]);
    }
    asm.LdrLabel(SCRATCH, lab);
    asm.Emit(last);
  }

  lemma JumpAppends(a: Asm, dst: Reg64, last: Word, prefix: seq<Word>)
    requires |prefix| <= 1
    ensures var b := NewLabel(a, dst);
            var b' := if prefix == [] then b else EmitWord(b, prefix[0]);
            b'.labels != [] && EmitWord(LoadLabel(b', SCRATCH), last) == Append(a, JumpThrough(prefix, dst, last))
  {
    var f := JumpThrough(prefix, dst, last);
    assert LdrLiteralWord(SCRATCH, 0) == LDR_SCRATCH;
    assert a.words + f.words == a.words + prefix + [LDR_SCRATCH] + [last];
    var offset := 4 * (|a.words| + |prefix|);
    assert [] + [offset] == [offset];
  }

  lemma {:induction false} PrefixStable(head: seq<Word>, n: nat, origin: Reg64, i: nat)
    requires i <= n <= |head| && Supported(head)
    ensures Supported(head[..n]) && Prefix(head[..n], origin, i) == Prefix(head, origin, i)
    decreases i
  {
    assert forall k :: 0 <= k < n ==> head[..n][k] == head[k];
    if i == 0 {
    } else {
      PrefixStable(head, n, origin, i - 1);
    }
  }
}
