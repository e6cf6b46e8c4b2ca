/**
  The ARM64 mini-assembler: it appends words to a code buffer, records the
  literal loads that refer to a data label, and at the end appends each label's
  eight data bytes and patches the loads that refer to it.  Every emission is a
  multiple of four bytes, so the buffer is a sequence of words and a byte offset
  is four times an index.
 */
module Assembler {
  import opened A64
  import opened Codec

  // --- emitted words; `|` of disjoint fields is written `+`

  function LdrLiteralWord(rt: RegNum, imm: int): Word
    requires 0 <= imm < 0x10_0000
  {
    0x5800_0000 + imm / 4 * 0x20 + rt
  }

  function BrWord(rn: RegNum): Word { 0xD61F_0000 + rn * 0x20 }
  function BlrWord(rn: RegNum): Word { 0xD63F_0000 + rn * 0x20 }
  function BWord(imm: int): Word { 0x1400_0000 + imm / 4 % 0x400_0000 }
  function LdrWord(rt: RegNum, rn: RegNum): Word { 0xF940_0000 + rn * 0x20 + rt }

  function MovZWord(rd: RegNum, imm: int, hw: int): Word
    requires 0 <= imm < 0x1_0000 && 0 <= hw < 4
  {
    0xD280_0000 + hw * 0x20_0000 + imm * 0x20 + rd
  }

  function MovKWord(rd: RegNum, imm: int, hw: int): Word
    requires 0 <= imm < 0x1_0000 && 0 <= hw < 4
  {
    0xF280_0000 + hw * 0x20_0000 + imm * 0x20 + rd
  }

  function AdrpWord(rd: RegNum, imm: int): Word {
    0x9000_0000 + imm / 0x1000 % 4 * 0x2000_0000 + imm / 0x4000 % 0x8_0000 * 0x20 + rd
  }

  function AddWord(rd: RegNum, rn: RegNum, imm: int): Word {
    0x9100_0000 + imm % 0x1000 * 0x400 + rn * 0x20 + rd
  }

  function Half(imm: Reg64, hw: int): (h: int)
    ensures 0 <= h < 0x1_0000
  {
    imm / Lane(hw) % 0x1_0000
  }

  function MovWords(rd: RegNum, imm: Reg64): (r: seq<Word>)
    ensures |r| == 4
  {
    [MovZWord(rd, Half(imm, 0), 0), MovKWord(rd, Half(imm, 1), 1), MovKWord(rd, Half(imm, 2), 2), MovKWord(rd, Half(imm, 3), 3)]
  }

  /** The unlinked load `ldr x17, #0` that refers to a data label. */
  const LDR_SCRATCH: Word := 0x5800_0011

  function DataWords(data: Reg64): seq<Word> {
    [data % 0x1_0000_0000, data / 0x1_0000_0000]
  }

  // --- the assembler's state as a value

  datatype Label = Label(data: Reg64, refs: seq<nat>)
  datatype Asm = Asm(words: seq<Word>, labels: seq<Label>)

  function EmitWord(a: Asm, w: Word): Asm {
    Asm(a.words + [w], a.labels)
  }

  function NewLabel(a: Asm, data: Reg64): Asm {
    Asm(a.words, a.labels + [Label(data, [])])
  }

  /** A literal load that refers to the last label. */
  function LoadLabel(a: Asm, rt: RegNum): Asm
    requires a.labels != []
  {
    var k := |a.labels| - 1;
    Asm(a.words + [LdrLiteralWord(rt, 0)], a.labels[k := Label(a.labels[k].data, a.labels[k].refs + [4 * |a.words|])])
  }

  predicate RefsIn(refs: seq<nat>, n: nat) {
    forall j {:trigger refs[j]} :: 0 <= j < |refs| ==> refs[j] % 4 == 0 && refs[j] < 4 * n
  }

  predicate LabelsIn(labels: seq<Label>, n: nat) {
    forall k {:trigger labels[k]} :: 0 <= k < |labels| ==> RefsIn(labels[k].refs, n)
  }

  /** No load refers to two labels, or twice to one. */
  predicate RefsDistinct(labels: seq<Label>) {
    && (forall k, i, j {:trigger labels[k].refs[i], labels[k].refs[j]} ::
          0 <= k < |labels| && 0 <= i < j < |labels[k].refs| ==> labels[k].refs[i] != labels[k].refs[j])
    && (forall k, l, i, j {:trigger labels[k].refs[i], labels[l].refs[j]} ::
          0 <= k < l < |labels| && 0 <= i < |labels[k].refs| && 0 <= j < |labels[l].refs| ==> labels[k].refs[i] != labels[l].refs[j])
  }

  predicate Unreferenced(labels: seq<Label>, off: nat) {
    forall k {:trigger labels[k]} :: 0 <= k < |labels| ==> off !in labels[k].refs
  }

  /** Rewrites every referring load so that it reaches `pos`. */
  function PatchRefs(words: seq<Word>, pos: nat, refs: seq<nat>): (r: seq<Word>)
    requires RefsIn(refs, |words|)
    ensures |r| == |words|
    decreases |refs|
  {
    if refs == [] then words
    else
      var i := refs[0] / 4;
      PatchRefs(words[i := EncodeImm19(words[i], pos - refs[0])], pos, refs[1..])
  }

  function LinkFrom(words: seq<Word>, labels: seq<Label>): (r: seq<Word>)
    requires LabelsIn(labels, |words|)
    ensures |r| == |words| + 2 * |labels|
    decreases |labels|
  {
    if labels == [] then words
    else
      var patched := PatchRefs(words, 4 * |words|, labels[0].refs) + DataWords(labels[0].data);
      assert LabelsIn(labels[1..], |patched|) by {
        forall k | 0 <= k < |labels[1..]| ensures RefsIn(labels[1..][k].refs, |patched|) {
          assert labels[1..][k] == labels[k + 1];
        }
      }
      LinkFrom(patched, labels[1..])
  }

  lemma LinkUnfold(words: seq<Word>, labels: seq<Label>, i: nat)
    requires i < |labels| && LabelsIn(labels[i..], |words|)
    ensures RefsIn(labels[i].refs, |words|) && LabelsIn(labels[i + 1..], |words| + 2)
    ensures LinkFrom(words, labels[i..]) ==
              LinkFrom(PatchRefs(words, 4 * |words|, labels[i].refs) + DataWords(labels[i].data), labels[i + 1..])
  {
    assert labels[i..][0] == labels[i] && labels[i..][1..] == labels[i + 1..];
    forall k {:trigger labels[i + 1..][k]} | 0 <= k < |labels[i + 1..]| ensures RefsIn(labels[i + 1..][k].refs, |words| + 2) {
      assert labels[i + 1..][k] == labels[i..][k + 1];
    }
  }

  lemma LinkDone(words: seq<Word>, labels: seq<Label>)
    requires labels == []
    ensures LabelsIn(labels, |words|) && LinkFrom(words, labels) == words
  {
  }

  // --- linking is exact

  lemma {:induction false} PatchRefsFrame(words: seq<Word>, pos: nat, refs: seq<nat>, i: nat)
    requires RefsIn(refs, |words|) && i < |words| && 4 * i !in refs
    ensures PatchRefs(words, pos, refs)[i] == words[i]
    decreases |refs|
  {
    if refs == [] {
    } else {
      var p := refs[0] / 4;
      assert i != p;
      PatchRefsFrame(words[p := EncodeImm19(words[p], pos - refs[0])], pos, refs[1..], i);
    }
  }

  lemma {:induction false} PatchRefsAt(words: seq<Word>, pos: nat, refs: seq<nat>, j: nat)
    requires RefsIn(refs, |words|) && j < |refs|
    requires forall a, b :: 0 <= a < b < |refs| ==> refs[a] != refs[b]
    ensures PatchRefs(words, pos, refs)[refs[j] / 4] == EncodeImm19(words[refs[j] / 4], pos - refs[j])
    decreases |refs|
  {
    var p := refs[0] / 4;
    var words' := words[p := EncodeImm19(words[p], pos - refs[0])];
    if j == 0 {
      PatchRefsFrame(words', pos, refs[1..], p);
    } else {
      assert refs[1..][j - 1] == refs[j];
      PatchRefsAt(words', pos, refs[1..], j - 1);
    }
  }

  lemma {:induction false} LinkFrame(words: seq<Word>, labels: seq<Label>, i: nat)
    requires LabelsIn(labels, |words|) && i < |words| && Unreferenced(labels, 4 * i)
    ensures LinkFrom(words, labels)[i] == words[i]
    decreases |labels|
  {
    if labels == [] {
    } else {
      var patched := PatchRefs(words, 4 * |words|, labels[0].refs) + DataWords(labels[0].data);
      PatchRefsFrame(words, 4 * |words|, labels[0].refs, i);
      assert forall k :: 0 <= k < |labels[1..]| ==> labels[1..][k] == labels[k + 1];
      LinkFrame(patched, labels[1..], i);
    }
  }

  /** Beyond the words that existed when linking began nothing is patched. */
  lemma {:induction false} LinkFrameBeyond(words: seq<Word>, labels: seq<Label>, n: nat, i: nat)
    requires LabelsIn(labels, n) && n <= i < |words|
    ensures LabelsIn(labels, |words|) && LinkFrom(words, labels)[i] == words[i]
  {
    forall k | 0 <= k < |labels| ensures RefsIn(labels[k].refs, |words|) && 4 * i !in labels[k].refs {
      assert RefsIn(labels[k].refs, n);
    }
    LinkFrame(words, labels, i);
  }

  /** Each label's data words stand behind the code, in label order. */
  lemma {:induction false} LinkData(words: seq<Word>, labels: seq<Label>, k: nat)
    requires LabelsIn(labels, |words|) && k < |labels|
    ensures LinkFrom(words, labels)[|words| + 2 * k] == labels[k].data % 0x1_0000_0000
    ensures LinkFrom(words, labels)[|words| + 2 * k + 1] == labels[k].data / 0x1_0000_0000
    decreases |labels|
  {
    var n := |words|;
    var patched := PatchRefs(words, 4 * n, labels[0].refs) + DataWords(labels[0].data);
    var rest := labels[1..];
    assert forall k :: 0 <= k < |rest| ==> rest[k] == labels[k + 1];
    assert LabelsIn(rest, n);
    if k == 0 {
      LinkFrameBeyond(patched, rest, n, n);
      LinkFrameBeyond(patched, rest, n, n + 1);
    } else {
      assert LabelsIn(rest, |patched|);
      LinkData(patched, rest, k - 1);
    }
  }

  lemma RefsDistinctTail(labels: seq<Label>)
    requires RefsDistinct(labels) && labels != []
    ensures RefsDistinct(labels[1..])
  {
    var rest := labels[1..];
    assert forall k :: 0 <= k < |rest| ==> rest[k] == labels[k + 1];
  }

  /** A recorded load ends up displaced by exactly the distance to its own label's data. */
  lemma {:induction false} LinkRef(words: seq<Word>, labels: seq<Label>, k: nat, j: nat)
    requires LabelsIn(labels, |words|) && RefsDistinct(labels)
    requires k < |labels| && j < |labels[k].refs|
    ensures var r := labels[k].refs[j];
            r / 4 < |words| && LinkFrom(words, labels)[r / 4] == EncodeImm19(words[r / 4], 4 * |words| + 8 * k - r)
    decreases |labels|
  {
    hide EncodeImm19;
    var n := |words|;
    var r := labels[k].refs[j];
    assert RefsIn(labels[k].refs, n);
    var patched := PatchRefs(words, 4 * n, labels[0].refs) + DataWords(labels[0].data);
    var rest := labels[1..];
    assert forall k :: 0 <= k < |rest| ==> rest[k] == labels[k + 1];
    assert LabelsIn(rest, |patched|);
    if k == 0 {
      PatchRefsAt(words, 4 * n, labels[0].refs, j);
      assert 4 * (r / 4) == r;
      assert Unreferenced(rest, r);
      LinkFrame(patched, rest, r / 4);
    } else {
      assert r !in labels[0].refs;
      assert 4 * (r / 4) == r;
      PatchRefsFrame(words, 4 * n, labels[0].refs, r / 4);
      assert rest[k - 1] == labels[k];
      RefsDistinctTail(labels);
      LinkRef(patched, rest, k - 1, j);
    }
  }

  // --- the assembler itself

  lemma RefsGrow(refs: seq<nat>, n: nat)
    requires RefsIn(refs, n)
    ensures RefsIn(refs, n + 1) && RefsIn(refs + [4 * n], n + 1)
  {
  }

  class RelocDataLabel {
    const data: Reg64
    var pos: nat
    var refs: seq<nat>

    constructor (data: Reg64)
      ensures this.data == data && pos == 0 && refs == []
    {
      this.data, pos, refs := data, 0, [];
    }

    method LinkTo(offset: nat)
      modifies this`refs
      ensures refs == old(refs) + [offset]
    {
      refs := refs + [offset];
    }

    method BindTo(pos: nat)
      modifies this`pos
      ensures this.pos == pos
    {
      this.pos := pos;
    }
  }

  class TurboAssembler {
    var words: seq<Word>
    var labels: seq<RelocDataLabel>

    ghost predicate Valid()
      reads this, labels
    {
      && (forall i, j :: 0 <= i < j < |labels| ==> labels[i] != labels[j])
      && (forall i {:trigger labels[i]} :: 0 <= i < |labels| ==> RefsIn(labels[i].refs, |words|))
    }

    /** The assembler's state as a value; binding positions are not part of it. */
    ghost function View(): (a: Asm)
      reads this, labels
      ensures |a.labels| == |labels|
      ensures Valid() ==> LabelsIn(a.labels, |a.words|)
    {
      Asm(words, seq(|labels|, i requires 0 <= i < |labels| reads this, labels => Label(labels[i].data, labels[i].refs)))
    }

    constructor ()
      ensures Valid() && View() == Asm([], []) && fresh(this)
    {
      words, labels := [], [];
    }

    method PcOffset() returns (n: nat)
      ensures n == 4 * |words|
    {
      n := 4 * |words|;
    }

    method Emit(w: Word)
      requires Valid()
      modifies this`words
      ensures Valid() && View() == EmitWord(old(View()), w)
    {
      words := words + [w];
    }

    method CreateDataLabel(data: Reg64) returns (lab: RelocDataLabel)
      requires Valid()
      modifies this`labels
      ensures Valid() && fresh(lab) && labels == old(labels) + [lab]
      ensures View() == NewLabel(old(View()), data)
    {
      lab := new RelocDataLabel(data);
      labels := labels + [lab];
    }

    /** Emits a literal load of the last created label and records the reference. */
    method LdrLabel(rt: RegNum, lab: RelocDataLabel)
      requires Valid() && labels != [] && labels[|labels| - 1] == lab
      modifies this`words, lab`refs
      ensures Valid() && View() == LoadLabel(old(View()), rt)
    {
      hide RefsIn, LdrLiteralWord;
      forall i {:trigger labels[i]} | 0 <= i < |labels|
        ensures RefsIn(labels[i].refs, |words| + 1) && RefsIn(labels[i].refs + [4 * |words|], |words| + 1)
      {
        RefsGrow(labels[i].refs, |words|);
      }
      var offset := PcOffset();
      lab.LinkTo(offset);
      words := words + [LdrLiteralWord(rt, 0)];
      assert forall i :: 0 <= i < |labels| - 1 ==> labels[i] != lab;
      assert View().labels == LoadLabel(old(View()), rt).labels;
    }

    method Mov(rd: RegNum, imm: Reg64)
      requires Valid()
      modifies this`words
      ensures Valid() && View() == Asm(old(words) + MovWords(rd, imm), old(View().labels))
    {
      Emit(MovZWord(rd, Half(imm, 0), 0));
      Emit(MovKWord(rd, Half(imm, 1), 1));
      Emit(MovKWord(rd, Half(imm, 2), 2));
      Emit(MovKWord(rd, Half(imm, 3), 3));
    }

    /** Binds a label at the end of the code and patches every load that refers to it. */
    method BindLabel(lab: RelocDataLabel)
      requires Valid() && lab in labels
      modifies this`words, lab`pos
      ensures Valid() && lab.pos == 4 * |words|
      ensures RefsIn(lab.refs, |old(words)|) && words == PatchRefs(old(words), 4 * |old(words)|, lab.refs)
    {
      var offset := PcOffset();
      lab.BindTo(offset);
      var j := 0;
      while j < |lab.refs|
        invariant 0 <= j <= |lab.refs| && |words| == |old(words)| && Valid()
        invariant lab.pos == offset
        invariant PatchRefs(words, offset, lab.refs[j..]) == PatchRefs(old(words), offset, lab.refs)
      {
        var at := lab.refs[j];
        assert lab.refs[j..][0] == at && lab.refs[j..][1..] == lab.refs[j + 1..];
        words := words[at / 4 := EncodeImm19(words[at / 4], lab.pos - at)];
        j := j + 1;
      }
    }

    /** Appends the data of every label and links the loads: the whole buffer is then final. */
    method RelocDataLabels()
      requires Valid()
      modifies this`words, labels
      ensures labels == old(labels)
      ensures words == LinkFrom(old(words), old(View().labels))
    {
      hide PatchRefs, LinkFrom, LabelsIn;
      ghost var views := View().labels;
      assert views[0..] == views;
      var i := 0;
      while i < |labels|
        invariant 0 <= i <= |labels| && labels == old(labels) && Valid()
        invariant View().labels == views && |words| == |old(words)| + 2 * i
        invariant LabelsIn(views[i..], |words|)
        invariant LinkFrom(words, views[i..]) == LinkFrom(old(words), views)
      {
        var lab := labels[i];
        LinkUnfold(words, views, i);
        BindLabel(lab);
        words := words + DataWords(lab.data);
        i := i + 1;
      }
      LinkDone(words, views[i..]);
    }

    /** CodeGen::LiteralLdrBranch: an absolute jump through a data label. */
    method LiteralLdrBranch(address: Reg64)
      requires Valid()
      modifies this
      ensures Valid() && fresh(set l <- labels | l !in old(labels))
      ensures View() == EmitWord(LoadLabel(NewLabel(old(View()), address), SCRATCH), BrWord(SCRATCH))
    {
      var lab := CreateDataLabel(address);
      LdrLabel(SCRATCH, lab);
      Emit(BrWord(SCRATCH));
    }
  }
}
