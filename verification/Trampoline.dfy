/** The jumps written over a hooked function: near branches, ADRP+ADD+BR, and LDR+BR through a literal. */
module Trampoline {
  import opened Options
  import opened A64
  import opened Codec
  import opened Assembler
  import opened Relocator
  import opened Linking
  import opened Simulation

  /** A 64-bit difference read as a signed number. */
  function Signed(x: int): int {
    var y := Wrap(x);
    if y < 0x8000_0000_0000_0000 then y else y - 0x1_0000_0000_0000_0000
  }

  function Distance(from: Reg64, to: Reg64): nat {
    var d := Signed(to - from);
    if d < 0 then -d else d
  }

  /** Below a power of two the distance is what the addresses differ by, around either end of the address space too. */
  lemma DistanceBelow(from: Reg64, to: Reg64, range: int)
    requires 0 < range <= 0x8000_0000_0000_0000
    ensures Distance(from, to) < range <==>
              || from - range < to < from + range
              || to - from > 0x1_0000_0000_0000_0000 - range || from - to > 0x1_0000_0000_0000_0000 - range
  {
    var d, q := to - from, (to - from) / 0x1_0000_0000_0000_0000;
    assert -1 <= q <= 0;
    assert Wrap(d) == if d < 0 then d + 0x1_0000_0000_0000_0000 else d;
  }

  const ADRP_RANGE: int := 0x1_0000_0000
  const B_RANGE: int := 0x800_0000

  function AdrpAddBr(from: Reg64, to: Reg64): seq<Word> {
    [AdrpWord(SCRATCH, Page(to) - Page(from)), AddWord(SCRATCH, SCRATCH, to % 0x1000), BrWord(SCRATCH)]
  }

  /**
    GenerateNormalTrampolineBuffer: three words for targets less than 4 GiB away in either
    direction, counted around the ends of the address space, and four for the others.
   */
  method GenerateNormalTrampoline(from: Reg64, to: Reg64) returns (words: seq<Word>)
    ensures |words| == 3 <==>
              || from - 0x1_0000_0000 < to < from + 0x1_0000_0000
              || to - from > 0xFFFF_FFFF_0000_0000 || from - to > 0xFFFF_FFFF_0000_0000
    ensures |words| == 3 || |words| == 4
    ensures Distance(from, to) < ADRP_RANGE ==> words == AdrpAddBr(from, to)
    ensures Distance(from, to) >= ADRP_RANGE ==>
              |words| == 4 && FragLinked(words, 0, JumpThrough([], to, BrWord(SCRATCH)))
  {
    hide LoadsAt, BrWord, Distance;
    DistanceBelow(from, to, ADRP_RANGE);
    var asm := new TurboAssembler();
    if Distance(from, to) < ADRP_RANGE {
      asm.Emit(AdrpWord(SCRATCH, Page(to) - Page(from)));
      asm.Emit(AddWord(SCRATCH, SCRATCH, to % 0x1000));
      asm.Emit(BrWord(SCRATCH));
      assert asm.View().labels == [];
    } else {
      JumpAppends(Asm([], []), to, BrWord(SCRATCH), []);
      asm.LiteralLdrBranch(to);
      LiteralJumpLinked(to);
    }
    ghost var a := asm.View();
    asm.RelocDataLabels();
    words := asm.words;
    assert a.labels == [] ==> LinkFrom(a.words, a.labels) == a.words;
  }

  lemma LiteralJumpLinked(to: Reg64)
    ensures var a := Append(Asm([], []), JumpThrough([], to, BrWord(SCRATCH)));
            LabelsIn(a.labels, |a.words|) && FragLinked(LinkFrom(a.words, a.labels), 0, JumpThrough([], to, BrWord(SCRATCH)))
            && |LinkFrom(a.words, a.labels)| == 4
  {
    hide LoadsAt, LinkFrom;
    var e, f := Asm([], []), JumpThrough([], to, BrWord(SCRATCH));
    AppendKeeps(e, f);
    PlaceFrag(Append(e, f), e, f);
  }

  // --- ADRP + ADD + BR

  /** The distance in pages that ADRP must cover. */
  function PageSteps(from: Reg64, to: Reg64): int {
    (from % 0x1000 + Signed(to - from)) / 0x1000
  }

  lemma DecodeAdrp(rd: RegNum, imm: int)
    ensures Decode(AdrpWord(rd, imm)) == Adrp(rd, SignExtend(imm / 0x1000 % 0x20_0000, 0x10_0000) * 0x1000)
  {
    hide Decode, Imm21, IsAdrp;
    var k := imm / 0x1000;
    var w := AdrpWord(rd, imm);
    assert imm / 0x4000 == k / 4;
    Imm21Fields(w, 1, k % 4, 0x10, k / 4 % 0x8_0000, rd);
    AdrpOp(w);
    DecodedAdr(w);
    assert k / 4 % 0x8_0000 * 4 + k % 4 == k % 0x20_0000;
    Imm21Field(w, k % 0x20_0000);
  }

  lemma AdrpOp(w: Word)
    requires w / 0x8000_0000 == 1 && w / 0x100_0000 % 0x20 == 0x10
    ensures IsAdrp(w)
  {
    assert w / 0x8000_0000 == w / 0x100_0000 / 0x80;
  }

  lemma Imm21Field(w: Word, x: int)
    requires w / 0x20 % 0x8_0000 * 4 + w / 0x2000_0000 % 4 == x
    ensures Imm21(w) == SignExtend(x, 0x10_0000)
  {
  }

  lemma DecodeAdd(rd: RegNum, rn: RegNum, imm: int)
    requires 0 <= imm < 0x1000
    ensures Decode(AddWord(rd, rn, imm)) == AddX(rd, rn, imm)
  {
    var w := AddWord(rd, rn, imm);
    assert w / 0x20 == 0x488_0000 + imm * 0x20 + rn;
    assert w / 0x400 == 0x24_4000 + imm;
    assert w / 0x100_0000 == 0x91;
  }

  lemma SignedIs(from: Reg64, to: Reg64)
    ensures Wrap(from + Signed(to - from)) == to
  {
    var y := Wrap(to - from);
    var q := (to - from) / 0x1_0000_0000_0000_0000;
    assert y == to - from - q * 0x1_0000_0000_0000_0000;
    WrapUnique(from + y, -q, to);
    WrapUnique(from + y - 0x1_0000_0000_0000_0000, -q - 1, to);
  }

  /** `to` is its page, PageSteps away, plus its page offset. */
  lemma PageStepsReach(from: Reg64, to: Reg64)
    ensures Page(to) == Wrap(Page(from) + PageSteps(from, to) * 0x1000)
    ensures (Page(to) - Page(from)) / 0x1000 % 0x20_0000 == PageSteps(from, to) % 0x20_0000
  {
    SignedIs(from, to);
    var d, n := Signed(to - from), PageSteps(from, to);
    var x := from + d;
    var q := x / 0x1_0000_0000_0000_0000;
    assert to == x - q * 0x1_0000_0000_0000_0000;
    assert x / 0x1000 == from / 0x1000 + n;
    assert to / 0x1000 == from / 0x1000 + n - q * 0x10_0000_0000_0000;
    WrapUnique(Page(from) + n * 0x1000, q, Page(to));
    assert (Page(to) - Page(from)) / 0x1000 == n - q * 0x10_0000_0000_0000;
    ModShift(n, q);
  }

  lemma ModShift(n: int, q: int)
    ensures (n - q * 0x10_0000_0000_0000) % 0x20_0000 == n % 0x20_0000
  {
    var m := n - q * 0x10_0000_0000_0000;
    assert m == 0x20_0000 * (n / 0x20_0000 - q * 0x8000_0000) + n % 0x20_0000;
  }

  lemma PageStepsRange(from: Reg64, to: Reg64)
    requires Distance(from, to) < ADRP_RANGE
    ensures -0x10_0000 <= PageSteps(from, to) <= 0x10_0000
    ensures PageSteps(from, to) < 0x10_0000 <==> from % 0x1000 + Signed(to - from) < ADRP_RANGE
  {
    hide Signed;
  }

  lemma PageField(n: int)
    requires -0x10_0000 <= n <= 0x10_0000
    ensures SignExtend(n % 0x20_0000, 0x10_0000) == if n < 0x10_0000 then n else n - 0x20_0000
  {
  }

  /** Where ADRP+ADD put the address: off by 2^33 exactly when the page distance is 2^20. */
  lemma AdrpAddValue(from: Reg64, to: Reg64)
    requires Distance(from, to) < ADRP_RANGE
    ensures var off := SignExtend((Page(to) - Page(from)) / 0x1000 % 0x20_0000, 0x10_0000) * 0x1000;
            Wrap(Wrap(Page(from) + off) + to % 0x1000) ==
              if from % 0x1000 + Signed(to - from) < ADRP_RANGE then to else Wrap(to - 0x2_0000_0000)
  {
    hide Signed, PageSteps, SignExtend, Distance, Wrap;
    var n := PageSteps(from, to);
    PageStepsReach(from, to);
    PageStepsRange(from, to);
    PageField(n);
    assert Page(to) + to % 0x1000 == to;
    WrapUnique(to, 0, to);
    if n == 0x10_0000 {
      WrapShift(Page(from) + n * 0x1000, -0x2_0000_0000, to % 0x1000);
    }
  }

  lemma WrapShift(x: int, a: int, b: int)
    ensures Wrap(Wrap(x + a) + b) == Wrap(Wrap(x) + b + a)
  {
    var p, q := x / 0x1_0000_0000_0000_0000, (x + a) / 0x1_0000_0000_0000_0000;
    assert Wrap(x) == x - p * 0x1_0000_0000_0000_0000 && Wrap(x + a) == x + a - q * 0x1_0000_0000_0000_0000;
    var y := Wrap(x) + b + a;
    var r := y / 0x1_0000_0000_0000_0000;
    WrapUnique(Wrap(x + a) + b, p - q + r, Wrap(y));
  }

  /**
    ADRP+ADD+BR jumps to `to` exactly when `from`'s page offset plus the signed
    distance stays below 2^32; otherwise it jumps 2^33 bytes too low.  The test
    `distance < 2^32` alone lets the bad case through.
   */
  lemma AdrpTrampolineLands(exec: Exec, c: Core, from: Reg64, to: Reg64) returns (t: State)
    requires Placed(c, from, AdrpAddBr(from, to)) && from + 12 < 0x1_0000_0000_0000_0000
    requires Distance(from, to) < ADRP_RANGE
    ensures Reaches(exec, State(from, c), 3, t, from, from + 12)
    ensures t.pc == if from % 0x1000 + Signed(to - from) < ADRP_RANGE then to else Wrap(to - 0x2_0000_0000)
    ensures t.core == Set(c, SCRATCH, t.pc)
    ensures t.pc == to <==> from % 0x1000 + Signed(to - from) < ADRP_RANGE
  {
    hide Reaches, Decode, Step, AdrpWord, AddWord, BrWord, Holds, SignExtend, Signed;
    var words := AdrpAddBr(from, to);
    var imm := Page(to) - Page(from);
    DecodeAdrp(SCRATCH, imm);
    DecodeAdd(SCRATCH, SCRATCH, to % 0x1000);
    AdrpAddValue(from, to);
    var off := SignExtend(imm / 0x1000 % 0x20_0000, 0x10_0000) * 0x1000;
    StepNext(exec, c, from, words, 0, Adrp(SCRATCH, off));
    var s, s1 := State(from, c), State(from + 4, Set(c, SCRATCH, Wrap(Page(from) + off)));
    ReachesOne(exec, s, s1, from, from + 12);
    StepNext(exec, s1.core, from, words, 1, AddX(SCRATCH, SCRATCH, to % 0x1000));
    var land := Wrap(Wrap(Page(from) + off) + to % 0x1000);
    var s2 := State(from + 8, Set(c, SCRATCH, land));
    ReachesOne(exec, s1, s2, from, from + 12);
    ReachesTrans(exec, s, 1, s1, 1, s2, from, from + 12);
    BrNotBlr();
    BranchStep(exec, s2.core, from, words, 2);
    t := State(land, s2.core);
    ReachesOne(exec, s2, t, from, from + 12);
    ReachesTrans(exec, s, 2, s2, 1, t, from, from + 12);
    Misses(to);
  }

  lemma Misses(to: Reg64)
    ensures Wrap(to - 0x2_0000_0000) != to
  {
  }

  /** Two addresses that pass the distance test: the trampoline is ADRP+ADD+BR and goes to 2^33 below the target. */
  lemma AdrpTrampolineMisses(exec: Exec, c: Core) returns (t: State)
    requires Placed(c, 0xFFC, AdrpAddBr(0xFFC, 0x1_0000_0FF8))
    ensures Distance(0xFFC, 0x1_0000_0FF8) < ADRP_RANGE
    ensures Reaches(exec, State(0xFFC, c), 3, t, 0xFFC, 0x1008)
    ensures t.pc == 0xFFFF_FFFF_0000_0FF8 && t.pc != 0x1_0000_0FF8
  {
    hide Placed, Reaches, AdrpAddBr;
    t := AdrpTrampolineLands(exec, c, 0xFFC, 0x1_0000_0FF8);
  }

  /** LDR+BR through the literal always jumps to `to`. */
  lemma LiteralTrampolineLands(exec: Exec, c: Core, from: nat, to: Reg64, words: seq<Word>) returns (t: State)
    requires Placed(c, from, words) && |words| == 4 && FragLinked(words, 0, JumpThrough([], to, BrWord(SCRATCH)))
    ensures Reaches(exec, State(from, c), 2, t, from, from + 8)
    ensures t == State(to, Set(c, SCRATCH, to))
  {
    hide Reaches, LoadsAt;
    assert JumpThrough([], to, BrWord(SCRATCH)).words[1] == words[1];
    BrNotBlr();
    t := JumpRuns(exec, c, from, words, 0, to);
  }

  // --- near branches

  /** A direct branch reaches any aligned distance in [-2^27, 2^27). */
  lemma BranchLands(exec: Exec, c: Core, from: Reg64, imm: int)
    requires -B_RANGE <= imm < B_RANGE
    requires Placed(c, from, [BWord(imm)])
    ensures Step(exec, State(from, c)) == State(Wrap(from + imm - imm % 4), c)
  {
    hide Decode, Step;
    var w := BWord(imm);
    BWordDecodes(imm);
    assert [w][0] == w;
    StepAt(exec, c, from, [w], 0);
  }

  lemma BWordDecodes(imm: int)
    requires -B_RANGE <= imm < B_RANGE
    ensures Decode(BWord(imm)) == B(imm - imm % 4)
  {
    hide Decode, Imm26;
    var w := BWord(imm);
    var x := imm / 4 % 0x400_0000;
    assert w / 0x400_0000 == 5 && w % 0x400_0000 == x && Op(w) / 4 == 5;
    DecodedBranch(w);
    Imm26Is(w, imm);
  }

  /** The forward block: load the literal eight bytes on, and branch. */
  function ForwardBlock(dst: Reg64): seq<Word> {
    [LdrLiteralWord(SCRATCH, 8), BrWord(SCRATCH)] + DataWords(dst)
  }

  /** GenerateNearTrampolineBuffer: one branch, straight to `dst` or to a forward block the near allocator gave. */
  method GenerateNearTrampoline(src: Reg64, dst: Reg64, near: Option<Reg64>) returns (words: Option<seq<Word>>, forward: Option<seq<Word>>)
    ensures Distance(src, dst) < B_RANGE ==> words == Some([BWord(Signed(dst - src))]) && forward.None?
    ensures Distance(src, dst) >= B_RANGE && near.None? ==> words.None? && forward.None?
    ensures Distance(src, dst) >= B_RANGE && near.Some? ==>
              words == Some([BWord(Signed(near.value - src))]) && forward == Some(ForwardBlock(dst))
  {
    var asm := new TurboAssembler();
    forward := None;
    if Distance(src, dst) < B_RANGE {
      asm.Emit(BWord(Signed(dst - src)));
      assert asm.words == [BWord(Signed(dst - src))];
    } else if near.None? {
      return None, None;
    } else {
      var fwd := new TurboAssembler();
      fwd.Emit(LdrLiteralWord(SCRATCH, 8));
      fwd.Emit(BrWord(SCRATCH));
      fwd.words := fwd.words + DataWords(dst);
      assert fwd.words == ForwardBlock(dst);
      forward := Some(fwd.words);
      asm.Emit(BWord(Signed(near.value - src)));
      assert asm.words == [BWord(Signed(near.value - src))];
    }
    words := Some(asm.words);
  }

  /** A direct near trampoline jumps to `dst` exactly when the distance is a multiple of four. */
  lemma NearTrampolineLands(exec: Exec, c: Core, src: Reg64, dst: Reg64)
    requires Distance(src, dst) < B_RANGE && Placed(c, src, [BWord(Signed(dst - src))])
    ensures Step(exec, State(src, c)).core == c
    ensures Step(exec, State(src, c)).pc == dst <==> Signed(dst - src) % 4 == 0
  {
    hide Step, BWord;
    var d := Signed(dst - src);
    BranchLands(exec, c, src, d);
    SignedIs(src, dst);
    if d % 4 != 0 {
      WrapNear(src + d, d % 4);
    }
  }

  /** A destination that is not aligned like the source: the branch goes to the instruction before it. */
  lemma NearTrampolineMisses(exec: Exec, c: Core)
    requires Placed(c, 0x1000, [BWord(Signed(0x1006 - 0x1000))])
    ensures Distance(0x1000, 0x1006) < B_RANGE && Step(exec, State(0x1000, c)) == State(0x1004, c)
  {
    hide Step, BWord;
    BranchLands(exec, c, 0x1000, 6);
  }

  lemma WrapNear(x: int, k: int)
    requires 0 < k < 4
    ensures Wrap(x - k) != Wrap(x)
  {
    var q, p := x / 0x1_0000_0000_0000_0000, (x - k) / 0x1_0000_0000_0000_0000;
    assert x == q * 0x1_0000_0000_0000_0000 + Wrap(x) && x - k == p * 0x1_0000_0000_0000_0000 + Wrap(x - k);
  }

  lemma ForwardLinked(dst: Reg64)
    ensures FragLinked(ForwardBlock(dst), 0, JumpThrough([], dst, BrWord(SCRATCH)))
  {
    hide Decode, BrWord;
    var words := ForwardBlock(dst);
    var w := words[0];
    assert w == 0x5800_0051;
    assert Op(w) == 0x58 && w % 0x20 == 17 && Imm19(w) == 8;
    DecodedLiteral(w);
    LoadsAtIntro(words, 0, dst, 8);
  }

  /** Branch to the forward block, load, branch: three steps to `dst` from any block inside the branch range. */
  lemma ForwardTrampolineLands(exec: Exec, c: Core, src: Reg64, dst: Reg64, near: nat) returns (s: State, t: State)
    requires src - B_RANGE <= near < src + B_RANGE && (near - src) % 4 == 0
    requires near + 16 <= 0x1_0000_0000_0000_0000
    requires Placed(c, src, [BWord(Signed(near - src))]) && Placed(c, near, ForwardBlock(dst))
    ensures Step(exec, State(src, c)) == s && s == State(near, c)
    ensures Reaches(exec, s, 2, t, near, near + 8)
    ensures t == State(dst, Set(c, SCRATCH, dst))
  {
    hide Step, BWord, Reaches, LoadsAt, ForwardBlock, FragLinked;
    SignedSmall(near - src);
    BranchLands(exec, c, src, near - src);
    s := State(near, c);
    ForwardLinked(dst);
    ForwardLength(dst);
    t := LiteralTrampolineLands(exec, c, near, dst, ForwardBlock(dst));
  }

  lemma ForwardLength(dst: Reg64)
    ensures |ForwardBlock(dst)| == 4
  {
  }

  lemma SignedSmall(d: int)
    requires -B_RANGE <= d <= B_RANGE
    ensures Signed(d) == d
  {
  }
}
