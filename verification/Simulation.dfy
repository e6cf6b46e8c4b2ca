/**
  The relocated block simulates the overwritten head.  `d` is the set of
  registers the two runs may disagree on (always X17; also X30 after a call) and
  `h` the memory they may disagree on (the head, which is patched, and the block).
 */
module Simulation {
  import opened Options
  import opened A64
  import opened Codec
  import opened Assembler
  import opened Relocator
  import opened Linking

  // --- what the original run must respect

  /** The instruction neither reads what the runs disagree on nor writes into the hidden memory. */
  ghost predicate CopySafe(exec: Exec, i: Inst, c: Core, d: set<RegNum>, h: iset<int>) {
    forall c' {:trigger Effect(exec, i, 0, c')} :: Agree(c, c', d, h) ==>
      Agree(Effect(exec, i, 0, c), Effect(exec, i, 0, c'), d, h) && SameMemoryOn(h, c'.mem, Effect(exec, i, 0, c').mem)
  }

  ghost predicate BytesOutside(h: iset<int>, a: int, n: nat) {
    forall b {:trigger b in h} :: a <= b < a + n ==> b !in h
  }

  /** The literal loads that the emitted 64-bit general load gets right. */
  predicate LiteralExact(opc: int, simd: bool, rt: RegNum) {
    !simd && (opc == 1 || (opc == 0 && (rt == SCRATCH || rt == 31)))
  }

  /** Word `w`, executed at `pc` on core `c`, is one the relocator translates faithfully. */
  ghost predicate StepOk(exec: Exec, w: Word, pc: Reg64, c: Core, d: set<RegNum>, h: iset<int>) {
    var i := Decode(w);
    match i
    case B(_) => true
    case BL(_) => true
    case BCond(cond, _) => cond < 14
    case CompareBranch(_, _, rt, _) => rt !in d
    case TestBranch(_, _, rt, _) => rt !in d
    case LoadLiteral(opc, simd, rt, off) => LiteralExact(opc, simd, rt) && BytesOutside(h, Wrap(pc + off), 8)
    case Adr(_, _) => true
    case Adrp(_, _) => true
    case Br(rn) => rn !in d
    case Blr(rn) => rn !in d
    case Ret(rn) => rn !in d
    case _ => !IsPcRelative(w) && CopySafe(exec, i, c, d, h)
  }

  // --- small facts about agreement

  lemma AgreeSet(c: Core, c': Core, d: set<RegNum>, h: iset<int>, r: RegNum, value: Reg64)
    requires Agree(c, c', d, h)
    ensures Agree(Set(c, r, value), Set(c', r, value), d, h)
  {
  }

  lemma AgreeScratch(c: Core, c': Core, d: set<RegNum>, h: iset<int>, value: Reg64)
    requires Agree(c, c', d, h) && SCRATCH in d
    ensures Agree(c, Set(c', SCRATCH, value), d, h)
  {
  }

  lemma AgreeLoad(c: Core, c': Core, d: set<RegNum>, h: iset<int>, a: int)
    requires Agree(c, c', d, h) && BytesOutside(h, a, 8)
    ensures Load64(c.mem, a) == Load64(c'.mem, a)
  {
    assert a !in h && a + 1 !in h && a + 2 !in h && a + 3 !in h && a + 4 !in h && a + 5 !in h && a + 6 !in h && a + 7 !in h;
  }

  // --- single steps of the block

  /** A block in memory: `base` is where it starts and it does not wrap. */
  ghost predicate Placed(c: Core, base: nat, words: seq<Word>) {
    base + 4 * |words| <= 0x1_0000_0000_0000_0000 && Holds(c.mem, base, words)
  }

  lemma StepAt(exec: Exec, c: Core, base: nat, words: seq<Word>, p: nat)
    requires Placed(c, base, words) && p < |words|
    ensures Step(exec, State(base + 4 * p, c)) == StepInst(exec, Decode(words[p]), State(base + 4 * p, c))
  {
    hide StepInst, Decode;
    assert Load32(c.mem, base + 4 * p) == words[p];
  }

  /** A straight-line instruction moves to the next word. */
  lemma StepNext(exec: Exec, c: Core, base: nat, words: seq<Word>, p: nat, i: Inst)
    requires Placed(c, base, words) && p < |words| && base + 4 * (p + 1) < 0x1_0000_0000_0000_0000
    requires Decode(words[p]) == i && FlowOf(i, base + 4 * p, c) == Next
    ensures Step(exec, State(base + 4 * p, c)) == State(base + 4 * (p + 1), Effect(exec, i, base + 4 * p, c))
  {
    hide Decode, Effect, FlowOf;
    StepAt(exec, c, base, words, p);
  }

  lemma DecodeBranches()
    ensures Decode(BrWord(SCRATCH)) == Br(SCRATCH)
    ensures Decode(BlrWord(SCRATCH)) == Blr(SCRATCH)
  {
  }

  lemma LoadedData(c: Core, base: nat, words: seq<Word>, p: nat, data: Reg64)
    requires Placed(c, base, words) && LoadsAt(words, p, data)
    ensures p + 1 < |words|
    ensures Load64(c.mem, Wrap(base + 4 * p + Decode(words[p]).off)) == data
  {
    hide Decode, Load64, Wrap;
    var off := Decode(words[p]).off;
    var q := p + off / 4;
    CellAt(base, p, off, |words|);
    TwoWords(c, base, words, q);
    var low: int, high: int := words[q], words[q + 1];
    assert low + 0x1_0000_0000 * high == data;
  }

  lemma CellAt(base: nat, p: nat, off: nat, n: nat)
    requires off % 4 == 0 && p + off / 4 < n && base + 4 * n <= 0x1_0000_0000_0000_0000
    ensures Wrap(base + 4 * p + off) == base + 4 * (p + off / 4)
  {
  }

  /** Two words in memory make up a doubleword. */
  lemma TwoWords(c: Core, base: nat, words: seq<Word>, q: nat)
    requires Placed(c, base, words) && q + 1 < |words|
    ensures var low: int, high: int := words[q], words[q + 1]; Load64(c.mem, base + 4 * q) == low + 0x1_0000_0000 * high
  {
    hide Load32;
    assert Load32(c.mem, base + 4 * q) == words[q];
    assert Load32(c.mem, base + 4 * (q + 1)) == words[q + 1];
  }

  lemma LoadStep(exec: Exec, c: Core, base: nat, words: seq<Word>, p: nat, data: Reg64)
    requires Placed(c, base, words) && LoadsAt(words, p, data)
    ensures Step(exec, State(base + 4 * p, c)) == State(base + 4 * (p + 1), Set(c, SCRATCH, data))
  {
    hide Decode, Step, Load64;
    LoadedData(c, base, words, p, data);
    StepNext(exec, c, base, words, p, Decode(words[p]));
  }

  lemma BranchStep(exec: Exec, c: Core, base: nat, words: seq<Word>, p: nat)
    requires Placed(c, base, words) && p < |words| && base + 4 * (p + 1) < 0x1_0000_0000_0000_0000
    requires words[p] == BrWord(SCRATCH) || words[p] == BlrWord(SCRATCH)
    ensures Step(exec, State(base + 4 * p, c)) ==
              State(c.x[SCRATCH], if words[p] == BlrWord(SCRATCH) then Set(c, LR, base + 4 * (p + 1)) else c)
  {
    hide Decode, Step;
    StepAt(exec, c, base, words, p);
    DecodeBranches();
  }

  /** Load the literal, then branch: two steps to the absolute target. */
  lemma JumpRuns(exec: Exec, c: Core, base: nat, words: seq<Word>, p: nat, data: Reg64) returns (t: State)
    requires Placed(c, base, words) && LoadsAt(words, p, data)
    requires p + 2 < |words| && (words[p + 1] == BrWord(SCRATCH) || words[p + 1] == BlrWord(SCRATCH))
    ensures Reaches(exec, State(base + 4 * p, c), 2, t, base + 4 * p, base + 4 * (p + 2))
    ensures t.pc == data
    ensures t.core == if words[p + 1] == BlrWord(SCRATCH) then Set(Set(c, SCRATCH, data), LR, base + 4 * (p + 2))
                      else Set(c, SCRATCH, data)
  {
    hide Step, Reaches, LoadsAt;
    LoadStep(exec, c, base, words, p, data);
    var c1 := Set(c, SCRATCH, data);
    BranchStep(exec, c1, base, words, p + 1);
    var s, s1 := State(base + 4 * p, c), State(base + 4 * (p + 1), c1);
    t := Step(exec, s1);
    ReachesOne(exec, s, s1, base + 4 * p, base + 4 * (p + 2));
    ReachesOne(exec, s1, t, base + 4 * p, base + 4 * (p + 2));
    ReachesTrans(exec, s, 1, s1, 1, t, base + 4 * p, base + 4 * (p + 2));
  }

  // --- materialising an address

  lemma LaneAppend(lo: Reg64, hw: int, imm: int)
    requires 0 <= imm < 0x1_0000 && 1 <= hw < 4 && lo < Lane(hw)
    ensures SetLane(lo, hw, imm) == lo + imm * Lane(hw)
  {
  }

  lemma HalvesCompose(imm: Reg64)
    ensures imm == Half(imm, 0) + Half(imm, 1) * 0x1_0000 + Half(imm, 2) * 0x1_0000_0000 + Half(imm, 3) * 0x1_0000_0000_0000
  {
    var a, b, c := imm / 0x1_0000, imm / 0x1_0000_0000, imm / 0x1_0000_0000_0000;
    assert a / 0x1_0000 == b;
    assert b / 0x1_0000 == c;
  }

  lemma LanesCompose(imm: Reg64)
    ensures SetLane(SetLane(SetLane(SetLane(0, 0, Half(imm, 0)), 1, Half(imm, 1)), 2, Half(imm, 2)), 3, Half(imm, 3)) == imm
  {
    hide SetLane, Half;
    var h0, h1, h2, h3 := Half(imm, 0), Half(imm, 1), Half(imm, 2), Half(imm, 3);
    LaneZero(h0);
    LaneAppend(h0, 1, h1);
    LaneAppend(h0 + h1 * 0x1_0000, 2, h2);
    LaneAppend(h0 + h1 * 0x1_0000 + h2 * 0x1_0000_0000, 3, h3);
    HalvesCompose(imm);
  }

  lemma LaneZero(imm: int)
    requires 0 <= imm < 0x1_0000
    ensures SetLane(0, 0, imm) == imm
  {
  }

  lemma DecodeMov(rd: RegNum, imm: int, hw: int)
    requires 0 <= imm < 0x1_0000 && 0 <= hw < 4
    ensures Decode(MovZWord(rd, imm, hw)) == MovZ(rd, hw, imm)
    ensures Decode(MovKWord(rd, imm, hw)) == MovK(rd, hw, imm)
  {
    MovFields(MovZWord(rd, imm, hw), 0x1A5, rd, imm, hw);
    MovFields(MovKWord(rd, imm, hw), 0x1E5, rd, imm, hw);
  }

  lemma MovFields(w: Word, top: int, rd: RegNum, imm: int, hw: int)
    requires 0 <= imm < 0x1_0000 && 0 <= hw < 4 && (top == 0x1A5 || top == 0x1E5)
    requires w == top * 0x80_0000 + hw * 0x20_0000 + imm * 0x20 + rd
    ensures w / 0x100_0000 == top / 2 && w % 0x20 == rd && w / 0x20 % 0x1_0000 == imm && w / 0x20_0000 % 4 == hw
  {
    assert w / 0x20 == (top * 4 + hw) * 0x1_0000 + imm;
    assert w / 0x20_0000 == top * 4 + hw;
  }

  /** The k-th stage of an address being built in `rd`. */
  function MovStage(imm: Reg64, k: nat): Reg64 {
    if k == 0 then 0
    else if k == 1 then SetLane(0, 0, Half(imm, 0))
    else SetLane(MovStage(imm, k - 1), k - 1, Half(imm, k - 1))
  }

  lemma MovStep(exec: Exec, c: Core, base: nat, words: seq<Word>, p: nat, rd: RegNum, imm: Reg64, k: nat)
    requires Placed(c, base, words) && p + 1 < |words| && k < 4
    requires words[p] == MovWords(rd, imm)[k] && (k > 0 ==> Get(c, rd) == if rd == 31 then 0 else MovStage(imm, k))
    ensures Step(exec, State(base + 4 * p, c)) == State(base + 4 * (p + 1), Set(c, rd, MovStage(imm, k + 1)))
  {
    hide Decode, Step, Half, SetLane, MovZWord, MovKWord;
    DecodeMov(rd, Half(imm, k), k);
    StepNext(exec, c, base, words, p, Decode(words[p]));
  }

  /** Four steps leave the whole address in the register and touch nothing else. */
  lemma MovRuns(exec: Exec, c: Core, base: nat, words: seq<Word>, p: nat, rd: RegNum, imm: Reg64) returns (t: State)
    requires Placed(c, base, words) && p + 4 < |words|
    requires forall k :: 0 <= k < 4 ==> words[p + k] == MovWords(rd, imm)[k]
    ensures t == State(base + 4 * (p + 4), Set(c, rd, imm))
    ensures Reaches(exec, State(base + 4 * p, c), 4, t, base + 4 * p, base + 4 * (p + 4))
  {
    hide Step, Reaches, MovWords, SetLane, Half, MovStage;
    var lo, hi := base + 4 * p, base + 4 * (p + 4);
    var s := State(base + 4 * p, c);
    t := s;
    ReachesNone(exec, s, lo, hi);
    var k := 0;
    while k < 4
      invariant 0 <= k <= 4
      invariant k == 0 ==> t == s
      invariant k > 0 ==> t == State(base + 4 * (p + k), Set(c, rd, MovStage(imm, k)))
      invariant Placed(t.core, base, words) && t.pc == base + 4 * (p + k)
      invariant Reaches(exec, s, k, t, lo, hi)
    {
      MovStep(exec, t.core, base, words, p + k, rd, imm, k);
      var u := Step(exec, t);
      ReachesOne(exec, t, u, lo, hi);
      ReachesTrans(exec, s, k, t, 1, u, lo, hi);
      t, k := u, k + 1;
    }
    MovStageFinal(imm);
  }

  lemma MovStageFinal(imm: Reg64)
    ensures MovStage(imm, 4) == imm
  {
    hide Half, SetLane;
    LanesCompose(imm);
    assert MovStage(imm, 4) == SetLane(MovStage(imm, 3), 3, Half(imm, 3));
    assert MovStage(imm, 3) == SetLane(MovStage(imm, 2), 2, Half(imm, 2));
  }

  // --- inverted branches

  lemma DecodeSkipCond(w: Word)
    requires Decode(w).BCond?
    ensures IsBranchCond(w) && Decode(SkipCond(w)) == BCond(FlipLowBit(Decode(w).cond), 12)
  {
    hide Decode, Imm19, EncodeImm19, FlipLowBit;
    DecodedCond(w);
    FlippedLow(w);
    var v := w - w % 0x10 + FlipLowBit(w % 0x10);
    Imm19RoundTrip(v, 12);
    FlipsNibble(w % 0x10);
    Nibble(v, w / 0x10, FlipLowBit(w % 0x10));
    LowNibble(v);
    LowNibble(EncodeImm19(v, 12));
    DecodedCond(EncodeImm19(v, 12));
  }

  lemma FlipsNibble(r: int)
    requires 0 <= r < 0x10
    ensures 0 <= FlipLowBit(r) < 0x10
  {
  }

  lemma Nibble(a: int, q: int, r: int)
    requires a == 0x10 * q + r && 0 <= r < 0x10
    ensures a / 0x10 == q && a % 0x10 == r
  {
  }

  lemma LowNibble(a: Word)
    ensures a % 0x20 % 0x10 == a % 0x10
  {
    var q, r := a / 0x20, a % 0x20;
    if r < 0x10 {
      Nibble(a, 2 * q, r);
    } else {
      Nibble(a, 2 * q + 1, r - 0x10);
    }
  }

  lemma FlipBit24Fields(w: Word)
    ensures FlipBit24(w) % 0x100_0000 == w % 0x100_0000
    ensures FlipBit24(w) % 0x20 == w % 0x20
    ensures Op(FlipBit24(w)) == if Op(w) % 2 == 0 then Op(w) + 1 else Op(w) - 1
  {
  }

  lemma DecodeSkipCompare(w: Word)
    requires Decode(w).CompareBranch?
    ensures var i := Decode(w);
            Decode(EncodeImm19(FlipBit24(w), 12)) == CompareBranch(i.is64, !i.onNonZero, i.rt, 12)
  {
    hide Decode, Imm19, EncodeImm19, FlipBit24;
    DecodedCompare(w);
    FlipBit24Fields(w);
    Imm19RoundTrip(FlipBit24(w), 12);
    DecodedCompare(EncodeImm19(FlipBit24(w), 12));
  }

  lemma TestedBitKept(v: Word, u: Word)
    requires u / 0x8_0000 == v / 0x8_0000
    ensures Op(u) == Op(v) && TestedBit(u) == TestedBit(v)
  {
    assert Op(u) == u / 0x8_0000 / 0x20 && Op(v) == v / 0x8_0000 / 0x20;
    assert u / 0x8000_0000 == u / 0x8_0000 / 0x1000 && v / 0x8000_0000 == v / 0x8_0000 / 0x1000;
  }

  lemma TestedBitFields(w: Word)
    ensures TestedBit(w) == Op(w) / 0x80 * 32 + w % 0x100_0000 / 0x8_0000
  {
    assert w == Op(w) * 0x100_0000 + w % 0x100_0000;
    assert w / 0x8_0000 == Op(w) * 0x20 + w % 0x100_0000 / 0x8_0000;
    assert Op(w) == Op(w) / 0x80 * 0x80 + Op(w) % 0x80;
  }

  lemma TestedBitFlipped(w: Word)
    ensures TestedBit(FlipBit24(w)) == TestedBit(w)
  {
    hide TestedBit, FlipBit24;
    FlipBit24Fields(w);
    TestedBitFields(w);
    TestedBitFields(FlipBit24(w));
  }

  lemma DecodeSkipTest(w: Word)
    requires Decode(w).TestBranch?
    ensures var i := Decode(w);
            Decode(EncodeImm14(FlipBit24(w), 12)) == TestBranch(i.bitNum, !i.onNonZero, i.rt, 12)
  {
    hide Decode, Imm14, EncodeImm14, FlipBit24, TestedBit;
    DecodedTest(w);
    FlipBit24Fields(w);
    Imm14RoundTrip(FlipBit24(w), 12);
    TestedBitFlipped(w);
    TestedBitKept(FlipBit24(w), EncodeImm14(FlipBit24(w), 12));
    DecodedTest(EncodeImm14(FlipBit24(w), 12));
  }

  /** `cond ^ 1` inverts a condition exactly below 0b1110: "always" and "never" both hold. */
  lemma CondInversionExact(cond: int)
    requires 0 <= cond < 16
    ensures (forall f: Flags :: CondHolds(FlipLowBit(cond), f) == !CondHolds(cond, f)) <==> cond < 14
  {
    var f := Flags(false, false, false, false);
    assert cond >= 14 ==> CondHolds(cond, f) && CondHolds(FlipLowBit(cond), f);
  }

  /** A skipping branch over a load-and-jump: one step if it skips, three otherwise. */
  lemma SkipRuns(exec: Exec, c: Core, base: nat, words: seq<Word>, p: nat, data: Reg64, i: Inst, skip: bool)
    returns (m: nat, t: State)
    requires Placed(c, base, words) && p + 3 < |words| && Decode(words[p]) == i
    requires LoadsAt(words, p + 1, data) && words[p + 2] == BrWord(SCRATCH)
    requires FlowOf(i, base + 4 * p, c) == if skip then Jump(Wrap(base + 4 * p + 12)) else Next
    requires Effect(exec, i, base + 4 * p, c) == c
    ensures 1 <= m <= 3 && Reaches(exec, State(base + 4 * p, c), m, t, base + 4 * p, base + 4 * (p + 3))
    ensures t == if skip then State(base + 4 * (p + 3), c) else State(data, Set(c, SCRATCH, data))
  {
    hide Step, Reaches, Decode, LoadsAt, FlowOf, Effect;
    var s, lo, hi := State(base + 4 * p, c), base + 4 * p, base + 4 * (p + 3);
    if skip {
      StepAt(exec, c, base, words, p);
      t := State(base + 4 * (p + 3), c);
      m := 1;
      ReachesOne(exec, s, t, lo, hi);
    } else {
      StepNext(exec, c, base, words, p, i);
      var s1 := State(base + 4 * (p + 1), c);
      ReachesOne(exec, s, s1, lo, hi);
      t := JumpRuns(exec, c, base, words, p + 1, data);
      ReachesWiden(exec, s1, 2, t, base + 4 * (p + 1), hi, lo, hi);
      m := 3;
      BrNotBlr();
      ReachesTrans(exec, s, 1, s1, 2, t, lo, hi);
    }
  }

  lemma BrNotBlr()
    ensures BrWord(SCRATCH) != BlrWord(SCRATCH)
  {
  }

  // --- one fragment against one word

  /** The relocated world: the block, and what may differ from the original one. */
  datatype World = World(exec: Exec, base: nat, words: seq<Word>, d: set<RegNum>, h: iset<int>)

  ghost predicate Sane(v: World) {
    SCRATCH in v.d && v.base + 4 * |v.words| <= 0x1_0000_0000_0000_0000 && Covers(v.h, v.base, v.base + 4 * |v.words|)
  }

  /** The original core `c` and the block's core `c'` correspond, and fragment `f` is linked at word `p`. */
  ghost predicate Ready(v: World, c: Core, c': Core, p: nat, f: Frag) {
    && Sane(v) && Agree(c, c', v.d, v.h) && Holds(c'.mem, v.base, v.words)
    && FragLinked(v.words, p, f) && p + |f.words| < |v.words|
  }

  /** Where the block must be after the original instruction left by `flow` with core `e`. */
  ghost predicate Matches(v: World, flow: Flow, e: Core, pc: Reg64, t: State, next: int) {
    match flow
    case Next => t.pc == next && Agree(e, t.core, v.d, v.h)
    case Jump(a) => t.pc == a && Agree(e, t.core, v.d, v.h)
    case Call(a) => t.pc == a && Agree(e, t.core, v.d + {LR}, v.h) && e.x[LR] == Wrap(pc + 4) && t.core.x[LR] == next
  }

  /** The fragment of `n` words at `p` does what instruction `i` does at `pc`, fetching only its own words. */
  ghost predicate Simulates(v: World, i: Inst, pc: Reg64, c: Core, c': Core, p: nat, n: nat, m: nat, t: State)
    requires Sane(v) && p + n < |v.words|
  {
    && 1 <= m <= 5
    && Reaches(v.exec, State(v.base + 4 * p, c'), m, t, v.base + 4 * p, v.base + 4 * (p + n))
    && Matches(v, FlowOf(i, pc, c), Effect(v.exec, i, pc, c), pc, t, v.base + 4 * (p + n))
    && Holds(t.core.mem, v.base, v.words)
  }

  lemma AgreeCall(c: Core, c': Core, d: set<RegNum>, h: iset<int>, x: Reg64, y: Reg64)
    requires Agree(c, c', d, h)
    ensures Agree(Set(c, LR, x), Set(c', LR, y), d + {LR}, h)
  {
  }

  lemma BranchSimulates(v: World, w: Word, pc: Reg64, c: Core, c': Core, p: nat, dst: Reg64, last: Word) returns (m: nat, t: State)
    requires IsBranchOrCall(w) && dst == Wrap(pc + Imm26(w))
    requires last == if w / 0x400_0000 == 0x25 then BlrWord(SCRATCH) else BrWord(SCRATCH)
    requires Ready(v, c, c', p, JumpThrough([], dst, last))
    ensures Simulates(v, Decode(w), pc, c, c', p, 2, m, t)
  {
    hide Decode, Reaches, LoadsAt, Imm26, BrWord, BlrWord;
    var f := JumpThrough([], dst, last);
    assert f.words[1] == last == v.words[p + 1];
    BrNotBlr();
    DecodedBranch(w);
    t := JumpRuns(v.exec, c', v.base, v.words, p, dst);
    m := 2;
    AgreeScratch(c, c', v.d, v.h, dst);
    AgreeCall(c, Set(c', SCRATCH, dst), v.d, v.h, Wrap(pc + 4), v.base + 4 * (p + 2));
  }

  lemma MovSimulates(v: World, i: Inst, pc: Reg64, c: Core, c': Core, p: nat, rd: RegNum, imm: Reg64) returns (m: nat, t: State)
    requires Ready(v, c, c', p, Frag(MovWords(rd, imm), None))
    requires (i.Adr? || i.Adrp?) && Effect(v.exec, i, pc, c) == Set(c, rd, imm)
    ensures Simulates(v, i, pc, c, c', p, 4, m, t)
  {
    hide Reaches, MovWords;
    assert forall k :: 0 <= k < 4 ==> v.words[p + k] == Frag(MovWords(rd, imm), None).words[k];
    t := MovRuns(v.exec, c', v.base, v.words, p, rd, imm);
    m := 4;
    AgreeSet(c, c', v.d, v.h, rd, imm);
  }

  lemma PageOfWrap(pc: Reg64, k: int)
    ensures Page(Wrap(pc + k * 0x1000)) == Wrap(Page(pc) + k * 0x1000)
  {
    var x := pc + k * 0x1000;
    var q := x / 0x1_0000_0000_0000_0000;
    var y := Wrap(x);
    assert y == x - q * 0x1_0000_0000_0000_0000;
    assert y / 0x1000 == pc / 0x1000 + k - q * 0x10_0000_0000_0000;
    assert Page(y) == Page(pc) + k * 0x1000 - q * 0x1_0000_0000_0000_0000;
    WrapUnique(Page(pc) + k * 0x1000, q, Page(y));
  }

  lemma WrapUnique(x: int, q: int, r: int)
    requires x == q * 0x1_0000_0000_0000_0000 + r && 0 <= r < 0x1_0000_0000_0000_0000
    ensures Wrap(x) == r
  {
  }

  lemma DecodeLdr(rt: RegNum)
    ensures Decode(LdrWord(rt, SCRATCH)) == LoadX(rt, SCRATCH, 0)
  {
    hide Imm26, Imm21, Imm19, Imm14, TestedBit;
    LdrFields(LdrWord(rt, SCRATCH), rt);
  }

  lemma LdrFields(w: Word, rt: RegNum)
    requires w == 0xF940_0220 + rt
    ensures w % 0x20 == rt && w / 0x20 % 0x20 == SCRATCH && w / 0x400 % 0x1000 == 0 && w / 0x100_0000 == 0xF9
  {
    Fifth(w, 0x7CA_0011, rt);
    TenthBit(w);
    HighByte(w);
  }

  lemma TenthBit(w: int)
    ensures w / 0x400 == w / 0x20 / 0x20
  {
  }

  lemma LdrStep(exec: Exec, c: Core, base: nat, words: seq<Word>, p: nat, rt: RegNum)
    requires Placed(c, base, words) && p + 1 < |words| && words[p] == LdrWord(rt, SCRATCH)
    ensures Step(exec, State(base + 4 * p, c)) == State(base + 4 * (p + 1), Set(c, rt, Load64(c.mem, c.x[SCRATCH])))
  {
    hide Decode, Step, Load64, LdrWord;
    DecodeLdr(rt);
    StepNext(exec, c, base, words, p, LoadX(rt, SCRATCH, 0));
  }

  /** What the fragment for a literal load does: the address goes to X17, and the load is always a 64-bit general one. */
  function LiteralResult(c: Core, rt: RegNum, dst: Reg64): Core {
    Set(Set(c, SCRATCH, dst), rt, Load64(c.mem, dst))
  }

  lemma LiteralRuns(exec: Exec, c: Core, base: nat, words: seq<Word>, p: nat, rt: RegNum, dst: Reg64) returns (t: State)
    requires Placed(c, base, words) && p + 5 < |words|
    requires FragLinked(words, p, Frag(MovWords(SCRATCH, dst) + [LdrWord(rt, SCRATCH)], None))
    ensures t == State(base + 4 * (p + 5), LiteralResult(c, rt, dst))
    ensures Reaches(exec, State(base + 4 * p, c), 5, t, base + 4 * p, base + 4 * (p + 5))
  {
    hide Reaches, MovWords, LdrWord, Step, Load64;
    var f := Frag(MovWords(SCRATCH, dst) + [LdrWord(rt, SCRATCH)], None);
    assert forall k :: 0 <= k < 4 ==> words[p + k] == f.words[k] == MovWords(SCRATCH, dst)[k];
    assert words[p + 4] == f.words[4];
    var u := MovRuns(exec, c, base, words, p, SCRATCH, dst);
    LdrStep(exec, u.core, base, words, p + 4, rt);
    t := Step(exec, u);
    var s, lo, hi := State(base + 4 * p, c), base + 4 * p, base + 4 * (p + 5);
    ReachesWiden(exec, s, 4, u, lo, base + 4 * (p + 4), lo, hi);
    ReachesOne(exec, u, t, lo, hi);
    ReachesTrans(exec, s, 4, u, 1, t, lo, hi);
  }

  lemma LiteralSimulates(v: World, w: Word, pc: Reg64, c: Core, c': Core, p: nat, dst: Reg64) returns (m: nat, t: State)
    requires Decode(w).LoadLiteral? && dst == Wrap(pc + Imm19(w))
    requires StepOk(v.exec, w, pc, c, v.d, v.h)
    requires Ready(v, c, c', p, Frag(MovWords(SCRATCH, dst) + [LdrWord(w % 0x20, SCRATCH)], None))
    ensures Simulates(v, Decode(w), pc, c, c', p, 5, m, t)
  {
    hide Decode, Reaches, MovWords, LdrWord, Load64, Load32, Imm19, FragLinked;
    DecodedLiteral(w);
    var rt := w % 0x20;
    t := LiteralRuns(v.exec, c', v.base, v.words, p, rt, dst);
    m := 5;
    AgreeScratch(c, c', v.d, v.h, dst);
    AgreeLoad(c, c', v.d, v.h, dst);
    AgreeSet(c, Set(c', SCRATCH, dst), v.d, v.h, rt, Load64(c'.mem, dst));
  }

  /** Which results of an emitted 64-bit load agree with the literal load on every core and address. */
  lemma LiteralAgrees(opc: int, simd: bool, rt: RegNum)
    requires 0 <= opc < 2
    ensures LiteralExact(opc, simd, rt) ==>
              forall c: Core, dst: Reg64 :: Agree(LiteralEffect(c, opc, simd, rt, dst), LiteralResult(c, rt, dst), {SCRATCH}, iset{})
    ensures !LiteralExact(opc, simd, rt) ==>
              forall c: Core, dst: Reg64 :: Load32(c.mem, dst) == Load32(c.mem, dst + 4) == 0x101_0101 ==>
                (simd ==> c.v[rt] == 0) ==>
                !Agree(LiteralEffect(c, opc, simd, rt, dst), LiteralResult(c, rt, dst), {SCRATCH}, iset{})
  {
    hide Load32;
    forall c: Core, dst: Reg64 | !LiteralExact(opc, simd, rt) && Load32(c.mem, dst) == Load32(c.mem, dst + 4) == 0x101_0101
        && (simd ==> c.v[rt] == 0)
      ensures !Agree(LiteralEffect(c, opc, simd, rt, dst), LiteralResult(c, rt, dst), {SCRATCH}, iset{})
    {
      var e, r := LiteralEffect(c, opc, simd, rt, dst), LiteralResult(c, rt, dst);
      assert simd ==> e.v[rt] != r.v[rt];
      assert !simd ==> e.x[rt] != r.x[rt];
    }
  }

  /** A conditional branch against its inverse over a load-and-jump. */
  lemma SkipSimulates(v: World, i: Inst, skip: Inst, pc: Reg64, c: Core, c': Core, p: nat, dst: Reg64, word: Word, taken: bool)
    returns (m: nat, t: State)
    requires Ready(v, c, c', p, JumpThrough([word], dst, BrWord(SCRATCH))) && Decode(word) == skip
    requires FlowOf(i, pc, c) == if taken then Jump(dst) else Next
    requires FlowOf(skip, v.base + 4 * p, c') == if taken then Next else Jump(Wrap(v.base + 4 * p + 12))
    requires Effect(v.exec, i, pc, c) == c && Effect(v.exec, skip, v.base + 4 * p, c') == c'
    ensures Simulates(v, i, pc, c, c', p, 3, m, t)
  {
    hide Decode, Reaches, LoadsAt, FlowOf, Effect, BrWord;
    var f := JumpThrough([word], dst, BrWord(SCRATCH));
    assert f.words == [word, LDR_SCRATCH, BrWord(SCRATCH)];
    assert f.words[0] == v.words[p] && f.words[2] == v.words[p + 2];
    m, t := SkipRuns(v.exec, c', v.base, v.words, p, dst, skip, !taken);
    AgreeScratch(c, c', v.d, v.h, dst);
  }

  lemma CondSimulates(v: World, w: Word, pc: Reg64, c: Core, c': Core, p: nat) returns (m: nat, t: State)
    requires Decode(w).BCond? && IsBranchCond(w) && StepOk(v.exec, w, pc, c, v.d, v.h)
    requires Ready(v, c, c', p, JumpThrough([SkipCond(w)], Wrap(pc + Imm19(w)), BrWord(SCRATCH)))
    ensures Simulates(v, Decode(w), pc, c, c', p, 3, m, t)
  {
    hide Decode, Reaches, FragLinked, Imm19, Matches, SkipCond;
    DecodedCond(w);
    DecodeSkipCond(w);
    var i := Decode(w);
    CondInversionExact(i.cond);
    m, t := SkipSimulates(v, i, BCond(FlipLowBit(i.cond), 12), pc, c, c', p, Wrap(pc + Imm19(w)), SkipCond(w), CondHolds(i.cond, c.flags));
  }

  lemma CompareSimulates(v: World, w: Word, pc: Reg64, c: Core, c': Core, p: nat) returns (m: nat, t: State)
    requires Decode(w).CompareBranch? && StepOk(v.exec, w, pc, c, v.d, v.h)
    requires Ready(v, c, c', p, JumpThrough([EncodeImm19(FlipBit24(w), 12)], Wrap(pc + Imm19(w)), BrWord(SCRATCH)))
    ensures Simulates(v, Decode(w), pc, c, c', p, 3, m, t)
  {
    hide Decode, Reaches, FragLinked, Imm19, Matches, EncodeImm19, FlipBit24;
    DecodedCompare(w);
    DecodeSkipCompare(w);
    var i := Decode(w);
    assert Get(c, i.rt) == Get(c', i.rt);
    m, t := SkipSimulates(v, i, CompareBranch(i.is64, !i.onNonZero, i.rt, 12), pc, c, c', p, Wrap(pc + Imm19(w)),
                          EncodeImm19(FlipBit24(w), 12), CompareTaken(c, i.is64, i.onNonZero, i.rt));
  }

  lemma TestSimulates(v: World, w: Word, pc: Reg64, c: Core, c': Core, p: nat) returns (m: nat, t: State)
    requires Decode(w).TestBranch? && StepOk(v.exec, w, pc, c, v.d, v.h)
    requires Ready(v, c, c', p, JumpThrough([EncodeImm14(FlipBit24(w), 12)], Wrap(pc + Imm14(w)), BrWord(SCRATCH)))
    ensures Simulates(v, Decode(w), pc, c, c', p, 3, m, t)
  {
    hide Decode, Reaches, FragLinked, Imm14, Matches, EncodeImm14, FlipBit24;
    DecodedTest(w);
    DecodeSkipTest(w);
    var i := Decode(w);
    assert Get(c, i.rt) == Get(c', i.rt);
    m, t := SkipSimulates(v, i, TestBranch(i.bitNum, !i.onNonZero, i.rt, 12), pc, c, c', p, Wrap(pc + Imm14(w)),
                          EncodeImm14(FlipBit24(w), 12), TestTaken(c, i.bitNum, i.onNonZero, i.rt));
  }

  /** The copied word is the block's word number `p`. */
  lemma CopyStep(v: World, w: Word, c: Core, c': Core, p: nat) returns (t: State)
    requires Ready(v, c, c', p, Frag([w], None))
    ensures t == StepInst(v.exec, Decode(w), State(v.base + 4 * p, c'))
    ensures Reaches(v.exec, State(v.base + 4 * p, c'), 1, t, v.base + 4 * p, v.base + 4 * (p + 1))
  {
    hide Decode, Reaches, StepInst;
    assert Frag([w], None).words[0] == v.words[p];
    StepAt(v.exec, c', v.base, v.words, p);
    t := Step(v.exec, State(v.base + 4 * p, c'));
    ReachesOne(v.exec, State(v.base + 4 * p, c'), t, v.base + 4 * p, v.base + 4 * (p + 1));
  }

  /** A copied branch to a register. */
  lemma CopyBranch(v: World, w: Word, pc: Reg64, c: Core, c': Core, p: nat) returns (m: nat, t: State)
    requires var i := Decode(w); (i.Br? || i.Ret? || i.Blr?) && i.rn !in v.d
    requires Ready(v, c, c', p, Frag([w], None))
    ensures Simulates(v, Decode(w), pc, c, c', p, 1, m, t)
  {
    hide Decode, Reaches;
    t := CopyStep(v, w, c, c', p);
    m := 1;
    if Decode(w).Blr? {
      AgreeCall(c, c', v.d, v.h, Wrap(pc + 4), v.base + 4 * (p + 1));
    }
  }

  lemma EffectAnywhere(exec: Exec, i: Inst, pc: Reg64, c: Core)
    requires i.MovZ? || i.MovK? || i.LoadX? || i.AddX? || i.Other?
    ensures Effect(exec, i, pc, c) == Effect(exec, i, 0, c) && FlowOf(i, pc, c) == Next
  {
  }

  /** A copied word that does not branch. */
  lemma CopyData(v: World, w: Word, pc: Reg64, c: Core, c': Core, p: nat) returns (m: nat, t: State)
    requires var i := Decode(w); (i.MovZ? || i.MovK? || i.LoadX? || i.AddX? || i.Other?) && CopySafe(v.exec, i, c, v.d, v.h)
    requires Ready(v, c, c', p, Frag([w], None))
    ensures Simulates(v, Decode(w), pc, c, c', p, 1, m, t)
  {
    hide Decode, Reaches, Effect, FlowOf, Holds, Agree, SameMemoryOn;
    t := CopyStep(v, w, c, c', p);
    m := 1;
    var i := Decode(w);
    EffectAnywhere(v.exec, i, pc, c);
    EffectAnywhere(v.exec, i, v.base + 4 * p, c');
    HoldsKept(v.h, c'.mem, t.core.mem, v.base, v.words);
  }

  lemma CopySimulates(v: World, w: Word, pc: Reg64, c: Core, c': Core, p: nat) returns (m: nat, t: State)
    requires !IsPcRelative(w) && StepOk(v.exec, w, pc, c, v.d, v.h)
    requires Ready(v, c, c', p, Frag([w], None))
    ensures Simulates(v, Decode(w), pc, c, c', p, 1, m, t)
  {
    hide Decode, IsPcRelative, Simulates, CopySafe, Ready;
    NotPcRelative(w);
    var i := Decode(w);
    ReadyFits(v, c, c', p, Frag([w], None));
    if i.Br? || i.Ret? || i.Blr? {
      m, t := CopyBranch(v, w, pc, c, c', p);
    } else {
      m, t := CopyData(v, w, pc, c, c', p);
    }
  }

  lemma ReadyFits(v: World, c: Core, c': Core, p: nat, f: Frag)
    requires Ready(v, c, c', p, f)
    ensures Sane(v) && p + |f.words| < |v.words|
  {
  }

  lemma NotPcRelative(w: Word)
    requires !IsPcRelative(w)
    ensures var i := Decode(w);
            i.Br? || i.Blr? || i.Ret? || i.MovZ? || i.MovK? || i.LoadX? || i.AddX? || i.Other?
  {
    hide Decode;
    ClassesMatchDecode(w);
  }

  /** Whatever the word, its fragment does what the word does. */
  lemma FragSimulates(v: World, w: Word, pc: Reg64, c: Core, c': Core, p: nat) returns (m: nat, t: State)
    requires FragOf(w, pc).Some? && StepOk(v.exec, w, pc, c, v.d, v.h)
    requires Ready(v, c, c', p, FragOf(w, pc).value)
    ensures p + |FragOf(w, pc).value.words| < |v.words|
    ensures Simulates(v, Decode(w), pc, c, c', p, |FragOf(w, pc).value.words|, m, t)
  {
    hide Decode, Simulates, CopySafe, Ready, Imm26, Imm21, Imm19, Imm14, MovWords, SkipCond, EncodeImm19, EncodeImm14, FlipBit24,
      BrWord, BlrWord, LdrWord, Op, Effect, Wrap;
    ReadyFits(v, c, c', p, FragOf(w, pc).value);
    ClassesMatchDecode(w);
    UnallocatedNotOk(v, w, pc, c);
    if IsBranchOrCall(w) {
      m, t := BranchSimulates(v, w, pc, c, c', p, Wrap(pc + Imm26(w)), if w / 0x400_0000 == 0x25 then BlrWord(SCRATCH) else BrWord(SCRATCH));
    } else if IsLoadLiteral(w) {
      m, t := LiteralSimulates(v, w, pc, c, c', p, Wrap(pc + Imm19(w)));
    } else if IsAdr(w) {
      AdrEffect(v.exec, w, pc, c);
      m, t := MovSimulates(v, Decode(w), pc, c, c', p, w % 0x20, Wrap(pc + Imm21(w)));
    } else if IsAdrp(w) {
      AdrEffect(v.exec, w, pc, c);
      m, t := MovSimulates(v, Decode(w), pc, c, c', p, w % 0x20, Page(Wrap(pc + Imm21(w) * 0x1000)));
    } else if IsBranchCond(w) {
      m, t := CondSimulates(v, w, pc, c, c', p);
    } else if IsCompareBranch(w) {
      m, t := CompareSimulates(v, w, pc, c, c', p);
    } else if IsTestBranch(w) {
      m, t := TestSimulates(v, w, pc, c, c', p);
    } else {
      m, t := CopySimulates(v, w, pc, c, c', p);
    }
  }

  lemma AdrEffect(exec: Exec, w: Word, pc: Reg64, c: Core)
    ensures IsAdr(w) ==> Decode(w).Adr? && Effect(exec, Decode(w), pc, c) == Set(c, w % 0x20, Wrap(pc + Imm21(w)))
    ensures IsAdrp(w) ==> Decode(w).Adrp? && Effect(exec, Decode(w), pc, c) == Set(c, w % 0x20, Page(Wrap(pc + Imm21(w) * 0x1000)))
  {
    hide Decode, Imm21, IsAdr, IsAdrp, Wrap, Page;
    DecodedAdr(w);
    PageOfWrap(pc, Imm21(w));
  }

  lemma UnallocatedNotOk(v: World, w: Word, pc: Reg64, c: Core)
    requires StepOk(v.exec, w, pc, c, v.d, v.h)
    ensures Op(w) != 0x55 && Op(w) != 0xDC
  {
    hide CopySafe;
    BranchOpcodes(Op(w));
    LiteralOpcodes(Op(w));
  }

  // --- every fragment, whatever the word

  /** Fragment `f` is linked at word `p` of a block in memory. */
  ghost predicate Stands(c: Core, base: nat, words: seq<Word>, p: nat, f: Frag) {
    Placed(c, base, words) && FragLinked(words, p, f) && p + |f.words| < |words|
  }

  /**
    Where the fragment of an instruction that stood at `pc` leaves the machine, when `next`
    is the place behind the fragment.  It does what the instruction does, except that X17
    is overwritten on the way to a target and before a literal load, that a call returns
    behind the fragment, that a literal load is a 64-bit general one, and that B.AL and
    B.NV fall through.
   */
  ghost function FragResult(exec: Exec, i: Inst, pc: Reg64, c: Core, next: Reg64): State {
    match i
    case B(off) => JumpedTo(c, Wrap(pc + off))
    case BL(off) => State(Wrap(pc + off), Set(Set(c, SCRATCH, Wrap(pc + off)), LR, next))
    case BCond(cond, off) => if cond < 14 && CondHolds(cond, c.flags) then JumpedTo(c, Wrap(pc + off)) else State(next, c)
    case CompareBranch(is64, nz, rt, off) => if CompareTaken(c, is64, nz, rt) then JumpedTo(c, Wrap(pc + off)) else State(next, c)
    case TestBranch(bitNum, nz, rt, off) => if TestTaken(c, bitNum, nz, rt) then JumpedTo(c, Wrap(pc + off)) else State(next, c)
    case LoadLiteral(_, _, rt, off) => State(next, LiteralResult(c, rt, Wrap(pc + off)))
    case Br(rn) => State(Get(c, rn), c)
    case Ret(rn) => State(Get(c, rn), c)
    case Blr(rn) => State(Get(c, rn), Set(c, LR, next))
    case _ => State(next, Effect(exec, i, pc, c))
  }

  function JumpedTo(c: Core, a: Reg64): State {
    State(a, Set(c, SCRATCH, a))
  }

  /** Every fragment runs to its result, from every core: registers that hold X17 included. */
  lemma FragRuns(exec: Exec, w: Word, pc: Reg64, c: Core, base: nat, words: seq<Word>, p: nat) returns (m: nat, t: State)
    requires FragOf(w, pc).Some? && Op(w) != 0x55 && Stands(c, base, words, p, FragOf(w, pc).value)
    ensures var end := base + 4 * (p + |FragOf(w, pc).value.words|);
      && 1 <= m <= 5 && end < 0x1_0000_0000_0000_0000 && t == FragResult(exec, Decode(w), pc, c, end)
      && Reaches(exec, State(base + 4 * p, c), m, t, base + 4 * p, end)
  {
    hide Decode, Reaches, Imm26, Imm21, Imm19, Imm14, MovWords, SkipCond, EncodeImm19, EncodeImm14, FlipBit24, BrWord, BlrWord, LdrWord,
      Op, Wrap, FragLinked, FragResult;
    ClassesMatchDecode(w);
    if IsBranchOrCall(w) {
      t := BranchFragRuns(exec, w, pc, c, base, words, p);
      m := 2;
    } else if IsLoadLiteral(w) {
      t := LiteralFragRuns(exec, w, pc, c, base, words, p);
      m := 5;
    } else if IsAdr(w) || IsAdrp(w) {
      t := AdrFragRuns(exec, w, pc, c, base, words, p);
      m := 4;
    } else if IsBranchCond(w) || IsCompareBranch(w) || IsTestBranch(w) {
      m, t := SkipFragRuns(exec, w, pc, c, base, words, p);
    } else {
      t := CopyFragRuns(exec, w, pc, c, base, words, p);
      m := 1;
    }
  }

  lemma BranchFragRuns(exec: Exec, w: Word, pc: Reg64, c: Core, base: nat, words: seq<Word>, p: nat) returns (t: State)
    requires IsBranchOrCall(w) && Stands(c, base, words, p, FragOf(w, pc).value)
    ensures |FragOf(w, pc).value.words| == 2 && t == FragResult(exec, Decode(w), pc, c, base + 4 * (p + 2))
    ensures Reaches(exec, State(base + 4 * p, c), 2, t, base + 4 * p, base + 4 * (p + 2))
  {
    hide Decode, Reaches, LoadsAt, Imm26, BrWord, BlrWord;
    var f := FragOf(w, pc).value;
    assert f.words[1] == words[p + 1];
    BrNotBlr();
    DecodedBranch(w);
    t := JumpRuns(exec, c, base, words, p, Wrap(pc + Imm26(w)));
  }

  /** SIMD and 32-bit loads included: the address goes to X17, and 64 bits of it to the general register. */
  lemma LiteralFragRuns(exec: Exec, w: Word, pc: Reg64, c: Core, base: nat, words: seq<Word>, p: nat) returns (t: State)
    requires IsLoadLiteral(w) && w / 0x4000_0000 < 2 && Stands(c, base, words, p, FragOf(w, pc).value)
    ensures |FragOf(w, pc).value.words| == 5 && t == FragResult(exec, Decode(w), pc, c, base + 4 * (p + 5))
    ensures t == State(base + 4 * (p + 5), LiteralResult(c, w % 0x20, Wrap(pc + Imm19(w))))
    ensures Reaches(exec, State(base + 4 * p, c), 5, t, base + 4 * p, base + 4 * (p + 5))
  {
    hide Decode, Reaches, MovWords, LdrWord, Imm19, FragLinked, LiteralResult, FragOf;
    AcceptedLiteral(w);
    LiteralFragIs(w, pc);
    t := LiteralRuns(exec, c, base, words, p, w % 0x20, Wrap(pc + Imm19(w)));
  }

  lemma LiteralFragIs(w: Word, pc: Reg64)
    requires IsLoadLiteral(w) && w / 0x4000_0000 < 2
    ensures FragOf(w, pc) == Some(Frag(MovWords(SCRATCH, Wrap(pc + Imm19(w))) + [LdrWord(w % 0x20, SCRATCH)], None))
  {
    ClassesDisjoint(w);
  }

  lemma AcceptedLiteral(w: Word)
    requires IsLoadLiteral(w) && w / 0x4000_0000 < 2
    ensures Decode(w).LoadLiteral? && Decode(w) == LoadLiteral(w / 0x4000_0000, Op(w) / 4 % 2 == 1, w % 0x20, Imm19(w))
  {
    hide Decode, Imm19;
    LiteralOpcodes(Op(w));
    ClassesMatchDecode(w);
    DecodedLiteral(w);
  }

  lemma AdrFragRuns(exec: Exec, w: Word, pc: Reg64, c: Core, base: nat, words: seq<Word>, p: nat) returns (t: State)
    requires (IsAdr(w) || IsAdrp(w)) && Stands(c, base, words, p, FragOf(w, pc).value)
    ensures |FragOf(w, pc).value.words| == 4 && t == FragResult(exec, Decode(w), pc, c, base + 4 * (p + 4))
    ensures Reaches(exec, State(base + 4 * p, c), 4, t, base + 4 * p, base + 4 * (p + 4))
  {
    hide Decode, Reaches, MovWords, Imm21, Wrap, Effect;
    ClassesDisjoint(w);
    AdrEffect(exec, w, pc, c);
    var imm := if IsAdr(w) then Wrap(pc + Imm21(w)) else Page(Wrap(pc + Imm21(w) * 0x1000));
    assert forall k :: 0 <= k < 4 ==> words[p + k] == FragOf(w, pc).value.words[k];
    t := MovRuns(exec, c, base, words, p, w % 0x20, imm);
  }

  /** The three kinds of conditional branch: the inverted one skips the jump. */
  lemma SkipFragRuns(exec: Exec, w: Word, pc: Reg64, c: Core, base: nat, words: seq<Word>, p: nat) returns (m: nat, t: State)
    requires Decode(w).BCond? || Decode(w).CompareBranch? || Decode(w).TestBranch?
    requires FragOf(w, pc).Some? && Stands(c, base, words, p, FragOf(w, pc).value)
    ensures |FragOf(w, pc).value.words| == 3 && 1 <= m <= 3 && t == FragResult(exec, Decode(w), pc, c, base + 4 * (p + 3))
    ensures Reaches(exec, State(base + 4 * p, c), m, t, base + 4 * p, base + 4 * (p + 3))
  {
    hide Decode, Reaches, LoadsAt, SkipCond, EncodeImm19, EncodeImm14, FlipBit24, BrWord, Imm19, Imm14, Op, CompareTaken, TestTaken;
    ClassesMatchDecode(w);
    ClassesDisjoint(w);
    var f, i := FragOf(w, pc).value, Decode(w);
    assert |f.words| == 3 && f.words[0] == words[p] && f.words[2] == words[p + 2];
    if i.BCond? {
      DecodedCond(w);
      DecodeSkipCond(w);
      CondInversionExact(i.cond);
      if i.cond >= 14 {
        AlwaysHolds(i.cond, c.flags);
      }
      m, t := SkipRuns(exec, c, base, words, p, Wrap(pc + i.off), BCond(FlipLowBit(i.cond), 12), CondHolds(FlipLowBit(i.cond), c.flags));
    } else if i.CompareBranch? {
      DecodedCompare(w);
      DecodeSkipCompare(w);
      CompareInverted(c, i.is64, i.onNonZero, i.rt);
      m, t := SkipRuns(exec, c, base, words, p, Wrap(pc + i.off), CompareBranch(i.is64, !i.onNonZero, i.rt, 12),
                       !CompareTaken(c, i.is64, i.onNonZero, i.rt));
    } else {
      DecodedTest(w);
      DecodeSkipTest(w);
      TestInverted(c, i.bitNum, i.onNonZero, i.rt);
      m, t := SkipRuns(exec, c, base, words, p, Wrap(pc + i.off), TestBranch(i.bitNum, !i.onNonZero, i.rt, 12),
                       !TestTaken(c, i.bitNum, i.onNonZero, i.rt));
    }
  }

  lemma AlwaysHolds(cond: int, f: Flags)
    requires 14 <= cond < 16
    ensures CondHolds(cond, f) && CondHolds(FlipLowBit(cond), f)
  {
  }

  lemma CompareInverted(c: Core, is64: bool, nz: bool, rt: RegNum)
    ensures CompareTaken(c, is64, !nz, rt) == !CompareTaken(c, is64, nz, rt)
  {
  }

  lemma TestInverted(c: Core, bitNum: nat, nz: bool, rt: RegNum)
    ensures TestTaken(c, bitNum, !nz, rt) == !TestTaken(c, bitNum, nz, rt)
  {
  }

  lemma CopyFragRuns(exec: Exec, w: Word, pc: Reg64, c: Core, base: nat, words: seq<Word>, p: nat) returns (t: State)
    requires !IsPcRelative(w) && Stands(c, base, words, p, FragOf(w, pc).value)
    ensures |FragOf(w, pc).value.words| == 1 && t == FragResult(exec, Decode(w), pc, c, base + 4 * (p + 1))
    ensures Reaches(exec, State(base + 4 * p, c), 1, t, base + 4 * p, base + 4 * (p + 1))
  {
    hide Decode, Reaches, FragOf, FragResult, StepInst;
    CopyFrag(w, pc);
    assert FragOf(w, pc).value.words[0] == words[p];
    StepAt(exec, c, base, words, p);
    NotPcRelative(w);
    CopyResult(exec, Decode(w), pc, c, base + 4 * p);
    t := Step(exec, State(base + 4 * p, c));
    ReachesOne(exec, State(base + 4 * p, c), t, base + 4 * p, base + 4 * (p + 1));
  }

  lemma CopyFrag(w: Word, pc: Reg64)
    requires !IsPcRelative(w)
    ensures FragOf(w, pc) == Some(Frag([w], None))
  {
  }

  lemma CopyResult(exec: Exec, i: Inst, pc: Reg64, c: Core, at: Reg64)
    requires i.Br? || i.Blr? || i.Ret? || i.MovZ? || i.MovK? || i.LoadX? || i.AddX? || i.Other?
    requires at + 4 < 0x1_0000_0000_0000_0000
    ensures StepInst(exec, i, State(at, c)) == FragResult(exec, i, pc, c, at + 4)
  {
    if !(i.Br? || i.Blr? || i.Ret?) {
      hide Effect;
      EffectAnywhere(exec, i, pc, c);
      EffectAnywhere(exec, i, at, c);
    }
  }

  /** Words of the B.cond class with an opcode that is not allocated are rewritten like the others. */
  lemma UnallocatedFrag(w: Word, pc: Reg64)
    requires Op(w) == 0x55
    ensures var f := FragOf(w, pc);
      && f.Some? && |f.value.words| == 3 && f.value == JumpThrough(f.value.words[..1], Wrap(pc + Imm19(w)), BrWord(SCRATCH))
      && Op(f.value.words[0]) == 0x55 && Imm19(f.value.words[0]) == 12
      && f.value.words[0] % 0x20 == if w % 2 == 0 then w % 0x20 + 1 else w % 0x20 - 1
  {
    hide Imm19, EncodeImm19, BrWord;
    BranchOpcodes(Op(w));
    LiteralOpcodes(Op(w));
    AdrOpcodes(Op(w));
    var v := w - w % 0x10 + FlipLowBit(w % 0x10);
    Imm19RoundTrip(v, 12);
    FlippedLow(w);
  }

  lemma Fifth(v: int, q: int, r: int)
    requires v == 0x20 * q + r && 0 <= r < 0x20
    ensures v / 0x20 == q && v % 0x20 == r
  {
  }

  lemma FlippedLow(w: Word)
    ensures var v := w - w % 0x10 + FlipLowBit(w % 0x10);
      v / 0x100_0000 == w / 0x100_0000 && v % 0x20 == if w % 2 == 0 then w % 0x20 + 1 else w % 0x20 - 1
  {
    hide FlipLowBit;
    var v := w - w % 0x10 + FlipLowBit(w % 0x10);
    FlippedSum(w);
    LowFive(w, v);
    HighByte(w);
    HighByte(v);
  }

  lemma FlippedSum(w: Word)
    ensures w - w % 0x10 + FlipLowBit(w % 0x10) == if w % 2 == 0 then w + 1 else w - 1
  {
    SameParity(w / 0x10 * 8, w % 0x10);
  }

  lemma SameParity(m: int, r: int)
    ensures (2 * m + r) % 2 == r % 2
  {
  }

  /** Inverting the lowest bit does not reach beyond the low five. */
  lemma LowFive(w: int, v: int)
    requires v == if w % 2 == 0 then w + 1 else w - 1
    ensures v / 0x20 == w / 0x20 && v % 0x20 == if w % 2 == 0 then w % 0x20 + 1 else w % 0x20 - 1
  {
    var h, b := w / 2, w % 2;
    assert w == 2 * h + b && v == 2 * h + (1 - b);
    Doubled(h, b);
    Doubled(h, 1 - b);
  }

  lemma Doubled(h: int, b: int)
    requires 0 <= b < 2
    ensures (2 * h + b) / 0x20 == h / 0x10 && (2 * h + b) % 0x20 == 2 * (h % 0x10) + b
  {
    Fifth(2 * h + b, h / 0x10, 2 * (h % 0x10) + b);
  }

  lemma HighByte(w: int)
    ensures w / 0x100_0000 == w / 0x20 / 0x8_0000
  {
  }

  // --- where the fragment and the word differ

  ghost function StepN(exec: Exec, s: State, m: nat): State
    decreases m
  {
    if m == 0 then s else StepN(exec, Step(exec, s), m - 1)
  }

  lemma {:induction false} ReachesStepN(exec: Exec, s: State, m: nat, t: State, lo: int, hi: int)
    requires Reaches(exec, s, m, t, lo, hi)
    ensures StepN(exec, s, m) == t
    decreases m
  {
    hide Step;
    if m == 0 {
    } else {
      ReachesStepN(exec, Step(exec, s), m - 1, t, lo, hi);
    }
  }

  /** After its five steps the fragment of a literal load agrees with the load. */
  ghost predicate LiteralKept(exec: Exec, w: Word, pc: Reg64, c: Core, base: nat, words: seq<Word>, p: nat)
    requires FragOf(w, pc).Some? && Stands(c, base, words, p, FragOf(w, pc).value)
  {
    Agree(Effect(exec, Decode(w), pc, c), StepN(exec, State(base + 4 * p, c), 5).core, {SCRATCH}, iset{})
  }

  lemma LiteralKeptIs(exec: Exec, w: Word, pc: Reg64, c: Core, base: nat, words: seq<Word>, p: nat)
    requires IsLoadLiteral(w) && w / 0x4000_0000 < 2 && Stands(c, base, words, p, FragOf(w, pc).value)
    ensures var i, dst := Decode(w), Wrap(pc + Imm19(w));
      && i.LoadLiteral? && i.rt == w % 0x20
      && (LiteralKept(exec, w, pc, c, base, words, p) <==>
            Agree(LiteralEffect(c, i.opc, i.simd, i.rt, dst), LiteralResult(c, i.rt, dst), {SCRATCH}, iset{}))
  {
    hide Decode, Reaches, Imm19, FragOf, Stands, Agree, LiteralResult, LiteralEffect;
    AcceptedLiteral(w);
    var t := LiteralFragRuns(exec, w, pc, c, base, words, p);
    ReachesStepN(exec, State(base + 4 * p, c), 5, t, base + 4 * p, base + 4 * (p + 5));
  }

  /**
    Which literal loads survive relocation: wherever the fragment stands, it agrees with
    the load on every core exactly for the 64-bit general load, and for the 32-bit one
    where the register is X17 or is discarded.
   */
  lemma LiteralExactly(exec: Exec, w: Word, pc: Reg64)
    requires IsLoadLiteral(w) && w / 0x4000_0000 < 2
    ensures Decode(w).LoadLiteral?
    ensures (forall c: Core, base: nat, words: seq<Word>, p: nat {:trigger Stands(c, base, words, p, FragOf(w, pc).value)} ::
               Stands(c, base, words, p, FragOf(w, pc).value) ==> LiteralKept(exec, w, pc, c, base, words, p))
            <==> LiteralExact(Decode(w).opc, Decode(w).simd, Decode(w).rt)
  {
    hide Decode, Imm19, Stands, LiteralKept, LiteralEffect, LiteralResult, Agree, FragOf;
    AcceptedLiteral(w);
    var i := Decode(w);
    LiteralAgrees(i.opc, i.simd, i.rt);
    forall c: Core, base: nat, words: seq<Word>, p: nat {:trigger Stands(c, base, words, p, FragOf(w, pc).value)} |
        LiteralExact(i.opc, i.simd, i.rt) && Stands(c, base, words, p, FragOf(w, pc).value)
      ensures LiteralKept(exec, w, pc, c, base, words, p)
    {
      LiteralKeptIs(exec, w, pc, c, base, words, p);
    }
    if !LiteralExact(i.opc, i.simd, i.rt) {
      var c, base, words := LiteralWitness(w, pc);
      LiteralKeptIs(exec, w, pc, c, base, words, 0);
    }
  }

  /** Memory of ones with the fragment in it, away from the literal. */
  lemma LiteralWitness(w: Word, pc: Reg64) returns (c: Core, base: nat, words: seq<Word>)
    requires IsLoadLiteral(w) && w / 0x4000_0000 < 2
    ensures Stands(c, base, words, 0, FragOf(w, pc).value) && c.v == seq(32, _ => 0)
    ensures var dst := Wrap(pc + Imm19(w)); Load32(c.mem, dst) == Load32(c.mem, dst + 4) == 0x101_0101
  {
    hide MovWords, LdrWord, Imm19, StoreWords, Load32;
    ClassesDisjoint(w);
    var dst: int := Wrap(pc + Imm19(w));
    var f := FragOf(w, pc).value;
    base := if dst < 0x1000 then 0x2000 else 0;
    words := f.words + [0];
    var ones: int -> Byte := _ => 1;
    var mem := StoreWords(ones, base, words);
    c := Core(seq(31, _ => 0), 0, Flags(false, false, false, false), seq(32, _ => 0), mem);
    StoredHolds(ones, base, words);
    OnesApart(base, words, dst);
    OnesApart(base, words, dst + 4);
  }

  lemma OnesApart(base: nat, words: seq<Word>, a: int)
    requires a + 4 <= base || base + 4 * |words| <= a
    ensures Load32(StoreWords(_ => 1, base, words), a) == 0x101_0101
  {
    hide ByteOf;
    var m := StoreWords(_ => 1, base, words);
    assert m(a) == 1 && m(a + 1) == 1 && m(a + 2) == 1 && m(a + 3) == 1;
  }

  /** LDR W0, #8 at 0x1000 over bytes of one: it loads 32 bits of them, the fragment 64. */
  lemma LiteralLost(exec: Exec, c: Core, base: nat, words: seq<Word>, p: nat)
    requires Load32(c.mem, 0x1008) == Load32(c.mem, 0x100C) == 0x101_0101
    requires FragOf(0x1800_0040, 0x1000).Some? && Stands(c, base, words, p, FragOf(0x1800_0040, 0x1000).value)
    ensures Effect(exec, Decode(0x1800_0040), 0x1000, c).x[0] == 0x101_0101
    ensures StepN(exec, State(base + 4 * p, c), 5).core.x[0] == 0x101_0101_0101_0101
  {
    hide Reaches, FragOf, Stands, Load32, StepN;
    var w: Word := 0x1800_0040;
    assert IsLoadLiteral(w) && Imm19(w) == 8;
    var t := LiteralFragRuns(exec, w, 0x1000, c, base, words, p);
    ReachesStepN(exec, State(base + 4 * p, c), 5, t, base + 4 * p, base + 4 * (p + 5));
  }

  /** For "always" (0b111x) the inverted branch is always taken too: the jump is lost and the block falls through. */
  lemma AlwaysBranchLost(exec: Exec, w: Word, pc: Reg64, c: Core, base: nat, words: seq<Word>, p: nat)
    requires Decode(w).BCond? && Decode(w).cond >= 14
    requires FragOf(w, pc).Some? && Stands(c, base, words, p, FragOf(w, pc).value)
    ensures FlowOf(Decode(w), pc, c) == Jump(Wrap(pc + Imm19(w)))
    ensures |FragOf(w, pc).value.words| == 3
    ensures Reaches(exec, State(base + 4 * p, c), 1, State(base + 4 * (p + 3), c), base + 4 * p, base + 4 * (p + 3))
  {
    hide Decode, Reaches, Imm19, SkipCond, LoadsAt, BrWord, Step;
    ClassesMatchDecode(w);
    ClassesDisjoint(w);
    DecodedCond(w);
    DecodeSkipCond(w);
    AlwaysHolds(Decode(w).cond, c.flags);
    assert FragOf(w, pc).value.words[0] == SkipCond(w) == words[p];
    StepAt(exec, c, base, words, p);
    ReachesOne(exec, State(base + 4 * p, c), State(base + 4 * (p + 3), c), base + 4 * p, base + 4 * (p + 3));
  }

  // --- the whole head

  /** How the original head is left: where to, with what core, after how many steps, and the word a call returns to. */
  datatype Exit = Exit(pc: Reg64, core: Core, steps: nat, link: Option<nat>)

  /** Running the head from word `i` until a branch is taken or its end is reached. */
  ghost function HeadRun(exec: Exec, head: seq<Word>, origin: Reg64, i: nat, c: Core): (e: Exit)
    requires i <= |head|
    ensures e.link.Some? ==> i < e.link.value <= |head|
    decreases |head| - i
  {
    var pc := Wrap(origin + 4 * i);
    if i == |head| then Exit(pc, c, 0, None)
    else
      var next := Effect(exec, Decode(head[i]), pc, c);
      match FlowOf(Decode(head[i]), pc, c)
      case Next => var e := HeadRun(exec, head, origin, i + 1, next); e.(steps := e.steps + 1)
      case Jump(a) => Exit(a, next, 1, None)
      case Call(a) => Exit(a, next, 1, Some(i + 1))
  }

  /** Every word executed on that run is one the relocator translates faithfully. */
  ghost predicate RunOk(exec: Exec, head: seq<Word>, origin: Reg64, i: nat, c: Core, d: set<RegNum>, h: iset<int>)
    requires i <= |head|
    decreases |head| - i
  {
    i < |head| ==>
      var pc := Wrap(origin + 4 * i);
      && StepOk(exec, head[i], pc, c, d, h)
      && (FlowOf(Decode(head[i]), pc, c).Next? ==>
            RunOk(exec, head, origin, i + 1, Effect(exec, Decode(head[i]), pc, c), d, h))
  }

  /** The block's state `t` corresponds to the exit `e` of the head. */
  ghost predicate SameExit(v: World, head: seq<Word>, origin: Reg64, e: Exit, t: State)
    requires Supported(head) && (e.link.Some? ==> e.link.value <= |head|)
  {
    && t.pc == e.pc && Holds(t.core.mem, v.base, v.words)
    && match e.link
       case None => Agree(e.core, t.core, v.d, v.h)
       case Some(j) =>
         && Agree(e.core, t.core, v.d + {LR}, v.h)
         && e.core.x[LR] == Wrap(origin + 4 * j) && t.core.x[LR] == v.base + 4 * Off(head, origin, j)
  }

  /** The block's code ends behind the tail jump; the literal data follows. */
  function CodeEnd(head: seq<Word>, origin: Reg64, base: nat): nat
    requires Supported(head)
  {
    base + 4 * (Off(head, origin, |head|) + 2)
  }

  lemma TailRuns(v: World, head: seq<Word>, origin: Reg64, c: Core, c': Core) returns (t: State)
    requires Supported(head) && 20 * |head| + 16 <= 0x10_0000
    requires Sane(v) && v.words == Linked(head, origin) && Agree(c, c', v.d, v.h) && Holds(c'.mem, v.base, v.words)
    ensures |v.words| >= Off(head, origin, |head|) + 4
    ensures Reaches(v.exec, State(v.base + 4 * Off(head, origin, |head|), c'), 2, t, v.base, CodeEnd(head, origin, v.base))
    ensures SameExit(v, head, origin, Exit(Wrap(origin + 4 * |head|), c, 0, None), t)
  {
    hide Reaches, LoadsAt, Linked, Prefix, Supported, Holds;
    BlockLinked(head, origin, |head|);
    var p := Off(head, origin, |head|);
    var target := Wrap(origin + 4 * |head|);
    var f := Tail(target);
    assert f.words[1] == v.words[p + 1];
    BrNotBlr();
    t := JumpRuns(v.exec, c', v.base, v.words, p, target);
    ReachesWiden(v.exec, State(v.base + 4 * p, c'), 2, t, v.base + 4 * p, v.base + 4 * (p + 2), v.base, CodeEnd(head, origin, v.base));
    AgreeScratch(c, c', v.d, v.h, target);
  }

  lemma {:induction false} OffMonotone(head: seq<Word>, origin: Reg64, i: nat, j: nat)
    requires Supported(head) && i <= j <= |head|
    ensures Off(head, origin, i) <= Off(head, origin, j)
  {
    PrefixExtends(head, origin, i, j);
  }

  /** The fragment of word `i`, run inside the whole block. */
  lemma WordRuns(v: World, head: seq<Word>, origin: Reg64, i: nat, c: Core, c': Core) returns (m: nat, t: State)
    requires Supported(head) && 20 * |head| + 16 <= 0x10_0000 && i < |head|
    requires Sane(v) && v.words == Linked(head, origin) && Agree(c, c', v.d, v.h) && Holds(c'.mem, v.base, v.words)
    requires StepOk(v.exec, head[i], Wrap(origin + 4 * i), c, v.d, v.h)
    ensures |v.words| > Off(head, origin, i) && |v.words| > Off(head, origin, i + 1)
    ensures m <= 5 && Reaches(v.exec, State(v.base + 4 * Off(head, origin, i), c'), m, t, v.base, CodeEnd(head, origin, v.base))
    ensures Holds(t.core.mem, v.base, v.words)
    ensures var pc := Wrap(origin + 4 * i);
            Matches(v, FlowOf(Decode(head[i]), pc, c), Effect(v.exec, Decode(head[i]), pc, c), pc, t, v.base + 4 * Off(head, origin, i + 1))
  {
    hide Reaches, LoadsAt, Linked, Prefix, Holds, FragOf, FragLinked, Agree, Decode, FlowOf, Effect, StepOk, Matches;
    BlockLinked(head, origin, i);
    var pc, p := Wrap(origin + 4 * i), Off(head, origin, i);
    assert FragOf(head[i], pc).Some?;
    OffMonotone(head, origin, i + 1, |head|);
    m, t := FragSimulates(v, head[i], pc, c, c', p);
    ReachesWiden(v.exec, State(v.base + 4 * p, c'), m, t, v.base + 4 * p, v.base + 4 * Off(head, origin, i + 1),
                 v.base, CodeEnd(head, origin, v.base));
  }

  /**
    The main theorem.  From any word of the head, whatever the head does until it
    is left, the block does too: it reaches the same address with the same
    registers, flags and memory (but for `d` and `h`), it never executes literal
    data, and a call leaves the return address of the next fragment.
   */
  lemma {:induction false} BlockSimulatesHead(v: World, head: seq<Word>, origin: Reg64, i: nat, c: Core, c': Core)
    returns (m: nat, t: State)
    requires Supported(head) && 20 * |head| + 16 <= 0x10_0000 && i <= |head|
    requires Sane(v) && v.words == Linked(head, origin) && Agree(c, c', v.d, v.h) && Holds(c'.mem, v.base, v.words)
    requires RunOk(v.exec, head, origin, i, c, v.d, v.h)
    ensures |v.words| > Off(head, origin, i)
    ensures m <= 5 * HeadRun(v.exec, head, origin, i, c).steps + 2
    ensures Reaches(v.exec, State(v.base + 4 * Off(head, origin, i), c'), m, t, v.base, CodeEnd(head, origin, v.base))
    ensures SameExit(v, head, origin, HeadRun(v.exec, head, origin, i, c), t)
    decreases |head| - i
  {
    hide Reaches, LoadsAt, Linked, Prefix, Holds, FragOf, FragLinked, Agree, Decode, FlowOf, Effect, StepOk;
    if i == |head| {
      t := TailRuns(v, head, origin, c, c');
      m := 2;
    } else {
      var k, u := WordRuns(v, head, origin, i, c, c');
      var pc := Wrap(origin + 4 * i);
      var flow := FlowOf(Decode(head[i]), pc, c);
      if flow.Next? {
        var c1 := Effect(v.exec, Decode(head[i]), pc, c);
        var k2, u2 := BlockSimulatesHead(v, head, origin, i + 1, c1, u.core);
        m, t := k + k2, u2;
        ReachesTrans(v.exec, State(v.base + 4 * Off(head, origin, i), c'), k, u, k2, u2, v.base, CodeEnd(head, origin, v.base));
      } else {
        m, t := k, u;
        NextPcIs(origin, i);
      }
    }
  }

  lemma NextPcIs(origin: Reg64, i: nat)
    ensures Wrap(Wrap(origin + 4 * i) + 4) == Wrap(origin + 4 * (i + 1))
  {
    var x := origin + 4 * i;
    var q := x / 0x1_0000_0000_0000_0000;
    assert Wrap(x) == x - q * 0x1_0000_0000_0000_0000;
  }

  lemma AgreeRefl(c: Core, d: set<RegNum>, h: iset<int>)
    ensures Agree(c, c, d, h)
  {
  }

  lemma SafeKeepsHidden(exec: Exec, w: Word, pc: Reg64, c: Core, d: set<RegNum>, h: iset<int>)
    requires StepOk(exec, w, pc, c, d, h)
    ensures SameMemoryOn(h, c.mem, Effect(exec, Decode(w), pc, c).mem)
  {
    hide Decode, Agree, IsPcRelative;
    var i := Decode(w);
    if i.MovZ? || i.MovK? || i.LoadX? || i.AddX? || i.Other? {
      AgreeRefl(c, d, h);
      EffectAnywhere(exec, i, pc, c);
    }
  }

  lemma HeadStep(exec: Exec, head: seq<Word>, origin: nat, i: nat, c: Core, d: set<RegNum>, h: iset<int>)
    requires origin + 4 * |head| < 0x1_0000_0000_0000_0000 && i < |head|
    requires Holds(c.mem, origin, head) && Covers(h, origin, origin + 4 * |head|)
    requires StepOk(exec, head[i], origin + 4 * i, c, d, h)
    ensures var next := Effect(exec, Decode(head[i]), origin + 4 * i, c);
            && Step(exec, State(origin + 4 * i, c)) == State(NextPc(FlowOf(Decode(head[i]), origin + 4 * i, c), origin + 4 * i), next)
            && Holds(next.mem, origin, head)
  {
    hide StepOk, Decode, Effect, FlowOf, StepInst, Step;
    StepAt(exec, c, origin, head, i);
    StepInstIs(exec, Decode(head[i]), State(origin + 4 * i, c));
    SafeKeepsHidden(exec, head[i], origin + 4 * i, c, d, h);
    HoldsKept(h, c.mem, Effect(exec, Decode(head[i]), origin + 4 * i, c).mem, origin, head);
  }

  /** The original run is a run of the machine over the head in memory. */
  lemma {:induction false} HeadIsMachineRun(exec: Exec, head: seq<Word>, origin: nat, i: nat, c: Core, d: set<RegNum>, h: iset<int>)
    requires origin + 4 * |head| < 0x1_0000_0000_0000_0000 && i <= |head|
    requires Holds(c.mem, origin, head) && Covers(h, origin, origin + 4 * |head|)
    requires RunOk(exec, head, origin, i, c, d, h)
    ensures var e := HeadRun(exec, head, origin, i, c);
            Reaches(exec, State(origin + 4 * i, c), e.steps, State(e.pc, e.core), origin, origin + 4 * |head|)
    decreases |head| - i
  {
    hide StepOk, Decode, Effect, FlowOf, Step, Reaches, Holds, Covers;
    var lo, hi := origin, origin + 4 * |head|;
    var s := State(origin + 4 * i, c);
    var e := HeadRun(exec, head, origin, i, c);
    if i == |head| {
      ReachesNone(exec, s, lo, hi);
    } else {
      HeadStep(exec, head, origin, i, c, d, h);
      var u := Step(exec, s);
      ReachesOne(exec, s, u, lo, hi);
      if FlowOf(Decode(head[i]), s.pc, c).Next? {
        HeadIsMachineRun(exec, head, origin, i + 1, u.core, d, h);
        ReachesTrans(exec, s, 1, u, e.steps - 1, State(e.pc, e.core), lo, hi);
      }
    }
  }

  lemma AgreeWiden(c: Core, c': Core, d: set<RegNum>, h: iset<int>)
    requires Agree(c, c', d, h)
    ensures Agree(c, c', d + {LR}, h) && (LR in d || c.x[LR] == c'.x[LR])
  {
  }

  lemma StepInstIs(exec: Exec, i: Inst, s: State)
    ensures StepInst(exec, i, s) == State(NextPc(FlowOf(i, s.pc, s.core), s.pc), Effect(exec, i, s.pc, s.core))
  {
  }

  /**
    Both worlds side by side: in the original one the head stands at `origin` with
    core `c`; in the hooked one the head may hold anything and the block stands at
    `v.base`.  Both machines leave, for the same address, in corresponding states.
   */
  lemma RelocationFaithful(v: World, head: seq<Word>, origin: nat, i: nat, c: Core, c': Core) returns (k: nat, s: State, m: nat, t: State)
    requires Supported(head) && 20 * |head| + 16 <= 0x10_0000 && i <= |head|
    requires origin + 4 * |head| < 0x1_0000_0000_0000_0000
    requires Sane(v) && v.words == Linked(head, origin) && Covers(v.h, origin, origin + 4 * |head|)
    requires Holds(c.mem, origin, head) && Holds(c'.mem, v.base, v.words) && Agree(c, c', v.d, v.h)
    requires RunOk(v.exec, head, origin, i, c, v.d, v.h)
    ensures k <= |head| - i && Reaches(v.exec, State(origin + 4 * i, c), k, s, origin, origin + 4 * |head|)
    ensures |v.words| > Off(head, origin, i)
    ensures Reaches(v.exec, State(v.base + 4 * Off(head, origin, i), c'), m, t, v.base, CodeEnd(head, origin, v.base))
    ensures s.pc == t.pc && Agree(s.core, t.core, v.d + {LR}, v.h)
    ensures s.core.x[LR] == t.core.x[LR] || LR in v.d ||
            exists j {:trigger Off(head, origin, j)} ::
              i < j <= |head| && s.core.x[LR] == origin + 4 * j && t.core.x[LR] == v.base + 4 * Off(head, origin, j)
  {
    hide Reaches, Linked, RunOk, Holds, HeadRun, Prefix, Supported, Covers, Agree;
    HeadSteps(v.exec, head, origin, i, c);
    HeadIsMachineRun(v.exec, head, origin, i, c, v.d, v.h);
    m, t := BlockSimulatesHead(v, head, origin, i, c, c');
    var e := HeadRun(v.exec, head, origin, i, c);
    k, s := e.steps, State(e.pc, e.core);
    if e.link.Some? {
      var j := e.link.value;
      assert i < j <= |head| && s.core.x[LR] == origin + 4 * j && t.core.x[LR] == v.base + 4 * Off(head, origin, j);
    } else {
      AgreeWiden(s.core, t.core, v.d, v.h);
    }
  }

  lemma {:induction false} HeadSteps(exec: Exec, head: seq<Word>, origin: Reg64, i: nat, c: Core)
    requires i <= |head|
    ensures HeadRun(exec, head, origin, i, c).steps <= |head| - i
    decreases |head| - i
  {
    hide Decode, Effect, FlowOf;
    if i == |head| {
    } else {
      HeadSteps(exec, head, origin, i + 1, Effect(exec, Decode(head[i]), Wrap(origin + 4 * i), c));
    }
  }
}
