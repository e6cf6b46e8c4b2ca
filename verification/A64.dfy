/**
  A small A64 machine: 31 general registers, SP, the condition flags, the SIMD
  registers and byte memory.  The meaning of each instruction follows section
  C6.2 of the Arm Architecture Reference Manual (DDI 0487).  Words and
  addresses are integers; a bit field `st..fn` of `w` is `w / 2^st % 2^(fn-st+1)`
  and addresses wrap at 2^64.
 */
module A64 {

  type Byte = b: int | 0 <= b < 0x100
  type Word = w: int | 0 <= w < 0x1_0000_0000
  type Reg64 = x: int | 0 <= x < 0x1_0000_0000_0000_0000
  type RegNum = r: int | 0 <= r < 32
  type Regs = s: seq<Reg64> | |s| == 31 witness seq(31, _ => 0)
  type VRegs = s: seq<int> | |s| == 32 witness seq(32, _ => 0)

  /** The scratch register IP1 (section 6.1.1 of AAPCS64) and the link register. */
  const SCRATCH: RegNum := 17
  const LR: RegNum := 30

  datatype Flags = Flags(n: bool, z: bool, c: bool, v: bool)

  /** Everything an instruction can read or write except the program counter. */
  datatype Core = Core(x: Regs, sp: Reg64, flags: Flags, v: VRegs, mem: int -> Byte)

  datatype State = State(pc: Reg64, core: Core)

  datatype Inst =
    | B(off: int)
    | BL(off: int)
    | BCond(cond: int, off: int)
    | CompareBranch(is64: bool, onNonZero: bool, rt: RegNum, off: int)
    | TestBranch(bitNum: nat, onNonZero: bool, rt: RegNum, off: int)
    | LoadLiteral(opc: int, simd: bool, rt: RegNum, off: int)
    | Adr(rd: RegNum, off: int)
    | Adrp(rd: RegNum, off: int)
    | Br(rn: RegNum)
    | Blr(rn: RegNum)
    | Ret(rn: RegNum)
    | MovZ(rd: RegNum, hw: int, imm: int)
    | MovK(rd: RegNum, hw: int, imm: int)
    | LoadX(rt: RegNum, rn: RegNum, off: int)
    | AddX(rd: RegNum, rn: RegNum, imm: int)
    | Other(word: Word)

  /** How an instruction leaves: to the next word, by a jump, or by a call that set the link register. */
  datatype Flow = Next | Jump(target: Reg64) | Call(target: Reg64)

  /** The data effect of the words this machine does not interpret; it never sees the program counter. */
  type Exec = (Word, Core) -> Core

  function Wrap(x: int): Reg64 {
    x % 0x1_0000_0000_0000_0000
  }

  /** The value of a field whose sign bit has weight `half`. */
  function SignExtend(x: int, half: int): int {
    if x < half then x else x - 2 * half
  }

  // --- instruction formats

  function Imm26(w: Word): int { SignExtend(w % 0x400_0000 * 4, 0x800_0000) }
  function Imm19(w: Word): int { SignExtend(w / 0x20 % 0x8_0000 * 4, 0x10_0000) }
  function Imm14(w: Word): int { SignExtend(w / 0x20 % 0x4000 * 4, 0x8000) }
  function Imm21(w: Word): int { SignExtend(w / 0x20 % 0x8_0000 * 4 + w / 0x2000_0000 % 4, 0x10_0000) }

  function Decode(w: Word): Inst {
    var op := w / 0x100_0000;
    var r0: RegNum := w % 0x20;
    if 0x14 <= op < 0x18 then B(Imm26(w))
    else if 0x94 <= op < 0x98 then BL(Imm26(w))
    else if op == 0x54 then BCond(w % 0x10, Imm19(w))
    else if op == 0x34 || op == 0xB4 then CompareBranch(op == 0xB4, false, r0, Imm19(w))
    else if op == 0x35 || op == 0xB5 then CompareBranch(op == 0xB5, true, r0, Imm19(w))
    else if op == 0x36 || op == 0xB6 then TestBranch(TestedBit(w), false, r0, Imm14(w))
    else if op == 0x37 || op == 0xB7 then TestBranch(TestedBit(w), true, r0, Imm14(w))
    else if op == 0x18 || op == 0x58 || op == 0x98 || op == 0xD8 then LoadLiteral(op / 0x40, false, r0, Imm19(w))
    else if op == 0x1C || op == 0x5C || op == 0x9C then LoadLiteral(op / 0x40, true, r0, Imm19(w))
    else if op == 0x10 || op == 0x30 || op == 0x50 || op == 0x70 then Adr(r0, Imm21(w))
    else if op == 0x90 || op == 0xB0 || op == 0xD0 || op == 0xF0 then Adrp(r0, Imm21(w) * 0x1000)
    else DecodeRest(w, op, r0, w / 0x20 % 0x20)
  }

  function TestedBit(w: Word): nat {
    w / 0x8000_0000 * 32 + w / 0x8_0000 % 0x20
  }

  /** Branches to a register and the data instructions the assembler emits. */
  function DecodeRest(w: Word, op: int, r0: RegNum, r5: RegNum): Inst {
    if op == 0xD6 && w == 0xD61F_0000 + r5 * 0x20 then Br(r5)
    else if op == 0xD6 && w == 0xD63F_0000 + r5 * 0x20 then Blr(r5)
    else if op == 0xD6 && w == 0xD65F_0000 + r5 * 0x20 then Ret(r5)
    else if op == 0xD2 && w >= 0xD280_0000 then MovZ(r0, w / 0x20_0000 % 4, w / 0x20 % 0x1_0000)
    else if op == 0xF2 && w >= 0xF280_0000 then MovK(r0, w / 0x20_0000 % 4, w / 0x20 % 0x1_0000)
    else if 0xF940_0000 <= w < 0xF980_0000 then LoadX(r0, r5, w / 0x400 % 0x1000 * 8)
    else if 0x9100_0000 <= w < 0x9140_0000 then AddX(r0, r5, w / 0x400 % 0x1000)
    else Other(w)
  }

  // --- registers, memory, conditions

  function Get(c: Core, r: RegNum): Reg64 {
    if r == 31 then 0 else c.x[r]
  }

  function GetOrSp(c: Core, r: RegNum): Reg64 {
    if r == 31 then c.sp else c.x[r]
  }

  function Set(c: Core, r: RegNum, value: Reg64): Core {
    if r == 31 then c else c.(x := c.x[r := value])
  }

  function Load32(mem: int -> Byte, a: int): Word {
    mem(a) + 0x100 * mem(a + 1) + 0x1_0000 * mem(a + 2) + 0x100_0000 * mem(a + 3)
  }

  function Load64(mem: int -> Byte, a: int): Reg64 {
    Load32(mem, a) + 0x1_0000_0000 * Load32(mem, a + 4)
  }

  /** The 16-bit lane number `hw` of a register, as a weight. */
  function Lane(hw: int): int {
    if hw == 0 then 1 else if hw == 1 then 0x1_0000 else if hw == 2 then 0x1_0000_0000 else 0x1_0000_0000_0000
  }

  /** A register is its four lanes. */
  lemma LaneSplit(x: Reg64)
    ensures x == x / 0x1_0000_0000_0000 * 0x1_0000_0000_0000 + x / 0x1_0000_0000 % 0x1_0000 * 0x1_0000_0000
                 + x / 0x1_0000 % 0x1_0000 * 0x1_0000 + x % 0x1_0000
    ensures x / 0x1_0000_0000_0000 % 0x1_0000 == x / 0x1_0000_0000_0000 < 0x1_0000
  {
    var a := x / 0x1_0000;
    var b := a / 0x1_0000;
    assert b == x / 0x1_0000_0000 && b / 0x1_0000 == x / 0x1_0000_0000_0000;
  }

  function SetLane(x: Reg64, hw: int, imm: int): Reg64
    requires 0 <= imm < 0x1_0000
  {
    LaneSplit(x);
    if hw == 0 then x - x % 0x1_0000 + imm
    else if hw == 1 then x - x / 0x1_0000 % 0x1_0000 * 0x1_0000 + imm * 0x1_0000
    else if hw == 2 then x - x / 0x1_0000_0000 % 0x1_0000 * 0x1_0000_0000 + imm * 0x1_0000_0000
    else x - x / 0x1_0000_0000_0000 % 0x1_0000 * 0x1_0000_0000_0000 + imm * 0x1_0000_0000_0000
  }

  predicate BaseCond(cond: int, f: Flags) {
    var k := cond / 2;
    if k == 0 then f.z
    else if k == 1 then f.c
    else if k == 2 then f.n
    else if k == 3 then f.v
    else if k == 4 then f.c && !f.z
    else if k == 5 then f.n == f.v
    else if k == 6 then f.n == f.v && !f.z
    else true
  }

  /** ConditionHolds: an odd condition negates the even one below it, except that 0b1111 is "always". */
  predicate CondHolds(cond: int, f: Flags) {
    if cond % 2 == 1 && cond != 15 then !BaseCond(cond, f) else BaseCond(cond, f)
  }

  function Pow2(n: nat): nat {
    if n == 0 then 1 else 2 * Pow2(n - 1)
  }

  ghost predicate CompareTaken(c: Core, is64: bool, onNonZero: bool, rt: RegNum) {
    var value := if is64 then Get(c, rt) else Get(c, rt) % 0x1_0000_0000;
    (value != 0) == onNonZero
  }

  lemma Pow2Positive(n: nat)
    ensures Pow2(n) > 0
  {
  }

  ghost predicate TestTaken(c: Core, bitNum: nat, onNonZero: bool, rt: RegNum) {
    Pow2Positive(bitNum);
    (Get(c, rt) / Pow2(bitNum) % 2 != 0) == onNonZero
  }

  // --- execution

  function Page(x: int): int {
    x / 0x1000 * 0x1000
  }

  /** What a literal load does to the registers. */
  function LiteralEffect(c: Core, opc: int, simd: bool, rt: RegNum, a: int): Core {
    if simd then
      var q := if opc == 0 then Load32(c.mem, a) else if opc == 1 then Load64(c.mem, a)
               else Load64(c.mem, a) + 0x1_0000_0000_0000_0000 * Load64(c.mem, a + 8);
      c.(v := c.v[rt := q])
    else if opc == 0 then Set(c, rt, Load32(c.mem, a))
    else if opc == 1 then Set(c, rt, Load64(c.mem, a))
    else if opc == 2 then Set(c, rt, Wrap(SignExtend(Load32(c.mem, a), 0x8000_0000)))
    else c  // PRFM
  }

  /** What an instruction does to everything but the program counter. */
  function Effect(exec: Exec, i: Inst, pc: Reg64, c: Core): Core {
    match i
    case BL(_) => Set(c, LR, Wrap(pc + 4))
    case Blr(_) => Set(c, LR, Wrap(pc + 4))
    case LoadLiteral(opc, simd, rt, off) => LiteralEffect(c, opc, simd, rt, Wrap(pc + off))
    case Adr(rd, off) => Set(c, rd, Wrap(pc + off))
    case Adrp(rd, off) => Set(c, rd, Wrap(Page(pc) + off))
    case MovZ(rd, hw, imm) => if 0 <= imm < 0x1_0000 then Set(c, rd, SetLane(0, hw, imm)) else c
    case MovK(rd, hw, imm) => if 0 <= imm < 0x1_0000 then Set(c, rd, SetLane(Get(c, rd), hw, imm)) else c
    case LoadX(rt, rn, off) => Set(c, rt, Load64(c.mem, Wrap(GetOrSp(c, rn) + off)))
    case AddX(rd, rn, imm) =>
      var sum := Wrap(GetOrSp(c, rn) + imm);
      if rd == 31 then c.(sp := sum) else Set(c, rd, sum)
    case Other(w) => exec(w, c)
    case _ => c
  }

  ghost function FlowOf(i: Inst, pc: Reg64, c: Core): Flow {
    match i
    case B(off) => Jump(Wrap(pc + off))
    case BL(off) => Call(Wrap(pc + off))
    case BCond(cond, off) => if CondHolds(cond, c.flags) then Jump(Wrap(pc + off)) else Next
    case CompareBranch(is64, nz, rt, off) => if CompareTaken(c, is64, nz, rt) then Jump(Wrap(pc + off)) else Next
    case TestBranch(bitNum, nz, rt, off) => if TestTaken(c, bitNum, nz, rt) then Jump(Wrap(pc + off)) else Next
    case Br(rn) => Jump(Get(c, rn))
    case Ret(rn) => Jump(Get(c, rn))
    case Blr(rn) => Call(Get(c, rn))
    case _ => Next
  }

  ghost function NextPc(flow: Flow, pc: Reg64): Reg64 {
    match flow
    case Next => Wrap(pc + 4)
    case Jump(t) => t
    case Call(t) => t
  }

  ghost function StepInst(exec: Exec, i: Inst, s: State): State {
    State(NextPc(FlowOf(i, s.pc, s.core), s.pc), Effect(exec, i, s.pc, s.core))
  }

  ghost function Step(exec: Exec, s: State): State {
    StepInst(exec, Decode(Load32(s.core.mem, s.pc)), s)
  }

  /** `m` steps lead from `s` to `t`, and each of them fetches inside [lo, hi). */
  ghost predicate Reaches(exec: Exec, s: State, m: nat, t: State, lo: int, hi: int)
    decreases m
  {
    if m == 0 then s == t
    else lo <= s.pc < hi && Reaches(exec, Step(exec, s), m - 1, t, lo, hi)
  }

  lemma ReachesOne(exec: Exec, s: State, t: State, lo: int, hi: int)
    requires Step(exec, s) == t && lo <= s.pc < hi
    ensures Reaches(exec, s, 1, t, lo, hi)
  {
    hide Step;
    assert Reaches(exec, t, 0, t, lo, hi);
  }

  lemma ReachesNone(exec: Exec, s: State, lo: int, hi: int)
    ensures Reaches(exec, s, 0, s, lo, hi)
  {
  }

  lemma {:induction false} ReachesTrans(exec: Exec, s: State, m: nat, t: State, k: nat, u: State, lo: int, hi: int)
    requires Reaches(exec, s, m, t, lo, hi) && Reaches(exec, t, k, u, lo, hi)
    ensures Reaches(exec, s, m + k, u, lo, hi)
    decreases m
  {
    hide Step;
    if m == 0 {
    } else {
      ReachesTrans(exec, Step(exec, s), m - 1, t, k, u, lo, hi);
    }
  }

  lemma {:induction false} ReachesWiden(exec: Exec, s: State, m: nat, t: State, lo: int, hi: int, lo': int, hi': int)
    requires Reaches(exec, s, m, t, lo, hi) && lo' <= lo && hi <= hi'
    ensures Reaches(exec, s, m, t, lo', hi')
    decreases m
  {
    hide Step;
    if m == 0 {
    } else {
      ReachesWiden(exec, Step(exec, s), m - 1, t, lo, hi, lo', hi');
    }
  }

  // --- agreement of two cores

  /** The cores agree on every register outside `d`, on the flags, and on memory outside `h`. */
  ghost predicate Agree(c: Core, c': Core, d: set<RegNum>, h: iset<int>) {
    && (forall r: RegNum :: r != 31 && r !in d ==> c.x[r] == c'.x[r])
    && c.sp == c'.sp && c.flags == c'.flags && c.v == c'.v
    && (forall a: int :: a !in h ==> c.mem(a) == c'.mem(a))
  }

  ghost predicate SameMemoryOn(h: iset<int>, m: int -> Byte, m': int -> Byte) {
    forall a: int :: a in h ==> m(a) == m'(a)
  }

  /** The words stand in memory from `base` on. */
  ghost predicate Holds(mem: int -> Byte, base: int, words: seq<Word>) {
    forall i {:trigger words[i]} :: 0 <= i < |words| ==> Load32(mem, base + 4 * i) == words[i]
  }

  ghost predicate Covers(h: iset<int>, lo: int, hi: int) {
    forall a :: lo <= a < hi ==> a in h
  }

  lemma HoldsKept(h: iset<int>, m: int -> Byte, m': int -> Byte, base: nat, words: seq<Word>)
    requires Holds(m, base, words) && SameMemoryOn(h, m, m')
    requires Covers(h, base, base + 4 * |words|) && base + 4 * |words| <= 0x1_0000_0000_0000_0000
    ensures Holds(m', base, words)
  {
    forall i {:trigger words[i]} | 0 <= i < |words|
      ensures Load32(m', base + 4 * i) == words[i]
    {
      var a := base + 4 * i;
      assert Load32(m, a) == words[i];
      assert a in h && a + 1 in h && a + 2 in h && a + 3 in h;
    }
  }

  // --- writing words

  function ByteOf(w: Word, k: int): Byte {
    (if k == 0 then w else if k == 1 then w / 0x100 else if k == 2 then w / 0x1_0000 else w / 0x100_0000) % 0x100
  }

  /** Memory after words were written. */
  function StoreWords(mem: int -> Byte, at: int, words: seq<Word>): int -> Byte {
    (a: int) => if at <= a < at + 4 * |words| then ByteOf(words[(a - at) / 4], (a - at) % 4) else mem(a)
  }

  lemma WordBytes(w: Word)
    ensures ByteOf(w, 0) + 0x100 * ByteOf(w, 1) + 0x1_0000 * ByteOf(w, 2) + 0x100_0000 * ByteOf(w, 3) == w
  {
    assert w / 0x1_0000 == w / 0x100 / 0x100 && w / 0x100_0000 == w / 0x100 / 0x100 / 0x100;
  }

  lemma StoredByte(mem: int -> Byte, at: int, words: seq<Word>, i: nat, k: int)
    requires i < |words| && 0 <= k < 4
    ensures StoreWords(mem, at, words)(at + 4 * i + k) == ByteOf(words[i], k)
  {
    assert (4 * i + k) / 4 == i && (4 * i + k) % 4 == k;
  }

  /** What was written is there. */
  lemma StoredHolds(mem: int -> Byte, at: int, words: seq<Word>)
    ensures Holds(StoreWords(mem, at, words), at, words)
  {
    hide ByteOf, StoreWords;
    forall i {:trigger words[i]} | 0 <= i < |words|
      ensures Load32(StoreWords(mem, at, words), at + 4 * i) == words[i]
    {
      StoredByte(mem, at, words, i, 0);
      StoredByte(mem, at, words, i, 1);
      StoredByte(mem, at, words, i, 2);
      StoredByte(mem, at, words, i, 3);
      WordBytes(words[i]);
    }
  }

  /** What lies elsewhere stays. */
  lemma StoredApart(mem: int -> Byte, at: int, words: seq<Word>, p: int, other: seq<Word>)
    requires Holds(mem, p, other) && (at + 4 * |words| <= p || p + 4 * |other| <= at)
    ensures Holds(StoreWords(mem, at, words), p, other)
  {
    var mem' := StoreWords(mem, at, words);
    forall i {:trigger other[i]} | 0 <= i < |other|
      ensures Load32(mem', p + 4 * i) == other[i]
    {
      var a := p + 4 * i;
      assert Load32(mem, a) == other[i];
      assert mem'(a) == mem(a) && mem'(a + 1) == mem(a + 1) && mem'(a + 2) == mem(a + 2) && mem'(a + 3) == mem(a + 3);
    }
  }
}
