/**
  One hooked function, in one memory: the trampoline stands over the function's first
  words and the relocated block somewhere else.  Calls of the function reach the
  replacement, and calls of the block do what the function did.
 */
module HookedFunction {
  import opened Options
  import opened A64
  import opened Codec
  import opened Assembler
  import opened Relocator
  import opened Linking
  import opened Simulation
  import opened Trampoline
  import Near = NearTrampoline

  /** The trampoline of the default kind, as it is generated. */
  ghost predicate JumpBuilt(from: Reg64, to: Reg64, jump: seq<Word>) {
    && (Distance(from, to) < ADRP_RANGE ==> jump == AdrpAddBr(from, to))
    && (Distance(from, to) >= ADRP_RANGE ==> |jump| == 4 && FragLinked(jump, 0, JumpThrough([], to, BrWord(SCRATCH))))
  }

  /** The two addresses for which ADRP+ADD+BR works, or another encoding is chosen. */
  predicate JumpReaches(from: Reg64, to: Reg64) {
    Distance(from, to) < ADRP_RANGE ==> from % 0x1000 + Signed(to - from) < ADRP_RANGE
  }

  /** BuildRouting: the trampoline first, then as many words as it covers are relocated. */
  method BuildHook(code: seq<Word>, from: Reg64, to: Reg64) returns (jump: seq<Word>, block: Option<seq<Word>>)
    requires |code| >= 4
    ensures 3 <= |jump| <= 4 && JumpBuilt(from, to, jump)
    ensures |jump| == 3 <==>
              || from - 0x1_0000_0000 < to < from + 0x1_0000_0000
              || to - from > 0xFFFF_FFFF_0000_0000 || from - to > 0xFFFF_FFFF_0000_0000
    ensures block.Some? <==> Supported(code[..|jump|])
    ensures block.Some? ==> block.value == Linked(code[..|jump|], from)
  {
    hide Distance, Signed, FragLinked, AdrpWord, AddWord, BrWord, FragOf, LinkFrom, Block, Supported;
    jump := GenerateNormalTrampoline(from, to);
    assert (4 * |jump| + 3) / 4 == |jump|;
    var r := Relocate(code, from, 4 * |jump|, true);
    block := if r.Some? then Some(r.value.0) else None;
  }

  /** What a hook puts into memory: the jump, the relocated block and, for a near jump, its forward block. */
  datatype Layout = Layout(from: nat, jump: seq<Word>, base: nat, block: seq<Word>, near: nat, forward: seq<Word>)

  predicate Apart(a: nat, s: seq<Word>, b: nat, t: seq<Word>) {
    a + 4 * |s| <= b || b + 4 * |t| <= a
  }

  predicate Within(a: int, lo: nat, n: nat) {
    lo <= a < lo + 4 * n
  }

  /** The bytes that differ between the two worlds. */
  ghost function Hidden(l: Layout): iset<int> {
    iset a: int | Within(a, l.from, |l.jump|) || Within(a, l.base, |l.block|) || Within(a, l.near, |l.forward|)
  }

  function Hooked(c: Core, l: Layout): Core {
    c.(mem := StoreWords(StoreWords(StoreWords(c.mem, l.base, l.block), l.near, l.forward), l.from, l.jump))
  }

  ghost predicate Fits(l: Layout) {
    && Apart(l.from, l.jump, l.base, l.block) && Apart(l.from, l.jump, l.near, l.forward) && Apart(l.near, l.forward, l.base, l.block)
    && l.from + 4 * |l.jump| < 0x1_0000_0000_0000_0000 && l.base + 4 * |l.block| <= 0x1_0000_0000_0000_0000
    && l.near + 4 * |l.forward| <= 0x1_0000_0000_0000_0000
  }

  lemma HookedAgrees(c: Core, l: Layout)
    ensures Agree(c, Hooked(c, l), {SCRATCH}, Hidden(l))
  {
    forall a: int | a !in Hidden(l)
      ensures c.mem(a) == Hooked(c, l).mem(a)
    {
      assert !Within(a, l.from, |l.jump|) && !Within(a, l.base, |l.block|) && !Within(a, l.near, |l.forward|);
    }
  }

  lemma HiddenCovers(l: Layout)
    ensures Covers(Hidden(l), l.from, l.from + 4 * |l.jump|) && Covers(Hidden(l), l.base, l.base + 4 * |l.block|)
  {
    assert forall a: int :: l.from <= a < l.from + 4 * |l.jump| ==> Within(a, l.from, |l.jump|);
    assert forall a: int :: l.base <= a < l.base + 4 * |l.block| ==> Within(a, l.base, |l.block|);
  }

  lemma HookedHolds(c: Core, l: Layout)
    requires Fits(l)
    ensures var mem := Hooked(c, l).mem; Holds(mem, l.from, l.jump) && Holds(mem, l.base, l.block) && Holds(mem, l.near, l.forward)
  {
    hide Holds, StoreWords;
    var mem := StoreWords(c.mem, l.base, l.block);
    var mem' := StoreWords(mem, l.near, l.forward);
    StoredHolds(c.mem, l.base, l.block);
    StoredHolds(mem, l.near, l.forward);
    StoredHolds(mem', l.from, l.jump);
    StoredApart(mem, l.near, l.forward, l.base, l.block);
    StoredApart(mem', l.from, l.jump, l.base, l.block);
    StoredApart(mem', l.from, l.jump, l.near, l.forward);
  }

  /** The trampoline in place takes the function to its replacement. */
  lemma JumpLands(exec: Exec, c: Core, from: Reg64, to: Reg64, jump: seq<Word>) returns (n: nat, u: State)
    requires Placed(c, from, jump) && JumpBuilt(from, to, jump) && JumpReaches(from, to) && from + 12 < 0x1_0000_0000_0000_0000
    ensures Reaches(exec, State(from, c), n, u, from, from + 12) && u == State(to, Set(c, SCRATCH, to))
  {
    hide Reaches, Placed, Distance, Signed, FragLinked, AdrpAddBr, Set, JumpThrough;
    if Distance(from, to) < ADRP_RANGE {
      u := AdrpTrampolineLands(exec, c, from, to);
      n := 3;
    } else {
      u := LiteralTrampolineLands(exec, c, from, to, jump);
      ReachesWiden(exec, State(from, c), 2, u, from, from + 8, from, from + 12);
      n := 2;
    }
  }

  /** In the hooked memory the block does what the unhooked function did. */
  ghost predicate BlockWorks(exec: Exec, c: Core, head: seq<Word>, l: Layout, k: nat, s: State, m: nat, t: State)
    requires Supported(head) && l.from < 0x1_0000_0000_0000_0000 && l.base < 0x1_0000_0000_0000_0000
  {
    && Reaches(exec, State(l.from, c), k, s, l.from, l.from + 4 * |head|)
    && Reaches(exec, State(l.base, Hooked(c, l)), m, t, l.base, CodeEnd(head, l.from, l.base))
    && s.pc == t.pc && Agree(s.core, t.core, {SCRATCH, LR}, Hidden(l))
  }

  lemma BlockRuns(exec: Exec, c: Core, head: seq<Word>, l: Layout) returns (k: nat, s: State, m: nat, t: State)
    requires Fits(l) && |l.jump| == |head| <= 4 && Supported(head)
    requires l.block == Linked(head, l.from) && Holds(c.mem, l.from, head)
    requires RunOk(exec, head, l.from, 0, c, {SCRATCH}, Hidden(l))
    ensures l.base < 0x1_0000_0000_0000_0000 && BlockWorks(exec, c, head, l, k, s, m, t)
  {
    hide Reaches, Holds, RunOk, Linked, Supported, Agree, Hooked, Off, Hidden, Covers;
    HookedHolds(c, l);
    HookedAgrees(c, l);
    HiddenCovers(l);
    var v := World(exec, l.base, l.block, {SCRATCH}, Hidden(l));
    k, s, m, t := RelocationFaithful(v, head, l.from, 0, c, Hooked(c, l));
    OffZero(head, l.from);
    assert v.d + {LR} == {SCRATCH, LR};
  }

  /**
    A hook as it is built and placed, in one memory.  From the function's address the
    machine reaches the replacement with only the scratch register changed.  From the
    block it leaves for the same address as the unhooked function, in a corresponding
    state.
   */
  lemma HookWorks(exec: Exec, c: Core, to: Reg64, head: seq<Word>, l: Layout) returns (n: nat, u: State, k: nat, s: State, m: nat, t: State)
    requires Fits(l) && |l.jump| == |head| <= 4 && Supported(head) && l.forward == [] && l.from + 12 < 0x1_0000_0000_0000_0000
    requires JumpBuilt(l.from, to, l.jump) && JumpReaches(l.from, to)
    requires l.block == Linked(head, l.from) && Holds(c.mem, l.from, head)
    requires RunOk(exec, head, l.from, 0, c, {SCRATCH}, Hidden(l))
    ensures l.base < 0x1_0000_0000_0000_0000 && BlockWorks(exec, c, head, l, k, s, m, t)
    ensures Reaches(exec, State(l.from, Hooked(c, l)), n, u, l.from, l.from + 12)
    ensures u == State(to, Set(Hooked(c, l), SCRATCH, to))
  {
    hide Reaches, Holds, RunOk, Linked, Supported, Agree, Hooked, BlockWorks, JumpBuilt, JumpReaches, Set, Hidden;
    HookedHolds(c, l);
    n, u := JumpLands(exec, Hooked(c, l), l.from, to, l.jump);
    k, s, m, t := BlockRuns(exec, c, head, l);
  }

  /** The same for a near trampoline, which covers one word and may need a forward block. */
  lemma NearHookWorks(exec: Exec, c: Core, to: Reg64, head: seq<Word>, l: Layout) returns (n: nat, u: State, k: nat, s: State, m: nat, t: State)
    requires Fits(l) && |l.jump| == |head| == 1 && Supported(head)
    requires Near.Built(l.from, to, l.jump, if l.forward == [] then None else Some((l.near, l.forward)))
    requires l.from % 4 == 0 && to % 4 == 0
    requires l.block == Linked(head, l.from) && Holds(c.mem, l.from, head)
    requires RunOk(exec, head, l.from, 0, c, {SCRATCH}, Hidden(l))
    ensures l.base < 0x1_0000_0000_0000_0000 && BlockWorks(exec, c, head, l, k, s, m, t)
    ensures var hooked := Hooked(c, l);
      if l.forward == [] then Step(exec, State(l.from, hooked)) == State(to, hooked)
      else
        && l.near < 0x1_0000_0000_0000_0000 && Step(exec, State(l.from, hooked)) == State(l.near, hooked)
        && Reaches(exec, State(l.near, hooked), n, u, l.near, l.near + 8) && u == State(to, Set(hooked, SCRATCH, to))
  {
    hide Reaches, Holds, RunOk, Linked, Supported, Agree, Hooked, BlockWorks, Step, Set, Hidden;
    HookedHolds(c, l);
    n := 2;
    var v;
    v, u := Near.BuiltLands(exec, Hooked(c, l), l.from, to, l.jump, if l.forward == [] then None else Some((l.near, l.forward)));
    k, s, m, t := BlockRuns(exec, c, head, l);
  }

  lemma OffZero(head: seq<Word>, origin: Reg64)
    requires Supported(head)
    ensures Off(head, origin, 0) == 0
  {
  }
}
