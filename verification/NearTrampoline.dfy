/** The near trampoline with the forward block it gets from the near allocator. */
module NearTrampoline {
  import opened Options
  import opened A64
  import opened Codec
  import opened Assembler
  import opened Simulation
  import opened Trampoline
  import M = MemoryAllocator
  import N = NearAllocator

  /** A forward block at a place that a branch from src reaches. */
  predicate InBranchRange(src: Reg64, near: nat) {
    src - B_RANGE <= near < src + B_RANGE && near % 4 == 0 && near + 16 < 0x1_0000_0000_0000_0000
  }

  /** What was built: one branch, and a forward block in its reach when the destination is out of reach. */
  predicate Built(src: Reg64, dst: Reg64, words: seq<Word>, forward: Option<(nat, seq<Word>)>) {
    if Distance(src, dst) < B_RANGE then words == [BWord(Signed(dst - src))] && forward.None?
    else
      && forward.Some? && InBranchRange(src, forward.value.0)
      && words == [BWord(Signed(forward.value.0 - src))] && forward.value.1 == ForwardBlock(dst)
  }

  /**
    GenerateNearTrampolineBuffer, which asks for the forward block only when it needs
    one: for targets 128 MiB away or more, counted around the ends of the address space.
    It fails only for those, and only when no block is to be had near src, or close to
    address 0; and the forward block is one that the allocator has just handed out.
   */
  method BuildNear(alloc: N.NearAllocator, src: Reg64, dst: Reg64, mem: nat -> int)
      returns (words: Option<seq<Word>>, forward: Option<(nat, seq<Word>)>)
    requires alloc.Sound()
    modifies alloc, alloc.os, alloc.Allocators()`size
    ensures alloc.Sound()
    ensures words.Some? && forward.None? <==>
              || src - 0x800_0000 < dst < src + 0x800_0000
              || dst - src > 0xFFFF_FFFF_F800_0000 || src - dst > 0xFFFF_FFFF_F800_0000
    ensures words.None? ==> Distance(src, dst) >= B_RANGE && forward.None?
    ensures words.None? && src > B_RANGE ==>
              alloc.records == old(alloc.records) && old(alloc.Hopeless(16, N.MemRange(src - B_RANGE, 2 * B_RANGE), true, mem))
    ensures words.Some? ==> Built(src, dst, words.value, forward)
    ensures words.Some? && forward.None? ==> alloc.records == old(alloc.records)
    ensures words.Some? && forward.Some? ==>
              N.Handed(old(alloc.records), alloc.records, M.MemBlock(forward.value.0, 16), true, alloc.os.pageSize, mem)
  {
    hide BWord, ForwardBlock, Distance, Signed, M.PagesMatch, M.ListOk, N.OwnedDisjoint, N.LayoutOk, N.Granted, N.Handed,
         N.NearAllocator.Hopeless, N.NearAllocator.Exhausted, N.NearAllocator.NoPage, N.NearAllocator.RecordsOk, N.NearAllocator.CursorsOk,
         N.NearAllocator.Mapped, N.NearAllocator.Aligned, N.NearAllocator.AllLive;
    DistanceBelow(src, dst, B_RANGE);
    var near: Option<Reg64> := None;
    if Distance(src, dst) >= B_RANGE {
      var block := alloc.AllocNear(16, src, B_RANGE, true, mem);
      if block.addr == 0 {
        return None, None;
      }
      near := Some(block.addr);
    }
    var fwd;
    words, fwd := GenerateNearTrampoline(src, dst, near);
    forward := if fwd.Some? then Some((near.value, fwd.value)) else None;
  }

  /**
    Whatever was built lands on dst, from any state in which the code is in place, and
    changes at most the scratch register.
   */
  lemma BuiltLands(exec: Exec, c: Core, src: Reg64, dst: Reg64, words: seq<Word>, forward: Option<(nat, seq<Word>)>)
      returns (s: State, t: State)
    requires Built(src, dst, words, forward) && src % 4 == 0 && dst % 4 == 0 && Placed(c, src, words)
    requires forward.Some? ==> Placed(c, forward.value.0, forward.value.1)
    ensures Step(exec, State(src, c)) == s
    ensures forward.None? ==> s == t == State(dst, c)
    ensures forward.Some? ==>
      && s == State(forward.value.0, c) && Reaches(exec, s, 2, t, s.pc, s.pc + 8)
      && t == State(dst, Set(c, SCRATCH, dst))
  {
    hide BWord, ForwardBlock, Step, Reaches, Set, Placed;
    if forward.None? {
      DistanceAligned(src, dst);
      NearTrampolineLands(exec, c, src, dst);
      s := Step(exec, State(src, c));
      t := s;
    } else {
      s, t := ForwardTrampolineLands(exec, c, src, dst, forward.value.0);
    }
  }

  lemma DistanceAligned(src: Reg64, dst: Reg64)
    requires src % 4 == 0 && dst % 4 == 0
    ensures Signed(dst - src) % 4 == 0
  {
    hide Wrap;
    WrapAligned(dst - src);
  }

  lemma WrapAligned(x: int)
    requires x % 4 == 0
    ensures Wrap(x) % 4 == 0
  {
    var q, y := x / 0x1_0000_0000_0000_0000, x / 4;
    assert x == 4 * y;
    assert Wrap(x) == 4 * (y - q * 0x4000_0000_0000_0000);
    FourTimes(y - q * 0x4000_0000_0000_0000);
  }

  lemma FourTimes(y: int)
    ensures 4 * y % 4 == 0
  {
  }
}
