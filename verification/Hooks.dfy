/**
  The hook lifecycle over patched code memory: an entry keeps the bytes it
  overwrote, a hook that fails leaves no trace, and a destroyed entry restores its
  bytes unless the patcher refuses.  Trampolines, relocated blocks and the answers of
  the code patcher are parameters; the patcher is all-or-nothing (module CodePatch).
 */
module Hooks {
  import opened Options
  import opened CodePatch

  datatype Entry = Entry(id: nat, addr: nat, size: nat, tramp: seq<int>, original: seq<int>, relocated: nat)

  /** What relocation yields: the block's address and the number of head bytes it consumed. */
  datatype Relocated = Relocated(block: nat, size: nat)

  function Bytes(image: Image, addr: nat, n: nat): (s: seq<int>)
    ensures |s| == n && forall k :: 0 <= k < n ==> s[k] == image(addr + k)
  {
    seq(n, k requires 0 <= k < n => image(addr + k))
  }

  predicate Apart(a: nat, n: nat, b: nat, m: nat) {
    a + n <= b || b + m <= a
  }

  predicate EntryOk(e: Entry) {
    e.size > 0 && |e.tramp| <= e.size && |e.original| == e.size
  }

  /** Address `a` is under the trampoline of some entry. */
  predicate Covered(entries: seq<Entry>, a: nat) {
    exists i {:trigger entries[i]} :: 0 <= i < |entries| && entries[i].addr <= a < entries[i].addr + |entries[i].tramp|
  }

  /** The memory is the pristine image with the trampolines of the entries over it. */
  ghost predicate Overlaid(pristine: Image, image: Image, entries: seq<Entry>) {
    && (forall i, k {:trigger entries[i], image(k)} :: 0 <= i < |entries| && entries[i].addr <= k < entries[i].addr + |entries[i].tramp| ==>
          image(k) == entries[i].tramp[k - entries[i].addr])
    && (forall a: nat {:trigger image(a)} :: !Covered(entries, a) ==> image(a) == pristine(a))
  }

  ghost predicate EntriesOk(pristine: Image, entries: seq<Entry>) {
    && (forall i {:trigger entries[i]} :: 0 <= i < |entries| ==>
          EntryOk(entries[i]) && entries[i].original == Bytes(pristine, entries[i].addr, entries[i].size))
    && (forall i, j {:trigger entries[i], entries[j]} :: 0 <= i < j < |entries| ==>
          Apart(entries[i].addr, entries[i].size, entries[j].addr, entries[j].size) && entries[i].relocated != entries[j].relocated)
  }

  function Blocks(entries: seq<Entry>): set<nat> {
    set e <- entries :: e.relocated
  }

  /** The range is apart from every active entry. */
  predicate Clear(entries: seq<Entry>, addr: nat, n: nat) {
    forall i {:trigger entries[i]} :: 0 <= i < |entries| ==> Apart(entries[i].addr, entries[i].size, addr, n)
  }

  lemma CoverExtends(entries: seq<Entry>, e: Entry, a: nat)
    ensures Covered(entries, a) ==> Covered(entries + [e], a)
  {
    if Covered(entries, a) {
      var i :| 0 <= i < |entries| && entries[i].addr <= a < entries[i].addr + |entries[i].tramp|;
      assert (entries + [e])[i] == entries[i];
    }
  }

  lemma HookOverlays(pristine: Image, image: Image, entries: seq<Entry>, e: Entry)
    requires EntriesOk(pristine, entries) && Overlaid(pristine, image, entries)
    requires EntryOk(e) && Clear(entries, e.addr, e.size)
    ensures Overlaid(pristine, Overlay(image, e.addr, e.tramp), entries + [e])
  {
    var image', entries' := Overlay(image, e.addr, e.tramp), entries + [e];
    assert entries'[|entries|] == e;
    forall i, k {:trigger entries'[i], image'(k)} | 0 <= i < |entries'| && entries'[i].addr <= k < entries'[i].addr + |entries'[i].tramp|
      ensures image'(k) == entries'[i].tramp[k - entries'[i].addr]
    {
      if i < |entries| {
        assert entries'[i] == entries[i] && EntryOk(entries[i]) && Apart(entries[i].addr, entries[i].size, e.addr, e.size);
        assert image(k) == image'(k);
      }
    }
    forall a: nat {:trigger image'(a)} | !Covered(entries', a)
      ensures image'(a) == pristine(a)
    {
      CoverExtends(entries, e, a);
    }
  }

  /** The bytes under a clear range are still the pristine ones. */
  lemma ClearIsPristine(pristine: Image, image: Image, entries: seq<Entry>, addr: nat, n: nat)
    requires EntriesOk(pristine, entries) && Overlaid(pristine, image, entries) && Clear(entries, addr, n)
    ensures Bytes(image, addr, n) == Bytes(pristine, addr, n)
  {
    forall k {:trigger Bytes(image, addr, n)[k]} | 0 <= k < n
      ensures Bytes(image, addr, n)[k] == Bytes(pristine, addr, n)[k]
    {
      assert !Covered(entries, addr + k);
    }
  }

  function Without<T>(s: seq<T>, i: nat): (r: seq<T>)
    requires i < |s|
    ensures |r| == |s| - 1
    ensures forall j {:trigger r[j]} :: 0 <= j < |r| ==> r[j] == if j < i then s[j] else s[j + 1]
  {
    s[..i] + s[i + 1..]
  }

  /** Writing an entry's backup over its range leaves exactly the other trampolines. */
  lemma DestroyOverlays(pristine: Image, image: Image, entries: seq<Entry>, i: nat)
    requires EntriesOk(pristine, entries) && Overlaid(pristine, image, entries) && i < |entries|
    ensures Overlaid(pristine, Overlay(image, entries[i].addr, entries[i].original), Without(entries, i))
  {
    hide Covered;
    var e, rest := entries[i], Without(entries, i);
    var image' := Overlay(image, e.addr, e.original);
    forall j, k {:trigger rest[j], image'(k)} | 0 <= j < |rest| && rest[j].addr <= k < rest[j].addr + |rest[j].tramp|
      ensures image'(k) == rest[j].tramp[k - rest[j].addr]
    {
      var o := if j < i then j else j + 1;
      assert rest[j] == entries[o];
      assert Apart(e.addr, e.size, entries[o].addr, entries[o].size);
      assert image(k) == image'(k);
    }
    forall a: nat {:trigger image'(a)} | !Covered(rest, a)
      ensures image'(a) == pristine(a)
    {
      if e.addr <= a < e.addr + e.size {
        assert e.original[a - e.addr] == pristine(e.addr + (a - e.addr));
      } else {
        CoverRest(entries, i, a);
        assert image(a) == pristine(a);
      }
    }
  }

  lemma CoverRest(entries: seq<Entry>, i: nat, a: nat)
    requires i < |entries| && !(entries[i].addr <= a < entries[i].addr + |entries[i].tramp|)
    ensures Covered(entries, a) ==> Covered(Without(entries, i), a)
  {
    if Covered(entries, a) {
      var j :| 0 <= j < |entries| && entries[j].addr <= a < entries[j].addr + |entries[j].tramp|;
      assert Without(entries, i)[if j < i then j else j - 1] == entries[j];
    }
  }

  lemma EntriesWithout(pristine: Image, entries: seq<Entry>, i: nat)
    requires EntriesOk(pristine, entries) && i < |entries|
    ensures EntriesOk(pristine, Without(entries, i))
  {
  }

  /** The image that the active hooks lie over: pristine, with the trampolines that could not be taken back. */
  ghost function Base(pristine: Image, stale: seq<Entry>): Image {
    if stale == [] then pristine
    else
      var last := stale[|stale| - 1];
      Overlay(Base(pristine, stale[..|stale| - 1]), last.addr, last.tramp)
  }

  lemma BaseExtends(pristine: Image, stale: seq<Entry>, e: Entry)
    ensures Base(pristine, stale + [e]) == Overlay(Base(pristine, stale), e.addr, e.tramp)
  {
    assert (stale + [e])[..|stale|] == stale;
  }

  lemma {:induction false} BaseOutside(pristine: Image, stale: seq<Entry>, a: nat)
    requires !Covered(stale, a)
    ensures Base(pristine, stale)(a) == pristine(a)
  {
    if stale == [] {
    } else {
      var n := |stale| - 1;
      assert stale == stale[..n] + [stale[n]];
      CoverExtends(stale[..n], stale[n], a);
      BaseOutside(pristine, stale[..n], a);
    }
  }

  /** An entry whose bytes could not be written back stays in memory, under the other hooks. */
  lemma RefusedOverlays(base: Image, image: Image, entries: seq<Entry>, i: nat)
    requires EntriesOk(base, entries) && Overlaid(base, image, entries) && i < |entries|
    ensures Overlaid(Overlay(base, entries[i].addr, entries[i].tramp), image, Without(entries, i))
  {
    hide EntriesOk, Covered;
    var e, rest := entries[i], Without(entries, i);
    var base' := Overlay(base, e.addr, e.tramp);
    forall j, k {:trigger rest[j], image(k)} | 0 <= j < |rest| && rest[j].addr <= k < rest[j].addr + |rest[j].tramp|
      ensures image(k) == rest[j].tramp[k - rest[j].addr]
    {
      var o := if j < i then j else j + 1;
      assert rest[j] == entries[o];
    }
    forall a: nat {:trigger image(a)} | !Covered(rest, a)
      ensures image(a) == base'(a)
    {
      if e.addr <= a < e.addr + |e.tramp| {
        assert entries[i] == e;
      } else {
        CoverRest(entries, i, a);
      }
    }
  }

  /** The other entries' backups are those of the new base as well. */
  lemma RefusedEntries(base: Image, entries: seq<Entry>, i: nat)
    requires EntriesOk(base, entries) && i < |entries|
    ensures EntriesOk(Overlay(base, entries[i].addr, entries[i].tramp), Without(entries, i))
  {
    var e, rest := entries[i], Without(entries, i);
    var base' := Overlay(base, e.addr, e.tramp);
    EntriesWithout(base, entries, i);
    forall j {:trigger rest[j]} | 0 <= j < |rest|
      ensures rest[j].original == Bytes(base', rest[j].addr, rest[j].size)
    {
      var o := if j < i then j else j + 1;
      assert rest[j] == entries[o] && EntryOk(e);
      assert Apart(e.addr, e.size, rest[j].addr, rest[j].size);
      assert forall k :: rest[j].addr <= k < rest[j].addr + rest[j].size ==> base'(k) == base(k);
    }
  }

  /** Leaving a trampoline behind changes nothing exactly when it equals the bytes it lies over. */
  lemma StaleHarmless(base: Image, e: Entry)
    requires EntryOk(e) && e.original == Bytes(base, e.addr, e.size)
    ensures SameImage(Overlay(base, e.addr, e.tramp), base) <==> e.tramp == e.original[..|e.tramp|]
  {
    if SameImage(Overlay(base, e.addr, e.tramp), base) {
      SameBytes(base, e.addr, e.tramp);
      assert Bytes(base, e.addr, |e.tramp|) == e.original[..|e.tramp|];
    }
    if e.tramp == e.original[..|e.tramp|] {
      assert Bytes(base, e.addr, |e.tramp|) == e.original[..|e.tramp|];
      OwnBytes(base, e.addr, |e.tramp|);
    }
  }

  lemma SameBytes(base: Image, addr: nat, bytes: seq<int>)
    requires SameImage(Overlay(base, addr, bytes), base)
    ensures bytes == Bytes(base, addr, |bytes|)
  {
    forall k | 0 <= k < |bytes|
      ensures bytes[k] == base(addr + k)
    {
      assert Overlay(base, addr, bytes)(addr + k) == base(addr + k);
    }
  }

  lemma OwnBytes(base: Image, addr: nat, n: nat)
    ensures SameImage(Overlay(base, addr, Bytes(base, addr, n)), base)
  {
    forall a: nat
      ensures Overlay(base, addr, Bytes(base, addr, n))(a) == base(a)
    {
      if addr <= a < addr + n {
        assert Bytes(base, addr, n)[a - addr] == base(addr + (a - addr));
      }
    }
  }

  /** The first entry whose patched range starts at the address. */
  function IndexOf(entries: seq<Entry>, addr: nat): (i: nat)
    ensures i <= |entries| && (i < |entries| ==> entries[i].addr == addr)
    ensures forall j {:trigger entries[j]} :: 0 <= j < i ==> entries[j].addr != addr
  {
    if entries == [] then 0
    else if entries[0].addr == addr then 0
    else
      assert forall j {:trigger entries[j]} :: 0 < j < |entries| ==> entries[j] == entries[1..][j - 1];
      1 + IndexOf(entries[1..], addr)
  }

  class Interceptor {
    var image: Image
    var entries: seq<Entry>
    var nextId: nat
    /** The executable blocks that hold relocated code. */
    var blocks: set<nat>
    ghost const pristine: Image
    /** The removed entries whose bytes the patcher refused to write back. */
    ghost var stale: seq<Entry>

    /** What every operation keeps, whether or not hooks overlap. */
    ghost predicate Sized()
      reads this
    {
      forall i {:trigger entries[i]} :: 0 <= i < |entries| ==> EntryOk(entries[i])
    }

    /** Hooks are apart, and memory is the base image under their trampolines. */
    ghost predicate Valid()
      reads this
    {
      var base := Base(pristine, stale);
      EntriesOk(base, entries) && Overlaid(base, image, entries) && blocks == Blocks(entries)
    }

    constructor (image: Image)
      ensures Valid() && this.image == image && pristine == image && entries == [] && stale == [] && nextId == 1
    {
      this.image, this.pristine, entries, nextId, blocks, stale := image, image, [], 1, {}, [];
    }

    lemma ValidSized()
      requires Valid()
      ensures Sized()
    {
    }

    /** Interceptor::find: the first entry whose patched range starts at the address. */
    method Find(addr: nat) returns (i: nat)
      ensures i == IndexOf(entries, addr)
    {
      i := 0;
      while i < |entries| && entries[i].addr != addr
        invariant 0 <= i <= |entries| && forall j {:trigger entries[j]} :: 0 <= j < i ==> entries[j].addr != addr
      {
        i := i + 1;
      }
    }

    /** DobbyCodePatch as CodePatch.Process.Patch promises it: all of the bytes or none. */
    method Patch(addr: nat, bytes: seq<int>, granted: bool) returns (ok: bool)
      modifies this`image
      ensures ok == granted && image == if granted then Overlay(old(image), addr, bytes) else old(image)
    {
      ok := granted;
      if granted {
        image := Overlay(image, addr, bytes);
      }
    }

    /**
      DobbyHookEx.  `tramp` and `reloc` are what the generators return, `granted` is
      the patcher's answer; the block is new.  Hooking succeeds exactly when the address
      is valid and not yet hooked and every stage works; otherwise memory, entries and
      blocks are as before.  Nothing stops a range that overlaps another hook's; the
      invariant is kept when it does not.
     */
    method Hook(addr: nat, replacement: nat, tramp: Option<seq<int>>, reloc: Option<Relocated>, granted: bool, grantedAgain: bool)
      returns (ok: bool)
      requires Sized()
      requires reloc.Some? ==> reloc.value.block !in blocks && reloc.value.size > 0
      requires tramp.Some? && reloc.Some? ==> tramp.value != [] && |tramp.value| <= reloc.value.size
      modifies `image, `entries, `blocks, `nextId
      ensures Sized()
      ensures ok <==> addr != 0 && replacement != 0 && IndexOf(old(entries), addr) == |old(entries)|
                      && tramp.Some? && reloc.Some? && granted
      ensures !ok ==> SameImage(image, old(image)) && entries == old(entries) && blocks == old(blocks)
      ensures nextId == old(nextId) + if addr != 0 && replacement != 0 && IndexOf(old(entries), addr) == |old(entries)| then 1 else 0
      ensures ok ==>
        var size := reloc.value.size;
        && image == Overlay(old(image), addr, tramp.value)
        && entries == old(entries)
             + [Entry(old(nextId), addr, size, tramp.value, Bytes(old(image), addr, size), reloc.value.block)]
        && blocks == old(blocks) + {reloc.value.block}
      ensures old(Valid()) && (ok ==> Clear(old(entries), addr, reloc.value.size)) ==> Valid()
    {
      hide EntriesOk, Overlaid, IndexOf;
      if addr == 0 || replacement == 0 {
        return false;
      }
      var i := Find(addr);
      if i < |entries| {
        return false;
      }
      var id := nextId;
      nextId := nextId + 1;
      if tramp.None? || reloc.None? {
        return false;
      }
      var size := reloc.value.size;
      var entry := Entry(id, addr, size, tramp.value, Bytes(image, addr, size), reloc.value.block);
      blocks := blocks + {reloc.value.block};
      ghost var clear, base := old(Valid()) && Clear(entries, addr, size), Base(pristine, stale);
      if clear {
        ClearIsPristine(base, image, entries, addr, size);
        HookOverlays(base, image, entries, entry);
      }
      ok := Patch(addr, tramp.value, granted);
      if !ok {
        // the backup is written over itself, granted or not; then the block is released
        var again := Patch(addr, entry.original, grantedAgain);
        assert SameImage(image, old(image));
        if old(Valid()) {
          StillOverlaid(base, old(image), image, entries);
        }
        blocks := blocks - {reloc.value.block};
        return false;
      }
      if clear {
        EntriesExtend(base, entries, entry);
        BlocksExtend(entries, entry);
      }
      entries := entries + [entry];
    }

    /**
      Interceptor::remove followed by the entry's destructor.  The backup is written back
      if the patcher grants it; the entry and its block are gone either way.  The image
      under the other hooks stays as it was exactly when the write is granted, nothing was
      found, or the trampoline equals the bytes it lay over.
     */
    method Destroy(addr: nat, granted: bool) returns (found: bool)
      requires Sized()
      modifies `image, `entries, `blocks, `stale
      ensures Sized()
      ensures var i := IndexOf(old(entries), addr);
        && found == (i < |old(entries)|)
        && (!found ==> image == old(image) && entries == old(entries) && blocks == old(blocks) && stale == old(stale))
        && (found ==>
              var e := old(entries)[i];
              && image == (if granted then Overlay(old(image), e.addr, e.original) else old(image))
              && entries == Without(old(entries), i) && blocks == old(blocks) - {e.relocated}
              && stale == (if granted then old(stale) else old(stale) + [e]))
      ensures old(Valid()) ==> Valid()
      ensures old(Valid()) ==>
        var i := IndexOf(old(entries), addr);
        SameImage(Base(pristine, stale), Base(pristine, old(stale))) <==>
          granted || !found || old(entries)[i].tramp == old(entries)[i].original[..|old(entries)[i].tramp|]
    {
      hide EntriesOk, Overlaid, Covered, IndexOf, Base;
      var i := Find(addr);
      if i == |entries| {
        return false;
      }
      var e := entries[i];
      ghost var base := Base(pristine, stale);
      if old(Valid()) {
        Destroyed(base, image, entries, i);
      }
      BaseExtends(pristine, stale, e);
      entries := Without(entries, i);
      var ok := Patch(e.addr, e.original, granted);
      if !ok {
        stale := stale + [e];
      }
      blocks := blocks - {e.relocated};
      found := true;
    }
  }

  /** What removing an entry leaves, granted and refused. */
  lemma Destroyed(base: Image, image: Image, entries: seq<Entry>, i: nat)
    requires EntriesOk(base, entries) && Overlaid(base, image, entries) && i < |entries|
    ensures var e, rest := entries[i], Without(entries, i);
      && EntryOk(e) && Blocks(rest) == Blocks(entries) - {e.relocated}
      && EntriesOk(base, rest) && Overlaid(base, Overlay(image, e.addr, e.original), rest)
      && EntriesOk(Overlay(base, e.addr, e.tramp), rest) && Overlaid(Overlay(base, e.addr, e.tramp), image, rest)
      && (SameImage(Overlay(base, e.addr, e.tramp), base) <==> e.tramp == e.original[..|e.tramp|])
  {
    EntryFacts(base, entries, i);
    hide EntriesOk, Overlaid, Blocks, Without, Overlay, SameImage;
    DestroyOverlays(base, image, entries, i);
    EntriesWithout(base, entries, i);
    BlocksWithout(base, entries, i);
    RefusedOverlays(base, image, entries, i);
    RefusedEntries(base, entries, i);
    StaleHarmless(base, entries[i]);
  }

  lemma EntryFacts(base: Image, entries: seq<Entry>, i: nat)
    requires EntriesOk(base, entries) && i < |entries|
    ensures EntryOk(entries[i]) && entries[i].original == Bytes(base, entries[i].addr, entries[i].size)
  {
  }

  /** Once every hook is gone and no removal was refused, so is every change. */
  lemma PristineWhenEmpty(h: Interceptor)
    requires h.Valid() && h.entries == [] && h.stale == []
    ensures SameImage(h.image, h.pristine) && h.blocks == {}
  {
    forall a: nat
      ensures h.image(a) == h.pristine(a)
    {
      assert !Covered(h.entries, a);
    }
  }

  /** A refused removal that leaves a changed byte and no entry. */
  method RefusedRemovalLeaves() returns (h: Interceptor)
    ensures h.Valid() && h.entries == [] && h.image(100) == 1 && h.pristine(100) == 0
  {
    h := new Interceptor((a: nat) => 0);
    h.ValidSized();
    var hooked := h.Hook(100, 5, Some([1]), Some(Relocated(9, 1)), true, true);
    var _ := h.Destroy(100, false);
  }

  // --- whole runs

  datatype Op =
    | HookOp(addr: nat, replacement: nat, tramp: Option<seq<int>>, reloc: Option<Relocated>, granted: bool, grantedAgain: bool)
    | DestroyOp(addr: nat, granted: bool)

  /** What a hook must respect: a new block, a trampoline that fits, a range clear of other hooks. */
  predicate Allowed(op: Op, entries: seq<Entry>, blocks: set<nat>) {
    op.HookOp? && op.reloc.Some? ==>
      && op.reloc.value.block !in blocks && op.reloc.value.size > 0 && Clear(entries, op.addr, op.reloc.value.size)
      && (op.tramp.Some? ==> op.tramp.value != [] && |op.tramp.value| <= op.reloc.value.size)
  }

  /** What a run has made: the hooks, the next identifier, the blocks, and what could not be taken back. */
  datatype Ledger = Ledger(entries: seq<Entry>, nextId: nat, blocks: set<nat>, stale: seq<Entry>)

  ghost function LedgerOf(h: Interceptor): Ledger
    reads h
  {
    Ledger(h.entries, h.nextId, h.blocks, h.stale)
  }

  /** One operation; one that is not allowed is left out. */
  ghost function AfterOp(pristine: Image, was: Ledger, op: Op): Ledger {
    var i := IndexOf(was.entries, op.addr);
    if !Allowed(op, was.entries, was.blocks) then was
    else
      match op
      case HookOp(addr, replacement, tramp, reloc, granted, _) =>
        if addr == 0 || replacement == 0 || i < |was.entries| then was
        else if tramp.None? || reloc.None? || !granted then was.(nextId := was.nextId + 1)
        else
          var size, block := reloc.value.size, reloc.value.block;
          var e := Entry(was.nextId, addr, size, tramp.value, Bytes(Base(pristine, was.stale), addr, size), block);
          Ledger(was.entries + [e], was.nextId + 1, was.blocks + {block}, was.stale)
      case DestroyOp(addr, granted) =>
        if i == |was.entries| then was
        else
          var e := was.entries[i];
          Ledger(Without(was.entries, i), was.nextId, was.blocks - {e.relocated}, if granted then was.stale else was.stale + [e])
  }

  ghost function AfterOps(pristine: Image, was: Ledger, ops: seq<Op>): Ledger {
    if ops == [] then was else AfterOp(pristine, AfterOps(pristine, was, ops[..|ops| - 1]), ops[|ops| - 1])
  }

  /**
    Any interleaving of hooks and removals, failed and refused ones included: memory is
    always the pristine image under the trampolines that could not be taken back and the
    active ones, and every address under neither is as it was.
   */
  method Run(h: Interceptor, ops: seq<Op>)
    requires h.Valid()
    modifies h
    ensures h.Valid() && old(h.stale) <= h.stale
    ensures LedgerOf(h) == AfterOps(h.pristine, old(LedgerOf(h)), ops)
    ensures forall a: nat :: !Covered(h.entries, a) && !Covered(h.stale, a) ==> h.image(a) == h.pristine(a)
    ensures (forall op <- ops :: op.DestroyOp? ==> op.granted) ==> h.stale == old(h.stale)
  {
    hide EntriesOk, Base, AfterOp;
    var i := 0;
    while i < |ops|
      invariant 0 <= i <= |ops| && h.Valid() && old(h.stale) <= h.stale
      invariant LedgerOf(h) == AfterOps(h.pristine, old(LedgerOf(h)), ops[..i])
      invariant (forall op <- ops[..i] :: op.DestroyOp? ==> op.granted) ==> h.stale == old(h.stale)
    {
      assert ops[..i + 1] == ops[..i] + [ops[i]] && ops[..i + 1][..i] == ops[..i];
      RunOne(h, ops[i]);
      i := i + 1;
    }
    assert ops[..i] == ops;
    forall a: nat | !Covered(h.entries, a) && !Covered(h.stale, a)
      ensures h.image(a) == h.pristine(a)
    {
      BaseOutside(h.pristine, h.stale, a);
    }
  }

  method RunOne(h: Interceptor, op: Op)
    requires h.Valid()
    modifies h
    ensures h.Valid() && old(h.stale) <= h.stale
    ensures LedgerOf(h) == AfterOp(h.pristine, old(LedgerOf(h)), op)
    ensures (op.DestroyOp? ==> op.granted) ==> h.stale == old(h.stale)
  {
    hide EntriesOk, Overlaid, Base, IndexOf, Without, Bytes;
    if !Allowed(op, h.entries, h.blocks) {
      return;
    }
    h.ValidSized();
    match op {
      case HookOp(addr, replacement, tramp, reloc, granted, grantedAgain) =>
        if reloc.Some? {
          ClearIsPristine(Base(h.pristine, h.stale), h.image, h.entries, addr, reloc.value.size);
        }
        var _ := h.Hook(addr, replacement, tramp, reloc, granted, grantedAgain);
      case DestroyOp(addr, granted) =>
        var _ := h.Destroy(addr, granted);
    }
  }

  // --- overlapping hooks

  /** A hook to make: where, its trampoline, and how many bytes are backed up. */
  datatype Plan = Plan(addr: nat, tramp: seq<int>, size: nat, block: nat)

  /** Memory after two hooks were removed in the order they were made. */
  function FirstInFirstOut(image: Image, p: Plan, q: Plan): Image {
    var one := Overlay(image, p.addr, p.tramp);
    var two := Overlay(one, q.addr, q.tramp);
    Overlay(Overlay(two, p.addr, Bytes(image, p.addr, p.size)), q.addr, Bytes(one, q.addr, q.size))
  }

  /** And in the opposite order. */
  function LastInFirstOut(image: Image, p: Plan, q: Plan): Image {
    var one := Overlay(image, p.addr, p.tramp);
    var two := Overlay(one, q.addr, q.tramp);
    Overlay(Overlay(two, q.addr, Bytes(one, q.addr, q.size)), p.addr, Bytes(image, p.addr, p.size))
  }

  /** Both hooks can be made on top of the entries. */
  predicate Hookable(entries: seq<Entry>, blocks: set<nat>, p: Plan, q: Plan) {
    && p.addr != 0 && q.addr != 0 && p.addr != q.addr && p.block !in blocks && q.block !in blocks && p.block != q.block
    && IndexOf(entries, p.addr) == |entries| && IndexOf(entries, q.addr) == |entries|
    && 0 < |p.tramp| <= p.size && 0 < |q.tramp| <= q.size
  }

  lemma {:induction false} IndexOfAppend(entries: seq<Entry>, tail: seq<Entry>, addr: nat)
    requires IndexOf(entries, addr) == |entries|
    ensures IndexOf(entries + tail, addr) == |entries| + IndexOf(tail, addr)
  {
    if entries == [] {
      assert entries + tail == tail;
    } else {
      assert (entries + tail)[1..] == entries[1..] + tail;
      IndexOfAppend(entries[1..], tail, addr);
    }
  }

  /** Makes the two hooks, overlapping or not. */
  method HookBoth(h: Interceptor, p: Plan, q: Plan) returns (ghost e: Entry, ghost f: Entry)
    requires h.Sized() && Hookable(h.entries, h.blocks, p, q)
    modifies h
    ensures h.Sized() && h.entries == old(h.entries) + [e, f] && h.stale == old(h.stale)
    ensures h.blocks == old(h.blocks) + {p.block, q.block}
    ensures var one := Overlay(old(h.image), p.addr, p.tramp);
      && h.image == Overlay(one, q.addr, q.tramp)
      && e.addr == p.addr && e.original == Bytes(old(h.image), p.addr, p.size) && e.relocated == p.block
      && f.addr == q.addr && f.original == Bytes(one, q.addr, q.size) && f.relocated == q.block
  {
    hide IndexOf;
    var ok := h.Hook(p.addr, 1, Some(p.tramp), Some(Relocated(p.block, p.size)), true, true);
    e := h.entries[|h.entries| - 1];
    IndexOfOne(e, q.addr);
    IndexOfAppend(old(h.entries), [e], q.addr);
    ok := h.Hook(q.addr, 1, Some(q.tramp), Some(Relocated(q.block, q.size)), true, true);
    f := h.entries[|h.entries| - 1];
    assert old(h.entries) + [e] + [f] == old(h.entries) + [e, f];
  }

  lemma IndexOfOne(e: Entry, addr: nat)
    ensures IndexOf([e], addr) == if e.addr == addr then 0 else 1
  {
  }

  lemma IndexOfTwo(e: Entry, f: Entry, addr: nat)
    ensures IndexOf([e, f], addr) == if e.addr == addr then 0 else if f.addr == addr then 1 else 2
  {
    assert [e, f][1..] == [f];
    IndexOfOne(f, addr);
  }

  /** Hook, hook, and remove in the order of hooking. */
  method RemoveInOrder(h: Interceptor, p: Plan, q: Plan)
    requires h.Sized() && Hookable(h.entries, h.blocks, p, q)
    modifies h
    ensures h.image == FirstInFirstOut(old(h.image), p, q)
    ensures h.entries == old(h.entries) && h.blocks == old(h.blocks) && h.stale == old(h.stale)
  {
    hide IndexOf, Overlay;
    var e, f := HookBoth(h, p, q);
    ghost var was := old(h.entries);
    IndexOfTwo(e, f, p.addr);
    IndexOfAppend(was, [e, f], p.addr);
    assert Without(was + [e, f], |was|) == was + [f];
    var _ := h.Destroy(p.addr, true);
    IndexOfOne(f, q.addr);
    IndexOfAppend(was, [f], q.addr);
    assert Without(was + [f], |was|) == was;
    var _ := h.Destroy(q.addr, true);
  }

  /** Hook, hook, and remove in the opposite order. */
  method RemoveInReverse(h: Interceptor, p: Plan, q: Plan)
    requires h.Sized() && Hookable(h.entries, h.blocks, p, q)
    modifies h
    ensures h.image == LastInFirstOut(old(h.image), p, q) && SameImage(h.image, old(h.image))
    ensures h.entries == old(h.entries) && h.blocks == old(h.blocks) && h.stale == old(h.stale)
  {
    hide IndexOf, Overlay;
    var e, f := HookBoth(h, p, q);
    ghost var was := old(h.entries);
    IndexOfTwo(e, f, q.addr);
    IndexOfAppend(was, [e, f], q.addr);
    assert Without(was + [e, f], |was| + 1) == was + [e];
    var _ := h.Destroy(q.addr, true);
    IndexOfOne(e, p.addr);
    IndexOfAppend(was, [e], p.addr);
    assert Without(was + [e], |was|) == was;
    var _ := h.Destroy(p.addr, true);
    LastInFirstOutRestores(old(h.image), p, q);
  }

  /** Removed in reverse, overlapping hooks restore every memory. */
  lemma LastInFirstOutRestores(image: Image, p: Plan, q: Plan)
    requires |p.tramp| <= p.size && |q.tramp| <= q.size
    ensures SameImage(LastInFirstOut(image, p, q), image)
  {
    var one := Overlay(image, p.addr, p.tramp);
    forall x: nat
      ensures LastInFirstOut(image, p, q)(x) == image(x)
    {
      assert q.addr <= x < q.addr + q.size ==> Bytes(one, q.addr, q.size)[x - q.addr] == one(q.addr + (x - q.addr));
      assert p.addr <= x < p.addr + p.size ==> Bytes(image, p.addr, p.size)[x - p.addr] == image(p.addr + (x - p.addr));
    }
  }

  /**
    Removed in the order they were made, two hooks restore every memory, whatever their
    trampolines, exactly when the second backup did not save bytes of the first trampoline.
   */
  lemma FirstInFirstOutExact(a: nat, t: nat, n: nat, b: nat, u: nat, m: nat)
    requires 0 < t <= n && 0 < u <= m
    ensures (forall image: Image, p: Plan, q: Plan ::
               p.addr == a && |p.tramp| == t && p.size == n && q.addr == b && |q.tramp| == u && q.size == m ==>
                 SameImage(FirstInFirstOut(image, p, q), image))
            <==> Apart(a, t, b, m)
  {
    if Apart(a, t, b, m) {
      forall image: Image, p: Plan, q: Plan |
        p.addr == a && |p.tramp| == t && p.size == n && q.addr == b && |q.tramp| == u && q.size == m
        ensures SameImage(FirstInFirstOut(image, p, q), image)
      {
        ApartRestores(image, p, q);
      }
    } else {
      var image: Image := (x: nat) => 0;
      var p, q := Plan(a, seq(t, _ => 1), n, 0), Plan(b, seq(u, _ => 2), m, 1);
      var x := if a > b then a else b;
      var one := Overlay(image, a, p.tramp);
      assert one(x) == 1;
      assert Bytes(one, b, m)[x - b] == one(b + (x - b));
      assert FirstInFirstOut(image, p, q)(x) == 1;
      assert !SameImage(FirstInFirstOut(image, p, q), image);
    }
  }

  lemma ApartRestores(image: Image, p: Plan, q: Plan)
    requires |p.tramp| <= p.size && |q.tramp| <= q.size && Apart(p.addr, |p.tramp|, q.addr, q.size)
    ensures SameImage(FirstInFirstOut(image, p, q), image)
  {
    var one := Overlay(image, p.addr, p.tramp);
    forall x: nat
      ensures FirstInFirstOut(image, p, q)(x) == image(x)
    {
      assert q.addr <= x < q.addr + q.size ==> Bytes(one, q.addr, q.size)[x - q.addr] == one(q.addr + (x - q.addr));
      assert p.addr <= x < p.addr + p.size ==> Bytes(image, p.addr, p.size)[x - p.addr] == image(p.addr + (x - p.addr));
    }
  }

  lemma StillOverlaid(pristine: Image, m: Image, m': Image, entries: seq<Entry>)
    requires Overlaid(pristine, m, entries) && SameImage(m, m')
    ensures Overlaid(pristine, m', entries)
  {
    forall i, k {:trigger entries[i], m'(k)} | 0 <= i < |entries| && entries[i].addr <= k < entries[i].addr + |entries[i].tramp|
      ensures m'(k) == entries[i].tramp[k - entries[i].addr]
    {
      assert m(k) == m'(k);
    }
    forall a: nat {:trigger m'(a)} | !Covered(entries, a)
      ensures m'(a) == pristine(a)
    {
      assert m(a) == m'(a);
    }
  }

  lemma EntriesExtend(pristine: Image, entries: seq<Entry>, e: Entry)
    requires EntriesOk(pristine, entries) && EntryOk(e) && Clear(entries, e.addr, e.size)
    requires e.original == Bytes(pristine, e.addr, e.size) && e.relocated !in Blocks(entries)
    ensures EntriesOk(pristine, entries + [e])
  {
    var es := entries + [e];
    forall i, j {:trigger es[i], es[j]} | 0 <= i < j < |es|
      ensures Apart(es[i].addr, es[i].size, es[j].addr, es[j].size) && es[i].relocated != es[j].relocated
    {
      assert es[i] == entries[i] && entries[i] in entries;
    }
  }

  lemma BlocksExtend(entries: seq<Entry>, e: Entry)
    ensures Blocks(entries + [e]) == Blocks(entries) + {e.relocated}
  {
    assert forall x :: x in entries + [e] <==> x in entries || x == e;
  }

  lemma BlocksWithout(pristine: Image, entries: seq<Entry>, i: nat)
    requires EntriesOk(pristine, entries) && i < |entries|
    ensures Blocks(Without(entries, i)) == Blocks(entries) - {entries[i].relocated}
  {
    hide Blocks, Without;
    forall j | 0 <= j < |entries| && j != i
      ensures entries[j].relocated != entries[i].relocated
    {
      assert entries[j] in entries && entries[i] in entries;
    }
    BlocksRest(entries, i);
  }

  lemma BlocksRest(entries: seq<Entry>, i: nat)
    requires i < |entries| && forall j :: 0 <= j < |entries| && j != i ==> entries[j].relocated != entries[i].relocated
    ensures Blocks(Without(entries, i)) == Blocks(entries) - {entries[i].relocated}
  {
    var rest := Without(entries, i);
    forall b
      ensures b in Blocks(rest) <==> b in Blocks(entries) && b != entries[i].relocated
    {
      if b in Blocks(rest) {
        var j :| 0 <= j < |rest| && rest[j].relocated == b;
        var o := if j < i then j else j + 1;
        assert entries[o] in entries && rest[j] == entries[o];
      }
      if b in Blocks(entries) && b != entries[i].relocated {
        var o :| 0 <= o < |entries| && entries[o].relocated == b;
        assert rest[if o < i then o else o - 1] == entries[o];
      }
    }
  }

  /** Hooked targets are unique: no two entries share an address. */
  lemma SameAddrSame(pristine: Image, entries: seq<Entry>, i: nat)
    requires EntriesOk(pristine, entries) && i < |entries|
    ensures EntryOk(entries[i]) && forall e <- entries :: e.addr == entries[i].addr ==> e == entries[i]
  {
    forall e | e in entries && e.addr == entries[i].addr
      ensures e == entries[i]
    {
      var j :| 0 <= j < |entries| && entries[j] == e;
      assert EntryOk(entries[j]) && EntryOk(entries[i]);
    }
  }
}
