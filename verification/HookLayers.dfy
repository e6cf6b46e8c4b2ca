/**
  Hooks that overlap.  Memory is the pristine image with layers written over it, one upon
  the other: the trampolines of the active hooks, and what removals left behind.
 */
module HookLayers {
  import opened Options
  import opened CodePatch
  import opened Hooks

  /** Bytes over the code: an active hook's trampoline, or some that no one will take back. */
  datatype Layer = Layer(entry: Entry, active: bool)

  /** The first m layers over the pristine image. */
  function Stack(pristine: Image, layers: seq<Layer>, m: nat): Image
    requires m <= |layers|
  {
    if m == 0 then pristine
    else Overlay(Stack(pristine, layers, m - 1), layers[m - 1].entry.addr, layers[m - 1].entry.tramp)
  }

  /** The hooks among the first m layers. */
  function Active(layers: seq<Layer>, m: nat): seq<Entry>
    requires m <= |layers|
  {
    if m == 0 then [] else Active(layers, m - 1) + if layers[m - 1].active then [layers[m - 1].entry] else []
  }

  /** Every hook has saved what lay under it. */
  ghost predicate Backed(pristine: Image, layers: seq<Layer>) {
    forall i {:trigger layers[i]} :: 0 <= i < |layers| && layers[i].active ==>
      && EntryOk(layers[i].entry)
      && layers[i].entry.original == Bytes(Stack(pristine, layers, i), layers[i].entry.addr, layers[i].entry.size)
  }

  /** Memory is the stack of layers, and its active ones are the interceptor's entries. */
  ghost predicate Layered(h: Interceptor, layers: seq<Layer>)
    reads h
  {
    && SameImage(h.image, Stack(h.pristine, layers, |layers|))
    && Active(layers, |layers|) == h.entries && Backed(h.pristine, layers)
  }

  ghost predicate AllActive(layers: seq<Layer>) {
    forall i {:trigger layers[i]} :: 0 <= i < |layers| ==> layers[i].active
  }

  /** The layer of the k-th hook. */
  function LayerOf(layers: seq<Layer>, k: nat, m: nat): (i: nat)
    requires m <= |layers| && k < |Active(layers, m)|
    ensures i < m && layers[i].active && layers[i].entry == Active(layers, m)[k] && |Active(layers, i)| == k
  {
    if layers[m - 1].active && k == |Active(layers, m - 1)| then m - 1 else LayerOf(layers, k, m - 1)
  }

  /** No later layer lies over what the hook saved, and no later hook has saved bytes of its trampoline. */
  predicate Loose(layers: seq<Layer>, i: nat)
    requires i < |layers|
  {
    var e := layers[i].entry;
    forall j {:trigger layers[j]} :: i < j < |layers| ==>
      && Apart(e.addr, e.size, layers[j].entry.addr, |layers[j].entry.tramp|)
      && (layers[j].active ==> Apart(e.addr, |e.tramp|, layers[j].entry.addr, layers[j].entry.size))
  }

  // --- one step

  /** Layers, the number of the next entry, and the blocks in use. */
  datatype Stage = Stage(layers: seq<Layer>, nextId: nat, blocks: set<nat>)

  /** What the generators promise: a new block and a trampoline that fits the bytes it replaces. */
  predicate Fitting(op: Op, blocks: set<nat>) {
    op.HookOp? && op.reloc.Some? ==>
      && op.reloc.value.block !in blocks && op.reloc.value.size > 0
      && (op.tramp.Some? ==> op.tramp.value != [] && |op.tramp.value| <= op.reloc.value.size)
  }

  ghost function AfterHook(pristine: Image, s: Stage, op: Op): Stage
    requires op.HookOp?
  {
    var n := |s.layers|;
    var entries := Active(s.layers, n);
    if op.addr == 0 || op.replacement == 0 || IndexOf(entries, op.addr) < |entries| then s
    else if op.tramp.None? || op.reloc.None? || !op.granted then s.(nextId := s.nextId + 1)
    else
      var size := op.reloc.value.size;
      var e := Entry(s.nextId, op.addr, size, op.tramp.value, Bytes(Stack(pristine, s.layers, n), op.addr, size), op.reloc.value.block);
      Stage(s.layers + [Layer(e, true)], s.nextId + 1, s.blocks + {op.reloc.value.block})
  }

  /**
    A granted removal takes a loose hook's layer away.  On any other it writes the saved
    bytes as a layer of their own, and a refused one leaves the trampoline.
   */
  ghost function AfterDestroy(s: Stage, addr: nat, granted: bool): Stage {
    var entries := Active(s.layers, |s.layers|);
    var k := IndexOf(entries, addr);
    if k == |entries| then s
    else
      var i := LayerOf(s.layers, k, |s.layers|);
      var e := s.layers[i].entry;
      var left := s.layers[i := Layer(e, false)];
      var layers :=
        if !granted then left
        else if Loose(s.layers, i) then Without(s.layers, i)
        else left + [Layer(e.(tramp := e.original), false)];
      Stage(layers, s.nextId, s.blocks - {e.relocated})
  }

  ghost function After(pristine: Image, s: Stage, op: Op): Stage {
    if !Fitting(op, s.blocks) then s
    else if op.HookOp? then AfterHook(pristine, s, op)
    else AfterDestroy(s, op.addr, op.granted)
  }

  ghost function AfterAll(pristine: Image, s: Stage, ops: seq<Op>): Stage
    decreases ops
  {
    if ops == [] then s else AfterAll(pristine, After(pristine, s, ops[0]), ops[1..])
  }

  // --- the layers of a stack

  /** Stack and hooks depend only on the layers below. */
  lemma {:induction false} SameBelow(pristine: Image, layers: seq<Layer>, layers': seq<Layer>, m: nat)
    requires m <= |layers| && m <= |layers'| && forall j {:trigger layers[j]} {:trigger layers'[j]} :: 0 <= j < m ==> layers[j] == layers'[j]
    ensures Stack(pristine, layers, m) == Stack(pristine, layers', m) && Active(layers, m) == Active(layers', m)
  {
    if m == 0 {
    } else {
      SameBelow(pristine, layers, layers', m - 1);
    }
  }

  lemma Pushed(pristine: Image, layers: seq<Layer>, top: Layer)
    requires Backed(pristine, layers)
    requires top.active ==>
               && EntryOk(top.entry)
               && top.entry.original == Bytes(Stack(pristine, layers, |layers|), top.entry.addr, top.entry.size)
    ensures var now := layers + [top];
      && Stack(pristine, now, |now|) == Overlay(Stack(pristine, layers, |layers|), top.entry.addr, top.entry.tramp)
      && Active(now, |now|) == Active(layers, |layers|) + (if top.active then [top.entry] else [])
      && Backed(pristine, now)
  {
    hide Stack;
    var now := layers + [top];
    forall i | 0 <= i <= |layers|
      ensures Stack(pristine, now, i) == Stack(pristine, layers, i) && Active(now, i) == Active(layers, i)
    {
      SameBelow(pristine, layers, now, i);
    }
    assert now[|layers|] == top;
    StackTop(pristine, now);
  }

  lemma StackTop(pristine: Image, layers: seq<Layer>)
    requires layers != []
    ensures var n := |layers| - 1;
      Stack(pristine, layers, n + 1) == Overlay(Stack(pristine, layers, n), layers[n].entry.addr, layers[n].entry.tramp)
  {
  }

  /** A layer that is given up stays where it is. */
  lemma {:induction false} GivenUpTo(pristine: Image, layers: seq<Layer>, i: nat, m: nat)
    requires i < |layers| && layers[i].active && m <= |layers|
    ensures var now := layers[i := Layer(layers[i].entry, false)];
      && Stack(pristine, now, m) == Stack(pristine, layers, m)
      && (m <= i ==> Active(now, m) == Active(layers, m))
      && (m > i ==> |Active(layers, i)| < |Active(layers, m)| && Active(now, m) == Without(Active(layers, m), |Active(layers, i)|))
  {
    if m == 0 {
    } else {
      GivenUpTo(pristine, layers, i, m - 1);
    }
  }

  lemma GivenUp(pristine: Image, layers: seq<Layer>, i: nat)
    requires Backed(pristine, layers) && i < |layers| && layers[i].active
    ensures var now := layers[i := Layer(layers[i].entry, false)]; Backed(pristine, now)
  {
    hide Stack, Active;
    var now := layers[i := Layer(layers[i].entry, false)];
    forall j {:trigger now[j]} | 0 <= j < |now| && now[j].active
      ensures EntryOk(now[j].entry) && now[j].entry.original == Bytes(Stack(pristine, now, j), now[j].entry.addr, now[j].entry.size)
    {
      assert now[j] == layers[j];
      GivenUpTo(pristine, layers, i, j);
    }
  }

  /**
    Taking a loose layer away: below it nothing changes; above it memory changes under its
    trampoline only, and where the hook had saved bytes, they are back.
   */
  lemma {:induction false} PeeledTo(pristine: Image, layers: seq<Layer>, i: nat, m: nat, x: nat)
    requires i < m <= |layers| && EntryOk(layers[i].entry) && Loose(layers, i)
    ensures var e, rest := layers[i].entry, Without(layers, i);
      && (!(e.addr <= x < e.addr + |e.tramp|) ==> Stack(pristine, rest, m - 1)(x) == Stack(pristine, layers, m)(x))
      && (e.addr <= x < e.addr + e.size ==> Stack(pristine, rest, m - 1)(x) == Stack(pristine, layers, i)(x))
  {
    var rest := Without(layers, i);
    if m == i + 1 {
      SameBelow(pristine, layers, rest, i);
    } else {
      PeeledTo(pristine, layers, i, m - 1, x);
      assert rest[m - 2] == layers[m - 1];
    }
  }

  lemma {:induction false} PeeledActive(layers: seq<Layer>, i: nat, m: nat)
    requires i < m <= |layers| && layers[i].active
    ensures |Active(layers, i)| < |Active(layers, m)| && Active(Without(layers, i), m - 1) == Without(Active(layers, m), |Active(layers, i)|)
  {
    var rest := Without(layers, i);
    if m == i + 1 {
      SameBelow(_ => 0, layers, rest, i);
    } else {
      PeeledActive(layers, i, m - 1);
      assert rest[m - 2] == layers[m - 1];
    }
  }

  /** The saved bytes, written back, are the layers without the hook's. */
  lemma PeeledImage(pristine: Image, layers: seq<Layer>, i: nat)
    requires Backed(pristine, layers) && i < |layers| && layers[i].active && Loose(layers, i)
    ensures var e, rest := layers[i].entry, Without(layers, i);
      SameImage(Overlay(Stack(pristine, layers, |layers|), e.addr, e.original), Stack(pristine, rest, |rest|))
  {
    hide Stack, Loose;
    var e, rest := layers[i].entry, Without(layers, i);
    var all, below := Stack(pristine, layers, |layers|), Stack(pristine, layers, i);
    forall x: nat
      ensures Overlay(all, e.addr, e.original)(x) == Stack(pristine, rest, |rest|)(x)
    {
      PeeledTo(pristine, layers, i, |layers|, x);
      if e.addr <= x < e.addr + e.size {
        assert e.original[x - e.addr] == below(e.addr + (x - e.addr));
      }
    }
  }

  lemma PeeledBacked(pristine: Image, layers: seq<Layer>, i: nat)
    requires Backed(pristine, layers) && i < |layers| && layers[i].active && Loose(layers, i)
    ensures Backed(pristine, Without(layers, i))
  {
    hide Stack;
    var e, rest := layers[i].entry, Without(layers, i);
    forall j {:trigger rest[j]} | 0 <= j < |rest| && rest[j].active
      ensures EntryOk(rest[j].entry)
      ensures rest[j].entry.original == Bytes(Stack(pristine, rest, j), rest[j].entry.addr, rest[j].entry.size)
    {
      var o := if j < i then j else j + 1;
      var f := layers[o].entry;
      assert rest[j] == layers[o];
      if j < i {
        SameBelow(pristine, layers, rest, j);
      } else {
        var was, now := Stack(pristine, layers, o), Stack(pristine, rest, j);
        forall k | 0 <= k < f.size
          ensures Bytes(was, f.addr, f.size)[k] == Bytes(now, f.addr, f.size)[k]
        {
          PeeledTo(pristine, layers, i, o, f.addr + k);
        }
      }
    }
  }

  lemma OverlaySame(m: Image, m': Image, addr: nat, bytes: seq<int>)
    requires SameImage(m, m')
    ensures SameImage(Overlay(m, addr, bytes), Overlay(m', addr, bytes))
  {
  }

  lemma BytesSame(m: Image, m': Image, addr: nat, n: nat)
    requires SameImage(m, m')
    ensures Bytes(m, addr, n) == Bytes(m', addr, n)
  {
  }

  // --- the interceptor's steps

  ghost predicate At(h: Interceptor, s: Stage)
    reads h
  {
    Layered(h, s.layers) && h.nextId == s.nextId && h.blocks == s.blocks
  }

  lemma {:induction false} ActiveOk(pristine: Image, layers: seq<Layer>, m: nat)
    requires Backed(pristine, layers) && m <= |layers|
    ensures forall e <- Active(layers, m) :: EntryOk(e)
  {
    if m == 0 {
    } else {
      ActiveOk(pristine, layers, m - 1);
    }
  }

  lemma LayeredSized(h: Interceptor, layers: seq<Layer>)
    requires Layered(h, layers)
    ensures h.Sized()
  {
    ActiveOk(h.pristine, layers, |layers|);
  }

  method DoHook(h: Interceptor, op: Op, ghost s: Stage)
    requires At(h, s) && op.HookOp? && Fitting(op, s.blocks)
    modifies h
    ensures At(h, AfterHook(h.pristine, s, op))
  {
    hide Stack, Active, Backed, IndexOf;
    LayeredSized(h, s.layers);
    ghost var was, n := Stack(h.pristine, s.layers, |s.layers|), |s.layers|;
    if op.reloc.Some? {
      BytesSame(h.image, was, op.addr, op.reloc.value.size);
    }
    ghost var before := h.image;
    var ok := h.Hook(op.addr, op.replacement, op.tramp, op.reloc, op.granted, op.grantedAgain);
    if ok {
      ghost var e := h.entries[|h.entries| - 1];
      OverlaySame(before, was, op.addr, op.tramp.value);
      Pushed(h.pristine, s.layers, Layer(e, true));
    }
  }

  method DoDestroy(h: Interceptor, addr: nat, granted: bool, ghost s: Stage)
    requires At(h, s)
    modifies h
    ensures At(h, AfterDestroy(s, addr, granted))
  {
    hide Stack, Active, Backed, IndexOf, Loose, Without;
    LayeredSized(h, s.layers);
    ghost var was, entries, before := Stack(h.pristine, s.layers, |s.layers|), h.entries, h.image;
    var found := h.Destroy(addr, granted);
    if found {
      ghost var i := LayerOf(s.layers, IndexOf(entries, addr), |s.layers|);
      DestroyedLayer(h.pristine, s.layers, i);
      OverlaySame(before, was, s.layers[i].entry.addr, s.layers[i].entry.original);
    }
  }

  /** The three ways a removal can end. */
  lemma DestroyedLayer(pristine: Image, layers: seq<Layer>, i: nat)
    requires Backed(pristine, layers) && i < |layers| && layers[i].active
    ensures var e, k, n := layers[i].entry, |Active(layers, i)|, |layers|;
      var left := layers[i := Layer(e, false)];
      var over := left + [Layer(e.(tramp := e.original), false)];
      var rest := Without(layers, i);
      var entries := Active(layers, n);
      && k < |entries| && Active(left, n) == Active(over, n + 1) == Active(rest, n - 1) == Without(entries, k)
      && Backed(pristine, left) && Stack(pristine, left, n) == Stack(pristine, layers, n)
      && Backed(pristine, over) && Stack(pristine, over, n + 1) == Overlay(Stack(pristine, layers, n), e.addr, e.original)
      && (Loose(layers, i) ==>
            && Backed(pristine, rest)
            && SameImage(Overlay(Stack(pristine, layers, n), e.addr, e.original), Stack(pristine, rest, n - 1)))
  {
    hide Stack, Active, Backed, Loose, Without;
    var e := layers[i].entry;
    var left := layers[i := Layer(e, false)];
    GivenUpTo(pristine, layers, i, |layers|);
    GivenUp(pristine, layers, i);
    Pushed(pristine, left, Layer(e.(tramp := e.original), false));
    PeeledActive(layers, i, |layers|);
    if Loose(layers, i) {
      PeeledImage(pristine, layers, i);
      PeeledBacked(pristine, layers, i);
    }
  }

  // --- whole runs

  /** Every removal in the run is granted, and the hook it removes is loose by then. */
  ghost predicate Tidy(pristine: Image, s: Stage, ops: seq<Op>)
    decreases ops
  {
    ops != [] ==>
      && (ops[0].DestroyOp? ==> ops[0].granted && LooseAt(s, ops[0].addr))
      && Tidy(pristine, After(pristine, s, ops[0]), ops[1..])
  }

  ghost predicate LooseAt(s: Stage, addr: nat) {
    var entries := Active(s.layers, |s.layers|);
    var k := IndexOf(entries, addr);
    k < |entries| ==> Loose(s.layers, LayerOf(s.layers, k, |s.layers|))
  }

  /** Every removal in the run is granted and removes the newest hook: the hooks are properly nested. */
  ghost predicate Nested(pristine: Image, s: Stage, ops: seq<Op>)
    decreases ops
  {
    ops != [] ==>
      && (ops[0].DestroyOp? ==>
            var entries := Active(s.layers, |s.layers|);
            ops[0].granted && IndexOf(entries, ops[0].addr) + 1 >= |entries|)
      && Nested(pristine, After(pristine, s, ops[0]), ops[1..])
  }

  lemma {:induction false} ActiveAll(layers: seq<Layer>, m: nat)
    requires AllActive(layers) && m <= |layers|
    ensures |Active(layers, m)| == m && forall i {:trigger layers[i]} :: 0 <= i < m ==> Active(layers, m)[i] == layers[i].entry
  {
    if m == 0 {
    } else {
      ActiveAll(layers, m - 1);
    }
  }

  /** A tidy step leaves nothing behind. */
  lemma StepActive(pristine: Image, s: Stage, op: Op)
    requires AllActive(s.layers) && (op.DestroyOp? ==> op.granted && LooseAt(s, op.addr))
    ensures AllActive(After(pristine, s, op).layers)
  {
    hide Loose, IndexOf, Stack, Active;
  }

  /** A tidy run leaves nothing behind but the hooks that are active. */
  lemma {:induction false} TidyActive(pristine: Image, s: Stage, ops: seq<Op>)
    requires AllActive(s.layers) && Tidy(pristine, s, ops)
    ensures AllActive(AfterAll(pristine, s, ops).layers)
    decreases ops
  {
    hide After, LooseAt, AllActive;
    if ops == [] {
    } else {
      StepActive(pristine, s, ops[0]);
      TidyActive(pristine, After(pristine, s, ops[0]), ops[1..]);
    }
  }

  /** The newest hook is always loose. */
  lemma NewestLoose(s: Stage, addr: nat)
    requires AllActive(s.layers) && IndexOf(Active(s.layers, |s.layers|), addr) + 1 >= |Active(s.layers, |s.layers|)|
    ensures LooseAt(s, addr)
  {
    hide IndexOf;
    ActiveAll(s.layers, |s.layers|);
    var k := IndexOf(Active(s.layers, |s.layers|), addr);
    if k < |s.layers| {
      ActiveAll(s.layers, LayerOf(s.layers, k, |s.layers|));
    }
  }

  /** Nested hooks, overlapping or not, are tidy. */
  lemma {:induction false} NestedTidy(pristine: Image, s: Stage, ops: seq<Op>)
    requires AllActive(s.layers) && Nested(pristine, s, ops)
    ensures Tidy(pristine, s, ops)
    decreases ops
  {
    hide After, LooseAt, AllActive, IndexOf, Active;
    if ops == [] {
    } else {
      if ops[0].DestroyOp? {
        NewestLoose(s, ops[0].addr);
      }
      StepActive(pristine, s, ops[0]);
      NestedTidy(pristine, After(pristine, s, ops[0]), ops[1..]);
    }
  }

  /** With the same hooks and nothing left behind, memory is the same. */
  lemma SameHooks(pristine: Image, layers: seq<Layer>, layers': seq<Layer>)
    requires AllActive(layers) && AllActive(layers') && Active(layers, |layers|) == Active(layers', |layers'|)
    ensures layers == layers'
  {
    ActiveAll(layers, |layers|);
    ActiveAll(layers', |layers'|);
    forall i | 0 <= i < |layers|
      ensures layers[i] == layers'[i]
    {
      assert layers[i].entry == Active(layers, |layers|)[i] && layers'[i].entry == Active(layers', |layers'|)[i];
    }
  }

  /**
    Any run of hooks and removals, overlapping, failed and refused ones included: memory
    is the stack of layers that the steps leave.  A tidy run, and so a properly nested
    one, leaves the active trampolines and nothing else; when it ends with the hooks it
    started with, memory is as it was.
   */
  method Run(h: Interceptor, ops: seq<Op>, ghost s: Stage)
    requires At(h, s)
    modifies h
    ensures At(h, AfterAll(h.pristine, s, ops))
    ensures AllActive(s.layers) && (Tidy(h.pristine, s, ops) || Nested(h.pristine, s, ops)) ==>
              && AllActive(AfterAll(h.pristine, s, ops).layers)
              && (h.entries == old(h.entries) ==> SameImage(h.image, old(h.image)))
  {
    hide After, AllActive, Tidy, Nested, Stack, Active, Backed;
    var i := 0;
    ghost var now := s;
    while i < |ops|
      invariant 0 <= i <= |ops| && At(h, now) && AfterAll(h.pristine, now, ops[i..]) == AfterAll(h.pristine, s, ops)
    {
      assert ops[i..][0] == ops[i] && ops[i..][1..] == ops[i + 1..];
      RunOne(h, ops[i], now);
      now := After(h.pristine, now, ops[i]);
      i := i + 1;
    }
    if AllActive(s.layers) && (Tidy(h.pristine, s, ops) || Nested(h.pristine, s, ops)) {
      if Nested(h.pristine, s, ops) {
        NestedTidy(h.pristine, s, ops);
      }
      TidyActive(h.pristine, s, ops);
      if h.entries == old(h.entries) {
        SameHooks(h.pristine, s.layers, now.layers);
      }
    }
  }

  method RunOne(h: Interceptor, op: Op, ghost s: Stage)
    requires At(h, s)
    modifies h
    ensures At(h, After(h.pristine, s, op))
  {
    hide AfterHook, AfterDestroy, Layered;
    if !Fitting(op, h.blocks) {
      return;
    }
    if op.HookOp? {
      DoHook(h, op, s);
    } else {
      DoDestroy(h, op.addr, op.granted, s);
    }
  }

  /** A new interceptor has no layers. */
  lemma StartsBare(h: Interceptor)
    requires h.Valid() && h.entries == [] && h.stale == []
    ensures At(h, Stage([], h.nextId, h.blocks))
  {
    assert forall a: nat :: !Covered([], a);
  }

  /** Two overlapping hooks removed in the order they were made: none is left, and a byte of the first trampoline is. */
  method LeftInOrder() returns (h: Interceptor)
    ensures h.entries == [] && h.stale == [] && h.image(101) == 1 && h.pristine(101) == 0
  {
    h := new Interceptor((a: nat) => 0);
    h.ValidSized();
    RemoveInOrder(h, Plan(100, [1, 1], 2, 0), Plan(101, [2], 1, 1));
  }
}
