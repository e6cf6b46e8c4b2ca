/**
  Writing into code pages: every page of the range is made writable, the bytes
  are copied, the permissions are restored; a refusal on the way rolls back.  Which
  mprotect calls the kernel refuses is an arbitrary function of the call number, and
  which bytes a memcpy has written when it faults one of the address.
 */
module CodePatch {
  import M = MemoryAllocator

  const ADDRESS_SPACE: nat := 0x1_0000_0000_0000_0000

  datatype Prot = Prot(r: bool, w: bool, x: bool)

  /** The patch returned 0, returned -1, or touched a page it may not touch. */
  datatype Outcome = Done | Failed | Fault

  type Image = nat -> int

  function Overlay(image: Image, addr: nat, bytes: seq<int>): Image {
    (a: nat) => if addr <= a < addr + |bytes| then bytes[a - addr] else image(a)
  }

  ghost predicate SameImage(m: Image, m': Image) {
    forall a: nat :: m(a) == m'(a)
  }

  function Writable(p: Prot): Prot {
    p.(w := true)
  }

  lemma OverlayUndone(image: Image, addr: nat, buffer: seq<int>, original: seq<int>)
    requires |original| == |buffer| && forall k :: 0 <= k < |buffer| ==> original[k] == image(addr + k)
    ensures SameImage(Overlay(Overlay(image, addr, buffer), addr, original), image)
  {
  }

  // --- the pages of a range

  /** The pages from `page` to `last`, in ascending order. */
  function PagesFrom(page: nat, last: nat, pageSize: nat): (pages: seq<nat>)
    requires pageSize > 0
    ensures page <= last ==> pages != [] && pages[0] == page
    ensures forall i {:trigger pages[i]} :: 0 <= i < |pages| ==> page <= pages[i] <= last
    decreases last - page
  {
    if page > last then [] else [page] + PagesFrom(page + pageSize, last, pageSize)
  }

  /** The pages that the `n` bytes at `addr` lie on. */
  function Touched(addr: nat, n: nat, pageSize: nat): seq<nat>
    requires pageSize > 0 && n > 0
  {
    PagesFrom(M.Floor(addr, pageSize), M.Floor(addr + n - 1, pageSize), pageSize)
  }

  predicate Covers(p: nat, pageSize: nat, start: nat, end: nat) {
    p <= end && start < p + pageSize
  }

  ghost predicate Ascending(pages: seq<nat>) {
    forall i, j :: 0 <= i < j < |pages| ==> pages[i] < pages[j]
  }

  lemma {:induction false} PagesAscend(page: nat, last: nat, pageSize: nat)
    requires pageSize > 0
    ensures Ascending(PagesFrom(page, last, pageSize))
    decreases last - page
  {
    if page > last {
    } else {
      PagesAscend(page + pageSize, last, pageSize);
    }
  }

  lemma {:induction false} PagesAre(page: nat, last: nat, pageSize: nat, p: nat)
    requires M.OnPage(page, pageSize)
    ensures p in PagesFrom(page, last, pageSize) <==> M.OnPage(p, pageSize) && page <= p <= last
    decreases last - page
  {
    hide M.OnPage;
    if page > last {
    } else {
      M.OnNextPage(page, pageSize);
      PagesAre(page + pageSize, last, pageSize, p);
      if M.OnPage(p, pageSize) && page < p {
        M.PagesApart(page, p, pageSize);
      }
    }
  }

  /** The pages of a range are exactly those that cover part of it, each once, in ascending order. */
  lemma TouchedExact(addr: nat, n: nat, pageSize: nat)
    requires pageSize > 0 && n > 0
    ensures Ascending(Touched(addr, n, pageSize))
    ensures forall p: nat {:trigger p in Touched(addr, n, pageSize)} {:trigger M.OnPage(p, pageSize)} ::
              p in Touched(addr, n, pageSize) <==> M.OnPage(p, pageSize) && Covers(p, pageSize, addr, addr + n - 1)
  {
    hide M.OnPage, M.Floor;
    M.FloorOnPage(addr, pageSize);
    M.FloorOnPage(addr + n - 1, pageSize);
    var first, last := M.Floor(addr, pageSize), M.Floor(addr + n - 1, pageSize);
    PagesAscend(first, last, pageSize);
    forall p: nat
      ensures p in Touched(addr, n, pageSize) <==> M.OnPage(p, pageSize) && Covers(p, pageSize, addr, addr + n - 1)
    {
      PagesAre(first, last, pageSize, p);
      if M.OnPage(p, pageSize) && p != first {
        M.PagesApart(p, first, pageSize);
      }
      if M.OnPage(p, pageSize) && p != last {
        M.PagesApart(p, last, pageSize);
      }
    }
  }

  // --- permission calls

  /** Which of the numbered permission calls the kernel refuses. */
  type Answers = nat -> bool

  /** None of the `n` calls from number `c` on is refused. */
  ghost predicate Granted(refuses: Answers, c: nat, n: nat) {
    forall k {:trigger refuses(k)} :: c <= k < c + n ==> !refuses(k)
  }

  /** How many of the `n` calls from number `c` on come before the first refused one. */
  ghost function FirstRefused(refuses: Answers, c: nat, n: nat): (k: nat)
    ensures k <= n && Granted(refuses, c, k) && (k < n ==> refuses(c + k))
    decreases n
  {
    if n == 0 || refuses(c) then 0 else 1 + FirstRefused(refuses, c + 1, n - 1)
  }

  lemma FirstRefusedIs(refuses: Answers, c: nat, n: nat, k: nat)
    requires k <= n && Granted(refuses, c, k) && (k < n ==> refuses(c + k))
    ensures FirstRefused(refuses, c, n) == k
    ensures Granted(refuses, c, n) <==> k == n
  {
    assert refuses(c + FirstRefused(refuses, c, n)) || FirstRefused(refuses, c, n) == n;
  }

  lemma GrantedSplit(refuses: Answers, c: nat, n: nat)
    ensures Granted(refuses, c, 2 * n) <==> Granted(refuses, c, n) && Granted(refuses, c + n, n)
  {
  }

  /** The permissions of the pages after a pass that sets each to its target and carries on after a refusal. */
  ghost function Pass(refuses: Answers, now: seq<Prot>, target: seq<Prot>, c: nat): (s: seq<Prot>)
    requires |now| == |target|
    ensures |s| == |now| && forall i {:trigger s[i]} :: 0 <= i < |now| ==> s[i] == if refuses(c + i) then now[i] else target[i]
  {
    seq(|now|, i requires 0 <= i < |now| => if refuses(c + i) then now[i] else target[i])
  }

  /** The pass after its first m pages. */
  ghost function PassTo(refuses: Answers, now: seq<Prot>, target: seq<Prot>, c: nat, m: nat): (s: seq<Prot>)
    requires |now| == |target|
    ensures |s| == |now|
    ensures forall i {:trigger s[i]} :: 0 <= i < |now| ==> s[i] == if i >= m || refuses(c + i) then now[i] else target[i]
  {
    seq(|now|, i requires 0 <= i < |now| => if i >= m || refuses(c + i) then now[i] else target[i])
  }

  lemma PassStep(refuses: Answers, now: seq<Prot>, target: seq<Prot>, c: nat, m: nat)
    requires m < |now| == |target|
    ensures var s := PassTo(refuses, now, target, c, m);
      PassTo(refuses, now, target, c, m + 1) == if refuses(c + m) then s else s[m := target[m]]
  {
    hide PassTo;
  }

  lemma PassEnds(refuses: Answers, now: seq<Prot>, target: seq<Prot>, c: nat)
    requires |now| == |target|
    ensures PassTo(refuses, now, target, c, 0) == now
    ensures PassTo(refuses, now, target, c, |now|) == Pass(refuses, now, target, c)
  {
    hide PassTo, Pass;
  }

  function AllWritable(orig: seq<Prot>): (s: seq<Prot>)
    ensures |s| == |orig| && forall i {:trigger s[i]} :: 0 <= i < |orig| ==> s[i] == Writable(orig[i])
  {
    seq(|orig|, i requires 0 <= i < |orig| => Writable(orig[i]))
  }

  /** The permissions with the first k pages made writable. */
  ghost function Enabled(orig: seq<Prot>, k: nat): (s: seq<Prot>)
    ensures |s| == |orig| && forall i {:trigger s[i]} :: 0 <= i < |orig| ==> s[i] == if i < k then Writable(orig[i]) else orig[i]
  {
    seq(|orig|, i requires 0 <= i < |orig| => if i < k then Writable(orig[i]) else orig[i])
  }

  lemma EnabledStep(orig: seq<Prot>, k: nat)
    requires k < |orig|
    ensures Enabled(orig, k)[k := Writable(orig[k])] == Enabled(orig, k + 1)
  {
    hide Enabled;
  }

  lemma EnabledNone(orig: seq<Prot>)
    ensures Enabled(orig, 0) == orig && Enabled(orig, |orig|) == AllWritable(orig)
  {
    hide Enabled, AllWritable;
  }

  /** The page got its read-only permission back, and the roll-back cannot make it writable again. */
  predicate StuckAt(refuses: Answers, orig: seq<Prot>, c: nat, i: nat) {
    i < |orig| && !orig[i].w && !refuses(c + |orig| + i) && refuses(c + 2 * |orig| + i)
  }

  ghost predicate Stuck(refuses: Answers, orig: seq<Prot>, c: nat) {
    exists i: nat :: StuckAt(refuses, orig, c, i)
  }

  ghost predicate Readable(orig: seq<Prot>) {
    forall i {:trigger orig[i]} :: 0 <= i < |orig| ==> orig[i].r
  }

  /** The patch touches memory it may not: reading the old bytes, or rolling back onto a stuck page. */
  ghost predicate Faults(refuses: Answers, orig: seq<Prot>, c: nat) {
    || !Readable(orig)
    || (Granted(refuses, c, |orig|) && !Granted(refuses, c + |orig|, |orig|) && Stuck(refuses, orig, c))
  }

  /**
    A failed patch leaves this page writable although it was not: its write permission
    was granted, and taking it back was refused for good.
   */
  ghost predicate LeftWritable(refuses: Answers, n: nat, c: nat, i: nat) {
    var k := FirstRefused(refuses, c, n);
    if k < n then i < k && refuses(c + k + 1 + i)
    else (refuses(c + n + i) || !refuses(c + 2 * n + i)) && refuses(c + 3 * n + i)
  }

  /**
    How many permission calls a patch makes: none if the old bytes cannot be read; up to
    the first refused one and a pass back; two passes; or three and a fault, or four.
   */
  ghost function CallsMade(refuses: Answers, orig: seq<Prot>, c: nat): nat {
    var n := |orig|;
    var k := FirstRefused(refuses, c, n);
    if !Readable(orig) then 0
    else if k < n then k + 1 + n
    else if Granted(refuses, c + n, n) then 2 * n
    else if Stuck(refuses, orig, c) then 3 * n
    else 4 * n
  }

  /** The permissions a failed patch leaves. */
  ghost function LeftBehind(refuses: Answers, orig: seq<Prot>, c: nat): (s: seq<Prot>)
    ensures |s| == |orig|
    ensures forall i: nat {:trigger s[i]} :: i < |orig| ==> s[i] == if LeftWritable(refuses, |orig|, c, i) then Writable(orig[i]) else orig[i]
  {
    seq(|orig|, i requires 0 <= i < |orig| => if LeftWritable(refuses, |orig|, c, i) then Writable(orig[i]) else orig[i])
  }

  /** The permissions at the fault of a roll-back. */
  ghost function AtFault(refuses: Answers, orig: seq<Prot>, c: nat): (s: seq<Prot>)
    ensures |s| == |orig|
    ensures forall i: nat {:trigger s[i]} :: i < |orig| ==>
              s[i] == if refuses(c + |orig| + i) || !refuses(c + 2 * |orig| + i) then Writable(orig[i]) else orig[i]
  {
    seq(|orig|, i requires 0 <= i < |orig| =>
      if refuses(c + |orig| + i) || !refuses(c + 2 * |orig| + i) then Writable(orig[i]) else orig[i])
  }

  /** The pages have the given permissions, and all others those they had. */
  ghost predicate Protected(was: map<nat, Prot>, now: map<nat, Prot>, pages: seq<nat>, perms: seq<Prot>) {
    && |pages| == |perms| && now.Keys == was.Keys
    && (forall i {:trigger pages[i]} :: 0 <= i < |pages| ==> pages[i] in was && now[pages[i]] == perms[i])
    && (forall p {:trigger now[p]} :: p in was && p !in pages ==> now[p] == was[p])
  }

  /** One permission more is set. */
  lemma ProtectedSet(was: map<nat, Prot>, now: map<nat, Prot>, pages: seq<nat>, perms: seq<Prot>, i: nat, p: Prot)
    requires Protected(was, now, pages, perms) && Ascending(pages) && i < |pages|
    ensures Protected(was, now[pages[i] := p], pages, perms[i := p])
  {
  }

  /** With their old permissions on all pages, nothing has changed. */
  lemma ProtectedBack(was: map<nat, Prot>, now: map<nat, Prot>, pages: seq<nat>, perms: seq<Prot>)
    requires Protected(was, now, pages, perms) && Protected(was, was, pages, perms)
    ensures now == was
  {
    forall p | p in was
      ensures now[p] == was[p]
    {
      if p in pages {
        var i :| 0 <= i < |pages| && pages[i] == p;
      }
    }
  }

  ghost function PermsOf(prot: map<nat, Prot>, pages: seq<nat>): seq<Prot>
    requires forall p :: p in pages ==> p in prot
  {
    seq(|pages|, i requires 0 <= i < |pages| => assert pages[i] in pages; prot[pages[i]])
  }

  /** One page more of a list of pages. */
  lemma PagesStep(all: seq<nat>, pages: seq<nat>, page: nat, last: nat, pageSize: nat)
    requires pageSize > 0 && page <= last && all == pages + PagesFrom(page, last, pageSize)
    ensures page in all && all == pages + [page] + PagesFrom(page + pageSize, last, pageSize)
    ensures page == last ==> all == pages + [page]
  {
    assert all[|pages|] == page;
  }

  lemma Collected(prot: map<nat, Prot>, pages: seq<nat>, orig: seq<Prot>)
    requires |orig| == |pages| && forall i {:trigger pages[i]} :: 0 <= i < |pages| ==> pages[i] in prot && orig[i] == prot[pages[i]]
    ensures (forall p :: p in pages ==> p in prot) && orig == PermsOf(prot, pages)
  {
  }

  /** The address range is sound and all of it is mapped. */
  ghost predicate Patchable(addr: nat, n: nat, prot: map<nat, Prot>, pageSize: nat) {
    && pageSize > 0 && addr != 0 && n != 0 && addr + n - 1 < ADDRESS_SPACE
    && forall p :: p in Touched(addr, n, pageSize) ==> p in prot
  }

  /** A readable patch inside one page never faults, whatever is refused. */
  lemma OnePageNeverFaults(refuses: Answers, addr: nat, n: nat, prot: map<nat, Prot>, pageSize: nat, c: nat)
    requires Patchable(addr, n, prot, pageSize) && M.Floor(addr, pageSize) == M.Floor(addr + n - 1, pageSize)
    requires prot[Touched(addr, n, pageSize)[0]].r
    ensures Touched(addr, n, pageSize) == [M.Floor(addr, pageSize)]
    ensures !Faults(refuses, PermsOf(prot, Touched(addr, n, pageSize)), c)
  {
    hide M.Floor;
    var first := M.Floor(addr, pageSize);
    assert PagesFrom(first + pageSize, first, pageSize) == [];
    var orig := PermsOf(prot, Touched(addr, n, pageSize));
    assert |orig| == 1 && orig[0].r;
    if Stuck(refuses, orig, c) {
      var i: nat :| StuckAt(refuses, orig, c, i);
      assert Granted(refuses, c + 1, 1);
    }
  }

  class Process {
    const pageSize: nat
    const refuses: Answers
    const copies: nat -> bool
    var image: Image
    var prot: map<nat, Prot>
    var calls: nat

    constructor (pageSize: nat, refuses: Answers, copies: nat -> bool, image: Image, prot: map<nat, Prot>)
      ensures this.pageSize == pageSize && this.refuses == refuses && this.copies == copies
      ensures this.image == image && this.prot == prot && calls == 0
    {
      this.pageSize, this.refuses, this.copies, this.image, this.prot, calls := pageSize, refuses, copies, image, prot, 0;
    }

    method Mprotect(page: nat, p: Prot) returns (ok: bool)
      requires page in prot
      modifies this`prot, this`calls
      ensures ok == !refuses(old(calls)) && calls == old(calls) + 1
      ensures prot == if ok then old(prot)[page := p] else old(prot)
    {
      ok := !refuses(calls);
      calls := calls + 1;
      if ok {
        prot := prot[page := p];
      }
    }

    /** Sets the permission of every page and carries on after a refusal. */
    method ProtectAll(pages: seq<nat>, target: seq<Prot>, ghost was: map<nat, Prot>, ghost now: seq<Prot>) returns (ok: bool)
      requires Ascending(pages) && |pages| == |target| && Protected(was, prot, pages, now)
      modifies this`prot, this`calls
      ensures Protected(was, prot, pages, Pass(refuses, now, target, old(calls))) && calls == old(calls) + |pages|
      ensures ok <==> Granted(refuses, old(calls), |pages|)
    {
      hide Protected, Ascending, PassTo, Pass;
      ProtectedLength(was, prot, pages, now);
      PassEnds(refuses, now, target, calls);
      ok := true;
      var i := 0;
      while i < |pages|
        invariant 0 <= i <= |pages| == |now| && calls == old(calls) + i
        invariant Protected(was, prot, pages, PassTo(refuses, now, target, old(calls), i))
        invariant ok <==> Granted(refuses, old(calls), i)
      {
        ghost var perms := PassTo(refuses, now, target, old(calls), i);
        PageMapped(was, prot, pages, perms, i);
        ProtectedSet(was, prot, pages, perms, i, target[i]);
        PassStep(refuses, now, target, old(calls), i);
        var done := Mprotect(pages[i], target[i]);
        ok := ok && done;
        i := i + 1;
      }
    }

    lemma PageMapped(was: map<nat, Prot>, now: map<nat, Prot>, pages: seq<nat>, perms: seq<Prot>, i: nat)
      requires Protected(was, now, pages, perms) && i < |pages|
      ensures |perms| == |pages| && pages[i] in now
    {
    }

    /** Makes the pages writable in turn and stops at the first refusal. */
    method EnableWrites(pages: seq<nat>, orig: seq<Prot>) returns (ok: bool, ghost k: nat)
      requires Ascending(pages) && Protected(prot, prot, pages, orig)
      modifies this`prot, this`calls
      ensures k == FirstRefused(refuses, old(calls), |orig|) && |orig| == |pages|
      ensures Protected(old(prot), prot, pages, Enabled(orig, k))
      ensures ok <==> Granted(refuses, old(calls), |orig|)
      ensures ok <==> k == |orig|
      ensures calls == old(calls) + if ok then |orig| else k + 1
    {
      hide Protected, Ascending, Enabled, FirstRefused;
      ghost var was := prot;
      EnabledNone(orig);
      ProtectedLength(was, prot, pages, orig);
      var i := 0;
      k := 0;
      while i < |orig|
        invariant 0 <= i <= |orig| && calls == old(calls) + i && k == i
        invariant Protected(was, prot, pages, Enabled(orig, i)) && Granted(refuses, old(calls), i)
      {
        PageMapped(was, prot, pages, Enabled(orig, i), i);
        ProtectedSet(was, prot, pages, Enabled(orig, i), i, Writable(orig[i]));
        EnabledStep(orig, i);
        ok := Mprotect(pages[i], Writable(orig[i]));
        if !ok {
          FirstRefusedIs(refuses, old(calls), |orig|, i);
          return;
        }
        i, k := i + 1, k + 1;
      }
      FirstRefusedIs(refuses, old(calls), |orig|, i);
      ok := true;
    }

    lemma ProtectedLength(was: map<nat, Prot>, now: map<nat, Prot>, pages: seq<nat>, perms: seq<Prot>)
      requires Protected(was, now, pages, perms)
      ensures |pages| == |perms|
    {
    }

    /** The pages of [addr, addr + n - 1], with their permissions; not ok when one is not mapped. */
    method CollectPages(addr: nat, n: nat) returns (ok: bool, pages: seq<nat>, orig: seq<Prot>)
      requires pageSize > 0 && n > 0
      ensures ok <==> forall p :: p in Touched(addr, n, pageSize) ==> p in prot
      ensures ok ==> pages == Touched(addr, n, pageSize) && orig == PermsOf(prot, pages)
    {
      hide M.OnPage, M.Floor, PagesFrom, PermsOf;
      M.FloorOnPage(addr, pageSize);
      M.FloorOnPage(addr + n - 1, pageSize);
      var first, last := M.Floor(addr, pageSize), M.Floor(addr + n - 1, pageSize);
      ghost var all := Touched(addr, n, pageSize);
      FloorMonotone(addr, addr + n - 1);
      var page := first;
      pages, orig := [], [];
      while true
        invariant M.OnPage(page, pageSize) && first <= page <= last && |orig| == |pages| && all == pages + PagesFrom(page, last, pageSize)
        invariant forall i {:trigger pages[i]} :: 0 <= i < |pages| ==> pages[i] in prot && orig[i] == prot[pages[i]]
        decreases last - page
      {
        PagesStep(all, pages, page, last, pageSize);
        if page !in prot {
          return false, [], [];
        }
        pages, orig := pages + [page], orig + [prot[page]];
        if page == last {
          break;
        }
        NextPage(page, last);
        page := page + pageSize;
      }
      ok := true;
      Collected(prot, pages, orig);
    }

    /** An address on a page that may not be written. */
    ghost predicate OnReadOnly(pages: seq<nat>, perms: seq<Prot>, a: nat)
      requires |pages| == |perms|
    {
      exists i {:trigger pages[i]} :: 0 <= i < |pages| && !perms[i].w && pages[i] <= a < pages[i] + pageSize
    }

    /** Bytes on writable pages may have been written, those on the others have not. */
    ghost predicate HalfStored(was: Image, now: Image, addr: nat, bytes: seq<int>, pages: seq<nat>, perms: seq<Prot>) {
      && |pages| == |perms|
      && forall a: nat :: now(a) ==
           if addr <= a < addr + |bytes| && copies(a) && !OnReadOnly(pages, perms, a) then bytes[a - addr] else was(a)
    }

    /** memcpy into the range: it faults unless every page of it is writable, with any of the writable bytes written. */
    method Store(addr: nat, bytes: seq<int>, pages: seq<nat>, ghost was: map<nat, Prot>, ghost perms: seq<Prot>) returns (ok: bool)
      requires Protected(was, prot, pages, perms)
      modifies this`image
      ensures ok <==> forall i {:trigger perms[i]} :: 0 <= i < |perms| ==> perms[i].w
      ensures ok ==> image == Overlay(old(image), addr, bytes)
      ensures !ok ==> HalfStored(old(image), image, addr, bytes, pages, perms)
    {
      ok := forall i :: 0 <= i < |pages| ==> prot[pages[i]].w;
      assert ok <==> forall i {:trigger perms[i]} :: 0 <= i < |perms| ==> perms[i].w by {
        assert forall i {:trigger perms[i]} {:trigger pages[i]} :: 0 <= i < |perms| ==> prot[pages[i]] == perms[i];
      }
      if ok {
        image := Overlay(image, addr, bytes);
      } else {
        var before, now := image, prot;
        image := (a: nat) =>
          if addr <= a < addr + |bytes| && copies(a)
             && forall i :: 0 <= i < |pages| && pages[i] <= a < pages[i] + pageSize ==> pages[i] in now && now[pages[i]].w
          then bytes[a - addr] else before(a);
      }
    }

    /** What the roll-back had done when it faulted: no stuck page was written, the others may have been. */
    ghost predicate HalfRolledBack(was: Image, now: Image, addr: nat, buffer: seq<int>, pages: seq<nat>, orig: seq<Prot>, c: nat)
      requires |pages| == |orig|
    {
      forall a: nat :: now(a) ==
        if addr <= a < addr + |buffer| && (!copies(a) || OnStuck(pages, orig, c, a)) then buffer[a - addr] else was(a)
    }

    ghost predicate OnStuck(pages: seq<nat>, orig: seq<Prot>, c: nat, a: nat)
      requires |pages| == |orig|
    {
      exists i {:trigger pages[i]} :: 0 <= i < |pages| && StuckAt(refuses, orig, c, i) && pages[i] <= a < pages[i] + pageSize
    }

    /**
      DobbyCodePatch.  Done means the range holds the buffer and nothing else, not
      even a permission, has changed.  Failed means that no byte has changed; which
      pages stay writable is known.  A fault comes before anything was done, or in the
      roll-back, where the stuck pages keep the new bytes.  All of it is decided by
      the range, the permissions before the call and the refused calls.
     */
    method Patch(addr: nat, buffer: seq<int>) returns (r: Outcome)
      requires pageSize > 0
      modifies this
      ensures !Patchable(addr, |buffer|, old(prot), pageSize) ==>
                r == Failed && image == old(image) && prot == old(prot) && calls == old(calls)
      ensures Patchable(addr, |buffer|, old(prot), pageSize) ==>
                var pages := Touched(addr, |buffer|, pageSize);
                var orig, c := PermsOf(old(prot), pages), old(calls);
                && (r == Done <==> Readable(orig) && Granted(refuses, c, 2 * |orig|))
                && (r == Fault <==> Faults(refuses, orig, c))
                && calls == c + CallsMade(refuses, orig, c)
                && (r == Done ==> SameImage(image, Overlay(old(image), addr, buffer)) && prot == old(prot))
                && (r == Failed ==> SameImage(image, old(image)) && Protected(old(prot), prot, pages, LeftBehind(refuses, orig, c)))
                && (r == Fault && !Readable(orig) ==> image == old(image) && prot == old(prot))
                && (r == Fault && Readable(orig) ==>
                      && HalfRolledBack(old(image), image, addr, buffer, pages, orig, c)
                      && Protected(old(prot), prot, pages, AtFault(refuses, orig, c)))
    {
      hide M.Floor, Touched, Protected, Faults, Granted, HalfRolledBack, LeftBehind, AtFault, Ascending, CallsMade;
      if addr == 0 || buffer == [] || addr + |buffer| - 1 >= ADDRESS_SPACE {
        return Failed;
      }
      var ok, pages, orig := CollectPages(addr, |buffer|);
      if !ok {
        return Failed;
      }
      TouchedExact(addr, |buffer|, pageSize);
      ProtectedNow(prot, pages);
      r := PatchPages(addr, buffer, pages, orig);
    }

    lemma ProtectedNow(prot: map<nat, Prot>, pages: seq<nat>)
      requires forall p :: p in pages ==> p in prot
      ensures Protected(prot, prot, pages, PermsOf(prot, pages))
    {
    }

    method PatchPages(addr: nat, buffer: seq<int>, pages: seq<nat>, orig: seq<Prot>) returns (r: Outcome)
      requires |pages| == |orig| && Ascending(pages) && Protected(prot, prot, pages, orig)
      modifies this
      ensures r == Done <==> Readable(orig) && Granted(refuses, old(calls), 2 * |orig|)
      ensures r == Fault <==> Faults(refuses, orig, old(calls))
      ensures calls == old(calls) + CallsMade(refuses, orig, old(calls))
      ensures r == Done ==> SameImage(image, Overlay(old(image), addr, buffer)) && prot == old(prot)
      ensures r == Failed ==> SameImage(image, old(image)) && Protected(old(prot), prot, pages, LeftBehind(refuses, orig, old(calls)))
      ensures r == Fault && !Readable(orig) ==> image == old(image) && prot == old(prot)
      ensures r == Fault && Readable(orig) ==>
                && HalfRolledBack(old(image), image, addr, buffer, pages, orig, old(calls))
                && Protected(old(prot), prot, pages, AtFault(refuses, orig, old(calls)))
    {
      hide Granted, Protected, Ascending, LeftBehind, AtFault, HalfRolledBack, Stuck, FirstRefused;
      if exists i :: 0 <= i < |orig| && !orig[i].r {
        return Fault;
      }
      var before := image;
      var original := seq(|buffer|, k requires 0 <= k < |buffer| => before(addr + k));
      ghost var was, c := prot, calls;
      GrantedSplit(refuses, calls, |orig|);
      ghost var k;
      var enabled;
      enabled, k := EnableWrites(pages, orig);
      if !enabled {
        var _ := ProtectAll(pages, orig, was, Enabled(orig, k));
        LeftByRefusal(refuses, orig, c, k);
        return Failed;
      }
      EnabledNone(orig);
      r := PatchWritable(addr, buffer, original, pages, orig, was, c);
      OverlayUndone(before, addr, buffer, original);
    }

    /** The pages are writable: copy, restore the permissions, and undo both if a permission is refused. */
    method PatchWritable(addr: nat, buffer: seq<int>, original: seq<int>, pages: seq<nat>, orig: seq<Prot>,
                         ghost was: map<nat, Prot>, ghost c: nat) returns (r: Outcome)
      requires |pages| == |orig| && Ascending(pages) && calls == c + |orig| && Granted(refuses, c, |orig|)
      requires Protected(was, was, pages, orig) && Protected(was, prot, pages, AllWritable(orig))
      requires |original| == |buffer| && forall k :: 0 <= k < |buffer| ==> original[k] == image(addr + k)
      modifies this
      ensures r == Done <==> Granted(refuses, c + |orig|, |orig|)
      ensures calls == c + |orig| * if r == Done then 2 else if r == Fault then 3 else 4
      ensures r == Fault <==> !Granted(refuses, c + |orig|, |orig|) && Stuck(refuses, orig, c)
      ensures r == Done ==> image == Overlay(old(image), addr, buffer) && prot == was
      ensures r == Failed ==>
                && image == Overlay(Overlay(old(image), addr, buffer), addr, original)
                && Protected(was, prot, pages, LeftBehind(refuses, orig, c))
      ensures r == Fault ==>
                && HalfRolledBack(old(image), image, addr, buffer, pages, orig, c)
                && Protected(was, prot, pages, AtFault(refuses, orig, c))
    {
      hide Granted, Protected, Ascending, LeftBehind, AtFault, HalfRolledBack, Stuck;
      ghost var before := image;
      var _ := Store(addr, buffer, pages, was, AllWritable(orig));
      var restored := Restore(pages, orig, was, c);
      if restored {
        return Done;
      }
      var ok := RollBack(addr, original, pages, orig, was, c);
      if !ok {
        HalfBack(before, image, addr, buffer, original, pages, orig, c);
      }
      return if ok then Failed else Fault;
    }

    /** The restoring pass: every permission is back, or exactly the refused pages have stayed writable. */
    method Restore(pages: seq<nat>, orig: seq<Prot>, ghost was: map<nat, Prot>, ghost c: nat) returns (restored: bool)
      requires |pages| == |orig| && Ascending(pages) && calls == c + |orig|
      requires Protected(was, was, pages, orig) && Protected(was, prot, pages, AllWritable(orig))
      modifies `prot, `calls
      ensures restored <==> Granted(refuses, c + |orig|, |orig|)
      ensures restored ==> prot == was
      ensures Protected(was, prot, pages, Pass(refuses, AllWritable(orig), orig, c + |orig|)) && calls == c + 2 * |orig|
    {
      hide Protected, Ascending;
      restored := ProtectAll(pages, orig, was, AllWritable(orig));
      if restored {
        assert Pass(refuses, AllWritable(orig), orig, c + |orig|) == orig;
        ProtectedBack(was, prot, pages, orig);
      }
    }

    /** Makes the pages writable again, writes the old bytes back and restores the permissions. */
    method RollBack(addr: nat, original: seq<int>, pages: seq<nat>, orig: seq<Prot>, ghost was: map<nat, Prot>, ghost c: nat) returns (ok: bool)
      requires |pages| == |orig| && Ascending(pages) && calls == c + 2 * |orig| && Granted(refuses, c, |orig|)
      requires Protected(was, prot, pages, Pass(refuses, AllWritable(orig), orig, c + |orig|))
      modifies this
      ensures ok <==> !Stuck(refuses, orig, c)
      ensures calls == c + |orig| * if ok then 4 else 3
      ensures ok ==> image == Overlay(old(image), addr, original) && Protected(was, prot, pages, LeftBehind(refuses, orig, c))
      ensures !ok ==> Protected(was, prot, pages, AtFault(refuses, orig, c))
      ensures !ok ==> HalfStored(old(image), image, addr, original, pages, AtFault(refuses, orig, c))
    {
      hide Granted, Protected, Ascending, Stuck, LeftBehind, AtFault, HalfStored;
      RollBackPasses(refuses, orig, c);
      var _ := ProtectAll(pages, AllWritable(orig), was, Pass(refuses, AllWritable(orig), orig, c + |orig|));
      ok := Store(addr, original, pages, was, AtFault(refuses, orig, c));
      if ok {
        var _ := ProtectAll(pages, orig, was, AtFault(refuses, orig, c));
      }
    }

    /** A read-only page at the fault is a stuck one. */
    lemma HalfBack(before: Image, now: Image, addr: nat, buffer: seq<int>, original: seq<int>, pages: seq<nat>, orig: seq<Prot>, c: nat)
      requires |pages| == |orig| && |original| == |buffer| && forall k :: 0 <= k < |buffer| ==> original[k] == before(addr + k)
      requires HalfStored(Overlay(before, addr, buffer), now, addr, original, pages, AtFault(refuses, orig, c))
      ensures HalfRolledBack(before, now, addr, buffer, pages, orig, c)
    {
      assert forall a: nat :: OnReadOnly(pages, AtFault(refuses, orig, c), a) <==> OnStuck(pages, orig, c, a);
    }

    lemma FloorMonotone(a: nat, b: nat)
      requires pageSize > 0 && a <= b
      ensures M.Floor(a, pageSize) <= M.Floor(b, pageSize)
    {
      hide M.OnPage, M.Floor;
      M.FloorOnPage(a, pageSize);
      M.FloorOnPage(b, pageSize);
      if M.Floor(a, pageSize) != M.Floor(b, pageSize) {
        M.PagesApart(M.Floor(a, pageSize), M.Floor(b, pageSize), pageSize);
      }
    }

    /** After `page` comes `page + pageSize`, not beyond the last. */
    lemma NextPage(page: nat, last: nat)
      requires M.OnPage(page, pageSize) && M.OnPage(last, pageSize) && page < last
      ensures M.OnPage(page + pageSize, pageSize) && page + pageSize <= last
    {
      M.OnNextPage(page, pageSize);
      M.PagesApart(page, last, pageSize);
    }
  }

  /** What a refused write permission leaves. */
  lemma LeftByRefusal(refuses: Answers, orig: seq<Prot>, c: nat, k: nat)
    requires k == FirstRefused(refuses, c, |orig|) < |orig|
    ensures Pass(refuses, Enabled(orig, k), orig, c + k + 1) == LeftBehind(refuses, orig, c)
  {
    hide Pass, LeftBehind, Enabled, FirstRefused, Granted, LeftWritable;
    var after, left := Pass(refuses, Enabled(orig, k), orig, c + k + 1), LeftBehind(refuses, orig, c);
    forall i | 0 <= i < |orig|
      ensures after[i] == left[i]
    {
      LeftAt(refuses, |orig|, c, k, i);
      assert after[i] == if refuses(c + k + 1 + i) then Enabled(orig, k)[i] else orig[i];
    }
  }

  lemma LeftAt(refuses: Answers, n: nat, c: nat, k: nat, i: nat)
    requires k == FirstRefused(refuses, c, n) < n
    ensures LeftWritable(refuses, n, c, i) <==> i < k && refuses(c + k + 1 + i)
  {
    hide FirstRefused, Granted;
  }

  /** What the three passes after a granted one leave, and which pages the second of them leaves read-only. */
  lemma RollBackPasses(refuses: Answers, orig: seq<Prot>, c: nat)
    requires Granted(refuses, c, |orig|)
    ensures var restored := Pass(refuses, AllWritable(orig), orig, c + |orig|);
      && Pass(refuses, restored, AllWritable(orig), c + 2 * |orig|) == AtFault(refuses, orig, c)
      && Pass(refuses, AtFault(refuses, orig, c), orig, c + 3 * |orig|) == LeftBehind(refuses, orig, c)
    ensures Stuck(refuses, orig, c) <==>
              !forall i {:trigger AtFault(refuses, orig, c)[i]} :: 0 <= i < |orig| ==> AtFault(refuses, orig, c)[i].w
  {
    hide Pass, LeftBehind, AtFault, AllWritable, FirstRefused, Granted;
    FirstRefusedIs(refuses, c, |orig|, |orig|);
    var restored, at := Pass(refuses, AllWritable(orig), orig, c + |orig|), AtFault(refuses, orig, c);
    forall i | 0 <= i < |orig|
      ensures Pass(refuses, restored, AllWritable(orig), c + 2 * |orig|)[i] == at[i]
      ensures Pass(refuses, at, orig, c + 3 * |orig|)[i] == LeftBehind(refuses, orig, c)[i]
      ensures StuckAt(refuses, orig, c, i) <==> !at[i].w
    {
      assert restored[i] == if refuses(c + |orig| + i) then Writable(orig[i]) else orig[i];
    }
  }

  const RX := Prot(true, false, true)

  /** Refuses to restore the second of two pages, and then to make the first one writable. */
  const SECOND_AND_FIRST: Answers := k => k == 3 || k == 4

  lemma TwoPages(prot: map<nat, Prot>)
    requires prot == map[0x1000 := RX, 0x2000 := RX]
    ensures Touched(0x1FFF, 2, 0x1000) == [0x1000, 0x2000] && Patchable(0x1FFF, 2, prot, 0x1000)
    ensures PermsOf(prot, [0x1000, 0x2000]) == [RX, RX]
  {
    assert M.Floor(0x1FFF, 0x1000) == 0x1000 && M.Floor(0x2000, 0x1000) == 0x2000;
    assert PagesFrom(0x3000, 0x2000, 0x1000) == [];
    assert PagesFrom(0x2000, 0x2000, 0x1000) == [0x2000];
  }

  lemma TwoPagesFault()
    ensures Faults(SECOND_AND_FIRST, [RX, RX], 0) && StuckAt(SECOND_AND_FIRST, [RX, RX], 0, 0)
    ensures AtFault(SECOND_AND_FIRST, [RX, RX], 0) == [RX, Writable(RX)]
  {
    assert SECOND_AND_FIRST(3) && StuckAt(SECOND_AND_FIRST, [RX, RX], 0, 0);
  }

  /**
    A patch over two pages that faults: both get their write permission, the first
    gets its old one back, the second does not, and then the first is refused.  The
    new byte stays on it.
   */
  method FaultsHere(copies: nat -> bool) returns (p: Process, r: Outcome)
    ensures r == Fault && p.image(0x1FFF) == 1
    ensures p.prot == map[0x1000 := RX, 0x2000 := Writable(RX)]
  {
    hide Touched, PermsOf, Patchable, Faults, AtFault, StuckAt, Granted;
    p := new Process(0x1000, SECOND_AND_FIRST, copies, (a: nat) => 0, map[0x1000 := RX, 0x2000 := RX]);
    ghost var pages: seq<nat> := [0x1000, 0x2000];
    TwoPages(p.prot);
    TwoPagesFault();
    r := p.Patch(0x1FFF, [1, 2]);
    assert p.OnStuck(pages, [RX, RX], 0, 0x1FFF) by {
      assert pages[0] == 0x1000;
    }
    assert p.prot[pages[0]] == RX && p.prot[pages[1]] == Writable(RX);
  }
}
