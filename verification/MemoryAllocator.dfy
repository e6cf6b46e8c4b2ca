/**
  The executable-memory allocator: a bump allocator per page, reuse of freed
  records, and a page that goes back to the OS when its last live block is freed.
  What the OS answers (a page address or a refusal) is a parameter.
 */
module MemoryAllocator {

  /** Rounds up to a multiple of eight. */
  function AlignUp8(x: nat): nat {
    (x + 7) / 8 * 8
  }

  function Floor(x: nat, unit: nat): nat
    requires unit > 0
  {
    x / unit * unit
  }

  predicate OnPage(x: nat, unit: nat) {
    unit > 0 && x % unit == 0
  }

  /** The values ALIGN_CEIL is meant for, where its mask rounds up to a multiple. */
  predicate PowerOfTwo(a: nat) {
    a == 1 || (a > 1 && a % 2 == 0 && PowerOfTwo(a / 2))
  }

  function AlignUp(x: nat, a: nat): (r: nat)
    requires a > 0
    ensures x <= r < x + a && r % a == 0
  {
    var r := (x + (a - 1)) / a * a;
    assert (x + (a - 1)) == r + (x + (a - 1)) % a;
    MultipleOf((x + (a - 1)) / a, a);
    r
  }

  lemma MultipleOf(q: nat, a: nat)
    requires a > 0
    ensures q * a % a == 0
  {
    DivUnique(q * a, a, q);
  }

  lemma AlignUpFrom(buffer: nat, size: nat)
    requires buffer % 8 == 0
    ensures AlignUp(buffer + size, 8) == buffer + AlignUp8(size)
  {
    hide AlignUp, AlignUp8;
    RoundedUp(size);
    SumOfEights(buffer, AlignUp8(size));
    AlignedTwice(buffer + size, AlignUp(buffer + size, 8), buffer + AlignUp8(size));
  }

  lemma RoundedUp(x: nat)
    ensures x <= AlignUp8(x) < x + 8 && AlignUp8(x) % 8 == 0
  {
  }

  lemma SumOfEights(a: nat, b: nat)
    requires a % 8 == 0 && b % 8 == 0
    ensures (a + b) % 8 == 0
  {
  }

  /** There is one multiple of eight from x on below x + 8. */
  lemma AlignedTwice(x: nat, r: nat, s: nat)
    requires x <= r < x + 8 && x <= s < x + 8 && r % 8 == 0 && s % 8 == 0
    ensures r == s
  {
  }

  const TWO32: nat := 0x1_0000_0000

  /** simple_linear_allocator_t: hands out [buffer, buffer + capacity) from the bottom; sizes have 32 bits. */
  class LinearAllocator {
    const buffer: nat
    const capacity: nat
    const alignment: nat
    var size: nat

    constructor (buffer: nat, capacity: nat, alignment: nat := 8)
      ensures this.buffer == buffer && this.capacity == capacity && size == 0
      ensures this.alignment == if alignment == 0 then 1 else alignment
    {
      this.buffer, this.capacity, size := buffer, capacity, 0;
      this.alignment := if alignment == 0 then 1 else alignment;
    }

    /** Where the next block of an alignment would start, in 32 bits. */
    function Start(alignment: nat): nat
      requires alignment > 0
      reads this
    {
      (AlignUp(buffer + size, alignment) - buffer) % TWO32
    }

    /**
      The cursor is rounded up even when the request then does not fit.  The sum of cursor
      and request is taken in 32 bits, so the block lies inside the buffer exactly when
      that sum does not wrap around.
     */
    method Alloc(n: nat, alignment: nat := 0) returns (addr: nat)
      requires n < TWO32 && capacity < TWO32 && size < TWO32 && PowerOfTwo(if alignment != 0 then alignment else this.alignment)
      modifies this`size
      ensures var start := old(Start(if alignment != 0 then alignment else this.alignment));
              var end := (start + n) % TWO32;
              if end <= capacity then addr == buffer + start && size == end else addr == 0 && size == start
      ensures var start := old(Start(if alignment != 0 then alignment else this.alignment));
              (start + n) % TWO32 <= capacity ==> (start + n <= capacity <==> start + n < TWO32)
    {
      hide AlignUp;
      var a := if alignment != 0 then alignment else this.alignment;
      var cursor := buffer + size;
      var gap := AlignUp(cursor, a) - cursor;
      size := (size + gap) % TWO32;
      if (size + n) % TWO32 > capacity {
        return 0;
      }
      addr := buffer + size;
      size := (size + n) % TWO32;
    }
  }

  lemma EightIsPowerOfTwo()
    ensures PowerOfTwo(8)
  {
    assert PowerOfTwo(4);
  }

  lemma NoWrap(x: nat)
    requires x < TWO32
    ensures x % TWO32 == x
  {
  }

  lemma RoundedFits(size: nat, capacity: nat)
    requires size <= capacity && capacity % 8 == 0
    ensures size <= AlignUp8(size) <= capacity
  {
  }

  /** An aligned page, and requests that do not wrap around. */
  method Bump(a: LinearAllocator, n: nat) returns (addr: nat)
    requires a.alignment == 8 && a.buffer % 8 == 0 && a.capacity % 8 == 0 && a.size <= a.capacity && a.capacity + n + 8 < TWO32
    modifies a`size
    ensures var start := AlignUp8(old(a.size));
            if start + n <= a.capacity then addr == a.buffer + start && a.size == start + n
            else addr == 0 && a.size == start
    ensures a.size <= a.capacity
  {
    hide PowerOfTwo, AlignUp, AlignUp8;
    EightIsPowerOfTwo();
    AlignUpFrom(a.buffer, a.size);
    RoundedFits(a.size, a.capacity);
    NoWrap(AlignUp8(a.size));
    NoWrap(AlignUp8(a.size) + n);
    addr := a.Alloc(n);
  }

  /** A request that wraps around is granted, and the cursor goes back to the bottom. */
  method WrappedRequest() returns (a: LinearAllocator, addr: nat)
    ensures a.capacity == 0x1000 && addr == a.buffer + 8 && a.size == 0
  {
    EightIsPowerOfTwo();
    a := new LinearAllocator(0x1000, 0x1000);
    var first := a.Alloc(8);
    addr := a.Alloc(0xFFFF_FFF8);
  }

  /** The pages the process has mapped. */
  class OSMemory {
    var mapped: set<nat>

    constructor ()
      ensures mapped == {}
    {
      mapped := {};
    }

    method Allocate(grant: nat) returns (page: nat)
      modifies this
      ensures page == grant && mapped == if grant == 0 then old(mapped) else old(mapped) + {grant}
    {
      page := grant;
      if grant != 0 {
        mapped := mapped + {grant};
      }
    }

    method Free(page: nat)
      modifies this
      ensures mapped == old(mapped) - {page}
    {
      mapped := mapped - {page};
    }
  }

  datatype PageRecord = PageRecord(allocator: LinearAllocator, page: nat, isExec: bool)
  datatype AllocationRecord = AllocationRecord(addr: nat, size: nat, page: nat, isExec: bool, isFree: bool)
  datatype MemBlock = MemBlock(addr: nat, size: nat)

  const NO_BLOCK := MemBlock(0, 0)

  predicate Disjoint(a: nat, n: nat, b: nat, m: nat) {
    a + n <= b || b + m <= a
  }

  predicate RecordsDisjoint(records: seq<AllocationRecord>) {
    forall j, k {:trigger records[j], records[k]} :: 0 <= j < k < |records| ==>
      Disjoint(records[j].addr, records[j].size, records[k].addr, records[k].size)
  }

  /** Some live record lies on the page. */
  predicate PageLive(records: seq<AllocationRecord>, page: nat, isExec: bool) {
    exists k {:trigger records[k]} :: 0 <= k < |records| && records[k].page == page && records[k].isExec == isExec && !records[k].isFree
  }

  lemma LiveMonotone(records: seq<AllocationRecord>, records': seq<AllocationRecord>)
    requires |records| <= |records'|
    requires forall k {:trigger records[k]} :: 0 <= k < |records| && !records[k].isFree ==> records'[k] == records[k]
    ensures forall page, isExec :: PageLive(records, page, isExec) ==> PageLive(records', page, isExec)
  {
    forall page, isExec | PageLive(records, page, isExec)
      ensures PageLive(records', page, isExec)
    {
      var k :| 0 <= k < |records| && records[k].page == page && records[k].isExec == isExec && !records[k].isFree;
      assert records'[k] == records[k];
    }
  }

  lemma LiveWithout(records: seq<AllocationRecord>, page: nat, isExec: bool)
    ensures forall q, e :: q != page && PageLive(records, q, e) ==> PageLive(Without(records, page, isExec), q, e)
  {
    var kept := Without(records, page, isExec);
    forall q, e | q != page && PageLive(records, q, e)
      ensures PageLive(kept, q, e)
    {
      var k :| 0 <= k < |records| && records[k].page == q && records[k].isExec == e && !records[k].isFree;
      assert records[k] in kept;
      var j :| 0 <= j < |kept| && kept[j] == records[k];
    }
  }

  lemma LiveMarked(records: seq<AllocationRecord>, k: nat)
    requires k < |records|
    ensures forall q, e :: q != records[k].page && PageLive(records, q, e) ==> PageLive(records[k := records[k].(isFree := true)], q, e)
  {
    var marked := records[k := records[k].(isFree := true)];
    forall q, e | q != records[k].page && PageLive(records, q, e)
      ensures PageLive(marked, q, e)
    {
      var j :| 0 <= j < |records| && records[j].page == q && records[j].isExec == e && !records[j].isFree;
      assert marked[j] == records[j];
    }
  }

  predicate Tracked(records: seq<AllocationRecord>, addr: nat, isExec: bool) {
    exists k {:trigger records[k]} :: 0 <= k < |records| && records[k].addr == addr && records[k].isExec == isExec
  }

  lemma DisjointAppend(records: seq<AllocationRecord>, r: AllocationRecord)
    requires RecordsDisjoint(records)
    requires forall k {:trigger records[k]} :: 0 <= k < |records| ==> Disjoint(records[k].addr, records[k].size, r.addr, r.size)
    ensures RecordsDisjoint(records + [r])
  {
  }

  /** The records that survive when a page is released. */
  function Without(records: seq<AllocationRecord>, page: nat, isExec: bool): (r: seq<AllocationRecord>)
    ensures forall x :: x in r <==> x in records && !(x.page == page && x.isExec == isExec)
    ensures |r| <= |records|
  {
    if records == [] then []
    else
      var rest := Without(records[..|records| - 1], page, isExec);
      var last := records[|records| - 1];
      assert records == records[..|records| - 1] + [last];
      if last.page == page && last.isExec == isExec then rest else rest + [last]
  }

  /** Releasing a page goes record by record, so the others keep their order. */
  lemma {:induction false} WithoutParts(a: seq<AllocationRecord>, b: seq<AllocationRecord>, page: nat, isExec: bool)
    ensures Without(a + b, page, isExec) == Without(a, page, isExec) + Without(b, page, isExec)
  {
    if b == [] {
      assert a + b == a;
    } else {
      var n := |b| - 1;
      assert (a + b)[..|a| + n] == a + b[..n];
      WithoutParts(a, b[..n], page, isExec);
    }
  }

  lemma {:induction false} WithoutDisjoint(records: seq<AllocationRecord>, page: nat, isExec: bool)
    requires RecordsDisjoint(records)
    ensures RecordsDisjoint(Without(records, page, isExec))
  {
    if records == [] {
    } else {
      var front, last := records[..|records| - 1], records[|records| - 1];
      WithoutDisjoint(front, page, isExec);
      var rest := Without(front, page, isExec);
      forall j | 0 <= j < |rest|
        ensures Disjoint(rest[j].addr, rest[j].size, last.addr, last.size)
      {
        assert rest[j] in front;
        var i :| 0 <= i < |front| && front[i] == rest[j];
        assert records[i] == front[i] && records[|records| - 1] == last;
      }
    }
  }

  /** Marks the first record of the block free. */
  function MarkFree(records: seq<AllocationRecord>, addr: nat, isExec: bool): (r: seq<AllocationRecord>)
    ensures |r| == |records|
    ensures forall k {:trigger r[k]} {:trigger records[k]} :: 0 <= k < |r| ==> r[k] == records[k] || r[k] == records[k].(isFree := true)
    ensures forall k {:trigger r[k]} {:trigger records[k]} :: 0 <= k < |r| && r[k] != records[k] ==> records[k].addr == addr && records[k].isExec == isExec
  {
    if records == [] then []
    else if records[0].addr == addr && records[0].isExec == isExec then [records[0].(isFree := true)] + records[1..]
    else [records[0]] + MarkFree(records[1..], addr, isExec)
  }

  lemma {:induction false} MarkFreeAt(records: seq<AllocationRecord>, addr: nat, isExec: bool, k: nat)
    requires k < |records| && records[k].addr == addr && records[k].isExec == isExec
    requires forall j :: 0 <= j < k ==> !(records[j].addr == addr && records[j].isExec == isExec)
    ensures MarkFree(records, addr, isExec) == records[k := records[k].(isFree := true)]
  {
    if k == 0 {
    } else {
      var rest := records[1..];
      assert records[0].addr == addr ==> records[0].isExec != isExec;
      assert rest[k - 1] == records[k] && forall j :: 0 <= j < k - 1 ==> rest[j] == records[j + 1];
      MarkFreeAt(rest, addr, isExec, k - 1);
      assert [records[0]] + rest[k - 1 := records[k].(isFree := true)] == records[k := records[k].(isFree := true)];
    }
  }

  /** What was live is live, and not at the new block's address. */
  lemma LiveAfter(was: seq<AllocationRecord>, now: seq<AllocationRecord>, block: MemBlock)
    requires forall r :: r in was && !r.isFree ==> r in now && Disjoint(r.addr, r.size, block.addr, block.size)
    requires forall r <- was :: r.size > 0
    ensures Live(was) <= Live(now) && (block.size > 0 ==> forall r :: r in Live(was) ==> r.addr != block.addr)
  {
  }

  /** The first free record of the kind that is large enough is live again. */
  ghost predicate FirstReused(was: seq<AllocationRecord>, now: seq<AllocationRecord>, n: nat, isExec: bool, addr: nat) {
    exists k {:trigger was[k]} :: 0 <= k < |was| && was[k].isFree && was[k].isExec == isExec && was[k].size >= n && was[k].addr == addr
      && now == was[k := was[k].(isFree := false)]
      && forall j {:trigger was[j]} :: 0 <= j < k ==> !(was[j].isFree && was[j].isExec == isExec && was[j].size >= n)
  }

  lemma ReusedFirst(was: seq<AllocationRecord>, n: nat, isExec: bool, k: nat)
    requires k < |was| && was[k].isFree && was[k].isExec == isExec && was[k].size >= n
    requires forall j {:trigger was[j]} :: 0 <= j < k ==> !(was[j].isFree && was[j].isExec == isExec && was[j].size >= n)
    ensures FirstReused(was, was[k := was[k].(isFree := false)], n, isExec, was[k].addr)
  {
  }

  ghost function Live(records: seq<AllocationRecord>): set<AllocationRecord> {
    set r | r in records && !r.isFree
  }

  /** Marking a block free takes exactly that block out of the live ones. */
  lemma MarkLive(records: seq<AllocationRecord>, addr: nat, isExec: bool)
    requires RecordsDisjoint(records) && forall r <- records :: r.size > 0
    ensures Live(MarkFree(records, addr, isExec)) == set r | r in Live(records) && !(r.addr == addr && r.isExec == isExec)
  {
    hide MarkFree;
    var marked := MarkFree(records, addr, isExec);
    if k :| 0 <= k < |records| && records[k].addr == addr && records[k].isExec == isExec {
      OneAt(records, k);
      MarkFreeAt(records, addr, isExec, k);
      forall r | r in Live(records) && !(r.addr == addr && r.isExec == isExec)
        ensures r in marked
      {
        var j :| 0 <= j < |records| && records[j] == r;
        assert marked[j] == r;
      }
    } else {
      Untracked(records, addr, isExec);
    }
  }

  lemma OneAt(records: seq<AllocationRecord>, k: nat)
    requires RecordsDisjoint(records) && (forall r <- records :: r.size > 0) && k < |records|
    ensures forall j :: 0 <= j < |records| && j != k ==> records[j].addr != records[k].addr
  {
    forall j | 0 <= j < |records| && j != k
      ensures records[j].addr != records[k].addr
    {
      assert records[j] in records && records[k] in records;
    }
  }

  /** Releasing a page without live blocks takes none of the live ones away. */
  lemma WithoutLive(records: seq<AllocationRecord>, page: nat, isExec: bool)
    requires !PageLive(records, page, isExec)
    ensures Live(Without(records, page, isExec)) == Live(records)
  {
    hide Without;
    forall r | r in Live(records)
      ensures !(r.page == page && r.isExec == isExec)
    {
      var j :| 0 <= j < |records| && records[j] == r;
    }
  }

  lemma Untracked(records: seq<AllocationRecord>, addr: nat, isExec: bool)
    requires !Tracked(records, addr, isExec)
    ensures MarkFree(records, addr, isExec) == records
  {
  }

  /** Freeing takes exactly the freed block out of the live ones, whether or not its page goes too. */
  lemma FreeLive(records: seq<AllocationRecord>, addr: nat, isExec: bool, page: nat)
    requires RecordsDisjoint(records) && forall r <- records :: r.size > 0
    ensures var marked := MarkFree(records, addr, isExec);
      var after := if !Tracked(records, addr, isExec) then records
                   else if PageLive(marked, page, isExec) then marked
                   else Without(marked, page, isExec);
      Live(after) == set r | r in Live(records) && !(r.addr == addr && r.isExec == isExec)
  {
    hide Tracked, PageLive, Without, MarkFree, Live;
    MarkLive(records, addr, isExec);
    if !Tracked(records, addr, isExec) {
      Untracked(records, addr, isExec);
    }
    if !PageLive(MarkFree(records, addr, isExec), page, isExec) {
      WithoutLive(MarkFree(records, addr, isExec), page, isExec);
    }
  }

  function RemoveAt<T>(s: seq<T>, i: nat): (r: seq<T>)
    requires i < |s|
    ensures |r| == |s| - 1
    ensures forall j :: 0 <= j < |r| ==> r[j] == if j < i then s[j] else s[j + 1]
  {
    s[..i] + s[i + 1..]
  }

  lemma RemoveAtKeeps<T>(s: seq<T>, i: nat, x: T)
    requires i < |s| && x in s && x != s[i]
    ensures x in RemoveAt(s, i)
  {
    var j :| 0 <= j < |s| && s[j] == x;
    assert RemoveAt(s, i)[if j < i then j else j - 1] == x;
  }

  lemma PagesRemove(pages: seq<PageRecord>, held: Pages, pageSize: nat, i: nat)
    requires PagesMatch(pages, held, pageSize) && i < |pages|
    ensures PagesMatch(RemoveAt(pages, i), held - {pages[i].page}, pageSize)
  {
    hide OnPage;
    var held' := held - {pages[i].page};
    forall p {:trigger p in held'} | p in held'
      ensures held'[p] in RemoveAt(pages, i)
    {
      RemoveAtKeeps(pages, i, held[p]);
    }
  }

  lemma ListRemove(list: seq<LinearAllocator>, held: Pages, isExec: bool, i: nat)
    requires ListOk(list, held, isExec) && i < |list|
    requires forall p {:trigger held[p]} :: p in held ==> held[p].allocator.buffer == p
    ensures ListOk(RemoveAt(list, i), held - {list[i].buffer}, isExec)
  {
    var held' := held - {list[i].buffer};
    forall p {:trigger held'[p]} | p in held' && held'[p].isExec == isExec
      ensures held'[p].allocator in RemoveAt(list, i)
    {
      assert held[p].allocator in list;
      RemoveAtKeeps(list, i, held[p].allocator);
    }
    forall a, b | 0 <= a < b < |RemoveAt(list, i)|
      ensures RemoveAt(list, i)[a] != RemoveAt(list, i)[b]
    {
    }
  }

  lemma ListUnaffected(list: seq<LinearAllocator>, held: Pages, isExec: bool, page: nat)
    requires ListOk(list, held, isExec) && page in held && held[page].isExec != isExec
    ensures ListOk(list, held - {page}, isExec)
  {
  }

  type Pages = map<nat, PageRecord>

  /** The page records and the map of held pages say the same; each page has its own allocator. */
  ghost predicate PagesMatch(pages: seq<PageRecord>, held: Pages, pageSize: nat) {
    && (forall i, j :: 0 <= i < j < |pages| ==> pages[i].page != pages[j].page)
    && (forall i {:trigger pages[i]} :: 0 <= i < |pages| ==> pages[i].page in held && held[pages[i].page] == pages[i])
    && (forall p {:trigger p in held} {:trigger held[p]} :: p in held ==>
          && held[p] in pages && held[p].page == p && p > 0 && p % 8 == 0 && OnPage(p, pageSize)
          && held[p].allocator.buffer == p && held[p].allocator.capacity == pageSize && held[p].allocator.alignment == 8)
  }

  /** The allocators of one kind are exactly those of the held pages of that kind, once each. */
  ghost predicate ListOk(list: seq<LinearAllocator>, held: Pages, isExec: bool) {
    && (forall i, j :: 0 <= i < j < |list| ==> list[i] != list[j])
    && (forall i {:trigger list[i]} :: 0 <= i < |list| ==>
          list[i].buffer in held && held[list[i].buffer] == PageRecord(list[i], list[i].buffer, isExec))
    && (forall p {:trigger held[p]} :: p in held && held[p].isExec == isExec ==> held[p].allocator in list)
  }

  lemma PagesAppend(pages: seq<PageRecord>, held: Pages, pageSize: nat, r: PageRecord)
    requires PagesMatch(pages, held, pageSize) && r.page !in held && r.page > 0 && r.page % 8 == 0 && OnPage(r.page, pageSize)
    requires r.allocator.buffer == r.page && r.allocator.capacity == pageSize && r.allocator.alignment == 8
    ensures PagesMatch(pages + [r], held[r.page := r], pageSize)
  {
    var pages', held' := pages + [r], held[r.page := r];
    forall p {:trigger p in held'} | p in held'
      ensures held'[p] in pages'
    {
      if p != r.page {
        assert held[p] in pages;
      } else {
        assert pages'[|pages|] == r;
      }
    }
  }

  lemma ListAppend(list: seq<LinearAllocator>, held: Pages, r: PageRecord, isExec: bool)
    requires ListOk(list, held, isExec) && r.page !in held && r.allocator.buffer == r.page
    ensures ListOk(if r.isExec == isExec then list + [r.allocator] else list, held[r.page := r], isExec)
  {
  }

  /** The page's record and its allocator are taken out of their lists. */
  method TakeOut(pages: seq<PageRecord>, list: seq<LinearAllocator>, ghost held: Pages, ghost pageSize: nat, page: nat, isExec: bool)
      returns (pages': seq<PageRecord>, list': seq<LinearAllocator>)
    requires PagesMatch(pages, held, pageSize) && ListOk(list, held, isExec) && page in held && held[page].isExec == isExec
    ensures PagesMatch(pages', held - {page}, pageSize) && ListOk(list', held - {page}, isExec)
  {
    hide PagesMatch, ListOk, OnPage;
    var i := PageIndex(pages, held, pageSize, page, isExec);
    PagesRemove(pages, held, pageSize, i);
    var j := ListIndex(list, held, pages[i].allocator, isExec);
    ListRemove(list, held, isExec, j);
    pages', list' := RemoveAt(pages, i), RemoveAt(list, j);
  }

  method PageIndex(pages: seq<PageRecord>, ghost held: Pages, ghost pageSize: nat, page: nat, isExec: bool) returns (i: nat)
    requires PagesMatch(pages, held, pageSize) && page in held && held[page].isExec == isExec
    ensures i < |pages| && pages[i] == held[page] && pages[i].page == page && pages[i].allocator.buffer == page
    ensures forall p {:trigger held[p]} :: p in held ==> held[p].allocator.buffer == p
  {
    i := 0;
    assert held[page] in pages;
    while !(pages[i].page == page && pages[i].isExec == isExec)
      invariant i < |pages|
      invariant forall j {:trigger pages[j]} :: 0 <= j < i ==> pages[j].page != page
      decreases |pages| - i
    {
      i := i + 1;
    }
  }

  method ListIndex(list: seq<LinearAllocator>, ghost held: Pages, a: LinearAllocator, isExec: bool) returns (i: nat)
    requires ListOk(list, held, isExec) && a.buffer in held && held[a.buffer] == PageRecord(a, a.buffer, isExec)
    ensures i < |list| && list[i] == a
  {
    i := 0;
    assert a in list;
    while list[i] != a
      invariant i < |list|
      invariant forall j :: 0 <= j < i ==> list[j] != a
      decreases |list| - i
    {
      i := i + 1;
    }
  }

  class MemoryAllocator {
    const pageSize: nat
    const os: OSMemory
    var code: seq<LinearAllocator>
    var data: seq<LinearAllocator>
    var pages: seq<PageRecord>
    var records: seq<AllocationRecord>
    ghost var held: map<nat, PageRecord>

    ghost function Allocators(): set<LinearAllocator>
      reads this
    {
      set p | p in held :: held[p].allocator
    }

    ghost predicate CursorsOk()
      reads this, Allocators()
    {
      forall p {:trigger held[p]} :: p in held ==> held[p].allocator.size <= pageSize
    }

    /** The record is below the cursor of a held page of its own kind. */
    ghost predicate RecordHeld(r: AllocationRecord)
      reads this, Allocators()
    {
      && r.page in held && held[r.page].isExec == r.isExec && r.size > 0 && r.addr % 8 == 0
      && r.page <= r.addr && r.addr + r.size <= r.page + held[r.page].allocator.size
    }

    ghost predicate RecordsOk()
      reads this, Allocators()
    {
      forall k {:trigger records[k]} :: 0 <= k < |records| ==> RecordHeld(records[k])
    }

    /** Everything but the liveness of the pages. */
    ghost predicate Sound()
      reads this, os, Allocators()
    {
      && 0 < pageSize <= 0x4000_0000 && pageSize % 8 == 0
      && PagesMatch(pages, held, pageSize) && ListOk(code, held, true) && ListOk(data, held, false)
      && CursorsOk() && RecordsOk() && RecordsDisjoint(records)
      && (forall p :: p in held ==> p in os.mapped)
    }

    ghost predicate AllLive()
      reads this
    {
      forall p {:trigger held[p]} :: p in held ==> PageLive(records, p, held[p].isExec)
    }

    ghost predicate Valid()
      reads this, os, Allocators()
    {
      Sound() && AllLive()
    }

    constructor (pageSize: nat, os: OSMemory)
      requires 0 < pageSize <= 0x4000_0000 && pageSize % 8 == 0
      ensures Valid() && this.pageSize == pageSize && this.os == os && records == [] && held == map[]
    {
      this.pageSize, this.os := pageSize, os;
      code, data, pages, records, held := [], [], [], [], map[];
    }

    /** The first free record of the kind that is large enough. */
    method FindFree(n: nat, isExec: bool) returns (k: nat)
      ensures k <= |records|
      ensures k < |records| ==> records[k].isFree && records[k].isExec == isExec && records[k].size >= n
      ensures forall j :: 0 <= j < k ==> !(records[j].isFree && records[j].isExec == isExec && records[j].size >= n)
    {
      k := 0;
      while k < |records| && !(records[k].isFree && records[k].isExec == isExec && records[k].size >= n)
        invariant k <= |records|
        invariant forall j :: 0 <= j < k ==> !(records[j].isFree && records[j].isExec == isExec && records[j].size >= n)
      {
        k := k + 1;
      }
    }

    /** [addr, addr + n) lies below the cursor of a held page of the kind, above all records there. */
    ghost predicate Carved(addr: nat, n: nat, isExec: bool)
      reads this, Allocators()
    {
      exists p {:trigger held[p]} :: p in held && held[p].isExec == isExec && p <= addr && addr % 8 == 0
        && addr + n <= p + held[p].allocator.size
        && forall k {:trigger records[k]} :: 0 <= k < |records| && records[k].page == p ==> records[k].addr + records[k].size <= addr
    }

    method TryPage(a: LinearAllocator, n: nat, isExec: bool) returns (addr: nat)
      requires Sound() && 0 < n <= pageSize && a.buffer in held && held[a.buffer] == PageRecord(a, a.buffer, isExec)
      modifies a`size
      ensures Sound()
      ensures addr != 0 ==> Carved(addr, n, isExec) && a.buffer <= addr < a.buffer + pageSize
      ensures addr == 0 <==> AlignUp8(old(a.size)) + n > pageSize
      ensures addr == 0 ==> AlignUp8(a.size) + n > pageSize
      ensures addr != 0 ==> TakenAt(a.buffer, addr, n, isExec, AlignUp8(old(a.size)))
    {
      hide RecordsDisjoint, AllLive, ListOk, OnPage;
      addr := Bump(a, n);
      if addr != 0 {
        ghost var p := a.buffer;
        assert held[p].isExec == isExec && p <= addr && addr % 8 == 0 && addr + n <= p + held[p].allocator.size;
      }
    }

    ghost function Cursors(): map<nat, nat>
      reads this, Allocators()
    {
      map p | p in held :: held[p].allocator.size
    }

    /** The block is at `start` on the held page p of the kind, and ends at its cursor. */
    ghost predicate TakenAt(p: nat, addr: nat, n: nat, isExec: bool, start: nat)
      reads this, Allocators()
    {
      p in held && held[p].isExec == isExec && addr == p + start && p + held[p].allocator.size == addr + n
    }

    /** The block begins where the cursor of its page was, rounded up, or a new page does. */
    ghost predicate TakenFrom(was: map<nat, nat>, addr: nat, n: nat, isExec: bool)
      reads this, Allocators()
    {
      exists p: nat :: TakenAt(p, addr, n, isExec, StartOn(was, p))
    }

    static function StartOn(was: map<nat, nat>, p: nat): nat {
      if p in was then AlignUp8(was[p]) else 0
    }

    /** No held page of the kind has room for n bytes more. */
    ghost predicate NoRoom(n: nat, isExec: bool)
      reads this, Allocators()
    {
      forall p {:trigger held[p]} :: p in held && held[p].isExec == isExec ==> AlignUp8(held[p].allocator.size) + n > pageSize
    }

    /** Neither a freed record nor a held page serves the request. */
    ghost predicate Full(n: nat, isExec: bool)
      reads this, Allocators()
    {
      (forall r <- records :: !(r.isFree && r.isExec == isExec && r.size >= n)) && NoRoom(n, isExec)
    }

    /** Tries every page of the kind in turn. */
    method Scan(n: nat, isExec: bool) returns (addr: nat)
      requires Valid() && 0 < n <= pageSize
      modifies Allocators()
      ensures Valid()
      ensures addr != 0 ==> Carved(addr, n, isExec)
      ensures addr == 0 <==> old(NoRoom(n, isExec))
      ensures addr == 0 ==> NoRoom(n, isExec)
      ensures addr != 0 ==> var list := if isExec then code else data;
                exists i {:trigger list[i]} :: 0 <= i < |list| && TakenAt(list[i].buffer, addr, n, isExec, AlignUp8(old(list[i].size)))
                  && list[i].buffer in held && held[list[i].buffer].allocator == list[i]
                  && forall j {:trigger list[j]} :: 0 <= j < i ==> AlignUp8(old(list[j].size)) + n > pageSize
    {
      hide Sound, AlignUp8, Carved, NoRoom, PageLive, TakenAt;
      var list := if isExec then code else data;
      ListHeld(list, isExec);
      RoomInList(list, n, isExec);
      var i := 0;
      addr := 0;
      while i < |list|
        invariant 0 <= i <= |list| && addr == 0 && Valid()
        invariant forall j {:trigger list[j]} :: 0 <= j < i ==> AlignUp8(old(list[j].size)) + n > pageSize
        invariant forall j {:trigger list[j]} :: 0 <= j < i ==> AlignUp8(list[j].size) + n > pageSize
        invariant forall j {:trigger list[j]} :: i <= j < |list| ==> list[j].size == old(list[j].size)
      {
        addr := TryPage(list[i], n, isExec);
        if addr != 0 {
          return;
        }
        i := i + 1;
      }
      RoomInList(list, n, isExec);
    }

    lemma ListHeld(list: seq<LinearAllocator>, isExec: bool)
      requires Sound() && list == if isExec then code else data
      ensures forall i, j :: 0 <= i < j < |list| ==> list[i] != list[j]
      ensures forall i {:trigger list[i]} :: 0 <= i < |list| ==>
                list[i].buffer in held && held[list[i].buffer] == PageRecord(list[i], list[i].buffer, isExec)
                && list[i] in Allocators()
    {
      hide PagesMatch, RecordsDisjoint, RecordsOk, CursorsOk;
    }

    /** The held pages of a kind are those of its list. */
    lemma RoomInList(list: seq<LinearAllocator>, n: nat, isExec: bool)
      requires Sound() && list == if isExec then code else data
      ensures NoRoom(n, isExec) <==> forall j {:trigger list[j]} :: 0 <= j < |list| ==> AlignUp8(list[j].size) + n > pageSize
    {
      hide RecordsDisjoint, RecordsOk, CursorsOk, AlignUp8, OnPage;
      forall j {:trigger list[j]} | 0 <= j < |list|
        ensures var p := list[j].buffer; p in held && held[p].isExec == isExec && held[p].allocator == list[j]
      {
      }
      forall p {:trigger held[p]} | p in held && held[p].isExec == isExec
        ensures held[p].allocator in list
      {
      }
    }

    /** Records a carved block. */
    method Append(addr: nat, n: nat, isExec: bool)
      requires Sound() && n > 0 && Carved(addr, n, isExec)
      modifies this`records
      ensures Sound()
      ensures records == old(records) + [AllocationRecord(addr, n, Floor(addr, pageSize), isExec, false)]
      ensures forall k {:trigger old(records)[k]} :: 0 <= k < |old(records)| ==> Disjoint(old(records)[k].addr, old(records)[k].size, addr, n)
    {
      ghost var p :| p in held && held[p].isExec == isExec && p <= addr && addr % 8 == 0 && addr + n <= p + held[p].allocator.size
        && forall k {:trigger records[k]} :: 0 <= k < |records| && records[k].page == p ==> records[k].addr + records[k].size <= addr;
      hide ListOk, RecordsDisjoint, Floor, Carved, AllLive;
      FloorInPage(p, pageSize, addr);
      CarvedDisjoint(p, addr, n);
      DisjointAppend(records, AllocationRecord(addr, n, p, isExec, false));
      records := records + [AllocationRecord(addr, n, Floor(addr, pageSize), isExec, false)];
      assert held[p].isExec == isExec;
    }

    method AppendTaken(addr: nat, n: nat, isExec: bool, ghost was: map<nat, nat>)
      requires Sound() && n > 0 && Carved(addr, n, isExec) && TakenFrom(was, addr, n, isExec)
      modifies this`records
      ensures Sound() && TakenFrom(was, addr, n, isExec)
      ensures records == old(records) + [AllocationRecord(addr, n, Floor(addr, pageSize), isExec, false)]
      ensures forall k {:trigger old(records)[k]} :: 0 <= k < |old(records)| ==> Disjoint(old(records)[k].addr, old(records)[k].size, addr, n)
    {
      hide Sound, Carved, AlignUp8, Floor;
      ghost var p: nat :| TakenAt(p, addr, n, isExec, StartOn(was, p));
      Append(addr, n, isExec);
      assert TakenAt(p, addr, n, isExec, StartOn(was, p));
    }

    /** Maps a page and makes it usable; a page whose permission is refused goes straight back. */
    method MapPage(isExec: bool, grant: nat, permitted: bool) returns (a: LinearAllocator?)
      requires Sound() && FreshGrant(grant)
      modifies this, os
      ensures Sound() && records == old(records)
      ensures a != null <==> grant != 0 && permitted
      ensures a == null ==> held == old(held) && code == old(code) && data == old(data) && pages == old(pages) && os.mapped == old(os.mapped)
      ensures a != null ==> fresh(a) && a.size == 0 && os.mapped == old(os.mapped) + {grant}
                            && held == old(held)[grant := PageRecord(a, grant, isExec)] && a.buffer == grant && grant !in old(held)
    {
      hide RecordsDisjoint, OnPage, PagesMatch, ListOk;
      var page := os.Allocate(grant);
      if page == 0 {
        return null;
      }
      if !permitted {
        os.Free(page);
        return null;
      }
      a := new LinearAllocator(page, pageSize);
      if isExec {
        code := code + [a];
      } else {
        data := data + [a];
      }
      ghost var r := PageRecord(a, page, isExec);
      PagesAppend(pages, held, pageSize, r);
      ListAppend(old(code), held, r, true);
      ListAppend(old(data), held, r, false);
      pages := pages + [PageRecord(a, page, isExec)];
      held := held[page := r];
    }

    /** What the OS may answer: nothing, or an unmapped page. */
    predicate FreshGrant(grant: nat)
      reads this, os
    {
      grant == 0 || (OnPage(grant, pageSize) && grant % 8 == 0 && grant !in os.mapped)
    }

    /**
      allocMemBlockLocked.  A block it returns is covered by a live record of its
      kind and overlaps nothing that was live; only when no free record and no page
      serves is a page mapped, and only when that fails too is the request refused.
     */
    method Alloc(n: nat, isExec: bool, grant: nat, permitted: bool) returns (block: MemBlock)
      requires Valid() && FreshGrant(grant)
      modifies this, os, Allocators()
      ensures Valid() && fresh(Allocators() - old(Allocators()))
      ensures block == NO_BLOCK || (block.addr != 0 && block.size == n && Granted(records, block, isExec))
      ensures forall r :: r in old(records) && !r.isFree ==> r in records && Disjoint(r.addr, r.size, block.addr, block.size)
      ensures block == NO_BLOCK <==> n == 0 || n > pageSize || (old(Full(n, isExec)) && (grant == 0 || !permitted))
      ensures block == NO_BLOCK ==> records == old(records) && held == old(held) && os.mapped == old(os.mapped)
      ensures block == NO_BLOCK && 0 < n <= pageSize ==> Full(n, isExec)
      ensures block != NO_BLOCK && (exists r <- old(records) :: r.isFree && r.isExec == isExec && r.size >= n) ==>
                FirstReused(old(records), records, n, isExec, block.addr) && held == old(held)
      ensures block != NO_BLOCK && (forall r <- old(records) :: !(r.isFree && r.isExec == isExec && r.size >= n)) ==>
                && records == old(records) + [AllocationRecord(block.addr, n, Floor(block.addr, pageSize), isExec, false)]
                && TakenFrom(old(Cursors()), block.addr, n, isExec)
      ensures forall r :: r in Live(records) ==> r in Live(old(records)) || (r.addr == block.addr && r.isExec == isExec)
      ensures os.mapped != old(os.mapped) ==>
                && os.mapped == old(os.mapped) + {grant}
                && old(Full(n, isExec))
    {
      hide Valid, AlignUp8, FirstReused, NoRoom, Floor, Live, Granted, TakenFrom;
      SizesValid();
      if n == 0 || n > pageSize {
        return NO_BLOCK;
      }
      var k := FindFree(n, isExec);
      if k < |records| {
        assert records[k] in records;
        block := ReuseRecord(k, n, isExec);
      } else {
        assert Cursors() == old(Cursors());
        block := AllocNew(n, isExec, grant, permitted);
      }
    }

    /** The first freed record that is large enough. */
    method ReuseRecord(k: nat, n: nat, isExec: bool) returns (block: MemBlock)
      requires Valid() && n > 0 && k < |records| && records[k].isFree && records[k].isExec == isExec && records[k].size >= n
      requires forall j {:trigger records[j]} :: 0 <= j < k ==> !(records[j].isFree && records[j].isExec == isExec && records[j].size >= n)
      modifies this`records
      ensures Valid() && block.addr != 0 && block.size == n && Granted(records, block, isExec)
      ensures forall r :: r in old(records) && !r.isFree ==> r in records && Disjoint(r.addr, r.size, block.addr, block.size)
      ensures FirstReused(old(records), records, n, isExec, block.addr)
      ensures forall r :: r in Live(records) ==> r in Live(old(records)) || (r.addr == block.addr && r.isExec == isExec)
    {
      hide ListOk, PagesMatch, RecordsOk, CursorsOk, Sound, AllLive, RecordsDisjoint, FirstReused;
      RecordPlaced(k);
      ReusedFirst(records, n, isExec, k);
      Reuse(k);
      forall r | r in old(records) && !r.isFree
        ensures r in records && Disjoint(r.addr, r.size, records[k].addr, n)
      {
        var j :| 0 <= j < |records| && old(records)[j] == r;
        assert records[j] == r;
      }
      block := MemBlock(records[k].addr, n);
      assert records[k].addr == block.addr;
    }

    /** Room on a held page, or on a new one. */
    method AllocNew(n: nat, isExec: bool, grant: nat, permitted: bool) returns (block: MemBlock)
      requires Valid() && FreshGrant(grant) && 0 < n <= pageSize
      modifies this, os, Allocators()
      ensures Valid() && fresh(Allocators() - old(Allocators()))
      ensures block == NO_BLOCK || (block.addr != 0 && block.size == n && Granted(records, block, isExec))
      ensures forall r :: r in old(records) && !r.isFree ==> r in records && Disjoint(r.addr, r.size, block.addr, block.size)
      ensures block == NO_BLOCK <==> old(NoRoom(n, isExec)) && (grant == 0 || !permitted)
      ensures block == NO_BLOCK ==> records == old(records) && held == old(held) && os.mapped == old(os.mapped) && NoRoom(n, isExec)
      ensures block != NO_BLOCK ==>
                && records == old(records) + [AllocationRecord(block.addr, n, Floor(block.addr, pageSize), isExec, false)]
                && TakenFrom(old(Cursors()), block.addr, n, isExec)
      ensures forall r :: r in Live(records) ==> r in Live(old(records)) || (r.addr == block.addr && r.isExec == isExec)
      ensures os.mapped != old(os.mapped) ==> os.mapped == old(os.mapped) + {grant} && old(NoRoom(n, isExec))
    {
      hide ListOk, PagesMatch, AlignUp8, Carved, RecordsOk, CursorsOk, Sound, PageLive, RecordsDisjoint, NoRoom, TakenFrom, Floor;
      SizesPositive();
      ghost var was := Cursors();
      var addr := Carve(n, isExec, grant, permitted);
      if addr == 0 {
        return NO_BLOCK;
      }
      AppendTaken(addr, n, isExec, was);
      LiveMonotone(old(records), records);
      if held != old(held) {
        GrantLive(addr, grant);
      }
      block := MemBlock(addr, n);
      assert records[|records| - 1].addr == addr;
    }

    lemma RecordSizes()
      requires RecordsOk()
      ensures forall r <- records :: r.size > 0
    {
      forall r | r in records
        ensures r.size > 0
      {
        var k :| 0 <= k < |records| && records[k] == r;
        assert RecordHeld(records[k]);
      }
    }

    lemma RecordPlaced(k: nat)
      requires Sound() && k < |records|
      ensures records[k].addr != 0
    {
      hide ListOk, RecordsDisjoint, OnPage;
      assert RecordHeld(records[k]);
    }

    lemma SizesValid()
      requires Valid()
      ensures pageSize > 0
    {
    }

    lemma SizesPositive()
      requires Sound()
      ensures pageSize > 0
    {
    }

    /** The last record keeps the page it was carved from alive. */
    lemma GrantLive(addr: nat, page: nat)
      requires OnPage(page, pageSize) && page <= addr < page + pageSize
      requires records != [] && records[|records| - 1].page == Floor(addr, pageSize) && !records[|records| - 1].isFree
      ensures PageLive(records, page, records[|records| - 1].isExec)
    {
      FloorInPage(page, pageSize, addr);
    }

    method Reuse(k: nat)
      requires Valid() && k < |records| && records[k].isFree
      modifies this`records
      ensures Valid() && records == old(records)[k := old(records)[k].(isFree := false)]
      ensures forall j {:trigger old(records)[j]} :: 0 <= j < |records| && j != k ==>
                Disjoint(old(records)[j].addr, old(records)[j].size, records[k].addr, records[k].size)
    {
      hide ListOk, PagesMatch, PageLive;
      LiveMonotone(records, records[k := records[k].(isFree := false)]);
      records := records[k := records[k].(isFree := false)];
    }

    /** Bump allocation from a held page, or from a new one; the new page still lacks its record. */
    method Carve(n: nat, isExec: bool, grant: nat, permitted: bool) returns (addr: nat)
      requires Valid() && FreshGrant(grant) && 0 < n <= pageSize
      modifies this, os, Allocators()
      ensures Sound() && fresh(Allocators() - old(Allocators())) && records == old(records)
      ensures addr == 0 ==> Valid() && held == old(held) && os.mapped == old(os.mapped)
      ensures addr == 0 <==> old(NoRoom(n, isExec)) && (grant == 0 || !permitted)
      ensures addr == 0 ==> NoRoom(n, isExec)
      ensures addr != 0 ==> TakenFrom(old(Cursors()), addr, n, isExec)
      ensures addr != 0 ==> Carved(addr, n, isExec)
      ensures addr != 0 && held != old(held) ==>
                && os.mapped == old(os.mapped) + {grant} && held.Keys == old(held).Keys + {grant}
                && (forall p {:trigger held[p]} :: p in old(held) ==> held[p] == old(held)[p])
                && grant <= addr < grant + pageSize && held[grant].isExec == isExec && old(NoRoom(n, isExec))
      ensures held == old(held) ==> os.mapped == old(os.mapped)
    {
      hide ListOk, PagesMatch, Carved, RecordsOk, CursorsOk, RecordsDisjoint, PageLive;
      ghost var was := Cursors();
      addr := Scan(n, isExec);
      if addr == 0 {
        var a := MapPage(isExec, grant, permitted);
        if a != null {
          addr := TryPage(a, n, isExec);
          assert StartOn(was, grant) == 0 && TakenAt(grant, addr, n, isExec, StartOn(was, grant));
        }
      } else {
        ghost var list := if isExec then code else data;
        ghost var i :| 0 <= i < |list| && TakenAt(list[i].buffer, addr, n, isExec, AlignUp8(old(list[i].size)))
                       && list[i].buffer in held && held[list[i].buffer].allocator == list[i];
        ghost var p := list[i].buffer;
        assert TakenAt(p, addr, n, isExec, StartOn(was, p));
      }
    }

    ghost predicate Granted(records: seq<AllocationRecord>, block: MemBlock, isExec: bool) {
      exists k {:trigger records[k]} :: 0 <= k < |records| && records[k].addr == block.addr && block.size <= records[k].size
                && records[k].isExec == isExec && !records[k].isFree
    }

    method FindTracked(addr: nat, isExec: bool) returns (k: nat)
      ensures k <= |records|
      ensures k < |records| ==> records[k].addr == addr && records[k].isExec == isExec
      ensures forall j :: 0 <= j < k ==> !(records[j].addr == addr && records[j].isExec == isExec)
    {
      k := 0;
      while k < |records| && !(records[k].addr == addr && records[k].isExec == isExec)
        invariant k <= |records|
        invariant forall j :: 0 <= j < k ==> !(records[j].addr == addr && records[j].isExec == isExec)
      {
        k := k + 1;
      }
    }

    method HasLive(page: nat, isExec: bool) returns (live: bool)
      ensures live == PageLive(records, page, isExec)
    {
      var k := 0;
      while k < |records|
        invariant k <= |records|
        invariant forall j {:trigger records[j]} :: 0 <= j < k ==> !(records[j].page == page && records[j].isExec == isExec && !records[j].isFree)
      {
        if records[k].page == page && records[k].isExec == isExec && !records[k].isFree {
          return true;
        }
        k := k + 1;
      }
      live := false;
    }

    /** Forgets a page without live blocks: its record, its allocator, its blocks; and unmaps it. */
    method ReleasePage(page: nat, isExec: bool)
      requires Sound() && page in held && held[page].isExec == isExec
      modifies this, os
      ensures Sound() && held == old(held) - {page}
      ensures records == Without(old(records), page, isExec) && os.mapped == old(os.mapped) - {page}
    {
      hide PagesMatch, ListOk, RecordsDisjoint, Without, OnPage;
      Unlist(page, isExec);
      DropRecords(page, isExec);
      os.Free(page);
    }

    /** Erases the page's record and its allocator. */
    method Unlist(page: nat, isExec: bool)
      requires PagesMatch(pages, held, pageSize) && ListOk(code, held, true) && ListOk(data, held, false)
      requires page in held && held[page].isExec == isExec
      modifies this`pages, this`code, this`data, this`held
      ensures PagesMatch(pages, held, pageSize) && ListOk(code, held, true) && ListOk(data, held, false)
      ensures held == old(held) - {page}
    {
      hide PagesMatch, ListOk, OnPage;
      ListUnaffected(if isExec then data else code, held, !isExec, page);
      var list;
      pages, list := TakeOut(pages, if isExec then code else data, held, pageSize, page, isExec);
      if isExec {
        code := list;
      } else {
        data := list;
      }
      held := held - {page};
    }

    /** Records of other pages stay where they were. */
    method DropRecords(page: nat, isExec: bool)
      requires RecordsDisjoint(records) && page !in held
      requires forall k {:trigger records[k]} :: 0 <= k < |records| ==>
                 var r := records[k];
                 (r.page == page && r.isExec == isExec) || RecordHeld(r)
      modifies this`records
      ensures RecordsDisjoint(records) && RecordsOk() && records == Without(old(records), page, isExec)
    {
      hide RecordsDisjoint;
      WithoutDisjoint(records, page, isExec);
      FilterRecords(page, isExec);
      forall k {:trigger records[k]} | 0 <= k < |records|
        ensures RecordHeld(records[k])
      {
        assert records[k] in old(records);
      }
    }

    method FilterRecords(page: nat, isExec: bool)
      modifies this`records
      ensures records == Without(old(records), page, isExec)
    {
      var kept := [];
      var i := 0;
      while i < |records|
        invariant i <= |records| && kept == Without(records[..i], page, isExec)
      {
        assert records[..i + 1][..i] == records[..i];
        if !(records[i].page == page && records[i].isExec == isExec) {
          kept := kept + [records[i]];
        }
        i := i + 1;
      }
      assert records[..i] == records;
      records := kept;
    }

    /**
      freeMemBlockLocked.  An untracked block changes nothing, and neither does
      freeing a block twice; the page goes back to the OS exactly when its last live
      block is freed.
     */
    method Free(block: MemBlock, isExec: bool)
      requires Valid()
      modifies this, os
      ensures Valid()
      ensures var marked := MarkFree(old(records), block.addr, isExec);
              if block.addr == 0 || block.size == 0 || !Tracked(old(records), block.addr, isExec) then
                records == old(records) && held == old(held) && os.mapped == old(os.mapped)
              else if PageLive(marked, Floor(block.addr, pageSize), isExec) then
                records == marked && held == old(held) && os.mapped == old(os.mapped)
              else
                && records == Without(marked, Floor(block.addr, pageSize), isExec)
                && held == old(held) - {Floor(block.addr, pageSize)} && os.mapped == old(os.mapped) - {Floor(block.addr, pageSize)}
      ensures (forall r :: r in old(records) && r.addr == block.addr && r.isExec == isExec ==> r.isFree) ==>
                records == old(records) && held == old(held) && os.mapped == old(os.mapped)
    {
      hide PagesMatch, ListOk, PageLive, MarkFree, Without, Floor, RecordsDisjoint;
      if block.addr == 0 || block.size == 0 {
        return;
      }
      SizesPositive();
      var page := Floor(block.addr, pageSize);
      var k := FindTracked(block.addr, isExec);
      if k == |records| {
        return;
      }
      MarkFreeAt(records, block.addr, isExec, k);
      LiveMarked(records, k);
      RecordPage(k);
      assert records[k] in records;
      assert records[k].isFree ==> records[k := records[k].(isFree := true)] == records;
      assert PageLive(records, page, held[page].isExec);
      MarkRecord(k);
      var live := HasLive(page, isExec);
      if live {
        return;
      }
      LiveWithout(records, page, isExec);
      ReleasePage(page, isExec);
    }

    lemma RecordPage(k: nat)
      requires Sound() && k < |records|
      ensures records[k].page == Floor(records[k].addr, pageSize)
      ensures records[k].page in held && held[records[k].page].isExec == records[k].isExec
    {
      FloorInPage(records[k].page, pageSize, records[k].addr);
    }

    method MarkRecord(k: nat)
      requires Sound() && k < |records|
      modifies this`records
      ensures Sound() && records == old(records)[k := old(records)[k].(isFree := true)]
    {
      hide PagesMatch, ListOk;
      records := records[k := records[k].(isFree := true)];
    }

    /** What the invariant promises at every moment of every run. */
    lemma Safety()
      requires Valid()
      ensures forall j, k {:trigger records[j], records[k]} :: 0 <= j < k < |records| ==>
                Disjoint(records[j].addr, records[j].size, records[k].addr, records[k].size)
      ensures forall k, p {:trigger records[k], held[p]} :: 0 <= k < |records| && p in held ==>
                (p <= records[k].addr && records[k].addr + records[k].size <= p + pageSize <==> p == records[k].page)
      ensures forall k {:trigger records[k]} :: 0 <= k < |records| ==>
                && records[k].page in held && held[records[k].page].isExec == records[k].isExec && records[k].page in os.mapped
                && records[k].addr % 8 == 0
                && records[k].addr + records[k].size <= records[k].page + held[records[k].page].allocator.size
      ensures forall p {:trigger held[p]} :: p in held ==>
                p in os.mapped && PageLive(records, p, held[p].isExec) && held[p].allocator.size <= pageSize
    {
      forall k, p {:trigger records[k], held[p]} | 0 <= k < |records| && p in held
        ensures p <= records[k].addr && records[k].addr + records[k].size <= p + pageSize <==> p == records[k].page
      {
        assert RecordHeld(records[k]);
        if p != records[k].page {
          PagesApart(p, records[k].page, pageSize);
        }
      }
    }

    /** A carved block overlaps no record at all: the pages are disjoint and below the cursor the records come first. */
    lemma CarvedDisjoint(p: nat, addr: nat, n: nat)
      requires PagesMatch(pages, held, pageSize) && CursorsOk() && RecordsOk() && p in held && p <= addr && addr + n <= p + held[p].allocator.size
      requires forall k {:trigger records[k]} :: 0 <= k < |records| && records[k].page == p ==> records[k].addr + records[k].size <= addr
      ensures forall k {:trigger records[k]} :: 0 <= k < |records| ==> Disjoint(records[k].addr, records[k].size, addr, n)
    {
      forall k {:trigger records[k]} | 0 <= k < |records|
        ensures Disjoint(records[k].addr, records[k].size, addr, n)
      {
        var q := records[k].page;
        if q != p {
          PagesApart(p, q, pageSize);
        }
      }
    }
  }

  lemma OnNextPage(p: nat, unit: nat)
    requires OnPage(p, unit)
    ensures OnPage(p + unit, unit)
  {
    var q := p / unit;
    assert p + unit == (q + 1) * unit;
    DivUnique(p + unit, unit, q + 1);
  }

  lemma FloorOnPage(x: nat, unit: nat)
    requires unit > 0
    ensures OnPage(Floor(x, unit), unit) && Floor(x, unit) <= x < Floor(x, unit) + unit
  {
    var q := x / unit;
    DivUnique(q * unit, unit, q);
  }

  lemma FloorInPage(p: nat, unit: nat, x: nat)
    requires OnPage(p, unit) && p <= x < p + unit
    ensures Floor(x, unit) == p
  {
    var q := p / unit;
    assert p == q * unit;
    DivUnique(x, unit, q);
  }

  lemma DivUnique(x: nat, unit: nat, q: nat)
    requires unit > 0 && q * unit <= x < q * unit + unit
    ensures x / unit == q
  {
    var d := x / unit;
    assert d * unit <= x < d * unit + unit;
    MulMonotone(d, q, unit);
    MulMonotone(q, d, unit);
  }

  lemma {:induction false} MulMonotone(a: nat, b: nat, unit: nat)
    ensures a < b ==> a * unit + unit <= b * unit
    decreases b
  {
    if a == b {
    } else {
      if a + 1 < b {
        MulMonotone(a, b - 1, unit);
      }
      assert b * unit == (b - 1) * unit + unit;
    }
  }

  lemma PagesApart(p: nat, q: nat, unit: nat)
    requires OnPage(p, unit) && OnPage(q, unit) && p != q
    ensures p + unit <= q || q + unit <= p
  {
    var i, j := p / unit, q / unit;
    assert p == i * unit && q == j * unit;
    MulMonotone(i, j, unit);
    MulMonotone(j, i, unit);
  }

  // --- whole runs

  datatype Call = AllocCall(n: nat, isExec: bool, grant: nat, permitted: bool) | FreeCall(block: MemBlock, isExec: bool)

  /** The records after a free. */
  ghost function AfterFree(was: seq<AllocationRecord>, block: MemBlock, isExec: bool, pageSize: nat): seq<AllocationRecord>
    requires pageSize > 0
  {
    var marked, page := MarkFree(was, block.addr, isExec), Floor(block.addr, pageSize);
    if block.addr == 0 || block.size == 0 || !Tracked(was, block.addr, isExec) then was
    else if PageLive(marked, page, isExec) then marked
    else Without(marked, page, isExec)
  }

  /** What one call may do to the records, by the block it returns. */
  ghost predicate Follows(was: seq<AllocationRecord>, now: seq<AllocationRecord>, call: Call, block: MemBlock, pageSize: nat)
    requires pageSize > 0
  {
    match call
    case AllocCall(n, isExec, _, _) =>
      if block == NO_BLOCK then now == was
      else if exists r <- was :: r.isFree && r.isExec == isExec && r.size >= n then FirstReused(was, now, n, isExec, block.addr)
      else now == was + [AllocationRecord(block.addr, n, Floor(block.addr, pageSize), isExec, false)]
    case FreeCall(freed, isExec) =>
      now == AfterFree(was, freed, isExec, pageSize)
  }

  /**
    Any sequence of allocations and frees, of any blocks and with any pages from the OS:
    records stay disjoint and aligned, each below the cursor of one mapped page of its
    kind, every cursor stays inside its page, and every page the allocator holds has a
    live block.
   */
  method Run(a: MemoryAllocator, calls: seq<Call>) returns (blocks: seq<MemBlock>, ghost trail: seq<seq<AllocationRecord>>)
    requires a.Valid()
    modifies a, a.os, a.Allocators()
    ensures a.Valid() && |blocks| == |calls| && |trail| == |calls| + 1 && trail[0] == old(a.records) && trail[|calls|] == a.records
    ensures forall i {:trigger calls[i]} :: 0 <= i < |calls| ==> Follows(trail[i], trail[i + 1], calls[i], blocks[i], a.pageSize)
    ensures RecordsDisjoint(a.records)
    ensures forall k {:trigger a.records[k]} :: 0 <= k < |a.records| ==>
              var r := a.records[k];
              && r.page in a.held && a.held[r.page].isExec == r.isExec && r.page in a.os.mapped
              && r.page <= r.addr && r.addr + r.size <= r.page + a.held[r.page].allocator.size && r.addr % 8 == 0
    ensures forall p {:trigger a.held[p]} :: p in a.held ==>
              p in a.os.mapped && PageLive(a.records, p, a.held[p].isExec) && a.held[p].allocator.size <= a.pageSize
  {
    hide Follows, PagesMatch, ListOk, RecordsDisjoint, PageLive;
    blocks, trail := [], [a.records];
    for i := 0 to |calls|
      invariant a.Valid() && fresh(a.Allocators() - old(a.Allocators()))
      invariant |blocks| == i && |trail| == i + 1 && trail[0] == old(a.records) && trail[i] == a.records
      invariant forall j {:trigger calls[j]} :: 0 <= j < i ==> Follows(trail[j], trail[j + 1], calls[j], blocks[j], a.pageSize)
    {
      var block := RunOne(a, calls[i]);
      blocks, trail := blocks + [block], trail + [a.records];
    }
    a.Safety();
  }

  method RunOne(a: MemoryAllocator, call: Call) returns (block: MemBlock)
    requires a.Valid()
    modifies a, a.os, a.Allocators()
    ensures a.Valid() && fresh(a.Allocators() - old(a.Allocators()))
    ensures Follows(old(a.records), a.records, call, block, a.pageSize)
    ensures call.AllocCall? ==>
      (block == NO_BLOCK <==>
        || call.n == 0 || call.n > a.pageSize
        || (old(a.Full(call.n, call.isExec)) && (call.grant == 0 || !old(a.FreshGrant(call.grant)) || !call.permitted)))
  {
    hide PagesMatch, ListOk, RecordsDisjoint, PageLive, MarkFree, Without, Floor, OnPage;
    match call
    case AllocCall(n, isExec, grant, permitted) =>
      block := a.Alloc(n, isExec, if a.FreshGrant(grant) then grant else 0, permitted);
    case FreeCall(freed, isExec) =>
      block := NO_BLOCK;
      a.Free(freed, isExec);
  }
}
