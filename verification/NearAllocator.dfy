/**
  The near allocator: blocks within branch range of an address.  It tries freed
  records, then held pages, then maps a page between two regions of the process,
  then (for code) looks for a run of zero bytes in an executable region.
 */
module NearAllocator {
  import opened Options
  import opened Memmem
  import M = MemoryAllocator

  const ADDRESS_SPACE: nat := 0x1_0000_0000_0000_0000

  datatype MemRange = MemRange(start: nat, size: nat) {
    /** The end as computed in 64 bits. */
    function End(): nat {
      (start + size) % 0x1_0000_0000_0000_0000
    }

    predicate Contains(a: nat, n: nat) {
      n != 0 && start <= a && a <= ADDRESS_SPACE - 1 - n && a + n <= End()
    }

    function Intersect(other: MemRange): MemRange {
      var lo := if start > other.start then start else other.start;
      var hi := if End() < other.End() then End() else other.End();
      if lo < hi then MemRange(lo, hi - lo) else MemRange(0, 0)
    }
  }

  /** [a, a + n) lies in the range, counted without wrap-around. */
  predicate Inside(range: MemRange, a: nat, n: nat) {
    range.start <= a && a + n <= range.start + range.size
  }

  /** It also ends inside the address space. */
  predicate Fits(range: MemRange, a: nat, n: nat) {
    Inside(range, a, n) && a + n < ADDRESS_SPACE
  }

  /** `Contains` is exact on ranges that do not wrap, and never holds on one that does. */
  lemma ContainsExact(range: MemRange, a: nat, n: nat)
    requires range.start < ADDRESS_SPACE && range.size < ADDRESS_SPACE
    ensures range.Contains(a, n) <==> n != 0 && Inside(range, a, n) && range.start + range.size < ADDRESS_SPACE
  {
    WrappedEnd(range);
  }

  lemma WrappedEnd(range: MemRange)
    requires range.start < ADDRESS_SPACE && range.size < ADDRESS_SPACE
    ensures range.End() == if range.start + range.size < ADDRESS_SPACE then range.start + range.size else range.start + range.size - ADDRESS_SPACE
  {
  }

  /** The intersection is the set of addresses in both ranges; a range that wraps counts as empty. */
  lemma IntersectExact(r: MemRange, q: MemRange, a: nat)
    requires r.start < ADDRESS_SPACE && r.size < ADDRESS_SPACE && q.start < ADDRESS_SPACE && q.size < ADDRESS_SPACE
    ensures Inside(r.Intersect(q), a, 1) <==>
              && Inside(r, a, 1) && Inside(q, a, 1)
              && r.start + r.size < ADDRESS_SPACE && q.start + q.size < ADDRESS_SPACE
  {
    WrappedEnd(r);
    WrappedEnd(q);
  }

  lemma IntersectBounds(r: MemRange, q: MemRange)
    requires r.start < ADDRESS_SPACE && r.size < ADDRESS_SPACE && q.start < ADDRESS_SPACE && q.size < ADDRESS_SPACE
    ensures var i := r.Intersect(q);
            i.size > 0 ==>
              && i.start == (if r.start > q.start then r.start else q.start)
              && i.start + i.size <= r.start + r.size && i.start + i.size <= q.start + q.size
              && i.start + i.size < ADDRESS_SPACE
  {
    WrappedEnd(r);
    WrappedEnd(q);
  }

  datatype Region = Region(start: nat, end: nat, exec: bool)

  ghost predicate InRegions(regions: seq<Region>, a: nat) {
    exists i {:trigger regions[i]} :: 0 <= i < |regions| && regions[i].start <= a < regions[i].end
  }

  /** The process's memory map: sorted, disjoint, page-aligned. */
  ghost predicate LayoutOk(regions: seq<Region>, pageSize: nat) {
    && (forall i {:trigger regions[i]} :: 0 <= i < |regions| ==>
          regions[i].start < regions[i].end < ADDRESS_SPACE && M.OnPage(regions[i].start, pageSize) && M.OnPage(regions[i].end, pageSize))
    && (forall i, j {:trigger regions[i], regions[j]} :: 0 <= i < j < |regions| ==> regions[i].end <= regions[j].start)
  }

  /** The addresses of the range that are not mapped. */
  ghost function Unmapped(regions: seq<Region>, range: MemRange): set<nat> {
    set a: nat | range.start <= a < range.start + range.size && !InRegions(regions, a)
  }

  /** The region of one mapped page. */
  function PageRegion(page: nat, pageSize: nat, exec: bool): Region {
    Region(page, page + pageSize, exec)
  }

  /** Mapping a page adds its addresses and no others; every region stays. */
  ghost predicate MapsPage(was: seq<Region>, now: seq<Region>, page: nat, pageSize: nat, exec: bool) {
    && PageRegion(page, pageSize, exec) in now && (forall r <- was :: r in now)
    && forall a: nat :: InRegions(now, a) <==> InRegions(was, a) || page <= a < page + pageSize
  }

  class NearOS {
    const pageSize: nat
    var regions: seq<Region>

    ghost predicate Valid()
      reads this
    {
      0 < pageSize <= 0x4000_0000 && pageSize % 8 == 0 && LayoutOk(regions, pageSize)
    }

    constructor (pageSize: nat, regions: seq<Region>)
      requires 0 < pageSize <= 0x4000_0000 && pageSize % 8 == 0 && LayoutOk(regions, pageSize)
      ensures Valid() && this.pageSize == pageSize && this.regions == regions
    {
      this.pageSize, this.regions := pageSize, regions;
    }

    /** Maps the page at a fixed address in the gap behind region `i`. */
    method MapFixed(page: nat, i: nat, exec: bool)
      requires Valid() && i + 1 < |regions| && M.OnPage(page, pageSize)
      requires regions[i].end <= page && page + pageSize <= regions[i + 1].start
      modifies this
      ensures Valid() && MapsPage(old(regions), regions, page, pageSize, exec)
    {
      hide LayoutOk, MapsPage, InsertRegion;
      ghost var was := regions;
      var r := PageRegion(page, pageSize, exec);
      regions := InsertRegion(regions, r, i);
      M.OnNextPage(page, pageSize);
      LayoutInsert(was, page, i, exec, pageSize);
      MapsInsert(was, page, i, exec, pageSize);
    }

    /** Unmaps a page that was mapped as a region of its own. */
    method Unmap(page: nat, exec: bool)
      requires Valid() && PageRegion(page, pageSize, exec) in regions
      modifies this
      ensures Valid()
      ensures forall r <- old(regions) :: r.start != page ==> r in regions
      ensures forall a: nat :: InRegions(regions, a) <==> InRegions(old(regions), a) && !(page <= a < page + pageSize)
    {
      var i := 0;
      while regions[i] != PageRegion(page, pageSize, exec)
        invariant i < |regions| && PageRegion(page, pageSize, exec) in regions[i..]
        decreases |regions| - i
      {
        i := i + 1;
      }
      ghost var was := regions;
      regions := M.RemoveAt(regions, i);
      LayoutRemove(was, i, pageSize);
      forall a: nat
        ensures InRegions(regions, a) <==> InRegions(was, a) && !(page <= a < page + pageSize)
      {
        CoverRemove(was, i, pageSize, a);
      }
      forall r | r in was && r.start != page
        ensures r in regions
      {
        M.RemoveAtKeeps(was, i, r);
      }
    }
  }

  lemma MapsInsert(was: seq<Region>, page: nat, i: nat, exec: bool, pageSize: nat)
    requires i + 1 < |was|
    ensures MapsPage(was, InsertRegion(was, PageRegion(page, pageSize, exec), i), page, pageSize, exec)
  {
    hide InRegions, InsertRegion;
    var r := PageRegion(page, pageSize, exec);
    InsertKeeps(was, r, i);
    forall a: nat
      ensures InRegions(InsertRegion(was, r, i), a) <==> InRegions(was, a) || page <= a < page + pageSize
    {
      CoverInsert(was, r, i, a);
    }
  }

  lemma InsertKeeps(was: seq<Region>, r: Region, i: nat)
    requires i + 1 < |was|
    ensures r in InsertRegion(was, r, i) && forall q <- was :: q in InsertRegion(was, r, i)
  {
    var now := InsertRegion(was, r, i);
    assert now[i + 1] == r;
    forall q | q in was
      ensures q in now
    {
      var j :| 0 <= j < |was| && was[j] == q;
      assert now[if j <= i then j else j + 1] == q;
    }
  }

  lemma LayoutRemove(was: seq<Region>, i: nat, pageSize: nat)
    requires LayoutOk(was, pageSize) && i < |was|
    ensures LayoutOk(M.RemoveAt(was, i), pageSize)
  {
    hide M.OnPage;
    var now := M.RemoveAt(was, i);
    forall j, k {:trigger now[j], now[k]} | 0 <= j < k < |now|
      ensures now[j].end <= now[k].start
    {
      assert now[j] == was[if j < i then j else j + 1] && now[k] == was[if k < i then k else k + 1];
    }
  }

  lemma RegionsApart(regions: seq<Region>, pageSize: nat, i: nat, j: nat)
    requires LayoutOk(regions, pageSize) && i < |regions| && j < |regions| && i != j
    ensures regions[i].end <= regions[j].start || regions[j].end <= regions[i].start
  {
  }

  lemma CoverRemove(was: seq<Region>, i: nat, pageSize: nat, a: nat)
    requires LayoutOk(was, pageSize) && i < |was|
    ensures InRegions(M.RemoveAt(was, i), a) <==> InRegions(was, a) && !(was[i].start <= a < was[i].end)
  {
    hide LayoutOk;
    var now := M.RemoveAt(was, i);
    if InRegions(now, a) {
      var j :| 0 <= j < |now| && now[j].start <= a < now[j].end;
      var o := if j < i then j else j + 1;
      assert now[j] == was[o];
      RegionsApart(was, pageSize, i, o);
    }
    if InRegions(was, a) && !(was[i].start <= a < was[i].end) {
      var j :| 0 <= j < |was| && was[j].start <= a < was[j].end;
      assert now[if j < i then j else j - 1] == was[j];
    }
  }

  function InsertRegion(was: seq<Region>, r: Region, i: nat): (now: seq<Region>)
    requires i + 1 < |was|
    ensures |now| == |was| + 1
    ensures forall j {:trigger now[j]} :: 0 <= j < |now| ==> now[j] == if j <= i then was[j] else if j == i + 1 then r else was[j - 1]
  {
    was[..i + 1] + [r] + was[i + 1..]
  }

  lemma LayoutInsert(was: seq<Region>, page: nat, i: nat, exec: bool, pageSize: nat)
    requires LayoutOk(was, pageSize) && i + 1 < |was| && M.OnPage(page, pageSize) && M.OnPage(page + pageSize, pageSize) && pageSize > 0
    requires was[i].end <= page && page + pageSize <= was[i + 1].start
    ensures LayoutOk(InsertRegion(was, Region(page, page + pageSize, exec), i), pageSize)
  {
    hide M.OnPage;
    var now := InsertRegion(was, Region(page, page + pageSize, exec), i);
    assert was[i + 1].start < was[i + 1].end;
    forall j, k {:trigger now[j], now[k]} | 0 <= j < k < |now|
      ensures now[j].end <= now[k].start
    {
      InsertOrder(was, page, i, pageSize, j, k);
    }
  }

  lemma CoverInsert(was: seq<Region>, r: Region, i: nat, a: nat)
    requires i + 1 < |was|
    ensures InRegions(InsertRegion(was, r, i), a) <==> InRegions(was, a) || r.start <= a < r.end
  {
    var now := InsertRegion(was, r, i);
    if InRegions(was, a) {
      var j :| 0 <= j < |was| && was[j].start <= a < was[j].end;
      assert now[if j <= i then j else j + 1] == was[j];
    }
    if r.start <= a < r.end {
      assert now[i + 1] == r;
    }
  }

  lemma InsertOrder(was: seq<Region>, page: nat, i: nat, pageSize: nat, j: nat, k: nat)
    requires LayoutOk(was, pageSize) && i + 1 < |was| && j < k < |was| + 1
    requires was[i].end <= page && page + pageSize <= was[i + 1].start
    ensures (if j <= i then was[j].end else if j == i + 1 then page + pageSize else was[j - 1].end)
            <= (if k <= i then was[k].start else if k == i + 1 then page else was[k - 1].start)
  {
    hide M.OnPage;
    if j < i {
      assert was[j].end <= was[i].start;
    }
    if k > i + 2 {
      assert was[i + 1].end <= was[k - 1].start;
    }
  }

  datatype NearRecord = NearRecord(addr: nat, size: nat, page: nat, isExec: bool, isFree: bool, owned: bool)

  /** An allocator of a near page. */
  ghost predicate AllocatorOk(a: M.LinearAllocator, pageSize: nat)
    reads a
  {
    && a.buffer > 0 && a.buffer % 8 == 0 && a.buffer + pageSize < ADDRESS_SPACE
    && a.capacity == pageSize && a.alignment == 8 && a.size <= pageSize
  }

  /** The addresses a search range may cover: it starts inside the address space and spans at least a page. */
  predicate Searchable(range: MemRange, pageSize: nat) {
    range.start < ADDRESS_SPACE && pageSize <= range.size < ADDRESS_SPACE
  }

  /** The cursor after the bytes below the range were skipped, which also rounds it up. */
  function Skipped(buffer: nat, size: nat, capacity: nat, inter: MemRange): nat {
    if inter.start <= buffer + size then size
    else
      var start := M.AlignUp8(size);
      if start + (inter.start - (buffer + size)) <= capacity then start + (inter.start - (buffer + size)) else start
  }

  /** Where step 1 places `n` bytes of a page, or 0: for any cursor, aligned or not. */
  function BumpAddress(buffer: nat, size: nat, capacity: nat, n: nat, range: MemRange): nat
    requires size <= capacity
  {
    var inter := range.Intersect(MemRange(buffer + size, capacity - size));
    if inter.size < n then 0
    else
      var start := M.AlignUp8(Skipped(buffer, size, capacity, inter));
      if start + n <= capacity then buffer + start else 0
  }

  /** The larger of two addresses, and the smaller. */
  function Max(a: int, b: int): int { if a > b then a else b }
  function Min(a: int, b: int): int { if a < b then a else b }

  /**
    Step 1 in plain arithmetic, for any cursor.  The page serves when at least n of its
    unused bytes lie in the range and n bytes fit behind the cursor, rounded up; where the
    range begins above the cursor, the bytes below it are skipped first.
   */
  lemma BumpValue(buffer: nat, size: nat, capacity: nat, n: nat, range: MemRange)
    requires size <= capacity && n > 0 && buffer + capacity < ADDRESS_SPACE
    requires range.start < ADDRESS_SPACE && range.size < ADDRESS_SPACE
    ensures var shared := Min(buffer + capacity, range.start + range.size) - Max(buffer + size, range.start);
      var up, gap := (size + 7) / 8 * 8, range.start - (buffer + size);
      var start := if gap <= 0 || up + gap > capacity then up else (up + gap + 7) / 8 * 8;
      BumpAddress(buffer, size, capacity, n, range) ==
        if range.start + range.size < ADDRESS_SPACE && shared >= n && start + n <= capacity then buffer + start else 0
  {
    WrappedEnd(range);
    WrappedEnd(MemRange(buffer + size, capacity - size));
    AlignFacts(size);
    AlignFacts(M.AlignUp8(size));
  }

  /** [addr, addr + n) is aligned, unused and in the range. */
  predicate Serves(buffer: nat, size: nat, capacity: nat, n: nat, range: MemRange, addr: nat) {
    && addr % 8 == 0 && buffer + size <= addr && addr + n <= buffer + capacity
    && range.start <= addr && addr + n <= range.start + range.size < ADDRESS_SPACE
  }

  /** From an aligned cursor a page serves exactly when some aligned block of its unused bytes is in the range, and with the lowest. */
  lemma BumpLowest(buffer: nat, size: nat, capacity: nat, n: nat, range: MemRange)
    requires 0 < buffer && buffer % 8 == 0 && size % 8 == 0 && size <= capacity && n > 0 && buffer + capacity < ADDRESS_SPACE
    requires Searchable(range, capacity)
    ensures var addr := BumpAddress(buffer, size, capacity, n, range);
      && (addr != 0 <==> exists x: nat :: Serves(buffer, size, capacity, n, range, x))
      && (addr != 0 ==> Serves(buffer, size, capacity, n, range, addr))
      && (forall x: nat :: Serves(buffer, size, capacity, n, range, x) ==> addr <= x)
  {
    hide BumpAddress, Serves;
    BumpServes(buffer, size, capacity, n, range);
    forall x: nat | Serves(buffer, size, capacity, n, range, x)
      ensures 0 != BumpAddress(buffer, size, capacity, n, range) <= x
    {
      BumpBelow(buffer, size, capacity, n, range, x);
    }
  }

  /** From an aligned cursor: the first aligned byte that is unused and in the range. */
  lemma BumpFrom(buffer: nat, size: nat, capacity: nat, n: nat, range: MemRange) returns (start: nat)
    requires 0 < buffer && buffer % 8 == 0 && size % 8 == 0 && size <= capacity && n > 0 && buffer + capacity < ADDRESS_SPACE
    requires Searchable(range, capacity)
    ensures start == if range.start <= buffer + size then size else M.AlignUp8(range.start - buffer)
    ensures BumpAddress(buffer, size, capacity, n, range) ==
      if range.start + range.size < ADDRESS_SPACE && start + n <= capacity
         && Min(buffer + capacity, range.start + range.size) - Max(buffer + size, range.start) >= n then buffer + start else 0
  {
    hide BumpAddress;
    BumpValue(buffer, size, capacity, n, range);
    AlignFacts(size);
    start := if range.start <= buffer + size then size else M.AlignUp8(range.start - buffer);
  }

  lemma BumpServes(buffer: nat, size: nat, capacity: nat, n: nat, range: MemRange)
    requires 0 < buffer && buffer % 8 == 0 && size % 8 == 0 && size <= capacity && n > 0 && buffer + capacity < ADDRESS_SPACE
    requires Searchable(range, capacity)
    ensures var addr := BumpAddress(buffer, size, capacity, n, range);
      addr != 0 ==> Serves(buffer, size, capacity, n, range, addr)
  {
    hide BumpAddress, M.AlignUp8;
    var start := BumpFrom(buffer, size, capacity, n, range);
    if range.start > buffer + size {
      AlignFacts(range.start - buffer);
    }
    EightMore(buffer, start);
  }

  lemma BumpBelow(buffer: nat, size: nat, capacity: nat, n: nat, range: MemRange, x: nat)
    requires 0 < buffer && buffer % 8 == 0 && size % 8 == 0 && size <= capacity && n > 0 && buffer + capacity < ADDRESS_SPACE
    requires Searchable(range, capacity) && Serves(buffer, size, capacity, n, range, x)
    ensures 0 != BumpAddress(buffer, size, capacity, n, range) <= x
  {
    hide BumpAddress, M.AlignUp8;
    var _ := BumpFrom(buffer, size, capacity, n, range);
    if range.start > buffer + size {
      EightLess(x, buffer);
      LowestAligned(range.start - buffer, x - buffer);
    }
  }

  lemma EightLess(x: nat, y: nat)
    requires x % 8 == 0 && y % 8 == 0 && y <= x
    ensures (x - y) % 8 == 0
  {
  }

  lemma LowestAligned(low: nat, x: nat)
    requires low <= x && x % 8 == 0
    ensures M.AlignUp8(low) <= x
  {
  }

  /** Step 1 on one page: skip what lies below the range, then bump. */
  method BumpInRange(a: M.LinearAllocator, n: nat, range: MemRange, pageSize: nat) returns (addr: nat)
    requires AllocatorOk(a, pageSize) && 0 < pageSize <= 0x4000_0000 && pageSize % 8 == 0 && n > 0
    requires range.start < ADDRESS_SPACE && range.size < ADDRESS_SPACE
    modifies a`size
    ensures AllocatorOk(a, pageSize) && old(a.size) <= a.size
    ensures addr == BumpAddress(a.buffer, old(a.size), pageSize, n, range)
    ensures addr != 0 ==> a.buffer + old(a.size) <= addr && addr + n == a.buffer + a.size && addr % 8 == 0
    ensures addr == 0 ==> BumpAddress(a.buffer, a.size, pageSize, n, range) == 0
    ensures old(a.size) % 8 == 0 && (n % 8 == 0 || addr == 0) ==> a.size % 8 == 0
  {
    hide M.AlignUp8, MemRange.Intersect;
    AlignFacts(a.size);
    var cursor := a.buffer + a.size;
    var inter := range.Intersect(MemRange(cursor, a.capacity - a.size));
    IntersectBounds(range, MemRange(cursor, a.capacity - a.size));
    if inter.size < n {
      return 0;
    }
    var gap := inter.start - cursor;
    if gap != 0 {
      var _ := M.Bump(a, gap);
    }
    AlignFacts(a.size);
    EightMore(M.AlignUp8(a.size), n);
    EightMore(a.buffer, M.AlignUp8(a.size));
    addr := M.Bump(a, n);
    if addr == 0 {
      NoRoom(a.buffer, a.size, pageSize, n, range);
    }
  }

  /** A page with less room than asked for serves no range. */
  lemma NoRoom(buffer: nat, size: nat, capacity: nat, n: nat, range: MemRange)
    requires size <= capacity && size + n > capacity && buffer + capacity < ADDRESS_SPACE && n > 0
    requires range.start < ADDRESS_SPACE && range.size < ADDRESS_SPACE
    ensures BumpAddress(buffer, size, capacity, n, range) == 0
  {
    hide M.AlignUp8, MemRange.Intersect;
    IntersectBounds(range, MemRange(buffer + size, capacity - size));
  }

  /** [a, a + n) starts in the range and ends at most 14 bytes behind it. */
  predicate Close(range: MemRange, a: nat, n: nat) {
    range.start <= a && a + n <= range.start + range.size + 14
  }

  lemma InsideClose(range: MemRange, a: nat, n: nat)
    requires Inside(range, a, n)
    ensures Close(range, a, n)
  {
  }

  /** Whatever the cursor, a block of at least eight bytes is at most 14 bytes off. */
  lemma BumpClose(buffer: nat, size: nat, capacity: nat, n: nat, range: MemRange)
    requires size <= capacity && n >= 8 && buffer + capacity < ADDRESS_SPACE
    requires range.start < ADDRESS_SPACE && range.size < ADDRESS_SPACE
    ensures var addr := BumpAddress(buffer, size, capacity, n, range); addr == 0 || Close(range, addr, n)
  {
    hide M.AlignUp8, MemRange.Intersect;
    var inter := range.Intersect(MemRange(buffer + size, capacity - size));
    IntersectBounds(range, MemRange(buffer + size, capacity - size));
    AlignFacts(size);
    AlignFacts(Skipped(buffer, size, capacity, inter));
  }

  /** From an aligned cursor a range that spans a page is never left. */
  lemma BumpAligned(buffer: nat, size: nat, capacity: nat, n: nat, range: MemRange)
    requires size <= capacity && size % 8 == 0 && n > 0 && buffer + capacity < ADDRESS_SPACE && Searchable(range, capacity)
    ensures var addr := BumpAddress(buffer, size, capacity, n, range); addr == 0 || Inside(range, addr, n)
  {
    hide M.AlignUp8, MemRange.Intersect;
    var inter := range.Intersect(MemRange(buffer + size, capacity - size));
    IntersectBounds(range, MemRange(buffer + size, capacity - size));
    AlignFacts(size);
    AlignFacts(Skipped(buffer, size, capacity, inter));
  }

  /**
    Step 1 stays inside every range of at least a page exactly when the cursor is
    aligned or the page has no room left; a request that is not a multiple of eight
    leaves a cursor that breaks this.
   */
  lemma BumpContained(buffer: nat, size: nat, capacity: nat, n: nat)
    requires size <= capacity && n > 0 && buffer >= capacity > 0 && buffer + capacity + n < ADDRESS_SPACE
    ensures (forall range: MemRange :: Searchable(range, capacity) ==>
              var addr := BumpAddress(buffer, size, capacity, n, range); addr == 0 || Inside(range, addr, n))
            <==> size % 8 == 0 || M.AlignUp8(size) + n > capacity
  {
    hide M.AlignUp8, MemRange.Intersect;
    AlignFacts(size);
    forall range: MemRange | Searchable(range, capacity) && (size % 8 == 0 || M.AlignUp8(size) + n > capacity)
      ensures var addr := BumpAddress(buffer, size, capacity, n, range); addr == 0 || Inside(range, addr, n)
    {
      if size % 8 == 0 {
        BumpAligned(buffer, size, capacity, n, range);
      } else {
        BumpFull(buffer, size, capacity, n, range);
      }
    }
    if size % 8 != 0 && M.AlignUp8(size) + n <= capacity {
      var end := buffer + size + n;
      BumpEscapes(buffer, size, capacity, n, MemRange(end - capacity, capacity));
    }
  }

  lemma BumpFull(buffer: nat, size: nat, capacity: nat, n: nat, range: MemRange)
    requires size <= capacity && M.AlignUp8(size) + n > capacity
    ensures BumpAddress(buffer, size, capacity, n, range) == 0
  {
    hide M.AlignUp8, MemRange.Intersect;
    var inter := range.Intersect(MemRange(buffer + size, capacity - size));
    AlignFacts(size);
    AlignFacts(Skipped(buffer, size, capacity, inter));
    if inter.start > buffer + size {
      AlignMonotone(M.AlignUp8(size), Skipped(buffer, size, capacity, inter));
    }
  }

  /** A range that ends right behind the request is left when the cursor has to be rounded up. */
  lemma BumpEscapes(buffer: nat, size: nat, capacity: nat, n: nat, range: MemRange)
    requires size <= capacity && n > 0 && size % 8 != 0 && M.AlignUp8(size) + n <= capacity <= buffer && buffer + capacity < ADDRESS_SPACE
    requires range == MemRange(buffer + size + n - capacity, capacity)
    ensures var addr := BumpAddress(buffer, size, capacity, n, range); addr != 0 && !Inside(range, addr, n)
  {
    hide M.AlignUp8;
    WrappedEnd(range);
    WrappedEnd(MemRange(buffer + size, capacity - size));
    AlignFacts(size);
  }

  lemma AlignMonotone(x: nat, y: nat)
    requires x <= y
    ensures M.AlignUp8(x) <= M.AlignUp8(y)
  {
  }

  lemma AlignFacts(x: nat)
    ensures x <= M.AlignUp8(x) < x + 8 && M.AlignUp8(x) % 8 == 0 && (x % 8 == 0 ==> M.AlignUp8(x) == x)
  {
  }

  lemma EightMore(x: nat, n: nat)
    requires x % 8 == 0
    ensures n % 8 == 0 ==> (x + n) % 8 == 0
  {
  }

  ghost predicate Zeros(mem: nat -> int, a: nat, n: nat) {
    forall b :: a <= b < a + n ==> mem(b) == 0
  }

  /** The first n zeros in a row in [start, start + size) are at s. */
  ghost predicate FirstRun(mem: nat -> int, start: nat, size: nat, n: nat, s: nat) {
    && start <= s && s + n <= start + size && Zeros(mem, s, n)
    && forall t: nat {:trigger Zeros(mem, t, n)} :: start <= t < s ==> !Zeros(mem, t, n)
  }

  /** A run of n + 3 zeros in [start, start + size) holds an aligned run of n; None means that there is none. */
  method FindZeros(start: nat, size: nat, n: nat, mem: nat -> int) returns (r: Option<nat>)
    ensures r.Some? ==> start <= r.value && r.value + n <= start + size && r.value % 4 == 0 && Zeros(mem, r.value, n)
    ensures r.Some? ==> exists s: nat {:trigger FirstRun(mem, start, size, n + 3, s)} ::
              FirstRun(mem, start, size, n + 3, s) && r.value == (s + 3) / 4 * 4
    ensures r.None? ==> forall s: nat {:trigger Zeros(mem, s, n + 3)} ::
              start <= s && s + (n + 3) <= start + size ==> !Zeros(mem, s, n + 3)
  {
    hide Search;
    var needle := seq(n + 3, _ => 0);
    var hay := seq(size, k requires 0 <= k < size => mem(start + k));
    var at := MemMem(hay, needle);
    FirstFound(hay, needle);
    if at.None? {
      forall s: nat {:trigger Zeros(mem, s, n + 3)} | start <= s && s + (n + 3) <= start + size
        ensures !Zeros(mem, s, n + 3)
      {
        ZerosOccur(mem, start, size, s, n + 3);
      }
      return None;
    }
    ZeroRun(hay, needle, at.value);
    var gap := start + at.value;
    assert FirstRun(mem, start, size, n + 3, gap) by {
      RunIsFirst(mem, start, size, n + 3, at.value);
    }
    r := Some((gap + 3) / 4 * 4);
    forall b | r.value <= b < r.value + n
      ensures mem(b) == 0
    {
      assert hay[b - start] == mem(b);
    }
  }

  lemma ZerosOccur(mem: nat -> int, start: nat, size: nat, s: nat, n: nat)
    requires start <= s && s + n <= start + size
    ensures Zeros(mem, s, n) ==> OccursAt(seq(size, k requires 0 <= k < size => mem(start + k)), seq(n, _ => 0), s - start)
  {
    if Zeros(mem, s, n) {
      var hay := seq(size, k requires 0 <= k < size => mem(start + k));
      assert forall b :: s <= b < s + n ==> hay[b - start] == mem(b) == 0;
      var part := hay[s - start..s - start + n];
      assert forall i :: 0 <= i < n ==> part[i] == hay[s - start + i];
    }
  }

  lemma RunIsFirst(mem: nat -> int, start: nat, size: nat, n: nat, at: nat)
    requires var hay := seq(size, k requires 0 <= k < size => mem(start + k)); IsFirst(hay, seq(n, _ => 0), Some(at))
    ensures FirstRun(mem, start, size, n, start + at)
  {
    var hay := seq(size, k requires 0 <= k < size => mem(start + k));
    ZeroRun(hay, seq(n, _ => 0), at);
    assert forall b :: start + at <= b < start + at + n ==> hay[b - start] == mem(b);
    forall t: nat {:trigger Zeros(mem, t, n)} | start <= t < start + at
      ensures !Zeros(mem, t, n)
    {
      ZerosOccur(mem, start, size, t, n);
    }
  }

  lemma FirstFound(hay: seq<int>, needle: seq<int>)
    requires Constant(needle)
    ensures IsFirst(hay, needle, Search(hay, needle))
  {
    SearchConstant(hay, needle, 0, 0);
  }

  // --- records

  predicate OwnedDisjoint(records: seq<NearRecord>) {
    forall j, k {:trigger records[j], records[k]} :: 0 <= j < k < |records| && records[j].owned && records[k].owned ==>
      M.Disjoint(records[j].addr, records[j].size, records[k].addr, records[k].size)
  }

  /** Some live record lies on the page. */
  predicate PageLive(records: seq<NearRecord>, page: nat, isExec: bool) {
    exists k {:trigger records[k]} :: 0 <= k < |records| && records[k].page == page && records[k].isExec == isExec && !records[k].isFree
  }

  /** A block was once taken from the page. */
  predicate PageUsed(records: seq<NearRecord>, page: nat, isExec: bool) {
    exists k {:trigger records[k]} :: 0 <= k < |records| && records[k].page == page && records[k].isExec == isExec && records[k].owned
  }

  /** The record that a freed block means: the first of its address and kind. */
  function IndexOf(records: seq<NearRecord>, addr: nat, isExec: bool): (i: nat)
    ensures i <= |records| && (i < |records| ==> records[i].addr == addr && records[i].isExec == isExec)
    ensures forall j {:trigger records[j]} :: 0 <= j < i ==> !(records[j].addr == addr && records[j].isExec == isExec)
  {
    if records == [] then 0
    else if records[0].addr == addr && records[0].isExec == isExec then 0
    else
      assert forall j {:trigger records[j]} :: 0 < j < |records| ==> records[j] == records[1..][j - 1];
      1 + IndexOf(records[1..], addr, isExec)
  }

  function Marked(records: seq<NearRecord>, i: nat, free: bool): (r: seq<NearRecord>)
    requires i < |records|
    ensures |r| == |records|
    ensures forall k {:trigger r[k]} :: 0 <= k < |r| ==> r[k] == if k == i then records[i].(isFree := free) else records[k]
  {
    records[i := records[i].(isFree := free)]
  }

  /** The records that survive when an owned page is released: those of other pages and those not owned. */
  function Dropped(records: seq<NearRecord>, page: nat, isExec: bool): (r: seq<NearRecord>)
    ensures forall x :: x in r <==> x in records && !(x.page == page && x.isExec == isExec && x.owned)
  {
    if records == [] then []
    else
      var n := |records| - 1;
      var rest := Dropped(records[..n], page, isExec);
      assert records == records[..n] + [records[n]];
      if records[n].page == page && records[n].isExec == isExec && records[n].owned then rest else rest + [records[n]]
  }

  /** Releasing a page goes record by record, so the others keep their order. */
  lemma {:induction false} DroppedParts(a: seq<NearRecord>, b: seq<NearRecord>, page: nat, isExec: bool)
    ensures Dropped(a + b, page, isExec) == Dropped(a, page, isExec) + Dropped(b, page, isExec)
  {
    if b == [] {
      assert a + b == a;
    } else {
      var n := |b| - 1;
      assert (a + b)[..|a| + n] == a + b[..n];
      DroppedParts(a, b[..n], page, isExec);
    }
  }

  lemma {:induction false} DroppedDisjoint(records: seq<NearRecord>, page: nat, isExec: bool)
    requires OwnedDisjoint(records)
    ensures OwnedDisjoint(Dropped(records, page, isExec))
  {
    hide OwnedDisjoint;
    if records == [] {
      NoneDisjoint();
    } else {
      var n := |records| - 1;
      OwnedFront(records);
      DroppedDisjoint(records[..n], page, isExec);
      var rest := Dropped(records[..n], page, isExec);
      forall j {:trigger rest[j]} | 0 <= j < |rest| && rest[j].owned && records[n].owned
        ensures M.Disjoint(rest[j].addr, rest[j].size, records[n].addr, records[n].size)
      {
        assert rest[j] in records[..n];
      }
      OwnedAppend(rest, records[n]);
    }
  }

  lemma NoneDisjoint()
    ensures OwnedDisjoint([])
  {
  }

  /** The records before the last, and what disjointness says of the last. */
  lemma OwnedFront(records: seq<NearRecord>)
    requires OwnedDisjoint(records) && records != []
    ensures var n := |records| - 1;
      && OwnedDisjoint(records[..n])
      && forall r <- records[..n] :: r.owned && records[n].owned ==> M.Disjoint(r.addr, r.size, records[n].addr, records[n].size)
  {
    var n := |records| - 1;
    forall r | r in records[..n] && r.owned && records[n].owned
      ensures M.Disjoint(r.addr, r.size, records[n].addr, records[n].size)
    {
      var i :| 0 <= i < n && records[..n][i] == r;
      assert records[i] == r;
    }
  }

  lemma MarkedDisjoint(records: seq<NearRecord>, i: nat, free: bool)
    requires OwnedDisjoint(records) && i < |records|
    ensures OwnedDisjoint(Marked(records, i, free))
  {
    var r := Marked(records, i, free);
    forall j, k {:trigger r[j], r[k]} | 0 <= j < k < |r| && r[j].owned && r[k].owned
      ensures M.Disjoint(r[j].addr, r[j].size, r[k].addr, r[k].size)
    {
      assert records[j].owned && records[k].owned;
    }
  }

  lemma OwnedAppend(records: seq<NearRecord>, r: NearRecord)
    requires OwnedDisjoint(records)
    requires r.owned ==> forall k {:trigger records[k]} :: 0 <= k < |records| && records[k].owned ==>
               M.Disjoint(records[k].addr, records[k].size, r.addr, r.size)
    ensures OwnedDisjoint(records + [r])
  {
  }

  // --- pages and their cursors

  /** A held page: its kind, and how many of its bytes are used. */
  datatype Room = Room(isExec: bool, cursor: nat)

  /** No page of the kind serves the request. */
  ghost predicate NoRoomIn(rooms: map<nat, Room>, pageSize: nat, n: nat, range: MemRange, isExec: bool) {
    forall p {:trigger rooms[p]} :: p in rooms && rooms[p].isExec == isExec && rooms[p].cursor <= pageSize ==>
      BumpAddress(p, rooms[p].cursor, pageSize, n, range) == 0
  }

  /** Same pages, and those of the other kind untouched. */
  ghost predicate SamePages(was: map<nat, Room>, now: map<nat, Room>, isExec: bool) {
    && was.Keys <= now.Keys
    && forall p {:trigger now[p]} :: p in was ==> now[p].isExec == was[p].isExec && (was[p].isExec != isExec ==> now[p] == was[p])
  }

  /** Every page of the kind was tried in vain. */
  ghost predicate Tried(was: map<nat, Room>, now: map<nat, Room>, pageSize: nat, n: nat, range: MemRange, isExec: bool) {
    && SamePages(was, now, isExec) && now.Keys == was.Keys
    && NoRoomIn(was, pageSize, n, range, isExec) && NoRoomIn(now, pageSize, n, range, isExec)
  }

  /** The page shares an address with the range. */
  predicate Touches(page: nat, pageSize: nat, range: MemRange) {
    page < range.start + range.size && range.start < page + pageSize
  }

  lemma TouchesOne(page: nat, pageSize: nat, range: MemRange)
    ensures (exists a: nat :: page <= a < page + pageSize && Inside(range, a, 1)) ==> Touches(page, pageSize, range)
  {
  }

  /** The block is where step 1 puts it on its page, held before or new, and ends at that page's cursor. */
  ghost predicate Taken(was: map<nat, Room>, now: map<nat, Room>, pageSize: nat, n: nat, range: MemRange, isExec: bool, addr: nat)
    requires pageSize > 0
  {
    var p := M.Floor(addr, pageSize);
    && addr != 0 && p in now && now[p].isExec == isExec && p + now[p].cursor == addr + n && (p in was ==> was[p].cursor <= pageSize)
    && addr == BumpAddress(p, if p in was then was[p].cursor else 0, pageSize, n, range)
  }

  /**
    What an allocation that reuses no record does to the pages.  Pages are mapped only when
    none that is held serves, only where they touch the range, and none but the last would
    have served; an owned block is where step 1 puts it.
   */
  ghost predicate PagesFollow(was: map<nat, Room>, now: map<nat, Room>, pageSize: nat, n: nat, range: MemRange, isExec: bool,
                              addr: nat, owned: bool)
    requires pageSize > 0
  {
    && SamePages(was, now, isExec)
    && (!owned || now.Keys != was.Keys ==> NoRoomIn(was, pageSize, n, range, isExec))
    && (forall p {:trigger now[p]} :: p in now && p !in was ==>
          && now[p].isExec == isExec && Touches(p, pageSize, range)
          && (BumpAddress(p, 0, pageSize, n, range) == 0 || (owned && p == M.Floor(addr, pageSize))))
    && (owned ==> Taken(was, now, pageSize, n, range, isExec, addr))
  }

  /** The pages after a vain try, a page more, and the rest of the allocation. */
  lemma FollowGrow(was: map<nat, Room>, mid: map<nat, Room>, page: nat, now: map<nat, Room>,
                   pageSize: nat, n: nat, range: MemRange, isExec: bool, addr: nat, owned: bool)
    requires pageSize > 0 && Tried(was, mid, pageSize, n, range, isExec) && page !in mid && Touches(page, pageSize, range)
    requires PagesFollow(mid[page := Room(isExec, 0)], now, pageSize, n, range, isExec, addr, owned)
    ensures PagesFollow(was, now, pageSize, n, range, isExec, addr, owned)
  {
    hide BumpAddress, M.Floor;
    var more := mid[page := Room(isExec, 0)];
    assert more[page] == Room(isExec, 0);
    assert forall p {:trigger more[p]} :: p in mid && p != page ==> more[p] == mid[p];
    if BumpAddress(page, 0, pageSize, n, range) != 0 {
      assert !NoRoomIn(more, pageSize, n, range, isExec);
      var p := M.Floor(addr, pageSize);
      assert now.Keys == more.Keys && owned && p in more;
      assert now[p].isExec == more[p].isExec;
    }
  }

  /** Nothing was found. */
  lemma FollowNone(was: map<nat, Room>, now: map<nat, Room>, pageSize: nat, n: nat, range: MemRange, isExec: bool, addr: nat)
    requires pageSize > 0 && Tried(was, now, pageSize, n, range, isExec)
    ensures PagesFollow(was, now, pageSize, n, range, isExec, addr, false)
  {
  }

  /** The first record that can be reused is live again. */
  ghost predicate FirstReused(was: seq<NearRecord>, now: seq<NearRecord>, n: nat, range: MemRange, isExec: bool, addr: nat) {
    exists k {:trigger was[k]} :: 0 <= k < |was| && Reusable(was[k], n, range, isExec) && was[k].addr == addr && now == Marked(was, k, false)
      && forall j {:trigger was[j]} :: 0 <= j < k ==> !Reusable(was[j], n, range, isExec)
  }

  lemma NothingReused(was: seq<NearRecord>, now: seq<NearRecord>, n: nat, range: MemRange, isExec: bool, addr: nat)
    requires forall c <- was :: !Reusable(c, n, range, isExec)
    ensures !FirstReused(was, now, n, range, isExec, addr)
  {
    hide Reusable;
  }

  // --- the allocator

  class NearAllocator {
    const os: NearOS
    var code: seq<M.LinearAllocator>
    var data: seq<M.LinearAllocator>
    var pages: seq<M.PageRecord>
    var records: seq<NearRecord>
    ghost var held: map<nat, M.PageRecord>

    ghost function Allocators(): set<M.LinearAllocator>
      reads this
    {
      set p | p in held :: held[p].allocator
    }

    ghost function Rooms(): map<nat, Room>
      reads this, Allocators()
    {
      map p | p in held :: Room(held[p].isExec, held[p].allocator.size)
    }

    ghost predicate CursorsOk()
      reads this, Allocators()
    {
      forall p {:trigger held[p]} :: p in held ==> held[p].allocator.size <= os.pageSize
    }

    /** Every cursor is a multiple of eight, as it is while all sizes are. */
    ghost predicate Aligned()
      reads this, Allocators()
    {
      forall p {:trigger held[p]} :: p in held ==> held[p].allocator.size % 8 == 0
    }

    /** An owned record is below the cursor of a held page of its own kind. */
    ghost predicate RecordOk(r: NearRecord)
      reads this, Allocators()
    {
      && r.size > 0 && r.addr % 4 == 0 && (!r.owned ==> r.isExec)
      && (r.owned ==>
            && r.page in held && held[r.page].isExec == r.isExec
            && r.page <= r.addr && r.addr + r.size <= r.page + held[r.page].allocator.size)
    }

    ghost predicate RecordsOk()
      reads this, Allocators()
    {
      forall k {:trigger records[k]} :: 0 <= k < |records| ==> RecordOk(records[k])
    }

    /** Every held page is a mapped region of its kind. */
    ghost predicate Mapped()
      reads this, os
    {
      forall p {:trigger held[p]} :: p in held ==> PageRegion(p, os.pageSize, held[p].isExec) in os.regions
    }

    ghost predicate Sound()
      reads this, os, Allocators()
    {
      && os.Valid()
      && M.PagesMatch(pages, held, os.pageSize) && M.ListOk(code, held, true) && M.ListOk(data, held, false)
      && CursorsOk() && RecordsOk() && OwnedDisjoint(records) && Mapped()
    }

    /** Every page that blocks were taken from has a live block on it. */
    ghost predicate AllLive()
      reads this
    {
      forall p {:trigger held[p]} :: p in held && PageUsed(records, p, held[p].isExec) ==> PageLive(records, p, held[p].isExec)
    }

    constructor (os: NearOS)
      requires os.Valid()
      ensures Sound() && AllLive() && Aligned() && this.os == os && records == [] && held == map[]
    {
      this.os := os;
      code, data, pages, records, held := [], [], [], [], map[];
    }

    /** Makes the freed record k live again. */
    method Revive(k: nat)
      requires Sound() && k < |records|
      modifies this`records
      ensures Sound() && records == Marked(old(records), k, false) && (old(Aligned()) ==> Aligned())
      ensures old(AllLive()) ==> AllLive()
    {
      hide M.PagesMatch, M.ListOk, OwnedDisjoint, PageLive, PageUsed;
      MarkedDisjoint(records, k, false);
      MarkedLive(records, k);
      assert RecordOk(records[k]);
      records := records[k := records[k].(isFree := false)];
    }

    /** A freed record of the kind that is large enough and whose first `n` bytes lie in the range; None if there is none. */
    method Reuse(n: nat, range: MemRange, isExec: bool) returns (r: Option<nat>)
      requires Sound() && n > 0 && range.start < ADDRESS_SPACE && range.size < ADDRESS_SPACE
      modifies this`records
      ensures Sound() && (old(AllLive()) ==> AllLive()) && (old(Aligned()) ==> Aligned())
      ensures PagesExhausted(n, range, isExec) == old(PagesExhausted(n, range, isExec)) && Rooms() == old(Rooms())
      ensures r.None? ==> records == old(records) && forall c <- records :: !Reusable(c, n, range, isExec)
      ensures r.None? ==> forall c <- records :: c.isFree && c.isExec == isExec && c.size >= n ==>
                c.addr < range.start || c.addr + n > range.start + range.size || range.start + range.size >= ADDRESS_SPACE
      ensures r.Some? ==> Fits(range, r.value, n) && r.value % 4 == 0
      ensures r.Some? ==> FirstReused(old(records), records, n, range, isExec, r.value)
    {
      hide M.PagesMatch, M.ListOk, OwnedDisjoint, MemRange.Contains, LayoutOk, AllLive, BumpAddress;
      var k := 0;
      while k < |records|
        invariant 0 <= k <= |records| && records == old(records)
        invariant forall j {:trigger records[j]} :: 0 <= j < k ==> !Reusable(records[j], n, range, isExec)
      {
        FitsExactly(records[k], n, range, isExec);
        if FreeFits(records[k], n, range, isExec) {
          assert RecordOk(records[k]);
          r := Some(records[k].addr);
          Revive(k);
          return;
        }
        k := k + 1;
      }
      r := None;
    }

    /** [addr, addr + n) lies below the cursor of the held page p of the kind, above all owned records there. */
    ghost predicate Carved(p: nat, addr: nat, n: nat, isExec: bool)
      reads this, Allocators()
    {
      && p in held && held[p].isExec == isExec && p <= addr && addr % 8 == 0 && addr + n <= p + held[p].allocator.size
      && forall k {:trigger records[k]} :: 0 <= k < |records| && records[k].owned && records[k].page == p ==>
           records[k].addr + records[k].size <= addr
    }

    lemma AllocatorHeld(p: nat)
      requires Sound() && p in held
      ensures AllocatorOk(held[p].allocator, os.pageSize) && held[p].allocator.buffer == p
    {
      var region := PageRegion(p, os.pageSize, held[p].isExec);
      var i :| 0 <= i < |os.regions| && os.regions[i] == region;
    }

    /** The kind's pages cannot serve the request any more. */
    ghost predicate PagesExhausted(n: nat, range: MemRange, isExec: bool)
      reads this, Allocators()
    {
      forall p {:trigger held[p]} :: p in held && held[p].isExec == isExec && held[p].allocator.size <= os.pageSize ==>
        BumpAddress(p, held[p].allocator.size, os.pageSize, n, range) == 0
    }

    /** Step 1 on one page. */
    method TryPage(a: M.LinearAllocator, n: nat, range: MemRange, isExec: bool) returns (addr: nat)
      requires Sound() && n > 0 && range.start < ADDRESS_SPACE && range.size < ADDRESS_SPACE
      requires a.buffer in held && held[a.buffer] == M.PageRecord(a, a.buffer, isExec)
      modifies a`size
      ensures Sound() && a.size <= os.pageSize
      ensures addr == 0 ==> BumpAddress(a.buffer, a.size, os.pageSize, n, range) == 0
      ensures old(a.size) <= os.pageSize && addr == BumpAddress(a.buffer, old(a.size), os.pageSize, n, range)
      ensures addr != 0 ==> Carved(a.buffer, addr, n, isExec) && addr + n < ADDRESS_SPACE && addr % 8 == 0
      ensures addr != 0 ==> a.buffer + a.size == addr + n && M.Floor(addr, os.pageSize) == a.buffer
      ensures addr != 0 && old(Aligned()) && Searchable(range, os.pageSize) ==> Inside(range, addr, n)
      ensures addr != 0 && n >= 8 ==> Close(range, addr, n)
      ensures old(Aligned()) && (n % 8 == 0 || addr == 0) ==> Aligned()
    {
      hide M.PagesMatch, M.ListOk, OwnedDisjoint, LayoutOk, BumpAddress, Inside, Close;
      ghost var p := a.buffer;
      AllocatorHeld(p);
      PageSizes();
      if old(a.size) % 8 == 0 && Searchable(range, os.pageSize) {
        BumpAligned(a.buffer, a.size, os.pageSize, n, range);
      }
      if n >= 8 {
        BumpClose(a.buffer, a.size, os.pageSize, n, range);
      }
      OneAllocatorEach(p);
      addr := BumpInRange(a, n, range, os.pageSize);
      if addr != 0 {
        PageOf(p, addr);
      }
    }

    lemma SoundSystem()
      requires Sound()
      ensures os.Valid()
    {
    }

    lemma PageSizes()
      requires Sound()
      ensures 0 < os.pageSize <= 0x4000_0000 && os.pageSize % 8 == 0
    {
    }

    lemma OneAllocatorEach(p: nat)
      requires Sound() && p in held
      ensures forall q {:trigger held[q]} :: q in held && q != p ==> held[q].allocator != held[p].allocator
    {
    }

    /** Step 1: the held pages of the kind in turn. */
    method FromPages(n: nat, range: MemRange, isExec: bool) returns (addr: nat, ghost p: nat)
      requires Sound() && n > 0 && range.start < ADDRESS_SPACE && range.size < ADDRESS_SPACE
      modifies Allocators()`size
      ensures Sound()
      ensures addr == 0 ==> PagesExhausted(n, range, isExec) && old(PagesExhausted(n, range, isExec))
      ensures addr == 0 ==> Tried(old(Rooms()), Rooms(), os.pageSize, n, range, isExec)
      ensures addr != 0 ==> PagesFollow(old(Rooms()), Rooms(), os.pageSize, n, range, isExec, addr, true)
      ensures addr != 0 ==> var list := if isExec then code else data;
                exists i {:trigger list[i]} :: 0 <= i < |list| && list[i].buffer == p
                  && forall j {:trigger list[j]} :: 0 <= j < i ==>
                       old(list[j].size) <= os.pageSize && BumpAddress(list[j].buffer, old(list[j].size), os.pageSize, n, range) == 0
      ensures addr != 0 ==> Carved(p, addr, n, isExec) && addr + n < ADDRESS_SPACE && addr % 4 == 0
      ensures addr != 0 && old(Aligned()) && Searchable(range, os.pageSize) ==> Inside(range, addr, n)
      ensures addr != 0 && n >= 8 ==> Close(range, addr, n)
      ensures old(Aligned()) && (n % 8 == 0 || addr == 0) ==> Aligned()
    {
      hide Sound, LayoutOk, BumpAddress, Inside, Close, Searchable, Aligned, Carved, PagesExhausted, Tried, PagesFollow, Rooms, NoRoomIn, M.Floor;
      var list := if isExec then code else data;
      ghost var rooms := Rooms();
      PageSizes();
      RoomsAre(list, n, range, isExec);
      var i;
      addr, i := ScanPages(list, n, range, isExec);
      p := 0;
      if addr != 0 {
        p := list[i].buffer;
        EightFour(addr);
        RoomsTaken(rooms, n, range, isExec, p, addr);
      } else {
        ScannedAll(list, n, range, isExec);
        RoomsTried(rooms, n, range, isExec);
      }
    }

    /** The loop: the first page that serves. */
    method ScanPages(list: seq<M.LinearAllocator>, n: nat, range: MemRange, isExec: bool) returns (addr: nat, i: nat)
      requires Sound() && n > 0 && range.start < ADDRESS_SPACE && range.size < ADDRESS_SPACE && list == if isExec then code else data
      modifies Allocators()`size
      ensures Sound() && i <= |list| && (addr == 0 <==> i == |list|)
      ensures forall j {:trigger list[j]} :: 0 <= j < i ==>
                && list[j].size <= os.pageSize && BumpAddress(list[j].buffer, list[j].size, os.pageSize, n, range) == 0
                && old(list[j].size) <= os.pageSize && BumpAddress(list[j].buffer, old(list[j].size), os.pageSize, n, range) == 0
      ensures forall q {:trigger held[q]} :: q in held && held[q].isExec != isExec ==> held[q].allocator.size == old(held[q].allocator.size)
      ensures addr != 0 ==>
                var a := list[i];
                && a.buffer in held && held[a.buffer] == M.PageRecord(a, a.buffer, isExec)
                && old(a.size) <= os.pageSize && addr == BumpAddress(a.buffer, old(a.size), os.pageSize, n, range)
                && a.buffer + a.size == addr + n && M.Floor(addr, os.pageSize) == a.buffer
                && Carved(a.buffer, addr, n, isExec) && addr + n < ADDRESS_SPACE && addr % 8 == 0
      ensures addr != 0 && old(Aligned()) && Searchable(range, os.pageSize) ==> Inside(range, addr, n)
      ensures addr != 0 && n >= 8 ==> Close(range, addr, n)
      ensures old(Aligned()) && (n % 8 == 0 || addr == 0) ==> Aligned()
    {
      hide Sound, LayoutOk, BumpAddress, Inside, Close, Searchable, Aligned, Carved, M.Floor;
      ListHeld(list, isExec);
      addr, i := 0, 0;
      while i < |list|
        invariant 0 <= i <= |list| && addr == 0 && Sound()
        invariant forall j {:trigger list[j]} :: 0 <= j < i ==>
                    list[j].size <= os.pageSize && BumpAddress(list[j].buffer, list[j].size, os.pageSize, n, range) == 0
        invariant forall j {:trigger list[j]} :: 0 <= j < i ==>
                    old(list[j].size) <= os.pageSize && BumpAddress(list[j].buffer, old(list[j].size), os.pageSize, n, range) == 0
        invariant forall j {:trigger list[j]} :: i <= j < |list| ==> list[j].size == old(list[j].size)
        invariant forall q {:trigger held[q]} :: q in held && held[q].isExec != isExec ==> held[q].allocator.size == old(held[q].allocator.size)
        invariant old(Aligned()) ==> Aligned()
      {
        addr := TryPage(list[i], n, range, isExec);
        if addr != 0 {
          return;
        }
        i := i + 1;
      }
    }

    /** The pages as a map; those of a kind are those of its list. */
    lemma RoomsAre(list: seq<M.LinearAllocator>, n: nat, range: MemRange, isExec: bool)
      requires Sound() && list == if isExec then code else data
      ensures Rooms().Keys == held.Keys && forall q {:trigger held[q]} :: q in held ==> Rooms()[q] == Room(held[q].isExec, held[q].allocator.size)
      ensures forall j {:trigger list[j]} :: 0 <= j < |list| ==> list[j].buffer in held && Rooms()[list[j].buffer].cursor == list[j].size
      ensures (forall j {:trigger list[j]} :: 0 <= j < |list| ==>
                 list[j].size <= os.pageSize && BumpAddress(list[j].buffer, list[j].size, os.pageSize, n, range) == 0)
              ==> NoRoomIn(Rooms(), os.pageSize, n, range, isExec) && PagesExhausted(n, range, isExec)
    {
      hide BumpAddress, M.PagesMatch, OwnedDisjoint, LayoutOk, Mapped, RecordsOk;
      ScannedAll(list, n, range, isExec);
    }

    lemma RoomsTaken(was: map<nat, Room>, n: nat, range: MemRange, isExec: bool, p: nat, addr: nat)
      requires os.pageSize > 0 && was.Keys == held.Keys && p in held && held[p].isExec == isExec && M.Floor(addr, os.pageSize) == p
      requires forall q {:trigger held[q]} :: q in held ==>
                 was[q].isExec == held[q].isExec && (held[q].isExec != isExec ==> was[q].cursor == held[q].allocator.size)
      requires was[p].cursor <= os.pageSize && addr == BumpAddress(p, was[p].cursor, os.pageSize, n, range) != 0
      requires p + held[p].allocator.size == addr + n
      ensures PagesFollow(was, Rooms(), os.pageSize, n, range, isExec, addr, true)
    {
      hide BumpAddress, M.Floor;
    }

    lemma RoomsTried(was: map<nat, Room>, n: nat, range: MemRange, isExec: bool)
      requires was.Keys == held.Keys && NoRoomIn(was, os.pageSize, n, range, isExec) && PagesExhausted(n, range, isExec)
      requires forall q {:trigger held[q]} :: q in held ==>
                 was[q].isExec == held[q].isExec && (held[q].isExec != isExec ==> was[q].cursor == held[q].allocator.size)
      ensures Tried(was, Rooms(), os.pageSize, n, range, isExec)
    {
      hide BumpAddress;
    }

    lemma ListHeld(list: seq<M.LinearAllocator>, isExec: bool)
      requires Sound() && list == if isExec then code else data
      ensures forall i, j :: 0 <= i < j < |list| ==> list[i] != list[j]
      ensures forall i {:trigger list[i]} :: 0 <= i < |list| ==>
                list[i].buffer in held && held[list[i].buffer] == M.PageRecord(list[i], list[i].buffer, isExec)
                && list[i] in Allocators()
      ensures forall q {:trigger held[q]} :: q in held && held[q].isExec != isExec ==> held[q].allocator !in list
    {
      hide OwnedDisjoint, LayoutOk, CursorsOk, RecordsOk, Mapped, M.OnPage;
    }

    lemma ScannedAll(list: seq<M.LinearAllocator>, n: nat, range: MemRange, isExec: bool)
      requires Sound() && list == if isExec then code else data
      ensures (forall j {:trigger list[j]} :: 0 <= j < |list| ==>
                 list[j].size <= os.pageSize && BumpAddress(list[j].buffer, list[j].size, os.pageSize, n, range) == 0)
              ==> PagesExhausted(n, range, isExec)
    {
      hide BumpAddress, OwnedDisjoint, LayoutOk;
      forall p {:trigger held[p]} | p in held && held[p].isExec == isExec && held[p].allocator.size <= os.pageSize
        ensures exists j :: 0 <= j < |list| && list[j] == held[p].allocator && list[j].buffer == p
      {
        assert held[p].allocator in list;
        AllocatorHeld(p);
      }
    }

    /** Records a carved block as owned. */
    method Append(addr: nat, n: nat, isExec: bool, ghost p: nat)
      requires Sound() && n > 0 && Carved(p, addr, n, isExec)
      modifies this`records
      ensures Sound() && (old(AllLive()) ==> AllLive()) && (old(Aligned()) ==> Aligned())
      ensures records == old(records) + [NearRecord(addr, n, M.Floor(addr, os.pageSize), isExec, false, true)] && Rooms() == old(Rooms())
    {
      hide M.PagesMatch, M.ListOk, OwnedDisjoint, M.Floor, LayoutOk, PageLive, PageUsed;
      EightFour(addr);
      PageOf(p, addr);
      CarvedDisjoint(p, addr, n);
      ghost var r := NearRecord(addr, n, p, isExec, false, true);
      OwnedAppend(records, r);
      AppendLive(records, r);
      records := records + [NearRecord(addr, n, M.Floor(addr, os.pageSize), isExec, false, true)];
    }

    lemma PageOf(p: nat, addr: nat)
      requires Sound() && p in held && p <= addr < p + held[p].allocator.size
      ensures M.Floor(addr, os.pageSize) == p
    {
      M.FloorInPage(p, os.pageSize, addr);
    }

    /** A carved block overlaps no owned record: the pages are apart, and below the cursor the records come first. */
    lemma CarvedDisjoint(p: nat, addr: nat, n: nat)
      requires M.PagesMatch(pages, held, os.pageSize) && CursorsOk() && RecordsOk()
      requires p in held && p <= addr && addr + n <= p + held[p].allocator.size
      requires forall k {:trigger records[k]} :: 0 <= k < |records| && records[k].owned && records[k].page == p ==>
                 records[k].addr + records[k].size <= addr
      ensures forall k {:trigger records[k]} :: 0 <= k < |records| && records[k].owned ==>
                M.Disjoint(records[k].addr, records[k].size, addr, n)
    {
      forall k {:trigger records[k]} | 0 <= k < |records| && records[k].owned
        ensures M.Disjoint(records[k].addr, records[k].size, addr, n)
      {
        var q := records[k].page;
        assert RecordOk(records[k]);
        if q != p {
          M.PagesApart(p, q, os.pageSize);
        }
      }
    }

    /** Records a code gap, which belongs to some other mapping. */
    method AppendGap(addr: nat, n: nat)
      requires Sound() && n > 0 && addr % 4 == 0
      modifies this`records
      ensures Sound() && (old(AllLive()) ==> AllLive()) && (old(Aligned()) ==> Aligned()) && Allocators() == old(Allocators())
      ensures records == old(records) + [NearRecord(addr, n, M.Floor(addr, os.pageSize), true, false, false)]
      ensures forall m, range, e :: PagesExhausted(m, range, e) == old(PagesExhausted(m, range, e))
      ensures Rooms() == old(Rooms())
    {
      hide BumpAddress, M.PagesMatch, M.ListOk, OwnedDisjoint, M.Floor, LayoutOk, PageLive, PageUsed;
      PageSizes();
      var r := NearRecord(addr, n, M.Floor(addr, os.pageSize), true, false, false);
      OwnedAppend(records, r);
      AppendLive(records, r);
      records := records + [r];
    }

    /** Step 2: the first gap between regions that shares `n` bytes with the range, and its page to map; None if there is none. */
    method FindGap(n: nat, range: MemRange) returns (r: Option<(nat, nat)>)
      requires os.Valid() && n > 0 && range.start < ADDRESS_SPACE && range.size < ADDRESS_SPACE
      ensures r.Some? ==>
                var (i, page) := r.value;
                && i + 1 < |os.regions| && M.OnPage(page, os.pageSize)
                && os.regions[i].end <= page && page + os.pageSize <= os.regions[i + 1].start
                && page == M.Floor(Max(range.start, os.regions[i].end), os.pageSize) && !GapBelow(os.regions, i, n, range)
                && (forall j: nat :: j < i ==> GapBelow(os.regions, j, n, range))
                && exists a: nat :: page <= a < page + os.pageSize && Inside(range, a, 1) && !InRegions(os.regions, a)
      ensures r.None? ==> NoGap(os.regions, n, range)
    {
      hide M.OnPage, MemRange.Intersect, M.Floor;
      var i := 0;
      while i + 1 < |os.regions|
        invariant 0 <= i
        invariant forall j :: 0 <= j < i && j + 1 < |os.regions| ==> GapBelow(os.regions, j, n, range)
      {
        var lo, hi := os.regions[i].end, os.regions[i + 1].start;
        assert lo <= hi;
        var inter := range.Intersect(MemRange(lo, hi - lo));
        if inter.size >= n {
          IntersectBounds(range, MemRange(lo, hi - lo));
          M.FloorOnPage(inter.start, os.pageSize);
          PageInGap(lo, hi, inter.start, os.pageSize);
          assert Inside(range, inter.start, 1);
          GapUnmapped(os.regions, os.pageSize, i, inter.start);
          return Some((i, M.Floor(inter.start, os.pageSize)));
        }
        i := i + 1;
      }
      r := None;
    }

    /** Step 3: a run of zeros in an executable region, aligned to four; None if no region has a run long enough. */
    method FindCodeGap(n: nat, range: MemRange, mem: nat -> int) returns (r: Option<nat>)
      requires os.Valid() && n > 0 && range.start < ADDRESS_SPACE && range.size < ADDRESS_SPACE
      ensures r.Some? ==> Fits(range, r.value, n) && r.value % 4 == 0 && Zeros(mem, r.value, n) && InCode(os.regions, r.value, n)
      ensures r.Some? ==> exists i {:trigger os.regions[i]} :: 0 <= i < |os.regions|
                            && (forall j {:trigger os.regions[j]} :: 0 <= j < i ==> NoRun(os.regions[j], n, range, mem))
                            && FirstIn(os.regions[i], n, range, mem, r.value)
      ensures r.None? ==> NoCodeGap(os.regions, n, range, mem)
    {
      hide MemRange.Intersect, M.OnPage, Zeros;
      var i := 0;
      while i < |os.regions|
        invariant 0 <= i <= |os.regions|
        invariant forall j {:trigger os.regions[j]} :: 0 <= j < i ==> NoRun(os.regions[j], n, range, mem)
      {
        var region := os.regions[i];
        if region.exec {
          var inter := range.Intersect(MemRange(region.start, region.end - region.start));
          IntersectBounds(range, MemRange(region.start, region.end - region.start));
          if inter.size >= n {
            r := FindZeros(inter.start, inter.size, n, mem);
            if r.Some? {
              assert FirstIn(region, n, range, mem, r.value);
              return;
            }
          }
        }
        i := i + 1;
      }
      r := None;
    }

    /** Adds the allocator and the record of a new page. */
    method Enlist(page: nat, isExec: bool)
      requires os.Valid() && M.PagesMatch(pages, held, os.pageSize) && M.ListOk(code, held, true) && M.ListOk(data, held, false)
      requires CursorsOk() && RecordsOk()
      requires page !in held && page > 0 && page % 8 == 0 && M.OnPage(page, os.pageSize) && forall e :: !PageUsed(records, page, e)
      modifies this`code, this`data, this`pages, this`held
      ensures M.PagesMatch(pages, held, os.pageSize) && M.ListOk(code, held, true) && M.ListOk(data, held, false)
      ensures CursorsOk() && RecordsOk() && fresh(Allocators() - old(Allocators()))
      ensures held.Keys == old(held).Keys + {page} && held[page].isExec == isExec && forall p :: p in old(held) ==> held[p] == old(held)[p]
      ensures held[page].allocator.size == 0
      ensures old(AllLive()) ==> AllLive()
      ensures old(Aligned()) ==> Aligned()
    {
      hide M.PagesMatch, M.ListOk, M.OnPage, LayoutOk, PageUsed, PageLive;
      EnlistPage(page, isExec);
    }

    method EnlistPage(page: nat, isExec: bool)
      requires os.Valid() && M.PagesMatch(pages, held, os.pageSize) && M.ListOk(code, held, true) && M.ListOk(data, held, false)
      requires page !in held && page > 0 && page % 8 == 0 && M.OnPage(page, os.pageSize)
      modifies this`code, this`data, this`pages, this`held
      ensures M.PagesMatch(pages, held, os.pageSize) && M.ListOk(code, held, true) && M.ListOk(data, held, false)
      ensures page in held && held == old(held)[page := held[page]] && held[page].isExec == isExec
      ensures fresh(held[page].allocator) && held[page].allocator.size == 0
    {
      hide M.PagesMatch, M.ListOk, M.OnPage, LayoutOk;
      var a := new M.LinearAllocator(page, os.pageSize);
      var r := M.PageRecord(a, page, isExec);
      M.PagesAppend(pages, held, os.pageSize, r);
      M.ListAppend(code, held, r, true);
      M.ListAppend(data, held, r, false);
      if isExec {
        code := code + [a];
      } else {
        data := data + [a];
      }
      pages := pages + [r];
      held := held[page := r];
    }

    /** Maps a page of the kind and adds its allocator and its record. */
    method AddPage(page: nat, i: nat, isExec: bool)
      requires Sound() && i + 1 < |os.regions| && M.OnPage(page, os.pageSize)
      requires os.regions[i].end <= page && page + os.pageSize <= os.regions[i + 1].start
      modifies this, os
      ensures Sound() && fresh(Allocators() - old(Allocators())) && records == old(records)
      ensures held.Keys == old(held).Keys + {page} && held[page].isExec == isExec && held[page].allocator.size == 0
      ensures forall p :: p in old(held) ==> held[p] == old(held)[p]
      ensures page !in old(held)
      ensures !InRegions(old(os.regions), page)
      ensures MapsPage(old(os.regions), os.regions, page, os.pageSize, isExec)
      ensures old(AllLive()) ==> AllLive()
      ensures old(Aligned()) ==> Aligned()
    {
      hide M.PagesMatch, M.ListOk, M.OnPage, OwnedDisjoint, LayoutOk, InRegions, PageUsed, PageLive;
      NewPage(page, i);
      os.MapFixed(page, i, isExec);
      Enlist(page, isExec);
    }

    lemma RoomsOf()
      ensures Rooms().Keys == held.Keys && forall q {:trigger held[q]} :: q in held ==> Rooms()[q] == Room(held[q].isExec, held[q].allocator.size)
    {
    }

    lemma RoomsMore(was: map<nat, Room>, page: nat, isExec: bool)
      requires held.Keys == was.Keys + {page} && held[page].isExec == isExec && held[page].allocator.size == 0
      requires forall q {:trigger held[q]} :: q in was && q != page ==> was[q] == Room(held[q].isExec, held[q].allocator.size)
      ensures Rooms() == was[page := Room(isExec, 0)]
    {
    }

    /** A page in a gap is not held, and nothing was taken from it. */
    lemma NewPage(page: nat, i: nat)
      requires Sound() && i + 1 < |os.regions| && M.OnPage(page, os.pageSize)
      requires os.regions[i].end <= page && page + os.pageSize <= os.regions[i + 1].start
      ensures page !in held && page > 0 && page % 8 == 0 && forall e :: !PageUsed(records, page, e)
      ensures !InRegions(os.regions, page)
    {
      assert os.regions[i].start < os.regions[i].end;
      EightDivides(page, os.pageSize);
      GapUnmapped(os.regions, os.pageSize, i, page);
      HeldMapped(page);
      forall e
        ensures PageUsed(records, page, e) ==> page in held
      {
        UsedHeld(page, e);
      }
    }

    lemma HeldMapped(p: nat)
      requires Sound()
      ensures p in held ==> InRegions(os.regions, p)
    {
      if p in held {
        var region := PageRegion(p, os.pageSize, held[p].isExec);
        var j :| 0 <= j < |os.regions| && os.regions[j] == region;
      }
    }

    lemma UsedHeld(p: nat, e: bool)
      requires RecordsOk()
      ensures PageUsed(records, p, e) ==> p in held && held[p].isExec == e
    {
      if PageUsed(records, p, e) {
        var k :| 0 <= k < |records| && records[k].page == p && records[k].isExec == e && records[k].owned;
        assert RecordOk(records[k]);
      }
    }

    /** Every owned record is below the cursor of a held page of its kind, and the page is mapped. */
    ghost predicate OwnedSafe()
      reads this, os, Allocators()
    {
      forall k {:trigger records[k]} :: 0 <= k < |records| && records[k].owned ==>
        var r := records[k];
        && r.page in held && held[r.page].isExec == r.isExec && r.page <= r.addr
        && r.addr + r.size <= r.page + held[r.page].allocator.size <= r.page + os.pageSize
        && PageRegion(r.page, os.pageSize, r.isExec) in os.regions
    }

    lemma Safety()
      requires Sound()
      ensures OwnedSafe() && OwnedDisjoint(records)
    {
      hide M.PagesMatch, M.ListOk, OwnedDisjoint, LayoutOk;
      forall k {:trigger records[k]} | 0 <= k < |records| && records[k].owned
        ensures RecordOk(records[k])
      {
      }
    }

    /** Nothing serves the request: no freed record, no page, no gap to map a page in and, for code, no run of zeros. */
    ghost predicate Exhausted(n: nat, range: MemRange, isExec: bool, mem: nat -> int)
      reads this, os, Allocators()
    {
      && (forall c <- records :: !Reusable(c, n, range, isExec))
      && PagesExhausted(n, range, isExec)
      && NoGap(os.regions, n, range)
      && (isExec ==> NoCodeGap(os.regions, n, range, mem))
    }

    /** No freed record fits, no page has room, and no page that could be mapped would have. */
    ghost predicate NoPage(n: nat, range: MemRange, isExec: bool)
      reads this, os, Allocators()
    {
      && (forall c <- records :: !Reusable(c, n, range, isExec))
      && PagesExhausted(n, range, isExec)
      && NoFreshPage(os.regions, os.pageSize, n, range)
    }

    /** The request cannot be met from this state. */
    ghost predicate Hopeless(n: nat, range: MemRange, isExec: bool, mem: nat -> int)
      reads this, os, Allocators()
    {
      NoPage(n, range, isExec) && (isExec ==> NoCodeGap(os.regions, n, range, mem))
    }

    /**
      allocNearBlockLocked.  The block comes from a freed record, which is live again, or
      gets a new record; no other record changes.  It lies in the range while all cursors
      are aligned, and is at most 14 bytes off otherwise.  A code gap is taken only when
      no page serves, a request is refused only when nothing serves, before and after the
      call; and the recursion ends.
     */
    method AllocInRange(n: nat, range: MemRange, isExec: bool, mem: nat -> int) returns (block: M.MemBlock)
      requires Sound() && n > 0 && range.start < ADDRESS_SPACE && range.size < ADDRESS_SPACE
      modifies this, os, Allocators()`size
      ensures Sound() && fresh(Allocators() - old(Allocators()))
      ensures old(AllLive()) ==> AllLive()
      ensures old(Aligned()) && n % 8 == 0 ==> Aligned()
      ensures block == M.NO_BLOCK ==> records == old(records) && Exhausted(n, range, isExec, mem) && old(Hopeless(n, range, isExec, mem))
      ensures |old(records)| <= |records|
      ensures block != M.NO_BLOCK && |records| == |old(records)| ==>
                FirstReused(old(records), records, n, range, isExec, block.addr) && Rooms() == old(Rooms())
      ensures block == M.NO_BLOCK || |records| > |old(records)| ==>
                && (forall c <- old(records) :: !Reusable(c, n, range, isExec))
                && PagesFollow(old(Rooms()), Rooms(), os.pageSize, n, range, isExec, block.addr,
                               block != M.NO_BLOCK && records[|old(records)|].owned)
      ensures block != M.NO_BLOCK && |records| > |old(records)| && !records[|old(records)|].owned ==>
                InCode(os.regions, block.addr, n)
      ensures block != M.NO_BLOCK ==>
                && block.size == n && block.addr % 4 == 0 && block.addr + n < ADDRESS_SPACE
                && Granted(records, block, isExec) && Handed(old(records), records, block, isExec, os.pageSize, mem)
                && (|records| > |old(records)| ==> records[|old(records)|].owned || old(NoPage(n, range, isExec)))
                && (n >= 8 ==> Close(range, block.addr, n))
                && (old(Aligned()) && Searchable(range, os.pageSize) ==> Inside(range, block.addr, n))
      ensures forall r <- old(records) :: !r.isFree ==> r in records
      ensures forall r <- old(os.regions) :: r in os.regions
      ensures forall p :: p in held && p !in old(held) ==> !InRegions(old(os.regions), p)
      decreases Unmapped(os.regions, range)
    {
      hide Sound, M.OnPage, LayoutOk, InRegions, Unmapped, PageUsed, PageLive,
           NoGap, NoCodeGap, Reusable, BumpAddress, M.Floor, Searchable, Inside, Close, MapsPage, Granted,
           Aligned, AllLive, PagesExhausted, NoFreshPage, Handed, Rooms, Tried, PagesFollow, FirstReused, InCode, GapBelow;
      SoundSystem();
      PageSizes();
      ghost var rooms := Rooms();
      block := FromHeld(n, range, isExec, mem);
      if block != M.NO_BLOCK {
        return;
      }
      ghost var tried := Rooms();
      ghost var page;
      var grown;
      grown, page := TryGrow(n, range, isExec, mem);
      if grown {
        block := AllocInRange(n, range, isExec, mem);
        NothingReused(old(records), records, n, range, isExec, block.addr);
        FollowGrow(rooms, tried, page, Rooms(), os.pageSize, n, range, isExec, block.addr,
                   block != M.NO_BLOCK && records[|old(records)|].owned);
      } else {
        if isExec {
          block := FromCodeGap(n, range, mem);
        }
        FollowNone(rooms, Rooms(), os.pageSize, n, range, isExec, block.addr);
      }
    }

    /** Step 2: maps a page in a gap, if there is one. */
    method TryGrow(n: nat, range: MemRange, isExec: bool, ghost mem: nat -> int) returns (grown: bool, ghost page: nat)
      requires Sound() && n > 0 && range.start < ADDRESS_SPACE && range.size < ADDRESS_SPACE
      modifies this, os
      ensures Sound() && fresh(Allocators() - old(Allocators())) && records == old(records)
      ensures old(AllLive()) ==> AllLive()
      ensures old(Aligned()) ==> Aligned()
      ensures Widened(old(os.regions), os.regions)
      ensures forall p :: p in held && p !in old(held) ==> !InRegions(old(os.regions), p)
      ensures grown ==>
                && page !in old(Rooms()) && Touches(page, os.pageSize, range) && Rooms() == old(Rooms())[page := Room(isExec, 0)]
                && FirstGap(old(os.regions), os.pageSize, n, range, page)
      ensures grown ==>
                && Unmapped(os.regions, range) < Unmapped(old(os.regions), range)
                && (PagesExhausted(n, range, isExec) && NoFreshPage(os.regions, os.pageSize, n, range) ==>
                      NoFreshPage(old(os.regions), os.pageSize, n, range))
                && (NoCodeGap(os.regions, n, range, mem) ==> NoCodeGap(old(os.regions), n, range, mem))
      ensures !grown ==>
                && os.regions == old(os.regions) && Allocators() == old(Allocators()) && Rooms() == old(Rooms())
                && PagesExhausted(n, range, isExec) == old(PagesExhausted(n, range, isExec))
                && NoGap(os.regions, n, range) && NoFreshPage(os.regions, os.pageSize, n, range)
    {
      hide M.PagesMatch, M.ListOk, OwnedDisjoint, Mapped, M.OnPage, LayoutOk, InRegions, Unmapped,
           PageUsed, PageLive, NoGap, NoCodeGap, GapBelow, BumpAddress, Inside, AllLive, NoFreshPage, M.Floor, Touches;
      page := 0;
      var gap := FindGap(n, range);
      grown := gap.Some?;
      if grown {
        var (i, at) := gap.value;
        page := at;
        TouchesOne(page, os.pageSize, range);
        Grow(at, i, n, range, isExec, mem);
      } else {
        NoGapNoFresh(os.regions, os.pageSize, n, range);
      }
    }

    /** Step 3: a run of zeros in the code, if there is one. */
    method FromCodeGap(n: nat, range: MemRange, mem: nat -> int) returns (block: M.MemBlock)
      requires Sound() && os.pageSize > 0 && n > 0 && range.start < ADDRESS_SPACE && range.size < ADDRESS_SPACE
      modifies this`records
      ensures Sound() && (old(AllLive()) ==> AllLive()) && (old(Aligned()) ==> Aligned()) && Allocators() == old(Allocators())
      ensures PagesExhausted(n, range, true) == old(PagesExhausted(n, range, true)) && Rooms() == old(Rooms())
      ensures block == M.NO_BLOCK ==> records == old(records) && NoCodeGap(os.regions, n, range, mem)
      ensures block != M.NO_BLOCK ==> InCode(os.regions, block.addr, n) && |records| == |old(records)| + 1 && !records[|old(records)|].owned
      ensures block != M.NO_BLOCK ==>
                && block.size == n && block.addr % 4 == 0 && block.addr + n < ADDRESS_SPACE
                && Granted(records, block, true) && Handed(old(records), records, block, true, os.pageSize, mem)
                && Close(range, block.addr, n) && Inside(range, block.addr, n)
      ensures forall r <- old(records) :: r in records
    {
      hide M.PagesMatch, M.ListOk, OwnedDisjoint, Mapped, LayoutOk, PageUsed, PageLive,
           NoCodeGap, InCode, FirstIn, NoRun, BumpAddress, M.Floor, Close, Granted, Handed, AllLive;
      var hole := FindCodeGap(n, range, mem);
      if hole.None? {
        return M.NO_BLOCK;
      }
      AppendGap(hole.value, n);
      AppendedGranted(old(records), records, M.MemBlock(hole.value, n), true, false, os.pageSize, mem);
      InsideClose(range, hole.value, n);
      block := M.MemBlock(hole.value, n);
    }

    /** A page more: fewer addresses to map are left, and if nothing serves then, nothing did before. */
    method Grow(page: nat, i: nat, n: nat, range: MemRange, isExec: bool, ghost mem: nat -> int)
      requires Sound() && i + 1 < |os.regions| && M.OnPage(page, os.pageSize)
      requires os.regions[i].end <= page && page + os.pageSize <= os.regions[i + 1].start
      requires exists a: nat :: page <= a < page + os.pageSize && Inside(range, a, 1) && !InRegions(os.regions, a)
      modifies this, os
      ensures Sound() && fresh(Allocators() - old(Allocators())) && records == old(records)
      ensures old(AllLive()) ==> AllLive()
      ensures old(Aligned()) ==> Aligned()
      ensures Unmapped(os.regions, range) < Unmapped(old(os.regions), range)
      ensures held.Keys == old(held).Keys + {page} && !InRegions(old(os.regions), page)
      ensures page !in old(Rooms()) && Rooms() == old(Rooms())[page := Room(isExec, 0)]
      ensures Widened(old(os.regions), os.regions)
      ensures PagesExhausted(n, range, isExec) && NoFreshPage(os.regions, os.pageSize, n, range) ==>
                NoFreshPage(old(os.regions), os.pageSize, n, range)
      ensures NoCodeGap(os.regions, n, range, mem) ==> NoCodeGap(old(os.regions), n, range, mem)
    {
      hide Sound, M.OnPage, LayoutOk, InRegions, Unmapped, PageUsed, PageLive, NoCodeGap, BumpAddress, Inside, MapsPage,
           Aligned, AllLive, PagesExhausted, NoFreshPage, Rooms;
      ghost var was, rooms := os.regions, Rooms();
      RoomsOf();
      AddPage(page, i, isExec);
      RoomsMore(rooms, page, isExec);
      MapsFewer(was, os.regions, range, page, os.pageSize, isExec);
      MapsKeeps(was, os.regions, page, os.pageSize, isExec);
      FreshBefore(was, os.regions, os.pageSize, page, isExec, n, range, mem);
      FreshUnserved(page, n, range, isExec);
    }

    /** A freed record, or room on a held page. */
    method FromHeld(n: nat, range: MemRange, isExec: bool, ghost mem: nat -> int) returns (block: M.MemBlock)
      requires Sound() && os.pageSize > 0 && n > 0 && range.start < ADDRESS_SPACE && range.size < ADDRESS_SPACE
      modifies this`records, Allocators()`size
      ensures Sound() && (old(AllLive()) ==> AllLive()) && Allocators() == old(Allocators())
      ensures old(Aligned()) && (n % 8 == 0 || block == M.NO_BLOCK) ==> Aligned()
      ensures block == M.NO_BLOCK ==>
                && records == old(records) && (forall c <- records :: !Reusable(c, n, range, isExec))
                && PagesExhausted(n, range, isExec) && old(PagesExhausted(n, range, isExec))
                && Tried(old(Rooms()), Rooms(), os.pageSize, n, range, isExec)
      ensures block != M.NO_BLOCK ==>
                if |records| == |old(records)| then
                  FirstReused(old(records), records, n, range, isExec, block.addr) && Rooms() == old(Rooms())
                else
                  && PagesFollow(old(Rooms()), Rooms(), os.pageSize, n, range, isExec, block.addr, true)
                  && forall c <- old(records) :: !Reusable(c, n, range, isExec)
      ensures block != M.NO_BLOCK ==>
                && block.size == n && block.addr % 4 == 0 && block.addr + n < ADDRESS_SPACE
                && Granted(records, block, isExec) && Handed(old(records), records, block, isExec, os.pageSize, mem)
                && |old(records)| <= |records|
                && (|records| > |old(records)| ==> records[|old(records)|].owned)
                && (n >= 8 ==> Close(range, block.addr, n))
                && (old(Aligned()) && Searchable(range, os.pageSize) ==> Inside(range, block.addr, n))
      ensures forall r <- old(records) :: !r.isFree ==> r in records
    {
      hide Sound, LayoutOk, Reusable, BumpAddress, M.Floor, Searchable, Inside, Close, Granted,
           Aligned, PageUsed, PageLive, Carved, PagesExhausted, Handed, Marked, Tried, PagesFollow, Rooms, FirstReused;
      var again := Reuse(n, range, isExec);
      if again.Some? {
        RevivedGranted(old(records), records, again.value, n, range, isExec, os.pageSize, mem);
        InsideClose(range, again.value, n);
        return M.MemBlock(again.value, n);
      }
      var addr, p := FromPages(n, range, isExec);
      if addr == 0 {
        return M.NO_BLOCK;
      }
      Append(addr, n, isExec, p);
      AppendedGranted(old(records), records, M.MemBlock(addr, n), isExec, true, os.pageSize, mem);
      block := M.MemBlock(addr, n);
    }

    /** A page just mapped is among the pages that are tried. */
    lemma FreshUnserved(page: nat, n: nat, range: MemRange, isExec: bool)
      requires page in held && held[page].isExec == isExec && held[page].allocator.size == 0
      ensures PagesExhausted(n, range, isExec) ==> BumpAddress(page, 0, os.pageSize, n, range) == 0
    {
    }

    /** allocNearCodeBlock and allocNearDataBlock: blocks within `range` of the position. */
    method AllocNear(n: nat, pos: nat, range: nat, isExec: bool, mem: nat -> int) returns (block: M.MemBlock)
      requires Sound() && pos < ADDRESS_SPACE
      modifies this, os, Allocators()`size
      ensures Sound() && fresh(Allocators() - old(Allocators()))
      ensures old(AllLive()) ==> AllLive()
      ensures old(Aligned()) && n % 8 == 0 ==> Aligned()
      ensures n == 0 || pos < range || range > (ADDRESS_SPACE - 1) / 2 ==>
                block == M.NO_BLOCK && records == old(records) && held == old(held) && Rooms() == old(Rooms()) && os.regions == old(os.regions)
      ensures block == M.NO_BLOCK ==> records == old(records)
      ensures block == M.NO_BLOCK && n != 0 && range <= pos && range <= (ADDRESS_SPACE - 1) / 2 ==>
                var search := MemRange(pos - range, range * 2);
                Exhausted(n, search, isExec, mem) && old(Hopeless(n, search, isExec, mem))
      ensures |old(records)| <= |records|
      ensures n != 0 && range <= pos && range <= (ADDRESS_SPACE - 1) / 2 ==>
                var search := MemRange(pos - range, range * 2);
                if block != M.NO_BLOCK && |records| == |old(records)| then
                  FirstReused(old(records), records, n, search, isExec, block.addr) && Rooms() == old(Rooms())
                else
                  && (forall c <- old(records) :: !Reusable(c, n, search, isExec))
                  && PagesFollow(old(Rooms()), Rooms(), os.pageSize, n, search, isExec, block.addr,
                                 block != M.NO_BLOCK && records[|old(records)|].owned)
                  && (block != M.NO_BLOCK && !records[|old(records)|].owned ==> InCode(os.regions, block.addr, n))
      ensures block != M.NO_BLOCK ==>
                && block.size == n && block.addr % 4 == 0 && block.addr + n < ADDRESS_SPACE
                && Granted(records, block, isExec) && Handed(old(records), records, block, isExec, os.pageSize, mem)
                && (|records| > |old(records)| ==>
                      records[|old(records)|].owned || old(NoPage(n, MemRange(pos - range, range * 2), isExec)))
                && (n >= 8 ==> pos - range <= block.addr && block.addr + n <= pos + range + 14)
                && (old(Aligned()) && os.pageSize <= 2 * range ==> pos - range <= block.addr && block.addr + n <= pos + range)
      ensures forall r <- old(records) :: !r.isFree ==> r in records
      ensures forall r <- old(os.regions) :: r in os.regions
      ensures forall p :: p in held && p !in old(held) ==> !InRegions(old(os.regions), p)
    {
      hide Exhausted, Hopeless, NoPage, InRegions, M.PagesMatch, M.ListOk, OwnedDisjoint, LayoutOk, PageUsed, PageLive, Granted, Handed,
           Aligned, AllLive, RecordsOk, CursorsOk, Mapped, PagesFollow, FirstReused, Reusable, InCode;
      PageSizes();
      if n == 0 || pos < range || range > (ADDRESS_SPACE - 1) / 2 {
        return M.NO_BLOCK;
      }
      block := AllocInRange(n, MemRange(pos - range, range * 2), isExec, mem);
    }

    /** The first record of the block's address and kind. */
    method FindRecord(addr: nat, isExec: bool) returns (i: nat)
      ensures i == IndexOf(records, addr, isExec)
    {
      i := 0;
      while i < |records| && !(records[i].addr == addr && records[i].isExec == isExec)
        invariant 0 <= i <= |records|
        invariant forall j {:trigger records[j]} :: 0 <= j < i ==> !(records[j].addr == addr && records[j].isExec == isExec)
      {
        i := i + 1;
      }
    }

    method HasLive(page: nat, isExec: bool) returns (live: bool)
      ensures live == PageLive(records, page, isExec)
    {
      var k := 0;
      while k < |records|
        invariant 0 <= k <= |records|
        invariant forall j {:trigger records[j]} :: 0 <= j < k ==>
                    !(records[j].page == page && records[j].isExec == isExec && !records[j].isFree)
      {
        if records[k].page == page && records[k].isExec == isExec && !records[k].isFree {
          return true;
        }
        k := k + 1;
      }
      live := false;
    }

    /** Erases the page's owned records, in place of the list they were in. */
    method DropRecords(page: nat, isExec: bool)
      modifies this`records
      ensures records == Dropped(old(records), page, isExec)
    {
      var kept := [];
      var i := 0;
      while i < |records|
        invariant i <= |records| && kept == Dropped(records[..i], page, isExec) && records == old(records)
      {
        assert records[..i + 1][..i] == records[..i];
        if !(records[i].page == page && records[i].isExec == isExec && records[i].owned) {
          kept := kept + [records[i]];
        }
        i := i + 1;
      }
      assert records[..i] == records;
      records := kept;
    }

    /** As AllLive, but for one page and kind. */
    ghost predicate OthersLive(page: nat, isExec: bool)
      reads this
    {
      forall p {:trigger held[p]} ::
        p in held && !(p == page && held[p].isExec == isExec) && PageUsed(records, p, held[p].isExec) ==>
        PageLive(records, p, held[p].isExec)
    }

    /** Erases the page's record and its allocator. */
    method Unlist(page: nat, isExec: bool)
      requires M.PagesMatch(pages, held, os.pageSize) && M.ListOk(code, held, true) && M.ListOk(data, held, false)
      requires page in held && held[page].isExec == isExec
      modifies this`pages, this`code, this`data, this`held
      ensures M.PagesMatch(pages, held, os.pageSize) && M.ListOk(code, held, true) && M.ListOk(data, held, false)
      ensures held == old(held) - {page}
    {
      hide M.PagesMatch, M.ListOk;
      M.ListUnaffected(if isExec then data else code, held, !isExec, page);
      var list;
      pages, list := M.TakeOut(pages, if isExec then code else data, held, os.pageSize, page, isExec);
      if isExec {
        code := list;
      } else {
        data := list;
      }
      held := held - {page};
    }

    /** Erases the owned records of a page that is no longer held. */
    method DropOwned(page: nat, isExec: bool)
      requires OwnedDisjoint(records) && page !in held
      requires forall k {:trigger records[k]} :: 0 <= k < |records| ==>
                 var r := records[k];
                 (r.page == page && r.isExec == isExec && r.owned) || RecordOk(r)
      modifies this`records
      ensures OwnedDisjoint(records) && RecordsOk() && records == Dropped(old(records), page, isExec)
      ensures old(OthersLive(page, isExec)) ==> AllLive()
    {
      hide OwnedDisjoint, PageUsed, PageLive;
      DroppedDisjoint(records, page, isExec);
      DroppedLive(records, page, isExec);
      DropRecords(page, isExec);
      forall k {:trigger records[k]} | 0 <= k < |records|
        ensures RecordOk(records[k])
      {
        assert records[k] in old(records);
      }
    }

    /** The page, its allocator and its owned records go, and the page is unmapped. */
    method Release(page: nat, isExec: bool)
      requires Sound() && page in held && held[page].isExec == isExec
      modifies this, os
      ensures Sound() && held == old(held) - {page} && records == Dropped(old(records), page, isExec)
      ensures forall a: nat :: InRegions(os.regions, a) <==> InRegions(old(os.regions), a) && !(page <= a < page + os.pageSize)
      ensures old(OthersLive(page, isExec)) ==> AllLive()
      ensures old(Aligned()) ==> Aligned()
    {
      hide M.PagesMatch, M.ListOk, OwnedDisjoint, LayoutOk, InRegions, PageUsed, PageLive, Dropped;
      Unlist(page, isExec);
      DropOwned(page, isExec);
      os.Unmap(page, isExec);
    }

    /** Marks a record free; only its own page may be left without a live block. */
    method MarkFree(i: nat)
      requires Sound() && i < |records|
      modifies this`records
      ensures Sound() && records == Marked(old(records), i, true) && (old(Aligned()) ==> Aligned())
      ensures old(AllLive()) ==> OthersLive(old(records)[i].page, old(records)[i].isExec)
    {
      hide M.PagesMatch, M.ListOk, OwnedDisjoint, LayoutOk, PageUsed, PageLive;
      FreedLive(records, i);
      MarkedDisjoint(records, i, true);
      assert RecordOk(records[i]);
      records := records[i := records[i].(isFree := true)];
    }

    /**
      freeNearBlockLocked.  The first record of the block is marked free.  Its page goes
      back to the system exactly when the record is owned and was the last live one on the
      page; blocks that are not known change nothing.  A page is left without a live block
      exactly when a code gap on it, which is not owned, was the last one.
     */
    method Free(block: M.MemBlock, isExec: bool)
      requires Sound()
      modifies this, os
      ensures Sound() && (old(Aligned()) ==> Aligned())
      ensures var i := IndexOf(old(records), block.addr, isExec);
        if block.addr == 0 || block.size == 0 || i == |old(records)| then
          records == old(records) && held == old(held) && os.regions == old(os.regions)
        else
          var marked, page := Marked(old(records), i, true), M.Floor(block.addr, os.pageSize);
          if !old(records)[i].owned || PageLive(marked, page, isExec) then
            records == marked && held == old(held) && os.regions == old(os.regions)
          else
            && records == Dropped(marked, page, isExec) && held == old(held) - {page} && page in old(held)
            && forall a: nat :: InRegions(os.regions, a) <==> InRegions(old(os.regions), a) && !(page <= a < page + os.pageSize)
      ensures old(AllLive()) ==>
        var i := IndexOf(old(records), block.addr, isExec);
        (AllLive() <==> block.addr == 0 || block.size == 0 || i == |old(records)| || old(records)[i].owned
                        || !Stray(Marked(old(records), i, true), held, old(records)[i].page, isExec))
    {
      hide M.PagesMatch, M.ListOk, OwnedDisjoint, LayoutOk, InRegions, PageUsed, PageLive, M.Floor, IndexOf, Dropped, Marked;
      if block.addr == 0 || block.size == 0 {
        return;
      }
      PageSizes();
      var page := M.Floor(block.addr, os.pageSize);
      var i := FindRecord(block.addr, isExec);
      if i == |records| {
        return;
      }
      var owned := records[i].owned;
      OwnPage(i);
      MarkFree(i);
      if !owned {
        return;
      }
      var live := HasLive(page, isExec);
      if live {
        return;
      }
      Release(page, isExec);
    }

    /** Only code blocks come from gaps. */
    lemma DataOwned(addr: nat, isExec: bool)
      requires Sound() && !isExec
      ensures var i := IndexOf(records, addr, isExec); i < |records| ==> records[i].owned
    {
      var i := IndexOf(records, addr, isExec);
      if i < |records| {
        assert RecordOk(records[i]);
      }
    }

    lemma OwnPage(i: nat)
      requires Sound() && i < |records|
      ensures records[i].owned ==> var p := M.Floor(records[i].addr, os.pageSize);
        records[i].page == p && p in held && held[p].isExec == records[i].isExec
    {
      if records[i].owned {
        assert RecordOk(records[i]);
        PageOf(records[i].page, records[i].addr);
      }
    }
  }

  /** Blocks were taken from the held page and none on it is live. */
  ghost predicate Stray(records: seq<NearRecord>, held: M.Pages, page: nat, isExec: bool) {
    page in held && held[page].isExec == isExec && PageUsed(records, page, isExec) && !PageLive(records, page, isExec)
  }

  predicate FreeFits(r: NearRecord, n: nat, range: MemRange, isExec: bool) {
    r.isFree && r.isExec == isExec && r.size >= n && range.Contains(r.addr, n)
  }

  /** A freed record of the kind that is large enough and whose first n bytes lie in the range, which does not wrap around. */
  predicate Reusable(r: NearRecord, n: nat, range: MemRange, isExec: bool) {
    r.isFree && r.isExec == isExec && n <= r.size && range.start <= r.addr && r.addr + n <= range.start + range.size < ADDRESS_SPACE
  }

  lemma FitsExactly(r: NearRecord, n: nat, range: MemRange, isExec: bool)
    requires n > 0 && range.start < ADDRESS_SPACE && range.size < ADDRESS_SPACE
    ensures FreeFits(r, n, range, isExec) <==> Reusable(r, n, range, isExec)
  {
    ContainsExact(range, r.addr, n);
  }

  lemma MarkedLive(records: seq<NearRecord>, i: nat)
    requires i < |records|
    ensures forall p, e :: PageUsed(Marked(records, i, false), p, e) ==> PageUsed(records, p, e)
    ensures forall p, e :: PageLive(records, p, e) ==> PageLive(Marked(records, i, false), p, e)
  {
    var r := Marked(records, i, false);
    forall p, e | PageUsed(r, p, e)
      ensures PageUsed(records, p, e)
    {
      var k :| 0 <= k < |r| && r[k].page == p && r[k].isExec == e && r[k].owned;
      assert records[k].owned && records[k].page == p && records[k].isExec == e;
    }
    forall p, e | PageLive(records, p, e)
      ensures PageLive(r, p, e)
    {
      var k :| 0 <= k < |records| && records[k].page == p && records[k].isExec == e && !records[k].isFree;
      assert r[k].page == p && r[k].isExec == e && !r[k].isFree;
    }
  }

  lemma AppendLive(records: seq<NearRecord>, r: NearRecord)
    requires !r.isFree
    ensures forall p, e :: PageLive(records, p, e) ==> PageLive(records + [r], p, e)
    ensures forall p, e :: PageUsed(records + [r], p, e) ==> PageUsed(records, p, e) || PageLive(records + [r], p, e)
  {
    var now := records + [r];
    assert now[|records|] == r;
    forall p, e | PageLive(records, p, e)
      ensures PageLive(now, p, e)
    {
      var k :| 0 <= k < |records| && records[k].page == p && records[k].isExec == e && !records[k].isFree;
      assert now[k] == records[k];
    }
    forall p, e | PageUsed(now, p, e)
      ensures PageUsed(records, p, e) || PageLive(now, p, e)
    {
      var k :| 0 <= k < |now| && now[k].page == p && now[k].isExec == e && now[k].owned;
      if k < |records| {
        assert records[k] == now[k];
      }
    }
  }

  /** The gap behind region j shares fewer than n bytes with the range. */
  predicate GapBelow(regions: seq<Region>, j: nat, n: nat, range: MemRange)
    requires j + 1 < |regions|
  {
    regions[j].end <= regions[j + 1].start ==>
      range.Intersect(MemRange(regions[j].end, regions[j + 1].start - regions[j].end)).size < n
  }

  /** In plain arithmetic. */
  lemma GapExact(regions: seq<Region>, pageSize: nat, j: nat, n: nat, range: MemRange)
    requires LayoutOk(regions, pageSize) && j + 1 < |regions| && n > 0 && range.start < ADDRESS_SPACE && range.size < ADDRESS_SPACE
    ensures GapBelow(regions, j, n, range) <==>
              || range.start + range.size >= ADDRESS_SPACE
              || Min(range.start + range.size, regions[j + 1].start) - Max(range.start, regions[j].end) < n
  {
    hide M.OnPage;
    assert regions[j].end <= regions[j + 1].start < regions[j + 1].end;
    WrappedEnd(range);
    WrappedEnd(MemRange(regions[j].end, regions[j + 1].start - regions[j].end));
  }

  /** The page is the first shared one of the first gap that shares n bytes with the range. */
  ghost predicate FirstGap(regions: seq<Region>, pageSize: nat, n: nat, range: MemRange, page: nat) {
    && pageSize > 0
    && exists i: nat {:trigger regions[i]} ::
         && i + 1 < |regions| && page == M.Floor(Max(range.start, regions[i].end), pageSize)
         && !GapBelow(regions, i, n, range) && forall j: nat :: j < i ==> GapBelow(regions, j, n, range)
  }

  predicate NoGap(regions: seq<Region>, n: nat, range: MemRange) {
    forall j: nat :: j + 1 < |regions| ==> GapBelow(regions, j, n, range)
  }

  /** An executable region has no run of n + 3 zeros in the range. */
  ghost predicate NoRun(region: Region, n: nat, range: MemRange, mem: nat -> int) {
    region.exec && region.start <= region.end ==>
      var inter := range.Intersect(MemRange(region.start, region.end - region.start));
      inter.size >= n ==>
        forall s: nat {:trigger Zeros(mem, s, n + 3)} ::
          inter.start <= s && s + (n + 3) <= inter.start + inter.size ==> !Zeros(mem, s, n + 3)
  }

  /** An executable region whose first run of n + 3 zeros in the range gives the address, rounded up to four. */
  ghost predicate FirstIn(region: Region, n: nat, range: MemRange, mem: nat -> int, addr: nat) {
    && region.exec && region.start <= region.end
    && var inter := range.Intersect(MemRange(region.start, region.end - region.start));
       inter.size >= n && exists s: nat {:trigger FirstRun(mem, inter.start, inter.size, n + 3, s)} ::
         FirstRun(mem, inter.start, inter.size, n + 3, s) && addr == (s + 3) / 4 * 4
  }

  /** [addr, addr + n) lies in one executable region. */
  ghost predicate InCode(regions: seq<Region>, addr: nat, n: nat) {
    exists r <- regions :: r.exec && r.start <= addr && addr + n <= r.end
  }

  ghost predicate NoCodeGap(regions: seq<Region>, n: nat, range: MemRange, mem: nat -> int) {
    forall j {:trigger regions[j]} :: 0 <= j < |regions| ==> NoRun(regions[j], n, range, mem)
  }

  /** Some live record covers the block. */
  predicate Granted(records: seq<NearRecord>, block: M.MemBlock, isExec: bool) {
    exists k {:trigger records[k]} :: 0 <= k < |records| && records[k].addr == block.addr && block.size <= records[k].size
              && records[k].isExec == isExec && !records[k].isFree
  }

  function NewRecord(block: M.MemBlock, isExec: bool, owned: bool, pageSize: nat): NearRecord
    requires pageSize > 0
  {
    NearRecord(block.addr, block.size, M.Floor(block.addr, pageSize), isExec, false, owned)
  }

  /** One freed record that holds the block is live again, or a live record of the block is new: owned, or over zero bytes of code. */
  ghost predicate Handed(was: seq<NearRecord>, now: seq<NearRecord>, block: M.MemBlock, isExec: bool, pageSize: nat, mem: nat -> int)
    requires pageSize > 0
  {
    || (exists k {:trigger was[k]} :: 0 <= k < |was| && was[k].isFree && was[k].isExec == isExec
          && was[k].addr == block.addr && block.size <= was[k].size && now == Marked(was, k, false))
    || now == was + [NewRecord(block, isExec, true, pageSize)]
    || (isExec && Zeros(mem, block.addr, block.size) && now == was + [NewRecord(block, isExec, false, pageSize)])
  }

  lemma RevivedGranted(was: seq<NearRecord>, now: seq<NearRecord>, addr: nat, n: nat, range: MemRange, isExec: bool,
                       pageSize: nat, mem: nat -> int)
    requires FirstReused(was, now, n, range, isExec, addr) && pageSize > 0
    ensures Granted(now, M.MemBlock(addr, n), isExec) && Handed(was, now, M.MemBlock(addr, n), isExec, pageSize, mem) && |now| == |was|
    ensures forall r <- was :: !r.isFree ==> r in now
  {
    var k :| 0 <= k < |was| && Reusable(was[k], n, range, isExec) && was[k].addr == addr && now == Marked(was, k, false);
    assert now[k].addr == addr;
    forall r | r in was && !r.isFree
      ensures r in now
    {
      var j :| 0 <= j < |was| && was[j] == r;
      assert now[j] == r;
    }
  }

  lemma AppendedGranted(was: seq<NearRecord>, now: seq<NearRecord>, block: M.MemBlock, isExec: bool, owned: bool,
                        pageSize: nat, mem: nat -> int)
    requires pageSize > 0 && now == was + [NewRecord(block, isExec, owned, pageSize)]
    requires owned || (isExec && Zeros(mem, block.addr, block.size))
    ensures Granted(now, block, isExec) && Handed(was, now, block, isExec, pageSize, mem)
    ensures |now| == |was| + 1 && now[|was|].owned == owned
    ensures forall r <- was :: r in now
  {
    assert now[|was|] == NewRecord(block, isExec, owned, pageSize);
  }

  // --- pages that could be mapped

  /** A page between two regions of which nothing is mapped. */
  ghost predicate Fresh(regions: seq<Region>, pageSize: nat, page: nat) {
    && M.OnPage(page, pageSize) && (forall a: nat :: page <= a < page + pageSize ==> !InRegions(regions, a))
    && (exists lo <- regions :: lo.end <= page) && (exists hi <- regions :: page + pageSize <= hi.start)
  }

  /** No page that could be mapped would serve the request. */
  ghost predicate NoFreshPage(regions: seq<Region>, pageSize: nat, n: nat, range: MemRange) {
    forall page: nat {:trigger Fresh(regions, pageSize, page)} ::
      Fresh(regions, pageSize, page) ==> BumpAddress(page, 0, pageSize, n, range) == 0
  }

  /** The two neighbouring regions around an unmapped page. */
  lemma {:induction false} PairAround(regions: seq<Region>, pageSize: nat, page: nat, j: nat, k: nat) returns (i: nat)
    requires LayoutOk(regions, pageSize) && pageSize > 0 && j < k < |regions|
    requires regions[j].end <= page && page + pageSize <= regions[k].start
    requires forall a: nat :: page <= a < page + pageSize ==> !InRegions(regions, a)
    ensures i + 1 < |regions| && regions[i].end <= page && page + pageSize <= regions[i + 1].start
    decreases k - j
  {
    if j + 1 == k {
      i := j;
    } else {
      var r := regions[j + 1];
      assert InRegions(regions, r.start) && (r.start < page < r.end ==> InRegions(regions, page));
      if r.end <= page {
        i := PairAround(regions, pageSize, page, j + 1, k);
      } else {
        i := j;
      }
    }
  }

  /** A wider range shares at least as much. */
  lemma IntersectWider(range: MemRange, q: MemRange, w: MemRange)
    requires range.start < ADDRESS_SPACE && range.size < ADDRESS_SPACE
    requires w.start <= q.start && q.start + q.size <= w.start + w.size < ADDRESS_SPACE
    ensures range.Intersect(q).size <= range.Intersect(w).size
  {
    WrappedEnd(range);
    WrappedEnd(q);
    WrappedEnd(w);
  }

  /** Without a gap to map a page in, no page that could be mapped would serve. */
  lemma NoGapNoFresh(regions: seq<Region>, pageSize: nat, n: nat, range: MemRange)
    requires LayoutOk(regions, pageSize) && pageSize > 0 && NoGap(regions, n, range)
    requires range.start < ADDRESS_SPACE && range.size < ADDRESS_SPACE
    ensures NoFreshPage(regions, pageSize, n, range)
  {
    hide M.OnPage, MemRange.Intersect, BumpAddress, InRegions;
    forall page: nat {:trigger Fresh(regions, pageSize, page)} | Fresh(regions, pageSize, page)
      ensures BumpAddress(page, 0, pageSize, n, range) == 0
    {
      var j :| 0 <= j < |regions| && regions[j].end <= page;
      var k :| 0 <= k < |regions| && page + pageSize <= regions[k].start;
      var i := PairAround(regions, pageSize, page, j, k);
      var lo, hi := regions[i].end, regions[i + 1].start;
      assert regions[i + 1].start < regions[i + 1].end;
      IntersectWider(range, MemRange(page, pageSize), MemRange(lo, hi - lo));
      assert GapBelow(regions, i, n, range);
      BumpNeeds(page, pageSize, n, range);
    }
  }

  lemma BumpNeeds(page: nat, pageSize: nat, n: nat, range: MemRange)
    ensures range.Intersect(MemRange(page, pageSize)).size < n ==> BumpAddress(page, 0, pageSize, n, range) == 0
  {
    hide MemRange.Intersect;
  }

  /** If neither the page just mapped nor any other would serve, none would have before. */
  lemma FreshBefore(was: seq<Region>, now: seq<Region>, pageSize: nat, page: nat, isExec: bool, n: nat, range: MemRange, mem: nat -> int)
    requires MapsPage(was, now, page, pageSize, isExec) && M.OnPage(page, pageSize)
    ensures NoFreshPage(now, pageSize, n, range) && BumpAddress(page, 0, pageSize, n, range) == 0 ==> NoFreshPage(was, pageSize, n, range)
    ensures NoCodeGap(now, n, range, mem) ==> NoCodeGap(was, n, range, mem)
  {
    hide M.OnPage, InRegions, BumpAddress, NoRun;
    forall p: nat {:trigger Fresh(was, pageSize, p)} | Fresh(was, pageSize, p) && p != page
      ensures Fresh(now, pageSize, p)
    {
      M.PagesApart(page, p, pageSize);
    }
    forall j {:trigger was[j]} | 0 <= j < |was|
      ensures NoCodeGap(now, n, range, mem) ==> NoRun(was[j], n, range, mem)
    {
      assert was[j] in now;
    }
  }

  /** Every region, and every address in one, is still there. */
  ghost predicate Widened(was: seq<Region>, now: seq<Region>) {
    (forall r <- was :: r in now) && forall a: nat :: InRegions(was, a) ==> InRegions(now, a)
  }

  lemma MapsKeeps(was: seq<Region>, now: seq<Region>, page: nat, pageSize: nat, isExec: bool)
    requires MapsPage(was, now, page, pageSize, isExec)
    ensures Widened(was, now)
  {
  }

  lemma MapsFewer(was: seq<Region>, now: seq<Region>, range: MemRange, page: nat, pageSize: nat, isExec: bool)
    requires MapsPage(was, now, page, pageSize, isExec)
    requires exists a: nat :: page <= a < page + pageSize && Inside(range, a, 1) && !InRegions(was, a)
    ensures Unmapped(now, range) < Unmapped(was, range)
  {
    FewerUnmapped(was, now, range, page, pageSize);
  }

  lemma DroppedLive(records: seq<NearRecord>, page: nat, isExec: bool)
    ensures forall p, e :: p != page && PageLive(records, p, e) ==> PageLive(Dropped(records, page, isExec), p, e)
    ensures forall p, e :: PageUsed(Dropped(records, page, isExec), p, e) ==> PageUsed(records, p, e)
  {
    var kept := Dropped(records, page, isExec);
    forall p, e | p != page && PageLive(records, p, e)
      ensures PageLive(kept, p, e)
    {
      var k :| 0 <= k < |records| && records[k].page == p && records[k].isExec == e && !records[k].isFree;
      assert records[k] in kept;
      var j :| 0 <= j < |kept| && kept[j] == records[k];
    }
    forall p, e | PageUsed(kept, p, e)
      ensures PageUsed(records, p, e)
    {
      var k :| 0 <= k < |kept| && kept[k].page == p && kept[k].isExec == e && kept[k].owned;
      assert kept[k] in records;
      var j :| 0 <= j < |records| && records[j] == kept[k];
    }
  }

  lemma FreedLive(records: seq<NearRecord>, i: nat)
    requires i < |records|
    ensures forall p, e :: !(p == records[i].page && e == records[i].isExec) && PageLive(records, p, e) ==> PageLive(Marked(records, i, true), p, e)
    ensures forall p, e :: PageUsed(Marked(records, i, true), p, e) ==> PageUsed(records, p, e)
  {
    var r := Marked(records, i, true);
    forall p, e | !(p == records[i].page && e == records[i].isExec) && PageLive(records, p, e)
      ensures PageLive(r, p, e)
    {
      var k :| 0 <= k < |records| && records[k].page == p && records[k].isExec == e && !records[k].isFree;
      assert r[k] == records[k];
    }
    forall p, e | PageUsed(r, p, e)
      ensures PageUsed(records, p, e)
    {
      var k :| 0 <= k < |r| && r[k].page == p && r[k].isExec == e && r[k].owned;
      assert records[k].owned && records[k].page == p && records[k].isExec == e;
    }
  }

  // --- whole runs

  datatype NearCall =
    | AllocCall(n: nat, pos: nat, range: nat, isExec: bool, mem: nat -> int)
    | FreeCall(block: M.MemBlock, isExec: bool)

  /** The records after a free. */
  ghost function AfterFree(was: seq<NearRecord>, block: M.MemBlock, isExec: bool, pageSize: nat): seq<NearRecord>
    requires pageSize > 0
  {
    var i := IndexOf(was, block.addr, isExec);
    if block.addr == 0 || block.size == 0 || i == |was| then was
    else
      var marked, page := Marked(was, i, true), M.Floor(block.addr, pageSize);
      if !was[i].owned || PageLive(marked, page, isExec) then marked else Dropped(marked, page, isExec)
  }

  /** What one call may do to the records, by the block it returns. */
  ghost predicate Follows(was: seq<NearRecord>, now: seq<NearRecord>, call: NearCall, block: M.MemBlock, pageSize: nat)
    requires pageSize > 0
  {
    match call
    case AllocCall(n, _, _, isExec, mem) =>
      if block == M.NO_BLOCK then now == was else block.size == n && Handed(was, now, block, isExec, pageSize, mem)
    case FreeCall(freed, isExec) =>
      now == AfterFree(was, freed, isExec, pageSize)
  }

  /**
    Any sequence of near allocations and frees: owned blocks stay disjoint, each below the
    cursor of a mapped page of its kind; cursors stay aligned while all sizes are multiples
    of eight; and while no code block is freed every page in use has a live block.
   */
  method Run(a: NearAllocator, calls: seq<NearCall>) returns (blocks: seq<M.MemBlock>, ghost trail: seq<seq<NearRecord>>)
    requires a.Sound() && forall c <- calls :: c.AllocCall? ==> c.pos < ADDRESS_SPACE
    modifies a, a.os, a.Allocators()
    ensures |blocks| == |calls| && |trail| == |calls| + 1 && trail[0] == old(a.records) && trail[|calls|] == a.records
    ensures a.os.pageSize > 0
    ensures forall i {:trigger calls[i]} :: 0 <= i < |calls| ==> Follows(trail[i], trail[i + 1], calls[i], blocks[i], a.os.pageSize)
    ensures a.Sound() && OwnedDisjoint(a.records)
    ensures a.OwnedSafe()
    ensures old(a.Aligned()) && (forall c <- calls :: c.AllocCall? ==> c.n % 8 == 0) ==> a.Aligned()
    ensures old(a.AllLive()) && (forall c <- calls :: c.FreeCall? ==> !c.isExec) ==> a.AllLive()
  {
    hide NearAllocator.Sound, NearAllocator.Aligned, NearAllocator.AllLive, NearAllocator.Hopeless, OwnedDisjoint, Follows;
    a.PageSizes();
    blocks, trail := [], [a.records];
    var i := 0;
    while i < |calls|
      invariant 0 <= i <= |calls| && a.Sound() && fresh(a.Allocators() - old(a.Allocators()))
      invariant |blocks| == i && |trail| == i + 1 && trail[0] == old(a.records) && trail[i] == a.records
      invariant forall j {:trigger calls[j]} :: 0 <= j < i ==> Follows(trail[j], trail[j + 1], calls[j], blocks[j], a.os.pageSize)
      invariant old(a.Aligned()) && (forall c <- calls :: c.AllocCall? ==> c.n % 8 == 0) ==> a.Aligned()
      invariant old(a.AllLive()) && (forall c <- calls :: c.FreeCall? ==> !c.isExec) ==> a.AllLive()
    {
      assert calls[i] in calls;
      var block := RunOne(a, calls[i]);
      blocks, trail, i := blocks + [block], trail + [a.records], i + 1;
    }
    a.Safety();
  }

  method RunOne(a: NearAllocator, call: NearCall) returns (block: M.MemBlock)
    requires a.Sound() && (call.AllocCall? ==> call.pos < ADDRESS_SPACE)
    modifies a, a.os, a.Allocators()
    ensures a.Sound() && fresh(a.Allocators() - old(a.Allocators()))
    ensures a.os.pageSize > 0 && Follows(old(a.records), a.records, call, block, a.os.pageSize)
    ensures call.AllocCall? && block == M.NO_BLOCK && call.n != 0 && call.range <= call.pos && call.range <= (ADDRESS_SPACE - 1) / 2 ==>
              old(a.Hopeless(call.n, MemRange(call.pos - call.range, call.range * 2), call.isExec, call.mem))
    ensures old(a.Aligned()) && (call.AllocCall? ==> call.n % 8 == 0) ==> a.Aligned()
    ensures old(a.AllLive()) && (call.FreeCall? ==> !call.isExec) ==> a.AllLive()
  {
    hide NearAllocator.Sound, NearAllocator.Aligned, NearAllocator.AllLive, NearAllocator.Hopeless, NearAllocator.Exhausted,
         InRegions, PageUsed, PageLive, M.Floor, Dropped, Marked, Handed, Granted, PagesFollow, FirstReused, Reusable, InCode;
    a.PageSizes();
    match call
    case AllocCall(n, pos, range, isExec, mem) =>
      block := a.AllocNear(n, pos, range, isExec, mem);
    case FreeCall(freed, isExec) =>
      if !isExec {
        a.DataOwned(freed.addr, isExec);
      }
      block := M.NO_BLOCK;
      a.Free(freed, isExec);
  }

  lemma EightFour(a: nat)
    requires a % 8 == 0
    ensures a % 4 == 0
  {
  }

  lemma EightDivides(p: nat, unit: nat)
    requires M.OnPage(p, unit) && unit % 8 == 0
    ensures p % 8 == 0
  {
    var q, e := p / unit, unit / 8;
    assert p == q * (e * 8) == (q * e) * 8;
  }

  /** A page-aligned gap holds the whole page of any of its addresses. */
  lemma PageInGap(lo: nat, hi: nat, a: nat, unit: nat)
    requires M.OnPage(lo, unit) && M.OnPage(hi, unit) && lo <= a < hi
    ensures lo <= M.Floor(a, unit) && M.Floor(a, unit) + unit <= hi
  {
    M.FloorOnPage(a, unit);
    var p := M.Floor(a, unit);
    if p != lo {
      M.PagesApart(p, lo, unit);
    }
    if p != hi {
      M.PagesApart(p, hi, unit);
    }
  }

  lemma GapUnmapped(regions: seq<Region>, pageSize: nat, i: nat, a: nat)
    requires LayoutOk(regions, pageSize) && i + 1 < |regions| && regions[i].end <= a < regions[i + 1].start
    ensures !InRegions(regions, a)
  {
    forall j | 0 <= j < |regions|
      ensures !(regions[j].start <= a < regions[j].end)
    {
      if j < i {
        assert regions[j].end <= regions[i].start;
      } else if j > i + 1 {
        assert regions[i + 1].end <= regions[j].start;
      }
    }
  }

  lemma ZeroRun(hay: seq<int>, needle: seq<int>, at: nat)
    requires OccursAt(hay, needle, at) && forall i :: 0 <= i < |needle| ==> needle[i] == 0
    ensures forall k :: at <= k < at + |needle| ==> hay[k] == 0
  {
    forall k | at <= k < at + |needle|
      ensures hay[k] == 0
    {
      assert hay[at..at + |needle|][k - at] == needle[k - at];
    }
  }

  lemma FewerUnmapped(was: seq<Region>, now: seq<Region>, range: MemRange, page: nat, pageSize: nat)
    requires forall a: nat :: InRegions(now, a) <==> InRegions(was, a) || page <= a < page + pageSize
    requires exists a: nat :: page <= a < page + pageSize && Inside(range, a, 1) && !InRegions(was, a)
    ensures Unmapped(now, range) < Unmapped(was, range)
  {
    var a: nat :| page <= a < page + pageSize && Inside(range, a, 1) && !InRegions(was, a);
    assert a in Unmapped(was, range) && a !in Unmapped(now, range);
  }
}
