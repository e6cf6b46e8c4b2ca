/** The callers of the near allocator: blocks that were handed out and not yet given back. */
module NearClients {
  import M = MemoryAllocator
  import opened N = NearAllocator

  /** A block handed out. */
  datatype Lent = Lent(addr: nat, size: nat, isExec: bool)

  /** No record of the kind is a code gap; for data there never is one. */
  predicate NoGaps(records: seq<NearRecord>, isExec: bool) {
    forall r <- records :: r.isExec == isExec ==> r.owned
  }

  /** What holds of the records of a sound allocator. */
  predicate Fair(records: seq<NearRecord>) {
    OwnedDisjoint(records) && forall r <- records :: r.size > 0 && (r.owned ==> r.addr > 0) && (!r.isExec ==> r.owned)
  }

  lemma SoundFair(a: N.NearAllocator)
    requires a.Sound()
    ensures Fair(a.records)
  {
    hide M.ListOk, OwnedDisjoint, LayoutOk;
    forall r | r in a.records
      ensures r.size > 0 && (r.owned ==> r.addr > 0) && (!r.isExec ==> r.owned)
    {
      var k :| 0 <= k < |a.records| && a.records[k] == r;
      assert a.RecordOk(r);
    }
  }

  predicate Serves(r: NearRecord, b: Lent) {
    !r.isFree && r.isExec == b.isExec && r.addr == b.addr && b.size <= r.size
  }

  predicate LentAt(lent: seq<Lent>, addr: nat, isExec: bool) {
    exists i {:trigger lent[i]} :: 0 <= i < |lent| && lent[i].isExec == isExec && lent[i].addr == addr
  }

  /** The blocks of the kind that are out correspond to the live records of the kind. */
  ghost predicate Matched(records: seq<NearRecord>, lent: seq<Lent>, isExec: bool) {
    && (forall i {:trigger lent[i]} :: 0 <= i < |lent| && lent[i].isExec == isExec ==> exists r <- records :: Serves(r, lent[i]))
    && (forall i, j {:trigger lent[i], lent[j]} :: 0 <= i < j < |lent| && lent[i].isExec == lent[j].isExec == isExec ==>
          lent[i].addr != lent[j].addr)
    && (forall r <- records :: r.isExec == isExec && !r.isFree ==> LentAt(lent, r.addr, isExec))
  }

  /** Two records of a kind without code gaps have different addresses. */
  lemma OneRecord(records: seq<NearRecord>, i: nat, j: nat)
    requires Fair(records) && i < |records| && j < |records| && NoGaps(records, records[i].isExec)
    requires records[i].isExec == records[j].isExec && records[i].addr == records[j].addr
    ensures i == j
  {
    assert records[i] in records && records[j] in records;
  }

  /** The bytes of blocks that are out overlap nowhere. */
  lemma LentDisjoint(records: seq<NearRecord>, lent: seq<Lent>, i: nat, j: nat)
    requires Fair(records) && i < j < |lent| && NoGaps(records, lent[i].isExec) && NoGaps(records, lent[j].isExec)
    requires Matched(records, lent, lent[i].isExec) && Matched(records, lent, lent[j].isExec)
    ensures M.Disjoint(lent[i].addr, lent[i].size, lent[j].addr, lent[j].size)
  {
    var r :| r in records && Serves(r, lent[i]);
    var q :| q in records && Serves(q, lent[j]);
    var k :| 0 <= k < |records| && records[k] == r;
    var l :| 0 <= l < |records| && records[l] == q;
    assert k != l;
  }

  // --- handing out

  /** A block that is handed out is none that is out already. */
  lemma TakeMatched(was: seq<NearRecord>, now: seq<NearRecord>, lent: seq<Lent>, block: M.MemBlock, isExec: bool,
                    pageSize: nat, mem: nat -> int, e: bool)
    requires pageSize > 0 && Handed(was, now, block, isExec, pageSize, mem) && Fair(now)
    requires NoGaps(was, e) ==> Matched(was, lent, e)
    ensures NoGaps(now, e) ==> NoGaps(was, e) && Matched(now, lent + [Lent(block.addr, block.size, isExec)], e)
  {
    hide Matched, Fair, Handed, M.Floor, Zeros;
    if NoGaps(now, e) {
      var k := HandedAt(was, now, block, isExec, pageSize, mem);
      HandedBack(was, now, k, e);
      if e == isExec {
        AddMatched(was, now, lent, k, Lent(block.addr, block.size, isExec));
      } else {
        AddOther(was, now, lent, k, Lent(block.addr, block.size, isExec), e);
      }
    }
  }

  /** The record of the new block: at k the records differ, and there it was free or absent. */
  ghost predicate Only(was: seq<NearRecord>, now: seq<NearRecord>, k: nat) {
    && k < |now| && |now| == (if k < |was| then |was| else |was| + 1)
    && (forall j {:trigger now[j]} :: 0 <= j < |now| && j != k ==> j < |was| && now[j] == was[j])
    && (k < |was| ==> was[k].isFree && now[k] == was[k].(isFree := false))
  }

  lemma HandedAt(was: seq<NearRecord>, now: seq<NearRecord>, block: M.MemBlock, isExec: bool, pageSize: nat, mem: nat -> int) returns (k: nat)
    requires pageSize > 0 && Handed(was, now, block, isExec, pageSize, mem)
    ensures Only(was, now, k) && Serves(now[k], Lent(block.addr, block.size, isExec))
  {
    hide M.Floor, Zeros;
    if |now| > |was| {
      k := |was|;
    } else {
      k :| 0 <= k < |was| && was[k].isFree && was[k].isExec == isExec
           && was[k].addr == block.addr && block.size <= was[k].size && now == Marked(was, k, false);
    }
  }

  lemma HandedBack(was: seq<NearRecord>, now: seq<NearRecord>, k: nat, e: bool)
    requires Only(was, now, k) && NoGaps(now, e)
    ensures NoGaps(was, e)
  {
    forall r | r in was && r.isExec == e
      ensures r.owned
    {
      var j :| 0 <= j < |was| && was[j] == r;
      assert now[j] in now && now[j].owned == r.owned && now[j].isExec == e;
    }
  }

  lemma AddMatched(was: seq<NearRecord>, now: seq<NearRecord>, lent: seq<Lent>, k: nat, b: Lent)
    requires Only(was, now, k) && Serves(now[k], b) && Fair(now) && NoGaps(now, b.isExec) && Matched(was, lent, b.isExec)
    ensures Matched(now, lent + [b], b.isExec)
  {
    hide Fair;
    var lent' := lent + [b];
    assert lent'[|lent|] == b && now[k] in now;
    forall i {:trigger lent'[i]} | 0 <= i < |lent'| && lent'[i].isExec == b.isExec
      ensures exists r <- now :: Serves(r, lent'[i])
      ensures i < |lent| ==> lent'[i].addr != b.addr
    {
      if i < |lent| {
        assert lent[i] == lent'[i];
        var j := ServedAt(was, now, k, lent[i]);
        if lent[i].addr == b.addr {
          OneRecord(now, j, k);
        }
      }
    }
    forall r | r in now && r.isExec == b.isExec && !r.isFree
      ensures LentAt(lent', r.addr, b.isExec)
    {
      LentGrows(was, now, lent, k, b, r);
    }
  }

  /** A live record stays, at an index that is not the new block's. */
  lemma ServedAt(was: seq<NearRecord>, now: seq<NearRecord>, k: nat, b: Lent) returns (j: nat)
    requires Only(was, now, k) && exists r <- was :: Serves(r, b)
    ensures j < |now| && j != k && Serves(now[j], b) && now[j] in now
  {
    var r :| r in was && Serves(r, b);
    j :| 0 <= j < |was| && was[j] == r;
    assert now[j] == r;
  }

  lemma LentGrows(was: seq<NearRecord>, now: seq<NearRecord>, lent: seq<Lent>, k: nat, b: Lent, r: NearRecord)
    requires Only(was, now, k) && Serves(now[k], b) && r in now && !r.isFree
    requires forall q <- was :: q.isExec == r.isExec && !q.isFree ==> LentAt(lent, q.addr, r.isExec)
    ensures LentAt(lent + [b], r.addr, r.isExec)
  {
    var lent' := lent + [b];
    var j :| 0 <= j < |now| && now[j] == r;
    if j == k {
      assert lent'[|lent|] == b;
    } else {
      assert was[j] == r && r in was;
      var i :| 0 <= i < |lent| && lent[i].isExec == r.isExec && lent[i].addr == r.addr;
      assert lent'[i] == lent[i];
    }
  }

  lemma AddOther(was: seq<NearRecord>, now: seq<NearRecord>, lent: seq<Lent>, k: nat, b: Lent, e: bool)
    requires Only(was, now, k) && Serves(now[k], b) && Matched(was, lent, e) && e != b.isExec
    ensures Matched(now, lent + [b], e)
  {
    var lent' := lent + [b];
    assert lent'[|lent|] == b;
    forall i {:trigger lent'[i]} | 0 <= i < |lent'| && lent'[i].isExec == e
      ensures i < |lent| && lent'[i] == lent[i] && exists r <- now :: Serves(r, lent'[i])
    {
      assert lent[i] == lent'[i];
      var j := ServedAt(was, now, k, lent[i]);
    }
    forall r | r in now && r.isExec == e && !r.isFree
      ensures LentAt(lent', r.addr, e)
    {
      LentGrows(was, now, lent, k, b, r);
    }
  }

  // --- giving back

  /** What freeing the block leaves of the records. */
  ghost predicate GivenBack(was: seq<NearRecord>, now: seq<NearRecord>, b: Lent, page: nat) {
    var k := IndexOf(was, b.addr, b.isExec);
    if k == |was| || b.addr == 0 then now == was
    else
      var marked := Marked(was, k, true);
      now == marked || (now == Dropped(marked, page, b.isExec) && !PageLive(marked, page, b.isExec))
  }

  /** Live records after the free are live records before it, without the block's own. */
  lemma LiveLeft(was: seq<NearRecord>, now: seq<NearRecord>, b: Lent, page: nat, r: NearRecord)
    requires GivenBack(was, now, b, page) && !r.isFree
    ensures r in now ==> r in was
    ensures r in was && (r.isExec != b.isExec || r.addr != b.addr) ==> r in now
    ensures r in now && Fair(was) && NoGaps(was, b.isExec) && r.isExec == b.isExec ==> r.addr != b.addr
  {
    var k := IndexOf(was, b.addr, b.isExec);
    if k < |was| && b.addr > 0 {
      var marked := Marked(was, k, true);
      if r in now {
        assert r in marked;
        var j :| 0 <= j < |marked| && marked[j] == r;
        assert was[j] == r && j != k;
        if Fair(was) && NoGaps(was, b.isExec) && r.isExec == b.isExec && r.addr == b.addr {
          OneRecord(was, j, k);
        }
      }
      if r in was && (r.isExec != b.isExec || r.addr != b.addr) {
        var j :| 0 <= j < |was| && was[j] == r;
        assert marked[j] == r && r in marked;
      }
    } else if r in was {
      var j :| 0 <= j < |was| && was[j] == r;
      assert was[j] in was;
    }
  }

  lemma GapsLeft(was: seq<NearRecord>, now: seq<NearRecord>, b: Lent, page: nat, e: bool)
    requires GivenBack(was, now, b, page) && NoGaps(now, e)
    ensures NoGaps(was, e)
  {
    var k := IndexOf(was, b.addr, b.isExec);
    if k < |was| {
      var marked := Marked(was, k, true);
      forall r | r in was && r.isExec == e
        ensures r.owned
      {
        var j :| 0 <= j < |was| && was[j] == r;
        assert marked[j] in marked && marked[j].owned == r.owned && marked[j].isExec == e;
      }
    }
  }

  /** A block that is given back is out no more, and all others still are. */
  lemma GiveMatched(was: seq<NearRecord>, now: seq<NearRecord>, lent: seq<Lent>, i: nat, page: nat, e: bool)
    requires i < |lent| && GivenBack(was, now, lent[i], page) && Fair(was)
    requires NoGaps(was, e) ==> Matched(was, lent, e)
    ensures NoGaps(now, e) ==> NoGaps(was, e) && Matched(now, M.RemoveAt(lent, i), e)
  {
    hide GivenBack, Fair;
    if NoGaps(now, e) {
      GapsLeft(was, now, lent[i], page, e);
      var left := M.RemoveAt(lent, i);
      forall j {:trigger left[j]} | 0 <= j < |left| && left[j].isExec == e
        ensures exists r <- now :: Serves(r, left[j])
      {
        var o := if j < i then j else j + 1;
        assert left[j] == lent[o] && (lent[i].isExec == e ==> lent[o].addr != lent[i].addr);
        var r :| r in was && Serves(r, lent[o]);
        LiveLeft(was, now, lent[i], page, r);
      }
      forall j, l {:trigger left[j], left[l]} | 0 <= j < l < |left| && left[j].isExec == left[l].isExec == e
        ensures left[j].addr != left[l].addr
      {
        assert left[j] == lent[if j < i then j else j + 1] && left[l] == lent[if l < i then l else l + 1];
      }
      forall r | r in now && r.isExec == e && !r.isFree
        ensures LentAt(left, r.addr, e)
      {
        LiveLeft(was, now, lent[i], page, r);
        var o :| 0 <= o < |lent| && lent[o].isExec == e && lent[o].addr == r.addr;
        assert left[if o < i then o else o - 1] == lent[o];
      }
    }
  }

  // --- whole runs

  /** What callers do: take a block, or give back one of those they hold. */
  datatype Op = Take(n: nat, pos: nat, range: nat, isExec: bool, mem: nat -> int) | Give(i: nat)

  ghost predicate Consistent(a: N.NearAllocator, lent: seq<Lent>)
    reads a, a.os, a.Allocators()
  {
    && a.Sound() && (forall b <- lent :: b.size > 0)
    && (forall e :: NoGaps(a.records, e) ==> Matched(a.records, lent, e))
    && (NoGaps(a.records, true) ==> a.AllLive())
  }

  /** Every byte of a block that is out is mapped. */
  lemma LentMapped(a: N.NearAllocator, lent: seq<Lent>, i: nat, x: nat)
    requires a.Sound() && i < |lent| && NoGaps(a.records, lent[i].isExec) && Matched(a.records, lent, lent[i].isExec)
    requires lent[i].addr <= x < lent[i].addr + lent[i].size
    ensures InRegions(a.os.regions, x)
  {
    hide M.PagesMatch, M.ListOk, OwnedDisjoint, LayoutOk;
    a.Safety();
    var r :| r in a.records && Serves(r, lent[i]);
    var k :| 0 <= k < |a.records| && a.records[k] == r;
    var region := PageRegion(r.page, a.os.pageSize, r.isExec);
    var j :| 0 <= j < |a.os.regions| && a.os.regions[j] == region;
  }

  /** When nothing is out, no page that a block was taken from is held any more. */
  lemma NothingLeft(a: N.NearAllocator)
    requires Consistent(a, []) && NoGaps(a.records, true)
    ensures forall p <- a.held :: !PageUsed(a.records, p, a.held[p].isExec)
  {
    hide M.PagesMatch, M.ListOk, OwnedDisjoint, LayoutOk, PageUsed;
    SoundFair(a);
    assert NoGaps(a.records, false);
    forall k {:trigger a.records[k]} | 0 <= k < |a.records|
      ensures a.records[k].isFree
    {
      assert a.records[k] in a.records && NoGaps(a.records, a.records[k].isExec);
    }
  }

  /**
    Callers that give back only what they hold, in any order: as long as no code gap was
    used for a kind, the blocks that are out are mapped and overlap nowhere, and when all
    are back, every page they came from has been unmapped.  Data blocks never come from
    code gaps.
   */
  method Run(a: N.NearAllocator, ops: seq<Op>) returns (lent: seq<Lent>, ghost trail: seq<seq<Lent>>)
    requires Consistent(a, []) && forall op <- ops :: op.Take? ==> op.pos < ADDRESS_SPACE
    modifies a, a.os, a.Allocators()
    ensures Consistent(a, lent) && NoGaps(a.records, false)
    ensures |trail| == |ops| + 1 && trail[0] == [] && trail[|ops|] == lent
    ensures forall k {:trigger ops[k]} :: 0 <= k < |ops| ==> Moves(trail[k], trail[k + 1], ops[k])
    ensures forall i, j {:trigger lent[i], lent[j]} ::
              0 <= i < j < |lent| && NoGaps(a.records, lent[i].isExec) && NoGaps(a.records, lent[j].isExec) ==>
              M.Disjoint(lent[i].addr, lent[i].size, lent[j].addr, lent[j].size)
    ensures forall i, x: nat {:trigger lent[i], InRegions(a.os.regions, x)} ::
              0 <= i < |lent| && NoGaps(a.records, lent[i].isExec) && lent[i].addr <= x < lent[i].addr + lent[i].size ==>
              InRegions(a.os.regions, x)
    ensures lent == [] && NoGaps(a.records, true) ==> forall p <- a.held :: !PageUsed(a.records, p, a.held[p].isExec)
  {
    hide M.PagesMatch, M.ListOk, OwnedDisjoint, LayoutOk, PageUsed, PageLive, InRegions, Matched, Moves;
    lent, trail := [], [[]];
    var k := 0;
    while k < |ops|
      invariant 0 <= k <= |ops| && Consistent(a, lent) && fresh(a.Allocators() - old(a.Allocators()))
      invariant |trail| == k + 1 && trail[0] == [] && trail[k] == lent
      invariant forall j {:trigger ops[j]} :: 0 <= j < k ==> Moves(trail[j], trail[j + 1], ops[j])
    {
      assert ops[k] in ops;
      lent := RunOne(a, lent, ops[k]);
      trail, k := trail + [lent], k + 1;
    }
    SoundFair(a);
    forall i, j {:trigger lent[i], lent[j]} |
        0 <= i < j < |lent| && NoGaps(a.records, lent[i].isExec) && NoGaps(a.records, lent[j].isExec)
      ensures M.Disjoint(lent[i].addr, lent[i].size, lent[j].addr, lent[j].size)
    {
      LentDisjoint(a.records, lent, i, j);
    }
    forall i, x: nat {:trigger lent[i], InRegions(a.os.regions, x)} |
        0 <= i < |lent| && NoGaps(a.records, lent[i].isExec) && lent[i].addr <= x < lent[i].addr + lent[i].size
      ensures InRegions(a.os.regions, x)
    {
      LentMapped(a, lent, i, x);
    }
    if lent == [] && NoGaps(a.records, true) {
      NothingLeft(a);
    }
  }

  /** A block more or none for a request, the block that is given back less; a block that is not out is not given back. */
  predicate Moves(was: seq<Lent>, now: seq<Lent>, op: Op) {
    match op
    case Take(n, _, _, isExec, _) =>
      now == was || (now != [] && now[..|now| - 1] == was && now[|now| - 1].size == n && now[|now| - 1].isExec == isExec)
    case Give(i) =>
      now == if i < |was| then M.RemoveAt(was, i) else was
  }

  method RunOne(a: N.NearAllocator, lent: seq<Lent>, op: Op) returns (lent': seq<Lent>)
    requires Consistent(a, lent) && (op.Take? ==> op.pos < ADDRESS_SPACE)
    modifies a, a.os, a.Allocators()
    ensures Consistent(a, lent') && fresh(a.Allocators() - old(a.Allocators()))
    ensures Moves(lent, lent', op)
  {
    if op.Take? {
      lent' := TakeOne(a, lent, op);
    } else {
      lent' := GiveOne(a, lent, op.i);
    }
  }

  method TakeOne(a: N.NearAllocator, lent: seq<Lent>, op: Op) returns (lent': seq<Lent>)
    requires Consistent(a, lent) && op.Take? && op.pos < ADDRESS_SPACE
    modifies a, a.os, a.Allocators()
    ensures Consistent(a, lent') && fresh(a.Allocators() - old(a.Allocators()))
    ensures Moves(lent, lent', op)
    ensures lent' == lent && op.n != 0 && op.range <= op.pos && op.range <= (ADDRESS_SPACE - 1) / 2 ==>
              old(a.Hopeless(op.n, N.MemRange(op.pos - op.range, op.range * 2), op.isExec, op.mem))
  {
    hide M.PagesMatch, M.ListOk, OwnedDisjoint, LayoutOk, PageUsed, PageLive, InRegions, Matched, Handed, NoGaps, Fair, N.Granted,
         N.NearAllocator.Sound, N.NearAllocator.Aligned, N.NearAllocator.AllLive, N.PagesFollow, N.FirstReused, N.Reusable, N.InCode,
         N.NearAllocator.Hopeless, N.NearAllocator.Exhausted, N.NearAllocator.NoPage;
    ghost var was := a.records;
    a.PageSizes();
    var block := a.AllocNear(op.n, op.pos, op.range, op.isExec, op.mem);
    if block == M.NO_BLOCK {
      return lent;
    }
    SoundFair(a);
    forall e
      ensures NoGaps(a.records, e) ==> NoGaps(was, e) && Matched(a.records, lent + [Lent(block.addr, block.size, op.isExec)], e)
    {
      TakeMatched(was, a.records, lent, block, op.isExec, a.os.pageSize, op.mem, e);
    }
    lent' := lent + [Lent(block.addr, block.size, op.isExec)];
  }

  method GiveOne(a: N.NearAllocator, lent: seq<Lent>, i: nat) returns (lent': seq<Lent>)
    requires Consistent(a, lent)
    modifies a, a.os
    ensures Consistent(a, lent') && a.Allocators() <= old(a.Allocators())
    ensures lent' == if i < |lent| then M.RemoveAt(lent, i) else lent
    ensures a.os.pageSize > 0
    ensures a.records == if i < |lent|
      then N.AfterFree(old(a.records), M.MemBlock(lent[i].addr, lent[i].size), lent[i].isExec, a.os.pageSize) else old(a.records)
  {
    hide M.PagesMatch, M.ListOk, OwnedDisjoint, LayoutOk, PageUsed, PageLive, InRegions, Matched, M.Floor, Dropped, Marked;
    if i >= |lent| {
      return lent;
    }
    SoundFair(a);
    ghost var was, b, page := a.records, lent[i], M.Floor(lent[i].addr, a.os.pageSize);
    assert b in lent;
    AllOwned(was, b);
    a.Free(M.MemBlock(lent[i].addr, lent[i].size), lent[i].isExec);
    forall e
      ensures NoGaps(a.records, e) ==> NoGaps(was, e) && Matched(a.records, M.RemoveAt(lent, i), e)
    {
      GiveMatched(was, a.records, lent, i, page, e);
    }
    lent' := M.RemoveAt(lent, i);
  }

  lemma AllOwned(records: seq<NearRecord>, b: Lent)
    requires Fair(records)
    ensures var k := IndexOf(records, b.addr, b.isExec); NoGaps(records, true) && k < |records| ==> records[k].owned
  {
    var k := IndexOf(records, b.addr, b.isExec);
    if k < |records| {
      assert records[k] in records;
    }
  }

  // --- inputs that the conditions leave out

  /** The zero bytes [start, end) among others. */
  function ZerosAt(start: nat, end: nat): nat -> int {
    (a: nat) => if start <= a < end then 0 else 1
  }

  /** Nineteen zeros hold one aligned run of sixteen. */
  lemma OneRun(start: nat, addr: nat)
    requires start % 4 == 0 && addr % 4 == 0 && Zeros(ZerosAt(start, start + 19), addr, 16)
    ensures addr == start
  {
    var mem := ZerosAt(start, start + 19);
    assert mem(addr) == 0 && mem(addr + 15) == 0;
  }

  /** The nineteen zeros are found in an executable region. */
  lemma RunFound(regions: seq<Region>, page: nat, range: MemRange, start: nat)
    requires PageRegion(page, 0x1000, true) in regions && page + 0x1000 < ADDRESS_SPACE
    requires range == MemRange(page, 0x1000) && page <= start && start + 19 <= page + 0x1000
    ensures !NoCodeGap(regions, 16, range, ZerosAt(start, start + 19))
  {
    var mem := ZerosAt(start, start + 19);
    var j :| 0 <= j < |regions| && regions[j] == PageRegion(page, 0x1000, true);
    assert range.Intersect(range) == range by {
      WrappedEnd(range);
    }
    assert Zeros(mem, start, 16 + 3);
    assert !NoRun(regions[j], 16, range, mem);
  }

  /** An owned record in the page's addresses lies on the page. */
  lemma OnThatPage(a: N.NearAllocator, k: nat, page: nat)
    requires a.Sound() && a.os.pageSize == 0x1000 && page % 0x1000 == 0
    requires k < |a.records| && a.records[k].owned && page <= a.records[k].addr < page + 0x1000
    ensures a.records[k].page == page && page in a.held && a.held[page].isExec == a.records[k].isExec
    ensures PageRegion(page, 0x1000, a.records[k].isExec) in a.os.regions
  {
    hide M.PagesMatch, M.ListOk, OwnedDisjoint, LayoutOk, M.Floor;
    a.Safety();
    a.OwnPage(k);
    M.FloorInPage(page, 0x1000, a.records[k].addr);
  }

  /**
    A code gap is handed out twice: the bytes are still zero when the second caller
    asks, so two blocks that are out are the same.
   */
  method GapTwice() returns (a: N.NearAllocator, b: M.MemBlock, c: M.MemBlock)
    ensures a.Sound() && b == c == M.MemBlock(0x1400, 16)
    ensures |a.records| == 2 && Serves(a.records[0], Lent(b.addr, b.size, true)) && Serves(a.records[1], Lent(c.addr, c.size, true))
  {
    hide M.PagesMatch, M.ListOk, OwnedDisjoint, PageUsed, PageLive, InRegions, M.Floor, NoCodeGap, N.Granted, Zeros,
         N.NearAllocator.Exhausted, N.NearAllocator.NoPage, N.NearAllocator.AllLive, N.NearAllocator.RecordsOk,
         N.NearAllocator.CursorsOk, N.NearAllocator.Mapped;
    var region := Region(0x1000, 0x2000, true);
    var os := new NearOS(0x1000, [region]);
    a := new N.NearAllocator(os);
    b := TakeGap(a, region);
    c := TakeGap(a, region);
  }

  /** One such request. */
  method TakeGap(a: N.NearAllocator, ghost region: Region) returns (b: M.MemBlock)
    requires a.Sound() && a.Aligned() && a.os.pageSize == 0x1000 && region == Region(0x1000, 0x2000, true) && region in a.os.regions
    requires 0x1000 !in a.held && forall r <- a.records :: !r.isFree
    modifies a, a.os, a.Allocators()
    ensures a.Sound() && a.Aligned() && region in a.os.regions && 0x1000 !in a.held
    ensures fresh(a.Allocators() - old(a.Allocators()))
    ensures b == M.MemBlock(0x1400, 16) && a.records == old(a.records) + [NearRecord(0x1400, 16, 0x1000, true, false, false)]
  {
    hide M.PagesMatch, M.ListOk, OwnedDisjoint, LayoutOk, PageUsed, PageLive, InRegions, M.Floor, NoCodeGap, N.Granted, Zeros,
         N.NearAllocator.Exhausted, N.NearAllocator.NoPage, N.NearAllocator.AllLive, N.NearAllocator.RecordsOk,
         N.NearAllocator.CursorsOk, N.NearAllocator.Mapped;
    ghost var was := a.records;
    RegionMapped(a.os.regions, region);
    RunFound(a.os.regions, 0x1000, MemRange(0x1000, 0x1000), 0x1400);
    b := a.AllocNear(16, 0x1800, 0x800, true, ZerosAt(0x1400, 0x1413));
    assert b != M.NO_BLOCK;
    assert a.records[|was|] == NewRecord(b, true, a.records[|was|].owned, 0x1000);
    if a.records[|was|].owned {
      OnThatPage(a, |was|, 0x1000);
      assert false;
    }
    OneRun(0x1400, b.addr);
    M.FloorInPage(0x1000, 0x1000, 0x1400);
  }

  lemma RegionMapped(regions: seq<Region>, region: Region)
    requires region in regions && region.start < region.end
    ensures InRegions(regions, region.start)
  {
    var j :| 0 <= j < |regions| && regions[j] == region;
  }

  // --- a page that stays mapped for good

  const AROUND: seq<Region> := [Region(0x1000, 0x2000, false), Region(0x3000, 0x4000, false)]

  /** The block that takes the whole page between the two regions, and the code gap found in it. */
  function Whole(isFree: bool): NearRecord {
    NearRecord(0x2000, 0x1000, 0x2000, true, isFree, true)
  }

  function InWhole(isFree: bool): NearRecord {
    NearRecord(0x2010, 16, 0x2000, true, isFree, false)
  }

  /** The page could be mapped, and it has room for a block of its size. */
  lemma PageServes()
    ensures !NoFreshPage(AROUND, 0x1000, 0x1000, MemRange(0x2000, 0x1000))
  {
    assert AROUND[0].end <= 0x2000 && 0x3000 <= AROUND[1].start;
    assert AROUND[0] in AROUND && AROUND[1] in AROUND;
    assert Fresh(AROUND, 0x1000, 0x2000);
    var range := MemRange(0x2000, 0x1000);
    assert range.Intersect(MemRange(0x2000 + 0, 0x1000 - 0)) == range;
    assert BumpAddress(0x2000, 0, 0x1000, 0x1000, range) == 0x2000;
  }

  /** A block takes the whole page; no code byte is zero. */
  method TakePage(a: N.NearAllocator)
    requires a.Sound() && a.Aligned() && a.os.pageSize == 0x1000 && a.os.regions == AROUND && a.records == []
    modifies a, a.os, a.Allocators()
    ensures a.Sound() && a.Aligned() && a.records == [Whole(false)] && fresh(a.Allocators() - old(a.Allocators()))
  {
    hide M.PagesMatch, M.ListOk, OwnedDisjoint, LayoutOk, PageUsed, PageLive, InRegions, M.Floor, NoCodeGap, NoFreshPage, N.Granted,
         N.NearAllocator.Exhausted, N.NearAllocator.AllLive, N.NearAllocator.RecordsOk,
         N.NearAllocator.CursorsOk, N.NearAllocator.Mapped, N.NearAllocator.PagesExhausted;
    PageServes();
    var mem := ZerosAt(0, 0);
    var b := a.AllocNear(0x1000, 0x2800, 0x800, true, mem);
    assert b != M.NO_BLOCK && b.addr == 0x2000;
    assert mem(0x2000) != 0;
    M.FloorInPage(0x2000, 0x1000, 0x2000);
  }

  /** With the page full, a run of zeros inside it is taken. */
  method TakeInside(a: N.NearAllocator)
    requires a.Sound() && a.Aligned() && a.os.pageSize == 0x1000 && a.records == [Whole(false)]
    modifies a, a.os, a.Allocators()
    ensures a.Sound() && a.records == [Whole(false), InWhole(false)]
  {
    hide M.PagesMatch, M.ListOk, LayoutOk, PageUsed, PageLive, InRegions, M.Floor, NoCodeGap, N.Granted, Zeros,
         N.NearAllocator.Exhausted, N.NearAllocator.NoPage, N.NearAllocator.AllLive, N.NearAllocator.RecordsOk,
         N.NearAllocator.CursorsOk, N.NearAllocator.Mapped;
    OnThatPage(a, 0, 0x2000);
    RunFound(a.os.regions, 0x2000, MemRange(0x2000, 0x1000), 0x2010);
    var b := a.AllocNear(16, 0x2800, 0x800, true, ZerosAt(0x2010, 0x2023));
    assert b != M.NO_BLOCK;
    assert a.records[0] == Whole(false) && a.records[1].addr == b.addr;
    assert !a.records[1].owned;
    OneRun(0x2010, b.addr);
    M.FloorInPage(0x2000, 0x1000, 0x2010);
  }

  /** The records while block and gap are given back: the gap keeps the page, and no one releases it after that. */
  lemma StrayRecords()
    ensures var both := [Whole(false), InWhole(false)];
      && IndexOf(both, 0x2000, true) == 0 && Marked(both, 0, true) == [Whole(true), InWhole(false)]
      && PageLive([Whole(true), InWhole(false)], 0x2000, true)
    ensures var one := [Whole(true), InWhole(false)];
      && IndexOf(one, 0x2010, true) == 1 && Marked(one, 1, true) == [Whole(true), InWhole(true)]
    ensures var none := [Whole(true), InWhole(true)];
      PageUsed(none, 0x2000, true) && !PageLive(none, 0x2000, true)
  {
    var one, none := [Whole(true), InWhole(false)], [Whole(true), InWhole(true)];
    assert one[1] == InWhole(false) && none[0] == Whole(true);
    assert IndexOf(one[1..], 0x2010, true) == 0;
  }

  /** A block takes the page, a gap is found inside it, the block is given back, and then the gap: the page is never unmapped. */
  method StrayPage() returns (a: N.NearAllocator)
    ensures a.Sound() && !a.AllLive() && 0x2000 in a.held && forall r <- a.records :: r.isFree
  {
    hide M.PagesMatch, M.ListOk, OwnedDisjoint, PageUsed, PageLive, InRegions, M.Floor, Dropped, IndexOf, Marked, Stray,
         N.NearAllocator.RecordsOk, N.NearAllocator.CursorsOk, N.NearAllocator.Mapped, N.NearAllocator.Aligned;
    var os := new NearOS(0x1000, AROUND);
    a := new N.NearAllocator(os);
    TakePage(a);
    TakeInside(a);
    OnThatPage(a, 0, 0x2000);
    StrayRecords();
    M.FloorInPage(0x2000, 0x1000, 0x2000);
    a.Free(M.MemBlock(0x2000, 0x1000), true);
    a.Free(M.MemBlock(0x2010, 16), true);
    assert a.held[0x2000].isExec;
  }
}
