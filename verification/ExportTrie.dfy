/**
  The Mach-O export trie: reading a ULEB128 number (section 7.6 of DWARF 5) and walking
  from the root along the edges that spell a symbol.  Memory is readable for |data| bytes
  from the first byte of the trie; the trie itself ends at offset `end`.  Positions are
  offsets from the start of the trie.
 */
module ExportTrie {
  import opened Options

  type Byte = b: nat | b < 256

  const TWO64: nat := 0x1_0000_0000_0000_0000
  const VISITED: nat := 128

  // ---------------------------------------------------------------- ULEB128

  /** The number written at p, of any length, and where it ends; None when it runs out of readable memory. */
  function Uleb(data: seq<Byte>, p: nat): (r: Option<(nat, nat)>)
    ensures r.Some? ==> p < r.value.1 <= |data|
    decreases |data| - p
  {
    if p >= |data| then None
    else if data[p] < 128 then Some((data[p], p + 1))
    else
      match Uleb(data, p + 1)
      case None => None
      case Some((v, n)) => Some((data[p] - 128 + 128 * v, n))
  }

  /** What shifting left by `bit`, a multiple of seven, multiplies by. */
  function Weight(bit: nat): nat {
    if bit < 7 then 1 else 128 * Weight(bit - 7)
  }

  lemma Weights()
    ensures Weight(70) == 64 * TWO64 && Weight(63) == TWO64 / 2
  {
    assert Weight(14) == 0x4000;
    assert Weight(28) == 0x4000 * Weight(14);
    assert Weight(42) == 0x4000 * Weight(28);
    assert Weight(56) == 0x4000 * Weight(42);
  }

  /** The part read so far and the rest at its weight make up the total, modulo 2^64. */
  ghost predicate Sums(result: nat, bit: nat, rest: nat, total: nat) {
    (result + Weight(bit) * rest) % TWO64 == total % TWO64
  }

  lemma SumsEnds(result: nat, bit: nat, total: nat)
    ensures Sums(0, 0, total, total)
    ensures Sums(result, bit, 0, total) && result < TWO64 ==> result == total % TWO64
  {
    assert Weight(0) == 1;
  }

  /** The result with one slice put in at `bit`, in 64 bits. */
  function Put(result: nat, slice: nat, bit: nat): (r: nat)
    ensures r < TWO64
  {
    (result + slice * Weight(bit)) % TWO64
  }

  lemma Distribute(w: nat, slice: nat, rest: nat)
    ensures w * (slice + 128 * rest) == slice * w + 128 * w * rest
  {
  }

  /** A slice moves from the rest to the result. */
  lemma SumsStep(result: nat, bit: nat, slice: nat, rest: nat, total: nat)
    requires Sums(result, bit, slice + 128 * rest, total)
    ensures Sums(Put(result, slice, bit), bit + 7, rest, total)
  {
    var w := Weight(bit);
    Distribute(w, slice, rest);
    ModAdd(result + slice * w, 128 * w * rest);
  }

  /** A slice lies above all bits of the result so far. */
  lemma PutBelow(result: nat, slice: nat, bit: nat)
    requires result < Weight(bit) && slice < 128
    ensures Put(result, slice, bit) < Weight(bit + 7)
  {
    var w := Weight(bit);
    ModAtMost(result + slice * w);
    AtMostTimes(slice, w);
  }

  /** Shifts past bit 63 contribute nothing to a 64-bit number. */
  lemma SumsSkip(result: nat, slice: nat, rest: nat, total: nat)
    requires Sums(result, 70, slice + 128 * rest, total)
    ensures Sums(result, 70, rest, total)
  {
    Weights();
    ModAddMany(result, 64 * rest);
    ModAddMany(result, 64 * (slice + 128 * rest));
  }

  lemma ModAdd(a: nat, b: nat)
    ensures (a % TWO64 + b) % TWO64 == (a + b) % TWO64
  {
    assert a == a / TWO64 * TWO64 + a % TWO64;
    assert a + b == (a % TWO64 + b) + TWO64 * (a / TWO64);
  }

  lemma ModAtMost(a: nat)
    ensures a % TWO64 <= a
  {
  }

  lemma AtMostTimes(slice: nat, w: nat)
    requires slice <= 127
    ensures slice * w <= 127 * w
  {
  }

  lemma ModAddMany(a: nat, k: nat)
    ensures (a + TWO64 * k) % TWO64 == a % TWO64
  {
    assert a + TWO64 * k == TWO64 * (a / TWO64 + k) + a % TWO64;
  }

  /**
    The reader's loop.  Each slice lies above all bits of the result so far, so its bitwise
    or is an addition; slices beyond bit 63 are dropped.  What it returns is the written
    number modulo 2^64, whatever the number's length.
   */
  method ReadUleb(data: seq<Byte>, p0: nat) returns (ok: bool, result: nat, p: nat)
    ensures ok == Uleb(data, p0).Some?
    ensures ok ==> result == Uleb(data, p0).value.0 % TWO64 && p == Uleb(data, p0).value.1
  {
    hide Weight, Sums, Put;
    p, result := p0, 0;
    var bit := 0;
    ghost var n := 0;
    ghost var total := if Uleb(data, p0).Some? then Uleb(data, p0).value.0 else 0;
    SumsEnds(0, 0, total);
    WeightZero();
    while p < |data|
      invariant bit == 7 * n <= 70 && result < TWO64
      invariant bit <= 63 ==> result < Weight(bit)
      invariant Uleb(data, p0).Some? == Uleb(data, p).Some?
      invariant Uleb(data, p).Some? ==>
        Uleb(data, p0).value.1 == Uleb(data, p).value.1 && Sums(result, bit, Uleb(data, p).value.0, total)
      decreases |data| - p
    {
      var more := data[p] >= 128;
      var slice := if more then data[p] - 128 else data[p];
      ghost var rest := if more && Uleb(data, p + 1).Some? then Uleb(data, p + 1).value.0 else 0;
      if bit <= 63 {
        if Uleb(data, p).Some? {
          SumsStep(result, bit, slice, rest, total);
        }
        PutBelow(result, slice, bit);
        result := Put(result, slice, bit);
        bit, n := bit + 7, n + 1;
      } else if Uleb(data, p).Some? {
        SumsSkip(result, slice, rest, total);
      }
      p := p + 1;
      if !more {
        SumsEnds(result, bit, total);
        return true, result, p;
      }
    }
    ok := false;
  }

  lemma WeightZero()
    ensures Weight(0) == 1
  {
  }

  // ---------------------------------------------------------------- the walk

  /** Fault: the walk reads outside readable memory or writes past its table of visited nodes. */
  datatype Outcome = Found(at: nat) | Missing | Fault

  datatype Scanned = Scanned(next: nat, matched: bool, used: nat) | Unreadable

  /** The symbol's bytes are followed by its terminator. */
  function At(symbol: seq<Byte>, k: nat): Byte
    requires k <= |symbol|
  {
    if k < |symbol| then symbol[k] else 0
  }

  /** Scan one edge label against the symbol from its k-th byte on. */
  function Scan(data: seq<Byte>, p: nat, symbol: seq<Byte>, k: nat, wrong: bool): (r: Scanned)
    requires k <= |symbol|
    ensures r.Scanned? ==> p <= r.next < |data| && r.used <= |symbol|
    decreases |data| - p
  {
    if p >= |data| then Unreadable
    else if data[p] == 0 then Scanned(p, !wrong, k)
    else if wrong || k == |symbol| || data[p] != symbol[k] then Scan(data, p + 1, symbol, k, true)
    else Scan(data, p + 1, symbol, k + 1, false)
  }

  datatype Choice = Go(node: nat, used: nat) | NoEdge | Malformed | Beyond

  /** The first of the n edges from p on that the symbol follows. */
  function Choose(data: seq<Byte>, end: nat, p: nat, n: nat, symbol: seq<Byte>, k: nat): (r: Choice)
    requires k <= |symbol|
    ensures r.Go? ==> 0 < r.node <= end && r.used <= |symbol|
    decreases n
  {
    if n == 0 then NoEdge
    else
      match Scan(data, p, symbol, k, false)
      case Unreadable => Beyond
      case Scanned(q, matched, used) =>
        match Uleb(data, q + 1)
        case None => Beyond
        case Some((v, next)) =>
          if matched then
            if v % TWO64 == 0 || v % TWO64 > end then Malformed else Go(v % TWO64, used)
          else if next > end then Malformed
          else Choose(data, end, next, n - 1, symbol, k)
  }

  /** Where the children start: a size that wraps around the address space is not noticed. */
  function ChildrenAt(start: nat, p: nat, size: nat): int {
    (start + p + size) % TWO64 - start
  }

  /** The walk from the node at p, with the symbol's first k bytes already spelt. */
  function Walk(data: seq<Byte>, start: nat, end: nat, symbol: seq<Byte>, k: nat, p: nat, visited: seq<nat>): Outcome
    requires k <= |symbol| && |visited| <= VISITED
    decreases VISITED - |visited|
  {
    if p >= end then Missing
    else
      match Uleb(data, p)
      case None => Fault
      case Some((v, q)) =>
        var size := v % TWO64;
        var children := ChildrenAt(start, q, size);
        if k == |symbol| && size != 0 then Found(q)
        else if children > end then Missing
        else if !(0 <= children < |data|) then Fault
        else
          match Choose(data, end, children + 1, data[children], symbol, k)
          case Beyond => Fault
          case NoEdge => Missing
          case Malformed => Missing
          case Go(node, used) =>
            if node in visited then Missing
            else if |visited| == VISITED then Fault
            else Walk(data, start, end, symbol, used, node, visited + [node])
  }

  method ScanLabel(data: seq<Byte>, p0: nat, symbol: seq<Byte>, k: nat) returns (r: Scanned)
    requires k <= |symbol| && 0 !in symbol
    ensures r == Scan(data, p0, symbol, k, false)
  {
    var p: nat, used: nat, wrong := p0, k, false;
    while p < |data| && data[p] != 0
      invariant used <= |symbol|
      invariant Scan(data, p0, symbol, k, false) == Scan(data, p, symbol, used, wrong)
      decreases |data| - p
    {
      if !wrong {
        if data[p] != At(symbol, used) {
          wrong := true;
        } else {
          used := used + 1;
        }
      }
      p := p + 1;
    }
    r := if p < |data| then Scanned(p, !wrong, used) else Unreadable;
  }

  /** Skip a number by its continuation bits alone. */
  method SkipUleb(data: seq<Byte>, p0: nat) returns (ok: bool, p: nat)
    ensures ok == Uleb(data, p0).Some?
    ensures ok ==> p == Uleb(data, p0).value.1
  {
    p := p0;
    while p < |data| && data[p] >= 128
      invariant Uleb(data, p).Some? == Uleb(data, p0).Some?
      invariant Uleb(data, p).Some? ==> Uleb(data, p).value.1 == Uleb(data, p0).value.1
      decreases |data| - p
    {
      p := p + 1;
    }
    ok := p < |data|;
    p := p + 1;
  }

  method ChooseEdge(data: seq<Byte>, end: nat, p0: nat, count: nat, symbol: seq<Byte>, k: nat) returns (r: Choice)
    requires k <= |symbol| && 0 !in symbol
    ensures r == Choose(data, end, p0, count, symbol, k)
  {
    hide Scan, Uleb;
    var p: nat, remaining: nat := p0, count;
    while remaining > 0
      invariant Choose(data, end, p0, count, symbol, k) == Choose(data, end, p, remaining, symbol, k)
    {
      var edge := ScanLabel(data, p, symbol, k);
      if edge.Unreadable? {
        return Beyond;
      }
      if edge.matched {
        var ok, node, _ := ReadUleb(data, edge.next + 1);
        if !ok {
          return Beyond;
        }
        return if node == 0 || node > end then Malformed else Go(node, edge.used);
      }
      var ok, next := SkipUleb(data, edge.next + 1);
      if !ok {
        return Beyond;
      }
      if next > end {
        return Malformed;
      }
      p, remaining := next, remaining - 1;
    }
    r := NoEdge;
  }

  /**
    The walk from the root; its table has room for VISITED nodes.  The trie's size is a
    32-bit number, so node offsets fit the table's 32-bit entries.
   */
  method TailWalk(data: seq<Byte>, start: nat, end: nat, symbol: seq<Byte>) returns (r: Outcome)
    requires 0 !in symbol && end < 0x1_0000_0000
    ensures r == Walk(data, start, end, symbol, 0, 0, [0])
  {
    hide Choose, Uleb;
    var visited: seq<nat>, k: nat, p: nat := [0], 0, 0;
    while p < end
      invariant k <= |symbol| && |visited| <= VISITED
      invariant Walk(data, start, end, symbol, k, p, visited) == Walk(data, start, end, symbol, 0, 0, [0])
      decreases VISITED - |visited|
    {
      var ok, size, q := ReadUleb(data, p);
      if !ok {
        return Fault;
      }
      if k == |symbol| && size != 0 {
        return Found(q);
      }
      var children := ChildrenAt(start, q, size);
      if children > end {
        return Missing;
      }
      if !(0 <= children < |data|) {
        return Fault;
      }
      var choice := ChooseEdge(data, end, children + 1, data[children], symbol, k);
      if choice.Beyond? {
        return Fault;
      }
      if !choice.Go? || choice.node in visited {
        return Missing;
      }
      if |visited| == VISITED {
        return Fault;
      }
      visited, k, p := visited + [choice.node], choice.used, choice.node;
    }
    r := Missing;
  }

  // ---------------------------------------------------------------- what the walk is for

  /** An export trie: a node's terminal bytes describe the export that ends there, none if empty. */
  datatype Trie = Trie(terminal: seq<Byte>, edges: Edges)
  datatype Edges = Nil | Edge(text: seq<Byte>, child: Trie, rest: Edges)

  /** The trie exports `symbol` with this description: some path from the root spells it. */
  ghost predicate Exports(t: Trie, symbol: seq<Byte>, info: seq<Byte>)
    decreases t
  {
    (symbol == [] && info == t.terminal && info != []) || EdgesExport(t.edges, symbol, info)
  }

  ghost predicate EdgesExport(es: Edges, symbol: seq<Byte>, info: seq<Byte>)
    decreases es
  {
    es.Edge? && ((es.text <= symbol && Exports(es.child, symbol[|es.text|..], info)) || EdgesExport(es.rest, symbol, info))
  }

  function Count(es: Edges): nat {
    if es.Nil? then 0 else 1 + Count(es.rest)
  }

  /** Labels are non-empty C strings and siblings differ in their first byte. */
  predicate WellFormed(t: Trie)
    decreases t
  {
    EdgesWellFormed(t.edges)
  }

  predicate EdgesWellFormed(es: Edges)
    decreases es
  {
    es.Edge? ==>
      && es.text != [] && 0 !in es.text && NoneStarts(es.rest, es.text[0])
      && WellFormed(es.child) && EdgesWellFormed(es.rest)
  }

  predicate NoneStarts(es: Edges, first: Byte) {
    es.Edge? ==> (es.text != [] ==> es.text[0] != first) && NoneStarts(es.rest, first)
  }

  /** The bytes at `off` are a node of the trie, its children lying anywhere in the trie. */
  ghost predicate Encodes(data: seq<Byte>, end: nat, off: nat, t: Trie)
    requires end <= |data|
    decreases t
  {
    && off < end && Uleb(data, off).Some?
    && var (size, p) := Uleb(data, off).value;
    && size == |t.terminal| && p + size < end
    && data[p..p + size] == t.terminal
    && data[p + size] == Count(t.edges)
    && EncodesEdges(data, end, p + size + 1, t.edges)
  }

  ghost predicate EncodesEdges(data: seq<Byte>, end: nat, p: nat, es: Edges)
    requires end <= |data|
    decreases es
  {
    es.Edge? ==>
      var q := p + |es.text|;
      && q < end && data[p..q] == es.text && data[q] == 0
      && Uleb(data, q + 1).Some?
      && var (node, next) := Uleb(data, q + 1).value;
      && node < end && next <= end
      && Encodes(data, end, node, es.child)
      && EncodesEdges(data, end, next, es.rest)
  }

  /** How many edges the symbol follows. */
  function Hops(t: Trie, symbol: seq<Byte>): nat
    decreases t
  {
    if symbol == [] && t.terminal != [] then 0 else EdgeHops(t.edges, symbol)
  }

  function EdgeHops(es: Edges, symbol: seq<Byte>): nat
    decreases es
  {
    if es.Nil? then 0
    else if es.text <= symbol then 1 + Hops(es.child, symbol[|es.text|..])
    else EdgeHops(es.rest, symbol)
  }

  lemma {:induction false} HopsShort(t: Trie, symbol: seq<Byte>)
    requires WellFormed(t)
    ensures Hops(t, symbol) <= |symbol|
    decreases t
  {
    EdgeHopsShort(t.edges, symbol);
  }

  lemma {:induction false} EdgeHopsShort(es: Edges, symbol: seq<Byte>)
    requires EdgesWellFormed(es)
    ensures EdgeHops(es, symbol) <= |symbol|
    decreases es
  {
    if es.Nil? {
    } else {
      if es.text <= symbol {
        HopsShort(es.child, symbol[|es.text|..]);
      } else {
        EdgeHopsShort(es.rest, symbol);
      }
    }
  }

  /** Bytes at one place encode one trie only. */
  lemma {:induction false} EncodesOne(data: seq<Byte>, end: nat, off: nat, s: Trie, t: Trie)
    requires end <= |data|
    requires Encodes(data, end, off, s) && Encodes(data, end, off, t) && WellFormed(s) && WellFormed(t)
    ensures s == t
    decreases s
  {
    var (size, p) := Uleb(data, off).value;
    EncodesOneEdges(data, end, p + size + 1, s.edges, t.edges);
  }

  lemma {:induction false} EncodesOneEdges(data: seq<Byte>, end: nat, p: nat, s: Edges, t: Edges)
    requires end <= |data| && Count(s) == Count(t)
    requires EncodesEdges(data, end, p, s) && EncodesEdges(data, end, p, t) && EdgesWellFormed(s) && EdgesWellFormed(t)
    ensures s == t
    decreases s
  {
    if s.Nil? {
    } else {
      SameText(data, p, s.text, t.text);
      var (node, next) := Uleb(data, p + |s.text| + 1).value;
      EncodesOne(data, end, node, s.child, t.child);
      EncodesOneEdges(data, end, next, s.rest, t.rest);
    }
  }

  lemma SameText(data: seq<Byte>, p: nat, s: seq<Byte>, t: seq<Byte>)
    requires p + |s| < |data| && data[p..p + |s|] == s && data[p + |s|] == 0 && 0 !in s
    requires p + |t| < |data| && data[p..p + |t|] == t && data[p + |t|] == 0 && 0 !in t
    ensures s == t
  {
    assert forall i :: p <= i < p + |s| ==> data[i] == data[p..p + |s|][i - p];
    assert forall i :: p <= i < p + |t| ==> data[i] == data[p..p + |t|][i - p];
    assert forall i :: p <= i < p + |s| ==> data[i] in s;
    assert forall i :: p <= i < p + |t| ==> data[i] in t;
  }

  /** Scanning a label decides whether the rest of the symbol begins with it. */
  lemma {:induction false} ScanDecides(data: seq<Byte>, p: nat, symbol: seq<Byte>, k: nat, wrong: bool, text: seq<Byte>)
    requires k <= |symbol| && 0 !in text
    requires p + |text| < |data| && data[p..p + |text|] == text && data[p + |text|] == 0
    ensures var r := Scan(data, p, symbol, k, wrong);
      && r.Scanned? && r.next == p + |text|
      && r.matched == (!wrong && text <= symbol[k..])
      && (r.matched ==> r.used == k + |text|)
    decreases |text|
  {
    if text == [] {
    } else {
      var rest := text[1..];
      assert data[p] == text[0] && data[p + 1..p + 1 + |rest|] == rest;
      var bad := wrong || k == |symbol| || data[p] != symbol[k];
      ScanDecides(data, p + 1, symbol, if bad then k else k + 1, bad, rest);
      if !bad {
        assert symbol[k..][1..] == symbol[k + 1..];
        assert text <= symbol[k..] <==> rest <= symbol[k + 1..];
      }
    }
  }

  /** The first edge whose label the symbol begins with, with the edges after it. */
  function Matching(es: Edges, symbol: seq<Byte>): (r: Edges)
    ensures r.Edge? ==> r.text <= symbol
    ensures EdgesWellFormed(es) ==> EdgesWellFormed(r)
    ensures EdgesSize(r) <= EdgesSize(es)
  {
    if es.Nil? || es.text <= symbol then es else Matching(es.rest, symbol)
  }

  function Size(t: Trie): nat
    decreases t
  {
    1 + EdgesSize(t.edges)
  }

  function EdgesSize(es: Edges): nat
    decreases es
  {
    if es.Nil? then 0 else 1 + Size(es.child) + EdgesSize(es.rest)
  }

  lemma {:induction false} NoneStartsNone(es: Edges, symbol: seq<Byte>, info: seq<Byte>)
    requires EdgesWellFormed(es) && symbol != [] && NoneStarts(es, symbol[0])
    ensures !EdgesExport(es, symbol, info)
  {
    if es.Nil? {
    } else {
      assert es.text != [];
      NoneStartsNone(es.rest, symbol, info);
    }
  }

  /** Of well-formed siblings at most one leads to the symbol, the first that matches. */
  lemma {:induction false} MatchingExports(es: Edges, symbol: seq<Byte>, info: seq<Byte>)
    requires EdgesWellFormed(es)
    ensures var m := Matching(es, symbol);
      EdgesExport(es, symbol, info) <==> m.Edge? && Exports(m.child, symbol[|m.text|..], info)
  {
    if es.Nil? {
    } else {
      if es.text <= symbol {
        assert es.text[0] == symbol[0];
        NoneStartsNone(es.rest, symbol, info);
      } else {
        MatchingExports(es.rest, symbol, info);
      }
    }
  }

  lemma {:induction false} MatchingHops(es: Edges, symbol: seq<Byte>)
    ensures var m := Matching(es, symbol);
      EdgeHops(es, symbol) == if m.Edge? then 1 + Hops(m.child, symbol[|m.text|..]) else 0
  {
    if es.Nil? || es.text <= symbol {
    } else {
      MatchingHops(es.rest, symbol);
    }
  }

  /** Choosing an edge follows the first that matches, to the place where its child is encoded. */
  lemma {:induction false} ChooseFollows(data: seq<Byte>, end: nat, p: nat, es: Edges, symbol: seq<Byte>, k: nat)
      returns (node: nat)
    requires end <= |data| && end < TWO64 && k <= |symbol|
    requires EncodesEdges(data, end, p, es) && EdgesWellFormed(es)
    ensures var m := Matching(es, symbol[k..]);
      var r := Choose(data, end, p, Count(es), symbol, k);
      && (m.Nil? ==> r == NoEdge)
      && (m.Edge? ==>
            && Encodes(data, end, node, m.child) && k + |m.text| <= |symbol|
            && r == if node == 0 then Malformed else Go(node, k + |m.text|))
    decreases es
  {
    hide Scan, Uleb, Encodes, WellFormed, Size, EdgesSize, NoneStarts;
    node := 0;
    if es.Nil? {
    } else {
      ScanDecides(data, p, symbol, k, false, es.text);
      var (v, next) := Uleb(data, p + |es.text| + 1).value;
      if es.text <= symbol[k..] {
        node := v;
      } else {
        node := ChooseFollows(data, end, next, es.rest, symbol, k);
      }
    }
  }

  /** The answer the walk owes: the place of the export's description, or nothing if there is no export. */
  ghost predicate Answers(data: seq<Byte>, r: Outcome, t: Trie, symbol: seq<Byte>) {
    match r
    case Found(at) => exists stop :: at <= stop <= |data| && Exports(t, symbol, data[at..stop])
    case Missing => forall info :: !Exports(t, symbol, info)
    case Fault => false
  }

  /** The nodes on the way encode tries no smaller than t. */
  ghost predicate OnTheWay(data: seq<Byte>, end: nat, visited: seq<nat>, ancestors: seq<Trie>, t: Trie)
    requires end <= |data|
  {
    && |visited| == |ancestors| > 0 && visited[0] == 0
    && forall i :: 0 <= i < |visited| ==>
         Encodes(data, end, visited[i], ancestors[i]) && WellFormed(ancestors[i]) && Size(t) <= Size(ancestors[i])
  }

  /** A child is never a node already visited: it would encode a trie that holds itself. */
  lemma ChildIsNew(data: seq<Byte>, end: nat, visited: seq<nat>, ancestors: seq<Trie>, t: Trie, node: nat, child: Trie)
    requires end <= |data| && OnTheWay(data, end, visited, ancestors, t)
    requires Encodes(data, end, node, child) && WellFormed(child) && Size(child) < Size(t)
    ensures node !in visited && node != 0
    ensures OnTheWay(data, end, visited + [node], ancestors + [child], child)
  {
    forall i | 0 <= i < |visited|
      ensures visited[i] != node
    {
      if visited[i] == node {
        EncodesOne(data, end, node, ancestors[i], child);
        assert false;
      }
    }
  }

  lemma NoWrap(start: nat, p: nat, size: nat)
    requires start + p + size < TWO64
    ensures ChildrenAt(start, p, size) == p + size && size % TWO64 == size
  {
  }

  /** The walk from an encoded node: the first step of it, in the trie's own terms. */
  lemma WalkStep(data: seq<Byte>, start: nat, end: nat, symbol: seq<Byte>, k: nat, p: nat, visited: seq<nat>, t: Trie)
      returns (node: nat)
    requires end <= |data| && start + |data| < TWO64 && k <= |symbol| && |visited| <= VISITED
    requires Encodes(data, end, p, t) && WellFormed(t)
    ensures var r := Walk(data, start, end, symbol, k, p, visited);
      var m := Matching(t.edges, symbol[k..]);
      if k == |symbol| && t.terminal != [] then
        r.Found? && r.at + |t.terminal| <= |data| && data[r.at..r.at + |t.terminal|] == t.terminal
      else if m.Nil? then r == Missing
      else
        && Encodes(data, end, node, m.child) && k + |m.text| <= |symbol|
        && r == if node == 0 || node in visited then Missing
                else if |visited| == VISITED then Fault
                else Walk(data, start, end, symbol, k + |m.text|, node, visited + [node])
  {
    hide Choose, Matching, EncodesEdges, EdgesWellFormed, Uleb, ChildrenAt, EdgesSize;
    var (size, q) := Uleb(data, p).value;
    NoWrap(start, q, size);
    node := ChooseFollows(data, end, q + size + 1, t.edges, symbol, k);
  }

  /** Whether a node exports the rest of the symbol, by its terminal or by the one child that can. */
  lemma ExportsByChild(t: Trie, symbol: seq<Byte>, info: seq<Byte>)
    requires WellFormed(t)
    ensures var m := Matching(t.edges, symbol);
      Exports(t, symbol, info) <==>
        if symbol == [] && t.terminal != [] then info == t.terminal
        else m.Edge? && Exports(m.child, symbol[|m.text|..], info)
  {
    MatchingExports(t.edges, symbol, info);
    if symbol == [] {
      EmptyHasNoEdge(t.edges);
    }
  }

  /** What the walk owes at a node is what it owes at the one child it can follow. */
  lemma AnswersByChild(data: seq<Byte>, r: Outcome, t: Trie, symbol: seq<Byte>)
    requires WellFormed(t)
    ensures var m := Matching(t.edges, symbol);
      if symbol == [] && t.terminal != [] then
        (r.Found? && r.at + |t.terminal| <= |data| && data[r.at..r.at + |t.terminal|] == t.terminal ==>
           Answers(data, r, t, symbol))
      else if m.Nil? then Answers(data, Missing, t, symbol)
      else Answers(data, r, t, symbol) <==> Answers(data, r, m.child, symbol[|m.text|..])
  {
    hide Exports, Matching, WellFormed, EdgesSize;
    var m := Matching(t.edges, symbol);
    forall info
      ensures Exports(t, symbol, info) <==>
        if symbol == [] && t.terminal != [] then info == t.terminal
        else m.Edge? && Exports(m.child, symbol[|m.text|..], info)
    {
      ExportsByChild(t, symbol, info);
    }
  }

  lemma EmptyHasNoEdge(es: Edges)
    requires EdgesWellFormed(es)
    ensures Matching(es, []).Nil?
  {
  }

  /**
    On every encoding of a well-formed trie the walk answers the question "is this symbol
    exported, and where is its description" if and only if the symbol follows at most as
    many edges as the table has room for; otherwise it writes past the table.
   */
  lemma {:induction false} WalkExact(data: seq<Byte>, start: nat, end: nat, symbol: seq<Byte>, k: nat, p: nat,
                                     visited: seq<nat>, t: Trie, ancestors: seq<Trie>)
    requires end <= |data| && start + |data| < TWO64 && k <= |symbol| && |visited| <= VISITED
    requires Encodes(data, end, p, t) && WellFormed(t) && OnTheWay(data, end, visited, ancestors, t)
    ensures var r := Walk(data, start, end, symbol, k, p, visited);
      if |visited| + Hops(t, symbol[k..]) <= VISITED then Answers(data, r, t, symbol[k..]) else r == Fault
    decreases VISITED - |visited|
  {
    hide Walk, Encodes, OnTheWay, Exports, WellFormed, EdgesWellFormed, Matching, EdgeHops, Size, EdgesSize, Answers;
    var rest := symbol[k..];
    var m := Matching(t.edges, rest);
    var node := WalkStep(data, start, end, symbol, k, p, visited, t);
    var r := Walk(data, start, end, symbol, k, p, visited);
    AnswersByChild(data, r, t, rest);
    MatchingHops(t.edges, rest);
    if (rest == [] && t.terminal != []) || m.Nil? {
    } else {
      WellFormedChild(t, rest);
      ChildIsNew(data, end, visited, ancestors, t, node, m.child);
      assert rest[|m.text|..] == symbol[k + |m.text|..];
      if |visited| < VISITED {
        WalkExact(data, start, end, symbol, k + |m.text|, node, visited + [node], m.child, ancestors + [m.child]);
      }
    }
  }

  lemma WellFormedChild(t: Trie, symbol: seq<Byte>)
    requires WellFormed(t)
    ensures var m := Matching(t.edges, symbol);
      m.Edge? ==> WellFormed(m.child) && Size(m.child) < Size(t)
  {
  }

  /** The walk from the root, on every encoding of a well-formed trie and every symbol. */
  lemma LookupExact(data: seq<Byte>, start: nat, end: nat, symbol: seq<Byte>, t: Trie)
    requires end <= |data| && start + |data| < TWO64
    requires Encodes(data, end, 0, t) && WellFormed(t)
    ensures var r := Walk(data, start, end, symbol, 0, 0, [0]);
      && (Answers(data, r, t, symbol) <==> Hops(t, symbol) < VISITED)
      && (Hops(t, symbol) >= VISITED ==> r == Fault)
      && (|symbol| < VISITED ==> Answers(data, r, t, symbol))
  {
    hide Walk, Encodes, Exports, WellFormed, Hops;
    assert symbol[0..] == symbol;
    HopsShort(t, symbol);
    WalkExact(data, start, end, symbol, 0, 0, [0], t, [t]);
  }

  /** A description found for a symbol is the only one. */
  lemma {:induction false} ExportsOne(t: Trie, symbol: seq<Byte>, a: seq<Byte>, b: seq<Byte>)
    requires WellFormed(t) && Exports(t, symbol, a) && Exports(t, symbol, b)
    ensures a == b
    decreases Size(t)
  {
    hide Exports, WellFormed, EdgesWellFormed, Matching, Size, EdgesSize;
    ExportsByChild(t, symbol, a);
    ExportsByChild(t, symbol, b);
    var m := Matching(t.edges, symbol);
    if symbol == [] && t.terminal != [] {
    } else {
      WellFormedChild(t, symbol);
      ExportsOne(m.child, symbol[|m.text|..], a, b);
    }
  }

  // ---------------------------------------------------------------- a trie too deep for the table

  /** A chain of n edges labelled with one byte each, exporting one symbol of n bytes. */
  function Chain(n: nat): Trie {
    if n == 0 then Trie([7], Nil) else Trie([], Edge([97], Chain(n - 1), Nil))
  }

  function ChainSymbol(n: nat): seq<Byte> {
    if n == 0 then [] else [97] + ChainSymbol(n - 1)
  }

  /** The node with n edges below it: its child follows it, at an offset written in two bytes. */
  function ChainNode(n: nat): (r: seq<Byte>)
    requires n <= VISITED
    ensures |r| == if n == 0 then 3 else 6
  {
    if n == 0 then [1, 7, 0]
    else
      var child := 6 * (VISITED - n + 1);
      [0, 1, 97, 0, 128 + child % 128, child / 128]
  }

  function ChainBytes(n: nat): (r: seq<Byte>)
    requires n <= VISITED
    ensures |r| == 6 * n + 3
  {
    if n == 0 then ChainNode(0) else ChainNode(n) + ChainBytes(n - 1)
  }

  lemma OneEdgeEncoded(data: seq<Byte>, off: nat, child: nat, t: Trie)
    requires off + 6 <= |data| && child < |data| && child / 128 < 128
    requires data[off] == 0 && data[off + 1] == 1 && data[off + 2] == 97 && data[off + 3] == 0
    requires data[off + 4] == 128 + child % 128 && data[off + 5] == child / 128
    requires Encodes(data, |data|, child, t)
    ensures Encodes(data, |data|, off, Trie([], Edge([97], t, Nil)))
  {
    hide Encodes;
    var e := Edge([97], t, Nil);
    assert data[off + 2..off + 3] == [97];
    assert Uleb(data, off + 5).Some? && Uleb(data, off + 5).value.0 == child / 128;
    assert Uleb(data, off + 4).Some? && Uleb(data, off + 4).value.0 == child;
    assert EncodesEdges(data, |data|, off + 2, e);
    NodeEncoded(data, off, e);
  }

  lemma NodeEncoded(data: seq<Byte>, off: nat, es: Edges)
    requires off + 2 < |data| && data[off] == 0 && data[off + 1] == Count(es)
    requires EncodesEdges(data, |data|, off + 2, es)
    ensures Encodes(data, |data|, off, Trie([], es))
  {
    hide EncodesEdges;
    assert Uleb(data, off).Some? && Uleb(data, off).value.0 == 0 && Uleb(data, off).value.1 == off + 1;
  }

  lemma LastEncoded(data: seq<Byte>, off: nat)
    requires off + 3 == |data| && data[off] == 1 && data[off + 1] == 7 && data[off + 2] == 0
    ensures Encodes(data, |data|, off, Trie([7], Nil))
  {
    assert data[off + 1..off + 2] == [7];
  }

  lemma {:induction false} ChainEncoded(n: nat, before: seq<Byte>)
    requires n <= VISITED && |before| == 6 * (VISITED - n)
    ensures var data := before + ChainBytes(n);
      Encodes(data, |data|, |before|, Chain(n))
  {
    hide Encodes, WellFormed;
    var data := before + ChainBytes(n);
    var off := |before|;
    if n == 0 {
      LastEncoded(data, off);
    } else {
      var node := ChainNode(n);
      assert data == (before + node) + ChainBytes(n - 1);
      ChainEncoded(n - 1, before + node);
      assert forall i :: off <= i < off + 6 ==> data[i] == node[i - off];
      OneEdgeEncoded(data, off, off + 6, Chain(n - 1));
    }
  }

  lemma {:induction false} ChainWellFormed(n: nat)
    ensures WellFormed(Chain(n))
  {
    if n == 0 {
    } else {
      ChainWellFormed(n - 1);
      assert EdgesWellFormed(Chain(n).edges);
    }
  }

  lemma {:induction false} ChainHops(n: nat)
    ensures Hops(Chain(n), ChainSymbol(n)) == n && |ChainSymbol(n)| == n
    ensures Exports(Chain(n), ChainSymbol(n), [7])
  {
    if n == 0 {
    } else {
      ChainHops(n - 1);
      assert ChainSymbol(n)[1..] == ChainSymbol(n - 1);
    }
  }

  /** An exported symbol of 128 bytes, in a well-formed trie, on which the walk writes past its table. */
  lemma DeepTrieOverruns(start: nat)
    requires start < 0x1_0000_0000
    ensures var data := ChainBytes(VISITED);
      && Encodes(data, |data|, 0, Chain(VISITED)) && WellFormed(Chain(VISITED))
      && Exports(Chain(VISITED), ChainSymbol(VISITED), [7])
      && Walk(data, start, |data|, ChainSymbol(VISITED), 0, 0, [0]) == Fault
  {
    hide Walk, Encodes, Exports, WellFormed, Chain, ChainSymbol, ChainBytes, Hops;
    var data := ChainBytes(VISITED);
    assert [] + data == data;
    ChainEncoded(VISITED, []);
    ChainWellFormed(VISITED);
    ChainHops(VISITED);
    LookupExact(data, start, |data|, ChainSymbol(VISITED), Chain(VISITED));
  }
}
