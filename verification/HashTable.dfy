/**
  TinySTL's hash table: one doubly linked list of all nodes, kept in bucket
  order, and an array that gives for each bucket the first node at or after it.
 */
module HashTable {
  import opened Options

  class Node<K, V> {
    const first: K
    var second: V
    var next: Node?<K, V>
    var prev: Node?<K, V>

    constructor (first: K, second: V)
      ensures this.first == first && this.second == second && next == null && prev == null
    {
      this.first, this.second, next, prev := first, second, null, null;
    }
  }

  /** Bitwise and. */
  function And(a: nat, b: nat): (r: nat)
    ensures r <= b
    decreases b
  {
    if b == 0 then 0 else 2 * And(a / 2, b / 2) + (if a % 2 == 1 && b % 2 == 1 then 1 else 0)
  }

  /** The bucket of a key among `nb`; `nb` is the number of buckets without the sentinel. */
  function Bucket<K>(hash: K -> nat, key: K, nb: nat): (b: nat)
    requires nb > 0
    ensures b < nb
  {
    And(hash(key), nb - 1)
  }

  function Pow8(k: nat): (p: nat)
    ensures p > 0
  {
    if k == 0 then 1 else 8 * Pow8(k - 1)
  }

  /** The lengths a bucket array can have: a power of eight, at least eight, and the sentinel. */
  ghost predicate TableLength(n: nat) {
    exists k: nat :: k > 0 && n == Pow8(k) + 1
  }

  lemma TableGrows(n: nat)
    requires TableLength(n)
    ensures n >= 9 && TableLength((n - 1) * 8 + 1)
  {
    var k: nat :| k > 0 && n == Pow8(k) + 1;
    assert Pow8(k + 1) == 8 * Pow8(k) && Pow8(k) == 8 * Pow8(k - 1);
  }

  lemma FirstLength()
    ensures TableLength(9)
  {
    assert Pow8(1) == 8 * Pow8(0);
  }

  lemma AndHalf(a: nat, m: nat)
    requires m > 0
    ensures And(a, 2 * m - 1) == 2 * And(a / 2, m - 1) + a % 2
  {
    assert (2 * m - 1) / 2 == m - 1 && (2 * m - 1) % 2 == 1;
  }

  lemma AndEight(a: nat, m: nat)
    requires m > 0
    ensures And(a, 8 * m - 1) == 8 * And(a / 8, m - 1) + a % 8
  {
    hide And;
    AndHalf(a, 4 * m);
    AndHalf(a / 2, 2 * m);
    AndHalf(a / 4, m);
    ThreeHalves(a);
  }

  lemma ThreeHalves(a: nat)
    ensures a / 2 / 2 == a / 4 && a / 4 / 2 == a / 8 && a % 8 == a % 2 + 2 * (a / 2 % 2) + 4 * (a / 4 % 2)
  {
  }

  lemma DivMod(x: nat, d: nat)
    requires d > 0
    ensures x == x / d * d + x % d && 0 <= x % d < d
  {
  }

  lemma {:induction false} SameRemainder(p: nat, q: nat, d: nat, r: nat, t: nat)
    requires r < d && t < d && p * d + r == q * d + t
    ensures r == t
    decreases p
  {
    if p == 0 || q == 0 {
      assert p * d == 0 || q * d == 0;
      assert p > 0 ==> p * d == (p - 1) * d + d;
      assert q > 0 ==> q * d == (q - 1) * d + d;
    } else {
      assert p * d == (p - 1) * d + d && q * d == (q - 1) * d + d;
      SameRemainder(p - 1, q - 1, d, r, t);
    }
  }

  lemma RemainderIs(x: nat, d: nat, q: nat, r: nat)
    requires r < d && x == q * d + r
    ensures x % d == r
  {
    DivMod(x, d);
    var p, t := x / d, x % d;
    SameRemainder(p, q, d, t, r);
  }

  /** Masking with a power of eight less one leaves the remainder. */
  lemma {:induction false} AndQuotient(a: nat, k: nat) returns (q: nat)
    ensures a == q * Pow8(k) + And(a, Pow8(k) - 1)
  {
    if k == 0 {
      q := a;
    } else {
      hide And;
      q := AndQuotient(a / 8, k - 1);
      AndStep(a, q, Pow8(k - 1), Pow8(k));
    }
  }

  lemma AndStep(a: nat, q: nat, m: nat, p: nat)
    requires 0 < m && p == 8 * m && a / 8 == q * m + And(a / 8, m - 1)
    ensures a == q * p + And(a, p - 1)
  {
    hide And;
    AndEight(a, m);
    TimesEight(q, m, p);
    Eighths(a, q * m, And(a / 8, m - 1));
  }

  lemma TimesEight(q: nat, m: nat, p: nat)
    requires p == 8 * m
    ensures q * p == 8 * (q * m)
  {
  }

  lemma Eighths(a: nat, x: nat, r: nat)
    requires a / 8 == x + r
    ensures a == 8 * x + (8 * r + a % 8)
  {
  }

  /** In every table the bucket of a key is the remainder of its hash. */
  lemma BucketExact<K>(hash: K -> nat, key: K, nb: nat)
    requires nb > 0 && TableLength(nb + 1)
    ensures Bucket(hash, key, nb) == hash(key) % nb
  {
    var k: nat :| k > 0 && nb + 1 == Pow8(k) + 1;
    hide And, Pow8;
    var q := AndQuotient(hash(key), k);
    RemainderIs(hash(key), nb, q, And(hash(key), nb - 1));
  }

  function NodeAt<K, V>(nodes: seq<Node<K, V>>, i: nat): Node?<K, V> {
    if i < |nodes| then nodes[i] else null
  }

  ghost predicate Distinct<K, V>(nodes: seq<Node<K, V>>) {
    forall i, j :: 0 <= i < j < |nodes| ==> nodes[i] != nodes[j]
  }

  /** The nodes are doubly linked in this order. */
  ghost predicate Linked<K, V>(nodes: seq<Node<K, V>>)
    reads (set n <- nodes)`next, (set n <- nodes)`prev
  {
    && (forall i {:trigger nodes[i].next} :: 0 <= i < |nodes| ==> nodes[i].next == NodeAt(nodes, i + 1))
    && (forall i {:trigger nodes[i].prev} :: 0 <= i < |nodes| ==> nodes[i].prev == if i == 0 then null else nodes[i - 1])
  }

  /** `starts[b]` counts the nodes whose bucket is below `b`, and they come first. */
  ghost predicate Ordered<K, V>(hash: K -> nat, nodes: seq<Node<K, V>>, starts: seq<nat>) {
    && |starts| >= 2
    && (forall b {:trigger starts[b]} :: 0 <= b < |starts| ==> starts[b] <= |nodes|)
    && (forall b, i {:trigger starts[b], nodes[i]} :: 0 <= b < |starts| && 0 <= i < |nodes| ==>
          (i < starts[b] <==> Bucket(hash, nodes[i].first, |starts| - 1) < b))
  }

  /** Each bucket holds the first node at or after it; the sentinel is then null. */
  ghost predicate Indexed<K, V>(buckets: array<Node?<K, V>>, nodes: seq<Node<K, V>>, starts: seq<nat>)
    reads buckets
  {
    && buckets.Length == |starts| >= 2
    && (forall b {:trigger starts[b]} {:trigger buckets[b]} :: 0 <= b < |starts| ==> buckets[b] == NodeAt(nodes, starts[b]))
  }

  ghost predicate Chain<K, V>(hash: K -> nat, buckets: array<Node?<K, V>>, nodes: seq<Node<K, V>>, starts: seq<nat>)
    reads buckets, (set n <- nodes)`next, (set n <- nodes)`prev
  {
    Distinct(nodes) && Linked(nodes) && Ordered(hash, nodes, starts) && Indexed(buckets, nodes, starts)
  }

  // --- facts about the order

  lemma StartsMonotone<K, V>(hash: K -> nat, nodes: seq<Node<K, V>>, starts: seq<nat>, b: nat, c: nat)
    requires Ordered(hash, nodes, starts) && b <= c < |starts|
    ensures starts[b] <= starts[c]
  {
    if starts[c] < |nodes| {
      assert Bucket(hash, nodes[starts[c]].first, |starts| - 1) >= c;
    }
  }

  lemma StartsEnds<K, V>(hash: K -> nat, nodes: seq<Node<K, V>>, starts: seq<nat>)
    requires Ordered(hash, nodes, starts)
    ensures starts[0] == 0 && starts[|starts| - 1] == |nodes|
  {
    if nodes != [] {
      assert 0 <= Bucket(hash, nodes[0].first, |starts| - 1);
      assert Bucket(hash, nodes[|nodes| - 1].first, |starts| - 1) < |starts| - 1;
    }
  }

  function Inserted<T>(s: seq<T>, p: nat, x: T): seq<T>
    requires p <= |s|
  {
    s[..p] + [x] + s[p..]
  }

  function Removed<T>(s: seq<T>, p: nat): seq<T>
    requires p < |s|
  {
    s[..p] + s[p + 1..]
  }

  /** The counts after a node of bucket `k` joined. */
  function Bumped(starts: seq<nat>, k: nat): (r: seq<nat>)
    ensures |r| == |starts| && forall b :: 0 <= b < |r| ==> r[b] == if b <= k then starts[b] else starts[b] + 1
  {
    seq(|starts|, b requires 0 <= b < |starts| => if b <= k then starts[b] else starts[b] + 1)
  }

  lemma OrderedInsert<K, V>(hash: K -> nat, nodes: seq<Node<K, V>>, starts: seq<nat>, node: Node<K, V>, k: nat)
    requires Ordered(hash, nodes, starts) && k < |starts| - 1 && Bucket(hash, node.first, |starts| - 1) == k
    ensures Ordered(hash, Inserted(nodes, starts[k + 1], node), Bumped(starts, k))
  {
    var p := starts[k + 1];
    var nodes' := Inserted(nodes, p, node);
    var starts' := Bumped(starts, k);
    forall b, i {:trigger starts'[b], nodes'[i]} | 0 <= b < |starts'| && 0 <= i < |nodes'|
      ensures i < starts'[b] <==> Bucket(hash, nodes'[i].first, |starts'| - 1) < b
    {
      if b <= k {
        StartsMonotone(hash, nodes, starts, b, k + 1);
      } else {
        StartsMonotone(hash, nodes, starts, k + 1, b);
      }
      if i < p {
        assert nodes'[i] == nodes[i];
      } else if i > p {
        assert nodes'[i] == nodes[i - 1];
      }
    }
  }

  lemma OrderedRemove<K, V>(hash: K -> nat, nodes: seq<Node<K, V>>, starts: seq<nat>, p: nat, starts': seq<nat>)
    requires Ordered(hash, nodes, starts) && p < |nodes| && |starts'| == |starts|
    requires forall b :: 0 <= b < |starts| ==> starts'[b] == if starts[b] <= p then starts[b] else starts[b] - 1
    ensures Ordered(hash, Removed(nodes, p), starts')
  {
    var nodes' := Removed(nodes, p);
    forall b, i {:trigger starts'[b], nodes'[i]} | 0 <= b < |starts'| && 0 <= i < |nodes'|
      ensures i < starts'[b] <==> Bucket(hash, nodes'[i].first, |starts'| - 1) < b
    {
      assert nodes'[i] == if i < p then nodes[i] else nodes[i + 1];
    }
  }

  // --- the operations on the chain

  method LinkBefore<K, V>(node: Node<K, V>, it: Node<K, V>, ghost nodes: seq<Node<K, V>>, ghost p: nat)
    requires Distinct(nodes) && Linked(nodes) && node !in nodes && p < |nodes| && it == nodes[p]
    modifies node`next, node`prev, (set n <- nodes)`next, (set n <- nodes)`prev
    ensures Linked(Inserted(nodes, p, node))
  {
    node.next := it;
    node.prev := it.prev;
    it.prev := node;
    if node.prev != null {
      node.prev.next := node;
    }
    ghost var nodes' := Inserted(nodes, p, node);
    forall i | 0 <= i < |nodes'|
      ensures nodes'[i].next == NodeAt(nodes', i + 1) && nodes'[i].prev == if i == 0 then null else nodes'[i - 1]
    {
      if i < p {
        assert nodes'[i] == nodes[i];
      } else if i > p {
        assert nodes'[i] == nodes[i - 1];
      }
    }
  }

  method LinkLast<K, V>(node: Node<K, V>, prev: Node?<K, V>, ghost nodes: seq<Node<K, V>>)
    requires Distinct(nodes) && Linked(nodes) && node !in nodes
    requires prev == if nodes == [] then null else nodes[|nodes| - 1]
    modifies node`next, node`prev, (set n <- nodes)`next
    ensures Linked(Inserted(nodes, |nodes|, node))
  {
    node.next := null;
    node.prev := prev;
    if prev != null {
      prev.next := node;
    }
    ghost var nodes' := Inserted(nodes, |nodes|, node);
    forall i | 0 <= i < |nodes'|
      ensures nodes'[i].next == NodeAt(nodes', i + 1) && nodes'[i].prev == if i == 0 then null else nodes'[i - 1]
    {
      if i < |nodes| {
        assert nodes'[i] == nodes[i];
      }
    }
  }

  lemma DistinctInsert<K, V>(nodes: seq<Node<K, V>>, p: nat, node: Node<K, V>)
    requires Distinct(nodes) && node !in nodes && p <= |nodes|
    ensures Distinct(Inserted(nodes, p, node))
    ensures forall n :: n in Inserted(nodes, p, node) <==> n in nodes || n == node
  {
    assert nodes == nodes[..p] + nodes[p..];
  }

  /** unordered_hash_node_insert: puts `node` at the end of its bucket. */
  method NodeInsert<K, V>(hash: K -> nat, node: Node<K, V>, buckets: array<Node?<K, V>>, ghost nodes: seq<Node<K, V>>, ghost starts: seq<nat>)
    returns (ghost nodes': seq<Node<K, V>>, ghost starts': seq<nat>)
    requires Chain(hash, buckets, nodes, starts) && node !in nodes
    modifies buckets, node`next, node`prev, (set n <- nodes)`next, (set n <- nodes)`prev
    ensures Chain(hash, buckets, nodes', starts') && starts' == Bumped(starts, Bucket(hash, node.first, |starts| - 1))
    ensures nodes' == Inserted(nodes, starts[Bucket(hash, node.first, |starts| - 1) + 1], node)
    ensures |nodes'| == |nodes| + 1 && forall n :: n in nodes' <==> n in nodes || n == node
  {
    hide Linked, Ordered, Distinct;
    var bucket := Bucket(hash, node.first, buckets.Length - 1);
    InsertFacts(hash, nodes, starts, node, bucket);
    var it := buckets[bucket + 1];
    if it != null {
      LinkBefore(node, it, nodes, starts[bucket + 1]);
    } else {
      var prev := FindLast(hash, bucket, buckets, nodes, starts);
      LinkLast(node, prev, nodes);
    }
    Propagate(hash, bucket, it, node, buckets, nodes, starts);
    nodes', starts' := Inserted(nodes, starts[bucket + 1], node), Bumped(starts, bucket);
  }

  lemma InsertFacts<K, V>(hash: K -> nat, nodes: seq<Node<K, V>>, starts: seq<nat>, node: Node<K, V>, k: nat)
    requires Distinct(nodes) && Ordered(hash, nodes, starts) && node !in nodes
    requires k < |starts| - 1 && Bucket(hash, node.first, |starts| - 1) == k
    ensures starts[k + 1] <= |nodes|
    ensures Distinct(Inserted(nodes, starts[k + 1], node))
    ensures forall n :: n in Inserted(nodes, starts[k + 1], node) <==> n in nodes || n == node
    ensures Ordered(hash, Inserted(nodes, starts[k + 1], node), Bumped(starts, k))
  {
    OrderedInsert(hash, nodes, starts, node, k);
    DistinctInsert(nodes, starts[k + 1], node);
  }

  /** The last node of the whole list, found from the nearest non-empty bucket at or below `bucket`. */
  method FindLast<K, V>(hash: K -> nat, bucket: nat, buckets: array<Node?<K, V>>, ghost nodes: seq<Node<K, V>>, ghost starts: seq<nat>)
    returns (last: Node?<K, V>)
    requires Ordered(hash, nodes, starts) && Indexed(buckets, nodes, starts) && bucket + 1 < |starts| && Linked(nodes)
    requires buckets[bucket + 1] == null
    ensures last == if nodes == [] then null else nodes[|nodes| - 1]
  {
    var b := bucket;
    while b > 0 && buckets[b] == null
      invariant 0 <= b <= bucket
    {
      b := b - 1;
    }
    StartsEnds(hash, nodes, starts);
    last := buckets[b];
    ghost var i := starts[b];
    while last != null && last.next != null
      invariant last == NodeAt(nodes, i) && i <= |nodes|
      invariant nodes != [] ==> i < |nodes|
      decreases |nodes| - i
    {
      last := last.next;
      i := i + 1;
    }
  }

  lemma NodeAtInjective<K, V>(nodes: seq<Node<K, V>>, i: nat, j: nat)
    requires Distinct(nodes) && i <= |nodes| && j <= |nodes| && NodeAt(nodes, i) == NodeAt(nodes, j)
    ensures i == j
  {
  }

  /** Every bucket at or below that pointed to the successor now points to the new node. */
  method Propagate<K, V>(hash: K -> nat, bucket: nat, it: Node?<K, V>, node: Node<K, V>, buckets: array<Node?<K, V>>,
                         ghost nodes: seq<Node<K, V>>, ghost starts: seq<nat>)
    requires Distinct(nodes) && Ordered(hash, nodes, starts) && Indexed(buckets, nodes, starts)
    requires node !in nodes && bucket + 1 < |starts| && it == NodeAt(nodes, starts[bucket + 1])
    modifies buckets
    ensures starts[bucket + 1] <= |nodes|
    ensures Indexed(buckets, Inserted(nodes, starts[bucket + 1], node), Bumped(starts, bucket))
  {
    hide Distinct;
    var b: int := bucket;
    while b >= 0 && buckets[b] == it
      invariant -1 <= b <= bucket
      invariant forall c :: 0 <= c < |starts| && !(b < c <= bucket) ==> buckets[c] == NodeAt(nodes, starts[c])
      invariant forall c :: b < c <= bucket ==> buckets[c] == node && starts[c] == starts[bucket + 1]
      decreases b
    {
      NodeAtInjective(nodes, starts[b], starts[bucket + 1]);
      buckets[b] := node;
      b := b - 1;
    }
    ghost var p := starts[bucket + 1];
    forall c | 0 <= c < |starts|
      ensures buckets[c] == NodeAt(Inserted(nodes, p, node), Bumped(starts, bucket)[c])
    {
      if c > bucket {
        StartsMonotone(hash, nodes, starts, bucket + 1, c);
      } else if c <= b {
        StartsMonotone(hash, nodes, starts, c, b);
        StartsMonotone(hash, nodes, starts, b, bucket + 1);
      }
    }
  }

  /** unordered_hash_node_erase: takes the node at position `p` out of the chain. */
  method NodeErase<K, V>(hash: K -> nat, where_: Node<K, V>, buckets: array<Node?<K, V>>, ghost nodes: seq<Node<K, V>>, ghost starts: seq<nat>,
                         ghost p: nat) returns (ghost starts': seq<nat>)
    requires Chain(hash, buckets, nodes, starts) && p < |nodes| && nodes[p] == where_
    modifies buckets, (set n <- nodes)`next, (set n <- nodes)`prev
    ensures Chain(hash, buckets, Removed(nodes, p), starts') && |starts'| == |starts|
  {
    hide Linked, Distinct;
    var bucket := Bucket(hash, where_.first, buckets.Length - 1);
    starts' := seq(|starts|, b requires 0 <= b < |starts| => if starts[b] <= p then starts[b] else starts[b] - 1);
    OrderedRemove(hash, nodes, starts, p, starts');
    LinkedNext(nodes, p);
    Retract(hash, bucket, where_, buckets, nodes, starts, p, starts');
    Unlink(where_, nodes, p);
  }

  lemma LinkedNext<K, V>(nodes: seq<Node<K, V>>, p: nat)
    requires Linked(nodes) && p < |nodes|
    ensures nodes[p].next == NodeAt(nodes, p + 1)
  {
  }

  /** Every bucket that pointed to the erased node now points to its successor. */
  method Retract<K, V>(hash: K -> nat, bucket: nat, where_: Node<K, V>, buckets: array<Node?<K, V>>,
                       ghost nodes: seq<Node<K, V>>, ghost starts: seq<nat>, ghost p: nat, ghost starts': seq<nat>)
    requires Distinct(nodes) && Ordered(hash, nodes, starts) && Indexed(buckets, nodes, starts)
    requires p < |nodes| && nodes[p] == where_ && bucket == Bucket(hash, where_.first, |starts| - 1)
    requires where_.next == NodeAt(nodes, p + 1)
    requires |starts'| == |starts| && forall b :: 0 <= b < |starts| ==> starts'[b] == if starts[b] <= p then starts[b] else starts[b] - 1
    modifies buckets
    ensures Indexed(buckets, Removed(nodes, p), starts')
  {
    hide Distinct;
    var next := where_.next;
    var b: int := bucket;
    while b >= 0 && buckets[b] == where_
      invariant -1 <= b <= bucket
      invariant forall c :: 0 <= c < |starts| && !(b < c <= bucket) ==> buckets[c] == NodeAt(nodes, starts[c])
      invariant forall c :: b < c <= bucket ==> buckets[c] == next && starts[c] == p
      decreases b
    {
      NodeAtInjective(nodes, starts[b], p);
      buckets[b] := next;
      b := b - 1;
    }
    forall c | 0 <= c < |starts|
      ensures buckets[c] == NodeAt(Removed(nodes, p), starts'[c])
    {
      assert c <= bucket ==> starts[c] <= p;
      if c <= b {
        StartsMonotone(hash, nodes, starts, c, b);
        assert starts[b] <= p;
      }
    }
  }

  method Unlink<K, V>(where_: Node<K, V>, ghost nodes: seq<Node<K, V>>, ghost p: nat)
    requires Distinct(nodes) && Linked(nodes) && p < |nodes| && nodes[p] == where_
    modifies (set n <- nodes)`next, (set n <- nodes)`prev
    ensures Distinct(Removed(nodes, p)) && Linked(Removed(nodes, p))
  {
    var next := where_.next;
    if where_.prev != null {
      where_.prev.next := where_.next;
    }
    if next != null {
      next.prev := where_.prev;
    }
    ghost var nodes' := Removed(nodes, p);
    forall i | 0 <= i < |nodes'|
      ensures nodes'[i].next == NodeAt(nodes', i + 1)
    {
      assert nodes'[i] == if i < p then nodes[i] else nodes[i + 1];
    }
    forall i | 0 <= i < |nodes'|
      ensures nodes'[i].prev == if i == 0 then null else nodes'[i - 1]
    {
      assert nodes'[i] == if i < p then nodes[i] else nodes[i + 1];
    }
  }

  /** unordered_hash_find: scans from the key's bucket to the next one. */
  method NodeFind<K(==), V>(hash: K -> nat, key: K, buckets: array<Node?<K, V>>, ghost nodes: seq<Node<K, V>>, ghost starts: seq<nat>)
    returns (r: Node?<K, V>)
    requires Chain(hash, buckets, nodes, starts)
    ensures r != null ==> r in nodes && r.first == key
    ensures r == null ==> forall n <- nodes :: n.first != key
  {
    hide And;
    var bucket := And(hash(key), buckets.Length - 2);
    var it, end := buckets[bucket], buckets[bucket + 1];
    ghost var i := starts[bucket];
    StartsMonotone(hash, nodes, starts, bucket, bucket + 1);
    while it != end
      invariant starts[bucket] <= i <= starts[bucket + 1] && it == NodeAt(nodes, i)
      invariant forall j :: starts[bucket] <= j < i ==> nodes[j].first != key
      decreases |nodes| - i
    {
      if it.first == key {
        return it;
      }
      it := it.next;
      i := i + 1;
    }
    NodeAtInjective(nodes, i, starts[bucket + 1]);
    forall n | n in nodes
      ensures n.first != key
    {
      var j :| 0 <= j < |nodes| && nodes[j] == n;
    }
    r := null;
  }

  // --- the map

  /** The nodes hold exactly the pairs of `m`, one node a key. */
  ghost predicate Represents<K, V>(nodes: seq<Node<K, V>>, m: map<K, V>)
    reads (set n <- nodes)`second
  {
    && (forall n {:trigger n.first} :: n in nodes ==> n.first in m && m[n.first] == n.second)
    && (forall k {:trigger k in m} :: k in m ==> exists n :: n in nodes && n.first == k)
    && (forall n, n' {:trigger n.first, n'.first} :: n in nodes && n' in nodes && n != n' ==> n.first != n'.first)
  }

  lemma SameMembers<K, V>(nodes: seq<Node<K, V>>, nodes': seq<Node<K, V>>, m: map<K, V>)
    requires Represents(nodes, m) && forall n :: n in nodes <==> n in nodes'
    ensures Represents(nodes', m)
  {
  }

  lemma RepresentsInsert<K, V>(nodes: seq<Node<K, V>>, nodes': seq<Node<K, V>>, m: map<K, V>, node: Node<K, V>)
    requires Represents(nodes, m) && node.first !in m && forall n :: n in nodes' <==> n in nodes || n == node
    ensures Represents(nodes', m[node.first := node.second])
  {
    var m' := m[node.first := node.second];
    forall k {:trigger k in m'} | k in m'
      ensures exists n :: n in nodes' && n.first == k
    {
      if k == node.first {
        assert node in nodes';
      } else {
        assert k in m;
      }
    }
  }

  lemma RepresentsRemove<K, V>(nodes: seq<Node<K, V>>, nodes': seq<Node<K, V>>, m: map<K, V>, node: Node<K, V>)
    requires Represents(nodes, m) && node in nodes && forall n :: n in nodes' <==> n in nodes && n != node
    ensures node.first in m && Represents(nodes', m - {node.first})
  {
    var m' := m - {node.first};
    assert node.first in m;
    forall k {:trigger k in m'} | k in m'
      ensures exists n :: n in nodes' && n.first == k
    {
      assert k in m;
      var n :| n in nodes && n.first == k;
      assert n in nodes';
    }
  }

  lemma EmptyRepresents<K, V>()
    ensures Represents<K, V>([], map[])
  {
  }

  /** A node's key is in the map and is the key of no earlier node. */
  lemma RepresentsNode<K, V>(nodes: seq<Node<K, V>>, m: map<K, V>, j: nat)
    requires Represents(nodes, m) && Distinct(nodes) && j < |nodes|
    ensures nodes[j].first in m && m[nodes[j].first] == nodes[j].second
    ensures forall i :: 0 <= i < j ==> nodes[i].first != nodes[j].first
  {
    assert nodes[j] in nodes;
  }

  lemma RepresentsAll<K, V>(nodes: seq<Node<K, V>>, m: map<K, V>)
    requires Represents(nodes, m)
    ensures m.Keys == FirstKeys(nodes, |nodes|)
  {
    forall k | k in m
      ensures k in FirstKeys(nodes, |nodes|)
    {
      var n :| n in nodes && n.first == k;
      var i :| 0 <= i < |nodes| && nodes[i] == n;
    }
    forall i | 0 <= i < |nodes|
      ensures nodes[i].first in m
    {
      assert nodes[i] in nodes;
    }
  }

  lemma EmptyChain<K, V>(hash: K -> nat, buckets: array<Node?<K, V>>)
    requires buckets.Length >= 2 && forall b :: 0 <= b < buckets.Length ==> buckets[b] == null
    ensures Chain(hash, buckets, [], seq(buckets.Length, _ => 0))
  {
  }

  lemma ChainFacts<K, V>(hash: K -> nat, buckets: array<Node?<K, V>>, nodes: seq<Node<K, V>>, starts: seq<nat>)
    requires Chain(hash, buckets, nodes, starts)
    ensures Distinct(nodes) && Linked(nodes) && buckets.Length >= 2 && buckets[0] == NodeAt(nodes, 0)
  {
    StartsEnds(hash, nodes, starts);
  }

  function FirstKeys<K, V>(nodes: seq<Node<K, V>>, j: nat): (ks: set<K>)
    requires j <= |nodes|
  {
    set i | 0 <= i < j :: nodes[i].first
  }

  lemma FirstKeysStep<K, V>(nodes: seq<Node<K, V>>, m: map<K, V>, j: nat)
    requires Represents(nodes, m) && Distinct(nodes) && j < |nodes|
    ensures nodes[j].first !in FirstKeys(nodes, j) && FirstKeys(nodes, j + 1) == FirstKeys(nodes, j) + {nodes[j].first}
    ensures nodes[j].first in m && m[nodes[j].first] == nodes[j].second
  {
    RepresentsNode(nodes, m, j);
  }

  /** Inserts a copy of every node of a chain into an empty array of buckets. */
  method CopyNodes<K, V>(hash: K -> nat, from: array<Node?<K, V>>, ghost nodes: seq<Node<K, V>>, ghost starts: seq<nat>, ghost m: map<K, V>,
                         buckets: array<Node?<K, V>>) returns (ghost copies: seq<Node<K, V>>, ghost counts: seq<nat>)
    requires Chain(hash, from, nodes, starts) && Represents(nodes, m)
    requires buckets != from && buckets.Length >= 2 && forall b :: 0 <= b < buckets.Length ==> buckets[b] == null
    modifies buckets
    ensures Chain(hash, buckets, copies, counts) && Represents(copies, m) && |copies| == |nodes|
    ensures forall n :: n in copies ==> fresh(n)
  {
    hide Ordered, Indexed, Chain, Represents, FirstKeys;
    copies, counts := [], seq(buckets.Length, _ => 0);
    ghost var sofar: map<K, V> := map[];
    ChainFacts(hash, from, nodes, starts);
    EmptyChain(hash, buckets);
    EmptyRepresents<K, V>();
    NoFirstKeys(nodes);
    var it := from[0];
    ghost var j := 0;
    while it != null
      invariant j <= |nodes| && it == NodeAt(nodes, j)
      invariant Chain(hash, buckets, copies, counts) && |copies| == j && forall n :: n in copies ==> fresh(n)
      invariant Represents(copies, sofar) && sofar.Keys == FirstKeys(nodes, j)
      invariant forall k :: k in sofar ==> k in m && sofar[k] == m[k]
      decreases |nodes| - j
    {
      FirstKeysStep(nodes, m, j);
      var node := new Node(it.first, it.second);
      ghost var after, counts' := NodeInsert(hash, node, buckets, copies, counts);
      RepresentsInsert(copies, after, sofar, node);
      copies, counts, sofar := after, counts', sofar[it.first := it.second];
      it, j := it.next, j + 1;
    }
    RepresentsAll(nodes, m);
    assert sofar == m;
  }

  lemma NoFirstKeys<K, V>(nodes: seq<Node<K, V>>)
    ensures FirstKeys(nodes, 0) == {}
  {
  }

  class UnorderedMap<K(==), V> {
    const hash: K -> nat
    var buckets: array<Node?<K, V>>
    var size: nat
    ghost var nodes: seq<Node<K, V>>
    ghost var starts: seq<nat>
    ghost var contents: map<K, V>

    ghost predicate Valid()
      reads this, buckets, nodes
    {
      && Chain(hash, buckets, nodes, starts) && Represents(nodes, contents) && size == |nodes| == |contents|
      && TableLength(buckets.Length) && size < 4 * buckets.Length
    }

    constructor (hash: K -> nat)
      ensures Valid() && this.hash == hash && contents == map[] && fresh(buckets) && fresh(nodes) && buckets.Length == 9
    {
      FirstLength();
      this.hash := hash;
      buckets := new Node?<K, V>[9](_ => null);
      size, nodes, starts, contents := 0, [], seq(9, _ => 0), map[];
    }

    /** The copy constructor: an equal map that shares nothing with the other. */
    constructor Copy(other: UnorderedMap<K, V>)
      requires other.Valid()
      ensures Valid() && hash == other.hash && contents == other.contents && fresh(buckets) && forall n :: n in nodes ==> fresh(n)
      ensures buckets.Length == other.buckets.Length
    {
      hash := other.hash;
      size, contents := other.size, other.contents;
      var fresh_ := new Node?<K, V>[other.buckets.Length](_ => null);
      ghost var copies, counts := CopyNodes(other.hash, other.buckets, other.nodes, other.starts, other.contents, fresh_);
      buckets, nodes, starts := fresh_, copies, counts;
    }

    /** The node of the key, or null exactly when the key is absent. */
    method Find(key: K) returns (r: Node?<K, V>)
      requires Valid()
      ensures r != null <==> key in contents
      ensures r != null ==> r in nodes && r.first == key && r.second == contents[key]
    {
      r := NodeFind(hash, key, buckets, nodes, starts);
    }

    /** Adds the pair unless the key is present; either way the returned node is the key's. */
    method Insert(key: K, value: V) returns (node: Node<K, V>, inserted: bool)
      requires Valid()
      modifies this, buckets, set n <- nodes
      ensures Valid() && inserted == (key !in old(contents))
      ensures contents == if inserted then old(contents)[key := value] else old(contents)
      ensures node in nodes && node.first == key
      ensures fresh(set n <- nodes | n !in old(nodes)) && (buckets == old(buckets) || fresh(buckets))
      ensures var nb := old(buckets).Length; buckets.Length == if inserted && size + 1 > 4 * nb then (nb - 1) * 8 + 1 else nb
    {
      hide Chain, Represents, Inserted, Bumped, TableLength;
      var found := Find(key);
      if found != null {
        return found, false;
      }
      node := new Node(key, value);
      inserted := true;
      ghost var after, counts := NodeInsert(hash, node, buckets, nodes, starts);
      RepresentsInsert(nodes, after, contents, node);
      nodes, starts := after, counts;
      contents := contents[key := value];
      size := size + 1;
      Rehash(buckets.Length);
    }

    /** Spreads the nodes over eight times as many buckets once the table is crowded. */
    method Rehash(nbuckets: nat)
      requires Chain(hash, buckets, nodes, starts) && Represents(nodes, contents) && size == |nodes| == |contents|
      requires TableLength(buckets.Length) && nbuckets == buckets.Length && size <= 4 * nbuckets
      modifies this`buckets, this`nodes, this`starts, (set n <- nodes)`next, (set n <- nodes)`prev
      ensures Valid() && contents == old(contents)
      ensures forall n :: n in nodes <==> n in old(nodes)
      ensures size + 1 <= 4 * nbuckets ==> buckets == old(buckets) && nodes == old(nodes)
      ensures size + 1 > 4 * nbuckets ==> fresh(buckets) && buckets.Length == (old(buckets).Length - 1) * 8 + 1
    {
      hide Linked, Ordered, Distinct, Represents, TableLength;
      if size + 1 > 4 * nbuckets {
        TableGrows(buckets.Length);
        ChainFacts(hash, buckets, nodes, starts);
        var root := buckets[0];
        var newBuckets := new Node?<K, V>[(buckets.Length - 1) * 8 + 1](_ => null);
        ghost var done, counts := MoveAll(root, newBuckets);
        SameMembers(nodes, done, contents);
        buckets, nodes, starts := newBuckets, done, counts;
      }
    }

    /** Re-inserts every node of the list into an empty array of buckets. */
    method MoveAll(first: Node?<K, V>, newBuckets: array<Node?<K, V>>) returns (ghost done: seq<Node<K, V>>, ghost counts: seq<nat>)
      requires Chain(hash, buckets, nodes, starts) && first == NodeAt(nodes, 0)
      requires newBuckets != buckets && newBuckets.Length >= 2 && forall b :: 0 <= b < newBuckets.Length ==> newBuckets[b] == null
      modifies newBuckets, (set n <- nodes)`next, (set n <- nodes)`prev
      ensures Chain(hash, newBuckets, done, counts)
      ensures |done| == |nodes| && forall n :: n in done <==> n in nodes
    {
      hide Ordered, Indexed, Chain;
      done, counts := [], seq(newBuckets.Length, _ => 0);
      EmptyChain(hash, newBuckets);
      ChainFacts(hash, buckets, nodes, starts);
      var root := first;
      ghost var j := 0;
      while root != null
        invariant j <= |nodes| && root == NodeAt(nodes, j)
        invariant |done| == j && forall n :: n in done <==> n in nodes[..j]
        invariant forall i {:trigger nodes[i].next} :: j <= i < |nodes| ==> nodes[i].next == NodeAt(nodes, i + 1)
        invariant Chain(hash, newBuckets, done, counts)
        decreases |nodes| - j
      {
        var next := root.next;
        root.next, root.prev := null, null;
        done, counts := NodeInsert(hash, root, newBuckets, done, counts);
        assert nodes[..j + 1] == nodes[..j] + [root];
        root, j := next, j + 1;
      }
      assert nodes[..j] == nodes;
    }

    /** Takes the node out; its key is gone and every other pair stays. */
    method Erase(where_: Node<K, V>)
      requires Valid() && where_ in nodes
      modifies this, buckets, set n <- nodes
      ensures Valid() && contents == old(contents) - {where_.first} && buckets == old(buckets)
      ensures forall n :: n in nodes <==> n in old(nodes) && n != where_
    {
      hide Linked, Ordered, Indexed, Represents, Distinct, TableLength, Removed;
      ghost var p :| 0 <= p < |nodes| && nodes[p] == where_;
      ghost var after := NodeErase(hash, where_, buckets, nodes, starts, p);
      RemovedMembers(nodes, p);
      RepresentsRemove(nodes, Removed(nodes, p), contents, where_);
      nodes, starts, contents := Removed(nodes, p), after, contents - {where_.first};
      size := size - 1;
    }

    method Clear()
      requires Valid()
      modifies this
      ensures Valid() && contents == map[] && fresh(buckets) && nodes == [] && buckets.Length == 9
    {
      FirstLength();
      buckets := new Node?<K, V>[9](_ => null);
      size, nodes, starts, contents := 0, [], seq(9, _ => 0), map[];
    }
  }

  // --- whole runs

  datatype Op<K, V> = Insert(key: K, value: V) | Erase(key: K) | Lookup(key: K)

  /** What an operation means on a plain map: the new map and the value the caller sees. */
  function Apply<K, V>(m: map<K, V>, op: Op<K, V>): (map<K, V>, Option<V>) {
    match op
    case Insert(k, v) => if k in m then (m, Some(m[k])) else (m[k := v], Some(v))
    case Erase(k) => if k in m then (m - {k}, Some(m[k])) else (m, None)
    case Lookup(k) => (m, if k in m then Some(m[k]) else None)
  }

  function ApplyAll<K, V>(m: map<K, V>, ops: seq<Op<K, V>>): (map<K, V>, seq<Option<V>>) {
    if ops == [] then (m, [])
    else
      var (m', seen) := ApplyAll(m, ops[..|ops| - 1]);
      var (m'', r) := Apply(m', ops[|ops| - 1]);
      (m'', seen + [r])
  }

  /** Every sequence of inserts, erases and lookups, with the rehashes they cause, answers as the plain map does. */
  method Run<K(==), V>(t: UnorderedMap<K, V>, ops: seq<Op<K, V>>) returns (seen: seq<Option<V>>)
    requires t.Valid()
    modifies t, t.buckets, set n <- t.nodes
    ensures t.Valid() && (t.contents, seen) == ApplyAll(old(t.contents), ops)
  {
    hide Chain, Represents, Apply;
    seen := [];
    var i := 0;
    while i < |ops|
      invariant 0 <= i <= |ops| && t.Valid() && (t.contents, seen) == ApplyAll(old(t.contents), ops[..i])
      invariant t.buckets == old(t.buckets) || fresh(t.buckets)
      invariant fresh(set n <- t.nodes | n !in old(t.nodes))
    {
      assert ops[..i + 1][..i] == ops[..i] && ops[..i + 1][i] == ops[i];
      var r := RunOne(t, ops[i]);
      seen, i := seen + [r], i + 1;
    }
    assert ops[..i] == ops;
  }

  method RunOne<K(==), V>(t: UnorderedMap<K, V>, op: Op<K, V>) returns (seen: Option<V>)
    requires t.Valid()
    modifies t, t.buckets, set n <- t.nodes
    ensures t.Valid() && (t.contents, seen) == Apply(old(t.contents), op)
    ensures t.buckets == old(t.buckets) || fresh(t.buckets)
    ensures fresh(set n <- t.nodes | n !in old(t.nodes))
  {
    hide Chain;
    match op {
      case Insert(k, v) =>
        var node, _ := t.Insert(k, v);
        seen := Some(node.second);
      case Erase(k) =>
        var node := t.Find(k);
        if node == null {
          seen := None;
        } else {
          seen := Some(node.second);
          t.Erase(node);
        }
      case Lookup(k) =>
        var node := t.Find(k);
        seen := if node == null then None else Some(node.second);
    }
  }

  lemma RemovedMembers<K, V>(nodes: seq<Node<K, V>>, p: nat)
    requires Distinct(nodes) && p < |nodes|
    ensures |Removed(nodes, p)| == |nodes| - 1 && forall n :: n in Removed(nodes, p) <==> n in nodes && n != nodes[p]
  {
    assert nodes == nodes[..p] + [nodes[p]] + nodes[p + 1..];
  }
}
