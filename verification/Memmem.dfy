/** The near allocator's byte search, which never backtracks. */
module Memmem {
  import opened Options

  predicate OccursAt<T(==)>(h: seq<T>, needle: seq<T>, i: nat) {
    i + |needle| <= |h| && h[i..i + |needle|] == needle
  }

  /** `r` is where the needle first occurs, or None when it does not occur. */
  ghost predicate IsFirst<T>(h: seq<T>, needle: seq<T>, r: Option<nat>) {
    match r
    case Some(i) => OccursAt(h, needle, i) && forall j: nat :: j < i ==> !OccursAt(h, needle, j)
    case None => forall j: nat :: !OccursAt(h, needle, j)
  }

  /** All elements are the same. */
  predicate Constant<T(==)>(needle: seq<T>) {
    forall i {:trigger needle[i]} :: 0 <= i < |needle| ==> needle[i] == needle[0]
  }

  /** The search with the cursor at `pos` and `m` elements of the needle matched just before it. */
  function SearchFrom<T(==)>(h: seq<T>, needle: seq<T>, pos: nat, m: nat): Option<nat>
    requires m <= pos <= |h| && m <= |needle|
    decreases |h| - pos
  {
    if m == |needle| then Some(pos - m)
    else if |needle| - m > |h| - pos then None
    else if h[pos] == needle[m] then SearchFrom(h, needle, pos + 1, m + 1)
    else SearchFrom(h, needle, pos + 1, 0)
  }

  function Search<T(==)>(h: seq<T>, needle: seq<T>): Option<nat> {
    SearchFrom(h, needle, 0, 0)
  }

  /** memmem_impl, step by step: `l` counts what is left of the needle and `left` of the haystack. */
  method MemMem<T(==)>(h: seq<T>, needle: seq<T>) returns (r: Option<nat>)
    ensures r == Search(h, needle)
  {
    var hp, np, l, left, start := 0, 0, |needle|, |h|, 0;
    while l != 0 && l <= left
      invariant 0 <= left && 0 <= l && 0 <= np && 0 <= start
      invariant hp + left == |h| && np + l == |needle| && start + np == hp
      invariant SearchFrom(h, needle, hp, np) == Search(h, needle)
      decreases left
    {
      if h[hp] != needle[np] {
        hp := hp + 1;
        start, np, l := hp, 0, |needle|;
      } else {
        hp, np, l := hp + 1, np + 1, l - 1;
      }
      left := left - 1;
    }
    r := if l == 0 then Some(start) else None;
  }

  lemma OccursElement<T>(h: seq<T>, needle: seq<T>, i: nat, pos: nat)
    requires i <= pos < i + |needle| && Constant(needle)
    ensures OccursAt(h, needle, i) ==> pos < |h| && h[pos] == needle[0]
  {
    if OccursAt(h, needle, i) {
      assert h[i..i + |needle|][pos - i] == needle[pos - i];
    }
  }

  lemma {:induction false} SearchConstant<T>(h: seq<T>, needle: seq<T>, pos: nat, m: nat)
    requires m <= pos <= |h| && m <= |needle| && Constant(needle)
    requires forall k :: pos - m <= k < pos ==> needle != [] && h[k] == needle[0]
    requires forall j: nat :: j < pos - m ==> !OccursAt(h, needle, j)
    ensures IsFirst(h, needle, SearchFrom(h, needle, pos, m))
    decreases |h| - pos
  {
    if m == |needle| {
      assert h[pos - m..pos] == needle;
    } else if |needle| - m <= |h| - pos {
      assert needle[m] == needle[0];
      if h[pos] == needle[m] {
        SearchConstant(h, needle, pos + 1, m + 1);
      } else {
        forall j: nat | j < pos + 1
          ensures !OccursAt(h, needle, j)
        {
          if j >= pos - m {
            OccursElement(h, needle, j, pos);
          }
        }
        SearchConstant(h, needle, pos + 1, 0);
      }
    }
  }

  /** The needle behind one more copy of its first element is missed when element `k` is the first that differs. */
  lemma {:induction false} SearchMisses<T>(needle: seq<T>, k: nat, pos: nat)
    requires pos <= k < |needle| && needle[k] != needle[0] && forall i :: 0 <= i < k ==> needle[i] == needle[0]
    ensures SearchFrom([needle[0]] + needle, needle, pos, pos).None?
    decreases k - pos
  {
    var h := [needle[0]] + needle;
    assert h[pos] == needle[0];
    if pos == k {
    } else {
      SearchMisses(needle, k, pos + 1);
    }
  }

  /** Not backtracking is right for every haystack exactly when the needle repeats one element. */
  lemma SearchExact<T(!new)>(needle: seq<T>)
    ensures (forall h: seq<T> :: IsFirst(h, needle, Search(h, needle))) <==> Constant(needle)
  {
    if Constant(needle) {
      forall h: seq<T>
        ensures IsFirst(h, needle, Search(h, needle))
      {
        SearchConstant(h, needle, 0, 0);
      }
    } else {
      var k := FirstDifference(needle);
      var h := [needle[0]] + needle;
      SearchMisses(needle, k, 0);
      assert h[1..1 + |needle|] == needle;
      assert OccursAt(h, needle, 1);
      assert !IsFirst(h, needle, Search(h, needle));
    }
  }

  lemma FirstDifference<T>(needle: seq<T>) returns (k: nat)
    requires !Constant(needle)
    ensures 0 < k < |needle| && needle[k] != needle[0] && forall i :: 0 <= i < k ==> needle[i] == needle[0]
  {
    k := 0;
    while needle[k] == needle[0]
      invariant k < |needle| && forall i :: 0 <= i < k ==> needle[i] == needle[0]
      decreases |needle| - k
    {
      k := k + 1;
    }
  }
}
