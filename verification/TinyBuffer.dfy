/** TinySTL's growable buffer: insertion of a range that may lie in the buffer itself. */
module TinyBuffer {

  /** What ends up at position `t` of the inserted block when the source is old[f..f + n] and the insertion point is `k`. */
  function Copied<T>(old_: seq<T>, k: nat, f: nat, t: nat): T
    requires f + t < |old_| && k <= |old_|
    decreases t
  {
    if k <= f || f + t < k then old_[f + t] else Copied(old_, k, f, t - (k - f))
  }

  function CopiedRange<T>(old_: seq<T>, k: nat, f: nat, n: nat): (r: seq<T>)
    requires f + n <= |old_| && k <= |old_|
    ensures |r| == n && forall t :: 0 <= t < n ==> r[t] == Copied(old_, k, f, t)
  {
    seq(n, t requires 0 <= t < n => Copied(old_, k, f, t))
  }

  /** The source range straddles the insertion point. */
  predicate Straddles(k: nat, f: nat, n: nat) {
    f < k < f + n
  }

  lemma NotStraddling<T>(old_: seq<T>, k: nat, f: nat, n: nat)
    requires f + n <= |old_| && k <= |old_| && !Straddles(k, f, n)
    ensures CopiedRange(old_, k, f, n) == old_[f..f + n]
  {
  }

  /** Self-insertion copies the source faithfully, for every content, exactly when the range does not straddle. */
  lemma SelfInsertExact(size: nat, k: nat, f: nat, n: nat)
    requires f + n <= size && k <= size
    ensures (forall s: seq<int> :: |s| == size ==> CopiedRange(s, k, f, n) == s[f..f + n]) <==> !Straddles(k, f, n)
  {
    if Straddles(k, f, n) {
      var s := seq(size, i => i);
      assert Copied(s, k, f, 0) == s[f] == f;
      assert CopiedRange(s, k, f, n)[k - f] == Copied(s, k, f, k - f) == f;
      assert s[f..f + n][k - f] == k;
      assert |s| == size && CopiedRange(s, k, f, n) != s[f..f + n];
    } else {
      forall s: seq<int> | |s| == size
        ensures CopiedRange(s, k, f, n) == s[f..f + n]
      {
        NotStraddling(s, k, f, n);
      }
    }
  }

  /** Two elements inserted between themselves: the first arrives twice. */
  lemma SelfInsertGarbles()
    ensures CopiedRange([7, 8], 1, 0, 2) == [7, 7] && [7, 8][0..2] == [7, 8]
  {
    assert Copied([7, 8], 1, 0, 0) == 7;
  }

  /** buffer_bmove_urange: moves a[k..end] up by `n`, from the right. */
  method ShiftRight<T>(a: array<T>, k: nat, end: nat, n: nat)
    requires k <= end && end + n <= a.Length
    modifies a
    ensures forall j :: 0 <= j < k ==> a[j] == old(a[j])
    ensures forall j :: k + n <= j < end + n ==> a[j] == old(a[j - n])
  {
    var i := end;
    while i > k
      invariant k <= i <= end
      invariant forall j :: 0 <= j < i ==> a[j] == old(a[j])
      invariant forall j :: i + n <= j < end + n ==> a[j] == old(a[j - n])
    {
      i := i - 1;
      a[i + n] := a[i];
    }
  }

  /** Moves a[j..end] down to `i`, from the left. */
  method ShiftLeft<T>(a: array<T>, i: nat, j: nat, end: nat)
    requires i <= j <= end <= a.Length
    modifies a
    ensures forall x :: 0 <= x < i ==> a[x] == old(a[x])
    ensures forall x :: i <= x < i + (end - j) ==> a[x] == old(a[x + (j - i)])
  {
    var it, dest := j, i;
    while it < end
      invariant j <= it <= end && dest == i + (it - j)
      invariant forall x :: 0 <= x < i ==> a[x] == old(a[x])
      invariant forall x :: i <= x < dest ==> a[x] == old(a[x + (j - i)])
      invariant forall x :: it <= x < end ==> a[x] == old(a[x])
    {
      a[dest] := a[it];
      it, dest := it + 1, dest + 1;
    }
  }

  /** The copying loop of a self-insertion, which reads what it has just written when the source straddles. */
  method CopySelf<T>(a: array<T>, k: nat, source: nat, f: nat, n: nat, size: nat, ghost was: seq<T>)
    requires k <= |was| && f + n <= |was| && size == |was| + n <= a.Length && source == if k <= f then f + n else f
    requires forall j :: 0 <= j < k ==> a[j] == was[j]
    requires forall j :: k + n <= j < size ==> a[j] == was[j - n]
    modifies a
    ensures forall j :: 0 <= j < k ==> a[j] == was[j]
    ensures forall j :: k + n <= j < size ==> a[j] == was[j - n]
    ensures forall j :: k <= j < k + n ==> a[j] == Copied(was, k, f, j - k)
  {
    var t := 0;
    while t < n
      invariant 0 <= t <= n
      invariant forall j :: 0 <= j < k ==> a[j] == was[j]
      invariant forall j :: k + n <= j < size ==> a[j] == was[j - n]
      invariant forall j :: k <= j < k + t ==> a[j] == Copied(was, k, f, j - k)
    {
      assert a[source + t] == Copied(was, k, f, t);
      a[k + t] := a[source + t];
      t := t + 1;
    }
  }

  lemma Opened<T>(now: seq<T>, was: seq<T>, k: nat, source: seq<T>)
    requires k <= |was| && |now| == |was| + |source|
    requires forall j {:trigger now[j]} :: 0 <= j < |now| ==>
               now[j] == if j < k then was[j] else if j < k + |source| then source[j - k] else was[j - |source|]
    ensures now == was[..k] + source + was[k..]
  {
  }

  lemma Closed<T>(now: seq<T>, was: seq<T>, i: nat, j: nat)
    requires i <= j <= |was| && |now| == |was| - (j - i)
    requires forall x {:trigger now[x]} :: 0 <= x < |now| ==> now[x] == if x < i then was[x] else was[x + (j - i)]
    ensures now == was[..i] + was[j..]
  {
  }

  lemma Assembled<T>(now: seq<T>, was: seq<T>, k: nat, f: nat, n: nat)
    requires k <= |was| && f + n <= |was| && |now| == |was| + n
    requires forall j {:trigger now[j]} :: 0 <= j < |now| ==>
               now[j] == if j < k then was[j] else if j < k + n then Copied(was, k, f, j - k) else was[j - n]
    ensures now == was[..k] + CopiedRange(was, k, f, n) + was[k..]
  {
    hide Copied;
  }

  class Buffer<T(0)> {
    var data: array<T>
    var size: nat

    ghost predicate Valid()
      reads this
    {
      size <= data.Length
    }

    ghost function Contents(): seq<T>
      reads this, data
      requires Valid()
    {
      data[..size]
    }

    constructor ()
      ensures Valid() && Contents() == [] && fresh(data) && data.Length == 0
    {
      data := new T[0];
      size := 0;
    }

    /** buffer_reserve: grows by moving everything to new storage. */
    method Reserve(capacity: nat)
      requires Valid()
      modifies this`data
      ensures Valid() && Contents() == old(Contents()) && capacity <= data.Length && (data == old(data) || fresh(data))
      ensures if capacity <= old(data.Length) then data == old(data) else fresh(data) && data.Length == capacity
    {
      if capacity <= data.Length {
        return;
      }
      var bigger := new T[capacity];
      var i := 0;
      while i < size
        invariant 0 <= i <= size && bigger[..i] == data[..i]
        modifies bigger
      {
        bigger[i] := data[i];
        i := i + 1;
      }
      data := bigger;
    }

    /** buffer_insert_common: makes room for `n` elements at `k`, shifting from the right. */
    method MakeRoom(k: nat, n: nat)
      requires Valid() && k <= size
      modifies this, data
      ensures Valid() && size == old(size) + n && (data == old(data) || fresh(data))
      ensures if size <= old(data.Length) then data == old(data) else fresh(data) && data.Length == size * 3 / 2
      ensures forall j :: 0 <= j < k ==> data[j] == old(Contents())[j]
      ensures forall j :: k + n <= j < size ==> data[j] == old(Contents())[j - n]
    {
      var newSize := size + n;
      if newSize > data.Length {
        Reserve(newSize * 3 / 2);
      }
      ghost var was := Contents();
      assert forall j :: 0 <= j < size ==> data[j] == was[j];
      ShiftRight(data, k, size, n);
      size := newSize;
    }

    /** buffer_insert from other storage. */
    method Insert(k: nat, source: seq<T>)
      requires Valid() && k <= size
      modifies this, data
      ensures Valid() && Contents() == old(Contents())[..k] + source + old(Contents())[k..]
    {
      var n := |source|;
      MakeRoom(k, n);
      ghost var was := old(Contents());
      var t := 0;
      while t < n
        invariant 0 <= t <= n && k + n <= size <= data.Length && size == |was| + n
        invariant forall j :: 0 <= j < k ==> data[j] == was[j]
        invariant forall j :: k + n <= j < size ==> data[j] == was[j - n]
        invariant forall j :: k <= j < k + t ==> data[j] == source[j - k]
        modifies data
      {
        data[k + t] := source[t];
        t := t + 1;
      }
      Opened(data[..size], was, k, source);
    }

    /** buffer_insert from [f, f + n) of this very buffer: the source is found again after the move. */
    method InsertSelf(k: nat, f: nat, n: nat)
      requires Valid() && k <= size && f + n <= size
      modifies this, data
      ensures Valid() && Contents() == old(Contents())[..k] + CopiedRange(old(Contents()), k, f, n) + old(Contents())[k..]
    {
      ghost var was := Contents();
      var source := if k <= f then f + n else f;
      MakeRoom(k, n);
      hide Copied, CopiedRange;
      CopySelf(data, k, source, f, n, size, was);
      Assembled(data[..size], was, k, f, n);
    }

    /** buffer_erase: closes the gap from the left. */
    method Erase(i: nat, j: nat)
      requires Valid() && i <= j <= size
      modifies this, data
      ensures Valid() && data == old(data) && Contents() == old(Contents())[..i] + old(Contents())[j..]
    {
      ghost var was := Contents();
      ShiftLeft(data, i, j, size);
      size := size - (j - i);
      Closed(data[..size], was, i, j);
    }
  }
}
