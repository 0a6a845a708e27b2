/** The priority queue of lib/pqueue.c: a binary heap in an array that tells its elements where
    they are through an update callback.  It refines a multiset with minimum extraction. */
module PriorityQueue {

  const PQUEUE_INIT_ARRAYSIZE := 32

  function Parent(i: nat): nat
    requires i > 0
  {
    (i - 1) / 2
  }

  function Left(i: nat): nat { 2 * i + 1 }

  function Right(i: nat): nat { 2 * i + 2 }

  /** cmp is a total preorder with consistent signs. */
  ghost predicate Ordering<T(!new)>(cmp: (T, T) -> int) {
    && (forall a, b :: cmp(a, b) < 0 <==> cmp(b, a) > 0)
    && (forall a, b, c :: cmp(a, b) <= 0 && cmp(b, c) <= 0 ==> cmp(a, c) <= 0)
  }

  /** No element comes before its parent. */
  ghost predicate Heap<T>(s: seq<T>, cmp: (T, T) -> int) {
    forall i | 0 < i < |s| :: cmp(s[Parent(i)], s[i]) <= 0
  }

  /** A heap but for element k, which may come before its parent. */
  ghost predicate HeapBut<T>(s: seq<T>, cmp: (T, T) -> int, k: nat) {
    && (forall i | 0 < i < |s| && i != k :: cmp(s[Parent(i)], s[i]) <= 0)
    && (k > 0 ==> forall i | 0 < i < |s| && Parent(i) == k :: Parent(k) < |s| && cmp(s[Parent(k)], s[i]) <= 0)
  }

  /** A heap but for element k, which may come after its children. */
  ghost predicate HeapAbove<T>(s: seq<T>, cmp: (T, T) -> int, k: nat) {
    && (forall i | 0 < i < |s| && Parent(i) != k :: cmp(s[Parent(i)], s[i]) <= 0)
    && (k > 0 ==> forall i | 0 < i < |s| && Parent(i) == k :: Parent(k) < |s| && cmp(s[Parent(k)], s[i]) <= 0)
  }

  function Swap<T>(s: seq<T>, i: nat, j: nat): (r: seq<T>)
    requires i < |s| && j < |s|
    ensures |r| == |s|
  {
    s[i := s[j]][j := s[i]]
  }

  lemma SwapAt<T>(s: seq<T>, i: nat, j: nat)
    requires i < |s| && j < |s|
    ensures forall x | 0 <= x < |s| :: Swap(s, i, j)[x] == if x == i then s[j] else if x == j then s[i] else s[x]
  {
  }

  lemma SwapPermutes<T>(s: seq<T>, i: nat, j: nat)
    requires i < |s| && j < |s|
    ensures multiset(Swap(s, i, j)) == multiset(s)
  {
  }

  /** Moving an element that comes before its parent up by one. */
  lemma SwapUp<T(!new)>(s: seq<T>, cmp: (T, T) -> int, k: nat)
    requires Ordering(cmp) && 0 < k < |s| && HeapBut(s, cmp, k) && cmp(s[k], s[Parent(k)]) < 0
    ensures HeapBut(Swap(s, k, Parent(k)), cmp, Parent(k))
  {
    var p := Parent(k);
    var r := Swap(s, k, p);
    forall i | 0 < i < |r| && i != p ensures cmp(r[Parent(i)], r[i]) <= 0 {
      if i != k && Parent(i) == p { assert cmp(s[p], s[i]) <= 0; }
    }
    if p > 0 {
      forall i | 0 < i < |r| && Parent(i) == p ensures cmp(r[Parent(p)], r[i]) <= 0 {
        assert cmp(s[Parent(p)], s[p]) <= 0;
        if i != k { assert cmp(s[p], s[i]) <= 0; }
      }
    }
  }

  /** Moving an element that comes after its smallest child down by one. */
  lemma SwapDown<T(!new)>(s: seq<T>, cmp: (T, T) -> int, k: nat, w: nat)
    requires Ordering(cmp) && 0 < w < |s| && Parent(w) == k && HeapAbove(s, cmp, k) && cmp(s[w], s[k]) <= 0
    requires forall i | 0 < i < |s| && Parent(i) == k :: cmp(s[w], s[i]) <= 0
    ensures HeapAbove(Swap(s, k, w), cmp, w)
  {
    var r := Swap(s, k, w);
    forall i | 0 < i < |r| && Parent(i) != w ensures cmp(r[Parent(i)], r[i]) <= 0 {
      if i == k { assert cmp(s[Parent(k)], s[w]) <= 0; }
    }
    forall i | 0 < i < |r| && Parent(i) == w ensures cmp(r[k], r[i]) <= 0 {
      assert cmp(s[w], s[i]) <= 0;
    }
  }

  lemma {:induction false} RootIsMinimum<T(!new)>(s: seq<T>, cmp: (T, T) -> int, i: nat)
    requires Ordering(cmp) && Heap(s, cmp) && i < |s|
    ensures cmp(s[0], s[i]) <= 0
    decreases i
  {
    if i > 0 { RootIsMinimum(s, cmp, Parent(i)); }
  }

  /** The last position reported for each element is its index. */
  ghost predicate Tracked<T>(s: seq<T>, reported: map<T, int>) {
    forall i | 0 <= i < |s| :: s[i] in reported && reported[s[i]] == i
  }

  /** As Tracked, but for the element at k, which is nowhere else. */
  ghost predicate TrackedBut<T>(s: seq<T>, reported: map<T, int>, k: nat) {
    k < |s| && forall i | 0 <= i < |s| && i != k :: s[i] in reported && reported[s[i]] == i && s[i] != s[k]
  }

  /** s without its element k, the last one taking its place. */
  function Without<T>(s: seq<T>, k: nat): (r: seq<T>)
    requires k < |s|
    ensures |r| == |s| - 1
  {
    s[k := s[|s| - 1]][..|s| - 1]
  }

  lemma WithoutRemoves<T>(s: seq<T>, k: nat)
    requires k < |s|
    ensures multiset(Without(s, k)) == multiset(s) - multiset{s[k]}
  {
    var n := |s| - 1;
    assert s == s[..n] + [s[n]];
    if k < n {
      assert Without(s, k) == s[..n][k := s[n]];
      assert multiset(s[..n][k := s[n]]) == multiset(s[..n]) - multiset{s[k]} + multiset{s[n]};
    } else {
      assert Without(s, k) == s[..n];
    }
  }

  /** Taking element k out leaves a heap but for position k. */
  lemma WithoutHeap<T(!new)>(s: seq<T>, cmp: (T, T) -> int, k: nat)
    requires Ordering(cmp) && Heap(s, cmp) && k < |s|
    ensures var r := Without(s, k);
            && (k == |r| ==> Heap(r, cmp))
            && (k < |r| && (k == 0 || cmp(r[Parent(k)], r[k]) <= 0) ==> HeapAbove(r, cmp, k))
            && (k == |r| && k > 0 ==> cmp(s[k], s[Parent(k)]) >= 0)
  {
    if k < |s| - 1 { ChildrenAfterParent(s, cmp, k); }
  }

  lemma WithoutHeapBut<T(!new)>(s: seq<T>, cmp: (T, T) -> int, k: nat)
    requires Ordering(cmp) && Heap(s, cmp) && 0 < k < |s| - 1
    requires var r := Without(s, k); cmp(r[k], r[Parent(k)]) < 0
    ensures HeapBut(Without(s, k), cmp, k)
  {
    var r := Without(s, k);
    ChildrenAfterParent(s, cmp, k);
    forall i | 0 < i < |r| && i != k ensures cmp(r[Parent(i)], r[i]) <= 0 {
      if Parent(i) == k { assert cmp(s[Parent(k)], r[i]) <= 0; }
    }
  }

  lemma ChildrenAfterParent<T(!new)>(s: seq<T>, cmp: (T, T) -> int, k: nat)
    requires Ordering(cmp) && Heap(s, cmp) && k < |s| - 1
    ensures var r := Without(s, k);
            k > 0 ==> forall i | 0 < i < |r| && Parent(i) == k :: cmp(s[Parent(k)], r[i]) <= 0
  {
    var r := Without(s, k);
    forall i | 0 < i < |r| && Parent(i) == k ensures k > 0 ==> cmp(s[Parent(k)], r[i]) <= 0 {
      assert cmp(s[k], s[i]) <= 0;
    }
  }

  lemma TrackedSwap<T>(s: seq<T>, reported: map<T, int>, k: nat, p: nat)
    requires TrackedBut(s, reported, k) && p < |s| && p != k
    ensures TrackedBut(Swap(s, k, p), reported[s[p] := k], p)
  {
    var r, reported' := Swap(s, k, p), reported[s[p] := k];
    forall i | 0 <= i < |r| && i != p ensures r[i] in reported' && reported'[r[i]] == i && r[i] != r[p] {
      if i != k { assert s[i] != s[p]; }
    }
  }

  /** Dropping element k keeps the others' positions, but for the one that takes its place. */
  lemma TrackedWithout<T>(s: seq<T>, reported: map<T, int>, k: nat)
    requires Tracked(s, reported) && k < |s|
    ensures k < |s| - 1 ==> TrackedBut(Without(s, k), reported, k)
    ensures k == |s| - 1 ==> Tracked(Without(s, k), reported) && forall i | 0 <= i < |s| - 1 :: s[i] != s[k]
  {
  }

  lemma SnocFacts<T(!new)>(s: seq<T>, x: T, cmp: (T, T) -> int, reported: map<T, int>)
    requires Heap(s, cmp)
    ensures HeapBut(s + [x], cmp, |s|) && multiset(s + [x]) == multiset(s) + multiset{x}
    ensures Tracked(s, reported) && x !in s ==> TrackedBut(s + [x], reported[x := |s|], |s|)
  {
  }

  /** An element at the top, or not before its parent, has risen far enough. */
  lemma Risen<T(!new)>(s: seq<T>, cmp: (T, T) -> int, k: nat)
    requires Ordering(cmp) && k < |s| && HeapBut(s, cmp, k) && (k == 0 || cmp(s[k], s[Parent(k)]) >= 0)
    ensures Heap(s, cmp)
  {
  }

  /** An element without children, or before its smaller child, has sunk far enough. */
  lemma Sunk<T(!new)>(s: seq<T>, cmp: (T, T) -> int, k: nat, w: nat)
    requires Ordering(cmp) && k < |s| && HeapAbove(s, cmp, k)
    requires Left(k) < |s| ==>
               w < |s| && cmp(s[w], s[k]) > 0 && forall i | 0 < i < |s| && Parent(i) == k :: cmp(s[w], s[i]) <= 0
    ensures Heap(s, cmp)
  {
    forall i | 0 < i < |s| ensures cmp(s[Parent(i)], s[i]) <= 0 {
      if Parent(i) == k { assert cmp(s[k], s[w]) <= 0; }
    }
  }

  lemma ReportedLast<T>(s: seq<T>, reported: map<T, int>, k: nat)
    requires TrackedBut(s, reported, k)
    ensures Tracked(s, reported[s[k] := k])
  {
  }

  /** What is reported about other elements does not matter. */
  lemma TrackedFrame<T>(s: seq<T>, reported: map<T, int>, x: T, i: int)
    requires Tracked(s, reported) && x !in s
    ensures Tracked(s, reported[x := i])
  {
  }

  lemma RootBeforeAll<T(!new)>(s: seq<T>, cmp: (T, T) -> int)
    requires Ordering(cmp) && Heap(s, cmp) && s != []
    ensures forall y | y in s :: cmp(s[0], y) <= 0
  {
    forall y | y in s ensures cmp(s[0], y) <= 0 {
      var i :| 0 <= i < |s| && s[i] == y;
      RootIsMinimum(s, cmp, i);
    }
  }

  /** All that is needed to restore the heap after element k is taken out. */
  lemma RemovalFacts<T(!new)>(s: seq<T>, cmp: (T, T) -> int, reported: map<T, int>, k: nat)
    requires Ordering(cmp) && Heap(s, cmp) && k < |s|
    ensures var r := Without(s, k);
            && multiset(r) == multiset(s) - multiset{s[k]}
            && (if k == |r| then
                  Heap(r, cmp) && (k > 0 ==> r[Parent(k)] == s[Parent(k)] && cmp(s[k], s[Parent(k)]) >= 0)
                else if k > 0 && cmp(r[k], r[Parent(k)]) < 0 then HeapBut(r, cmp, k)
                else HeapAbove(r, cmp, k))
            && (Tracked(s, reported) ==>
                  if k == |r| then Tracked(r, reported) && Tracked(r, reported[s[k] := k])
                  else TrackedBut(r, reported, k))
  {
    WithoutRemoves(s, k);
    WithoutHeap(s, cmp, k);
    var r := Without(s, k);
    if 0 < k < |r| && cmp(r[k], r[Parent(k)]) < 0 { WithoutHeapBut(s, cmp, k); }
    if Tracked(s, reported) {
      TrackedWithout(s, reported, k);
      if k == |s| - 1 { TrackedFrame(Without(s, k), reported, s[k], k); }
    }
  }

  ghost predicate Sorted<T>(s: seq<T>, cmp: (T, T) -> int) {
    forall i, j | 0 <= i < j < |s| :: cmp(s[i], s[j]) <= 0
  }

  ghost predicate AllBefore<T>(s: seq<T>, t: seq<T>, cmp: (T, T) -> int) {
    forall i, j | 0 <= i < |s| && 0 <= j < |t| :: cmp(s[i], t[j]) <= 0
  }

  lemma NothingSorted<T>(t: seq<T>, cmp: (T, T) -> int)
    ensures Sorted([], cmp) && AllBefore([], t, cmp)
  {
  }

  /** A minimum of what is left extends a sorted sequence. */
  lemma SortedSnoc<T>(out: seq<T>, before: seq<T>, x: T, after: seq<T>, cmp: (T, T) -> int)
    requires Sorted(out, cmp) && AllBefore(out, before, cmp) && x in before && forall y | y in before :: cmp(x, y) <= 0
    requires multiset(after) == multiset(before) - multiset{x}
    ensures Sorted(out + [x], cmp) && AllBefore(out + [x], after, cmp)
    ensures multiset(out + [x]) + multiset(after) == multiset(out) + multiset(before)
  {
    var k :| 0 <= k < |before| && before[k] == x;
    assert forall i | 0 <= i < |out| :: cmp(out[i], before[k]) <= 0;
    forall j | 0 <= j < |after| ensures after[j] in before {
      assert after[j] in multiset(after);
    }
    forall i, j | 0 <= i < |out + [x]| && 0 <= j < |after| ensures cmp((out + [x])[i], after[j]) <= 0 {
      var m :| 0 <= m < |before| && before[m] == after[j];
      if i < |out| { assert cmp(out[i], before[m]) <= 0; }
    }
  }

  class PQueue<T(==, 0, !new)> {
    const cmp: (T, T) -> int
    const hasUpdate: bool
    var array_: array<T>
    var size: nat
    var reported: map<T, int>    // what the update callback was last told, by element

    ghost predicate Valid()
      reads this, array_
    {
      size < array_.Length && Heap(Elements(), cmp)
    }

    ghost function Elements(): seq<T>
      reads this, array_
      requires size <= array_.Length
    {
      array_[..size]
    }

    constructor (cmp: (T, T) -> int, hasUpdate: bool)
      ensures Valid() && size == 0 && fresh(array_) && this.cmp == cmp && this.hasUpdate == hasUpdate
      ensures Tracked(Elements(), reported)
    {
      this.cmp, this.hasUpdate := cmp, hasUpdate;
      array_ := new T[PQUEUE_INIT_ARRAYSIZE];
      size, reported := 0, map[];
    }

    method Update(x: T, i: nat)
      modifies `reported
      ensures reported == if hasUpdate then old(reported)[x := i] else old(reported)
    {
      if hasUpdate { reported := reported[x := i]; }
    }

    /** Lets the element at `index` rise among the first n elements. */
    method TrickleUp(index: nat, ghost n: nat)
      requires Ordering(cmp) && index < n <= array_.Length && HeapBut(array_[..n], cmp, index)
      modifies array_, `reported
      ensures Heap(array_[..n], cmp) && multiset(array_[..n]) == multiset(old(array_[..n]))
      ensures hasUpdate && TrackedBut(old(array_[..n]), old(reported), index) ==> Tracked(array_[..n], reported)
    {
      hide Heap, HeapBut, Ordering, Tracked, TrackedBut, Swap;
      var tmp, i := array_[index], index;
      ghost var s := array_[..n];
      ghost var tracked := hasUpdate && TrackedBut(s, reported, index);
      while i > 0 && cmp(tmp, array_[Parent(i)]) < 0
        invariant i < n == |s| && s[i] == tmp && forall j | 0 <= j < n && j != i :: array_[j] == s[j]
        invariant HeapBut(s, cmp, i) && multiset(s) == multiset(old(array_[..n]))
        invariant tracked ==> TrackedBut(s, reported, i)
      {
        var p := Parent(i);
        SwapUp(s, cmp, i);
        SwapPermutes(s, i, p);
        SwapAt(s, i, p);
        if tracked { TrackedSwap(s, reported, i, p); }
        array_[i] := array_[p];
        Update(array_[i], i);
        s := Swap(s, i, p);
        i := p;
      }
      Risen(s, cmp, i);
      if tracked { ReportedLast(s, reported, i); }
      array_[i] := tmp;
      assert array_[..n] == s;
      Update(tmp, i);
    }

    /** Lets the element at `index` sink; past the end there is nothing to do. */
    method TrickleDown(index: nat)
      requires Ordering(cmp) && index <= size < array_.Length
      requires if index < size then HeapAbove(array_[..size], cmp, index) else Heap(array_[..size], cmp)
      modifies array_, `reported
      ensures Heap(array_[..size], cmp) && multiset(array_[..size]) == multiset(old(array_[..size]))
      ensures hasUpdate && index < size && TrackedBut(old(array_[..size]), old(reported), index) ==>
                Tracked(array_[..size], reported)
      ensures index == size ==>
                && array_[..size] == old(array_[..size])
                && reported == if hasUpdate then old(reported)[old(array_[size]) := size] else old(reported)
    {
      hide Heap, HeapAbove, Ordering, Tracked, TrackedBut;
      var tmp, i := array_[index], index;
      if index == size {
        Update(tmp, i);
        return;
      }
      ghost var s := array_[..size];
      ghost var tracked := hasUpdate && TrackedBut(s, reported, index);
      ghost var settled := false;
      while i < size / 2
        invariant i < size == |s| && s[i] == tmp && HeapAbove(s, cmp, i) && !settled
        invariant forall j | 0 <= j < size && j != i :: array_[j] == s[j]
        invariant multiset(s) == multiset(old(array_[..size]))
        invariant tracked ==> TrackedBut(s, reported, i)
        decreases size - i
      {
        var which := SmallerChild(i, s);
        if cmp(array_[which], tmp) > 0 {
          Sunk(s, cmp, i, which);
          settled := true;
          break;
        }
        SwapPermutes(s, i, which);
        SwapDown(s, cmp, i, which);
        if tracked { TrackedSwap(s, reported, i, which); }
        array_[i] := array_[which];
        Update(array_[i], i);
        s := Swap(s, i, which);
        i := which;
      }
      if !settled { Sunk(s, cmp, i, 0); }
      if tracked { ReportedLast(s, reported, i); }
      array_[i] := tmp;
      assert array_[..size] == s;
      Update(tmp, i);
    }

    /** The child to be moved up: the right one only if it comes strictly before the left. */
    method SmallerChild(i: nat, ghost s: seq<T>) returns (w: nat)
      requires Ordering(cmp) && i < size / 2 && size <= array_.Length
      requires |s| == size && forall j | 0 <= j < size && j != i :: array_[j] == s[j]
      ensures i < w < size && Parent(w) == i
      ensures forall j | 0 < j < |s| && Parent(j) == i :: cmp(s[w], s[j]) <= 0
    {
      assert forall j | 0 < j < size && Parent(j) == i :: j == Left(i) || j == Right(i);
      if Right(i) < size && cmp(array_[Left(i)], array_[Right(i)]) > 0 {
        w := Right(i);
      } else {
        w := Left(i);
      }
    }

    method Expand()
      requires size < array_.Length
      modifies `array_
      ensures fresh(array_) && array_.Length == 2 * old(array_.Length) && array_[..size] == old(array_[..size])
    {
      var newArray := new T[2 * array_.Length];
      var i := 0;
      while i < array_.Length
        invariant 0 <= i <= array_.Length && 2 * array_.Length == newArray.Length && fresh(newArray)
        invariant array_ == old(array_) && array_[..] == old(array_[..]) && newArray[..i] == array_[..i]
      {
        newArray[i] := array_[i];
        i := i + 1;
      }
      assert newArray[..size] == newArray[..i][..size];
      array_ := newArray;
    }

    method Enqueue(x: T)
      requires Valid() && Ordering(cmp)
      modifies this, array_
      ensures Valid() && (array_ == old(array_) || fresh(array_))
      ensures multiset(Elements()) == multiset(old(Elements())) + multiset{x}
      ensures hasUpdate && Tracked(old(Elements()), old(reported)) && x !in old(Elements()) ==>
                Tracked(Elements(), reported)
    {
      hide Heap, HeapBut, Ordering, Tracked, TrackedBut;
      SnocFacts(Elements(), x, cmp, reported);
      Append(x);
      Update(x, size);
      TrickleUp(size, size + 1);
      size := size + 1;
    }

    /** Stores x behind the heap, in a larger array if need be. */
    method Append(x: T)
      requires size < array_.Length
      modifies `array_, array_
      ensures (array_ == old(array_) || fresh(array_)) && size + 1 < array_.Length
      ensures array_[..size + 1] == old(array_[..size]) + [x]
    {
      if size + 2 >= array_.Length {
        Expand();
      }
      array_[size] := x;
    }

    /** Overwrites the element at `index` by the last one and shortens the heap. */
    method MoveLastTo(index: nat)
      requires index < size <= array_.Length
      modifies array_, `size
      ensures size == old(size) - 1 && array_[..size] == Without(old(array_[..size]), index)
      ensures index == size ==> array_[index] == old(array_[index])
    {
      size := size - 1;
      array_[index] := array_[size];
    }

    /** Removes and returns a minimum. */
    method Dequeue() returns (x: T)
      requires Valid() && Ordering(cmp) && size > 0
      modifies array_, `size, `reported
      ensures Valid() && x in old(Elements()) && forall y | y in old(Elements()) :: cmp(x, y) <= 0
      ensures multiset(Elements()) == multiset(old(Elements())) - multiset{x} && size == old(size) - 1
      ensures hasUpdate && Tracked(old(Elements()), old(reported)) ==> Tracked(Elements(), reported)
    {
      hide Heap, HeapAbove, Ordering, Tracked, TrackedBut, Without;
      ghost var s := Elements();
      RootBeforeAll(s, cmp);
      RemovalFacts(s, cmp, reported, 0);
      x := array_[0];
      assert x == s[0];
      MoveLastTo(0);
      TrickleDown(0);
    }

    /** Removes the element at `index`, wherever it is in the order. */
    method RemoveAt(index: nat)
      requires Valid() && Ordering(cmp) && index < size
      modifies array_, `size, `reported
      ensures Valid() && size == old(size) - 1
      ensures multiset(Elements()) == multiset(old(Elements())) - multiset{old(array_[index])}
      ensures hasUpdate && Tracked(old(Elements()), old(reported)) ==> Tracked(Elements(), reported)
    {
      hide Heap, HeapAbove, HeapBut, Ordering, Tracked, TrackedBut, Without;
      ghost var s := Elements();
      RemovalFacts(s, cmp, reported, index);
      MoveLastTo(index);
      if index > 0 && cmp(array_[index], array_[Parent(index)]) < 0 {
        TrickleUp(index, size);
      } else {
        TrickleDown(index);
      }
    }

    /** Emptying the queue yields its elements in order. */
    method Drain() returns (out: seq<T>)
      requires Valid() && Ordering(cmp)
      modifies array_, `size, `reported
      ensures multiset(out) == multiset(old(Elements())) && size == 0
      ensures Sorted(out, cmp)
    {
      hide Heap, Ordering, Sorted, AllBefore;
      NothingSorted(Elements(), cmp);
      out := [];
      while size > 0
        invariant Valid() && multiset(out) + multiset(Elements()) == multiset(old(Elements()))
        invariant Sorted(out, cmp) && AllBefore(out, Elements(), cmp)
        decreases size
      {
        ghost var before := Elements();
        var x := Dequeue();
        SortedSnoc(out, before, x, Elements(), cmp);
        out := out + [x];
      }
      assert Elements() == [];
    }
  }

  // ----- Whole runs -----

  datatype Op<T> = DoEnqueue(x: T) | DoDequeue | DoRemoveAt(index: nat)

  datatype Event<T> = Added(x: T) | Taken(x: T) | Removed(x: T)

  /** Nothing is taken from an empty queue or removed past its end. */
  predicate Possible<T>(size: nat, ops: seq<Op<T>>)
    decreases |ops|
  {
    ops == [] ||
    match ops[0]
    case DoEnqueue(_) => Possible(size + 1, ops[1..])
    case DoDequeue => size > 0 && Possible(size - 1, ops[1..])
    case DoRemoveAt(i) => i < size && Possible(size - 1, ops[1..])
  }

  /** The contents of a multiset after some events. */
  function After<T>(bag: multiset<T>, events: seq<Event<T>>): multiset<T> {
    if events == [] then bag
    else
      var before := After(bag, events[..|events| - 1]);
      match events[|events| - 1]
      case Added(x) => before + multiset{x}
      case Taken(x) => before - multiset{x}
      case Removed(x) => before - multiset{x}
  }

  /** Events of a priority queue on a multiset: a minimum is taken, an element is removed. */
  ghost predicate Lawful<T(!new)>(bag: multiset<T>, cmp: (T, T) -> int, events: seq<Event<T>>) {
    events == [] ||
    var earlier, last := events[..|events| - 1], events[|events| - 1];
    var before := After(bag, earlier);
    && Lawful(bag, cmp, earlier)
    && (last.Taken? ==> last.x in before && forall y | y in before :: cmp(last.x, y) <= 0)
    && (last.Removed? ==> last.x in before)
  }

  /** The event an operation gives rise to. */
  ghost predicate Answers<T>(op: Op<T>, e: Event<T>) {
    match op
    case DoEnqueue(x) => e == Added(x)
    case DoDequeue => e.Taken?
    case DoRemoveAt(_) => e.Removed?
  }

  /** Every element enqueued is new: not in the queue at first nor enqueued before. */
  ghost predicate AllNew<T>(first: seq<T>, ops: seq<Op<T>>) {
    && (forall i | 0 <= i < |ops| && ops[i].DoEnqueue? :: ops[i].x !in first)
    && (forall i, j | 0 <= i < j < |ops| && ops[i].DoEnqueue? && ops[j].DoEnqueue? :: ops[i].x != ops[j].x)
  }

  /** Elements come from the queue as it was at first or from an operation so far. */
  ghost predicate ComesFrom<T>(elements: seq<T>, first: seq<T>, ops: seq<Op<T>>) {
    forall y | y in elements :: y in first || Enqueued(y, ops)
  }

  ghost predicate Enqueued<T>(y: T, ops: seq<Op<T>>) {
    exists i | 0 <= i < |ops| :: ops[i] == DoEnqueue(y)
  }

  lemma LawfulGrows<T(!new)>(bag: multiset<T>, cmp: (T, T) -> int, events: seq<Event<T>>, e: Event<T>)
    requires Lawful(bag, cmp, events)
    requires var b := After(bag, events);
             && (e.Taken? ==> e.x in b && forall y | y in b :: cmp(e.x, y) <= 0) && (e.Removed? ==> e.x in b)
    ensures Lawful(bag, cmp, events + [e])
    ensures After(bag, events + [e])
         == if e.Added? then After(bag, events) + multiset{e.x} else After(bag, events) - multiset{e.x}
  {
    assert (events + [e])[..|events|] == events;
  }

  lemma ComesFromGrows<T>(before: seq<T>, after: seq<T>, first: seq<T>, ops: seq<Op<T>>, k: nat)
    requires k < |ops| && ComesFrom(before, first, ops[..k])
    requires multiset(after) <= multiset(before) + if ops[k].DoEnqueue? then multiset{ops[k].x} else multiset{}
    ensures ComesFrom(after, first, ops[..k + 1])
    ensures AllNew(first, ops) && ops[k].DoEnqueue? ==> ops[k].x !in before
  {
    forall y | y in after ensures y in first || Enqueued(y, ops[..k + 1]) {
      assert y in multiset(after);
      if y in before {
        if y !in first {
          var i :| 0 <= i < k && ops[..k][i] == DoEnqueue(y);
          assert ops[..k + 1][i] == DoEnqueue(y);
        }
      } else {
        assert ops[..k + 1][k] == DoEnqueue(y);
      }
    }
  }

  /** An operation with its event takes the elements from `before` to `after`. */
  ghost predicate Stepped<T(!new)>(before: seq<T>, cmp: (T, T) -> int, op: Op<T>, e: Event<T>, after: seq<T>) {
    var b := multiset(before);
    && Answers(op, e) && |after| == (if op.DoEnqueue? then |before| + 1 else |before| - 1)
    && (e.Taken? ==> e.x in b && forall y | y in b :: cmp(e.x, y) <= 0) && (e.Removed? ==> e.x in b)
    && multiset(after) == if e.Added? then b + multiset{e.x} else b - multiset{e.x}
  }

  /** One operation and the event it answers with. */
  method Perform<T(==, 0, !new)>(q: PQueue<T>, op: Op<T>) returns (e: Event<T>)
    requires q.Valid() && Ordering(q.cmp) && Possible(q.size, [op])
    modifies q, q.array_
    ensures q.Valid() && (q.array_ == old(q.array_) || fresh(q.array_))
    ensures Stepped(old(q.Elements()), q.cmp, op, e, q.Elements())
    ensures && q.hasUpdate && Tracked(old(q.Elements()), old(q.reported))
            && (op.DoEnqueue? ==> op.x !in old(q.Elements())) ==>
              Tracked(q.Elements(), q.reported)
  {
    hide Heap, Ordering, Tracked, Stepped, Possible;
    ghost var before := q.Elements();
    PossibleOne(q.size, op);
    match op {
      case DoEnqueue(x) =>
        q.Enqueue(x);
        e := Added(x);
        SteppedAdd(before, q.cmp, x, q.Elements());
      case DoDequeue =>
        var x := q.Dequeue();
        e := Taken(x);
        SteppedTake(before, q.cmp, x, q.Elements());
      case DoRemoveAt(i) =>
        e := Removed(q.array_[i]);
        assert before[i] == e.x;
        q.RemoveAt(i);
        SteppedRemove(before, q.cmp, i, q.Elements());
    }
  }

  lemma PossibleOne<T>(size: nat, op: Op<T>)
    requires Possible(size, [op])
    ensures !op.DoEnqueue? ==> size > 0
    ensures op.DoRemoveAt? ==> op.index < size
  {
  }

  lemma SteppedAdd<T(!new)>(before: seq<T>, cmp: (T, T) -> int, x: T, after: seq<T>)
    requires multiset(after) == multiset(before) + multiset{x}
    ensures Stepped(before, cmp, DoEnqueue(x), Added(x), after)
  {
    Sizes(before, after, x);
  }

  lemma SteppedTake<T(!new)>(before: seq<T>, cmp: (T, T) -> int, x: T, after: seq<T>)
    requires x in before && multiset(after) == multiset(before) - multiset{x}
    requires forall y | y in before :: cmp(x, y) <= 0
    ensures Stepped(before, cmp, DoDequeue, Taken(x), after)
  {
    assert x in multiset(before) && multiset(before) == multiset(after) + multiset{x};
    Sizes(after, before, x);
    forall y | y in multiset(before) ensures cmp(x, y) <= 0 { assert y in before; }
  }

  lemma SteppedRemove<T(!new)>(before: seq<T>, cmp: (T, T) -> int, i: nat, after: seq<T>)
    requires i < |before| && multiset(after) == multiset(before) - multiset{before[i]}
    ensures Stepped(before, cmp, DoRemoveAt(i), Removed(before[i]), after)
  {
    assert before[i] in multiset(before) && multiset(before) == multiset(after) + multiset{before[i]};
    Sizes(after, before, before[i]);
  }

  lemma Sizes<T>(before: seq<T>, after: seq<T>, x: T)
    requires multiset(after) == multiset(before) + multiset{x}
    ensures |after| == |before| + 1
  {
    assert |multiset(after)| == |after| && |multiset(before)| == |before|;
  }

  lemma PossibleFirst<T>(size: nat, ops: seq<Op<T>>)
    requires ops != [] && Possible(size, ops)
    ensures Possible(size, [ops[0]])
    ensures Possible(if ops[0].DoEnqueue? then size + 1 else size - 1, ops[1..])
  {
    assert [ops[0]][1..] == [];
  }

  /** A run of operations: its events are lawful for a multiset, which is what the queue holds, and
      if every element is new, the last position reported for each live element is its true one. */
  method Session<T(==, 0, !new)>(q: PQueue<T>, ops: seq<Op<T>>) returns (events: seq<Event<T>>)
    requires q.Valid() && Ordering(q.cmp) && Possible(q.size, ops)
    modifies q, q.array_
    ensures q.Valid() && |events| == |ops| && forall i | 0 <= i < |ops| :: Answers(ops[i], events[i])
    ensures Lawful(multiset(old(q.Elements())), q.cmp, events)
    ensures multiset(q.Elements()) == After(multiset(old(q.Elements())), events)
    ensures q.hasUpdate && Tracked(old(q.Elements()), old(q.reported)) && AllNew(old(q.Elements()), ops) ==>
              Tracked(q.Elements(), q.reported)
  {
    hide Heap, Ordering, Tracked, AllNew, Kept, Possible, Answers, Lawful, After, Stepped;
    ghost var first := q.Elements();
    ghost var tracked := q.hasUpdate && Tracked(first, q.reported) && AllNew(first, ops);
    events := [];
    var k := 0;
    Beginning(first, q.cmp, events, ops);
    while k < |ops|
      invariant 0 <= k <= |ops| && q.Valid() && (q.array_ == old(q.array_) || fresh(q.array_))
      invariant Kept(first, q.cmp, ops, k, events, q.Elements())
      invariant tracked ==> Tracked(q.Elements(), q.reported)
    {
      ghost var before := q.Elements();
      KeptNext(first, q.cmp, ops, k, events, before);
      var e := Perform(q, ops[k]);
      KeptGrows(first, q.cmp, ops, k, events, before, e, q.Elements());
      events := events + [e];
      k := k + 1;
    }
    KeptEnds(first, q.cmp, ops, events, q.Elements());
  }

  /** After k operations of a run: what the events and the elements satisfy. */
  ghost predicate Kept<T(!new)>(first: seq<T>, cmp: (T, T) -> int, ops: seq<Op<T>>, k: nat, events: seq<Event<T>>,
                                elements: seq<T>) {
    && k == |events| <= |ops| && Possible(|elements|, ops[k..])
    && (forall i | 0 <= i < k :: Answers(ops[i], events[i]))
    && Lawful(multiset(first), cmp, events) && multiset(elements) == After(multiset(first), events)
    && ComesFrom(elements, first, ops[..k])
  }

  lemma KeptNext<T(!new)>(first: seq<T>, cmp: (T, T) -> int, ops: seq<Op<T>>, k: nat, events: seq<Event<T>>,
                          elements: seq<T>)
    requires k < |ops| && Kept(first, cmp, ops, k, events, elements)
    ensures Possible(|elements|, [ops[k]])
    ensures AllNew(first, ops) && ops[k].DoEnqueue? ==> ops[k].x !in elements
  {
    hide Lawful, After, Answers;
    PossibleFirst(|elements|, ops[k..]);
    ComesFromGrows(elements, elements, first, ops, k);
  }

  lemma KeptGrows<T(!new)>(first: seq<T>, cmp: (T, T) -> int, ops: seq<Op<T>>, k: nat, events: seq<Event<T>>,
                           before: seq<T>, e: Event<T>, after: seq<T>)
    requires k < |ops| && Kept(first, cmp, ops, k, events, before) && Stepped(before, cmp, ops[k], e, after)
    ensures Kept(first, cmp, ops, k + 1, events + [e], after)
  {
    hide Lawful, After, Possible, ComesFrom, AllNew, Stepped, Answers;
    PossibleFirst(|before|, ops[k..]);
    assert ops[k..][1..] == ops[k + 1..] && ops[k..][0] == ops[k];
    SteppedFacts(before, cmp, ops[k], e, after);
    LawfulStep(first, cmp, events, before, ops[k], e, after);
    ComesFromStep(before, cmp, ops, k, e, after, first);
  }

  lemma LawfulStep<T(!new)>(first: seq<T>, cmp: (T, T) -> int, events: seq<Event<T>>, before: seq<T>, op: Op<T>,
                            e: Event<T>, after: seq<T>)
    requires Lawful(multiset(first), cmp, events) && multiset(before) == After(multiset(first), events)
    requires Stepped(before, cmp, op, e, after)
    ensures Lawful(multiset(first), cmp, events + [e]) && multiset(after) == After(multiset(first), events + [e])
  {
    hide Lawful, After, Answers;
    LawfulGrows(multiset(first), cmp, events, e);
  }

  lemma ComesFromStep<T(!new)>(before: seq<T>, cmp: (T, T) -> int, ops: seq<Op<T>>, k: nat, e: Event<T>, after: seq<T>,
                               first: seq<T>)
    requires k < |ops| && ComesFrom(before, first, ops[..k]) && Stepped(before, cmp, ops[k], e, after)
    ensures ComesFrom(after, first, ops[..k + 1])
  {
    hide ComesFrom, AllNew;
    ComesFromGrows(before, after, first, ops, k);
  }

  lemma KeptEnds<T(!new)>(first: seq<T>, cmp: (T, T) -> int, ops: seq<Op<T>>, events: seq<Event<T>>, elements: seq<T>)
    requires Kept(first, cmp, ops, |ops|, events, elements)
    ensures |events| == |ops| && forall i | 0 <= i < |ops| :: Answers(ops[i], events[i])
    ensures Lawful(multiset(first), cmp, events) && multiset(elements) == After(multiset(first), events)
  {
  }

  lemma SteppedFacts<T(!new)>(before: seq<T>, cmp: (T, T) -> int, op: Op<T>, e: Event<T>, after: seq<T>)
    requires Stepped(before, cmp, op, e, after)
    ensures Answers(op, e) && |after| == if op.DoEnqueue? then |before| + 1 else |before| - 1
  {
  }

  lemma Beginning<T(!new)>(first: seq<T>, cmp: (T, T) -> int, events: seq<Event<T>>, ops: seq<Op<T>>)
    requires events == [] && Possible(|first|, ops)
    ensures Kept(first, cmp, ops, 0, events, first)
  {
    assert ops[0..] == ops;
  }
}
