/** The doubly linked list of lib/linklist.c with its optional comparison. */
module LinkLists {
  import opened Sequences

  class Node<T> {
    const data: T
    var next: Node?<T>
    var prev: Node?<T>

    constructor (data: T)
      ensures this.data == data
    {
      this.data := data;
      next, prev := null, null;
    }
  }

  datatype Comparison<!T> = Unordered | By(cmp: (T, T) -> int)

  /** Where a new value goes: before the first it compares less than, or last. */
  function Place<T>(order: Comparison<T>, values: seq<T>, val: T): (k: nat)
    ensures k <= |values|
  {
    if order.Unordered? then |values|
    else if values == [] || order.cmp(val, values[0]) < 0 then 0
    else 1 + Place(order, values[1..], val)
  }

  lemma {:induction false} PlaceMeans<T>(order: Comparison<T>, values: seq<T>, val: T, k: nat)
    requires order.By? && k <= |values|
    requires forall i | 0 <= i < k :: order.cmp(val, values[i]) >= 0
    requires k < |values| ==> order.cmp(val, values[k]) < 0
    ensures Place(order, values, val) == k
    decreases k
  {
    if k > 0 {
      assert order.cmp(val, values[0]) >= 0;
      PlaceMeans(order, values[1..], val, k - 1);
    }
  }

  lemma {:induction false} PlaceIs<T>(order: Comparison<T>, values: seq<T>, val: T)
    requires order.By?
    ensures var k := Place(order, values, val);
            && (forall i | 0 <= i < k :: order.cmp(val, values[i]) >= 0)
            && (k < |values| ==> order.cmp(val, values[k]) < 0)
  {
    if values != [] && order.cmp(val, values[0]) >= 0 {
      PlaceIs(order, values[1..], val);
      forall i | 0 <= i < Place(order, values, val) ensures order.cmp(val, values[i]) >= 0 {
        if i > 0 { assert values[1..][i - 1] == values[i]; }
      }
    }
  }

  ghost predicate Sorted<T>(leq: (T, T) -> bool, values: seq<T>) {
    forall i, j | 0 <= i < j < |values| :: leq(values[i], values[j])
  }

  /** The comparison decides a transitive order: less means at most, not less means at least. */
  ghost predicate Decides<T(!new)>(order: Comparison<T>, leq: (T, T) -> bool) {
    && order.By?
    && (forall x, y :: if order.cmp(x, y) < 0 then leq(x, y) else leq(y, x))
    && (forall x, y, z :: leq(x, y) && leq(y, z) ==> leq(x, z))
  }

  /** Inserting at the place keeps the list sorted, whatever values it holds already. */
  lemma InsertKeepsSorted<T(!new)>(order: Comparison<T>, leq: (T, T) -> bool, values: seq<T>, val: T)
    requires Decides(order, leq) && Sorted(leq, values)
    ensures Sorted(leq, WithIndex(values, Place(order, values, val), val))
  {
    hide Place;
    var k := Place(order, values, val);
    PlaceIs(order, values, val);
    forall i | 0 <= i < k ensures leq(values[i], val) { assert order.cmp(val, values[i]) >= 0; }
    forall i | k <= i < |values| ensures leq(val, values[i]) {
      assert leq(val, values[k]);
      assert i > k ==> leq(values[k], values[i]);
    }
  }

  function At<T>(spine: seq<Node<T>>, i: int): Node?<T> {
    if 0 <= i < |spine| then spine[i] else null
  }

  ghost predicate Linked<T>(spine: seq<Node<T>>)
    reads spine`next, spine`prev
  {
    && (forall i, j | 0 <= i < j < |spine| && j == i + 1 :: spine[i].next == spine[j] && spine[j].prev == spine[i])
    && (spine != [] ==> spine[0].prev == null && spine[|spine| - 1].next == null)
  }

  lemma Neighbours<T>(spine: seq<Node<T>>, k: nat)
    requires Linked(spine) && k < |spine|
    ensures spine[k].next == At(spine, k + 1) && spine[k].prev == At(spine, k - 1)
  {
  }

  /** Once a node is joined to its neighbours, the spine with it before node k is linked. */
  lemma Threaded<T>(spine: seq<Node<T>>, k: nat, node: Node<T>)
    requires k < |spine| && NoRepeats(spine) && node !in spine
    requires node.next == spine[k] && spine[k].prev == node && node.prev == At(spine, k - 1)
    requires if k > 0 then spine[k - 1].next == node && spine[0].prev == null else true
    requires spine[|spine| - 1].next == null
    requires forall i, j | 0 <= i < j < |spine| && j == i + 1 && j != k ::
               spine[i].next == spine[j] && spine[j].prev == spine[i]
    ensures Linked(WithIndex(spine, k, node)) && NoRepeats(WithIndex(spine, k, node))
    ensures At(WithIndex(spine, k, node), 0) == if k == 0 then node else spine[0]
    ensures At(WithIndex(spine, k, node), |spine|) == spine[|spine| - 1]
  {
  }

  function Values<T>(spine: seq<Node<T>>): (values: seq<T>)
    ensures |values| == |spine|
  {
    seq(|spine|, i requires 0 <= i < |spine| => spine[i].data)
  }

  class List<T(==)> {
    var head: Node?<T>
    var tail: Node?<T>
    var count: int
    const order: Comparison<T>
    ghost var spine: seq<Node<T>>

    /** The links spell out the spine in both directions and the count is exact. */
    ghost predicate Valid()
      reads this, spine`next, spine`prev
    {
      && head == At(spine, 0) && tail == At(spine, |spine| - 1) && count == |spine|
      && Linked(spine) && NoRepeats(spine)
    }

    constructor (order: Comparison<T>)
      ensures Valid() && spine == [] && this.order == order
    {
      this.order := order;
      head, tail, count, spine := null, null, 0, [];
    }

    method LinkLast(node: Node<T>)
      requires Valid() && node !in spine && node.next == null
      modifies this, spine`next, node`prev
      ensures Valid() && spine == WithIndex(old(spine), |old(spine)|, node)
    {
      node.prev := tail;
      if tail != null {
        tail.next := node;
      } else {
        head := node;
      }
      tail := node;
      count := count + 1;
      spine := WithIndex(spine, |spine|, node);
    }

    method LinkBefore(node: Node<T>, n: Node<T>, ghost k: nat)
      requires Valid() && k < |spine| && n == spine[k] && node !in spine
      modifies this, spine`next, spine`prev, node`next, node`prev
      ensures Valid() && spine == WithIndex(old(spine), k, node)
    {
      hide WithIndex;
      Neighbours(spine, k);
      node.next := n;
      node.prev := n.prev;
      if n.prev != null {
        n.prev.next := node;
      } else {
        head := node;
      }
      n.prev := node;
      count := count + 1;
      Threaded(spine, k, node);
      spine := WithIndex(spine, k, node);
    }

    method Unlink(node: Node<T>, ghost k: nat)
      requires Valid() && k < |spine| && spine[k] == node
      modifies this, spine`next, spine`prev
      ensures Valid() && spine == WithoutIndex(old(spine), k)
    {
      Neighbours(spine, k);
      if node.prev != null {
        node.prev.next := node.next;
      } else {
        head := node.next;
      }
      if node.next != null {
        node.next.prev := node.prev;
      } else {
        tail := node.prev;
      }
      count := count - 1;
      spine := WithoutIndex(spine, k);
    }

    method Add(val: T)
      requires Valid()
      modifies this, spine`next
      ensures Valid() && Values(spine) == old(Values(spine)) + [val]
      ensures forall i | 0 <= i < |spine| :: spine[i] in old(spine) || fresh(spine[i])
    {
      hide Linked, NoRepeats;
      var node := new Node(val);
      node.next := null;
      LinkLast(node);
    }

    /** The first node the value compares less than. */
    method FindPlace(val: T) returns (n: Node?<T>, ghost k: nat)
      requires Valid()
      ensures k == Place(order, Values(spine), val) && n == At(spine, k)
    {
      hide Place, Linked, NoRepeats;
      if order.Unordered? {
        Unplaced(order, Values(spine), val);
        n, k := null, |spine|;
        return;
      }
      n, k := head, 0;
      while n != null && order.cmp(val, n.data) >= 0
        invariant 0 <= k <= |spine| && n == At(spine, k)
        invariant forall i | 0 <= i < k :: order.cmp(val, spine[i].data) >= 0
        decreases |spine| - k
      {
        Neighbours(spine, k);
        n, k := n.next, k + 1;
      }
      PlaceMeans(order, Values(spine), val, k);
    }

    method AddSort(val: T)
      requires Valid()
      modifies this, spine`next, spine`prev
      ensures Valid() && Values(spine) == WithIndex(old(Values(spine)), Place(order, old(Values(spine)), val), val)
      ensures forall i | 0 <= i < |spine| :: spine[i] in old(spine) || fresh(spine[i])
    {
      hide Linked, NoRepeats, Place;
      var n, k := FindPlace(val);
      var node := new Node(val);
      node.next := null;
      if n != null {
        LinkBefore(node, n, k);
      } else {
        LinkLast(node);
      }
    }

    /** The first node that holds the value. */
    method Lookup(val: T) returns (node: Node?<T>, ghost k: nat)
      requires Valid()
      ensures k <= |spine| && node == At(spine, k) && (k < |spine| ==> spine[k].data == val)
      ensures forall i | 0 <= i < k :: spine[i].data != val
    {
      hide Linked, NoRepeats;
      node, k := head, 0;
      while node != null && node.data != val
        invariant 0 <= k <= |spine| && node == At(spine, k) && forall i | 0 <= i < k :: spine[i].data != val
        decreases |spine| - k
      {
        Neighbours(spine, k);
        node, k := node.next, k + 1;
      }
    }

    /** Deletes the first node that holds the value, if any. */
    method Delete(val: T) returns (ghost k: nat)
      requires Valid()
      modifies this, spine`next, spine`prev
      ensures Valid() && k <= |old(spine)| && forall i | 0 <= i < k :: old(spine)[i].data != val
      ensures if k < |old(spine)| then old(spine)[k].data == val && spine == WithoutIndex(old(spine), k)
              else spine == old(spine)
    {
      hide Linked, NoRepeats, WithoutIndex;
      var node;
      node, k := Lookup(val);
      if node != null {
        Unlink(node, k);
      }
    }
  }

  lemma Unplaced<T>(order: Comparison<T>, values: seq<T>, val: T)
    requires order.Unordered?
    ensures Place(order, values, val) == |values|
  {
  }
}
