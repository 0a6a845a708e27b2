/** Prefix lists (lib/plist.c): an ascending, doubly linked list of policies whose first match
    decides, its entries' installation and deletion, and the named lists they live in. */
module PrefixLists {
  import opened Prefixes
  import opened Sequences

  /** What an entry says. A length bound of zero is absent. */
  datatype Item = Item(seqno: int, le: int, ge: int, permit: bool, prefix: Prefix)

  predicate GoodItem(x: Item) {
    WellFormed(x.prefix)
  }

  predicate GoodItems(items: seq<Item>) {
    forall i | 0 <= i < |items| :: GoodItem(items[i])
  }

  // ----- Matching -----

  predicate Matches(x: Item, p: Prefix)
    requires GoodItem(x) && WellFormed(p)
  {
    && Contains(x.prefix, p)
    && if x.le == 0 && x.ge == 0 then x.prefix.prefixlen == p.prefixlen
       else (x.le != 0 ==> p.prefixlen <= x.le) && (x.ge != 0 ==> p.prefixlen >= x.ge)
  }

  /** Dropping an upper bound at the maximum length changes no match when there is a lower one. */
  lemma RewriteKeepsMeaning(x: Item, max: nat, p: Prefix)
    requires GoodItem(x) && WellFormed(p) && p.prefixlen <= max && max > 0 && x.ge != 0 && x.le == max
    ensures Matches(x, p) <==> Matches(x.(le := 0), p)
  {
    hide Contains;
  }

  /** Without a lower bound it would: exactly the longer prefixes would be lost. */
  lemma RewriteNeedsGe(x: Item, max: nat, p: Prefix)
    requires GoodItem(x) && WellFormed(p) && max > 0 && x.ge == 0 && x.le == max && x.prefix.prefixlen < max
    ensures Matches(x.(le := 0), p) ==> Matches(x, p)
    ensures Matches(x, p) && !Matches(x.(le := 0), p)
            <==> Contains(x.prefix, p) && x.prefix.prefixlen < p.prefixlen <= max
  {
    hide Agree;
  }

  /** The bounds must satisfy length < ge <= le, those that are given. */
  predicate InRange(x: Item) {
    && (x.ge != 0 ==> x.ge > x.prefix.prefixlen)
    && (x.le != 0 ==> x.le > x.prefix.prefixlen)
    && (x.le != 0 ==> x.ge <= x.le)
  }

  /** An entry that may be installed matches the prefixes its network contains whose lengths lie in
      an interval: from ge, or its own length, up to le, or the longest with ge alone, or its own. */
  lemma MatchesInterval(x: Item, p: Prefix)
    requires GoodItem(x) && WellFormed(p) && InRange(x)
    ensures var lo := if x.ge != 0 then x.ge else x.prefix.prefixlen;
            var hi := if x.le != 0 then x.le else if x.ge != 0 then 8 * ByteLength(p.family) else x.prefix.prefixlen;
            Matches(x, p) <==> Contains(x.prefix, p) && lo <= p.prefixlen <= hi
  {
    hide Agree;
  }

  // ----- First match -----

  /** The index of the first entry that matches, or the length. */
  function FirstMatch(items: seq<Item>, p: Prefix): (k: nat)
    requires GoodItems(items) && WellFormed(p)
    ensures k <= |items|
  {
    if items == [] || Matches(items[0], p) then 0 else 1 + FirstMatch(items[1..], p)
  }

  lemma {:induction false} FirstMatchMeans(items: seq<Item>, p: Prefix)
    requires GoodItems(items) && WellFormed(p)
    ensures var k := FirstMatch(items, p);
            && (forall i | 0 <= i < k :: !Matches(items[i], p))
            && (k < |items| ==> Matches(items[k], p))
  {
    hide Matches;
    if items != [] && !Matches(items[0], p) {
      FirstMatchMeans(items[1..], p);
      var k := FirstMatch(items[1..], p);
      forall i | 0 <= i < 1 + k ensures !Matches(items[i], p) {
        if i > 0 { assert items[1..][i - 1] == items[i]; }
      }
    }
  }

  /** Whether a list lets a prefix through; an empty list lets everything through. */
  predicate Permits(items: seq<Item>, p: Prefix)
    requires GoodItems(items) && WellFormed(p)
  {
    items == [] || (FirstMatch(items, p) < |items| && items[FirstMatch(items, p)].permit)
  }

  /** The matching entry with the lowest sequence number decides. */
  lemma LowestMatchDecides(items: seq<Item>, p: Prefix, k: nat)
    requires GoodItems(items) && Ascending(items) && WellFormed(p) && k < |items| && Matches(items[k], p)
    requires forall i | 0 <= i < |items| && Matches(items[i], p) :: items[k].seqno <= items[i].seqno
    ensures Permits(items, p) == items[k].permit
  {
    hide Matches;
    FirstMatchMeans(items, p);
    var f := FirstMatch(items, p);
    assert f <= k;
  }

  /** A prefix no entry of a non-empty list matches is denied. */
  lemma NoMatchDenies(items: seq<Item>, p: Prefix)
    requires GoodItems(items) && WellFormed(p) && items != []
    requires forall i | 0 <= i < |items| :: !Matches(items[i], p)
    ensures !Permits(items, p)
  {
    hide Matches;
    FirstMatchMeans(items, p);
  }

  // ----- Order and policies -----

  predicate Ascending(items: seq<Item>) {
    forall i, j | 0 <= i < j < |items| :: items[i].seqno < items[j].seqno
  }

  predicate SamePolicy(x: Item, y: Item)
    requires GoodItem(x) && GoodItem(y)
  {
    Same(x.prefix, y.prefix) && x.permit == y.permit && x.le == y.le && x.ge == y.ge
  }

  /** Policies of a known family are the same exactly when all but the numbers agree. */
  lemma SamePolicyMeans(x: Item, y: Item)
    requires GoodItem(x) && GoodItem(y) && !x.prefix.family.Other?
    ensures SamePolicy(x, y) <==> x.(seqno := 0) == y.(seqno := 0)
  {
  }

  /** No two entries state the same policy. */
  predicate Distinct(items: seq<Item>)
    requires GoodItems(items)
  {
    forall i, j | 0 <= i < j < |items| :: !SamePolicy(items[i], items[j])
  }

  /** What every operation keeps. */
  predicate Proper(items: seq<Item>) {
    GoodItems(items) && Ascending(items) && Distinct(items)
  }

  /** Another entry, under another number, states x's policy. */
  predicate Duplicate(items: seq<Item>, x: Item)
    requires GoodItems(items) && GoodItem(x)
  {
    exists i | 0 <= i < |items| :: SamePolicy(items[i], x) && items[i].seqno != x.seqno
  }

  /** How many entries precede sequence number s. */
  function Rank(items: seq<Item>, s: int): (k: nat)
    ensures k <= |items|
    ensures forall i | 0 <= i < k :: items[i].seqno < s
    ensures k < |items| ==> items[k].seqno >= s
  {
    if items == [] || items[0].seqno >= s then 0 else 1 + Rank(items[1..], s)
  }

  /** x takes its place, and the place of an entry with its number. */
  function Inserted(items: seq<Item>, x: Item): seq<Item> {
    var k := Rank(items, x.seqno);
    if k < |items| && items[k].seqno == x.seqno then items[k := x] else WithIndex(items, k, x)
  }

  lemma InsertedIsProper(items: seq<Item>, x: Item)
    requires Proper(items) && GoodItem(x) && !Duplicate(items, x)
    ensures Proper(Inserted(items, x))
  {
    hide Rank, SamePolicy, GoodItem;
    var r, k := Inserted(items, x), Rank(items, x.seqno);
    assert forall i | 0 <= i < |items| && items[i].seqno != x.seqno :: !SamePolicy(items[i], x);
    forall i | 0 <= i < |items| ensures SamePolicy(items[i], x) == SamePolicy(x, items[i]) {
      PolicySymmetric(items[i], x);
    }
  }

  lemma PolicySymmetric(x: Item, y: Item)
    requires GoodItem(x) && GoodItem(y)
    ensures SamePolicy(x, y) == SamePolicy(y, x)
  {
  }

  /** Insertion adds x, drops an entry with its number and keeps every other entry. */
  lemma InsertedHolds(items: seq<Item>, x: Item, y: Item)
    requires Ascending(items)
    ensures y in Inserted(items, x) <==> y == x || (y in items && y.seqno != x.seqno)
  {
    hide Rank;
    var r, k := Inserted(items, x), Rank(items, x.seqno);
    assert r[k] == x;
    if y in items && y.seqno != x.seqno {
      var i :| 0 <= i < |items| && items[i] == y;
      assert if |r| == |items| then r[i] == y else r[if i < k then i else i + 1] == y;
    }
    if y in r && y != x {
      var i :| 0 <= i < |r| && r[i] == y;
      assert if |r| == |items| then items[i] == y else items[if i < k then i else i - 1] == y;
    }
  }

  lemma WithoutIsProper(items: seq<Item>, k: nat)
    requires Proper(items) && k < |items|
    ensures Proper(WithoutIndex(items, k))
  {
    hide SamePolicy, GoodItem;
  }

  // ----- Automatic numbers -----

  function MaxSeq(items: seq<Item>): (m: nat)
    ensures forall i | 0 <= i < |items| :: items[i].seqno <= m
    ensures m == 0 || exists i | 0 <= i < |items| :: items[i].seqno == m
  {
    if items == [] then 0
    else
      var m := MaxSeq(items[..|items| - 1]);
      var last := items[|items| - 1].seqno;
      if m < last then last else m
  }

  /** The least multiple of five above every number in use and above zero. */
  function NewSeq(items: seq<Item>): (s: nat)
    ensures s % 5 == 0 && s > 0 && s - 5 <= MaxSeq(items) < s
  {
    MaxSeq(items) / 5 * 5 + 5
  }

  /** The automatic number fits an int if and only if the largest in use leaves room for it. */
  lemma NewSeqFits(items: seq<Item>)
    ensures NewSeq(items) <= 0x7fff_ffff <==> MaxSeq(items) < 2147483645
  {
  }

  function Numbered(items: seq<Item>, x: Item): Item {
    if x.seqno == -1 then x.(seqno := NewSeq(items)) else x
  }

  /** An automatic number never replaces an entry: the new entry goes last. */
  lemma AutomaticGoesLast(items: seq<Item>, x: Item)
    requires x.seqno == -1
    ensures Inserted(items, Numbered(items, x)) == items + [Numbered(items, x)]
  {
    hide MaxSeq, NewSeq, Rank;
    var s := NewSeq(items);
    assert forall i | 0 <= i < |items| :: items[i].seqno < s;
    assert Rank(items, s) == |items|;
  }

  /** Installing and deleting: an insertion with a number not in use is undone by its deletion. */
  lemma DeletionUndoesInsertion(items: seq<Item>, x: Item)
    requires Ascending(items) && forall i | 0 <= i < |items| :: items[i].seqno != x.seqno
    ensures var k := Rank(items, x.seqno);
            && |Inserted(items, x)| == |items| + 1 && Inserted(items, x)[k] == x
            && WithoutIndex(Inserted(items, x), k) == items
  {
    hide Rank;
  }

  // ----- The linked list -----

  class Entry {
    var seqno: int
    const le: int
    const ge: int
    const permit: bool
    const prefix: Prefix
    var refcnt: nat
    var hitcnt: nat
    var next: Entry?
    var prev: Entry?

    constructor (x: Item)
      ensures Content() == x && refcnt == 0 && hitcnt == 0
    {
      seqno, le, ge, permit, prefix := x.seqno, x.le, x.ge, x.permit, x.prefix;
      refcnt, hitcnt, next, prev := 0, 0, null, null;
    }

    function Content(): Item
      reads `seqno
    {
      Item(seqno, le, ge, permit, prefix)
    }
  }

  /** The entry at an index, or none beyond either end. */
  function At(spine: seq<Entry>, i: int): Entry? {
    if 0 <= i < |spine| then spine[i] else null
  }

  ghost predicate Linked(spine: seq<Entry>)
    reads spine`next, spine`prev
  {
    && (forall i, j | 0 <= i < j < |spine| && j == i + 1 :: spine[i].next == spine[j] && spine[j].prev == spine[i])
    && (spine != [] ==> spine[0].prev == null && spine[|spine| - 1].next == null)
  }

  ghost function Contents(spine: seq<Entry>): (items: seq<Item>)
    reads spine`seqno
    ensures |items| == |spine| && forall i | 0 <= i < |spine| :: items[i] == spine[i].Content()
  {
    if spine == [] then [] else Contents(spine[..|spine| - 1]) + [spine[|spine| - 1].Content()]
  }

  lemma Neighbours(spine: seq<Entry>, k: nat)
    requires Linked(spine) && k < |spine|
    ensures spine[k].next == At(spine, k + 1) && spine[k].prev == At(spine, k - 1)
  {
  }

  /** Once e is joined to its neighbours, the spine with e before entry k is linked. */
  lemma Threaded(spine: seq<Entry>, k: nat, e: Entry)
    requires k < |spine| && NoRepeats(spine) && e !in spine
    requires e.next == spine[k] && spine[k].prev == e && e.prev == At(spine, k - 1)
    requires if k > 0 then spine[k - 1].next == e && spine[0].prev == null else true
    requires spine[|spine| - 1].next == null
    requires forall i, j | 0 <= i < j < |spine| && j == i + 1 && j != k ::
               spine[i].next == spine[j] && spine[j].prev == spine[i]
    ensures Linked(WithIndex(spine, k, e)) && NoRepeats(WithIndex(spine, k, e))
    ensures At(WithIndex(spine, k, e), 0) == if k == 0 then e else spine[0]
    ensures At(WithIndex(spine, k, e), |spine|) == spine[|spine| - 1]
  {
  }

  lemma ContentsWithout(spine: seq<Entry>, k: nat)
    requires k < |spine|
    ensures Contents(WithoutIndex(spine, k)) == WithoutIndex(Contents(spine), k)
  {
    hide Contents;
  }

  lemma ContentsWith(spine: seq<Entry>, k: nat, e: Entry)
    requires k <= |spine|
    ensures Contents(WithIndex(spine, k, e)) == WithIndex(Contents(spine), k, e.Content())
  {
    hide Contents;
  }

  class PrefixList {
    var head: Entry?
    var tail: Entry?
    var count: int
    ghost var spine: seq<Entry>

    /** The links spell out the spine in both directions and the count is exact. */
    ghost predicate Shape()
      reads this, spine`next, spine`prev
    {
      && head == At(spine, 0) && tail == At(spine, |spine| - 1) && count == |spine|
      && Linked(spine) && NoRepeats(spine)
    }

    ghost predicate Valid()
      reads this, spine`next, spine`prev, spine`seqno
    {
      Shape() && Proper(Contents(spine))
    }

    constructor ()
      ensures Valid() && spine == []
    {
      head, tail, count, spine := null, null, 0, [];
    }

    /** Joins an entry's neighbours. */
    method Unlink(e: Entry, ghost k: nat)
      requires Shape() && k < |spine| && spine[k] == e
      modifies this, spine`next, spine`prev
      ensures Shape() && spine == WithoutIndex(old(spine), k)
    {
      Neighbours(spine, k);
      if e.prev != null {
        e.prev.next := e.next;
      } else {
        head := e.next;
      }
      if e.next != null {
        e.next.prev := e.prev;
      } else {
        tail := e.prev;
      }
      count := count - 1;
      spine := WithoutIndex(spine, k);
    }

    /** Deletes an entry. */
    method Delete(e: Entry, ghost k: nat)
      requires Valid() && k < |spine| && spine[k] == e
      modifies this, spine`next, spine`prev
      ensures Valid() && spine == WithoutIndex(old(spine), k)
      ensures Contents(spine) == WithoutIndex(old(Contents(spine)), k)
    {
      hide Shape, Contents, Proper;
      ghost var was := spine;
      WithoutIsProper(Contents(spine), k);
      ContentsWithout(was, k);
      Unlink(e, k);
      ContentsWithout(was, k);
    }

    /** Links e before an entry. */
    method LinkBefore(e: Entry, point: Entry, ghost k: nat)
      requires Shape() && k < |spine| && point == spine[k] && e !in spine
      modifies this, spine`next, spine`prev, e`next, e`prev
      ensures Shape() && spine == WithIndex(old(spine), k, e)
    {
      hide WithIndex;
      Neighbours(spine, k);
      e.next := point;
      if point.prev != null {
        point.prev.next := e;
      } else {
        head := e;
      }
      e.prev := point.prev;
      point.prev := e;
      count := count + 1;
      Threaded(spine, k, e);
      spine := WithIndex(spine, k, e);
    }

    method LinkLast(e: Entry)
      requires Shape() && e !in spine
      modifies this, spine`next, spine`prev, e`next, e`prev
      ensures Shape() && spine == WithIndex(old(spine), |old(spine)|, e)
    {
      e.next := null;
      if tail != null {
        tail.next := e;
      } else {
        head := e;
      }
      e.prev := tail;
      tail := e;
      count := count + 1;
      spine := WithIndex(spine, |spine|, e);
    }

    /** Links e before the entry at index k, or last. */
    method Link(e: Entry, point: Entry?, ghost k: nat)
      requires Shape() && k <= |spine| && point == At(spine, k) && e !in spine
      modifies this, spine`next, spine`prev, e`next, e`prev
      ensures Shape() && Contents(spine) == WithIndex(old(Contents(spine)), k, e.Content())
      ensures forall i | 0 <= i < |spine| :: spine[i] in old(spine) || spine[i] == e
    {
      hide Shape, Contents;
      ghost var was := spine;
      if point != null {
        LinkBefore(e, point, k);
      } else {
        LinkLast(e);
      }
      ContentsWith(was, k, e);
    }

    /** The number after the largest in use. */
    method NewSeqGet() returns (s: int)
      requires Valid()
      ensures s == NewSeq(Contents(spine))
    {
      hide Proper, Linked, Contents;
      var maxseq := 0;
      var e := head;
      ghost var k := 0;
      ghost var items := Contents(spine);
      while e != null
        invariant 0 <= k <= |spine| && e == At(spine, k) && maxseq == MaxSeq(items[..k])
        decreases |spine| - k
      {
        Neighbours(spine, k);
        assert items[..k + 1][..k] == items[..k];
        if maxseq < e.seqno {
          maxseq := e.seqno;
        }
        e, k := e.next, k + 1;
      }
      assert items[..k] == items;
      s := maxseq / 5 * 5 + 5;
    }

    method SeqCheck(s: int) returns (e: Entry?, ghost k: nat)
      requires Valid()
      ensures k <= |spine| && e == At(spine, k) && (k < |spine| ==> spine[k].seqno == s)
      ensures forall i | 0 <= i < k :: spine[i].seqno != s
    {
      hide Proper, Linked, Contents;
      e, k := head, 0;
      while e != null && e.seqno != s
        invariant 0 <= k <= |spine| && e == At(spine, k) && forall i | 0 <= i < k :: spine[i].seqno != s
        decreases |spine| - k
      {
        Neighbours(spine, k);
        e, k := e.next, k + 1;
      }
    }

    /** The first entry whose number is not below s. */
    method FindPoint(s: int) returns (e: Entry?, ghost k: nat)
      requires Shape()
      ensures k <= |spine| && e == At(spine, k) && (k < |spine| ==> spine[k].seqno >= s)
      ensures forall i | 0 <= i < k :: spine[i].seqno < s
    {
      e, k := head, 0;
      while e != null && e.seqno < s
        invariant 0 <= k <= |spine| && e == At(spine, k) && forall i | 0 <= i < k :: spine[i].seqno < s
        decreases |spine| - k
      {
        Neighbours(spine, k);
        e, k := e.next, k + 1;
      }
    }

    /** The entry with a policy and, unless it is negative, a number. */
    method Lookup(x: Item) returns (e: Entry?, ghost k: nat)
      requires Valid() && GoodItem(x)
      ensures k <= |spine| && e == At(spine, k) && k == Found(Contents(spine), x)
    {
      hide Proper, Linked, Contents, Sought;
      ghost var items := Contents(spine);
      GoodContents(items);
      e, k := head, 0;
      while e != null && !Sought(e.Content(), x)
        invariant 0 <= k <= |spine| && e == At(spine, k) && forall i | 0 <= i < k :: !Sought(items[i], x)
        decreases |spine| - k
      {
        Neighbours(spine, k);
        e, k := e.next, k + 1;
      }
      FoundAt(items, x, k);
    }

    /** Whether another entry, under another number, has the policy of y. */
    method HasDuplicate(y: Item) returns (dup: bool)
      requires Valid() && GoodItem(y)
      ensures GoodItems(Contents(spine)) && (dup <==> Duplicate(Contents(spine), y))
    {
      hide Proper, Linked, NoRepeats, Contents, SamePolicy, GoodItem;
      ghost var items := Contents(spine);
      GoodContents(items);
      var e := head;
      ghost var k := 0;
      while e != null
        invariant 0 <= k <= |spine| && e == At(spine, k)
        invariant forall i | 0 <= i < k :: !(SamePolicy(items[i], y) && items[i].seqno != y.seqno)
        decreases |spine| - k
      {
        assert items[k] == e.Content();
        if SamePolicy(e.Content(), y) && e.seqno != y.seqno {
          return true;
        }
        Neighbours(spine, k);
        e, k := e.next, k + 1;
      }
      dup := false;
    }

    /** Whether a new entry, numbered as it would be, has the policy of another. */
    method DupCheck(x: Item) returns (dup: bool)
      requires Valid() && GoodItem(x)
      ensures GoodItems(Contents(spine)) && (dup <==> Duplicate(Contents(spine), Numbered(Contents(spine), x)))
    {
      hide Proper, Shape, Contents, NewSeq, Duplicate;
      var s := x.seqno;
      if x.seqno == -1 {
        s := NewSeqGet();
      }
      dup := HasDuplicate(x.(seqno := s));
    }

    /** Takes out the entry numbered s, if there is one. */
    method DropNumber(s: int)
      requires Valid()
      modifies this, spine`next, spine`prev
      ensures Valid() && Contents(spine) == Dropped(old(Contents(spine)), s)
      ensures forall i | 0 <= i < |spine| :: spine[i] in old(spine)
    {
      hide Proper, Shape, Contents, Dropped;
      var replace, k := SeqCheck(s);
      DroppedAt(Contents(spine), s, k);
      if replace != null {
        Delete(replace, k);
      }
    }

    /** Puts a numbered entry in its place. */
    method AddNumbered(e: Entry)
      requires Valid() && e !in spine && GoodItem(e.Content()) && !Duplicate(Contents(spine), e.Content())
      modifies this, spine`next, spine`prev, e`next, e`prev
      ensures Valid() && Contents(spine) == Inserted(old(Contents(spine)), e.Content())
      ensures forall i | 0 <= i < |spine| :: spine[i] in old(spine) || spine[i] == e
    {
      hide Proper, Shape, Contents, Dropped, Inserted, Rank, Duplicate, WithIndex;
      ghost var items := Contents(spine);
      InsertedIsProper(items, e.Content());
      DropNumber(e.seqno);
      var point, k := FindPoint(e.seqno);
      InsertedByDropping(items, e.Content(), k);
      Link(e, point, k);
    }

    method Add(e: Entry)
      requires Valid() && e !in spine && GoodItem(e.Content())
      requires !Duplicate(Contents(spine), Numbered(Contents(spine), e.Content()))
      modifies this, spine`next, spine`prev, e`next, e`prev, e`seqno
      ensures Valid()
      ensures Contents(spine) == Inserted(old(Contents(spine)), Numbered(old(Contents(spine)), old(e.Content())))
      ensures forall i | 0 <= i < |spine| :: spine[i] in old(spine) || spine[i] == e
    {
      hide Shape, Proper, Duplicate, Inserted, Contents, NewSeq;
      if e.seqno == -1 {
        e.seqno := NewSeqGet();
      }
      AddNumbered(e);
    }

    /** Visits entries, counting them, until one matches. */
    method Scan(p: Prefix) returns (e: Entry?, ghost k: nat)
      requires Valid() && WellFormed(p)
      modifies spine`refcnt
      ensures GoodItems(Contents(spine)) && k == FirstMatch(Contents(spine), p) && e == At(spine, k)
      ensures forall i | 0 <= i < |spine| :: spine[i].refcnt == old(spine[i].refcnt) + (if i <= k then 1 else 0)
    {
      hide Proper, Linked, Contents, Matches, FirstMatch, GoodItem, GoodItems, NoneMatches;
      ghost var items := Contents(spine);
      GoodContents(items);
      NoneMatchesYet(items, p);
      e, k := head, 0;
      while e != null
        invariant 0 <= k <= |spine| && e == At(spine, k) && NoneMatches(items, p, k)
        invariant forall i | 0 <= i < |spine| :: spine[i].refcnt == old(spine[i].refcnt) + (if i < k then 1 else 0)
        decreases |spine| - k
      {
        e.refcnt := e.refcnt + 1;
        NoneMatchesStep(items, p, k);
        if Matches(e.Content(), p) {
          return;
        }
        Neighbours(spine, k);
        e, k := e.next, k + 1;
      }
      NoneMatchesEnd(items, p);
    }

    /** Applies the list: the first matching entry decides; visited entries are counted. */
    method Apply(p: Prefix) returns (permit: bool)
      requires Valid() && WellFormed(p)
      modifies spine`refcnt, spine`hitcnt
      ensures Valid() && permit == Permits(Contents(spine), p)
      ensures forall i | 0 <= i < |spine| ::
                && spine[i].refcnt == old(spine[i].refcnt) + (if i <= FirstMatch(Contents(spine), p) then 1 else 0)
                && spine[i].hitcnt == old(spine[i].hitcnt) + (if i == FirstMatch(Contents(spine), p) then 1 else 0)
    {
      hide Proper, Linked, Contents, Matches, FirstMatch;
      GoodContents(Contents(spine));
      if count == 0 {
        return true;
      }
      var e, k := Scan(p);
      if e != null {
        e.hitcnt := e.hitcnt + 1;
        return e.permit;
      }
      permit := false;
    }
  }

  /** One configuration command on one list. */
  datatype Command = Install(x: Item) | Remove(x: Item)

  predicate GoodCommand(c: Command) {
    GoodItem(c.x)
  }

  function Step(items: seq<Item>, c: Command): seq<Item>
    requires GoodItems(items) && GoodCommand(c)
  {
    match c
    case Install(x) =>
      var y := Numbered(items, x);
      if Duplicate(items, y) then items else Inserted(items, y)
    case Remove(x) =>
      var k := Found(items, x);
      if k < |items| then WithoutIndex(items, k) else items
  }

  lemma StepIsProper(items: seq<Item>, c: Command)
    requires Proper(items) && GoodCommand(c)
    ensures Proper(Step(items, c))
  {
    hide Proper, Inserted, Duplicate, NewSeq, Found, WithoutIndex;
    GoodContents(items);
    match c
    case Install(x) =>
      if !Duplicate(items, Numbered(items, x)) { InsertedIsProper(items, Numbered(items, x)); }
    case Remove(x) =>
      if Found(items, x) < |items| { WithoutIsProper(items, Found(items, x)); }
  }

  /** The entries after a run of commands on an empty list. */
  function Replay(run: seq<Command>): (items: seq<Item>)
    requires forall i | 0 <= i < |run| :: GoodCommand(run[i])
    ensures Proper(items)
  {
    if run == [] then []
    else
      var before := Replay(run[..|run| - 1]);
      StepIsProper(before, run[|run| - 1]);
      Step(before, run[|run| - 1])
  }

  /** Carries out one command. */
  method Execute(plist: PrefixList, c: Command)
    requires plist.Valid() && GoodCommand(c)
    modifies plist, plist.spine`next, plist.spine`prev
    ensures plist.Valid() && GoodItems(old(Contents(plist.spine)))
    ensures Contents(plist.spine) == Step(old(Contents(plist.spine)), c)
    ensures forall i | 0 <= i < |plist.spine| :: plist.spine[i] in old(plist.spine) || fresh(plist.spine[i])
  {
    hide Proper, Contents, Inserted, Duplicate, NewSeq, Found, Linked, NoRepeats;
    GoodContents(Contents(plist.spine));
    match c
    case Install(x) =>
      var e := new Entry(x);
      var dup := plist.DupCheck(x);
      if !dup {
        plist.Add(e);
      }
    case Remove(x) =>
      var e, k := plist.Lookup(x);
      if e != null {
        plist.Delete(e, k);
      }
  }

  /** Every run of commands leaves a properly linked, ascending list without repeated policies. */
  method Session(run: seq<Command>) returns (plist: PrefixList)
    requires forall i | 0 <= i < |run| :: GoodCommand(run[i])
    ensures fresh(plist) && plist.Valid() && Contents(plist.spine) == Replay(run)
  {
    hide Proper, Contents, Step, GoodCommand;
    plist := new PrefixList();
    var k := 0;
    assert run[..0] == [];
    while k < |run|
      invariant 0 <= k <= |run| && fresh(plist) && plist.Valid() && Contents(plist.spine) == Replay(run[..k])
      invariant forall i | 0 <= i < |plist.spine| :: fresh(plist.spine[i])
    {
      assert run[..k + 1][..k] == run[..k];
      Execute(plist, run[k]);
      k := k + 1;
    }
    assert run[..k] == run;
  }

  lemma GoodContents(items: seq<Item>)
    requires Proper(items)
    ensures GoodItems(items)
  {
  }

  /** None of the first k entries matches. */
  predicate NoneMatches(items: seq<Item>, p: Prefix, k: nat)
    requires GoodItems(items) && WellFormed(p)
  {
    k <= |items| && forall i | 0 <= i < k :: !Matches(items[i], p)
  }

  lemma NoneMatchesYet(items: seq<Item>, p: Prefix)
    requires GoodItems(items) && WellFormed(p)
    ensures NoneMatches(items, p, 0)
  {
  }

  lemma NoneMatchesStep(items: seq<Item>, p: Prefix, k: nat)
    requires GoodItems(items) && WellFormed(p) && k < |items| && NoneMatches(items, p, k)
    ensures GoodItem(items[k])
    ensures if Matches(items[k], p) then FirstMatch(items, p) == k else NoneMatches(items, p, k + 1)
  {
    hide Matches;
    if Matches(items[k], p) { FirstMatchIs(items, p, k); }
  }

  lemma NoneMatchesEnd(items: seq<Item>, p: Prefix)
    requires GoodItems(items) && WellFormed(p) && NoneMatches(items, p, |items|)
    ensures FirstMatch(items, p) == |items|
  {
    hide Matches;
    FirstMatchIs(items, p, |items|);
  }

  lemma FirstMatchIs(items: seq<Item>, p: Prefix, k: nat)
    requires GoodItems(items) && WellFormed(p) && k <= |items|
    requires (forall i | 0 <= i < k :: !Matches(items[i], p)) && (k < |items| ==> Matches(items[k], p))
    ensures FirstMatch(items, p) == k
  {
    hide Matches;
    FirstMatchMeans(items, p);
  }

  /** What a lookup looks for: the policy and, unless negative, the number. */
  predicate Sought(y: Item, x: Item)
    requires GoodItem(x) && GoodItem(y)
  {
    SamePolicy(y, x) && (x.seqno < 0 || y.seqno == x.seqno)
  }

  function Found(items: seq<Item>, x: Item): (k: nat)
    requires GoodItems(items) && GoodItem(x)
    ensures k <= |items|
    ensures k < |items| ==> Sought(items[k], x)
  {
    if items == [] || Sought(items[0], x) then 0 else 1 + Found(items[1..], x)
  }

  lemma {:induction false} FoundAt(items: seq<Item>, x: Item, k: nat)
    requires GoodItems(items) && GoodItem(x) && k <= |items|
    requires (forall i | 0 <= i < k :: !Sought(items[i], x)) && (k < |items| ==> Sought(items[k], x))
    ensures Found(items, x) == k
  {
    hide Sought;
    if k > 0 {
      assert !Sought(items[0], x);
      forall i | 0 <= i < k - 1 ensures !Sought(items[1..][i], x) { assert items[1..][i] == items[i + 1]; }
      FoundAt(items[1..], x, k - 1);
    }
  }

  /** The list without the entry numbered s. */
  function Dropped(items: seq<Item>, s: int): seq<Item> {
    var k := Rank(items, s);
    if k < |items| && items[k].seqno == s then WithoutIndex(items, k) else items
  }

  lemma DroppedAt(items: seq<Item>, s: int, k: nat)
    requires Proper(items) && k <= |items|
    requires (forall i | 0 <= i < k :: items[i].seqno != s) && (k < |items| ==> items[k].seqno == s)
    ensures Dropped(items, s) == if k < |items| then WithoutIndex(items, k) else items
  {
    hide Rank, Distinct, GoodItems, WithoutIndex;
    var r := Rank(items, s);
    assert Ascending(items);
    if k < |items| {
      assert r <= k;
    }
  }

  lemma InsertedByDropping(items: seq<Item>, x: Item, k: nat)
    requires Proper(items)
    requires var d := Dropped(items, x.seqno);
             && k <= |d| && (forall i | 0 <= i < k :: d[i].seqno < x.seqno) && (k < |d| ==> d[k].seqno >= x.seqno)
    ensures WithIndex(Dropped(items, x.seqno), k, x) == Inserted(items, x)
  {
    hide Rank, Distinct, GoodItems;
    assert Ascending(items);
    var r := Rank(items, x.seqno);
    var d := Dropped(items, x.seqno);
    assert forall i | 0 <= i < r :: d[i].seqno < x.seqno;
    assert r < |d| ==> d[r].seqno > x.seqno;
    assert r == k;
  }

  // ----- Named lists -----

  datatype NamedList = NamedList(described: bool, items: seq<Item>)

  type Lists = map<string, NamedList>

  predicate ProperLists(lists: Lists) {
    forall name | name in lists :: Proper(lists[name].items)
  }

  /** What `prefix_list_get` finds: the list, or a new empty one. */
  function Get(lists: Lists, name: string): NamedList {
    if name in lists then lists[name] else NamedList(false, [])
  }

  function Rewritten(x: Item, max: nat): Item {
    if x.ge != 0 && x.le == max then x.(le := 0) else x
  }

  /** Installing, from the command line or as an outbound route filter. */
  function Set(lists: Lists, name: string, x: Item, max: nat): (r: (Lists, bool))
    requires ProperLists(lists) && GoodItem(x)
    ensures ProperLists(r.0) && (!r.1 ==> r.0 == lists)
  {
    var plist := Get(lists, name);
    var y := Numbered(plist.items, Rewritten(x, max));
    assert Proper(plist.items);
    if !InRange(x) || Duplicate(plist.items, y) then (lists, false)
    else
      InsertedIsProper(plist.items, y);
      (lists[name := plist.(items := Inserted(plist.items, y))], true)
  }

  /** Withdrawing an outbound route filter: a list left empty and undescribed is deleted, and
      a list that does not exist is created before its entry is missed. */
  function Unset(lists: Lists, name: string, x: Item, max: nat): (r: (Lists, bool))
    requires ProperLists(lists) && GoodItem(x)
    ensures ProperLists(r.0)
  {
    var plist := Get(lists, name);
    assert Proper(plist.items);
    if !InRange(x) then (lists, false)
    else
      var k := Found(plist.items, Rewritten(x, max));
      if k == |plist.items| then (lists[name := plist], false)
      else if |plist.items| == 1 && !plist.described then (lists - {name}, true)
      else
        WithoutIsProper(plist.items, k);
        (lists[name := plist.(items := WithoutIndex(plist.items, k))], true)
  }

  /** Withdrawing what was just set under a number not in use, given or automatic, restores every
      list, and removes a list that setting created; only an empty, undescribed list that was
      already there is lost. */
  lemma UnsetUndoesSet(lists: Lists, name: string, x: Item, max: nat)
    requires ProperLists(lists) && GoodItem(x) && !x.prefix.family.Other? && Set(lists, name, x, max).1
    requires forall i | 0 <= i < |Get(lists, name).items| :: Get(lists, name).items[i].seqno != x.seqno
    ensures var after := Unset(Set(lists, name, x, max).0, name, x, max);
            && after.1
            && Get(after.0, name).items == Get(lists, name).items
            && (after.0 == lists <==> name !in lists || lists[name] != NamedList(false, []))
  {
    hide Rank, Duplicate, Inserted, WithoutIndex, Found, NewSeq, MaxSeq;
    var plist := Get(lists, name);
    var y := Rewritten(x, max);
    var n := Numbered(plist.items, y);
    var fuller := Set(lists, name, x, max).0;
    ProperGet(lists, name);
    NumberIsUnused(plist.items, y);
    DeletionUndoesInsertion(plist.items, n);
    FoundWhereInserted(plist.items, y);
    assert fuller[name].items == Inserted(plist.items, n);
    assert name !in lists ==> fuller - {name} == lists;
    assert name in lists ==> fuller[name := lists[name]] == lists;
  }

  lemma ProperGet(lists: Lists, name: string)
    requires ProperLists(lists)
    ensures Proper(Get(lists, name).items)
  {
  }

  lemma NumberIsUnused(items: seq<Item>, x: Item)
    requires forall i | 0 <= i < |items| :: items[i].seqno != x.seqno
    ensures forall i | 0 <= i < |items| :: items[i].seqno != Numbered(items, x).seqno
  {
    hide MaxSeq;
  }

  /** A lookup by policy and number as they were given finds the new entry. */
  lemma FoundWhereInserted(items: seq<Item>, x: Item)
    requires Proper(items) && GoodItem(x) && !x.prefix.family.Other? && !Duplicate(items, Numbered(items, x))
    requires forall i | 0 <= i < |items| :: items[i].seqno != x.seqno
    ensures var y := Numbered(items, x);
            GoodItems(Inserted(items, y)) && Found(Inserted(items, y), x) == Rank(items, y.seqno)
  {
    hide Rank, Distinct, Found, NewSeq, MaxSeq;
    var y := Numbered(items, x);
    var r, k := Inserted(items, y), Rank(items, y.seqno);
    NumberIsUnused(items, x);
    assert r == WithIndex(items, k, y);
    assert Sought(r[k], x);
    forall i | 0 <= i < k ensures !Sought(r[i], x) {
      assert r[i] == items[i];
      assert SamePolicy(items[i], x) == SamePolicy(items[i], y);
    }
    FoundAt(r, x, k);
  }

  /** No stored entry has bounds that installation would have rewritten. */
  predicate Normal(items: seq<Item>, max: nat) {
    forall i | 0 <= i < |items| :: items[i].ge == 0 || items[i].le != max
  }

  predicate NormalLists(lists: Lists, max: nat) {
    forall name | name in lists :: Normal(lists[name].items, max)
  }

  lemma InsertedIsNormal(items: seq<Item>, x: Item, max: nat)
    requires Normal(items, max) && (x.ge == 0 || x.le != max)
    ensures Normal(Inserted(items, x), max)
  {
    hide Rank;
  }

  lemma WithoutIsNormal(items: seq<Item>, k: nat, max: nat)
    requires Normal(items, max) && k < |items|
    ensures Normal(WithoutIndex(items, k), max)
  {
  }

  /** Installation and withdrawal keep the lists of one family that way. */
  lemma ListsStayNormal(lists: Lists, name: string, x: Item, max: nat)
    requires ProperLists(lists) && GoodItem(x) && max > 0 && NormalLists(lists, max)
    ensures NormalLists(Set(lists, name, x, max).0, max) && NormalLists(Unset(lists, name, x, max).0, max)
  {
    hide Inserted, WithoutIndex, Duplicate, Found, NewSeq, Normal, Proper;
    var items := Get(lists, name).items;
    var y := Rewritten(x, max);
    ProperGet(lists, name);
    GoodContents(items);
    NoEntryNormal(max);
    InsertedIsNormal(items, Numbered(items, y), max);
    var k := Found(items, y);
    if k < |items| { WithoutIsNormal(items, k, max); }
  }

  lemma NoEntryNormal(max: nat)
    ensures Normal([], max)
  {
  }

  /** The command-line deletion looks for the bounds as they were typed, without the rewrite: it
      finds the entry that the same words installed exactly when they were not rewritten. */
  lemma UninstallFindsInstalled(lists: Lists, name: string, x: Item, max: nat)
    requires ProperLists(lists) && GoodItem(x) && !x.prefix.family.Other? && max > 0
    requires Set(lists, name, x, max).1 && (x.seqno >= 0 || NormalLists(lists, max))
    ensures name in Set(lists, name, x, max).0
    ensures var items := Set(lists, name, x, max).0[name].items;
            GoodItems(items) && (Found(items, x) < |items| <==> x.ge == 0 || x.le != max)
  {
    hide Rank, Duplicate, Inserted, Found, NewSeq, Distinct;
    var y := Numbered(Get(lists, name).items, Rewritten(x, max));
    var items := Set(lists, name, x, max).0[name].items;
    var k := Rank(Get(lists, name).items, y.seqno);
    InsertedAtRank(Get(lists, name).items, y);
    ProperGet(Set(lists, name, x, max).0, name);
    assert items[k] == y && Ascending(items);
    if x.ge == 0 || x.le != max {
      assert Sought(items[k], x);
      FoundBy(items, x, k);
    } else {
      if x.seqno < 0 { ListsStayNormal(lists, name, x, max); }
      forall i | 0 <= i < |items| ensures !Sought(items[i], x) {
        if x.seqno < 0 {
          assert Normal(items, max);
        } else if i != k {
          assert items[i].seqno != items[k].seqno;
        }
      }
      FoundAt(items, x, |items|);
    }
  }

  /** "seq 5 permit 10.0.0.0/8 ge 16 le 32" is not deleted by the same words. */
  lemma UninstallMisses()
    ensures var x := Item(5, 32, 16, true, Prefix(Inet, 8, [10, 0, 0, 0]));
            && Set(map[], "list", x, 32).1 && "list" in Set(map[], "list", x, 32).0
            && var items := Set(map[], "list", x, 32).0["list"].items;
               GoodItems(items) && Found(items, x) == |items|
  {
    hide Found, Rank;
    var x := Item(5, 32, 16, true, Prefix(Inet, 8, [10, 0, 0, 0]));
    assert !Duplicate([], Rewritten(x, 32));
    UninstallFindsInstalled(map[], "list", x, 32);
  }

  lemma {:induction false} FoundBy(items: seq<Item>, x: Item, k: nat)
    requires GoodItems(items) && GoodItem(x) && k < |items| && Sought(items[k], x)
    ensures Found(items, x) <= k
  {
    hide Sought;
    if k > 0 && !Sought(items[0], x) { FoundBy(items[1..], x, k - 1); }
  }

  lemma InsertedAtRank(items: seq<Item>, x: Item)
    ensures var k := Rank(items, x.seqno); k < |Inserted(items, x)| && Inserted(items, x)[k] == x
  {
    hide Rank;
  }

  /** Whether a named list lets a prefix through; a list that does not exist denies. */
  predicate Verdict(lists: Lists, name: string, p: Prefix)
    requires ProperLists(lists) && WellFormed(p)
  {
    name in lists && Permits(lists[name].items, p)
  }

  /** Withdrawing an entry of a list that does not exist fails, yet from then on the name, which
      denied every prefix, permits every prefix. */
  lemma MissedUnsetPermits(lists: Lists, name: string, x: Item, max: nat, p: Prefix)
    requires ProperLists(lists) && GoodItem(x) && WellFormed(p) && name !in lists && InRange(x)
    ensures !Verdict(lists, name, p) && !Unset(lists, name, x, max).1 && Verdict(Unset(lists, name, x, max).0, name, p)
  {
  }

  /** A failed withdrawal leaves the lists alone if and only if the list existed or the bounds
      were refused, and keeps the verdict on a name exactly when it is not that of a list the
      withdrawal created. */
  lemma FailedUnset(lists: Lists, name: string, x: Item, max: nat, n: string, p: Prefix)
    requires ProperLists(lists) && GoodItem(x) && WellFormed(p) && !Unset(lists, name, x, max).1
    ensures Unset(lists, name, x, max).0 == lists <==> name in lists || !InRange(x)
    ensures Verdict(Unset(lists, name, x, max).0, n, p) == Verdict(lists, n, p)
            <==> !(n == name && name !in lists && InRange(x))
  {
    hide Found, FirstMatch;
    assert name in lists ==> lists[name := lists[name]] == lists;
  }

  lemma DuplicateIsListed(items: seq<Item>, x: Item)
    requires GoodItems(items) && GoodItem(x) && Duplicate(items, x)
    ensures items != []
  {
  }

  /** The named lists of one address family. */
  class PrefixMaster {
    var lists: Lists

    constructor ()
      ensures lists == map[]
    {
      lists := map[];
    }

    method Obtain(name: string) returns (plist: NamedList)
      modifies this
      ensures plist == Get(old(lists), name) && lists == old(lists)[name := plist]
    {
      if name !in lists {
        lists := lists[name := NamedList(false, [])];
      }
      plist := lists[name];
      assert old(lists)[name := plist] == lists;
    }

    method PrefixSet(name: string, x: Item, max: nat, installing: bool) returns (ok: bool)
      requires ProperLists(lists) && GoodItem(x)
      modifies this
      ensures (lists, ok) == if installing then Set(old(lists), name, x, max) else Unset(old(lists), name, x, max)
      ensures ProperLists(lists)
    {
      hide Duplicate, Inserted, WithoutIndex, Found, NewSeq, Proper;
      if !InRange(x) {
        return false;
      }
      var y := Rewritten(x, max);
      ProperGet(lists, name);
      GoodContents(Get(lists, name).items);
      var plist := Obtain(name);
      if installing {
        y := Numbered(plist.items, y);
        if Duplicate(plist.items, y) {
          DuplicateIsListed(plist.items, y);
          assert old(lists)[name := plist] == old(lists);
          return false;
        }
        lists := lists[name := plist.(items := Inserted(plist.items, y))];
        assert lists == old(lists)[name := plist.(items := Inserted(plist.items, y))];
      } else {
        var k := Found(plist.items, y);
        if k == |plist.items| {
          return false;
        }
        if |plist.items| == 1 && !plist.described {
          lists := lists - {name};
          assert lists == old(lists) - {name};
        } else {
          lists := lists[name := plist.(items := WithoutIndex(plist.items, k))];
          assert lists == old(lists)[name := plist.(items := WithoutIndex(plist.items, k))];
        }
      }
      ok := true;
    }
  }
}
