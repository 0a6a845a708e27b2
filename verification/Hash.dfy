/** The chained hash table of lib/hash.c, which doubles when a chain grows long.  It refines a
    collection of values no two of which are equal under the table's comparison. */
module Hashing {

  import opened Types

  const HASH_THRESHOLD := 10

  // ----- Slots -----

  /** Bitwise and of two natural numbers. */
  function And(a: nat, b: nat): nat {
    if a == 0 || b == 0 then 0 else (a % 2) * (b % 2) + 2 * And(a / 2, b / 2)
  }

  predicate PowerOfTwo(n: nat) {
    n == 1 || (n > 0 && n % 2 == 0 && PowerOfTwo(n / 2))
  }

  /** key & (size - 1) is the remainder of key by a size that is a power of two. */
  lemma {:induction false} MaskIsRemainder(key: nat, size: nat)
    requires PowerOfTwo(size)
    ensures And(key, size - 1) == key % size
    decreases size
  {
    if size > 1 {
      var half := size / 2;
      assert (size - 1) % 2 == 1 && (size - 1) / 2 == half - 1;
      MaskIsRemainder(key / 2, half);
      HalvesRemainder(key, half);
    }
  }

  lemma HalvesRemainder(key: nat, half: nat)
    requires half > 0
    ensures key % (2 * half) == key % 2 + 2 * ((key / 2) % half)
  {
    var q, r := (key / 2) / half, (key / 2) % half;
    assert key == 2 * (q * half + r) + key % 2;
    assert key == q * (2 * half) + (2 * r + key % 2);
    RemainderUnique(key, 2 * half, q, 2 * r + key % 2);
  }

  lemma RemainderUnique(x: nat, m: nat, q: nat, r: nat)
    requires m > 0 && x == q * m + r && r < m
    ensures x % m == r
  {
    var d := q - x / m;
    assert d * m == q * m - (x / m) * m;
    if d > 0 { AtLeast(d, m); }
    if d < 0 { AtLeast(-d, m); }
  }

  lemma AtLeast(d: int, m: nat)
    requires d > 0
    ensures d * m >= m
  {
  }

  /** A positive number and its predecessor have no bit in common exactly for a power of two. */
  lemma {:induction false} PowerOfTwoTest(n: nat)
    requires n > 0
    ensures And(n, n - 1) == 0 <==> PowerOfTwo(n)
    decreases n
  {
    if n > 1 {
      if n % 2 == 0 {
        assert (n - 1) / 2 == n / 2 - 1 && (n - 1) % 2 == 1;
        PowerOfTwoTest(n / 2);
      } else {
        assert (n - 1) / 2 == n / 2 && (n - 1) % 2 == 0;
        AndSelf(n / 2);
      }
    }
  }

  /** size - 1 in 32-bit unsigned arithmetic. */
  function Mask32(size: nat): nat
    requires size < 0x1_0000_0000
  {
    if size == 0 then 0xffff_ffff else size - 1
  }

  /** The assertion of `hash_create_size`. */
  predicate SizeAccepted(size: nat) {
    size < 0x1_0000_0000 && And(size, Mask32(size)) == 0
  }

  /** It accepts the powers of two and zero. */
  lemma SizeAcceptedMeans(size: nat)
    requires size < 0x1_0000_0000
    ensures SizeAccepted(size) <==> size == 0 || PowerOfTwo(size)
  {
    if size > 0 { PowerOfTwoTest(size); }
  }

  lemma TwicePower(n: nat)
    requires PowerOfTwo(n)
    ensures PowerOfTwo(2 * n)
  {
  }

  lemma Times256(n: nat)
    requires PowerOfTwo(n)
    ensures PowerOfTwo(256 * n)
  {
    hide PowerOfTwo;
    TwicePower(n);
    TwicePower(2 * n);
    TwicePower(4 * n);
    TwicePower(8 * n);
    TwicePower(16 * n);
    TwicePower(32 * n);
    TwicePower(64 * n);
    TwicePower(128 * n);
  }

  /** A table of size zero has no chain, yet every key selects the chain of its own number. */
  lemma ZeroSizeSelectsKey(key: nat)
    requires key < 0x1_0000_0000
    ensures SizeAccepted(0) && !PowerOfTwo(0) && And(key, Mask32(0)) == key
  {
    Times256(1);
    Times256(256);
    Times256(65536);
    Times256(0x100_0000);
    MaskIsRemainder(key, 0x1_0000_0000);
    assert key % 0x1_0000_0000 == key;
  }

  lemma {:induction false} AndSelf(n: nat)
    ensures And(n, n) == n
  {
    if n > 0 { AndSelf(n / 2); }
  }

  function Slot(key: nat, size: nat): (i: nat)
    requires PowerOfTwo(size)
    ensures i < size
  {
    MaskIsRemainder(key, size);
    And(key, size - 1)
  }

  // ----- Chains -----

  datatype Bucket<T> = Bucket(key: nat, data: T)

  function DataOf<T>(chain: seq<Bucket<T>>): multiset<T> {
    if chain == [] then multiset{} else multiset{chain[0].data} + DataOf(chain[1..])
  }

  /** All values in the table. */
  function Bag<T>(chains: seq<seq<Bucket<T>>>): multiset<T> {
    if chains == [] then multiset{} else DataOf(chains[0]) + Bag(chains[1..])
  }

  lemma {:induction false} DataOfConcat<T>(a: seq<Bucket<T>>, b: seq<Bucket<T>>)
    ensures DataOf(a + b) == DataOf(a) + DataOf(b)
  {
    if a == [] {
      assert a + b == b;
    } else {
      assert (a + b)[1..] == a[1..] + b;
      DataOfConcat(a[1..], b);
    }
  }

  lemma {:induction false} DataOfHas<T>(chain: seq<Bucket<T>>, d: T)
    ensures d in DataOf(chain) <==> exists j | 0 <= j < |chain| :: chain[j].data == d
  {
    if chain != [] {
      DataOfHas(chain[1..], d);
      if d in DataOf(chain[1..]) {
        var j :| 0 <= j < |chain[1..]| && chain[1..][j].data == d;
        assert chain[j + 1].data == d;
      }
      if exists j | 0 <= j < |chain| :: chain[j].data == d {
        var j :| 0 <= j < |chain| && chain[j].data == d;
        assert j > 0 ==> chain[1..][j - 1].data == d;
      }
    }
  }

  lemma AddAssoc<T>(a: multiset<T>, b: multiset<T>, c: multiset<T>)
    ensures a + b + c == a + (b + c)
  {
  }

  lemma AddBoth<T>(a: multiset<T>, x: multiset<T>, u: multiset<T>, y: multiset<T>, v: multiset<T>)
    requires x + u == y + v
    ensures (a + x) + u == (a + y) + v
  {
    assert (a + x) + u == a + (x + u);
    assert (a + y) + v == a + (y + v);
  }

  /** Replacing one chain changes the values by the difference of the chains. */
  lemma {:induction false} BagUpdate<T>(chains: seq<seq<Bucket<T>>>, i: nat, chain: seq<Bucket<T>>)
    requires i < |chains|
    ensures Bag(chains[i := chain]) + DataOf(chains[i]) == Bag(chains) + DataOf(chain)
    decreases |chains|
  {
    if i > 0 {
      assert chains[i := chain][1..] == chains[1..][i - 1 := chain];
      BagUpdate(chains[1..], i - 1, chain);
      AddBoth(DataOf(chains[0]), Bag(chains[1..][i - 1 := chain]), DataOf(chains[i]), Bag(chains[1..]), DataOf(chain));
    } else {
      assert chains[i := chain][1..] == chains[1..];
    }
  }

  lemma {:induction false} BagHas<T>(chains: seq<seq<Bucket<T>>>, d: T)
    ensures d in Bag(chains) <==> exists i | 0 <= i < |chains| :: d in DataOf(chains[i])
  {
    if chains != [] {
      BagHas(chains[1..], d);
      if d in Bag(chains[1..]) {
        var i :| 0 <= i < |chains[1..]| && d in DataOf(chains[1..][i]);
        assert d in DataOf(chains[i + 1]);
      }
      if exists i | 0 <= i < |chains| :: d in DataOf(chains[i]) {
        var i :| 0 <= i < |chains| && d in DataOf(chains[i]);
        assert i > 0 ==> d in DataOf(chains[1..][i - 1]);
      }
    }
  }

  lemma {:induction false} BagSplit<T>(chains: seq<seq<Bucket<T>>>, i: nat)
    requires i <= |chains|
    ensures Bag(chains) == Bag(chains[..i]) + Bag(chains[i..])
    decreases i
  {
    if i == 0 {
      assert chains[0..] == chains;
    } else {
      BagSplit(chains[1..], i - 1);
      assert chains[..i][1..] == chains[1..][..i - 1] && chains[1..][i - 1..] == chains[i..];
    }
  }

  lemma {:induction false} BagEmpty<T>(chains: seq<seq<Bucket<T>>>)
    requires forall i | 0 <= i < |chains| :: chains[i] == []
    ensures Bag(chains) == multiset{}
  {
    if chains != [] { BagEmpty(chains[1..]); }
  }

  /** Every bucket carries its value's key and sits in the chain that key selects. */
  ghost predicate Placed<T>(chains: seq<seq<Bucket<T>>>, key: T -> nat) {
    && PowerOfTwo(|chains|)
    && forall i, j | 0 <= i < |chains| && 0 <= j < |chains[i]| ::
         chains[i][j].key == key(chains[i][j].data) && Slot(chains[i][j].key, |chains|) == i
  }

  /** No two values are equal under `cmp`, and none is there twice. */
  ghost predicate Distinct<T>(data: multiset<T>, cmp: (T, T) -> bool) {
    && (forall a, b | a in data && b in data :: cmp(a, b) ==> a == b)
    && (forall a | a in data :: data[a] == 1)
  }

  /** What the table is promised of its functions. */
  ghost predicate Equivalence<T(!new)>(cmp: (T, T) -> bool, key: T -> nat) {
    && (forall a :: cmp(a, a))
    && (forall a, b :: cmp(a, b) ==> cmp(b, a) && key(a) == key(b))
    && (forall a, b, c :: cmp(a, b) && cmp(b, c) ==> cmp(a, c))
  }

  /** A value equal to x can only be in x's chain. */
  lemma MatchIsInChain<T(!new)>(chains: seq<seq<Bucket<T>>>, key: T -> nat, cmp: (T, T) -> bool, x: T)
    requires Placed(chains, key) && Equivalence(cmp, key)
    ensures forall d | d in Bag(chains) && cmp(d, x) :: d in DataOf(chains[Slot(key(x), |chains|)])
  {
    forall d | d in Bag(chains) && cmp(d, x) ensures d in DataOf(chains[Slot(key(x), |chains|)]) {
      BagHas(chains, d);
      var i :| 0 <= i < |chains| && d in DataOf(chains[i]);
      DataOfHas(chains[i], d);
      var j :| 0 <= j < |chains[i]| && chains[i][j].data == d;
    }
  }

  lemma InsertKeeps<T>(chains: seq<seq<Bucket<T>>>, key: T -> nat, i: nat, b: Bucket<T>)
    requires Placed(chains, key) && b.key == key(b.data) && i == Slot(b.key, |chains|)
    ensures var r := chains[i := [b] + chains[i]]; Placed(r, key) && Bag(r) == Bag(chains) + multiset{b.data}
  {
    var r: seq<seq<Bucket<T>>> := chains[i := [b] + chains[i]];
    BagUpdate(chains, i, [b] + chains[i]);
    DataOfConcat([b], chains[i]);
    DataOfSingle(b);
    Cancel(Bag(r), Bag(chains), multiset{b.data}, DataOf(chains[i]));
    forall m, j | 0 <= m < |r| && 0 <= j < |r[m]|
      ensures r[m][j].key == key(r[m][j].data) && Slot(r[m][j].key, |r|) == m
    {
      if m == i && j > 0 { assert r[m][j] == chains[i][j - 1]; }
    }
  }

  lemma Cancel<T>(r: multiset<T>, bag: multiset<T>, extra: multiset<T>, chain: multiset<T>)
    requires r + chain == bag + (extra + chain)
    ensures r == bag + extra
  {
    assert r == (r + chain) - chain;
    assert bag + extra == (bag + (extra + chain)) - chain;
  }

  lemma DataOfSingle<T>(b: Bucket<T>)
    ensures DataOf([b]) == multiset{b.data}
  {
    assert [b][1..] == [];
  }

  lemma DataOfSnoc<T>(chain: seq<Bucket<T>>, j: nat)
    requires j < |chain|
    ensures DataOf(chain[..j + 1]) == DataOf(chain[..j]) + multiset{chain[j].data}
  {
    assert chain[..j + 1] == chain[..j] + [chain[j]];
    DataOfConcat(chain[..j], [chain[j]]);
    DataOfSingle(chain[j]);
  }

  lemma DataOfRemove<T>(chain: seq<Bucket<T>>, j: nat)
    requires j < |chain|
    ensures DataOf(chain) == multiset{chain[j].data} + DataOf(chain[..j] + chain[j + 1..])
  {
    assert chain == chain[..j + 1] + chain[j + 1..];
    DataOfConcat(chain[..j + 1], chain[j + 1..]);
    DataOfSnoc(chain, j);
    DataOfConcat(chain[..j], chain[j + 1..]);
  }

  lemma RemoveKeeps<T>(chains: seq<seq<Bucket<T>>>, key: T -> nat, i: nat, j: nat)
    requires Placed(chains, key) && i < |chains| && j < |chains[i]|
    ensures var r := chains[i := chains[i][..j] + chains[i][j + 1..]];
            Placed(r, key) && Bag(chains) == Bag(r) + multiset{chains[i][j].data}
  {
    var short := chains[i][..j] + chains[i][j + 1..];
    DataOfRemove(chains[i], j);
    BagUpdate(chains, i, short);
    Cancel(Bag(chains), Bag(chains[i := short]), multiset{chains[i][j].data}, DataOf(short));
    ShrinkKeepsPlaced(chains, key, i, short);
  }

  lemma ShrinkKeepsPlaced<T>(chains: seq<seq<Bucket<T>>>, key: T -> nat, i: nat, short: seq<Bucket<T>>)
    requires Placed(chains, key) && i < |chains| && forall b | b in short :: b in chains[i]
    ensures Placed(chains[i := short], key)
  {
    var r: seq<seq<Bucket<T>>> := chains[i := short];
    forall m, j | 0 <= m < |r| && 0 <= j < |r[m]|
      ensures r[m][j].key == key(r[m][j].data) && Slot(r[m][j].key, |r|) == m
    {
      if m == i { assert r[m][j] in chains[i]; }
    }
  }

  lemma DistinctAdd<T>(data: multiset<T>, cmp: (T, T) -> bool, d: T)
    requires Distinct(data, cmp) && cmp(d, d) && forall a | a in data :: !cmp(a, d) && !cmp(d, a)
    ensures Distinct(data + multiset{d}, cmp)
  {
  }

  lemma DistinctRemove<T>(data: multiset<T>, rest: multiset<T>, cmp: (T, T) -> bool, d: T)
    requires Distinct(data, cmp) && data == rest + multiset{d}
    ensures Distinct(rest, cmp) && rest == data - multiset{d} && |rest| == |data| - 1
  {
    forall a | a in rest ensures rest[a] == 1 {
      assert a in data;
    }
  }

  function Surplus(n: nat): nat {
    if n > HASH_THRESHOLD / 2 then n - HASH_THRESHOLD / 2 else 0
  }

  /** Buckets beyond the fifth of their chain. */
  function Losers<T>(chains: seq<seq<Bucket<T>>>): nat {
    if chains == [] then 0 else Losers(chains[..|chains| - 1]) + Surplus(|chains[|chains| - 1]|)
  }

  predicate HasLongChain<T>(chains: seq<seq<Bucket<T>>>) {
    exists i | 0 <= i < |chains| :: |chains[i]| >= HASH_THRESHOLD
  }

  /** Moves a chain's buckets one by one to the front of their new chains. */
  method Redistribute<T>(chain: seq<Bucket<T>>, newIndex: array<seq<Bucket<T>>>, ghost key: T -> nat)
    requires Placed(newIndex[..], key) && forall j | 0 <= j < |chain| :: chain[j].key == key(chain[j].data)
    modifies newIndex
    ensures Placed(newIndex[..], key) && Bag(newIndex[..]) == old(Bag(newIndex[..])) + DataOf(chain)
  {
    PlacedInPowerOfTwo(newIndex[..], key);
    hide Placed, Bag, DataOf, Slot;
    var j := 0;
    assert DataOf(chain[..0]) == multiset{} by { DataOfNone(chain); }
    while j < |chain|
      invariant 0 <= j <= |chain| && Placed(newIndex[..], key)
      invariant Bag(newIndex[..]) == old(Bag(newIndex[..])) + DataOf(chain[..j])
    {
      var h := Slot(chain[j].key, newIndex.Length);
      InsertKeeps(newIndex[..], key, h, chain[j]);
      DataOfSnoc(chain, j);
      AddAssoc(old(Bag(newIndex[..])), DataOf(chain[..j]), multiset{chain[j].data});
      ghost var before := newIndex[..];
      newIndex[h] := [chain[j]] + newIndex[h];
      assert newIndex[..] == before[h := [chain[j]] + before[h]];
      j := j + 1;
    }
    assert chain[..j] == chain;
  }

  lemma DataOfNone<T>(chain: seq<Bucket<T>>)
    ensures DataOf(chain[..0]) == multiset{}
  {
  }

  lemma PlacedInPowerOfTwo<T>(chains: seq<seq<Bucket<T>>>, key: T -> nat)
    requires Placed(chains, key)
    ensures PowerOfTwo(|chains|)
  {
  }

  /** Every bucket of chain i carries its value's key. */
  lemma PlacedKeys<T>(chains: seq<seq<Bucket<T>>>, key: T -> nat, i: nat)
    requires Placed(chains, key) && i < |chains|
    ensures forall j | 0 <= j < |chains[i]| :: chains[i][j].key == key(chains[i][j].data)
  {
  }

  lemma EmptyPlaced<T>(chains: seq<seq<Bucket<T>>>, key: T -> nat)
    requires PowerOfTwo(|chains|) && forall i | 0 <= i < |chains| :: chains[i] == []
    ensures Placed(chains, key) && Bag(chains) == multiset{}
  {
    BagEmpty(chains);
  }

  lemma ClearChain<T>(chains: seq<seq<Bucket<T>>>, key: T -> nat, i: nat)
    requires Placed(chains, key) && i < |chains|
    ensures Placed(chains[i := []], key) && |Bag(chains)| == |Bag(chains[i := []])| + |chains[i]|
  {
    BagUpdate(chains, i, []);
    DataOfSize(chains[i]);
    assert Bag(chains) + DataOf([]) == Bag(chains);
    ShrinkKeepsPlaced(chains, key, i, []);
  }

  class HashTable<T(==, !new)> {
    const key: T -> nat
    const cmp: (T, T) -> bool
    var index: array<seq<Bucket<T>>>
    var size: nat
    var noExpand: bool
    var count: nat

    ghost predicate Valid()
      reads this, index
    {
      size == index.Length && Placed(index[..], key) && Distinct(Data(), cmp) && count == |Data()|
    }

    /** The values stored. */
    ghost function Data(): multiset<T>
      reads this, index
    {
      Bag(index[..])
    }

    constructor (size: nat, key: T -> nat, cmp: (T, T) -> bool)
      requires SizeAccepted(size)
      ensures size > 0 ==> Valid() && Data() == multiset{}
      ensures fresh(index) && index.Length == size && count == 0
      ensures this.size == size && this.key == key && this.cmp == cmp && !noExpand
    {
      this.size, this.key, this.cmp := size, key, cmp;
      index := new seq<Bucket<T>>[size](_ => []);
      noExpand, count := false, 0;
      new;
      SizeAcceptedMeans(size);
      if size > 0 { BagEmpty(index[..]); }
    }

    /** The first bucket of a chain that matches, or the chain's length. */
    method Find(chain: seq<Bucket<T>>, k: nat, x: T) returns (j: nat)
      ensures j <= |chain| && (j < |chain| ==> chain[j].key == k && cmp(chain[j].data, x))
      ensures forall m | 0 <= m < j :: !(chain[m].key == k && cmp(chain[m].data, x))
    {
      j := 0;
      while j < |chain|
        invariant 0 <= j <= |chain|
        invariant forall m | 0 <= m < j :: !(chain[m].key == k && cmp(chain[m].data, x))
      {
        if chain[j].key == k && cmp(chain[j].data, x) { return; }
        j := j + 1;
      }
    }

    /** Looks for x in its chain: the one stored value equal to x, if there is one. */
    method Locate(x: T) returns (i: nat, j: nat)
      requires Valid() && Equivalence(cmp, key)
      ensures i == Slot(key(x), size) && i < index.Length && j <= |index[i]|
      ensures j < |index[i]| ==> index[i][j].data in Data() && cmp(index[i][j].data, x)
      ensures j == |index[i]| ==> forall d | d in Data() :: !cmp(d, x)
    {
      i := Slot(key(x), size);
      j := Find(index[i], key(x), x);
      ghost var chains: seq<seq<Bucket<T>>> := index[..];
      if j < |index[i]| {
        DataOfHas(chains[i], chains[i][j].data);
        BagHas(chains, chains[i][j].data);
      } else {
        MatchIsInChain(chains, key, cmp, x);
        forall d | d in Data() ensures !cmp(d, x) {
          if cmp(d, x) { DataOfHas(chains[i], d); }
        }
      }
    }

    /** Doubles the table.  Every bucket moves to the chain its key selects among twice as many,
        and the values stay the same. */
    method Expand()
      requires Valid()
      modifies `index, `size, `noExpand
      ensures Valid() && Data() == old(Data()) && size == 2 * old(size) && fresh(index)
      ensures noExpand <==> old(noExpand) || HasLongChain(index[..]) || Losers(index[..]) > count / 2
    {
      PlacedInPowerOfTwo(index[..], key);
      assert PowerOfTwo(2 * size) by { assert 2 * size / 2 == size; }
      hide Placed, Bag, DataOf, Distinct, PowerOfTwo, Losers, HasLongChain;
      var newIndex := Doubled();
      size := 2 * size;
      index := newIndex;
      var losers, long := CountLosers(index);
      if long { noExpand := true; }
      if losers > count / 2 { noExpand := true; }
    }

    /** A table of twice the size with every bucket moved to its chain there. */
    method Doubled() returns (newIndex: array<seq<Bucket<T>>>)
      requires Valid() && PowerOfTwo(2 * size)
      ensures fresh(newIndex) && newIndex.Length == 2 * size
      ensures Placed(newIndex[..], key) && Bag(newIndex[..]) == Data()
    {
      hide Bag, DataOf, Distinct, PowerOfTwo;
      newIndex := new seq<Bucket<T>>[2 * size](_ => []);
      EmptyPlaced(newIndex[..], key);
      hide Placed;
      var i := 0;
      assert Bag(index[..][..0]) == multiset{} by { BagEmpty(index[..][..0]); }
      while i < size
        invariant 0 <= i <= size == index.Length && Placed(newIndex[..], key) && fresh(newIndex)
        invariant index[..] == old(index[..])
        invariant Bag(newIndex[..]) == Bag(index[..][..i])
      {
        PlacedKeys(index[..], key, i);
        Redistribute(index[i], newIndex, key);
        BagSnoc(index[..], i);
        i := i + 1;
      }
      assert index[..][..size] == index[..];
    }

    /** hash_get: the stored value equal to x, or else a new one made by `alloc`. */
    method Get(x: T, alloc: Option<T -> Option<T>>) returns (r: Option<T>)
      requires Valid() && Equivalence(cmp, key)
      requires alloc.Some? && alloc.value(x).Some? ==> cmp(alloc.value(x).value, x)
      modifies this, index
      ensures Valid() && (index == old(index) || fresh(index))
      ensures forall d | d in old(Data()) && cmp(d, x) :: r == Some(d) && Data() == old(Data())
      ensures (forall d | d in old(Data()) :: !cmp(d, x)) ==>
                && r == (if alloc.Some? then alloc.value(x) else None)
                && Data() == old(Data()) + (if r.Some? then multiset{r.value} else multiset{})
      ensures count == old(count) + |Data()| - |old(Data())|
    {
      var i, j := Locate(x);
      if j < |index[i]| { return Some(index[i][j].data); }
      if alloc == None { return None; }
      r := alloc.value(x);
      if r == None { return; }
      if |index[i]| > HASH_THRESHOLD && !noExpand {
        Expand();
      }
      Insert(Bucket(key(x), r.value));
    }

    /** Puts a new bucket in front of its chain. */
    method Insert(b: Bucket<T>)
      requires Valid() && b.key == key(b.data) && Equivalence(cmp, key) && forall d | d in Data() :: !cmp(d, b.data)
      modifies index, `count
      ensures Valid() && Data() == old(Data()) + multiset{b.data}
    {
      var i := Slot(b.key, size);
      InsertKeeps(index[..], key, i, b);
      ghost var chains := index[..];
      index[i] := [b] + index[i];
      assert index[..] == chains[i := [b] + chains[i]];
      DistinctAdd(Bag(chains), cmp, b.data);
      count := count + 1;
    }

    method Lookup(x: T) returns (r: Option<T>)
      requires Valid() && Equivalence(cmp, key)
      ensures r.Some? ==> r.value in Data() && cmp(r.value, x)
      ensures r == None ==> forall d | d in Data() :: !cmp(d, x)
    {
      var i, j := Locate(x);
      r := if j < |index[i]| then Some(index[i][j].data) else None;
    }

    /** hash_release: removes and returns the stored value equal to x, if there is one. */
    method Release(x: T) returns (r: Option<T>)
      requires Valid() && Equivalence(cmp, key)
      modifies index, `count
      ensures Valid()
      ensures forall d | d in old(Data()) && cmp(d, x) :: r == Some(d) && Data() == old(Data()) - multiset{d}
      ensures (forall d | d in old(Data()) :: !cmp(d, x)) ==> r == None && Data() == old(Data())
    {
      hide Placed, Bag, Distinct;
      var i, j := Locate(x);
      if j == |index[i]| { return None; }
      OneEqual(Data(), cmp, key, x, index[i][j].data);
      r := Some(index[i][j].data);
      RemoveKeeps(index[..], key, i, j);
      ghost var chains := index[..];
      DistinctRemove(Bag(chains), Bag(chains[i := chains[i][..j] + chains[i][j + 1..]]), cmp, r.value);
      index[i] := index[i][..j] + index[i][j + 1..];
      assert index[..] == chains[i := chains[i][..j] + chains[i][j + 1..]];
      count := count - 1;
    }

    /** hash_clean: empties every chain. */
    method Clean()
      requires Valid()
      modifies index, `count
      ensures Valid() && Data() == multiset{} && count == 0
    {
      hide Placed, Bag, Distinct;
      var i := 0;
      while i < size
        invariant 0 <= i <= size == index.Length && count == |Bag(index[..])| && Placed(index[..], key)
        invariant forall m | 0 <= m < i :: index[m] == []
      {
        ghost var chains := index[..];
        ClearChain(chains, key, i);
        count := count - |index[i]|;
        index[i] := [];
        assert index[..] == chains[i := []];
        i := i + 1;
      }
      BagEmpty(index[..]);
      assert Distinct(multiset{}, cmp) by { NothingDistinct(cmp); }
    }
  }

  lemma NothingDistinct<T>(cmp: (T, T) -> bool)
    ensures Distinct(multiset{}, cmp)
  {
  }

  /** At most one stored value is equal to x. */
  lemma OneEqual<T(!new)>(data: multiset<T>, cmp: (T, T) -> bool, key: T -> nat, x: T, d: T)
    requires Distinct(data, cmp) && Equivalence(cmp, key) && d in data && cmp(d, x)
    ensures forall e | e in data && cmp(e, x) :: e == d
  {
    forall e | e in data && cmp(e, x) ensures e == d {
      assert cmp(x, d) && cmp(e, d);
    }
  }

  lemma {:induction false} DataOfSize<T>(chain: seq<Bucket<T>>)
    ensures |DataOf(chain)| == |chain|
  {
    if chain != [] { DataOfSize(chain[1..]); }
  }

  lemma BagSingle<T>(chain: seq<Bucket<T>>)
    ensures Bag([chain]) == DataOf(chain)
  {
    assert [chain][1..] == [];
  }

  lemma BagSnoc<T>(chains: seq<seq<Bucket<T>>>, i: nat)
    requires i < |chains|
    ensures Bag(chains[..i + 1]) == Bag(chains[..i]) + DataOf(chains[i])
  {
    hide Bag, DataOf;
    BagSplit(chains[..i + 1], i);
    assert chains[..i + 1][..i] == chains[..i] && chains[..i + 1][i..] == [chains[i]];
    BagSingle(chains[i]);
  }

  /** The loops that judge whether doubling helped. */
  method CountLosers<T>(index: array<seq<Bucket<T>>>) returns (losers: nat, long: bool)
    ensures losers == Losers(index[..]) && (long <==> HasLongChain(index[..]))
  {
    losers, long := 0, false;
    var i := 0;
    while i < index.Length
      invariant 0 <= i <= index.Length && losers == Losers(index[..i])
      invariant long <==> exists m | 0 <= m < i :: |index[m]| >= HASH_THRESHOLD
    {
      ghost var before := losers;
      var len := 0;
      while len < |index[i]|
        invariant 0 <= len <= |index[i]| && losers == before + Surplus(len)
        invariant long <==> len >= HASH_THRESHOLD || exists m | 0 <= m < i :: |index[m]| >= HASH_THRESHOLD
      {
        len := len + 1;
        if len > HASH_THRESHOLD / 2 { losers := losers + 1; }
        if len >= HASH_THRESHOLD { long := true; }
      }
      assert index[..i + 1][..i] == index[..i];
      i := i + 1;
    }
    assert index[..i] == index[..];
  }

  // ----- Whole runs -----

  datatype Op<T> = DoGet(x: T) | DoLookup(x: T) | DoRelease(x: T)

  /** The value equal to x in a collection without equal values. */
  ghost function Member<T>(data: multiset<T>, cmp: (T, T) -> bool, x: T): Option<T> {
    if exists d | d in data :: cmp(d, x) then
      var d :| d in data && cmp(d, x);
      Some(d)
    else None
  }

  /** One operation on the abstract collection: its answer and what is stored afterwards. */
  ghost function Apply<T>(data: multiset<T>, cmp: (T, T) -> bool, alloc: T -> Option<T>, op: Op<T>)
      : (Option<T>, multiset<T>)
  {
    var m := Member(data, cmp, op.x);
    match op
    case DoGet(x) =>
      if m.Some? then (m, data)
      else if alloc(x) == None then (None, data)
      else (alloc(x), data + multiset{alloc(x).value})
    case DoLookup(x) => (m, data)
    case DoRelease(x) => if m.Some? then (m, data - multiset{m.value}) else (m, data)
  }

  ghost function ApplyAll<T>(data: multiset<T>, cmp: (T, T) -> bool, alloc: T -> Option<T>, ops: seq<Op<T>>)
      : (seq<Option<T>>, multiset<T>)
  {
    if ops == [] then ([], data)
    else
      var n := |ops| - 1;
      var (answers, data') := ApplyAll(data, cmp, alloc, ops[..n]);
      var (answer, data'') := Apply(data', cmp, alloc, ops[n]);
      (answers + [answer], data'')
  }

  lemma MemberIs<T(!new)>(data: multiset<T>, cmp: (T, T) -> bool, key: T -> nat, x: T)
    requires Distinct(data, cmp) && Equivalence(cmp, key)
    ensures forall d | d in data && cmp(d, x) :: Member(data, cmp, x) == Some(d)
  {
    if m :| m in data && cmp(m, x) { OneEqual(data, cmp, key, x, m); }
  }

  /** One operation on the table gives the abstract collection's answer and contents. */
  method Do<T(==, !new)>(h: HashTable<T>, alloc: T -> Option<T>, op: Op<T>) returns (r: Option<T>)
    requires h.Valid() && Equivalence(h.cmp, h.key)
    requires alloc(op.x).Some? ==> h.cmp(alloc(op.x).value, op.x)
    modifies h, h.index
    ensures h.Valid() && (h.index == old(h.index) || fresh(h.index))
    ensures (r, h.Data()) == Apply(old(h.Data()), h.cmp, alloc, op)
  {
    MemberIs(h.Data(), h.cmp, h.key, op.x);
    MemberFound(h.Data(), h.cmp, op.x);
    hide Placed, Bag, Distinct, Equivalence, Member;
    match op {
      case DoGet(x) =>
        r := h.Get(x, Some(alloc));
        assert old(h.Data()) + multiset{} == old(h.Data());
      case DoLookup(x) => r := h.Lookup(x);
      case DoRelease(x) => r := h.Release(x);
    }
  }

  /** A run of operations gives the answers of the abstract collection, however often the table
      is doubled on the way. */
  method Session<T(==, !new)>(h: HashTable<T>, alloc: T -> Option<T>, ops: seq<Op<T>>) returns (answers: seq<Option<T>>)
    requires h.Valid() && Equivalence(h.cmp, h.key)
    requires forall x :: alloc(x).Some? ==> h.cmp(alloc(x).value, x)
    modifies h, h.index
    ensures h.Valid()
    ensures (answers, h.Data()) == ApplyAll(old(h.Data()), h.cmp, alloc, ops)
  {
    hide Placed, Bag, Distinct, Equivalence, Apply;
    answers := [];
    var i := 0;
    while i < |ops|
      invariant 0 <= i <= |ops| && h.Valid() && (h.index == old(h.index) || fresh(h.index))
      invariant (answers, h.Data()) == ApplyAll(old(h.Data()), h.cmp, alloc, ops[..i])
    {
      assert ops[..i + 1][..i] == ops[..i];
      var r := Do(h, alloc, ops[i]);
      answers := answers + [r];
      i := i + 1;
    }
    assert ops[..i] == ops;
  }

  lemma MemberFound<T>(data: multiset<T>, cmp: (T, T) -> bool, x: T)
    ensures var m := Member(data, cmp, x);
            if m.Some? then m.value in data && cmp(m.value, x) else forall d | d in data :: !cmp(d, x)
  {
  }
}
