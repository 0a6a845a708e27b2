/** The output queue of lib/buffer.c: a chain of fixed-size chunks drained by a kernel that
    may accept fewer bytes than it is offered.  It refines one flat sequence of bytes. */
module Buffers {

  import opened Types

  const MAX_CHUNKS := 16
  const MAX_FLUSH := 131072
  const BUFFER_SIZE_DEFAULT := 4096

  const EINTR := 4
  const EAGAIN := 11

  predicate IoRetry(errno: int) {
    errno == EAGAIN || errno == EINTR
  }

  datatype Status = Error | Empty | Pending

  /** One buffer_data: bytes [sp, cp) of `data` wait to be flushed. */
  datatype Chunk = Chunk(data: seq<Byte>, sp: nat, cp: nat) {
    predicate Fits(size: nat) {
      |data| == size && sp <= cp <= size
    }

    function Rest(): seq<Byte>
      requires sp <= cp <= |data|
    {
      data[sp..cp]
    }
  }

  predicate AllFit(size: nat, chunks: seq<Chunk>) {
    forall i | 0 <= i < |chunks| :: chunks[i].Fits(size)
  }

  /** What every queue keeps: no chunk is empty, and only the last may have room. */
  predicate WellFormed(size: nat, chunks: seq<Chunk>) {
    && AllFit(size, chunks)
    && (forall i | 0 <= i < |chunks| :: chunks[i].sp < chunks[i].cp)
    && (forall i | 0 <= i < |chunks| - 1 :: chunks[i].cp == size)
  }

  /** The flat contents of a chain. */
  function Flat(size: nat, chunks: seq<Chunk>): seq<Byte>
    requires AllFit(size, chunks)
  {
    if chunks == [] then [] else chunks[0].Rest() + Flat(size, chunks[1..])
  }

  lemma {:induction false} FlatConcat(size: nat, a: seq<Chunk>, b: seq<Chunk>)
    requires AllFit(size, a) && AllFit(size, b)
    ensures AllFit(size, a + b) && Flat(size, a + b) == Flat(size, a) + Flat(size, b)
  {
    if a == [] {
      assert a + b == b;
    } else {
      assert (a + b)[1..] == a[1..] + b;
      FlatConcat(size, a[1..], b);
    }
  }

  lemma FlatLast(size: nat, chunks: seq<Chunk>)
    requires AllFit(size, chunks) && chunks != []
    ensures Flat(size, chunks) == Flat(size, chunks[..|chunks| - 1]) + chunks[|chunks| - 1].Rest()
  {
    var n := |chunks| - 1;
    assert chunks == chunks[..n] + [chunks[n]];
    FlatConcat(size, chunks[..n], [chunks[n]]);
  }

  lemma {:induction false} FlatEmpty(size: nat, chunks: seq<Chunk>)
    requires AllFit(size, chunks) && forall i | 0 <= i < |chunks| :: chunks[i].sp == chunks[i].cp
    ensures Flat(size, chunks) == []
  {
    if chunks != [] { FlatEmpty(size, chunks[1..]); }
  }

  lemma SliceSplit(prefix: seq<Byte>, p: seq<Byte>, k: nat, t: nat)
    requires k + t <= |p|
    ensures prefix + p[..k] + p[k..][..t] == prefix + p[..k + t] && p[k..][t..] == p[k + t..]
  {
    assert p[..k] + p[k..][..t] == p[..k + t];
  }

  function Concat(iov: seq<seq<Byte>>): seq<Byte> {
    if iov == [] then [] else iov[0] + Concat(iov[1..])
  }

  lemma {:induction false} ConcatAppend(iov: seq<seq<Byte>>, v: seq<Byte>)
    ensures Concat(iov + [v]) == Concat(iov) + v
  {
    if iov != [] {
      assert (iov + [v])[1..] == iov[1..] + [v];
      ConcatAppend(iov[1..], v);
    }
  }

  lemma {:induction false} ConcatConcat(x: seq<seq<Byte>>, y: seq<seq<Byte>>)
    ensures Concat(x + y) == Concat(x) + Concat(y)
  {
    if x == [] {
      assert x + y == y;
    } else {
      assert (x + y)[1..] == x[1..] + y;
      ConcatConcat(x[1..], y);
    }
  }

  /** The kernel's end of the descriptor.  A call accepts any number of the bytes offered, or
      fails with any errno.  `offered` records all that calls have offered.  `patience` bounds
      how often a call may make no progress while errno is EINTR. */
  class Fd {
    var accepted: seq<Byte>
    ghost var offered: seq<Byte>
    var errno: int
    var patience: nat

    method Writev(iov: seq<seq<Byte>>) returns (n: int)
      modifies this
      ensures -1 <= n <= |Concat(iov)|
      ensures accepted == old(accepted) + Concat(iov)[..if n < 0 then 0 else n]
      ensures offered == old(offered) + Concat(iov)
      ensures n >= 0 ==> errno == old(errno)
      ensures patience <= old(patience)
      ensures n <= 0 && errno == EINTR ==> patience < old(patience)
    {
      n :| -1 <= n <= |Concat(iov)|;
      if n < 0 { errno := *; }
      if n <= 0 && errno == EINTR {
        if patience == 0 { n, errno := -1, EAGAIN; } else { patience := patience - 1; }
      }
      accepted := accepted + Concat(iov)[..if n < 0 then 0 else n];
      offered := offered + Concat(iov);
    }
  }

  // ----- The column machine of buffer_flush_window -----

  const CR: Byte := 13
  const LF: Byte := 10

  predicate EndsLine(b: Byte, column: int, width: int) {
    b != CR && (b == LF || column == width)
  }

  function NextColumn(b: Byte, column: int, width: int): int {
    if b == CR || EndsLine(b, column, width) then 1 else column + 1
  }

  /** Lines completed by displaying s from the given column. */
  function Lines(s: seq<Byte>, column: int, width: int): nat {
    if s == [] then 0
    else (if EndsLine(s[0], column, width) then 1 else 0) + Lines(s[1..], NextColumn(s[0], column, width), width)
  }

  /** The column after displaying s. */
  function ColumnAfter(s: seq<Byte>, column: int, width: int): int {
    if s == [] then column else ColumnAfter(s[1..], NextColumn(s[0], column, width), width)
  }

  lemma {:induction false} LinesConcat(s: seq<Byte>, t: seq<Byte>, column: int, width: int)
    ensures Lines(s + t, column, width) == Lines(s, column, width) + Lines(t, ColumnAfter(s, column, width), width)
  {
    if s == [] {
      assert s + t == t;
    } else {
      assert (s + t)[1..] == s[1..] + t;
      LinesConcat(s[1..], t, NextColumn(s[0], column, width), width);
    }
  }

  /** No carriage return or line feed. */
  predicate Plain(s: seq<Byte>) {
    forall i | 0 <= i < |s| :: s[i] != 13 && s[i] != 10
  }

  function Quotient(n: int, width: int): int
    requires width > 0
  {
    n / width
  }

  function Remainder(n: int, width: int): int
    requires width > 0
  {
    n % width
  }

  /** Plain text ends a line each time it has filled the width. */
  lemma {:induction false} PlainLines(s: seq<Byte>, column: int, width: int)
    requires 1 <= column <= width && Plain(s)
    ensures Lines(s, column, width) == Quotient(column - 1 + |s|, width)
    ensures ColumnAfter(s, column, width) == Remainder(column - 1 + |s|, width) + 1
    decreases |s|
  {
    hide Quotient, Remainder;
    if s == [] {
      WithinWidth(column - 1, width);
    } else {
      assert s[0] != 13 && s[0] != 10;
      assert Plain(s[1..]) by { assert forall i | 0 <= i < |s| - 1 :: s[1..][i] == s[i + 1]; }
      OneWidthMore(|s| - 1, width);
      PlainLines(s[1..], if column == width then 1 else column + 1, width);
    }
  }

  lemma WithinWidth(n: nat, width: int)
    requires n < width
    ensures Quotient(n, width) == 0 && Remainder(n, width) == n
  {
    QuotientUnique(n, width, 0, n);
  }

  lemma OneWidthMore(n: nat, width: int)
    requires width > 0
    ensures Quotient(n + width, width) == Quotient(n, width) + 1 && Remainder(n + width, width) == Remainder(n, width)
  {
    var q, r := n / width, n % width;
    assert n + width == (q + 1) * width + r;
    QuotientUnique(n + width, width, q + 1, r);
  }

  lemma QuotientUnique(x: int, m: int, q: int, r: int)
    requires m > 0 && x == q * m + r && 0 <= r < m
    ensures x / m == q && x % m == r
  {
    var d := q - x / m;
    assert d * m == x % m - r;
    Multiple(d, m);
  }

  lemma Multiple(d: int, m: int)
    requires m > 0
    ensures d > 0 ==> d * m >= m
    ensures d < 0 ==> d * m <= -m
  {
  }

  /** What counts as a line: a full width, and a line feed; a carriage return only starts over. */
  lemma LinesCounted(s: seq<Byte>, t: seq<Byte>, width: int)
    requires width > 0 && Plain(s)
    ensures Lines(s, 1, width) == |s| / width
    ensures Lines(s + [10] + t, 1, width) == |s| / width + 1 + Lines(t, 1, width)
    ensures Lines(s + [13] + t, 1, width) == |s| / width + Lines(t, 1, width)
  {
    PlainLines(s, 1, width);
    var column := ColumnAfter(s, 1, width);
    assert s + [10] + t == s + ([10] + t) && s + [13] + t == s + ([13] + t);
    LinesConcat(s, [10] + t, 1, width);
    LinesConcat(s, [13] + t, 1, width);
    assert ([10] + t)[1..] == t && ([13] + t)[1..] == t;
  }

  /** How many bytes of s are displayed before `height` lines are used up. */
  function WindowTake(s: seq<Byte>, column: int, width: int, height: nat): (k: nat)
    ensures k <= |s|
  {
    if height == 0 || s == [] then 0
    else 1 + WindowTake(s[1..], NextColumn(s[0], column, width), width,
                        if EndsLine(s[0], column, width) then height - 1 else height)
  }

  lemma WindowDone(s: seq<Byte>, column: int, width: int, height: nat)
    ensures s == [] || height == 0 ==> WindowTake(s, column, width, height) == 0
  {
  }

  /** The window takes the shortest prefix that uses up its lines, or everything. */
  lemma {:induction false} WindowTakesShortest(s: seq<Byte>, column: int, width: int, height: nat)
    ensures var k := WindowTake(s, column, width, height);
            && Lines(s[..k], column, width) <= height
            && (k < |s| ==> Lines(s[..k], column, width) == height)
            && forall j: nat | j < k :: Lines(s[..j], column, width) < height
    decreases |s|
  {
    var k := WindowTake(s, column, width, height);
    if height > 0 && s != [] {
      var column' := NextColumn(s[0], column, width);
      var height' := if EndsLine(s[0], column, width) then height - 1 else height;
      WindowTakesShortest(s[1..], column', width, height');
      assert s[..k][1..] == s[1..][..k - 1];
      forall j: nat | j < k ensures Lines(s[..j], column, width) < height {
        if j > 0 {
          assert s[..j][1..] == s[1..][..j - 1];
          assert Lines(s[1..][..j - 1], column', width) < height';
        }
      }
    }
  }

  const BS: Byte := 8
  const SPACE: Byte := 32

  /** Backspaces, blanks and backspaces over the " --More-- " prompt. */
  const ERASE: seq<Byte> := [BS, BS, BS, BS, BS, BS, BS, BS, BS, BS,
                             SPACE, SPACE, SPACE, SPACE, SPACE, SPACE, SPACE, SPACE, SPACE, SPACE,
                             BS, BS, BS, BS, BS, BS, BS, BS, BS, BS]

  /** " --More-- " with its terminating zero, which sizeof counts and writev sends. */
  const MORE: seq<Byte> := [32, 45, 45, 77, 111, 114, 101, 45, 45, 32, 0]

  function WindowHeight(height: int): (h: nat)
    ensures h > 0
  {
    if height < 1 then 1 else if height >= 2 then height - 1 else height
  }

  function WindowWidth(width: int): nat {
    if width < 1 then 1 else width
  }

  /** A window of at least two lines leaves the last one for the prompt; it shows the shortest text
      that fills the others, or everything. */
  lemma WindowLeavesRoom(p: seq<Byte>, width: int, height: int)
    ensures var k := WindowTake(p, 1, WindowWidth(width), WindowHeight(height));
            var w, lines := if width >= 1 then width else 1, if height >= 2 then height - 1 else 1;
            && Lines(p[..k], 1, w) <= lines && (k < |p| ==> Lines(p[..k], 1, w) == lines)
            && forall j: nat | j < k :: Lines(p[..j], 1, w) < lines
  {
    WindowTakesShortest(p, 1, WindowWidth(width), WindowHeight(height));
  }

  // ----- The queue -----

  /** Memory pages needed for a default-size chunk. */
  function Pages(pageSize: nat): nat
    requires 0 < pageSize
  {
    (BUFFER_SIZE_DEFAULT - 1) / pageSize + 1
  }

  /** Copies p behind the data of d. */
  function Filled(d: Chunk, p: seq<Byte>): (r: Chunk)
    requires d.Fits(|d.data|) && d.cp + |p| <= |d.data|
    ensures r.Fits(|d.data|) && r.Rest() == d.Rest() + p
  {
    Chunk(d.data[..d.cp] + p + d.data[d.cp + |p|..], d.sp, d.cp + |p|)
  }

  /** A queue that may end in a chunk with nothing in it yet. */
  predicate AlmostWellFormed(size: nat, chunks: seq<Chunk>) {
    && AllFit(size, chunks) && chunks != []
    && forall i | 0 <= i < |chunks| - 1 :: chunks[i].sp < chunks[i].cp == size
  }

  lemma FlatAddChunk(size: nat, chunks: seq<Chunk>, d: Chunk)
    requires WellFormed(size, chunks) && (chunks == [] || chunks[|chunks| - 1].cp == size)
    requires d.Fits(size) && d.sp == d.cp
    ensures AlmostWellFormed(size, chunks + [d])
    ensures Flat(size, chunks + [d]) == Flat(size, chunks)
  {
    FlatConcat(size, chunks, [d]);
  }

  /** Growing the last chunk by `extra` grows the contents by `extra`. */
  lemma FlatGrowLast(size: nat, chunks: seq<Chunk>, d: Chunk, extra: seq<Byte>)
    requires AlmostWellFormed(size, chunks) && d.Fits(size) && extra != []
    requires d.Rest() == chunks[|chunks| - 1].Rest() + extra
    ensures WellFormed(size, chunks[|chunks| - 1 := d])
    ensures Flat(size, chunks[|chunks| - 1 := d]) == Flat(size, chunks) + extra
  {
    var n := |chunks| - 1;
    FlatLast(size, chunks);
    FlatLast(size, chunks[n := d]);
    assert chunks[n := d][..n] == chunks[..n];
    assert |d.Rest()| > 0;
  }

  lemma NothingFlat(size: nat, chunks: seq<Chunk>)
    requires AllFit(size, chunks)
    ensures chunks == [] ==> Flat(size, chunks) == []
  {
  }

  lemma FlatDropHead(size: nat, chunks: seq<Chunk>, k: nat)
    requires WellFormed(size, chunks) && chunks != [] && |chunks[0].Rest()| <= k <= |Flat(size, chunks)|
    ensures WellFormed(size, chunks[1..]) && k - |chunks[0].Rest()| <= |Flat(size, chunks[1..])|
    ensures Flat(size, chunks)[k..] == Flat(size, chunks[1..])[k - |chunks[0].Rest()|..]
  {
    DropWithin(chunks[0].Rest(), Flat(size, chunks[1..]), k);
  }

  lemma FlatShrinkHead(size: nat, chunks: seq<Chunk>, k: nat)
    requires WellFormed(size, chunks) && chunks != [] && k < |chunks[0].Rest()|
    ensures var d := chunks[0];
            var rest := chunks[0 := d.(sp := d.sp + k)];
            WellFormed(size, rest) && k <= |Flat(size, chunks)| && Flat(size, rest) == Flat(size, chunks)[k..]
  {
    var d := chunks[0];
    var rest := chunks[0 := d.(sp := d.sp + k)];
    assert rest[1..] == chunks[1..] && rest[0].Rest() == d.Rest()[k..];
  }

  /** A chain whose first m chunks are used up and whose others are a well-formed queue. */
  predicate Drained(size: nat, chunks: seq<Chunk>, m: nat) {
    && m <= |chunks| && AllFit(size, chunks)
    && (forall i | 0 <= i < m :: chunks[i].sp == chunks[i].cp)
    && (forall i | m <= i < |chunks| :: chunks[i].sp < chunks[i].cp)
    && (forall i | 0 <= i < |chunks| - 1 :: chunks[i].cp == size)
  }

  lemma FlatDrained(size: nat, chunks: seq<Chunk>, m: nat)
    requires Drained(size, chunks, m)
    ensures AllFit(size, chunks[m..]) && Flat(size, chunks) == Flat(size, chunks[m..])
    ensures Flat(size, chunks) != [] <==> m < |chunks|
  {
    assert chunks == chunks[..m] + chunks[m..];
    FlatConcat(size, chunks[..m], chunks[m..]);
    FlatEmpty(size, chunks[..m]);
    if m < |chunks| {
      assert |chunks[m].Rest()| > 0;
    }
  }

  /** Using up k more bytes of the first chunk that has any. */
  lemma DrainedStep(size: nat, chunks: seq<Chunk>, m: nat, k: nat)
    requires Drained(size, chunks, m) && m < |chunks| && k <= |chunks[m].Rest()|
    ensures var d := chunks[m];
            Drained(size, chunks[m := d.(sp := d.sp + k)], if k < |d.Rest()| then m else m + 1)
  {
  }

  lemma FlatDrainedStep(size: nat, chunks: seq<Chunk>, m: nat, k: nat)
    requires Drained(size, chunks, m) && m < |chunks| && k <= |chunks[m].Rest()|
    requires AllFit(size, chunks[m := chunks[m].(sp := chunks[m].sp + k)])
    ensures AllFit(size, chunks[m + 1..])
    ensures var d := chunks[m];
            var f := Flat(size, chunks[m + 1..]);
            && Flat(size, chunks) == d.Rest() + f
            && Flat(size, chunks[m := d.(sp := d.sp + k)]) == d.Rest()[k..] + f == Flat(size, chunks)[k..]
            && Flat(size, chunks)[..k] == d.data[d.sp..d.sp + k]
  {
    hide Flat;
    var d := chunks[m];
    var rest := chunks[m := d.(sp := d.sp + k)];
    FlatSkip(size, chunks, m);
    FlatSkip(size, rest, m);
    assert rest[m + 1..] == chunks[m + 1..];
    RestAdvances(d, k);
    DropWithin(d.Rest(), Flat(size, chunks[m + 1..]), k);
  }

  lemma RestAdvances(d: Chunk, k: nat)
    requires d.sp <= d.cp <= |d.data| && k <= |d.Rest()|
    ensures d.(sp := d.sp + k).Rest() == d.Rest()[k..] && d.Rest()[..k] == d.data[d.sp..d.sp + k]
  {
  }

  lemma DropWithin(a: seq<Byte>, b: seq<Byte>, k: nat)
    ensures k <= |a| ==> (a + b)[k..] == a[k..] + b && (a + b)[..k] == a[..k]
    ensures |a| <= k <= |a| + |b| ==> (a + b)[k..] == b[k - |a|..]
  {
  }

  lemma FlatSkip(size: nat, chunks: seq<Chunk>, m: nat)
    requires AllFit(size, chunks) && m < |chunks|
    requires forall i | 0 <= i < m :: chunks[i].sp == chunks[i].cp
    ensures AllFit(size, chunks[m + 1..])
    ensures Flat(size, chunks) == chunks[m].Rest() + Flat(size, chunks[m + 1..])
  {
    assert chunks == chunks[..m] + chunks[m..] && chunks[m..][1..] == chunks[m + 1..];
    FlatConcat(size, chunks[..m], chunks[m..]);
    FlatEmpty(size, chunks[..m]);
  }

  class Buffer {
    var size: nat
    var chunks: seq<Chunk>

    ghost predicate Valid()
      reads this
    {
      0 < size && WellFormed(size, chunks)
    }

    ghost function Pending(): seq<Byte>
      reads this
      requires Valid()
    {
      Flat(size, chunks)
    }

    constructor (requested: nat, pageSize: nat)
      requires 0 < pageSize
      ensures Valid() && Pending() == []
      ensures if requested != 0 then size == requested
              else size == Pages(pageSize) * pageSize && BUFFER_SIZE_DEFAULT <= size < BUFFER_SIZE_DEFAULT + pageSize
    {
      assert Pages(pageSize) * pageSize == (Pages(pageSize) - 1) * pageSize + pageSize;
      size := if requested != 0 then requested else Pages(pageSize) * pageSize;
      chunks := [];
    }

    method Reset()
      modifies this
      requires Valid()
      ensures Valid() && Pending() == [] && size == old(size)
    {
      chunks := [];
    }

    /** All pending bytes as a zero-terminated string; the queue is left as it is. */
    method GetStr() returns (s: seq<Byte>)
      requires Valid()
      ensures s == Pending() + [0]
    {
      s := [];
      for i := 0 to |chunks|
        invariant s == Flat(size, chunks[..i])
      {
        s := s + chunks[i].Rest();
        assert chunks[..i + 1][..i] == chunks[..i];
        FlatLast(size, chunks[..i + 1]);
      }
      assert chunks[..|chunks|] == chunks;
      s := s + [0];
    }

    /** Adds a chunk with nothing in it to the end. */
    method Add()
      requires Valid() && (chunks == [] || chunks[|chunks| - 1].cp == size)
      modifies `chunks
      ensures AlmostWellFormed(size, chunks) && Flat(size, chunks) == old(Pending())
      ensures |chunks| == |old(chunks)| + 1 && chunks[|old(chunks)|].cp == 0
    {
      FlatAddChunk(size, chunks, Chunk(seq(size, _ => 0), 0, 0));
      chunks := chunks + [Chunk(seq(size, _ => 0), 0, 0)];
    }

    /** Copies as much of p as the last chunk takes, after adding a chunk if it is full. */
    method PutSome(p: seq<Byte>) returns (chunk: nat)
      requires Valid() && p != []
      modifies `chunks
      ensures Valid() && 0 < chunk <= |p| && Pending() == old(Pending()) + p[..chunk]
    {
      if chunks == [] || chunks[|chunks| - 1].cp == size {
        Add();
      }
      var n := |chunks| - 1;
      var d := chunks[n];
      chunk := if |p| <= size - d.cp then |p| else size - d.cp;
      var piece := p[..chunk];
      var filled := Filled(d, piece);
      FlatGrowLast(size, chunks, filled, piece);
      chunks := chunks[n := filled];
    }

    /** Appends p to the queue. */
    method Put(p: seq<Byte>)
      requires Valid()
      modifies `chunks
      ensures Valid() && Pending() == old(Pending()) + p
    {
      var k := 0;
      while k < |p|
        invariant 0 <= k <= |p| && Valid() && Pending() == old(Pending()) + p[..k]
      {
        var chunk := PutSome(p[k..]);
        assert p[..k + chunk] == p[..k] + p[k..][..chunk];
        k := k + chunk;
      }
    }

    /** The iovec of buffer_flush_available: a prefix of the pending bytes. */
    method Gather() returns (iov: seq<seq<Byte>>)
      requires Valid()
      ensures Concat(iov) <= Pending()
      ensures chunks != [] ==> Concat(iov) != []
      ensures |iov| <= MAX_CHUNKS && |iov| <= |chunks|
      ensures |iov| < |chunks| ==> |iov| == MAX_CHUNKS || |Concat(iov)| >= MAX_FLUSH
    {
      iov := [];
      var nbyte, i := 0, 0;
      while i < |chunks| && |iov| < MAX_CHUNKS && nbyte < MAX_FLUSH
        invariant 0 <= i == |iov| <= |chunks| && i <= MAX_CHUNKS
        invariant Concat(iov) == Flat(size, chunks[..i]) && nbyte == |Concat(iov)|
        invariant i > 0 ==> Concat(iov) != []
      {
        ConcatAppend(iov, chunks[i].Rest());
        assert chunks[..i + 1][..i] == chunks[..i];
        FlatLast(size, chunks[..i + 1]);
        iov := iov + [chunks[i].Rest()];
        nbyte := nbyte + (chunks[i].cp - chunks[i].sp);
        i := i + 1;
      }
      assert chunks == chunks[..i] + chunks[i..];
      FlatConcat(size, chunks[..i], chunks[i..]);
    }

    /** Removes `written` bytes from the front.  `corrupt` reports the branch that finds the
        queue empty too early. */
    method Consume(written: nat) returns (corrupt: bool)
      requires Valid() && written <= |Pending()|
      modifies `chunks
      ensures Valid() && Pending() == old(Pending())[written..] && !corrupt
      ensures |chunks| <= |old(chunks)|
      ensures written == 0 ==> chunks == old(chunks)
      ensures written > 0 && chunks != [] && |chunks| == |old(chunks)| ==> chunks[0].sp > old(chunks)[0].sp
    {
      hide Flat;
      corrupt := false;
      var left := written;
      while left > 0
        invariant Valid() && 0 <= left <= |Pending()|
        invariant Pending()[left..] == old(Pending())[written..]
        invariant if left == written then chunks == old(chunks) else |chunks| < |old(chunks)|
      {
        NothingFlat(size, chunks);
        if chunks == [] {
          corrupt := true;
          break;
        }
        var d := chunks[0];
        if left < d.cp - d.sp {
          FlatShrinkHead(size, chunks, left);
          chunks := chunks[0 := d.(sp := d.sp + left)];
          return;
        }
        FlatDropHead(size, chunks, left);
        left := left - (d.cp - d.sp);
        chunks := chunks[1..];
      }
    }

    /** Flushes one big chunk.  Every byte the kernel takes leaves the queue, and no other. */
    method FlushAvailable(fd: Fd) returns (st: Status)
      requires Valid()
      modifies `chunks, fd
      ensures Valid()
      ensures fd.accepted + Pending() == old(fd.accepted) + old(Pending())
      ensures old(fd.accepted) <= fd.accepted
      ensures st == Status.Empty ==> chunks == []
      ensures st == Status.Pending ==> chunks != []
      ensures st == Error ==> chunks == old(chunks) && fd.accepted == old(fd.accepted) && !IoRetry(fd.errno)
      ensures fd.patience <= old(fd.patience)
      ensures st == Status.Pending ==> |chunks| <= |old(chunks)| && old(chunks) != []
      ensures st == Status.Pending && fd.accepted == old(fd.accepted) ==>
                chunks == old(chunks) && (fd.errno == EINTR ==> fd.patience < old(fd.patience))
    {
      var iov := Gather();
      if Concat(iov) == [] { return Status.Empty; }
      var n := fd.Writev(iov);
      if n < 0 {
        return if IoRetry(fd.errno) then Status.Pending else Error;
      }
      assert Concat(iov)[..n] == Pending()[..n];
      var corrupt := Consume(n);
      st := if chunks != [] then Status.Pending else Status.Empty;
    }

    /** Flushes until the queue is empty, an error occurs or the kernel would block. */
    method FlushAll(fd: Fd) returns (st: Status)
      requires Valid()
      modifies `chunks, fd
      ensures Valid()
      ensures fd.accepted + Pending() == old(fd.accepted) + old(Pending())
      ensures st == Status.Empty ==> Pending() == []
      ensures st == Status.Pending ==> Pending() != [] && fd.errno != EINTR
      ensures st == Error ==> !IoRetry(fd.errno)
    {
      if chunks == [] { return Status.Empty; }
      var headLeft, headSp := |chunks|, chunks[0].sp;
      st := FlushAvailable(fd);
      while st == Status.Pending
        invariant Valid()
        invariant fd.accepted + Pending() == old(fd.accepted) + old(Pending())
        invariant st == Status.Empty ==> chunks == []
        invariant st == Status.Pending ==> chunks != []
        invariant st == Error ==> !IoRetry(fd.errno)
        decreases st == Status.Pending, |Pending()|, fd.patience,
                  st == Status.Pending && !(|chunks| == headLeft && chunks[0].sp == headSp && fd.errno != EINTR)
      {
        ghost var accepted := fd.accepted;
        if |chunks| == headLeft && chunks[0].sp == headSp && fd.errno != EINTR {
          return st;
        }
        headLeft, headSp := |chunks|, chunks[0].sp;
        st := FlushAvailable(fd);
        assert fd.accepted == accepted || |fd.accepted| > |accepted|;
      }
    }

    /** Writes p at once if nothing is queued, and queues what the kernel did not take. */
    method Write(fd: Fd, p: seq<Byte>) returns (st: Status)
      requires Valid()
      modifies `chunks, fd
      ensures Valid()
      ensures st == Error ==> fd.accepted == old(fd.accepted) && chunks == old(chunks) && chunks == []
      ensures st != Error ==> fd.accepted + Pending() == old(fd.accepted) + old(Pending()) + p
      ensures st == Status.Empty <==> st != Error && chunks == []
    {
      var nbytes := 0;
      if chunks == [] {
        assert Concat([p]) == p;
        nbytes := fd.Writev([p]);
        if nbytes < 0 {
          if !IoRetry(fd.errno) { return Error; }
          nbytes := 0;
        }
      }
      assert p == p[..nbytes] + p[nbytes..];
      if nbytes < |p| {
        Put(p[nbytes..]);
      }
      st := if chunks != [] then Status.Pending else Status.Empty;
    }

    /** Displays one chunk: how many of its bytes fit in the lines left, and where the cursor
        then stands.  `rest` is what follows the chunk in the queue. */
    static method ScanChunk(d: Chunk, column: int, width: int, height: nat, ghost rest: seq<Byte>)
        returns (k: nat, column': int, height': nat)
      requires d.Fits(|d.data|)
      ensures k <= |d.Rest()| && height' <= height && (k < |d.Rest()| ==> height' == 0)
      ensures WindowTake(d.Rest() + rest, column, width, height)
           == k + WindowTake(d.Rest()[k..] + rest, column', width, height')
    {
      k, column', height' := 0, column, height;
      assert d.Rest()[0..] == d.Rest();
      while d.sp + k < d.cp && height' > 0
        invariant 0 <= k <= |d.Rest()| && height' <= height
        invariant WindowTake(d.Rest() + rest, column, width, height)
               == k + WindowTake(d.Rest()[k..] + rest, column', width, height')
        decreases |d.Rest()| - k
      {
        var b := d.data[d.sp + k];
        ghost var left := d.Rest()[k..] + rest;
        assert left[0] == b && left[1..] == d.Rest()[k + 1..] + rest;
        if b == CR {
          column' := 1;
        } else if b == LF || column' == width {
          column', height' := 1, height' - 1;
        } else {
          column' := column' + 1;
        }
        k := k + 1;
      }
    }

    /** Frees the used-up chunks at the front. */
    method FreeUsed(ghost m: nat)
      requires 0 < size && Drained(size, chunks, m)
      modifies `chunks
      ensures Valid() && Pending() == old(Flat(size, chunks))
    {
      ghost var left := m;
      while chunks != [] && chunks[0].sp == chunks[0].cp
        invariant Drained(size, chunks, left) && Flat(size, chunks) == old(Flat(size, chunks))
        decreases |chunks|
      {
        chunks := chunks[1..];
        left := left - 1;
      }
    }

    /** Displays chunk i, the first with bytes left, and records what was shown in the
        io-vector: of the bytes p, k have been shown before and k' after. */
    method ShowChunk(i: nat, column: int, width: int, height: nat, iov: array<seq<Byte>>, index: nat,
                     ghost prefix: seq<Byte>, ghost p: seq<Byte>, ghost k: nat)
        returns (column': int, height': nat, ghost m: nat, ghost k': nat)
      requires Drained(size, chunks, i) && i < |chunks| && index < iov.Length
      requires k <= |p| && Flat(size, chunks) == p[k..] && Concat(iov[..index]) == prefix + p[..k]
      modifies `chunks, iov
      ensures |chunks| == |old(chunks)| && Drained(size, chunks, m) && (height' > 0 ==> m == i + 1)
      ensures k' <= |p| && Flat(size, chunks) == p[k'..] && Concat(iov[..index + 1]) == prefix + p[..k']
      ensures k + WindowTake(p[k..], column, width, height) == k' + WindowTake(p[k'..], column', width, height')
    {
      hide Flat, WindowTake, Concat;
      var d := chunks[i];
      FlatSkip(size, chunks, i);
      var taken;
      taken, column', height' := ScanChunk(d, column, width, height, Flat(size, chunks[i + 1..]));
      DrainedStep(size, chunks, i, taken);
      FlatDrainedStep(size, chunks, i, taken);
      SliceSplit(prefix, p, k, taken);
      Store(iov, index, d.data[d.sp..d.sp + taken]);
      chunks := chunks[i := d.(sp := d.sp + taken)];
      m, k' := if taken < |d.Rest()| then i else i + 1, k + taken;
    }

    /** Collects one window of the queue in an io-vector, after the erase string if it is asked
        for, and leaves room for one more element.  `smallOverflow` reports that the
        three-element vector was outgrown. */
    method FillWindow(width: nat, height: nat, erase: bool)
        returns (iov: array<seq<Byte>>, index: nat, smallOverflow: bool, ghost m: nat)
      requires Valid() && chunks != [] && height > 0
      modifies `chunks
      ensures chunks != [] && Drained(size, chunks, m) && fresh(iov) && index < iov.Length && !smallOverflow
      ensures var k := WindowTake(old(Pending()), 1, width, height);
              && Flat(size, chunks) == old(Pending())[k..]
              && Concat(iov[..index]) == (if erase then ERASE else []) + old(Pending())[..k]
    {
      hide Flat, WindowTake, Concat;
      var small := |chunks| == 1;
      iov, index := NewVector(small, width, height, size, erase);
      smallOverflow := false;
      ghost var prefix := if erase then ERASE else [];
      ghost var p, k := Pending(), 0;
      var column, i, h := 1, 0, height;
      m := 0;
      while i < |chunks| && h > 0
        invariant 0 <= i <= |chunks| == |old(chunks)| && Drained(size, chunks, m) && (h > 0 ==> m == i)
        invariant fresh(iov) && index < iov.Length && !smallOverflow
        invariant small ==> iov.Length == 3 && index == (if erase then 1 else 0) + i
        invariant 0 <= k <= |p| && Flat(size, chunks) == p[k..]
        invariant WindowTake(p, 1, width, height) == k + WindowTake(p[k..], column, width, h)
        invariant Concat(iov[..index]) == prefix + p[..k]
      {
        column, h, m, k := ShowChunk(i, column, width, h, iov, index, prefix, p, k);
        index, i := index + 1, i + 1;
        if index == iov.Length {
          smallOverflow := small;
          iov := Grown(iov);
        }
      }
      FlatDrained(size, chunks, m);
      WindowDone(p[k..], column, width, h);
    }

    /** Sends one window.  Data that the kernel does not take is not kept. */
    method FlushWindow(fd: Fd, width: int, height: int, erase: bool, noMore: bool, iovMax: nat)
        returns (st: Status)
      requires Valid() && 0 < iovMax
      modifies `chunks, fd
      ensures Valid()
      ensures old(chunks) == [] ==>
                st == Status.Empty && chunks == [] && fd.accepted == old(fd.accepted) && fd.offered == old(fd.offered)
      ensures old(chunks) != [] ==>
                var p := old(Pending());
                var k := WindowTake(p, 1, WindowWidth(width), WindowHeight(height));
                var shown := (if erase then ERASE else []) + p[..k] + (if k < |p| && !noMore then MORE else []);
                WindowOutcome(st, shown, p[k..], Pending(), old(fd.accepted), fd.accepted, old(fd.offered), fd.offered)
    {
      hide Flat, WindowTake, Concat, WindowOutcome, Sent;
      if chunks == [] { return Status.Empty; }
      ghost var p := Pending();
      ghost var k := WindowTake(p, 1, WindowWidth(width), WindowHeight(height));
      var iov, index, smallOverflow, m := FillWindow(WindowWidth(width), WindowHeight(height), erase);
      FlatDrained(size, chunks, m);
      if chunks[|chunks| - 1].sp < chunks[|chunks| - 1].cp && !noMore {
        Store(iov, index, MORE);
        index := index + 1;
      }
      ghost var shown := Concat(iov[..index]);
      assert shown == (if erase then ERASE else []) + p[..k] + (if k < |p| && !noMore then MORE else []);
      var nbytes := SendVector(fd, iov, index, iovMax);
      FreeUsed(m);
      FlatDrained(size, chunks, 0);
      st := if nbytes < 0 then Error else if chunks != [] then Status.Pending else Status.Empty;
      WindowSent(st, shown, Pending(), old(fd.accepted), fd.accepted, old(fd.offered), fd.offered);
    }
  }

  /** What sending a window leads to: the rest stays pending; unless a call failed all that is shown
      was offered, else a prefix of it; none of it is lost if and only if as much is accepted. */
  ghost predicate WindowOutcome(st: Status, shown: seq<Byte>, rest: seq<Byte>, pending: seq<Byte>,
                                a: seq<Byte>, a': seq<Byte>, o: seq<Byte>, o': seq<Byte>)
  {
    && pending == rest
    && (if st == Error then o <= o' <= o + shown else o' == o + shown)
    && Sent(a, a', o, o')
    && (a' + pending == a + shown + rest <==> |a'| == |a| + |shown|)
    && (st == Status.Empty ==> rest == []) && (st == Status.Pending ==> rest != [])
  }

  lemma WindowSent(st: Status, shown: seq<Byte>, rest: seq<Byte>,
                   a: seq<Byte>, a': seq<Byte>, o: seq<Byte>, o': seq<Byte>)
    requires Sent(a, a', o, o') && if st == Error then o <= o' <= o + shown else o' == o + shown
    requires (st == Status.Empty ==> rest == []) && (st == Status.Pending ==> rest != [])
    ensures WindowOutcome(st, shown, rest, rest, a, a', o, o')
  {
    hide Sent;
    NothingLost(a, a', o, o', shown, rest);
  }

  /** No more is accepted than was offered; if it is as much, it is the very bytes offered. */
  predicate Sent(accepted: seq<Byte>, accepted': seq<Byte>, offered: seq<Byte>, offered': seq<Byte>) {
    && accepted <= accepted' && offered <= offered'
    && |accepted'| - |accepted| <= |offered'| - |offered|
    && (|accepted'| - |accepted| == |offered'| - |offered| ==> accepted' == accepted + offered'[|offered|..])
  }

  /** No byte shown is lost if and only if as many are accepted as were shown. */
  lemma NothingLost(a: seq<Byte>, a': seq<Byte>, o: seq<Byte>, o': seq<Byte>, shown: seq<Byte>, rest: seq<Byte>)
    requires Sent(a, a', o, o') && o' <= o + shown
    ensures a' + rest == a + shown + rest <==> |a'| == |a| + |shown|
  {
    if |a'| == |a| + |shown| {
      assert o' == o + shown && o'[|o|..] == shown;
    }
    if a' + rest == a + shown + rest { assert |a' + rest| == |a + shown + rest|; }
  }

  lemma SentMore(a: seq<Byte>, a': seq<Byte>, o: seq<Byte>, o': seq<Byte>, v: seq<Byte>, n: nat)
    requires Sent(a, a', o, o') && n <= |v|
    ensures Sent(a, a' + v[..n], o, o' + v)
  {
    assert n == |v| ==> v[..n] == v;
    assert (o' + v)[|o|..] == o'[|o|..] + v;
  }

  /** Writes the first `index` elements, at most iovMax to a call, until a call fails. */
  method SendVector(fd: Fd, iov: array<seq<Byte>>, index: nat, iovMax: nat) returns (nbytes: int)
    requires 0 < iovMax && index <= iov.Length
    modifies fd
    ensures nbytes >= 0 ==> fd.offered == old(fd.offered) + Concat(iov[..index])
    ensures nbytes < 0 ==> old(fd.offered) <= fd.offered <= old(fd.offered) + Concat(iov[..index])
    ensures Sent(old(fd.accepted), fd.accepted, old(fd.offered), fd.offered)
  {
    hide Sent, Concat;
    var start := 0;
    nbytes := 0;
    NothingSent(fd.accepted, fd.offered, iov[..0]);
    while start < index && nbytes >= 0
      invariant 0 <= start <= index
      invariant fd.offered == old(fd.offered) + Concat(iov[..start])
      invariant Sent(old(fd.accepted), fd.accepted, old(fd.offered), fd.offered)
      decreases index - start
    {
      var count := if index - start > iovMax then iovMax else index - start;
      ghost var v := Concat(iov[start..start + count]);
      ghost var accepted, offered := fd.accepted, fd.offered;
      nbytes := fd.Writev(iov[start..start + count]);
      SentMore(old(fd.accepted), accepted, old(fd.offered), offered, v, if nbytes < 0 then 0 else nbytes);
      ConcatConcat(iov[..start], iov[start..start + count]);
      assert iov[..start] + iov[start..start + count] == iov[..start + count];
      start := start + count;
    }
    ConcatConcat(iov[..start], iov[start..index]);
    assert iov[..start] + iov[start..index] == iov[..index];
  }

  lemma NothingSent(accepted: seq<Byte>, offered: seq<Byte>, iov: seq<seq<Byte>>)
    requires iov == []
    ensures Sent(accepted, accepted, offered, offered) && Concat(iov) == []
  {
  }

  /** Elements allocated for the io-vector: three on the stack when there is one chunk. */
  function VectorLength(small: bool, width: nat, height: nat, size: nat): (n: nat)
    requires 0 < size
    ensures n >= 3 && (small ==> n == 3)
  {
    if small then 3 else height * (width + 2) / size + 10
  }

  method NewVector(small: bool, width: nat, height: nat, size: nat, erase: bool)
      returns (iov: array<seq<Byte>>, index: nat)
    requires 0 < size
    ensures fresh(iov) && iov.Length == VectorLength(small, width, height, size)
    ensures index == (if erase then 1 else 0) && Concat(iov[..index]) == if erase then ERASE else []
  {
    iov := new seq<Byte>[VectorLength(small, width, height, size)](_ => []);
    index := 0;
    if erase {
      Store(iov, 0, ERASE);
      index := 1;
    }
  }

  method Store(iov: array<seq<Byte>>, index: nat, v: seq<Byte>)
    requires index < iov.Length
    modifies iov
    ensures Concat(iov[..index + 1]) == old(Concat(iov[..index])) + v
  {
    ConcatAppend(iov[..index], v);
    iov[index] := v;
    assert iov[..index + 1] == old(iov[..index]) + [v];
  }

  /** The vector at twice its length. */
  method Grown(iov: array<seq<Byte>>) returns (r: array<seq<Byte>>)
    requires iov.Length > 0
    ensures fresh(r) && r.Length == 2 * iov.Length && r[..iov.Length] == iov[..iov.Length]
  {
    r := new seq<Byte>[2 * iov.Length](_ => []);
    for i := 0 to iov.Length
      invariant r[..i] == iov[..i]
    {
      r[i] := iov[i];
    }
  }

  // ----- Whole sessions -----

  datatype Op = DoPut(bytes: seq<Byte>) | DoWrite(bytes: seq<Byte>) | DoFlushAvailable | DoFlushAll

  function Submitted(ops: seq<Op>): seq<Byte> {
    if ops == [] then []
    else Submitted(ops[..|ops| - 1])
         + (match ops[|ops| - 1] case DoPut(p) => p case DoWrite(p) => p case _ => [])
  }

  /** Conservation over a session: up to the first error, what the kernel accepted followed
      by what is still queued is exactly what was submitted, in order. */
  method Session(b: Buffer, fd: Fd, ops: seq<Op>) returns (done: nat, st: Status)
    requires b.Valid() && b.Pending() == [] && fd.accepted == []
    modifies b`chunks, fd
    ensures b.Valid() && done <= |ops| && (st != Error ==> done == |ops|)
    ensures fd.accepted + b.Pending() == Submitted(ops[..done])
  {
    done, st := 0, Status.Empty;
    while done < |ops|
      invariant 0 <= done <= |ops| && b.Valid() && st != Error
      invariant fd.accepted + b.Pending() == Submitted(ops[..done])
    {
      assert ops[..done + 1][..done] == ops[..done];
      match ops[done] {
        case DoPut(p) => b.Put(p);
        case DoWrite(p) => st := b.Write(fd, p);
        case DoFlushAvailable => st := b.FlushAvailable(fd);
        case DoFlushAll => st := b.FlushAll(fd);
      }
      if st == Error { return; }
      done := done + 1;
    }
  }
}
