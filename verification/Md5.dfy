/** The MD5 context of lib/md5.c: streaming and padding (sections 3.1 and 3.2 of RFC 1321) and
    the keyed digest of section 2 of RFC 2104. The compression of one block is a parameter. */
module Md5s {

  import opened Types

  datatype State = State(a: nat, b: nat, c: nat, d: nat)

  type Compression = (State, seq<Byte>) -> State

  const INIT := State(0x67452301, 0xefcdab89, 0x98badcfe, 0x10325476)

  // ----- The digest of a message -----

  /** The state after the blocks of s. */
  function Absorb(compress: Compression, st: State, s: seq<Byte>): State
    decreases |s|
  {
    if |s| < 64 then st else Absorb(compress, compress(st, s[..64]), s[64..])
  }

  lemma {:induction false} AbsorbConcat(compress: Compression, st: State, s: seq<Byte>, t: seq<Byte>)
    requires |s| % 64 == 0
    ensures Absorb(compress, st, s + t) == Absorb(compress, Absorb(compress, st, s), t)
    decreases |s|
  {
    if s == [] {
      assert s + t == t;
    } else {
      assert (s + t)[..64] == s[..64];
      assert (s + t)[64..] == s[64..] + t;
      AbsorbConcat(compress, compress(st, s[..64]), s[64..], t);
    }
  }

  lemma AbsorbBlock(compress: Compression, st: State, s: seq<Byte>, t: seq<Byte>)
    requires |s| % 64 == 0 && |t| == 64
    ensures Absorb(compress, st, s + t) == compress(Absorb(compress, st, s), t)
  {
    AbsorbConcat(compress, st, s, t);
    assert t[..64] == t;
  }

  /** The low k bytes of n, low byte first. */
  function LittleEndian(n: nat, k: nat): (s: seq<Byte>)
    ensures |s| == k
  {
    if k == 0 then [] else [n % 256] + LittleEndian(n / 256, k - 1)
  }

  function Power256(k: nat): (p: nat)
    ensures p >= 1
  {
    if k == 0 then 1 else 256 * Power256(k - 1)
  }

  lemma {:induction false} LittleEndianInjective(m: nat, n: nat, k: nat)
    requires m < Power256(k) && n < Power256(k) && LittleEndian(m, k) == LittleEndian(n, k)
    ensures m == n
    decreases k
  {
    if k > 0 {
      var s, t := LittleEndian(m, k), LittleEndian(n, k);
      assert m % 256 == s[0] == t[0] == n % 256;
      assert LittleEndian(m / 256, k - 1) == s[1..] == t[1..] == LittleEndian(n / 256, k - 1);
      LittleEndianInjective(m / 256, n / 256, k - 1);
    }
  }

  /** Byte i of a number is its digit for 256^i. */
  lemma {:induction false} LittleEndianDigit(n: nat, k: nat, i: nat)
    requires i < k
    ensures LittleEndian(n, k)[i] == n / Power256(i) % 256
    decreases k
  {
    if i > 0 {
      LittleEndianDigit(n / 256, k - 1, i - 1);
      DivideTwice(n, Power256(i - 1));
    }
  }

  lemma DivideTwice(n: nat, p: nat)
    requires p > 0
    ensures n / 256 / p == n / (256 * p)
  {
    var a, r := n / 256, n % 256;
    var q, s := a / p, a % p;
    assert n == 256 * (q * p + s) + r == q * (256 * p) + (256 * s + r);
    assert 256 * s + r < 256 * p;
    QuotientIs(n, 256 * p, q, 256 * s + r);
  }

  lemma QuotientIs(x: nat, m: nat, q: nat, r: nat)
    requires m > 0 && x == q * m + r && r < m
    ensures x / m == q
  {
    var d := q - x / m;
    assert d * m == x % m - r;
    Multiple(d, m);
  }

  lemma Multiple(d: int, m: int)
    requires m > 0
    ensures d > 0 ==> d * m >= m
    ensures d < 0 ==> d * m <= -m
  {
  }

  lemma EightBytes()
    ensures Power256(8) == 0x1_0000_0000_0000_0000
  {
    assert Power256(4) == 0x1_0000_0000 by {
      assert Power256(2) == 65536;
    }
    assert Power256(6) == 65536 * 0x1_0000_0000;
  }

  function Zeros(n: nat): (s: seq<Byte>)
    ensures |s| == n
  {
    seq(n, _ => 0)
  }

  /** How many zeros follow the byte 0x80, for a message whose last block holds `tail` bytes. */
  function PadZeros(tail: nat): nat
    requires tail < 64
  {
    if tail < 56 then 55 - tail else 119 - tail
  }

  /** A message padded to whole blocks: 0x80, zeros and its length in bits as it was counted. */
  function Padded(message: seq<Byte>, bits: nat): seq<Byte> {
    message + [0x80] + Zeros(PadZeros(|message| % 64)) + LittleEndian(bits % 0x1_0000_0000_0000_0000, 8)
  }

  /** Padding adds the least that makes whole blocks. */
  lemma PaddedFillsBlocks(message: seq<Byte>, bits: nat)
    ensures |Padded(message, bits)| % 64 == 0 && |message| + 9 <= |Padded(message, bits)| < |message| + 73
  {
    var tail := |message| % 64;
    assert |message| == 64 * (|message| / 64) + tail;
    assert |Padded(message, bits)| == 64 * (|message| / 64 + if tail < 56 then 1 else 2);
  }

  /** The padding of a message determines the count modulo 2^64. */
  lemma PaddedDetermines(message: seq<Byte>, m: nat, n: nat)
    ensures Padded(message, m) == Padded(message, n) <==> m % 0x1_0000_0000_0000_0000 == n % 0x1_0000_0000_0000_0000
  {
    if Padded(message, m) == Padded(message, n) {
      var k := |message| + 1 + PadZeros(|message| % 64);
      assert Padded(message, m)[k..] == LittleEndian(m % 0x1_0000_0000_0000_0000, 8);
      assert Padded(message, n)[k..] == LittleEndian(n % 0x1_0000_0000_0000_0000, 8);
      EightBytes();
      LittleEndianInjective(m % 0x1_0000_0000_0000_0000, n % 0x1_0000_0000_0000_0000, 8);
    }
  }

  function Output(st: State): (s: seq<Byte>)
    ensures |s| == 16
  {
    LittleEndian(st.a, 4) + LittleEndian(st.b, 4) + LittleEndian(st.c, 4) + LittleEndian(st.d, 4)
  }

  /** The words come out in order, each low byte first. */
  lemma OutputBytes(st: State, i: nat)
    requires i < 4
    ensures Output(st)[i] == st.a / Power256(i) % 256 && Output(st)[4 + i] == st.b / Power256(i) % 256
    ensures Output(st)[8 + i] == st.c / Power256(i) % 256 && Output(st)[12 + i] == st.d / Power256(i) % 256
  {
    hide LittleEndian, Power256;
    LittleEndianDigit(st.a, 4, i);
    LittleEndianDigit(st.b, 4, i);
    LittleEndianDigit(st.c, 4, i);
    LittleEndianDigit(st.d, 4, i);
  }

  /** The initial words as section 3.3 of RFC 1321 lists them byte by byte. */
  lemma InitialBytes()
    ensures LittleEndian(INIT.a, 4) == [0x01, 0x23, 0x45, 0x67] && LittleEndian(INIT.b, 4) == [0x89, 0xab, 0xcd, 0xef]
    ensures LittleEndian(INIT.c, 4) == [0xfe, 0xdc, 0xba, 0x98] && LittleEndian(INIT.d, 4) == [0x76, 0x54, 0x32, 0x10]
  {
    FourBytes(INIT.a);
    FourBytes(INIT.b);
    FourBytes(INIT.c);
    FourBytes(INIT.d);
  }

  lemma FourBytes(n: nat)
    ensures LittleEndian(n, 4) == [n % 256, n / 256 % 256, n / 256 / 256 % 256, n / 256 / 256 / 256 % 256]
  {
    assert LittleEndian(n / 256 / 256 / 256, 1) == [n / 256 / 256 / 256 % 256];
    assert LittleEndian(n / 256 / 256, 2) == [n / 256 / 256 % 256, n / 256 / 256 / 256 % 256];
  }

  /** A padded message byte by byte. */
  lemma PaddedBytes(message: seq<Byte>, bits: nat, i: nat)
    requires i < |Padded(message, bits)|
    ensures var n := |Padded(message, bits)|;
            Padded(message, bits)[i]
            == if i < |message| then message[i]
               else if i == |message| then 0x80
               else if i < n - 8 then 0
               else bits % 0x1_0000_0000_0000_0000 / Power256(i - (n - 8)) % 256
  {
    hide LittleEndian, Power256;
    var n := |Padded(message, bits)|;
    if i >= n - 8 { LittleEndianDigit(bits % 0x1_0000_0000_0000_0000, 8, i - (n - 8)); }
  }

  /** The digest of a message whose bits were counted as `bits`. */
  function DigestCounted(compress: Compression, message: seq<Byte>, bits: nat): (s: seq<Byte>)
    ensures |s| == 16
  {
    Output(Absorb(compress, INIT, Padded(message, bits)))
  }

  /** The digest RFC 1321 defines. */
  function Digest(compress: Compression, message: seq<Byte>): (s: seq<Byte>)
    ensures |s| == 16
  {
    DigestCounted(compress, message, 8 * |message|)
  }

  // ----- A message given in pieces -----

  function Join(pieces: seq<seq<Byte>>): seq<Byte> {
    if pieces == [] then [] else Join(pieces[..|pieces| - 1]) + pieces[|pieces| - 1]
  }

  /** Each piece's bits are counted in 32-bit arithmetic. */
  function Counted(pieces: seq<seq<Byte>>): nat {
    if pieces == [] then 0 else Counted(pieces[..|pieces| - 1]) + 8 * |pieces[|pieces| - 1]| % 0x1_0000_0000
  }

  /** The 64-bit count after one more piece. */
  function AddBits(n: nat, len: nat): (r: nat)
    ensures r < 0x1_0000_0000_0000_0000
  {
    (n + 8 * len % 0x1_0000_0000) % 0x1_0000_0000_0000_0000
  }

  function Counted64(pieces: seq<seq<Byte>>): nat {
    Counted(pieces) % 0x1_0000_0000_0000_0000
  }

  /** How many times 2^29 bytes fit in the pieces, piece by piece. */
  function Wraps(pieces: seq<seq<Byte>>): nat {
    if pieces == [] then 0 else Wraps(pieces[..|pieces| - 1]) + |pieces[|pieces| - 1]| / 0x2000_0000
  }

  /** The 32-bit counting loses nothing modulo 2^64. */
  predicate CountExact(pieces: seq<seq<Byte>>) {
    Wraps(pieces) % 0x1_0000_0000 == 0
  }

  lemma {:induction false} CountedLoses(pieces: seq<seq<Byte>>)
    ensures 8 * |Join(pieces)| == Counted(pieces) + 0x1_0000_0000 * Wraps(pieces)
  {
    if pieces != [] {
      var n := |pieces| - 1;
      CountedLoses(pieces[..n]);
      PieceLoses(|pieces[n]|);
    }
  }

  lemma PieceLoses(len: nat)
    ensures 8 * len == 8 * len % 0x1_0000_0000 + 0x1_0000_0000 * (len / 0x2000_0000)
  {
    assert len == 0x2000_0000 * (len / 0x2000_0000) + len % 0x2000_0000;
    assert 8 * len == 0x1_0000_0000 * (len / 0x2000_0000) + 8 * (len % 0x2000_0000);
  }

  lemma {:induction false} SmallPiecesNeverWrap(pieces: seq<seq<Byte>>)
    requires forall i | 0 <= i < |pieces| :: |pieces[i]| < 0x2000_0000
    ensures Wraps(pieces) == 0
  {
    if pieces != [] {
      var n := |pieces| - 1;
      SmallPiecesNeverWrap(pieces[..n]);
      assert |pieces[n]| < 0x2000_0000;
    }
  }

  /** The blocks compressed are those of RFC 1321 if and only if the pieces' lengths wrap a
      multiple of 2^32 times in all; pieces under 2^29 bytes never wrap. */
  lemma CountedExactly(pieces: seq<seq<Byte>>)
    ensures Padded(Join(pieces), Counted(pieces)) == Padded(Join(pieces), 8 * |Join(pieces)|)
            <==> CountExact(pieces)
    ensures (forall i | 0 <= i < |pieces| :: |pieces[i]| < 0x2000_0000) ==> CountExact(pieces)
  {
    CountedLoses(pieces);
    PaddedDetermines(Join(pieces), Counted(pieces), 8 * |Join(pieces)|);
    SameUpToWraps(Counted(pieces), Wraps(pieces));
    if forall i | 0 <= i < |pieces| :: |pieces[i]| < 0x2000_0000 { SmallPiecesNeverWrap(pieces); }
  }

  /** One piece of 2^29 bytes is counted as none. */
  lemma CountBreaksPadding(piece: seq<Byte>)
    requires |piece| == 0x2000_0000
    ensures Padded(Join([piece]), Counted([piece])) != Padded(Join([piece]), 8 * |Join([piece])|)
  {
    hide Padded, Join, Counted;
    JoinOne(piece);
    CountedExactly([piece]);
  }

  lemma SameUpToWraps(m: nat, w: nat)
    ensures m % 0x1_0000_0000_0000_0000 == (m + 0x1_0000_0000 * w) % 0x1_0000_0000_0000_0000 <==> w % 0x1_0000_0000 == 0
  {
    var n := m + 0x1_0000_0000 * w;
    if w % 0x1_0000_0000 == 0 {
      assert w == 0x1_0000_0000 * (w / 0x1_0000_0000);
      assert n == m + 0x1_0000_0000_0000_0000 * (w / 0x1_0000_0000);
    }
    if m % 0x1_0000_0000_0000_0000 == n % 0x1_0000_0000_0000_0000 {
      assert n - m == 0x1_0000_0000_0000_0000 * (n / 0x1_0000_0000_0000_0000 - m / 0x1_0000_0000_0000_0000);
      assert 0x1_0000_0000 * w
          == 0x1_0000_0000 * (0x1_0000_0000 * (n / 0x1_0000_0000_0000_0000 - m / 0x1_0000_0000_0000_0000));
      assert w == 0x1_0000_0000 * (n / 0x1_0000_0000_0000_0000 - m / 0x1_0000_0000_0000_0000);
    }
  }

  // ----- The context -----

  class Md5 {
    const compress: Compression
    var st: State
    var n: nat
    var i: nat
    const buf: array<Byte>
    ghost var message: seq<Byte>

    ghost predicate Valid()
      reads this, buf
    {
      && buf.Length == 64 && i < 64 && i == |message| % 64 && n < 0x1_0000_0000_0000_0000
      && buf[..i] == message[|message| - i..]
      && st == Absorb(compress, INIT, message[..|message| - i])
    }

    constructor (compress: Compression)
      ensures Valid() && fresh(buf) && message == [] && n == 0 && this.compress == compress
    {
      this.compress := compress;
      st, n, i := INIT, 0, 0;
      buf := new Byte[64](_ => 0);
      message := [];
    }

    /** memcpy into the block buffer. */
    method Copy(at: nat, bytes: seq<Byte>)
      requires at + |bytes| <= buf.Length
      modifies buf
      ensures buf[..] == old(buf[..at]) + bytes + old(buf[at + |bytes|..])
    {
      var k := 0;
      while k < |bytes|
        invariant 0 <= k <= |bytes|
        invariant forall j | 0 <= j < buf.Length :: buf[j] == if at <= j < at + k then bytes[j - at] else old(buf[j])
      {
        buf[at + k] := bytes[k];
        k := k + 1;
      }
    }

    /** The whole blocks of the input from index `from` on. */
    method Blocks(input: seq<Byte>, from: nat, ghost before: seq<Byte>) returns (next: nat)
      requires from <= |input| && |before| % 64 == 0 && st == Absorb(compress, INIT, before)
      modifies `st
      ensures from <= next <= |input| && |input| - next < 64 && (next - from) % 64 == 0
      ensures st == Absorb(compress, INIT, before + input[from..next])
    {
      hide Absorb;
      next := from;
      assert before + input[from..from] == before;
      while next + 64 <= |input|
        invariant from <= next <= |input| && (next - from) % 64 == 0
        invariant st == Absorb(compress, INIT, before + input[from..next])
      {
        AbsorbBlock(compress, INIT, before + input[from..next], input[next..next + 64]);
        assert before + input[from..next] + input[next..next + 64] == before + input[from..next + 64];
        st := compress(st, input[next..next + 64]);
        next := next + 64;
      }
    }

    /** The input completes the buffered block, which is compressed. */
    method FillBlock(input: seq<Byte>)
      requires Valid() && 64 - i <= |input|
      modifies `st, buf
      ensures st == Absorb(compress, INIT, message + input[..64 - i])
    {
      hide Absorb;
      ghost var tail := message[|message| - i..];
      Copy(i, input[..64 - i]);
      FirstBlock(message, i, input);
      AbsorbBlock(compress, INIT, message[..|message| - i], tail + input[..64 - i]);
      assert buf[..] == tail + input[..64 - i];
      st := compress(st, buf[..]);
    }

    /** What is left of the input starts the next block. */
    method KeepRest(input: seq<Byte>, next: nat, ghost whole: seq<Byte>)
      requires buf.Length == 64 && n < 0x1_0000_0000_0000_0000
      requires next <= |input| < next + 64 && st == Absorb(compress, INIT, whole)
      requires whole + input[next..] == message + input && |message + input| % 64 == |input| - next
      modifies this, buf
      ensures Valid() && message == old(message) + input && n == old(n)
    {
      hide Absorb;
      i := |input| - next;
      Copy(0, input[next..]);
      assert buf[..i] == input[next..];
      message := message + input;
      assert message[..|whole|] == whole && message[|whole|..] == input[next..];
    }

    method LoopFull(input: seq<Byte>)
      requires Valid() && 64 - i <= |input|
      modifies this, buf
      ensures Valid() && message == old(message) + input && n == old(n)
    {
      hide Absorb;
      var gap := 64 - i;
      FillBlock(input);
      FirstBlock(message, i, input);
      var next := Blocks(input, gap, message + input[..gap]);
      LaterBlocks(message, input, gap, next);
      KeepRest(input, next, message + input[..gap] + input[gap..next]);
    }

    method Loop(input: seq<Byte>)
      requires Valid() && |input| < 0x1_0000_0000 - 64
      modifies this, buf
      ensures Valid() && message == old(message) + input
      ensures n == AddBits(old(n), |input|)
    {
      hide Absorb;
      n := AddBits(n, |input|);
      if |input| >= 64 - i {
        LoopFull(input);
      } else {
        Copy(i, input);
        ShortInput(message, i, input);
        assert buf[..i + |input|] == message[|message| - i..] + input;
        i := i + |input|;
        message := message + input;
      }
    }

    /** The padding fits in the buffered block. */
    method PadShort()
      requires Valid() && i < 56
      modifies `st, buf
      ensures st == Absorb(compress, INIT, Padded(message, n))
    {
      hide Absorb, Padded, LittleEndian;
      ghost var tail := message[|message| - i..];
      Copy(i, PADDAT[..56 - i]);
      Copy(56, LittleEndian(n, 8));
      ghost var last := tail + PADDAT[..56 - i] + LittleEndian(n, 8);
      assert buf[..] == last;
      PaddedInOneBlock(message, i, n);
      AbsorbBlock(compress, INIT, message[..|message| - i], last);
      st := compress(st, buf[..]);
    }

    /** The padding starts in the buffered block and fills another. */
    method PadLong()
      requires Valid() && i >= 56
      modifies `st, buf
      ensures st == Absorb(compress, INIT, Padded(message, n))
    {
      hide Absorb, Padded, LittleEndian;
      var gap := 64 - i;
      ghost var whole, tail := message[..|message| - i], message[|message| - i..];
      Copy(i, PADDAT[..gap]);
      ghost var next := tail + PADDAT[..gap];
      assert buf[..] == next;
      AbsorbBlock(compress, INIT, whole, next);
      st := compress(st, buf[..]);
      Copy(0, PADDAT[gap..gap + 56]);
      Copy(56, LittleEndian(n, 8));
      ghost var last := PADDAT[gap..gap + 56] + LittleEndian(n, 8);
      assert buf[..] == last;
      PaddedInTwoBlocks(message, i, n);
      AbsorbBlock(compress, INIT, whole + next, last);
      st := compress(st, buf[..]);
    }

    /** Compresses the padding; the context then holds the digest of what was fed to it. */
    method Pad()
      requires Valid()
      modifies `st, buf
      ensures st == Absorb(compress, INIT, Padded(message, n))
    {
      hide Absorb, Padded;
      if 64 - i > 8 {
        PadShort();
      } else {
        PadLong();
      }
    }
  }

  const PADDAT: seq<Byte> := [0x80] + Zeros(63)

  lemma FirstBlock(message: seq<Byte>, i: nat, input: seq<Byte>)
    requires i == |message| % 64 && 64 - i <= |input|
    ensures message[..|message| - i] + (message[|message| - i..] + input[..64 - i]) == message + input[..64 - i]
    ensures |message + input[..64 - i]| % 64 == 0
  {
    RoundedUp(|message|);
  }

  lemma RoundedUp(m: nat)
    ensures (m + (64 - m % 64)) % 64 == 0 && (m - m % 64) % 64 == 0
  {
    assert m + (64 - m % 64) == 64 * (m / 64 + 1);
  }

  lemma LaterBlocks(message: seq<Byte>, input: seq<Byte>, gap: nat, next: nat)
    requires gap == 64 - |message| % 64 && gap <= next <= |input| < next + 64 && (next - gap) % 64 == 0
    ensures var all := message + input;
            && |all| % 64 == |input| - next
            && message + input[..gap] + input[gap..next] + input[next..] == all
  {
    RoundedUp(|message|);
    var rest := |input| - next;
    assert |message| + |input| == (|message| + gap) + (next - gap) + rest;
    assert |message| + gap == 64 * ((|message| + gap) / 64);
    assert next - gap == 64 * ((next - gap) / 64);
    WholeBlocks((|message| + gap) / 64 + (next - gap) / 64, rest);
  }

  lemma WholeBlocks(q: nat, r: nat)
    requires r < 64
    ensures (64 * q + r) % 64 == r
  {
  }

  lemma ShortInput(message: seq<Byte>, i: nat, input: seq<Byte>)
    requires i == |message| % 64 && i + |input| < 64
    ensures var all := message + input;
            && |all| % 64 == i + |input|
            && all[..|all| - (i + |input|)] == message[..|message| - i]
            && all[|all| - (i + |input|)..] == message[|message| - i..] + input
  {
    WholeBlocks(|message| / 64, i + |input|);
  }

  lemma PaddingBytes(k: nat)
    requires 1 <= k <= 64
    ensures |PADDAT| == 64 && PADDAT[..k] == [0x80] + Zeros(k - 1)
  {
  }

  lemma PaddedInOneBlock(message: seq<Byte>, i: nat, n: nat)
    requires i == |message| % 64 && i < 56 && n < 0x1_0000_0000_0000_0000
    ensures Padded(message, n)
            == message[..|message| - i] + (message[|message| - i..] + PADDAT[..56 - i] + LittleEndian(n, 8))
  {
    hide LittleEndian, Zeros;
    PaddingBytes(56 - i);
    OneBlock(message[..|message| - i], message[|message| - i..], [0x80], Zeros(55 - i), LittleEndian(n, 8));
    assert message == message[..|message| - i] + message[|message| - i..];
  }

  lemma OneBlock(w: seq<Byte>, t: seq<Byte>, p: seq<Byte>, z: seq<Byte>, l: seq<Byte>)
    ensures (w + t) + p + z + l == w + (t + (p + z) + l)
  {
  }

  lemma PaddedInTwoBlocks(message: seq<Byte>, i: nat, n: nat)
    requires i == |message| % 64 && 56 <= i && n < 0x1_0000_0000_0000_0000
    ensures var gap := 64 - i;
            Padded(message, n)
            == message[..|message| - i] + (message[|message| - i..] + PADDAT[..gap])
               + (PADDAT[gap..gap + 56] + LittleEndian(n, 8))
  {
    hide LittleEndian, Zeros;
    var gap := 64 - i;
    PaddingBytes(gap + 56);
    assert PADDAT[..gap] + PADDAT[gap..gap + 56] == PADDAT[..gap + 56];
    TwoBlocks(message[..|message| - i], message[|message| - i..], PADDAT[..gap], PADDAT[gap..gap + 56],
              LittleEndian(n, 8));
    OneBlock(message[..|message| - i], message[|message| - i..], [0x80], Zeros(119 - i), LittleEndian(n, 8));
    assert message == message[..|message| - i] + message[|message| - i..];
  }

  lemma TwoBlocks(w: seq<Byte>, t: seq<Byte>, p: seq<Byte>, z: seq<Byte>, l: seq<Byte>)
    ensures w + (t + p) + (z + l) == w + (t + (p + z) + l)
  {
  }

  // ----- Whole digests -----

  lemma NoPieces(pieces: seq<seq<Byte>>)
    requires pieces == []
    ensures Join(pieces) == [] && Counted64(pieces) == 0
  {
  }

  lemma OneMorePiece(pieces: seq<seq<Byte>>, k: nat)
    requires k < |pieces|
    ensures Join(pieces[..k + 1]) == Join(pieces[..k]) + pieces[k]
    ensures Counted64(pieces[..k + 1]) == AddBits(Counted64(pieces[..k]), |pieces[k]|)
  {
    assert pieces[..k + 1][..k] == pieces[..k];
    var c, d := Counted(pieces[..k]), 8 * |pieces[k]| % 0x1_0000_0000;
    assert c + d == c % 0x1_0000_0000_0000_0000 + d + 0x1_0000_0000_0000_0000 * (c / 0x1_0000_0000_0000_0000);
  }

  lemma DigestOfPieces(compress: Compression, pieces: seq<seq<Byte>>)
    ensures Output(Absorb(compress, INIT, Padded(Join(pieces), Counted64(pieces))))
            == DigestCounted(compress, Join(pieces), Counted(pieces))
    ensures CountExact(pieces) ==>
              DigestCounted(compress, Join(pieces), Counted(pieces)) == Digest(compress, Join(pieces))
  {
    hide Absorb, Padded, LittleEndian, Output, Join, Counted, CountExact;
    assert Counted64(pieces) % 0x1_0000_0000_0000_0000 == Counted(pieces) % 0x1_0000_0000_0000_0000;
    PaddedDetermines(Join(pieces), Counted64(pieces), Counted(pieces));
    CountedExactly(pieces);
  }

  /** Feeds the pieces one by one to a new context. */
  method Feed(context: Md5, pieces: seq<seq<Byte>>)
    requires context.Valid() && context.message == [] && context.n == 0
    requires forall k | 0 <= k < |pieces| :: |pieces[k]| < 0x1_0000_0000 - 64
    modifies context, context.buf
    ensures context.Valid() && context.message == Join(pieces) && context.n == Counted64(pieces)
  {
    hide *;
    var k := 0;
    NoPieces(pieces[..0]);
    while k < |pieces|
      invariant 0 <= k <= |pieces| && context.Valid()
      invariant context.message == Join(pieces[..k]) && context.n == Counted64(pieces[..k])
    {
      OneMorePiece(pieces, k);
      context.Loop(pieces[k]);
      k := k + 1;
    }
    assert pieces[..k] == pieces;
  }

  /** A message fed in any pieces: the digest depends on the whole and on the bits counted. */
  method DigestPieces(compress: Compression, pieces: seq<seq<Byte>>) returns (digest: seq<Byte>)
    requires forall k | 0 <= k < |pieces| :: |pieces[k]| < 0x1_0000_0000 - 64
    ensures digest == DigestCounted(compress, Join(pieces), Counted(pieces))
    ensures CountExact(pieces) ==> digest == Digest(compress, Join(pieces))
  {
    hide *;
    var context := new Md5(compress);
    Feed(context, pieces);
    context.Pad();
    digest := Output(context.st);
    DigestOfPieces(compress, pieces);
  }

  function Xor(s: seq<Byte>, b: Byte): (r: seq<Byte>)
    ensures |r| == |s|
  {
    seq(|s|, k requires 0 <= k < |s| => XorByte(s[k], b))
  }

  function XorByte(x: Byte, y: Byte): Byte {
    ((x as bv8) ^ (y as bv8)) as int
  }

  /** The block a key stands for: its digest when it is longer than a block, then zeros. */
  function KeyBlock(compress: Compression, key: seq<Byte>): (k: seq<Byte>)
    ensures |k| == 64
  {
    var short := if |key| > 64 then Digest(compress, key) else key;
    short + Zeros(64 - |short|)
  }

  /** The key's block: the key, or its digest when it is longer than a block, and zeros. */
  lemma KeyBlockBytes(compress: Compression, key: seq<Byte>, i: nat)
    requires i < 64
    ensures |key| <= 64 ==> KeyBlock(compress, key)[i] == if i < |key| then key[i] else 0
    ensures |key| > 64 ==> KeyBlock(compress, key)[i] == if i < 16 then Digest(compress, key)[i] else 0
  {
    hide Digest;
  }

  /** The keyed digest of section 2 of RFC 2104. */
  function Hmac(compress: Compression, key: seq<Byte>, text: seq<Byte>): seq<Byte> {
    var k := KeyBlock(compress, key);
    Digest(compress, Xor(k, 0x5c) + Digest(compress, Xor(k, 0x36) + text))
  }

  /** Exclusive or of a padded key with a constant, byte by byte in place. */
  method XorInPlace(pad: array<Byte>, b: Byte)
    requires pad.Length == 64 + 1
    modifies pad
    ensures pad[..64] == Xor(old(pad[..64]), b)
  {
    hide XorByte;
    var k := 0;
    while k < 64
      invariant 0 <= k <= 64
      invariant forall j | 0 <= j < 64 :: pad[j] == if j < k then XorByte(old(pad[j]), b) else old(pad[j])
    {
      pad[k] := XorByte(pad[k], b);
      k := k + 1;
    }
  }

  /** One padded key: cleared, filled with the key and combined with a constant. */
  method PadKey(key: seq<Byte>, b: Byte) returns (pad: seq<Byte>)
    requires |key| <= 64
    ensures pad == Xor(key + Zeros(64 - |key|), b)
  {
    hide XorByte;
    var bytes := new Byte[64 + 1](_ => 0);
    forall j | 0 <= j < |key| { bytes[j] := key[j]; }
    assert bytes[..64] == key + Zeros(64 - |key|);
    XorInPlace(bytes, b);
    pad := bytes[..64];
  }

  lemma JoinTwo(x: seq<Byte>, y: seq<Byte>)
    ensures Join([x, y]) == x + y && Counted([x, y]) == 8 * |x| % 0x1_0000_0000 + 8 * |y| % 0x1_0000_0000
    ensures |x| == 64 && |y| < 0x8000_0000 ==> (CountExact([x, y]) <==> |y| < 0x2000_0000)
  {
    JoinOne(x);
    assert [x, y][..1] == [x];
    assert Wraps([x, y]) == |x| / 0x2000_0000 + |y| / 0x2000_0000;
  }

  lemma JoinOne(x: seq<Byte>)
    ensures Join([x]) == x && Counted([x]) == 8 * |x| % 0x1_0000_0000 && Wraps([x]) == |x| / 0x2000_0000
    ensures |x| < 0x8000_0000 ==> (CountExact([x]) <==> |x| < 0x2000_0000)
  {
    assert [x][..0] == [];
  }

  /** The keyed digest with each piece's bits counted in 32-bit arithmetic. */
  function HmacCounted(compress: Compression, key: seq<Byte>, text: seq<Byte>): seq<Byte> {
    var short := if |key| > 64 then DigestCounted(compress, key, 8 * |key| % 0x1_0000_0000) else key;
    var k := short + Zeros(64 - |short|);
    var inner := DigestCounted(compress, Xor(k, 0x36) + text, 512 + 8 * |text| % 0x1_0000_0000);
    DigestCounted(compress, Xor(k, 0x5c) + inner, 640)
  }

  /** Below 2^29 bytes of key and of text nothing is lost, and the result is that of RFC 2104. */
  lemma HmacIsRfc2104(compress: Compression, key: seq<Byte>, text: seq<Byte>)
    requires |key| < 0x2000_0000 && |text| < 0x2000_0000
    ensures HmacCounted(compress, key, text) == Hmac(compress, key, text)
  {
    hide DigestCounted, Xor, Zeros;
    assert 8 * |key| % 0x1_0000_0000 == 8 * |key|;
    assert 8 * |text| % 0x1_0000_0000 == 8 * |text|;
  }

  method HmacMd5(compress: Compression, text: seq<Byte>, key: seq<Byte>) returns (digest: seq<Byte>)
    requires |text| < 0x8000_0000 && |key| < 0x8000_0000
    ensures digest == HmacCounted(compress, key, text)
    ensures |text| < 0x2000_0000 && |key| < 0x2000_0000 ==> digest == Hmac(compress, key, text)
  {
    hide Digest, DigestCounted, Xor, Join, CountExact, Counted, Hmac;
    var short := key;
    if |key| > 64 {
      JoinOne(key);
      short := DigestPieces(compress, [key]);
    }
    var ipad := PadKey(short, 0x36);
    var opad := PadKey(short, 0x5c);
    JoinTwo(ipad, text);
    digest := DigestPieces(compress, [ipad, text]);
    JoinTwo(opad, digest);
    digest := DigestPieces(compress, [opad, digest]);
    if |text| < 0x2000_0000 && |key| < 0x2000_0000 { HmacIsRfc2104(compress, key, text); }
  }
}
