/** The checksums of lib/checksum.c: the Fletcher checksum of Annex C.1 of ISO 8473 with its
    reduction deferred to once per 4102 bytes, and the Internet checksum of section 1 of
    RFC 1071. */
module Checksums {

  import opened Types

  /** The accumulators' type; arithmetic on it is checked for overflow. */
  newtype Int32 = x: int | -0x8000_0000 <= x < 0x8000_0000

  const INT_MAX := 0x7fff_ffff
  const MODX := 4102
  const VALIDATE := 0xffff

  // ----- The two sums, unreduced -----

  function C0(s: seq<Byte>): nat {
    if s == [] then 0 else C0(s[..|s| - 1]) + s[|s| - 1]
  }

  /** Each byte counts once for itself and once for every byte after it. */
  function C1(s: seq<Byte>): nat {
    if s == [] then 0 else C1(s[..|s| - 1]) + C0(s)
  }

  lemma {:induction false} C0Update(s: seq<Byte>, i: nat, v: Byte)
    requires i < |s|
    ensures C0(s[i := v]) == C0(s) + v - s[i]
    decreases |s|
  {
    var n := |s| - 1;
    assert s[i := v][..n] == if i < n then s[..n][i := v] else s[..n];
    if i < n { C0Update(s[..n], i, v); }
  }

  lemma {:induction false} C1Update(s: seq<Byte>, i: nat, v: Byte)
    requires i < |s|
    ensures C1(s[i := v]) == C1(s) + Product(|s| - i, v - s[i])
    decreases |s|
  {
    hide Product;
    var n := |s| - 1;
    assert s[i := v][..n] == if i < n then s[..n][i := v] else s[..n];
    C0Update(s, i, v);
    OneMoreTime(n - i, v - s[i]);
    if i < n { C1Update(s[..n], i, v); }
  }

  function Product(m: int, d: int): int {
    m * d
  }

  lemma OneMoreTime(m: int, d: int)
    ensures Product(m + 1, d) == Product(m, d) + d && Product(0, d) == 0
  {
  }

  // ----- Deferred reduction -----

  /** The second sum after n bytes of 255 from accumulators of 254: nothing is larger. */
  function WorstCase(n: nat): nat {
    if n == 0 then 254 else WorstCase(n - 1) + 254 + 255 * n
  }

  lemma {:induction false} WorstCaseClosed(n: nat)
    ensures 2 * WorstCase(n) == 508 + 508 * n + 255 * (n * (n + 1))
  {
    if n > 0 {
      WorstCaseClosed(n - 1);
      assert n * (n + 1) == (n - 1) * n + 2 * n;
    }
  }

  lemma {:induction false} WorstCaseGrows(m: nat, n: nat)
    requires m <= n
    ensures WorstCase(m) <= WorstCase(n)
    decreases n - m
  {
    if m < n { WorstCaseGrows(m, n - 1); }
  }

  /** 4102 bytes are the most that can be summed before the accumulators must be reduced. */
  lemma ModxIsLargest(n: nat)
    ensures WorstCase(n) <= INT_MAX <==> n <= MODX
  {
    WorstCaseClosed(MODX);
    WorstCaseClosed(MODX + 1);
    if n <= MODX { WorstCaseGrows(n, MODX); } else { WorstCaseGrows(MODX + 1, n); }
  }

  /** Plain sums of one chunk, from accumulators a0 and a1. */
  function Raw0(s: seq<Byte>, a0: nat): nat {
    a0 + C0(s)
  }

  function Raw1(s: seq<Byte>, a0: nat, a1: nat): nat {
    if s == [] then a1 else Raw1(s[..|s| - 1], a0, a1) + Raw0(s, a0)
  }

  /** The worst case is attained, and bounds every chunk. */
  lemma {:induction false} WorstCaseIsWorst(s: seq<Byte>, a0: nat, a1: nat)
    requires a0 <= 254 && a1 <= 254
    ensures Raw0(s, a0) <= 254 + 255 * |s| && Raw1(s, a0, a1) <= WorstCase(|s|)
    ensures a0 == a1 == 254 && (forall i | 0 <= i < |s| :: s[i] == 255) ==>
              Raw0(s, a0) == 254 + 255 * |s| && Raw1(s, a0, a1) == WorstCase(|s|)
  {
    if s != [] { WorstCaseIsWorst(s[..|s| - 1], a0, a1); }
  }

  /** Two values are congruent modulo 255. */
  predicate Congruent(a: int, b: int) {
    a % 255 == b % 255
  }

  /** One more byte keeps both accumulators congruent to the plain sums. */
  lemma ChunkStep(s: seq<Byte>, k: nat, c0: int, c1: int)
    requires k < |s| && Congruent(c0, C0(s[..k])) && Congruent(c1, C1(s[..k]))
    ensures Congruent(c0 + s[k], C0(s[..k + 1])) && Congruent(c1 + c0 + s[k], C1(s[..k + 1]))
  {
    assert s[..k + 1][..k] == s[..k];
    assert C0(s[..k + 1]) == C0(s[..k]) + s[k];
    assert C1(s[..k + 1]) == C1(s[..k]) + C0(s[..k]) + s[k];
    SumCongruent(c0, C0(s[..k]), s[k], s[k]);
    SumCongruent(c1, C1(s[..k]), c0 + s[k], C0(s[..k]) + s[k]);
  }

  lemma SumCongruent(a: int, b: int, c: int, d: int)
    requires Congruent(a, b) && Congruent(c, d)
    ensures Congruent(a + c, b + d)
  {
    assert a - b == 255 * (a / 255 - b / 255);
    assert c - d == 255 * (c / 255 - d / 255);
    assert a + c == b + d + 255 * (a / 255 - b / 255 + (c / 255 - d / 255));
  }

  /** One chunk: the accumulators never overflow and stay congruent to the plain sums. */
  method SumChunk(buffer: array<Byte>, start: nat, n: nat, a0: Int32, a1: Int32) returns (c0: Int32, c1: Int32)
    requires start + n <= buffer.Length && n <= MODX && 0 <= a0 <= 254 && 0 <= a1 <= 254
    requires Congruent(a0 as int, C0(buffer[..start])) && Congruent(a1 as int, C1(buffer[..start]))
    ensures c0 >= 0 && c1 >= 0
    ensures Congruent(c0 as int, C0(buffer[..start + n])) && Congruent(c1 as int, C1(buffer[..start + n]))
  {
    hide C0, C1, Congruent;
    c0, c1 := a0, a1;
    var i := 0;
    ModxIsLargest(MODX);
    while i < n
      invariant 0 <= i <= n && 0 <= c0 as int <= 254 + 255 * i && 0 <= c1 as int <= WorstCase(i)
      invariant Congruent(c0 as int, C0(buffer[..start + i])) && Congruent(c1 as int, C1(buffer[..start + i]))
    {
      WorstCaseGrows(i + 1, MODX);
      ChunkStep(buffer[..], start + i, c0 as int, c1 as int);
      assert buffer[..][..start + i] == buffer[..start + i] && buffer[..][..start + i + 1] == buffer[..start + i + 1];
      c0 := c0 + buffer[start + i] as Int32;
      c1 := c1 + c0;
      i := i + 1;
    }
  }

  lemma NothingSummed(s: seq<Byte>)
    requires s == []
    ensures C0(s) == 0 && C1(s) == 0
  {
  }

  /** Reducing once per chunk gives the sums reduced at every byte. */
  method Sums(buffer: array<Byte>) returns (c0: Int32, c1: Int32)
    ensures 0 <= c0 <= 254 && 0 <= c1 <= 254
    ensures c0 as int == C0(buffer[..]) % 255 && c1 as int == C1(buffer[..]) % 255
  {
    hide C0, C1;
    c0, c1 := 0, 0;
    NothingSummed(buffer[..0]);
    var left := buffer.Length;
    while left != 0
      invariant 0 <= left <= buffer.Length && 0 <= c0 <= 254 && 0 <= c1 <= 254
      invariant c0 as int == C0(buffer[..buffer.Length - left]) % 255
      invariant c1 as int == C1(buffer[..buffer.Length - left]) % 255
    {
      var partial := if left < MODX then left else MODX;
      c0, c1 := SumChunk(buffer, buffer.Length - left, partial, c0, c1);
      c0, c1 := c0 % 255, c1 % 255;
      left := left - partial;
    }
    assert buffer[..buffer.Length - left] == buffer[..];
  }

  // ----- The check bytes -----

  const TWO32 := 0x1_0000_0000
  const TWO64 := 0x1_0000_0000_0000_0000

  /** A size_t value cast to int. */
  function ToInt32(v: int): int {
    var w := v % TWO32;
    if w >= 0x8000_0000 then w - TWO32 else w
  }

  /** The C remainder, which takes the sign of the dividend. */
  function CRem(a: int, m: nat): int
    requires m > 0
  {
    if a >= 0 then a % m else -((-a) % m)
  }

  function CheckX(len: nat, offset: nat, c0: nat, c1: nat): (x: Byte)
    requires c0 <= 254 && c1 <= 254 && offset < len
    ensures 1 <= x
  {
    var x := CRem(ToInt32(((len - offset - 1) * c0 - c1) % TWO64), 255);
    if x <= 0 then x + 255 else x
  }

  function CheckY(c0: nat, x: Byte): (y: Byte)
    requires c0 <= 254 && 1 <= x
    ensures 1 <= y && (c0 + x + y) % 255 == 0
  {
    var y := 510 - c0 - x;
    if y > 255 then y - 255 else y
  }

  /** The value whose remainder x should have, before any truncation. */
  function Exact(len: nat, offset: nat, c0: nat, c1: nat): int
    requires offset < len
  {
    (len - offset - 1) * c0 - c1
  }

  /** Multiples of 2^32 lost by the cast. */
  function Lost(len: nat, offset: nat, c0: nat, c1: nat): int
    requires offset < len
  {
    (Exact(len, offset, c0, c1) - ToInt32(Exact(len, offset, c0, c1) % TWO64)) / TWO32
  }

  lemma CastCongruent(v: int)
    ensures v == ToInt32(v % TWO64) + TWO32 * ((v - ToInt32(v % TWO64)) / TWO32)
  {
    assert TWO64 == TWO32 * TWO32;
    assert v == v % TWO64 + TWO32 * (TWO32 * (v / TWO64));
    var w := v % TWO64;
    assert w == w % TWO32 + TWO32 * (w / TWO32);
    var k := w / TWO32 + TWO32 * (v / TWO64) + if w % TWO32 >= 0x8000_0000 then 1 else 0;
    assert v - ToInt32(w) == TWO32 * k;
  }

  /** x differs from the truncated value by a multiple of 255. */
  lemma XOfTruncated(len: nat, offset: nat, c0: nat, c1: nat) returns (q: int)
    requires c0 <= 254 && c1 <= 254 && offset < len
    ensures CheckX(len, offset, c0, c1) == ToInt32(Exact(len, offset, c0, c1) % TWO64) + 255 * q
  {
    hide ToInt32;
    var t := ToInt32(Exact(len, offset, c0, c1) % TWO64);
    q := (if t >= 0 then -(t / 255) else (-t) / 255) + if CRem(t, 255) <= 0 then 1 else 0;
    assert t >= 0 ==> t == 255 * (t / 255) + t % 255;
    assert t < 0 ==> -t == 255 * ((-t) / 255) + (-t) % 255;
  }

  /** x is congruent to the exact value but for the multiples of 2^32 lost. */
  lemma XCongruent(len: nat, offset: nat, c0: nat, c1: nat) returns (q: int)
    requires c0 <= 254 && c1 <= 254 && offset < len
    ensures CheckX(len, offset, c0, c1) == Exact(len, offset, c0, c1) - Lost(len, offset, c0, c1) + 255 * q
  {
    hide ToInt32, Exact, CheckX;
    CastCongruent(Exact(len, offset, c0, c1));
    q := XOfTruncated(len, offset, c0, c1);
    var k := Lost(len, offset, c0, c1);
    assert TWO32 * k == 255 * (16843009 * k) + k;
    q := q - 16843009 * k;
  }

  lemma NothingLost(len: nat, offset: nat, c0: nat, c1: nat)
    requires c0 <= 254 && c1 <= 254 && offset < len && (len - offset - 1) * 254 < 0x8000_0000
    ensures Lost(len, offset, c0, c1) == 0
  {
    hide Exact;
    var v := Exact(len, offset, c0, c1);
    ExactBound(len, offset, c0, c1);
    SmallCast(v);
  }

  lemma ExactBound(len: nat, offset: nat, c0: nat, c1: nat)
    requires c0 <= 254 && c1 <= 254 && offset < len
    ensures -254 <= Exact(len, offset, c0, c1) <= (len - offset - 1) * 254
  {
    Scaled(len - offset - 1, c0);
  }

  lemma {:induction false} Scaled(k: nat, c: nat)
    requires c <= 254
    ensures 0 <= k * c <= k * 254
  {
    if k > 0 {
      Scaled(k - 1, c);
      assert k * c == (k - 1) * c + c;
    }
  }

  lemma SmallCast(v: int)
    requires -254 <= v < 0x8000_0000
    ensures ToInt32(v % TWO64) == v
  {
    if v >= 0 {
      assert v % TWO64 == v;
    } else {
      assert v % TWO64 == v + TWO64;
      assert v + TWO64 == TWO32 * (TWO32 - 1) + (v + TWO32);
      assert (v + TWO64) % TWO32 == v + TWO32;
    }
  }

  /** A packet whose check bytes at `offset` are set for its other bytes. */
  function WithCheckBytes(s: seq<Byte>, offset: nat): (r: seq<Byte>)
    requires offset + 1 < |s|
    ensures |r| == |s|
  {
    var z := s[offset := 0][offset + 1 := 0];
    var c0, c1 := C0(z) % 255, C1(z) % 255;
    var x := CheckX(|s|, offset, c0, c1);
    z[offset := x][offset + 1 := CheckY(c0, x)]
  }

  predicate Validates(s: seq<Byte>) {
    C0(s) % 255 == 0 && C1(s) % 255 == 0
  }

  /** The plain sums once the check bytes are stored. */
  lemma SumsWithCheckBytes(z: seq<Byte>, offset: nat, x: Byte, y: Byte)
    requires offset + 1 < |z| && z[offset] == 0 && z[offset + 1] == 0
    ensures C0(z[offset := x][offset + 1 := y]) == C0(z) + x + y
    ensures C1(z[offset := x][offset + 1 := y]) == C1(z) + (|z| - offset) * x + (|z| - offset - 1) * y
  {
    hide C0, C1;
    C0Update(z, offset, x);
    C0Update(z[offset := x], offset + 1, y);
    C1Update(z, offset, x);
    C1Update(z[offset := x], offset + 1, y);
  }

  /** With s0 and s1 the sums without the check bytes, the sums with them are multiples of 255
      if and only if the count of lost multiples is. */
  lemma CheckSums(s0: nat, s1: nat, k: nat, x: int, y: int, lost: int, q: int)
    requires (s0 % 255 + x + y) % 255 == 0
    requires x == k * (s0 % 255) - s1 % 255 - lost + 255 * q
    ensures (s0 + x + y) % 255 == 0
    ensures (s1 + (k + 1) * x + k * y) % 255 == 0 <==> lost % 255 == 0
  {
    var p := (s0 % 255 + x + y) / 255;
    var r := s0 % 255;
    assert r + x + y == 255 * p;
    assert s0 + x + y == 255 * (p + s0 / 255);
    assert (k + 1) * x + k * y == x + k * (x + y);
    assert k * (x + y) == k * (255 * p - r) == 255 * (k * p) - k * r;
    assert s1 + (k + 1) * x + k * y == 255 * (s1 / 255 + k * p + q) - lost;
    Opposite(s1 / 255 + k * p + q, lost);
  }

  lemma Opposite(m: int, lost: int)
    ensures (255 * m - lost) % 255 == 0 <==> lost % 255 == 0
  {
    assert lost == 255 * (lost / 255) + lost % 255;
  }

  /** What `fletcher_checksum` generates validates if and only if the multiples of 2^32 that
      its cast to int loses are a multiple of 255 in number. */
  lemma GenerateThenValidate(s: seq<Byte>, offset: nat)
    requires offset + 1 < |s|
    ensures var z := s[offset := 0][offset + 1 := 0];
            Validates(WithCheckBytes(s, offset)) <==> Lost(|s|, offset, C0(z) % 255, C1(z) % 255) % 255 == 0
    ensures (|s| - offset - 1) * 254 < 0x8000_0000 ==> Validates(WithCheckBytes(s, offset))
  {
    hide C0, C1, CheckX, CheckY, Lost;
    var z := s[offset := 0][offset + 1 := 0];
    var c0, c1 := C0(z) % 255, C1(z) % 255;
    var x := CheckX(|s|, offset, c0, c1);
    var y := CheckY(c0, x);
    SumsWithCheckBytes(z, offset, x, y);
    var q := XCongruent(|s|, offset, c0, c1);
    CheckSums(C0(z), C1(z), |s| - offset - 1, x, y, Lost(|s|, offset, c0, c1), q);
    if (|s| - offset - 1) * 254 < 0x8000_0000 { NothingLost(|s|, offset, c0, c1); }
  }

  // ----- Which lengths are safe -----

  /** The distance from the check bytes to the end, as near zero as multiples of 255 * 2^32 make it. */
  function Residue(k: nat): (r: int)
    ensures -0x7f_8000_0000 <= r < 0x7f_8000_0000
  {
    var m := k % 0xff_0000_0000;
    if m < 0x7f_8000_0000 then m else m - 0xff_0000_0000
  }

  /** No sums of a packet can make the cast lose what matters. */
  predicate SafeDistance(k: nat) {
    254 - 0x8000_0000 <= 254 * Residue(k) < 0x8000_0000
  }

  lemma ResidueCongruent(k: nat) returns (q: int)
    ensures k == Residue(k) + 0xff_0000_0000 * q
  {
    q := k / 0xff_0000_0000 + if k % 0xff_0000_0000 < 0x7f_8000_0000 then 0 else 1;
  }

  lemma CastRange(v: int)
    ensures -0x8000_0000 <= ToInt32(v) < 0x8000_0000
  {
  }

  lemma SplitUnique(t: int, j: int, c: int, k: int)
    requires t + 0x1_0000_0000 * j == c + 0x1_0000_0000 * k
    requires -0x8000_0000 <= t < 0x8000_0000 && -0x8000_0000 <= c < 0x8000_0000
    ensures t == c && j == k
  {
  }

  /** The cast of t plus j times 2^32 is t. */
  lemma CastIs(v: int, t: int, j: int)
    requires v == t + 0x1_0000_0000 * j && -0x8000_0000 <= t < 0x8000_0000
    ensures ToInt32(v % TWO64) == t
  {
    hide ToInt32;
    CastCongruent(v);
    CastRange(v % TWO64);
    var c := ToInt32(v % TWO64);
    SplitUnique(t, j, c, (v - c) / TWO32);
  }

  /** What the cast loses, counted from the residue. */
  lemma LostFromResidue(len: nat, offset: nat, c0: nat, c1: nat, t: int, j: int)
    requires offset < len && -0x8000_0000 <= t < 0x8000_0000
    requires Residue(len - offset - 1) * c0 - c1 == t + 0x1_0000_0000 * j
    ensures Lost(len, offset, c0, c1) % 255 == j % 255
  {
    hide Residue, ToInt32;
    var k := len - offset - 1;
    var q := ResidueCongruent(k);
    var more := q * c0;
    assert k * c0 == Residue(k) * c0 + 0xff_0000_0000 * more by {
      assert (Residue(k) + 0xff_0000_0000 * q) * c0 == Residue(k) * c0 + 0xff_0000_0000 * q * c0;
    }
    var v := Exact(len, offset, c0, c1);
    assert v == t + 0x1_0000_0000 * (j + 255 * more);
    CastIs(v, t, j + 255 * more);
    WholeMultiple(j + 255 * more);
    assert Lost(len, offset, c0, c1) == j + 255 * more;
    SameRemainder(j, more);
  }

  lemma WholeMultiple(k: int)
    ensures (0x1_0000_0000 * k) / TWO32 == k
  {
  }

  lemma SameRemainder(j: int, more: int)
    ensures (j + 255 * more) % 255 == j % 255
  {
  }

  /** A small factor of a bounded product. */
  lemma Between(r: int, c: nat)
    requires c <= 254
    ensures r >= 0 ==> 0 <= r * c <= 254 * r
    ensures r < 0 ==> 254 * r <= r * c <= 0
  {
    if r >= 0 {
      Scaled(r, c);
    } else {
      Scaled(-r, c);
      assert r * c == -((-r) * c);
    }
  }

  lemma SafeLosesNothing(len: nat, offset: nat, c0: nat, c1: nat)
    requires offset < len && c0 <= 254 && c1 <= 254 && SafeDistance(len - offset - 1)
    ensures Lost(len, offset, c0, c1) % 255 == 0
  {
    hide Residue;
    var r := Residue(len - offset - 1);
    Between(r, c0);
    LostFromResidue(len, offset, c0, c1, r * c0 - c1, 0);
  }

  /** The least factor that takes a product to a target. */
  lemma LeastFactor(a: nat, target: nat) returns (c: nat)
    requires 0 < target <= 254 * a
    ensures 1 <= c <= 254 && a * (c - 1) < target <= a * c
  {
    c := 254;
    while a * (c - 1) >= target
      invariant 1 <= c <= 254 && target <= a * c
      decreases c
    {
      c := c - 1;
    }
  }

  /** At an unsafe distance some sums make the cast lose something that matters. */
  lemma UnsafeLoses(k: nat) returns (c0: nat, c1: nat, t: int, j: int)
    requires !SafeDistance(k)
    ensures c0 <= 254 && c1 <= 254 && -0x8000_0000 <= t < 0x8000_0000
    ensures Residue(k) * c0 - c1 == t + 0x1_0000_0000 * j && j % 255 != 0
  {
    var r := Residue(k);
    hide Residue;
    if r >= 0 {
      c0 := LeastFactor(r, 0x8000_0000);
      c1 := 0;
    } else {
      c0 := LeastFactor(-r, 0x8000_0001 - 254);
      c1 := 254;
    }
    var v := r * c0 - c1;
    assert if r >= 0 then 0x8000_0000 <= v < 0x8000_0000 + r else -0x8000_0000 + r <= v < -0x8000_0000 by {
      assert r * c0 == r * (c0 - 1) + r;
      assert r < 0 ==> r * c0 == -((-r) * c0) && r * (c0 - 1) == -((-r) * (c0 - 1));
    }
    j := (v + 0x8000_0000) / 0x1_0000_0000;
    t := v - 0x1_0000_0000 * j;
  }

  function Cleared(len: nat): seq<Byte> {
    seq(len, _ => 0)
  }

  lemma {:induction false} ClearedSums(len: nat)
    ensures C0(Cleared(len)) == 0 && C1(Cleared(len)) == 0
  {
    if len > 0 {
      assert Cleared(len)[..len - 1] == Cleared(len - 1);
      ClearedSums(len - 1);
    }
  }

  /** A packet with given sums whose check bytes are zero. */
  function PacketWith(len: nat, c0: nat, c1: nat): (s: seq<Byte>)
    requires len > 255 && c0 <= 254 && c1 <= 254
    ensures |s| == len
  {
    Cleared(len)[len - 1 := c1][len - 255 := (c0 - c1) % 255]
  }

  lemma PacketSums(len: nat, c0: nat, c1: nat)
    requires len > 255 && c0 <= 254 && c1 <= 254
    ensures C0(PacketWith(len, c0, c1)) % 255 == c0 && C1(PacketWith(len, c0, c1)) % 255 == c1
  {
    hide C0, C1;
    var z := Cleared(len);
    var s: seq<Byte> := z[len - 1 := c1];
    var v := (c0 - c1) % 255;
    ClearedSums(len);
    C0Update(z, len - 1, c1);
    C1Update(z, len - 1, c1);
    C0Update(s, len - 255, v);
    C1Update(s, len - 255, v);
    assert s[len - 255] == 0;
    assert C1(PacketWith(len, c0, c1)) == c1 + 255 * v;
  }

  /** Every packet of a length validates once its checksum is generated if and only if the
      distance from the check bytes to the end is safe; below 2^32 bytes that is
      (len - offset - 1) * 254 < 2^31. */
  lemma LengthDecides(len: nat, offset: nat)
    requires offset + 1 < len
    ensures (forall s: seq<Byte> | |s| == len :: Validates(WithCheckBytes(s, offset)))
            <==> SafeDistance(len - offset - 1)
    ensures len - offset - 1 < 0x1_0000_0000 ==>
              (SafeDistance(len - offset - 1) <==> (len - offset - 1) * 254 < 0x8000_0000)
  {
    hide C0, C1, Lost, WithCheckBytes, Validates, SafeDistance;
    if SafeDistance(len - offset - 1) {
      forall s: seq<Byte> | |s| == len ensures Validates(WithCheckBytes(s, offset)) {
        GenerateThenValidate(s, offset);
        var z := s[offset := 0][offset + 1 := 0];
        SafeLosesNothing(len, offset, C0(z) % 255, C1(z) % 255);
      }
    } else {
      var s := FailingPacket(len, offset);
    }
    NearDistances(len - offset - 1);
  }

  lemma NearDistances(k: nat)
    ensures k < 0x1_0000_0000 ==> (SafeDistance(k) <==> k * 254 < 0x8000_0000)
    ensures SafeDistance(0xff_0000_0000)
  {
  }

  /** At an unsafe distance, a packet whose generated checksum does not validate. */
  lemma FailingPacket(len: nat, offset: nat) returns (s: seq<Byte>)
    requires offset + 1 < len && !SafeDistance(len - offset - 1)
    ensures |s| == len && !Validates(WithCheckBytes(s, offset))
  {
    hide C0, C1, Lost, WithCheckBytes, Validates;
    NearDistances(len - offset - 1);
    var c0, c1, t, j := UnsafeLoses(len - offset - 1);
    s := PacketWith(len, c0, c1);
    PacketSums(len, c0, c1);
    LostFromResidue(len, offset, c0, c1, t, j);
    assert s[offset := 0][offset + 1 := 0] == s;
    GenerateThenValidate(s, offset);
  }

  /** A packet that fails: 8454663 bytes, all zero but for a last byte of 254, checked in front. */
  lemma CastBreaksChecksum()
    ensures !Validates(WithCheckBytes(Cleared(8454663)[8454662 := 254], 0))
  {
    hide C0, C1, WithCheckBytes, Validates, Lost;
    var z := Cleared(8454663);
    var s: seq<Byte> := z[8454662 := 254];
    ClearedSums(8454663);
    C0Update(z, 8454662, 254);
    C1Update(z, 8454662, 254);
    assert s[0 := 0][1 := 0] == s;
    LostFromResidue(8454663, 0, 254, 254, 254 * 8454662 - 254 - 0x1_0000_0000, 1);
    GenerateThenValidate(s, 0);
  }

  /** Clears the check bytes, sums, and stores the check bytes the sums call for. */
  method Generate(buffer: array<Byte>, offset: nat)
    requires offset + 1 < buffer.Length
    modifies buffer
    ensures buffer[..] == WithCheckBytes(old(buffer[..]), offset)
  {
    hide C0, C1, CheckX, CheckY;
    ghost var s := buffer[..];
    buffer[offset], buffer[offset + 1] := 0, 0;
    ghost var z := s[offset := 0][offset + 1 := 0];
    assert buffer[..] == z;
    var c0, c1 := Sums(buffer);
    var x := CheckX(buffer.Length, offset, c0 as int, c1 as int);
    var y := CheckY(c0 as int, x);
    buffer[offset], buffer[offset + 1] := x, y;
    assert buffer[..] == z[offset := x][offset + 1 := y];
  }

  /** Stores the check bytes, or validates; only the two check bytes ever change. */
  method Fletcher(buffer: array<Byte>, offset: nat) returns (checksum: nat)
    requires offset <= 0xffff && (offset != VALIDATE ==> offset + 1 < buffer.Length)
    modifies buffer
    ensures offset == VALIDATE ==> buffer[..] == old(buffer[..]) && (checksum == 0 <==> Validates(buffer[..]))
    ensures offset != VALIDATE ==>
              && buffer[..] == WithCheckBytes(old(buffer[..]), offset)
              && checksum == buffer[offset] as int + 256 * buffer[offset + 1] as int
  {
    hide C0, C1, WithCheckBytes;
    if offset == VALIDATE {
      var c0, c1 := Sums(buffer);
      checksum := 256 * c1 as int + c0 as int;
    } else {
      Generate(buffer, offset);
      checksum := buffer[offset] as int + 256 * buffer[offset + 1] as int;
    }
  }

  // ----- The Internet checksum -----

  /** The sum of the 16-bit words, low byte first; an odd last byte counts alone. */
  function WordSum(s: seq<Byte>): nat {
    if s == [] then 0
    else if |s| == 1 then s[0]
    else s[0] + 256 * s[1] + WordSum(s[2..])
  }

  /** Folding the carries twice. */
  function Fold(sum: nat): nat {
    var once := sum / 65536 + sum % 65536;
    (once + once / 65536) % 65536
  }

  /** The ones' complement sum: the sum modulo 65535, with 65535 for a sum that is not zero. */
  function OnesSum(sum: nat): nat {
    if sum == 0 then 0 else 1 + (sum - 1) % 65535
  }

  lemma FoldIsOnesSum(sum: nat)
    requires sum < TWO32
    ensures Fold(sum) == OnesSum(sum)
  {
    var hi, lo := sum / 65536, sum % 65536;
    assert sum == 65535 * hi + (hi + lo);
  }

  lemma WordSumStep(s: seq<Byte>, i: nat)
    requires i + 1 < |s|
    ensures WordSum(s[i..]) == s[i] as int + 256 * s[i + 1] as int + WordSum(s[i + 2..])
  {
    assert s[i..][2..] == s[i + 2..];
  }

  lemma WordSumEnd(s: seq<Byte>)
    requires |s| <= 1
    ensures WordSum(s) == if s == [] then 0 else s[0]
  {
  }

  method InCksum(buffer: array<Byte>) returns (answer: nat)
    requires WordSum(buffer[..]) < 0x8000_0000
    ensures answer == 65535 - OnesSum(WordSum(buffer[..]))
  {
    hide OnesSum, WordSum;
    var sum, i := 0, 0;
    assert buffer[0..] == buffer[..];
    while buffer.Length - i > 1
      invariant 0 <= i <= buffer.Length && 0 <= sum && sum + WordSum(buffer[i..]) == WordSum(buffer[..])
    {
      WordSumStep(buffer[..], i);
      assert buffer[..][i..] == buffer[i..] && buffer[..][i + 2..] == buffer[i + 2..];
      sum := sum + buffer[i] as int + 256 * buffer[i + 1] as int;
      i := i + 2;
    }
    WordSumEnd(buffer[i..]);
    if buffer.Length - i == 1 {
      sum := sum + buffer[i];
    }
    FoldIsOnesSum(sum);
    var folded := sum / 65536 + sum % 65536;
    folded := folded + folded / 65536;
    answer := 65535 - folded % 65536;
  }

  lemma {:induction false} WordSumStore(s: seq<Byte>, at: nat, lo: Byte, hi: Byte)
    requires at % 2 == 0 && at + 1 < |s| && s[at] == 0 && s[at + 1] == 0
    ensures WordSum(s[at := lo][at + 1 := hi]) == WordSum(s) + lo + 256 * hi
    decreases |s|
  {
    var r := s[at := lo][at + 1 := hi];
    if at == 0 {
      assert r[2..] == s[2..];
    } else {
      assert r[2..] == s[2..][at - 2 := lo][at - 1 := hi];
      WordSumStore(s[2..], at - 2, lo, hi);
    }
  }

  /** A packet of at most 65536 bytes cannot overflow the 32-bit accumulator. */
  lemma {:induction false} WordSumBound(s: seq<Byte>)
    ensures WordSum(s) <= 65535 * ((|s| + 1) / 2)
  {
    if |s| > 1 { WordSumBound(s[2..]); }
  }

  /** Storing the checksum in its zeroed, aligned field makes the packet's checksum zero. */
  lemma StoredChecksumVerifies(s: seq<Byte>, at: nat)
    requires at % 2 == 0 && at + 1 < |s| && s[at] == 0 && s[at + 1] == 0
    ensures var answer := 65535 - OnesSum(WordSum(s));
            && 0 <= answer <= 65535
            && OnesSum(WordSum(s[at := answer % 256][at + 1 := answer / 256])) == 65535
    ensures |s| <= 65536 ==> WordSum(s) < 0x8000_0000
  {
    var sum := WordSum(s);
    var answer := 65535 - OnesSum(sum);
    WordSumStore(s, at, answer % 256, answer / 256);
    WordSumBound(s);
    assert (answer % 256) + 256 * (answer / 256) == answer;
  }
}
