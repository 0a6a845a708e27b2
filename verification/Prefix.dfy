/** Address prefixes of lib/prefix.c: byte-wise containment, comparison and masking, related to
    the bits they stand for. */
module Prefixes {

  datatype Family = Inet | Inet6 | Other

  datatype Prefix = Prefix(family: Family, prefixlen: nat, bytes: seq<bv8>)

  /** The bytes a prefix of the family occupies; any other family has the whole union. */
  function ByteLength(family: Family): nat {
    if family.Inet? then 4 else 16
  }

  /** A prefix of its family, no longer than an address. */
  predicate WellFormed(p: Prefix) {
    |p.bytes| == ByteLength(p.family) && p.prefixlen <= 8 * |p.bytes|
  }

  const MASKBIT: seq<bv8> := [0x00, 0x80, 0xc0, 0xe0, 0xf0, 0xf8, 0xfc, 0xfe, 0xff]

  // ----- Bits -----

  /** Bit j of a byte, the most significant first. */
  predicate ByteBit(b: bv8, j: nat)
    requires j < 8
  {
    b & SingleBit(j) != 0
  }

  function SingleBit(j: nat): bv8
    requires j < 8
  {
    if j == 0 then 0x80 else if j == 1 then 0x40 else if j == 2 then 0x20 else if j == 3 then 0x10
    else if j == 4 then 0x08 else if j == 5 then 0x04 else if j == 6 then 0x02 else 0x01
  }

  predicate Bit(bytes: seq<bv8>, k: nat)
    requires k < 8 * |bytes|
  {
    ByteBit(bytes[k / 8], k % 8)
  }

  /** `prefix_bit`. */
  function PrefixBit(bytes: seq<bv8>, k: nat): (r: bv8)
    requires k < 8 * |bytes|
    ensures r == if Bit(bytes, k) then 1 else 0
  {
    Shifted(bytes[k / 8], k % 8);
    (bytes[k / 8] >> (7 - k % 8)) & 1
  }

  lemma Shifted(b: bv8, j: nat)
    requires j < 8
    ensures (b >> (7 - j)) & 1 == if ByteBit(b, j) then 1 else 0
  {
    if j == 0 {
    } else if j == 1 {
    } else if j == 2 {
    } else if j == 3 {
    } else if j == 4 {
    } else if j == 5 {
    } else if j == 6 {
    }
  }

  /** Two bytes agree on their first n bits. */
  predicate ByteAgree(a: bv8, b: bv8, n: nat)
    requires n <= 8
  {
    forall j | 0 <= j < n :: ByteBit(a, j) == ByteBit(b, j)
  }

  /** Two addresses agree on their first n bits. */
  predicate Agree(x: seq<bv8>, y: seq<bv8>, n: nat)
    requires n <= 8 * |x| && n <= 8 * |y|
  {
    forall k | 0 <= k < n :: Bit(x, k) == Bit(y, k)
  }

  lemma MaskedDifference(a: bv8, b: bv8, n: nat)
    requires n <= 8
    ensures MASKBIT[n] & (a ^ b) == 0 <==> ByteAgree(a, b, n)
  {
    hide ByteBit;
    var d := a ^ b;
    LeadingBitsClear(d, n);
    if ByteAgree(a, b, n) {
      forall j | 0 <= j < n ensures !ByteBit(d, j) { BitOfDifference(a, b, j); }
    } else {
      var j :| 0 <= j < n && ByteBit(a, j) != ByteBit(b, j);
      BitOfDifference(a, b, j);
      assert ByteBit(d, j);
    }
  }

  /** A mask of n bits tests the first n bits. */
  lemma {:induction false} LeadingBitsClear(d: bv8, n: nat)
    requires n <= 8
    ensures MASKBIT[n] & d == 0 <==> forall j | 0 <= j < n :: !ByteBit(d, j)
    decreases n
  {
    if n > 0 {
      LeadingBitsClear(d, n - 1);
      OneMoreBit(d, n);
    }
  }

  lemma OneMoreBit(d: bv8, n: nat)
    requires 1 <= n <= 8
    ensures MASKBIT[n] & d == 0 <==> MASKBIT[n - 1] & d == 0 && !ByteBit(d, n - 1)
  {
    if n == 1 {
    } else if n == 2 {
    } else if n == 3 {
    } else if n == 4 {
    } else if n == 5 {
    } else if n == 6 {
    } else if n == 7 {
    }
  }

  lemma BitOfDifference(a: bv8, b: bv8, j: nat)
    requires j < 8
    ensures ByteBit(a ^ b, j) <==> ByteBit(a, j) != ByteBit(b, j)
  {
    var m := SingleBit(j);
    assert m == 0x80 || m == 0x40 || m == 0x20 || m == 0x10 || m == 0x08 || m == 0x04 || m == 0x02 || m == 0x01;
    hide SingleBit;
    UnderOneBit(a, b, m);
  }

  lemma UnderOneBit(a: bv8, b: bv8, m: bv8)
    requires m == 0x80 || m == 0x40 || m == 0x20 || m == 0x10 || m == 0x08 || m == 0x04 || m == 0x02 || m == 0x01
    ensures (a ^ b) & m != 0 <==> (a & m != 0) != (b & m != 0)
  {
    assert (a ^ b) & m == (a & m) ^ (b & m);
    if m == 0x80 {
    } else if m == 0x40 {
    } else if m == 0x20 {
    } else if m == 0x10 {
    } else if m == 0x08 {
    } else if m == 0x04 {
    } else if m == 0x02 {
    }
  }

  lemma EqualBytes(a: bv8, b: bv8)
    ensures a == b <==> ByteAgree(a, b, 8)
  {
    MaskedDifference(a, b, 8);
    assert MASKBIT[8] & (a ^ b) == a ^ b;
    assert a ^ b == 0 <==> a == b;
  }

  /** Agreement on n bits is agreement on whole bytes and on the odd bits of the next one. */
  lemma AgreeByteWise(x: seq<bv8>, y: seq<bv8>, n: nat)
    requires n <= 8 * |x| && n <= 8 * |y|
    ensures Agree(x, y, n) <==>
              && (forall i | 0 <= i < n / 8 :: x[i] == y[i])
              && (n % 8 != 0 ==> ByteAgree(x[n / 8], y[n / 8], n % 8))
  {
    hide ByteBit;
    if Agree(x, y, n) {
      forall i | 0 <= i < n / 8 ensures x[i] == y[i] {
        forall j | 0 <= j < 8 ensures ByteBit(x[i], j) == ByteBit(y[i], j) { BitAt(x, i, j); BitAt(y, i, j); }
        EqualBytes(x[i], y[i]);
      }
      if n % 8 != 0 {
        forall j | 0 <= j < n % 8 ensures ByteBit(x[n / 8], j) == ByteBit(y[n / 8], j) {
          BitAt(x, n / 8, j);
          BitAt(y, n / 8, j);
        }
      }
    }
  }

  lemma BitAt(x: seq<bv8>, i: nat, j: nat)
    requires i < |x| && j < 8
    ensures Bit(x, 8 * i + j) == ByteBit(x[i], j)
  {
    assert (8 * i + j) / 8 == i && (8 * i + j) % 8 == j;
  }

  // ----- Containment and comparison -----

  /** n's network contains p: n is no longer and its bits are p's. */
  predicate Contains(n: Prefix, p: Prefix)
    requires WellFormed(n) && WellFormed(p)
  {
    n.prefixlen <= p.prefixlen && Agree(n.bytes, p.bytes, n.prefixlen)
  }

  predicate SameNetwork(p: Prefix, q: Prefix)
    requires WellFormed(p) && WellFormed(q)
  {
    p.family == q.family && p.prefixlen == q.prefixlen && Agree(p.bytes, q.bytes, p.prefixlen)
  }

  /** `prefix_same`. */
  predicate Same(p: Prefix, q: Prefix)
    requires WellFormed(p) && WellFormed(q)
  {
    p.family == q.family && !p.family.Other? && p.prefixlen == q.prefixlen && p.bytes == q.bytes
  }

  /** The byte loop shared by `prefix_match` and `prefix_cmp`. */
  method SameBits(x: seq<bv8>, y: seq<bv8>, n: nat) returns (same: bool)
    requires n <= 8 * |x| && n <= 8 * |y|
    ensures same <==> Agree(x, y, n)
  {
    AgreeByteWise(x, y, n);
    var offset, shift := n / 8, n % 8;
    if shift != 0 {
      MaskedDifference(x[offset], y[offset], shift);
      if MASKBIT[shift] & (x[offset] ^ y[offset]) != 0 {
        return false;
      }
    }
    while offset != 0
      invariant 0 <= offset <= n / 8
      invariant forall i | offset <= i < n / 8 :: x[i] == y[i]
    {
      offset := offset - 1;
      if x[offset] != y[offset] {
        return false;
      }
    }
    same := true;
  }

  /** Whatever the families. */
  method Match(n: Prefix, p: Prefix) returns (r: bool)
    requires WellFormed(n) && WellFormed(p)
    ensures r <==> Contains(n, p)
  {
    if n.prefixlen > p.prefixlen {
      return false;
    }
    r := SameBits(n.bytes, p.bytes, n.prefixlen);
  }

  method Cmp(p: Prefix, q: Prefix) returns (r: int)
    requires WellFormed(p) && WellFormed(q)
    ensures r == if SameNetwork(p, q) then 0 else 1
  {
    if p.family != q.family || p.prefixlen != q.prefixlen {
      return 1;
    }
    var same := SameBits(p.bytes, q.bytes, p.prefixlen);
    r := if same then 0 else 1;
  }

  /** c is the number of leading bits two addresses of one family share. */
  predicate Common(x: seq<bv8>, y: seq<bv8>, c: nat)
    requires |x| == |y|
  {
    c <= 8 * |x| && Agree(x, y, c) && (c < 8 * |x| ==> Bit(x, c) != Bit(y, c))
  }

  /** The first differing bit of two different bytes. */
  method FirstDifference(a: bv8, b: bv8) returns (bit: nat)
    requires a != b
    ensures bit < 8 && ByteAgree(a, b, bit) && ByteBit(a, bit) != ByteBit(b, bit)
  {
    EqualBytes(a, b);
    bit := 0;
    while bit < 8
      invariant 0 <= bit <= 8 && ByteAgree(a, b, bit)
    {
      BitOfDifference(a, b, bit);
      if (a ^ b) & SingleBit(bit) != 0 {
        return;
      }
      bit := bit + 1;
    }
  }

  method CommonBits(p: Prefix, q: Prefix) returns (c: int)
    requires WellFormed(p) && WellFormed(q)
    ensures if p.family == q.family && !p.family.Other? then c >= 0 && Common(p.bytes, q.bytes, c) else c == -1
  {
    if p.family != q.family || p.family.Other? {
      return -1;
    }
    var pos := 0;
    while pos < |p.bytes| && p.bytes[pos] == q.bytes[pos]
      invariant 0 <= pos <= |p.bytes| && forall i | 0 <= i < pos :: p.bytes[i] == q.bytes[i]
    {
      pos := pos + 1;
    }
    AgreeByteWise(p.bytes, q.bytes, 8 * pos);
    if pos == |p.bytes| {
      return 8 * pos;
    }
    var bit := FirstDifference(p.bytes[pos], q.bytes[pos]);
    AgreeByteWise(p.bytes, q.bytes, 8 * pos + bit);
    BitAt(p.bytes, pos, bit);
    BitAt(q.bytes, pos, bit);
    c := 8 * pos + bit;
  }

  /** Sharing n leading bits is having at least n common bits. */
  lemma CommonDecides(x: seq<bv8>, y: seq<bv8>, c: nat, n: nat)
    requires |x| == |y| && Common(x, y, c) && n <= 8 * |x|
    ensures Agree(x, y, n) <==> n <= c
  {
    hide Bit;
  }

  /** Containment by common bits, within one family. */
  lemma ContainsByCommonBits(n: Prefix, p: Prefix, c: nat)
    requires WellFormed(n) && WellFormed(p) && n.family == p.family && Common(n.bytes, p.bytes, c)
    ensures Contains(n, p) <==> n.prefixlen <= p.prefixlen && n.prefixlen <= c
  {
    hide Common;
    CommonDecides(n.bytes, p.bytes, c, n.prefixlen);
  }

  lemma ContainsReflexive(p: Prefix)
    requires WellFormed(p)
    ensures Contains(p, p)
  {
  }

  lemma ContainsTransitive(a: Prefix, b: Prefix, c: Prefix)
    requires WellFormed(a) && WellFormed(b) && WellFormed(c) && Contains(a, b) && Contains(b, c)
    ensures Contains(a, c)
  {
    hide Bit;
    assert forall k | 0 <= k < a.prefixlen :: Bit(a.bytes, k) == Bit(b.bytes, k) == Bit(c.bytes, k);
  }

  /** Mutual containment is equality of networks. */
  lemma ContainsAntisymmetric(p: Prefix, q: Prefix)
    requires WellFormed(p) && WellFormed(q) && p.family == q.family
    ensures Contains(p, q) && Contains(q, p) <==> SameNetwork(p, q)
  {
    hide Bit;
  }

  /** Two networks that contain the same prefix are nested: networks never partly overlap. */
  lemma Laminar(a: Prefix, b: Prefix, p: Prefix)
    requires WellFormed(a) && WellFormed(b) && WellFormed(p) && Contains(a, p) && Contains(b, p)
    ensures Contains(a, b) || Contains(b, a)
  {
    hide Bit;
    if a.prefixlen <= b.prefixlen {
      assert forall k | 0 <= k < a.prefixlen :: Bit(a.bytes, k) == Bit(p.bytes, k) == Bit(b.bytes, k);
    } else {
      assert forall k | 0 <= k < b.prefixlen :: Bit(b.bytes, k) == Bit(p.bytes, k) == Bit(a.bytes, k);
    }
  }

  // ----- Masking -----

  /** How many of byte i's bits an n-bit mask keeps. */
  function Kept(n: nat, i: nat): (k: nat)
    ensures k <= 8
  {
    if n <= 8 * i then 0 else if n >= 8 * i + 8 then 8 else n - 8 * i
  }

  /** An address with everything after its first n bits cleared. */
  function Masked(bytes: seq<bv8>, n: nat): (r: seq<bv8>)
    ensures |r| == |bytes|
  {
    seq(|bytes|, i requires 0 <= i < |bytes| => And8(bytes[i], MASKBIT[Kept(n, i)]))
  }

  function And8(a: bv8, b: bv8): bv8 {
    a & b
  }

  lemma MaskedByteBit(b: bv8, n: nat, j: nat)
    requires n <= 8 && j < 8
    ensures ByteBit(b & MASKBIT[n], j) <==> j < n && ByteBit(b, j)
    decreases n
  {
    MaskBits(n, j);
    assert MASKBIT[n] & SingleBit(j) == if j < n then SingleBit(j) else 0;
    assert (b & MASKBIT[n]) & SingleBit(j) == b & (MASKBIT[n] & SingleBit(j));
  }

  lemma MaskBits(n: nat, j: nat)
    requires n <= 8 && j < 8
    ensures MASKBIT[n] & SingleBit(j) == if j < n then SingleBit(j) else 0
  {
    if n == 0 {
    } else if n == 1 {
    } else if n == 2 {
    } else if n == 3 {
    } else if n == 4 {
    } else if n == 5 {
    } else if n == 6 {
    } else if n == 7 {
    }
  }

  /** Masking keeps the first n bits and clears the others. */
  lemma MaskedBit(bytes: seq<bv8>, n: nat, k: nat)
    requires k < 8 * |bytes|
    ensures Bit(Masked(bytes, n), k) <==> k < n && Bit(bytes, k)
  {
    hide ByteBit;
    MaskedByteBit(bytes[k / 8], Kept(n, k / 8), k % 8);
  }

  function Mask(p: Prefix): (r: Prefix)
    requires WellFormed(p)
    ensures WellFormed(r)
  {
    if p.family.Other? then p else p.(bytes := Masked(p.bytes, p.prefixlen))
  }

  lemma EqualWhenBitsAgree(x: seq<bv8>, y: seq<bv8>)
    requires |x| == |y|
    ensures x == y <==> Agree(x, y, 8 * |x|)
  {
    hide Agree;
    AgreeByteWise(x, y, 8 * |x|);
  }

  /** Two prefixes of a known family are the same network exactly when their masked forms are the same. */
  lemma SameWhenMasked(p: Prefix, q: Prefix)
    requires WellFormed(p) && WellFormed(q)
    ensures Same(Mask(p), Mask(q)) <==> SameNetwork(p, q) && !p.family.Other?
  {
    hide Bit, Masked;
    if p.family == q.family && !p.family.Other? && p.prefixlen == q.prefixlen {
      var n := p.prefixlen;
      EqualWhenBitsAgree(Masked(p.bytes, n), Masked(q.bytes, n));
      forall k | 0 <= k < 8 * |p.bytes|
        ensures Bit(Masked(p.bytes, n), k) <==> k < n && Bit(p.bytes, k)
        ensures Bit(Masked(q.bytes, n), k) <==> k < n && Bit(q.bytes, k)
      {
        MaskedBit(p.bytes, n, k);
        MaskedBit(q.bytes, n, k);
      }
    }
  }

  /** Masking changes nothing the other operations look at, and happens once. */
  lemma MaskKeepsNetwork(p: Prefix)
    requires WellFormed(p)
    ensures SameNetwork(p, Mask(p)) && Mask(Mask(p)) == Mask(p)
  {
    hide Bit, Masked;
    forall k | 0 <= k < p.prefixlen ensures Bit(p.bytes, k) == Bit(Masked(p.bytes, p.prefixlen), k) {
      MaskedBit(p.bytes, p.prefixlen, k);
    }
    SameWhenMasked(p, Mask(p));
  }

  /** The mask `masklen2ip` computes before it is put in network order. */
  function MaskWord(n: nat): bv32
    requires n <= 32
  {
    ((0xffff_ffff as bv64 << (32 - n)) & 0xffff_ffff) as bv32
  }

  /** `htonl` on a little-endian host. */
  function Htonl(w: bv32): bv32 {
    ((w & 0xff) << 24) | ((w & 0xff00) << 8) | ((w >> 8) & 0xff00) | (w >> 24)
  }

  /** Byte i of a word in memory, and the word that four bytes in memory are. */
  function ByteAt(w: bv32, i: nat): bv8
    requires i < 4
  {
    if i == 0 then (w & 0xff) as bv8
    else if i == 1 then ((w >> 8) & 0xff) as bv8
    else if i == 2 then ((w >> 16) & 0xff) as bv8
    else (w >> 24) as bv8
  }

  function WordOf(a: bv8, b: bv8, c: bv8, d: bv8): bv32 {
    (a as bv32) | ((b as bv32) << 8) | ((c as bv32) << 16) | ((d as bv32) << 24)
  }

  lemma AndOfWords(a: bv8, b: bv8, c: bv8, d: bv8, m: bv32)
    ensures var w := WordOf(a, b, c, d) & m;
            && ByteAt(w, 0) == And8(a, ByteAt(m, 0)) && ByteAt(w, 1) == And8(b, ByteAt(m, 1))
            && ByteAt(w, 2) == And8(c, ByteAt(m, 2)) && ByteAt(w, 3) == And8(d, ByteAt(m, 3))
  {
  }

  /** In memory the mask's bytes are full, then one with the odd bits, then empty. */
  lemma MaskWordBytes(n: nat, i: nat)
    requires n <= 32 && i < 4
    ensures ByteAt(Htonl(MaskWord(n)), i) == MASKBIT[Kept(n, i)]
  {
    if n <= 8 {
      ShortMask(n, i);
    } else if n <= 16 {
      LongerMask(n, i);
    } else if n <= 24 {
      LongMask(n, i);
    } else {
      LongestMask(n, i);
    }
  }

  lemma ShortMask(n: nat, i: nat)
    requires n <= 8 && i < 4
    ensures ByteAt(Htonl(MaskWord(n)), i) == MASKBIT[Kept(n, i)]
  {
  }

  lemma LongerMask(n: nat, i: nat)
    requires 8 < n <= 16 && i < 4
    ensures ByteAt(Htonl(MaskWord(n)), i) == MASKBIT[Kept(n, i)]
  {
  }

  lemma LongMask(n: nat, i: nat)
    requires 16 < n <= 24 && i < 4
    ensures ByteAt(Htonl(MaskWord(n)), i) == MASKBIT[Kept(n, i)]
  {
  }

  lemma LongestMask(n: nat, i: nat)
    requires 24 < n <= 32 && i < 4
    ensures ByteAt(Htonl(MaskWord(n)), i) == MASKBIT[Kept(n, i)]
  {
  }

  /** The address word in memory after the and with the mask word. */
  function MaskedWord(a: bv8, b: bv8, c: bv8, d: bv8, n: nat): bv32
    requires n <= 32
  {
    WordOf(a, b, c, d) & Htonl(MaskWord(n))
  }

  lemma MaskedWordBytes(a: bv8, b: bv8, c: bv8, d: bv8, n: nat)
    requires n <= 32
    ensures var w := MaskedWord(a, b, c, d, n);
            && ByteAt(w, 0) == And8(a, MASKBIT[Kept(n, 0)]) && ByteAt(w, 1) == And8(b, MASKBIT[Kept(n, 1)])
            && ByteAt(w, 2) == And8(c, MASKBIT[Kept(n, 2)]) && ByteAt(w, 3) == And8(d, MASKBIT[Kept(n, 3)])
  {
    hide MaskWord, Htonl, ByteAt, WordOf, Kept, And8;
    AndOfWords(a, b, c, d, Htonl(MaskWord(n)));
    MaskWordBytes(n, 0);
    MaskWordBytes(n, 1);
    MaskWordBytes(n, 2);
    MaskWordBytes(n, 3);
  }

  /** The bytes of the masked word are the masked bytes. */
  lemma WordIsMasked(s: seq<bv8>, n: nat)
    requires |s| == 4 && n <= 32
    ensures var w := MaskedWord(s[0], s[1], s[2], s[3], n);
            Masked(s, n) == [ByteAt(w, 0), ByteAt(w, 1), ByteAt(w, 2), ByteAt(w, 3)]
  {
    hide MaskedWord, ByteAt, Kept, And8;
    MaskedWordBytes(s[0], s[1], s[2], s[3], n);
  }

  /** `apply_mask_ipv4`: one and of the address word with the mask word. */
  method ApplyMaskIpv4(bytes: array<bv8>, prefixlen: nat)
    requires bytes.Length == 4 && prefixlen <= 32
    modifies bytes
    ensures bytes[..] == Masked(old(bytes[..]), prefixlen)
  {
    hide MaskedWord, ByteAt, Masked;
    WordIsMasked(bytes[..], prefixlen);
    var word := MaskedWord(bytes[0], bytes[1], bytes[2], bytes[3], prefixlen);
    bytes[0], bytes[1], bytes[2], bytes[3] := ByteAt(word, 0), ByteAt(word, 1), ByteAt(word, 2), ByteAt(word, 3);
  }

  /** `apply_mask_ipv6`: the odd byte, then the bytes after it. */
  method ApplyMaskIpv6(bytes: array<bv8>, prefixlen: nat)
    requires bytes.Length == 16 && prefixlen <= 128
    modifies bytes
    ensures bytes[..] == Masked(old(bytes[..]), prefixlen)
  {
    var index := prefixlen / 8;
    if index < 16 {
      bytes[index] := bytes[index] & MASKBIT[prefixlen % 8];
      index := index + 1;
      while index < 16
        invariant prefixlen / 8 < index <= 16
        invariant forall i | 0 <= i < index :: bytes[i] == old(bytes[i]) & MASKBIT[Kept(prefixlen, i)]
        invariant forall i | index <= i < 16 :: bytes[i] == old(bytes[i])
      {
        bytes[index] := 0;
        index := index + 1;
      }
    }
  }

  /** `apply_mask`: an unknown family is left alone. */
  method ApplyMask(family: Family, bytes: array<bv8>, prefixlen: nat)
    requires WellFormed(Prefix(family, prefixlen, bytes[..]))
    modifies bytes
    ensures Prefix(family, prefixlen, bytes[..]) == Mask(Prefix(family, prefixlen, old(bytes[..])))
  {
    match family {
      case Inet => ApplyMaskIpv4(bytes, prefixlen);
      case Inet6 => ApplyMaskIpv6(bytes, prefixlen);
      case Other =>
    }
  }
}
