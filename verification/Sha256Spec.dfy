/**
 SHA-256 as FIPS 180-4 defines it: the functions of section 4.1.2, the constants of 4.2.2 and 5.3.3,
 the padding of 5.1.1 and the hash computation of 6.2.
 */
module Sha256Spec {
  import opened Octets

  type Word = bv32

  // --- Functions (section 4.1.2) -------------------------------------------------------

  function Rotr7(x: Word): Word { (x >> 7) | (x << 25) }
  function Rotr18(x: Word): Word { (x >> 18) | (x << 14) }
  function Rotr17(x: Word): Word { (x >> 17) | (x << 15) }
  function Rotr19(x: Word): Word { (x >> 19) | (x << 13) }
  function Rotr6(x: Word): Word { (x >> 6) | (x << 26) }
  function Rotr11(x: Word): Word { (x >> 11) | (x << 21) }
  function Rotr25(x: Word): Word { (x >> 25) | (x << 7) }
  function Rotr2(x: Word): Word { (x >> 2) | (x << 30) }
  function Rotr13(x: Word): Word { (x >> 13) | (x << 19) }
  function Rotr22(x: Word): Word { (x >> 22) | (x << 10) }

  /** Addition modulo 2^32. */
  function Plus(x: Word, y: Word): Word { x + y }

  function Sum4(a: Word, b: Word, c: Word, d: Word): Word { a + b + c + d }

  function Xor(x: Word, y: Word): Word { x ^ y }

  function Ch(x: Word, y: Word, z: Word): Word { Xor(x & y, !x & z) }
  function Maj(x: Word, y: Word, z: Word): Word { Xor(Xor(x & y, x & z), y & z) }
  function BigSigma0(x: Word): Word { Xor(Xor(Rotr2(x), Rotr13(x)), Rotr22(x)) }
  function BigSigma1(x: Word): Word { Xor(Xor(Rotr6(x), Rotr11(x)), Rotr25(x)) }
  function SmallSigma0(x: Word): Word { Xor(Xor(Rotr7(x), Rotr18(x)), x >> 3) }
  function SmallSigma1(x: Word): Word { Xor(Xor(Rotr17(x), Rotr19(x)), x >> 10) }

  // --- Constants (sections 4.2.2 and 5.3.3) ---------------------------------------------

  type U32 = n: nat | n < 0x1_0000_0000

  /** The round constants, as numbers, four to a row. */
  const K0: seq<U32> := [0x428a2f98, 0x71374491, 0xb5c0fbcf, 0xe9b5dba5]
  const K1: seq<U32> := [0x3956c25b, 0x59f111f1, 0x923f82a4, 0xab1c5ed5]
  const K2: seq<U32> := [0xd807aa98, 0x12835b01, 0x243185be, 0x550c7dc3]
  const K3: seq<U32> := [0x72be5d74, 0x80deb1fe, 0x9bdc06a7, 0xc19bf174]
  const K4: seq<U32> := [0xe49b69c1, 0xefbe4786, 0x0fc19dc6, 0x240ca1cc]
  const K5: seq<U32> := [0x2de92c6f, 0x4a7484aa, 0x5cb0a9dc, 0x76f988da]
  const K6: seq<U32> := [0x983e5152, 0xa831c66d, 0xb00327c8, 0xbf597fc7]
  const K7: seq<U32> := [0xc6e00bf3, 0xd5a79147, 0x06ca6351, 0x14292967]
  const K8: seq<U32> := [0x27b70a85, 0x2e1b2138, 0x4d2c6dfc, 0x53380d13]
  const K9: seq<U32> := [0x650a7354, 0x766a0abb, 0x81c2c92e, 0x92722c85]
  const K10: seq<U32> := [0xa2bfe8a1, 0xa81a664b, 0xc24b8b70, 0xc76c51a3]
  const K11: seq<U32> := [0xd192e819, 0xd6990624, 0xf40e3585, 0x106aa070]
  const K12: seq<U32> := [0x19a4c116, 0x1e376c08, 0x2748774c, 0x34b0bcb5]
  const K13: seq<U32> := [0x391c0cb3, 0x4ed8aa4a, 0x5b9cca4f, 0x682e6ff3]
  const K14: seq<U32> := [0x748f82ee, 0x78a5636f, 0x84c87814, 0x8cc70208]
  const K15: seq<U32> := [0x90befffa, 0xa4506ceb, 0xbef9a3f7, 0xc67178f2]

  function KRow(i: nat): (r: seq<U32>)
    requires i < 16
    ensures |r| == 4
  {
    if i == 0 then K0 else if i == 1 then K1 else if i == 2 then K2 else if i == 3 then K3
    else if i == 4 then K4 else if i == 5 then K5 else if i == 6 then K6 else if i == 7 then K7
    else if i == 8 then K8 else if i == 9 then K9 else if i == 10 then K10 else if i == 11 then K11
    else if i == 12 then K12 else if i == 13 then K13 else if i == 14 then K14 else K15
  }

  function K(t: nat): U32
    requires t < 64
  {
    KRow(t / 4)[t % 4]
  }

  /** The initial hash value, as numbers. */
  const H: seq<U32> := [
    0x6a09e667, 0xbb67ae85, 0x3c6ef372, 0xa54ff53a, 0x510e527f, 0x9b05688c, 0x1f83d9ab, 0x5be0cd19]

  function RoundConstant(t: nat): Word
    requires t < 64
  {
    K(t) as Word
  }

  function Initial(): (s: seq<Word>)
    ensures |s| == 8
  {
    seq(8, i requires 0 <= i < 8 => H[i] as Word)
  }

  // --- Hash computation (section 6.2.2) -------------------------------------------------

  /** Big-endian word number t of a block. */
  function BlockWord(block: seq<Byte>, t: nat): Word
    requires |block| == 64 && t < 16
  {
    ((block[4 * t] as Word << 24) | (block[4 * t + 1] as Word << 16))
      | ((block[4 * t + 2] as Word << 8) | (block[4 * t + 3] as Word))
  }

  /** The message schedule. */
  function Schedule(block: seq<Byte>, t: nat): Word
    requires |block| == 64
  {
    if t < 16 then BlockWord(block, t)
    else
      Sum4(SmallSigma1(Schedule(block, t - 2)), Schedule(block, t - 7), SmallSigma0(Schedule(block, t - 15)),
           Schedule(block, t - 16))
  }

  datatype Vars = Vars(a: Word, b: Word, c: Word, d: Word, e: Word, f: Word, g: Word, h: Word)

  function T1(v: Vars, k: Word, w: Word): Word 
  {
    Plus(Plus(Plus(Plus(v.h, BigSigma1(v.e)), Ch(v.e, v.f, v.g)), k), w)
  }

  function T2(v: Vars): Word { Plus(BigSigma0(v.a), Maj(v.a, v.b, v.c)) }

  function Round(v: Vars, k: Word, w: Word): Vars
  {
    Vars(Plus(T1(v, k, w), T2(v)), v.a, v.b, v.c, Plus(v.d, T1(v, k, w)), v.e, v.f, v.g)
  }

  function Rounds(v: Vars, block: seq<Byte>, t: nat): Vars
    requires |block| == 64 && t <= 64
  {
    if t == 0 then v else Round(Rounds(v, block, t - 1), RoundConstant(t - 1), Schedule(block, t - 1))
  }

  function AsVars(s: seq<Word>): Vars
    requires |s| == 8
  {
    Vars(s[0], s[1], s[2], s[3], s[4], s[5], s[6], s[7])
  }

  function Compressed(s: seq<Word>, block: seq<Byte>): (r: seq<Word>)
    requires |s| == 8 && |block| == 64
    ensures |r| == 8
  {
    var v := Rounds(AsVars(s), block, 64);
    [Plus(s[0], v.a), Plus(s[1], v.b), Plus(s[2], v.c), Plus(s[3], v.d),
     Plus(s[4], v.e), Plus(s[5], v.f), Plus(s[6], v.g), Plus(s[7], v.h)]
  }

  /** The hash value after all the blocks of some data. */
  function Folded(data: seq<Byte>): (r: seq<Word>)
    requires |data| % 64 == 0
    ensures |r| == 8
    decreases |data|
  {
    if |data| == 0 then Initial()
    else Compressed(Folded(data[..|data| - 64]), data[|data| - 64..])
  }

  // --- Padding (section 5.1.1) ----------------------------------------------------------

  /** The number of zero bytes that makes data of n bytes, its 0x80 and its length field whole blocks. */
  function ZeroCount(n: nat): (z: nat)
    ensures z < 64 && (n + 1 + z) % 64 == 56
  {
    var z := (119 - n % 64) % 64;
    assert (n + 1 + z) % 64 == 56 by { ZeroCountFits(n); }
    z
  }

  lemma ZeroCountFits(n: nat)
    ensures (n + 1 + (119 - n % 64) % 64) % 64 == 56
  {
  }

  /** The same count, described: it is the smallest that fits. */
  lemma ZeroCountIsLeast(n: nat, z: nat)
    requires (n + 1 + z) % 64 == 56
    ensures ZeroCount(n) <= z
  {
  }

  function Zeros(k: nat): (z: seq<Byte>)
    ensures |z| == k
  {
    seq(k, _ => 0 as Byte)
  }

  const TWO64: nat := 0x1_0000_0000_0000_0000

  /** Eight big-endian bytes. */
  function Be64(n: nat): (s: seq<Byte>)
    ensures |s| == 8
  {
    [Octet(n / 0x100_0000_0000_0000), Octet(n / 0x1_0000_0000_0000), Octet(n / 0x100_0000_0000),
     Octet(n / 0x1_0000_0000), Octet(n / 0x100_0000), Octet(n / 0x1_0000), Octet(n / 0x100), Octet(n)]
  }

  function Octet(n: nat): Byte { (n % 256) as Byte }

  lemma DivideTwice(n: nat, d: nat)
    requires d > 0
    ensures n / (256 * d) == n / d / 256 && n / d == 256 * (n / (256 * d)) + n / d % 256
  {
    var q, r := n / d, n % d;
    var a, b := q / 256, q % 256;
    assert n == d * (256 * a + b) + r;
    Quotient(n, d, a, b, r);
  }

  lemma Quotient(n: nat, d: nat, a: nat, b: nat, r: nat)
    requires d > 0 && b < 256 && r < d && n == d * (256 * a + b) + r
    ensures n / (256 * d) == a
  {
    var e, m := 256 * d, d * b + r;
    assert n == e * a + m;
    assert d * b <= d * 255;
    assert m < e;
    DividedBy(n, e, a, m);
  }

  lemma DividedBy(n: nat, e: nat, a: nat, m: nat)
    requires e > 0 && m < e && n == e * a + m
    ensures n / e == a
  {
    var d := n / e - a;
    assert e * d == m - n % e;
    Multiple(e, d);
  }

  lemma Multiple(e: int, d: int)
    requires e > 0
    ensures d >= 1 ==> e * d >= e
    ensures d <= -1 ==> e * d <= -e
  {
  }

  /** A byte is determined by its value. */
  lemma OctetIs(b: Byte, n: nat)
    requires b as nat == n % 256
    ensures Octet(n) == b
  {
  }

  /** One byte less of the number. */
  lemma OneOctetLess(s: Bytes, k: nat, n: nat, d: nat)
    requires k < |s| && d > 0 && BigEndian(s[..k + 1]) == n / d
    ensures s[k] == Octet(n / d) && BigEndian(s[..k]) == n / (256 * d)
  {
    hide Octet;
    DivideTwice(n, d);
    assert s[..k + 1][..k] == s[..k];
    LastByte(n / d, BigEndian(s[..k]), s[k] as nat);
    OctetIs(s[k], n / d);
  }

  lemma LastByte(n: nat, front: nat, last: nat)
    requires n == 256 * front + last && last < 256
    ensures n / 256 == front && n % 256 == last
  {
  }

  /** The eight bytes are those that carry the number, the most significant first. */
  lemma Be64Carries(n: nat, s: Bytes)
    requires |s| == 8 && BigEndian(s) == n
    ensures Be64(n) == s
  {
    hide Octet, BigEndian;
    assert s[..8] == s && n / 1 == n;
    OneOctetLess(s, 7, n, 1);
    OneOctetLess(s, 6, n, 0x100);
    OneOctetLess(s, 5, n, 0x1_0000);
    OneOctetLess(s, 4, n, 0x100_0000);
    OneOctetLess(s, 3, n, 0x1_0000_0000);
    OneOctetLess(s, 2, n, 0x100_0000_0000);
    OneOctetLess(s, 1, n, 0x1_0000_0000_0000);
    OneOctetLess(s, 0, n, 0x100_0000_0000_0000);
  }

  /** The padding is one bit, the fewest zeros that fit, and the 64 bits that carry the length in bits. */
  lemma PaddingIs(m: seq<Byte>, length: Bytes)
    requires |length| == 8 && BigEndian(length) == 8 * |m| % 0x1_0000_0000_0000_0000
    ensures
      var p := Padded(m);
      && |p| % 64 == 0 && |m| + 9 <= |p| < |m| + 9 + 64
      && p[..|m|] == m && p[|m|] == 0x80 && (forall i :: |m| < i < |p| - 8 ==> p[i] == 0) && p[|p| - 8..] == length
  {
    hide Be64, BigEndian;
    Be64Carries(8 * |m| % TWO64, length);
  }

  /**
   The padded message. The length field is 64 bits wide; the standard only defines messages below 2^64
   bits, for which it is the length itself.
   */
  function Padded(m: seq<Byte>): (p: seq<Byte>)
    ensures |p| % 64 == 0
  {
    var z := ZeroCount(|m|);
    var p := m + [0x80] + Zeros(z) + Be64(8 * |m| % TWO64);
    assert |p| % 64 == 0 by { WholeBlocks(|m| + 1 + z, |p|); }
    p
  }

  lemma WholeBlocks(n: nat, size: nat)
    requires n % 64 == 56 && size == n + 8
    ensures size % 64 == 0
  {
  }

  function WordBytes(w: Word): (s: seq<Byte>)
    ensures |s| == 4
  {
    [(w >> 24) as Byte, ((w >> 16) & 0xFF) as Byte, ((w >> 8) & 0xFF) as Byte, (w & 0xFF) as Byte]
  }

  /** The words of a hash value, big-endian, from number i on. */
  function DigestFrom(s: seq<Word>, i: nat): (d: seq<Byte>)
    requires |s| == 8 && i <= 8
    ensures |d| == 4 * (8 - i)
    decreases 8 - i
  {
    if i == 8 then [] else WordBytes(s[i]) + DigestFrom(s, i + 1)
  }

  /** SHA-256 of a message. */
  function Hash(m: seq<Byte>): (d: seq<Byte>)
    ensures |d| == 32
  {
    DigestFrom(Folded(Padded(m)), 0)
  }

  // --- Where the constants come from ----------------------------------------------------

  /** The first 64 primes, four to a row. */
  const P0: seq<nat> := [2, 3, 5, 7]
  const P1: seq<nat> := [11, 13, 17, 19]
  const P2: seq<nat> := [23, 29, 31, 37]
  const P3: seq<nat> := [41, 43, 47, 53]
  const P4: seq<nat> := [59, 61, 67, 71]
  const P5: seq<nat> := [73, 79, 83, 89]
  const P6: seq<nat> := [97, 101, 103, 107]
  const P7: seq<nat> := [109, 113, 127, 131]
  const P8: seq<nat> := [137, 139, 149, 151]
  const P9: seq<nat> := [157, 163, 167, 173]
  const P10: seq<nat> := [179, 181, 191, 193]
  const P11: seq<nat> := [197, 199, 211, 223]
  const P12: seq<nat> := [227, 229, 233, 239]
  const P13: seq<nat> := [241, 251, 257, 263]
  const P14: seq<nat> := [269, 271, 277, 281]
  const P15: seq<nat> := [283, 293, 307, 311]

  function PrimeRow(i: nat): (r: seq<nat>)
    requires i < 16
    ensures |r| == 4
  {
    if i == 0 then P0 else if i == 1 then P1 else if i == 2 then P2 else if i == 3 then P3
    else if i == 4 then P4 else if i == 5 then P5 else if i == 6 then P6 else if i == 7 then P7
    else if i == 8 then P8 else if i == 9 then P9 else if i == 10 then P10 else if i == 11 then P11
    else if i == 12 then P12 else if i == 13 then P13 else if i == 14 then P14 else P15
  }

  function Prime(t: nat): nat
    requires t < 64
  {
    PrimeRow(t / 4)[t % 4]
  }

  /** f is the first 32 bits of the fractional part of the cube root of p, whose whole part is i. */
  predicate CubeRootBits(p: nat, i: nat, f: nat)
  {
    var n := i * 0x1_0000_0000 + f;
    n * n * n <= p * 0x1_0000_0000_0000_0000_0000_0000 < (n + 1) * (n + 1) * (n + 1)
  }

  predicate SquareRootBits(p: nat, i: nat, f: nat)
  {
    var n := i * 0x1_0000_0000 + f;
    n * n <= p * 0x1_0000_0000_0000_0000 < (n + 1) * (n + 1)
  }

  function CubeFloor(p: nat): nat
  {
    if p < 8 then 1 else if p < 27 then 2 else if p < 64 then 3 else if p < 125 then 4 else if p < 216 then 5 else 6
  }

  /** The constant in one place of the table is the cube root of the prime in the same place. */
  predicate CubeRootAt(row: nat, j: nat)
    requires row < 16 && j < 4
  {
    CubeRootBits(PrimeRow(row)[j], CubeFloor(PrimeRow(row)[j]), KRow(row)[j])
  }

  // The arithmetic, constant by constant.

  lemma CubeRoots0()
    ensures CubeRootBits(2, 1, 0x428a2f98) && CubeRootBits(3, 1, 0x71374491)
    ensures CubeRootBits(5, 1, 0xb5c0fbcf) && CubeRootBits(7, 1, 0xe9b5dba5)
    ensures CubeRootBits(11, 2, 0x3956c25b) && CubeRootBits(13, 2, 0x59f111f1)
    ensures CubeRootBits(17, 2, 0x923f82a4) && CubeRootBits(19, 2, 0xab1c5ed5)
    ensures CubeRootBits(23, 2, 0xd807aa98) && CubeRootBits(29, 3, 0x12835b01)
    ensures CubeRootBits(31, 3, 0x243185be) && CubeRootBits(37, 3, 0x550c7dc3)
    ensures CubeRootBits(41, 3, 0x72be5d74) && CubeRootBits(43, 3, 0x80deb1fe)
    ensures CubeRootBits(47, 3, 0x9bdc06a7) && CubeRootBits(53, 3, 0xc19bf174)
  {
  }

  lemma CubeRoots1()
    ensures CubeRootBits(59, 3, 0xe49b69c1) && CubeRootBits(61, 3, 0xefbe4786)
    ensures CubeRootBits(67, 4, 0x0fc19dc6) && CubeRootBits(71, 4, 0x240ca1cc)
    ensures CubeRootBits(73, 4, 0x2de92c6f) && CubeRootBits(79, 4, 0x4a7484aa)
    ensures CubeRootBits(83, 4, 0x5cb0a9dc) && CubeRootBits(89, 4, 0x76f988da)
    ensures CubeRootBits(97, 4, 0x983e5152) && CubeRootBits(101, 4, 0xa831c66d)
    ensures CubeRootBits(103, 4, 0xb00327c8) && CubeRootBits(107, 4, 0xbf597fc7)
    ensures CubeRootBits(109, 4, 0xc6e00bf3) && CubeRootBits(113, 4, 0xd5a79147)
    ensures CubeRootBits(127, 5, 0x06ca6351) && CubeRootBits(131, 5, 0x14292967)
  {
  }

  lemma CubeRoots2()
    ensures CubeRootBits(137, 5, 0x27b70a85) && CubeRootBits(139, 5, 0x2e1b2138)
    ensures CubeRootBits(149, 5, 0x4d2c6dfc) && CubeRootBits(151, 5, 0x53380d13)
    ensures CubeRootBits(157, 5, 0x650a7354) && CubeRootBits(163, 5, 0x766a0abb)
    ensures CubeRootBits(167, 5, 0x81c2c92e) && CubeRootBits(173, 5, 0x92722c85)
    ensures CubeRootBits(179, 5, 0xa2bfe8a1) && CubeRootBits(181, 5, 0xa81a664b)
    ensures CubeRootBits(191, 5, 0xc24b8b70) && CubeRootBits(193, 5, 0xc76c51a3)
    ensures CubeRootBits(197, 5, 0xd192e819) && CubeRootBits(199, 5, 0xd6990624)
    ensures CubeRootBits(211, 5, 0xf40e3585) && CubeRootBits(223, 6, 0x106aa070)
  {
  }

  lemma CubeRoots3()
    ensures CubeRootBits(227, 6, 0x19a4c116) && CubeRootBits(229, 6, 0x1e376c08)
    ensures CubeRootBits(233, 6, 0x2748774c) && CubeRootBits(239, 6, 0x34b0bcb5)
    ensures CubeRootBits(241, 6, 0x391c0cb3) && CubeRootBits(251, 6, 0x4ed8aa4a)
    ensures CubeRootBits(257, 6, 0x5b9cca4f) && CubeRootBits(263, 6, 0x682e6ff3)
    ensures CubeRootBits(269, 6, 0x748f82ee) && CubeRootBits(271, 6, 0x78a5636f)
    ensures CubeRootBits(277, 6, 0x84c87814) && CubeRootBits(281, 6, 0x8cc70208)
    ensures CubeRootBits(283, 6, 0x90befffa) && CubeRootBits(293, 6, 0xa4506ceb)
    ensures CubeRootBits(307, 6, 0xbef9a3f7) && CubeRootBits(311, 6, 0xc67178f2)
  {
  }

  lemma CubeRow(row: nat)
    requires row < 16
    ensures forall j :: 0 <= j < 4 ==> CubeRootAt(row, j)
  {
    hide CubeRootBits;
    CubeRoots0();
    CubeRoots1();
    CubeRoots2();
    CubeRoots3();
    assert CubeRootAt(row, 0) && CubeRootAt(row, 1) && CubeRootAt(row, 2) && CubeRootAt(row, 3);
  }

  /** The round constants are what the standard says: the cube roots of the first 64 primes. */
  lemma RoundConstantsAreCubeRoots(t: nat)
    requires t < 64
    ensures CubeRootBits(Prime(t), CubeFloor(Prime(t)), K(t))
  {
    hide CubeRootBits, KRow, PrimeRow, CubeFloor;
    CubeRow(t / 4);
    assert CubeRootAt(t / 4, t % 4);
  }

  function SquareFloor(p: nat): nat
  {
    if p < 4 then 1 else if p < 9 then 2 else if p < 16 then 3 else 4
  }

  predicate SquareRootAt(row: nat, j: nat)
    requires row < 2 && j < 4
  {
    SquareRootBits(PrimeRow(row)[j], SquareFloor(PrimeRow(row)[j]), H[4 * row + j])
  }

  lemma SquareRow0()
    ensures forall j :: 0 <= j < 4 ==> SquareRootAt(0, j)
  {
    assert SquareRootAt(0, 0) && SquareRootAt(0, 1) && SquareRootAt(0, 2) && SquareRootAt(0, 3);
  }

  lemma SquareRow1()
    ensures forall j :: 0 <= j < 4 ==> SquareRootAt(1, j)
  {
    assert SquareRootAt(1, 0) && SquareRootAt(1, 1) && SquareRootAt(1, 2) && SquareRootAt(1, 3);
  }

  /** The initial hash value is what the standard says: the square roots of the first 8 primes. */
  lemma InitialValuesAreSquareRoots(i: nat)
    requires i < 8
    ensures SquareRootBits(Prime(i), SquareFloor(Prime(i)), H[i])
  {
    hide SquareRootBits, PrimeRow, SquareFloor;
    if i < 4 { SquareRow0(); } else { SquareRow1(); }
    assert SquareRootAt(i / 4, i % 4);
  }
}
