/** SHA-1 as sections 4 to 6 of FIPS 180-4 define it. */
module Sha1Spec {
  type Word = bv32
  type Byte = bv8

  /** The five working variables, or the five words of a hash value. */
  datatype Hash = Hash(a: Word, b: Word, c: Word, d: Word, e: Word)

  const IV: Hash := Hash(0x67452301, 0xEFCDAB89, 0x98BADCFE, 0x10325476, 0xC3D2E1F0)

  // ROTL of section 3.2, for the distances that occur

  function Rotl1(x: Word): Word { (x << 1) | (x >> 31) }
  function Rotl5(x: Word): Word { (x << 5) | (x >> 27) }
  function Rotl30(x: Word): Word { (x << 30) | (x >> 2) }

  // ----- section 4.1.1 and 4.2.1

  function Ch(x: Word, y: Word, z: Word): Word {
    (x & y) ^ (!x & z)
  }

  function Parity(x: Word, y: Word, z: Word): Word {
    x ^ y ^ z
  }

  function Maj(x: Word, y: Word, z: Word): Word {
    (x & y) ^ (x & z) ^ (y & z)
  }

  function F(t: nat, x: Word, y: Word, z: Word): Word {
    if t < 20 then Ch(x, y, z) else if t < 40 then Parity(x, y, z) else if t < 60 then Maj(x, y, z) else Parity(x, y, z)
  }

  function K(t: nat): Word {
    if t < 20 then 0x5A827999 else if t < 40 then 0x6ED9EBA1 else if t < 60 then 0x8F1BBCDC else 0xCA62C1D6
  }

  // ----- what the constants and the rotations are

  /** The largest integer whose square is at most `n * 2^60`, that is 2^30 times a square root, cut off. */
  predicate IsRoot(k: nat, n: nat) {
    k * k <= n * 0x1000_0000_0000_0000 < (k + 1) * (k + 1)
  }

  /** The four constants are 2^30 times the square roots of 2, 3, 5 and 10. */
  lemma ConstantsAreRoots(t: nat)
    ensures IsRoot(K(t) as int, if t < 20 then 2 else if t < 40 then 3 else if t < 60 then 5 else 10)
  {
    assert IsRoot(0x5A827999, 2) && IsRoot(0x6ED9EBA1, 3) && IsRoot(0x8F1BBCDC, 5) && IsRoot(0xCA62C1D6, 10);
  }

  lemma RotateOne(x: Word)
    ensures Rotl1(x) & 1 == x >> 31 && Rotl1(x) >> 1 == x & 0x7FFF_FFFF
  {}

  lemma RotateFive(x: Word)
    ensures Rotl5(x) == Rotl1(Rotl1(Rotl1(Rotl1(Rotl1(x)))))
  {}

  lemma RotateBack(x: Word)
    ensures Rotl1(Rotl1(Rotl30(x))) == x
  {}

  /** A rotation by one moves every bit up and the top one to the bottom; the others are rotations by one, five times, and
      two times backwards. */
  lemma RotationsMean(x: Word)
    ensures Rotl1(x) & 1 == x >> 31 && Rotl1(x) >> 1 == x & 0x7FFF_FFFF
    ensures Rotl5(x) == Rotl1(Rotl1(Rotl1(Rotl1(Rotl1(x)))))
    ensures Rotl1(Rotl1(Rotl30(x))) == x
  {
    hide Rotl1, Rotl5, Rotl30;
    RotateOne(x);
    RotateFive(x);
    RotateBack(x);
  }

  // ----- section 6.1.2

  /** The order of the octets: the first is the most significant, and taking a word apart undoes joining it. */
  lemma BigEndianMeans(b0: Byte, b1: Byte, b2: Byte, b3: Byte)
    ensures BigEndian(b0, b1, b2, b3) >> 24 == b0 as Word && BigEndian(b0, b1, b2, b3) & 0xFF == b3 as Word
    ensures WordBytes(BigEndian(b0, b1, b2, b3)) == [b0, b1, b2, b3]
  {}

  /** The initial value: octets that count up from 01 by 22, their complements, and octets that count down from F0 by
      0F, each word with its lowest octet first. */
  lemma InitialValue(j: Word)
    requires j < 4
    ensures (IV.a >> (8 * j as int)) & 0xFF == 0x01 + 0x22 * j && (IV.b >> (8 * j as int)) & 0xFF == 0x89 + 0x22 * j
    ensures IV.c == !IV.a && IV.d == !IV.b && (IV.e >> (8 * j as int)) & 0xFF == 0xF0 - 0x0F * j
  {
    assert j == 0 || j == 1 || j == 2 || j == 3;
  }

  /** The word with these four octets, the most significant first. */
  function Join(a: Word, b: Word, c: Word, d: Word): Word {
    (a << 24) | (b << 16) | (c << 8) | d
  }

  function BigEndian(b0: Byte, b1: Byte, b2: Byte, b3: Byte): Word {
    Join(b0 as Word, b1 as Word, b2 as Word, b3 as Word)
  }

  function Mix(a: Word, b: Word, c: Word, d: Word): Word {
    Rotl1(a ^ b ^ c ^ d)
  }

  /** The message schedule. */
  function W(block: seq<Byte>, t: nat): Word
    requires |block| == 64
  {
    if t < 16 then BigEndian(block[4 * t], block[4 * t + 1], block[4 * t + 2], block[4 * t + 3])
    else Mix(W(block, t - 3), W(block, t - 8), W(block, t - 14), W(block, t - 16))
  }

  /** The value T of a round. */
  function T(t: nat, a: Word, b: Word, c: Word, d: Word, e: Word, w: Word): Word {
    Rotl5(a) + F(t, b, c, d) + e + K(t) + w
  }

  function Round(v: Hash, t: nat, w: Word): Hash {
    Hash(T(t, v.a, v.b, v.c, v.d, v.e, w), v.a, Rotl30(v.b), v.c, v.d)
  }

  function Rounds(v: Hash, block: seq<Byte>, t: nat): Hash
    requires |block| == 64
  {
    if t == 0 then v else Round(Rounds(v, block, t - 1), t - 1, W(block, t - 1))
  }

  /** Addition modulo 2^32. */
  function Plus(x: Word, y: Word): Word { x + y }

  function Compress(h: Hash, block: seq<Byte>): Hash
    requires |block| == 64
  {
    var v := Rounds(h, block, 80);
    Hash(Plus(h.a, v.a), Plus(h.b, v.b), Plus(h.c, v.c), Plus(h.d, v.d), Plus(h.e, v.e))
  }

  /** All blocks of a message that is a whole number of them. */
  function Fold(h: Hash, bytes: seq<Byte>): Hash
    requires |bytes| % 64 == 0
    decreases |bytes|
  {
    if bytes == [] then h else Fold(Compress(h, bytes[..64]), bytes[64..])
  }

  // ----- section 5.1.1

  /** The number of zero bytes between the one bit and the length. */
  function ZeroBytes(n: nat): nat {
    (55 - n) % 64
  }

  function Length64(bits: nat): seq<Byte> {
    seq(8, i requires 0 <= i < 8 => Octet(bits, 7 - i))
  }

  /** The octet of `n` with weight 256^i. */
  function Octet(n: nat, i: nat): Byte {
    Digit(n, i) as Byte
  }

  function Digit(n: nat, i: nat): (d: nat)
    ensures d < 256
  {
    Shift(n, i) % 256
  }

  function Shift(n: nat, i: nat): nat {
    if i == 0 then n else Shift(n / 256, i - 1)
  }

  function Pad(msg: seq<Byte>): (r: seq<Byte>)
    ensures |r| % 64 == 0
  {
    msg + [0x80] + seq(ZeroBytes(|msg|), _ => 0) + Length64(8 * |msg|)
  }

  function WordBytes(w: Word): seq<Byte> {
    [(w >> 24) as Byte, ((w >> 16) & 0xFF) as Byte, ((w >> 8) & 0xFF) as Byte, (w & 0xFF) as Byte]
  }

  function Digest(h: Hash): seq<Byte> {
    WordBytes(h.a) + WordBytes(h.b) + WordBytes(h.c) + WordBytes(h.d) + WordBytes(h.e)
  }

  /** The padding of section 5.1.1: the message, a bit that is one, as few zero bits as fill the last block up, and the
      length of the message in bits. */
  lemma PadMeans(msg: seq<Byte>)
    ensures var r, n := Pad(msg), |msg|;
      && r[..n] == msg && r[n] as int == 128
      && (forall i :: n < i < |r| - 8 ==> r[i] == 0)
      && |r| % 64 == 0 && n + 9 <= |r| < n + 9 + 64
      && r[|r| - 8..] == Length64(8 * n)
  {
    var r, n := Pad(msg), |msg|;
    var z := seq(ZeroBytes(n), _ => 0 as Byte);
    assert |Length64(8 * n)| == 8;
    hide Length64;
    assert r == msg + ([0x80] + z + Length64(8 * n));
    assert r == (msg + [0x80] + z) + Length64(8 * n);
  }

  /** The five words in order, four octets each. */
  lemma DigestMeans(h: Hash)
    ensures var d := Digest(h);
      && |d| == 20 && d[0..4] == WordBytes(h.a) && d[4..8] == WordBytes(h.b) && d[8..12] == WordBytes(h.c)
      && d[12..16] == WordBytes(h.d) && d[16..20] == WordBytes(h.e)
  {
    var (a, b, c, d, e) := (WordBytes(h.a), WordBytes(h.b), WordBytes(h.c), WordBytes(h.d), WordBytes(h.e));
    assert |a| == 4 && |b| == 4 && |c| == 4 && |d| == 4 && |e| == 4;
    hide WordBytes;
    Parts(a, b, c, d, e);
  }

  lemma Parts(a: seq<Byte>, b: seq<Byte>, c: seq<Byte>, d: seq<Byte>, e: seq<Byte>)
    requires |a| == 4 && |b| == 4 && |c| == 4 && |d| == 4 && |e| == 4
    ensures var x := a + b + c + d + e;
      x[0..4] == a && x[4..8] == b && x[8..12] == c && x[12..16] == d && x[16..20] == e
  {}

  function Sha1(msg: seq<Byte>): seq<Byte> {
    Digest(Fold(IV, Pad(msg)))
  }

  // ----- properties used by an implementation that takes its input in pieces

  lemma Multiples(a: nat, b: nat)
    requires a % 64 == 0 && b % 64 == 0
    ensures (a + b) % 64 == 0 && (a > 0 ==> a >= 64 && (a - 64) % 64 == 0)
  {}

  lemma FoldStep(h: Hash, bytes: seq<Byte>)
    requires |bytes| % 64 == 0 && |bytes| >= 64
    ensures (|bytes| - 64) % 64 == 0 && Fold(h, bytes) == Fold(Compress(h, bytes[..64]), bytes[64..])
  {
    hide Compress;
  }

  lemma {:induction false} FoldConcat(h: Hash, xs: seq<Byte>, ys: seq<Byte>)
    requires |xs| % 64 == 0 && |ys| % 64 == 0
    ensures (|xs| + |ys|) % 64 == 0 && Fold(h, xs + ys) == Fold(Fold(h, xs), ys)
    decreases |xs|
  {
    hide Compress, Fold;
    Multiples(|xs|, |ys|);
    if xs == [] {
      assert xs + ys == ys;
      FoldNothing(h);
    } else {
      FoldStep(h, xs + ys);
      FoldStep(h, xs);
      assert (xs + ys)[..64] == xs[..64] && (xs + ys)[64..] == xs[64..] + ys;
      FoldConcat(Compress(h, xs[..64]), xs[64..], ys);
    }
  }

  lemma FoldNothing(h: Hash)
    ensures Fold(h, []) == h
  {}
}
